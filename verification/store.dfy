/** The three tables of the database as one immutable value: user balances,
    the ads in insertion order, and the append-only log of clicks. */
module Tables {

  import opened Optional
  import opened Params
  import opened Sorting

  /** The cooldown window in seconds: 24 hours. */
  const Window: int := 24 * 60 * 60

  /** One row of `clicks`: who claimed which ad, the points credited at that
      moment, and the claim time in Unix seconds. */
  datatype Click = Click(user: int, ad: int, points: real, timestamp: int)

  /** One row of `ads`. */
  datatype AdRow = AdRow(id: int, title: string, url: string, reward: real)

  /** The whole database. `balances` is the `users` table keyed by id;
      `lastAdId` is the AUTOINCREMENT high-water mark of `ads`. */
  datatype Store = Store(balances: map<int, real>, ads: seq<AdRow>, lastAdId: int, clicks: seq<Click>)

  function IdOf(a: AdRow): int
  {
    a.id
  }

  /** Click `c` is by `u` on `a` and newer than `since` (strictly). */
  predicate RecentClick(c: Click, u: int, a: int, since: int)
  {
    c.user == u && c.ad == a && c.timestamp > since
  }

  /** Some click of `u` on `a` is newer than `since`. */
  ghost predicate ClickedSince(clicks: seq<Click>, u: int, a: int, since: int)
  {
    exists i :: 0 <= i < |clicks| && RecentClick(clicks[i], u, a, since)
  }

  /** `SELECT id FROM clicks WHERE user_id = u AND ad_id = a AND timestamp > since`
      returns a row. */
  function HasRecentClick(clicks: seq<Click>, u: int, a: int, since: int): (b: bool)
    ensures b <==> ClickedSince(clicks, u, a, since)
  {
    if |clicks| == 0 then false
    else
      var rest := clicks[1..];
      assert forall i :: 0 <= i < |rest| ==> rest[i] == clicks[i + 1];
      assert ClickedSince(clicks, u, a, since) ==>
        RecentClick(clicks[0], u, a, since) || ClickedSince(rest, u, a, since);
      RecentClick(clicks[0], u, a, since) || HasRecentClick(rest, u, a, since)
  }

  /** Some row of `ads` has id `id`. */
  ghost predicate Listed(ads: seq<AdRow>, id: int)
  {
    exists i :: 0 <= i < |ads| && ads[i].id == id
  }

  /** `SELECT ... FROM ads WHERE id = ?`: the first row with that id. */
  function FindAd(ads: seq<AdRow>, id: int): (r: Option<AdRow>)
    ensures r.Some? <==> Listed(ads, id)
    ensures r.Some? ==> r.value in ads && r.value.id == id
  {
    if |ads| == 0 then None
    else if ads[0].id == id then Some(ads[0])
    else
      var rest := ads[1..];
      assert forall i :: 0 <= i < |rest| ==> rest[i] == ads[i + 1];
      assert Listed(ads, id) ==> Listed(rest, id);
      FindAd(rest, id)
  }

  /** Sum of `points` over the clicks of `u`. */
  function PointsOf(clicks: seq<Click>, u: int): real
  {
    if |clicks| == 0 then 0.0
    else
      var last := clicks[|clicks| - 1];
      PointsOf(clicks[..|clicks| - 1], u) + (if last.user == u then last.points else 0.0)
  }

  /** Primary-key discipline: ad ids are distinct, positive and never above
      the AUTOINCREMENT high-water mark, which is itself a 64-bit integer, and
      every user id is a 64-bit integer. */
  ghost predicate Valid(st: Store)
  {
    && 0 <= st.lastAdId <= MaxKey
    && DistinctKeys(st.ads, IdOf)
    && (forall i :: 0 <= i < |st.ads| ==> 1 <= st.ads[i].id <= st.lastAdId)
    && (forall u :: u in st.balances ==> InKeyRange(u))
  }

  /** Every click belongs to a registered user, and every balance equals the
      sum of that user's click points. */
  ghost predicate Conserved(st: Store)
  {
    && (forall i :: 0 <= i < |st.clicks| ==> st.clicks[i].user in st.balances)
    && (forall u :: u in st.balances ==> st.balances[u] == PointsOf(st.clicks, u))
  }

  /** Any two clicks of the same user on the same ad lie at least one window
      apart, in log order. */
  ghost predicate Spaced(clicks: seq<Click>)
  {
    forall i, j ::
      0 <= i < j < |clicks| && clicks[i].user == clicks[j].user && clicks[i].ad == clicks[j].ad
      ==> clicks[i].timestamp + Window <= clicks[j].timestamp
  }

  /** The invariant every reachable database keeps. */
  ghost predicate Inv(st: Store)
  {
    Valid(st) && Conserved(st) && Spaced(st.clicks)
  }

  /** The database after start-up on an empty file: no users, no clicks, and
      the five sample ads with ids 1 to 5. */
  function Initial(): (st: Store)
    ensures Inv(st)
  {
    Store(map[],
          [ AdRow(1, "🎮 Premium Game Access", "https://example.com/game1", 0.02),
            AdRow(2, "🛍️ Exclusive Shopping Deal", "https://example.com/shop1", 0.03),
            AdRow(3, "🎬 Movie Streaming Offer", "https://example.com/movie1", 0.015),
            AdRow(4, "🎵 Music Premium Trial", "https://example.com/music1", 0.01),
            AdRow(5, "📚 Online Course Discount", "https://example.com/course1", 0.025) ],
          5, [])
  }
}
