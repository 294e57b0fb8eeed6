/** The HTTP handlers of the server as pure transitions over the database.
    Each mutating handler returns its reply together with the database after
    the request; the clock is the explicit parameter `now` (Unix seconds). */
module Server {

  import opened Optional
  import opened Http
  import opened Params
  import opened Text
  import opened Sorting
  import opened Tables

  /** A reply together with the database after the request. */
  datatype Step<+T> = Step(reply: Result<T>, next: Store)

  /** One row of the history listing. */
  datatype HistoryRow = HistoryRow(title: string, points: real, timestamp: int)

  /** The `reward` field of an admin request. */
  datatype RewardParam = Undefined | Null | Amount(value: real)

  /** At most this many history rows are returned. */
  const HistoryLimit: nat := 20

  /** The `Bearer ` marker the admin check strips from the header. */
  const BearerPrefix: string := "Bearer "

  function Min(a: nat, b: nat): nat
  {
    if a <= b then a else b
  }

  /** A user row exists for the key the request value names. */
  ghost predicate Known(st: Store, p: Param)
  {
    KeyOf(p).Some? && KeyOf(p).value in st.balances
  }

  /** An ad row exists for the key the request value names. */
  ghost predicate AdKnown(st: Store, p: Param)
  {
    KeyOf(p).Some? && Listed(st.ads, KeyOf(p).value)
  }

  /** The user named by `u` clicked the ad named by `a` within the window
      ending at `now`. */
  ghost predicate Cooling(st: Store, u: Param, a: Param, now: int)
  {
    KeyOf(u).Some? && KeyOf(a).Some? && ClickedSince(st.clicks, KeyOf(u).value, KeyOf(a).value, now - Window)
  }

  // ---------------------------------------------------------------- /register

  /** POST /register: `INSERT OR IGNORE` a user with balance 0. A string that
      is not an integer cannot be stored in the INTEGER PRIMARY KEY, so the
      database refuses it. */
  function Register(st: Store, userId: Param): (r: Step<()>)
    ensures !Truthy(userId) ==> r == Step(Err(UserIdRequired), st)
    ensures Truthy(userId) && KeyOf(userId).None? ==> r == Step(Err(StoreError), st)
    ensures r.reply.Ok? <==> Truthy(userId) && KeyOf(userId).Some?
    ensures r.reply.Ok? ==>
      var u := KeyOf(userId).value;
      && r.next.balances.Keys == st.balances.Keys + {u}
      && r.next.balances[u] == (if u in st.balances then st.balances[u] else 0.0)
      && (forall v :: v in st.balances ==> r.next.balances[v] == st.balances[v])
      && r.next.ads == st.ads && r.next.lastAdId == st.lastAdId && r.next.clicks == st.clicks
  {
    if !Truthy(userId) then Step(Err(UserIdRequired), st)
    else match KeyOf(userId)
      case None => Step(Err(StoreError), st)
      case Some(u) =>
        if u in st.balances then Step(Ok(()), st)
        else Step(Ok(()), st.(balances := st.balances[u := 0.0]))
  }

  // --------------------------------------------------------------------- /ads

  /** The ads with no click by `key` newer than `since`, in table order. */
  function Unclaimed(ads: seq<AdRow>, clicks: seq<Click>, key: Option<int>, since: int): (r: seq<AdRow>)
    ensures |r| <= |ads|
    ensures forall a :: a in r <==> a in ads && !(key.Some? && ClickedSince(clicks, key.value, a.id, since))
  {
    if |ads| == 0 then []
    else
      var rest := Unclaimed(ads[1..], clicks, key, since);
      assert ads == [ads[0]] + ads[1..];
      var blocked := match key
        case None => false
        case Some(u) => HasRecentClick(clicks, u, ads[0].id, since);
      if blocked then rest else [ads[0]] + rest
  }

  /** Filtering never introduces an id. */
  lemma {:induction false} UnclaimedOtherThan(ads: seq<AdRow>, clicks: seq<Click>, key: Option<int>, since: int, k: int)
    requires AllOtherThan(ads, IdOf, k)
    ensures AllOtherThan(Unclaimed(ads, clicks, key, since), IdOf, k)
  {
    if |ads| > 0 {
      var tail := ads[1..];
      assert AllOtherThan(tail, IdOf, k) by {
        assert forall i :: 0 <= i < |tail| ==> tail[i] == ads[i + 1];
      }
      UnclaimedOtherThan(tail, clicks, key, since, k);
      var rest := Unclaimed(tail, clicks, key, since);
      var r := Unclaimed(ads, clicks, key, since);
      if r != rest {
        assert r == [ads[0]] + rest;
        assert forall i :: 0 < i < |r| ==> r[i] == rest[i - 1];
      }
    }
  }

  /** Filtering keeps the ids of distinct rows distinct. */
  lemma {:induction false} UnclaimedDistinct(ads: seq<AdRow>, clicks: seq<Click>, key: Option<int>, since: int)
    requires DistinctKeys(ads, IdOf)
    ensures DistinctKeys(Unclaimed(ads, clicks, key, since), IdOf)
  {
    if |ads| > 0 {
      var tail := ads[1..];
      TailDistinct(ads, IdOf);
      UnclaimedDistinct(tail, clicks, key, since);
      var rest := Unclaimed(tail, clicks, key, since);
      if Unclaimed(ads, clicks, key, since) != rest {
        UnclaimedOtherThan(tail, clicks, key, since, ads[0].id);
        ConsDistinct(ads[0], rest, IdOf);
      }
    }
  }

  /** GET /ads?userId=: every ad without a click by this user in the last 24
      hours, ordered by id. The user need not be registered. */
  function AvailableAds(st: Store, userId: Param, now: int): (r: Result<seq<AdRow>>)
    ensures r.Err? <==> !Truthy(userId)
    ensures r.Err? ==> r.error == UserIdRequired
    ensures r.Ok? ==> forall a :: a in r.value <==>
      a in st.ads && !(KeyOf(userId).Some? && ClickedSince(st.clicks, KeyOf(userId).value, a.id, now - Window))
    ensures r.Ok? ==> forall i, j :: 0 <= i < j < |r.value| ==> r.value[i].id <= r.value[j].id
    ensures r.Ok? && Valid(st) ==> forall i, j :: 0 <= i < j < |r.value| ==> r.value[i].id < r.value[j].id
  {
    if !Truthy(userId) then Err(UserIdRequired)
    else
      var rows := Unclaimed(st.ads, st.clicks, KeyOf(userId), now - Window);
      var sorted := SortBy(rows, IdOf);
      assert forall a :: a in sorted <==> a in rows by {
        forall a ensures a in sorted <==> a in rows {
          assert a in sorted <==> a in multiset(sorted);
          assert a in rows <==> a in multiset(rows);
        }
      }
      assert Valid(st) ==> StrictlySortedBy(sorted, IdOf) by {
        if Valid(st) {
          UnclaimedDistinct(st.ads, st.clicks, KeyOf(userId), now - Window);
          SortByStrict(rows, IdOf);
        }
      }
      Ok(sorted)
  }

  // ------------------------------------------------------------------- /click

  /** POST /click: the claim gate. Four checks in a fixed order, each failure
      leaving the database untouched; on success one click with the ad's
      current reward is appended and the same amount is added to the user's
      balance, as one atomic step. */
  function Claim(st: Store, userId: Param, adId: Param, now: int): (r: Step<real>)
    ensures r.reply.Err? ==> r.next == st
    ensures r.reply == Err(ClickFieldsRequired) <==> !(Truthy(userId) && Truthy(adId))
    ensures r.reply == Err(UserNotFound) <==> Truthy(userId) && Truthy(adId) && !Known(st, userId)
    ensures r.reply == Err(AdNotFound) <==>
      Truthy(userId) && Truthy(adId) && Known(st, userId) && !AdKnown(st, adId)
    ensures r.reply == Err(AlreadyClicked) <==>
      Truthy(userId) && Truthy(adId) && Known(st, userId) && AdKnown(st, adId) && Cooling(st, userId, adId, now)
    ensures r.reply.Ok? <==>
      Truthy(userId) && Truthy(adId) && Known(st, userId) && AdKnown(st, adId) && !Cooling(st, userId, adId, now)
    ensures r.reply.Ok? ==>
      var u := KeyOf(userId).value;
      var a := KeyOf(adId).value;
      var ad := FindAd(st.ads, a).value;
      && r.reply.value == ad.reward
      && r.next.clicks == st.clicks + [Click(u, a, ad.reward, now)]
      && r.next.balances.Keys == st.balances.Keys
      && r.next.balances[u] == st.balances[u] + ad.reward
      && (forall v :: v in st.balances && v != u ==> r.next.balances[v] == st.balances[v])
      && r.next.ads == st.ads && r.next.lastAdId == st.lastAdId
  {
    if !Truthy(userId) || !Truthy(adId) then Step(Err(ClickFieldsRequired), st)
    else match KeyOf(userId)
      case None => Step(Err(UserNotFound), st)
      case Some(u) =>
        if u !in st.balances then Step(Err(UserNotFound), st)
        else match KeyOf(adId)
          case None => Step(Err(AdNotFound), st)
          case Some(a) =>
            match FindAd(st.ads, a)
            case None => Step(Err(AdNotFound), st)
            case Some(ad) =>
              if HasRecentClick(st.clicks, u, a, now - Window) then Step(Err(AlreadyClicked), st)
              else
                Step(Ok(ad.reward),
                     st.(clicks := st.clicks + [Click(u, a, ad.reward, now)],
                         balances := st.balances[u := st.balances[u] + ad.reward]))
  }

  // ---------------------------------------------------------------- /user/:id

  /** GET /user/:id: the stored balance of the user the path segment names. */
  function Balance(st: Store, id: string): (r: Result<real>)
    ensures r.Err? <==> !Known(st, Str(id))
    ensures r.Err? ==> r.error == UserNotFound
    ensures r.Ok? ==> r.value == st.balances[KeyOf(Str(id)).value]
  {
    match KeyOf(Str(id))
    case None => Err(UserNotFound)
    case Some(u) => if u in st.balances then Ok(st.balances[u]) else Err(UserNotFound)
  }

  // ------------------------------------------------------------- /history/:id

  /** Click `c` belongs to `key` and its ad still exists. */
  ghost predicate Joins(ads: seq<AdRow>, c: Click, key: Option<int>)
  {
    key == Some(c.user) && Listed(ads, c.ad)
  }

  /** The history row a joining click shows: its ad's title and the click's
      own points and time. */
  function RowOf(ads: seq<AdRow>, c: Click): HistoryRow
    requires Listed(ads, c.ad)
  {
    HistoryRow(FindAd(ads, c.ad).value.title, c.points, c.timestamp)
  }

  /** The joined row for click `c` when it belongs to `key` and its ad still
      exists. */
  function JoinRow(ads: seq<AdRow>, c: Click, key: Option<int>): (r: Option<HistoryRow>)
    ensures r.Some? <==> Joins(ads, c, key)
    ensures r.Some? ==> r.value == RowOf(ads, c)
  {
    if key != Some(c.user) then None
    else match FindAd(ads, c.ad)
      case None => None
      case Some(_) => Some(RowOf(ads, c))
  }

  /** `clicks c JOIN ads a ON c.ad_id = a.id WHERE c.user_id = key`, in log
      order. */
  function Joined(ads: seq<AdRow>, clicks: seq<Click>, key: Option<int>): (r: seq<HistoryRow>)
    ensures |r| <= |clicks|
  {
    if |clicks| == 0 then []
    else
      var rest := Joined(ads, clicks[1..], key);
      match JoinRow(ads, clicks[0], key)
      case None => rest
      case Some(e) => [e] + rest
  }

  /** Every joined row comes from a click of `key` on an existing ad, with
      that ad's title and the click's own points and time. */
  lemma {:induction false} JoinedSound(ads: seq<AdRow>, clicks: seq<Click>, key: Option<int>, e: HistoryRow)
    requires e in Joined(ads, clicks, key)
    ensures exists i, j ::
      && 0 <= i < |clicks| && 0 <= j < |ads|
      && key == Some(clicks[i].user) && ads[j].id == clicks[i].ad
      && e == HistoryRow(ads[j].title, clicks[i].points, clicks[i].timestamp)
  {
    var rest := Joined(ads, clicks[1..], key);
    var row := JoinRow(ads, clicks[0], key);
    if row.Some? && e == row.value {
      var ad := FindAd(ads, clicks[0].ad).value;
      var j :| 0 <= j < |ads| && ads[j] == ad;
      assert key == Some(clicks[0].user) && ads[j].id == clicks[0].ad;
    } else {
      assert e in rest;
      JoinedSound(ads, clicks[1..], key, e);
      var i, j :| && 0 <= i < |clicks[1..]| && 0 <= j < |ads|
        && key == Some(clicks[1..][i].user) && ads[j].id == clicks[1..][i].ad
        && e == HistoryRow(ads[j].title, clicks[1..][i].points, clicks[1..][i].timestamp);
      assert clicks[1..][i] == clicks[i + 1];
    }
  }

  /** `idx` lists, in increasing order, exactly the positions of the joining
      clicks, and row `k` of `r` is the row of click `idx[k]`. */
  ghost predicate JoinedBy(ads: seq<AdRow>, clicks: seq<Click>, key: Option<int>, r: seq<HistoryRow>, idx: seq<int>)
  {
    && |idx| == |r|
    && (forall k :: 0 <= k < |idx| ==>
          0 <= idx[k] < |clicks| && Joins(ads, clicks[idx[k]], key) && r[k] == RowOf(ads, clicks[idx[k]]))
    && (forall k, l :: 0 <= k < l < |idx| ==> idx[k] < idx[l])
    && (forall i :: 0 <= i < |clicks| && Joins(ads, clicks[i], key) ==> i in idx)
  }

  /** Every click of `key` on an existing ad yields a joined row with that
      ad's title and the click's own points and time. */
  lemma {:induction false} JoinedComplete(ads: seq<AdRow>, clicks: seq<Click>, key: Option<int>, i: int)
    requires 0 <= i < |clicks| && key == Some(clicks[i].user) && Listed(ads, clicks[i].ad)
    ensures HistoryRow(FindAd(ads, clicks[i].ad).value.title, clicks[i].points, clicks[i].timestamp)
              in Joined(ads, clicks, key)
  {
    if i > 0 {
      assert clicks[1..][i - 1] == clicks[i];
      JoinedComplete(ads, clicks[1..], key, i - 1);
    }
  }

  /** Every position moved one click later. */
  ghost function Shift(idx: seq<int>): (r: seq<int>)
    ensures |r| == |idx|
    ensures forall k :: 0 <= k < |r| ==> r[k] == idx[k] + 1
  {
    seq(|idx|, k requires 0 <= k < |idx| => idx[k] + 1)
  }

  /** Positions into the tail of the log, moved one later, are positions into
      the whole log, and they miss at most the first joining click. */
  lemma ShiftJoined(ads: seq<AdRow>, clicks: seq<Click>, key: Option<int>, ri: seq<int>)
    requires |clicks| > 0 && JoinedBy(ads, clicks[1..], key, Joined(ads, clicks[1..], key), ri)
    ensures forall k :: 0 <= k < |ri| ==>
      1 <= Shift(ri)[k] < |clicks| && Joins(ads, clicks[Shift(ri)[k]], key)
      && Joined(ads, clicks[1..], key)[k] == RowOf(ads, clicks[Shift(ri)[k]])
    ensures forall i :: 1 <= i < |clicks| && Joins(ads, clicks[i], key) ==> i in Shift(ri)
  {
    var tail := clicks[1..];
    var shifted := Shift(ri);
    assert forall k :: 0 <= k < |ri| ==> tail[ri[k]] == clicks[shifted[k]];
    forall i | 1 <= i < |clicks| && Joins(ads, clicks[i], key) ensures i in shifted {
      assert tail[i - 1] == clicks[i];
      var k :| 0 <= k < |ri| && ri[k] == i - 1;
      assert shifted[k] == i;
    }
  }

  /** A joining first click puts its row in front of the tail's join. */
  lemma JoinedCons(ads: seq<AdRow>, clicks: seq<Click>, key: Option<int>)
    requires |clicks| > 0
    ensures Joins(ads, clicks[0], key) ==>
      Joined(ads, clicks, key) == [RowOf(ads, clicks[0])] + Joined(ads, clicks[1..], key)
    ensures !Joins(ads, clicks[0], key) ==> Joined(ads, clicks, key) == Joined(ads, clicks[1..], key)
  {
  }

  /** Rows of the joining tail clicks, behind the row of a joining first
      click, are indexed by the tail positions moved one later, behind 0. */
  lemma KeepRows(ads: seq<AdRow>, clicks: seq<Click>, key: Option<int>,
                 rest: seq<HistoryRow>, r: seq<HistoryRow>, ri: seq<int>)
    requires |clicks| > 0 && Joins(ads, clicks[0], key) && r == [RowOf(ads, clicks[0])] + rest
    requires |ri| == |rest|
    requires forall k :: 0 <= k < |ri| ==>
      1 <= Shift(ri)[k] < |clicks| && Joins(ads, clicks[Shift(ri)[k]], key)
      && rest[k] == RowOf(ads, clicks[Shift(ri)[k]])
    ensures var idx := [0] + Shift(ri);
      forall k :: 0 <= k < |idx| ==>
        0 <= idx[k] < |clicks| && Joins(ads, clicks[idx[k]], key) && r[k] == RowOf(ads, clicks[idx[k]])
  {
    var idx := [0] + Shift(ri);
    forall k | 0 < k < |idx|
      ensures 0 <= idx[k] < |clicks| && Joins(ads, clicks[idx[k]], key) && r[k] == RowOf(ads, clicks[idx[k]])
    {
      assert idx[k] == Shift(ri)[k - 1] && r[k] == rest[k - 1];
    }
  }

  /** Increasing non-negative positions, moved one later, stay increasing
      behind 0. */
  lemma KeepOrdered(ri: seq<int>)
    requires forall k :: 0 <= k < |ri| ==> 0 <= ri[k]
    requires forall k, l :: 0 <= k < l < |ri| ==> ri[k] < ri[l]
    ensures var idx := [0] + Shift(ri); forall k, l :: 0 <= k < l < |idx| ==> idx[k] < idx[l]
  {
    var idx := [0] + Shift(ri);
    forall k, l | 0 <= k < l < |idx| ensures idx[k] < idx[l] {
      if k > 0 {
        assert idx[k] == Shift(ri)[k - 1] && idx[l] == Shift(ri)[l - 1];
      }
    }
  }

  /** With the first click joining, position 0 completes the cover. */
  lemma KeepCovers(ads: seq<AdRow>, clicks: seq<Click>, key: Option<int>, ri: seq<int>)
    requires forall i :: 1 <= i < |clicks| && Joins(ads, clicks[i], key) ==> i in Shift(ri)
    ensures forall i :: 0 <= i < |clicks| && Joins(ads, clicks[i], key) ==> i in [0] + Shift(ri)
  {
    var idx := [0] + Shift(ri);
    forall i | 0 <= i < |clicks| && Joins(ads, clicks[i], key) ensures i in idx {
      if i > 0 {
        var k :| 0 <= k < |ri| && Shift(ri)[k] == i;
        assert idx[k + 1] == i;
      }
    }
  }

  /** The three parts together: the keep case of the join's index witness. */
  lemma KeepIndexed(ads: seq<AdRow>, clicks: seq<Click>, key: Option<int>,
                    rest: seq<HistoryRow>, r: seq<HistoryRow>, ri: seq<int>)
    requires |clicks| > 0 && Joins(ads, clicks[0], key) && r == [RowOf(ads, clicks[0])] + rest
    requires JoinedBy(ads, clicks[1..], key, rest, ri)
    requires forall k :: 0 <= k < |ri| ==>
      1 <= Shift(ri)[k] < |clicks| && Joins(ads, clicks[Shift(ri)[k]], key)
      && rest[k] == RowOf(ads, clicks[Shift(ri)[k]])
    requires forall i :: 1 <= i < |clicks| && Joins(ads, clicks[i], key) ==> i in Shift(ri)
    ensures JoinedBy(ads, clicks, key, r, [0] + Shift(ri))
  {
    KeepRows(ads, clicks, key, rest, r, ri);
    KeepOrdered(ri);
    KeepCovers(ads, clicks, key, ri);
  }

  /** The first click joins: its row heads the join, before the tail's. */
  lemma JoinedKeep(ads: seq<AdRow>, clicks: seq<Click>, key: Option<int>, ri: seq<int>)
    requires |clicks| > 0 && Joins(ads, clicks[0], key)
    requires JoinedBy(ads, clicks[1..], key, Joined(ads, clicks[1..], key), ri)
    ensures JoinedBy(ads, clicks, key, Joined(ads, clicks, key), [0] + Shift(ri))
  {
    ShiftJoined(ads, clicks, key, ri);
    JoinedCons(ads, clicks, key);
    KeepIndexed(ads, clicks, key, Joined(ads, clicks[1..], key), Joined(ads, clicks, key), ri);
  }

  /** The first click does not join: the join is the tail's. */
  lemma JoinedSkip(ads: seq<AdRow>, clicks: seq<Click>, key: Option<int>, ri: seq<int>)
    requires |clicks| > 0 && !Joins(ads, clicks[0], key)
    requires JoinedBy(ads, clicks[1..], key, Joined(ads, clicks[1..], key), ri)
    ensures JoinedBy(ads, clicks, key, Joined(ads, clicks, key), Shift(ri))
  {
    ShiftJoined(ads, clicks, key, ri);
    JoinedCons(ads, clicks, key);
  }

  /** The join has one row per joining click, in log order, and no other:
      its rows are exactly the rows of the joining clicks, position by
      position. Two clicks with equal rows still give two rows. */
  lemma {:induction false} JoinedExactly(ads: seq<AdRow>, clicks: seq<Click>, key: Option<int>)
    ensures exists idx :: JoinedBy(ads, clicks, key, Joined(ads, clicks, key), idx)
  {
    if |clicks| == 0 {
      assert JoinedBy(ads, clicks, key, Joined(ads, clicks, key), []);
    } else {
      JoinedExactly(ads, clicks[1..], key);
      var ri :| JoinedBy(ads, clicks[1..], key, Joined(ads, clicks[1..], key), ri);
      if Joins(ads, clicks[0], key) {
        JoinedKeep(ads, clicks, key, ri);
      } else {
        JoinedSkip(ads, clicks, key, ri);
      }
    }
  }

  function NewestFirst(e: HistoryRow): int
  {
    -e.timestamp
  }

  /** The `n` newest of `rows` (`ORDER BY timestamp DESC LIMIT n`). */
  function Newest(rows: seq<HistoryRow>, n: nat): (r: seq<HistoryRow>)
    ensures |r| == Min(n, |rows|)
    ensures multiset(r) <= multiset(rows)
    ensures forall i, j :: 0 <= i < j < |r| ==> r[i].timestamp >= r[j].timestamp
    ensures forall e, i :: e in multiset(rows) - multiset(r) && 0 <= i < |r| ==> e.timestamp <= r[i].timestamp
  {
    var r := Smallest(rows, NewestFirst, n);
    forall i, j | 0 <= i < j < |r| ensures r[i].timestamp >= r[j].timestamp {
      assert NewestFirst(r[i]) <= NewestFirst(r[j]);
    }
    forall e, i | e in multiset(rows) - multiset(r) && 0 <= i < |r| ensures e.timestamp <= r[i].timestamp {
      assert NewestFirst(r[i]) <= NewestFirst(e);
    }
    r
  }

  /** GET /history/:id: the user's joined clicks, newest first, at most 20. */
  function History(st: Store, id: string): (r: seq<HistoryRow>)
    ensures |r| == Min(HistoryLimit, |Joined(st.ads, st.clicks, KeyOf(Str(id)))|)
    ensures multiset(r) <= multiset(Joined(st.ads, st.clicks, KeyOf(Str(id))))
    ensures forall i, j :: 0 <= i < j < |r| ==> r[i].timestamp >= r[j].timestamp
    ensures forall e, i :: e in multiset(Joined(st.ads, st.clicks, KeyOf(Str(id)))) - multiset(r) && 0 <= i < |r|
              ==> e.timestamp <= r[i].timestamp
  {
    Newest(Joined(st.ads, st.clicks, KeyOf(Str(id))), HistoryLimit)
  }

  // ---------------------------------------------------------------- /admin/ad

  /** The `authenticateAdmin` middleware. `adminId` is the ADMIN_USER_ID
      setting (None when unset); the token is the header with its first
      `Bearer ` removed, wherever that occurrence is. */
  function Authenticate(adminId: Option<string>, header: Option<string>): (r: Result<()>)
    ensures header.None? || header == Some("") ==> r == Err(NoAuthHeader)
    ensures header.Some? && header != Some("") ==>
      (r.Ok? <==> adminId == Some(RemoveFirst(header.value, BearerPrefix)))
    ensures header.Some? && header != Some("") && r.Err? ==> r.error == Forbidden
    ensures r.Err? ==> r.error in {NoAuthHeader, Forbidden}
  {
    match header
    case None => Err(NoAuthHeader)
    case Some(h) =>
      if h == "" then Err(NoAuthHeader)
      else if adminId != Some(RemoveFirst(h, BearerPrefix)) then Err(Forbidden)
      else Ok(())
  }

  /** The admin check passed and title, url and reward are all present. */
  ghost predicate AdFieldsGiven(adminId: Option<string>, header: Option<string>,
                                title: Option<string>, url: Option<string>, reward: RewardParam)
  {
    Authenticate(adminId, header).Ok? && title.Some? && title != Some("") && url.Some? && url != Some("") && !reward.Undefined?
  }

  /** POST /admin/ad: after the admin check, a title and url must be truthy
      and `reward` present; a `null` reward passes that test but violates the
      NOT NULL column. The new row gets the next AUTOINCREMENT id; once the
      largest 64-bit id has been used, SQLite refuses the insert. */
  function CreateAd(st: Store, adminId: Option<string>, header: Option<string>,
                    title: Option<string>, url: Option<string>, reward: RewardParam): (r: Step<int>)
    ensures r.reply.Err? ==> r.next == st
    ensures Authenticate(adminId, header).Err? ==> r.reply == Err(Authenticate(adminId, header).error)
    ensures Authenticate(adminId, header).Ok? ==>
      (r.reply == Err(AdFieldsRequired) <==> title in {None, Some("")} || url in {None, Some("")} || reward.Undefined?)
    ensures AdFieldsGiven(adminId, header, title, url, reward) && reward.Null? ==> r.reply == Err(StoreError)
    ensures AdFieldsGiven(adminId, header, title, url, reward) && st.lastAdId >= MaxKey ==> r.reply == Err(StoreError)
    ensures r.reply.Ok? <==> AdFieldsGiven(adminId, header, title, url, reward) && reward.Amount? && st.lastAdId < MaxKey
    ensures r.reply.Ok? ==>
      && r.reply.value == st.lastAdId + 1
      && r.next.ads == st.ads + [AdRow(r.reply.value, title.value, url.value, reward.value)]
      && r.next.lastAdId == r.reply.value
      && r.next.balances == st.balances && r.next.clicks == st.clicks
  {
    match Authenticate(adminId, header)
    case Err(e) => Step(Err(e), st)
    case Ok(_) =>
      if title.None? || title == Some("") || url.None? || url == Some("") || reward.Undefined? then
        Step(Err(AdFieldsRequired), st)
      else match reward
        case Null => Step(Err(StoreError), st)
        case Amount(v) =>
          if st.lastAdId >= MaxKey then Step(Err(StoreError), st)
          else
            var id := st.lastAdId + 1;
            Step(Ok(id), st.(ads := st.ads + [AdRow(id, title.value, url.value, v)], lastAdId := id))
  }
}
