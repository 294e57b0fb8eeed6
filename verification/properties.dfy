/** Properties of the handlers: the invariant every request preserves
    (balances equal click sums, cooldown spacing, primary keys), the rolling
    cooldown, the agreement between the ad list and the claim gate, and the
    admin check. */
module Properties {

  import opened Optional
  import opened Http
  import opened Params
  import opened Text
  import opened Tables
  import opened Server

  // ------------------------------------------------------------ click sums

  /** A user with no clicks has earned nothing. */
  lemma {:induction false} PointsOfNoClicks(clicks: seq<Click>, u: int)
    requires forall i :: 0 <= i < |clicks| ==> clicks[i].user != u
    ensures PointsOf(clicks, u) == 0.0
  {
    if |clicks| > 0 {
      var init := clicks[..|clicks| - 1];
      assert forall i :: 0 <= i < |init| ==> init[i] == clicks[i];
      PointsOfNoClicks(init, u);
    }
  }

  /** Appending a click adds its points to its own user's sum only. */
  lemma PointsOfAppend(clicks: seq<Click>, c: Click, u: int)
    ensures PointsOf(clicks + [c], u) == PointsOf(clicks, u) + (if c.user == u then c.points else 0.0)
  {
    assert (clicks + [c])[..|clicks|] == clicks;
  }

  // ------------------------------------------------------------- /register

  /** Registration keeps the invariant: a new user has no clicks yet, so the
      balance 0 it is given is its click sum. */
  lemma RegisterPreservesInv(st: Store, userId: Param)
    requires Inv(st)
    ensures Inv(Register(st, userId).next)
  {
    var r := Register(st, userId);
    if r.reply.Ok? {
      var u := KeyOf(userId).value;
      if u !in st.balances {
        PointsOfNoClicks(st.clicks, u);
      }
    }
  }

  /** Registering twice is registering once, and registering a known user
      changes nothing. */
  lemma RegisterIdempotent(st: Store, userId: Param)
    ensures Register(Register(st, userId).next, userId) == Register(st, userId)
    ensures Truthy(userId) && Known(st, userId) ==> Register(st, userId) == Step(Ok(()), st)
  {
  }

  /** A user registered with a numeric id reads back a zero balance through
      the decimal path segment `/user/${id}`, provided it was new. */
  lemma RegisterThenBalance(st: Store, n: int)
    requires n != 0 && n !in st.balances
    ensures Register(st, Num(n)).reply.Ok? <==> InKeyRange(n)
    ensures InKeyRange(n) ==> Balance(Register(st, Num(n)).next, Show(n)) == Ok(0.0)
  {
    ShowKeyRoundTrip(n);
  }

  // ---------------------------------------------------------------- /click

  /** A successful claim keeps the invariant: both sides of the balance
      equation grow by the same reward, and the new click lies at least a
      window after every earlier click of the same user on the same ad. */
  lemma ClaimPreservesInv(st: Store, userId: Param, adId: Param, now: int)
    requires Inv(st)
    ensures Inv(Claim(st, userId, adId, now).next)
  {
    var r := Claim(st, userId, adId, now);
    if r.reply.Ok? {
      var u := KeyOf(userId).value;
      var a := KeyOf(adId).value;
      var c := Click(u, a, FindAd(st.ads, a).value.reward, now);
      var cs := st.clicks + [c];
      assert r.next.clicks == cs;
      forall v | v in r.next.balances ensures r.next.balances[v] == PointsOf(cs, v) {
        PointsOfAppend(st.clicks, c, v);
      }
      forall i | 0 <= i < |cs| ensures cs[i].user in r.next.balances {
        if i < |st.clicks| { assert cs[i] == st.clicks[i]; }
      }
      forall i, j | 0 <= i < j < |cs| && cs[i].user == cs[j].user && cs[i].ad == cs[j].ad
        ensures cs[i].timestamp + Window <= cs[j].timestamp
      {
        assert cs[i] == st.clicks[i];
        if j == |st.clicks| {
          assert !RecentClick(st.clicks[i], u, a, now - Window);
        } else {
          assert cs[j] == st.clicks[j];
        }
      }
    }
  }

  /** The rolling window: right after a successful claim at `now`, the same
      claim at `later` is refused for cooldown exactly when `later` is less
      than a full window after `now`, and succeeds otherwise. A claim exactly
      86400 s later is accepted. */
  lemma CooldownWindow(st: Store, userId: Param, adId: Param, now: int, later: int)
    requires Claim(st, userId, adId, now).reply.Ok?
    ensures var again := Claim(Claim(st, userId, adId, now).next, userId, adId, later);
      && (again.reply == Err(AlreadyClicked) <==> later < now + Window)
      && (again.reply.Ok? <==> later >= now + Window)
  {
    var first := Claim(st, userId, adId, now);
    var st' := first.next;
    var u := KeyOf(userId).value;
    var a := KeyOf(adId).value;
    assert Known(st', userId);
    assert Listed(st'.ads, a);
    var last := |st'.clicks| - 1;
    assert st'.clicks[last].timestamp == now && st'.clicks[last].user == u && st'.clicks[last].ad == a;
    if later < now + Window {
      assert RecentClick(st'.clicks[last], u, a, later - Window);
    } else {
      forall i | 0 <= i < |st'.clicks| ensures !RecentClick(st'.clicks[i], u, a, later - Window) {
        if i < last {
          assert st'.clicks[i] == st.clicks[i];
          assert !RecentClick(st.clicks[i], u, a, now - Window);
        }
      }
    }
  }

  /** The gate only looks at the same user and the same ad: a click of
      another user, or on another ad, never causes a cooldown refusal. */
  lemma CooldownIsPerPair(st: Store, userId: Param, adId: Param, now: int)
    requires Claim(st, userId, adId, now).reply == Err(AlreadyClicked)
    ensures exists i :: (0 <= i < |st.clicks|
      && Some(st.clicks[i].user) == KeyOf(userId)
      && Some(st.clicks[i].ad) == KeyOf(adId)
      && st.clicks[i].timestamp > now - Window)
  {
  }

  /** Two claims of one (user, ad) pair at times `t` and `t + 86400` both
      succeed: the blocking test is strict. */
  lemma ExactlyOneWindowApart(st: Store, u: int, ad: AdRow, t: int)
    requires Valid(st) && u != 0 && u in st.balances && ad in st.ads
    requires forall i :: 0 <= i < |st.clicks| ==> st.clicks[i].timestamp <= t - Window
    ensures Claim(st, Num(u), Num(ad.id), t).reply.Ok?
    ensures Claim(Claim(st, Num(u), Num(ad.id), t).next, Num(u), Num(ad.id), t + Window).reply.Ok?
  {
    assert Listed(st.ads, ad.id);
    assert !Cooling(st, Num(u), Num(ad.id), t);
    CooldownWindow(st, Num(u), Num(ad.id), t, t + Window);
  }

  // ------------------------------------------------------------------ /ads

  /** The ad list and the claim gate agree: a registered user sees an ad in
      the list exactly when claiming it now would not be refused for
      cooldown, and claiming it now then succeeds. The list may name the user
      as a query string while the claim sends a JSON number. */
  lemma AvailableMatchesClaim(st: Store, listUser: Param, claimUser: Param, ad: AdRow, now: int)
    requires Valid(st)
    requires Truthy(listUser) && Truthy(claimUser) && KeyOf(listUser) == KeyOf(claimUser)
    requires Known(st, claimUser) && ad in st.ads
    ensures AvailableAds(st, listUser, now).Ok?
    ensures ad in AvailableAds(st, listUser, now).value <==> Claim(st, claimUser, Num(ad.id), now).reply.Ok?
    ensures ad !in AvailableAds(st, listUser, now).value <==>
      Claim(st, claimUser, Num(ad.id), now).reply == Err(AlreadyClicked)
  {
    var i :| 0 <= i < |st.ads| && st.ads[i] == ad;
    assert Listed(st.ads, ad.id);
    assert Truthy(Num(ad.id));
    assert AdKnown(st, Num(ad.id));
    var list := AvailableAds(st, listUser, now);
    assert ad in list.value <==> !Cooling(st, claimUser, Num(ad.id), now);
  }

  /** No ad appears twice in the list, and the list follows ad id order. */
  lemma AvailableHasNoDuplicates(st: Store, userId: Param, now: int)
    requires Valid(st) && Truthy(userId)
    ensures var r := AvailableAds(st, userId, now).value;
      forall i, j :: 0 <= i < j < |r| ==> r[i] != r[j] && r[i].id < r[j].id
  {
  }

  // -------------------------------------------------------------- /history

  /** Every history row is one of this user's clicks on an ad that still
      exists, and shows the points recorded with the click. */
  lemma HistoryRowsAreClicks(st: Store, id: string)
    ensures forall e :: e in History(st, id) ==> exists i, j ::
      && 0 <= i < |st.clicks| && 0 <= j < |st.ads|
      && KeyOf(Str(id)) == Some(st.clicks[i].user) && st.ads[j].id == st.clicks[i].ad
      && e == HistoryRow(st.ads[j].title, st.clicks[i].points, st.clicks[i].timestamp)
  {
    var r := History(st, id);
    var all := Joined(st.ads, st.clicks, KeyOf(Str(id)));
    forall e | e in r
      ensures exists i, j ::
        && 0 <= i < |st.clicks| && 0 <= j < |st.ads|
        && KeyOf(Str(id)) == Some(st.clicks[i].user) && st.ads[j].id == st.clicks[i].ad
        && e == HistoryRow(st.ads[j].title, st.clicks[i].points, st.clicks[i].timestamp)
    {
      assert e in multiset(r);
      assert e in multiset(all);
      JoinedSound(st.ads, st.clicks, KeyOf(Str(id)), e);
    }
  }

  /** A user with at most 20 joined clicks sees every one of them. */
  lemma ShortHistoryIsComplete(st: Store, id: string)
    requires |Joined(st.ads, st.clicks, KeyOf(Str(id)))| <= HistoryLimit
    ensures multiset(History(st, id)) == multiset(Joined(st.ads, st.clicks, KeyOf(Str(id))))
  {
    var r := History(st, id);
    var all := Joined(st.ads, st.clicks, KeyOf(Str(id)));
    SubMultisetOfSameSize(multiset(r), multiset(all));
  }

  lemma SubMultisetOfSameSize<T>(a: multiset<T>, b: multiset<T>)
    requires a <= b && |a| == |b|
    ensures a == b
  {
    var d := b - a;
    assert b == a + d;
    assert |d| == 0;
  }

  // ---------------------------------------------------------- /user/:id

  /** On every database that keeps the invariant, the balance a user reads
      is the sum of the points of that user's clicks. */
  lemma BalanceIsClickSum(st: Store, id: string)
    requires Inv(st)
    requires Balance(st, id).Ok?
    ensures Balance(st, id).value == PointsOf(st.clicks, KeyOf(Str(id)).value)
  {
  }

  // -------------------------------------------------------------- /admin

  /** `Authorization: Bearer <id>` passes the admin check. */
  lemma BearerTokenAccepted(id: string)
    ensures Authenticate(Some(id), Some(BearerPrefix + id)) == Ok(())
  {
    RemoveLeading(BearerPrefix, id);
  }

  /** The bare id without the `Bearer ` marker passes as well, since the
      marker is removed only where it occurs. */
  lemma BareTokenAccepted(id: string)
    requires id != ""
    requires forall j: nat :: !OccursAt(id, BearerPrefix, j)
    ensures Authenticate(Some(id), Some(id)) == Ok(())
  {
  }

  /** With ADMIN_USER_ID unset, every request that carries a header is
      forbidden. */
  lemma UnsetAdminForbidsAll(header: string)
    requires header != ""
    ensures Authenticate(None, Some(header)) == Err(Forbidden)
  {
  }

  /** A reward of 0 is accepted: only an undefined reward is refused, and
      only an exhausted id range makes the insert fail. */
  lemma ZeroRewardAccepted(st: Store, adminId: string, title: string, url: string)
    requires title != "" && url != ""
    ensures CreateAd(st, Some(adminId), Some(BearerPrefix + adminId), Some(title), Some(url), Amount(0.0)).reply
            == if st.lastAdId < MaxKey then Ok(st.lastAdId + 1) else Err(StoreError)
  {
    BearerTokenAccepted(adminId);
  }

  /** Ad creation keeps the invariant, and the id it assigns belongs to no
      existing ad. */
  lemma CreateAdPreservesInv(st: Store, adminId: Option<string>, header: Option<string>,
                             title: Option<string>, url: Option<string>, reward: RewardParam)
    requires Inv(st)
    ensures Inv(CreateAd(st, adminId, header, title, url, reward).next)
    ensures CreateAd(st, adminId, header, title, url, reward).reply.Ok? ==>
      !Listed(st.ads, CreateAd(st, adminId, header, title, url, reward).reply.value)
  {
    var r := CreateAd(st, adminId, header, title, url, reward);
    if r.reply.Ok? {
      var ads := r.next.ads;
      assert forall i :: 0 <= i < |st.ads| ==> ads[i] == st.ads[i];
      assert ads[|st.ads|].id == st.lastAdId + 1;
    }
  }

  // ------------------------------------------------------------- traces

  /** The requests that change the database. */
  datatype Request =
    | RegisterReq(userId: Param)
    | ClaimReq(userId: Param, adId: Param, now: int)
    | CreateAdReq(adminId: Option<string>, header: Option<string>,
                  title: Option<string>, url: Option<string>, reward: RewardParam)

  function Apply(st: Store, q: Request): Store
  {
    match q
    case RegisterReq(u) => Register(st, u).next
    case ClaimReq(u, a, now) => Claim(st, u, a, now).next
    case CreateAdReq(adminId, header, title, url, reward) => CreateAd(st, adminId, header, title, url, reward).next
  }

  /** The database after serving `qs` one at a time, in order. */
  function Run(st: Store, qs: seq<Request>): Store
    decreases |qs|
  {
    if |qs| == 0 then st else Run(Apply(st, qs[0]), qs[1..])
  }

  /** Every database reachable from start-up by any sequence of requests
      keeps the invariant; in particular every balance equals the sum of
      that user's click points. */
  lemma {:induction false} ReachableKeepsInv(st: Store, qs: seq<Request>)
    requires Inv(st)
    ensures Inv(Run(st, qs))
    ensures forall u :: u in Run(st, qs).balances ==> Run(st, qs).balances[u] == PointsOf(Run(st, qs).clicks, u)
    decreases |qs|
  {
    if |qs| > 0 {
      match qs[0] {
        case RegisterReq(u) => RegisterPreservesInv(st, u);
        case ClaimReq(u, a, now) => ClaimPreservesInv(st, u, a, now);
        case CreateAdReq(adminId, header, title, url, reward) =>
          CreateAdPreservesInv(st, adminId, header, title, url, reward);
      }
      ReachableKeepsInv(Apply(st, qs[0]), qs[1..]);
    }
  }
}
