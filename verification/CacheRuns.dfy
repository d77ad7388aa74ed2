/** What holds of the cache after any sequence of puts and refresh passes. */
module CacheRuns {
  import opened Bytes
  import opened Messages
  import opened CacheModel

  datatype Event = Put(rr: Record, now: int) | Refresh(now: int)

  ghost function Apply(s: seq<Item>, e: Event): seq<Item> {
    match e
    case Put(rr, now) => AfterPut(s, rr, now)
    case Refresh(now) => AfterRefresh(s, now)
  }

  /** The cache after a history that starts with an empty one. */
  ghost function After(h: seq<Event>): seq<Item> {
    if h == [] then [] else Apply(After(h[..|h| - 1]), h[|h| - 1])
  }

  lemma AfterStep(h: seq<Event>, e: Event)
    ensures After(h + [e]) == Apply(After(h), e)
  {
    assert (h + [e])[..|h|] == h;
  }

  // ---------- recency ----------

  /** When a record was last put, as a position in the history; -1 for never. */
  ghost function LastPut(h: seq<Event>, rr: Record): (k: int)
    ensures -1 <= k < |h|
  {
    if h == [] then -1 else
      var e := h[|h| - 1];
      if e.Put? && Same(e.rr, rr) then |h| - 1 else LastPut(h[..|h| - 1], rr)
  }

  lemma {:induction false} LastPutSame(h: seq<Event>, a: Record, b: Record)
    requires Same(a, b)
    ensures LastPut(h, a) == LastPut(h, b)
  {
    if h != [] {
      LastPutSame(h[..|h| - 1], a, b);
    }
  }

  ghost predicate NewerThan(h: seq<Event>, x: Item, y: Item) {
    LastPut(h, x.rr) > LastPut(h, y.rr) >= 0
  }

  /** Items come in strictly decreasing order of their last put. */
  ghost predicate ByRecency(s: seq<Item>, h: seq<Event>) {
    && (forall i :: 0 <= i < |s| ==> LastPut(h, s[i].rr) >= 0)
    && (forall i, j :: 0 <= i < j < |s| ==> NewerThan(h, s[i], s[j]))
  }

  lemma RecencyDistinct(s: seq<Item>, h: seq<Event>)
    requires ByRecency(s, h)
    ensures Distinct(s)
  {
    forall i, j | 0 <= i < j < |s|
      ensures !Same(s[i].rr, s[j].rr)
    {
      assert NewerThan(h, s[i], s[j]);
      if Same(s[i].rr, s[j].rr) {
        LastPutSame(h, s[i].rr, s[j].rr);
      }
    }
  }

  /** y is an unexpired item of s with its ttl brought up to date. */
  ghost predicate StemsFrom(y: Item, s: seq<Item>, now: int) {
    exists j :: 0 <= j < |s| && y == Aged(s[j], now) && s[j].expire > now
  }

  lemma {:induction false} AliveFrom(s: seq<Item>, now: int)
    ensures forall y :: y in Alive(s, now) ==> StemsFrom(y, s, now)
    ensures |Alive(s, now)| <= |s|
  {
    if s != [] {
      var init, x := s[..|s| - 1], s[|s| - 1];
      AliveFrom(init, now);
      forall y | y in Alive(s, now)
        ensures StemsFrom(y, s, now)
      {
        if y in Alive(init, now) {
          var j :| 0 <= j < |init| && y == Aged(init[j], now) && init[j].expire > now;
          assert s[j] == init[j];
        } else {
          assert y == Aged(s[|s| - 1], now) && x.expire > now;
        }
      }
    }
  }

  lemma {:induction false} AliveByRecency(s: seq<Item>, h: seq<Event>, now: int)
    requires ByRecency(s, h)
    ensures ByRecency(Alive(s, now), h)
  {
    if s != [] {
      var init, x := s[..|s| - 1], s[|s| - 1];
      AliveByRecency(init, h, now);
      var kept, all := Alive(init, now), Alive(s, now);
      AliveFrom(init, now);
      LastPutSame(h, x.rr, Aged(x, now).rr);
      forall i | 0 <= i < |kept|
        ensures LastPut(h, kept[i].rr) > LastPut(h, x.rr)
      {
        assert StemsFrom(kept[i], init, now);
        var j :| 0 <= j < |init| && kept[i] == Aged(init[j], now) && init[j].expire > now;
        assert NewerThan(h, s[j], s[|s| - 1]);
        LastPutSame(h, init[j].rr, kept[i].rr);
      }
    }
  }

  lemma PutByRecency(s: seq<Item>, h: seq<Event>, rr: Record, now: int)
    requires ByRecency(s, h)
    ensures ByRecency(AfterPut(s, rr, now), h + [Put(rr, now)])
  {
    var h' := h + [Put(rr, now)];
    assert h'[..|h|] == h;
    RecencyDistinct(s, h);
    var k := IndexOf(s, rr);
    var t := AfterPut(s, rr, now);
    assert LastPut(h', t[0].rr) == |h|;
    forall i | 1 <= i < |t|
      ensures LastPut(h', t[i].rr) == LastPut(h, t[i].rr) >= 0
      ensures t[i] == s[if i <= k then i - 1 else i]
    {
      var p := if i <= k then i - 1 else i;
      assert t[i] == s[p];
      assert k < |s| ==> !Same(s[if p < k then p else k].rr, s[if p < k then k else p].rr);
    }
    forall i, j | 0 <= i < j < |t|
      ensures NewerThan(h', t[i], t[j])
    {
      if i > 0 {
        assert NewerThan(h, s[if i <= k then i - 1 else i], s[if j <= k then j - 1 else j]);
      }
    }
  }

  lemma LastPutRefresh(h: seq<Event>, now: int, rr: Record)
    ensures LastPut(h + [Refresh(now)], rr) == LastPut(h, rr)
  {
    assert (h + [Refresh(now)])[..|h|] == h;
  }

  /** Over any run the cache order is exactly the recency of the last put, newest first. */
  lemma {:induction false} OrderIsRecency(h: seq<Event>)
    ensures ByRecency(After(h), h) && Distinct(After(h))
  {
    if h != [] {
      var init, e := h[..|h| - 1], h[|h| - 1];
      OrderIsRecency(init);
      assert h == init + [e];
      if e.Put? {
        PutByRecency(After(init), init, e.rr, e.now);
      } else {
        AliveByRecency(After(init), init, e.now);
        forall rr: Record {
          LastPutRefresh(init, e.now, rr);
        }
      }
    }
    RecencyDistinct(After(h), h);
  }

  /** Size-based removal drops only unexpired items put less recently than every kept one. */
  lemma EvictsOldest(h: seq<Event>, now: int, i: nat, j: nat)
    requires var alive := Alive(After(h), now);
             i < |AfterRefresh(After(h), now)| <= j < |alive|
    ensures AfterRefresh(After(h), now)[i] == Alive(After(h), now)[i]
    ensures NewerThan(h, AfterRefresh(After(h), now)[i], Alive(After(h), now)[j])
    ensures |AfterRefresh(After(h), now)| == 256
  {
    OrderIsRecency(h);
    AliveByRecency(After(h), h, now);
  }

  // ---------- lookups after puts ----------

  ghost function Puts(rs: seq<Record>, now: int): (es: seq<Event>)
    ensures |es| == |rs|
  {
    if rs == [] then [] else Puts(rs[..|rs| - 1], now) + [Put(rs[|rs| - 1], now)]
  }

  lemma {:induction false} PutsIndex(rs: seq<Record>, now: int)
    ensures forall i :: 0 <= i < |rs| ==> Puts(rs, now)[i] == Put(rs[i], now)
  {
    if rs != [] {
      PutsIndex(rs[..|rs| - 1], now);
    }
  }

  /** After any history: a lookup finds the record just put exactly when no cached record with other
      rdata passes for it, and always if its rdata has no zero byte. */
  lemma PutThenFindAfter(h: seq<Event>, rr: Record, now: int)
    ensures Finds(After(h + [Put(rr, now)]), rr) <==> Unshadowed(After(h), rr)
    ensures ZeroFree(rr.rdata) ==> Finds(After(h + [Put(rr, now)]), rr)
  {
    hide After, Finds, Unshadowed, AfterPut;
    AfterStep(h, Put(rr, now));
    OrderIsRecency(h);
    PutThenFind(After(h), rr, now);
    if ZeroFree(rr.rdata) {
      ZeroFreeUnshadowed(After(h), rr);
    }
  }

  /** Puts never lose what a lookup finds; only a refresh pass does. */
  lemma {:induction false} FoundUntilRefresh(h: seq<Event>, more: seq<Event>, rr: Record)
    requires Finds(After(h), rr) && forall i :: 0 <= i < |more| ==> more[i].Put?
    ensures Finds(After(h + more), rr)
    decreases |more|
  {
    hide After, Finds, AfterPut;
    if more == [] {
      assert h + more == h;
    } else {
      var init, e := more[..|more| - 1], more[|more| - 1];
      FoundUntilRefresh(h, init, rr);
      assert h + more == h + init + [e];
      AfterStep(h + init, e);
      var s := After(h + init);
      FindsExact(s, rr);
      FindsExact(AfterPut(s, e.rr, e.now), rr);
      var x :| x in s && x.rr == rr.(ttl := x.rr.ttl);
      PutKeeps(s, e.rr, e.now, x);
    }
  }

  lemma PutKeeps(s: seq<Item>, rr: Record, now: int, x: Item)
    requires x in s
    ensures x in AfterPut(s, rr, now)
  {
    hide IndexOf, Same;
    var k := IndexOf(s, rr);
    if k < |s| {
      assert s == s[..k] + [s[k]] + s[k + 1..];
    }
  }

  // ---------- size ----------

  ghost function PutsSinceRefresh(h: seq<Event>): nat {
    if h == [] || h[|h| - 1].Refresh? then 0 else 1 + PutsSinceRefresh(h[..|h| - 1])
  }

  lemma {:induction false} SizeBound(h: seq<Event>)
    ensures |After(h)| <= 256 + PutsSinceRefresh(h)
  {
    if h != [] {
      SizeBound(h[..|h| - 1]);
    }
  }

  // ---------- time ----------

  ghost predicate ClockRuns(h: seq<Event>) {
    forall i, j :: 0 <= i < j < |h| ==> h[i].now <= h[j].now
  }

  ghost predicate Holds(s: seq<Item>, rr: Record, expire: int) {
    exists j :: 0 <= j < |s| && s[j].expire == expire && s[j].rr == rr.(ttl := s[j].rr.ttl)
  }

  /** x was created by the put at k: its expiry is that put's, whatever was put since, its ttl is at
      most the one put, and it has been cached ever since. */
  ghost predicate Created(h: seq<Event>, x: Item, k: nat) {
    && k < |h| && h[k].Put?
    && x.rr == h[k].rr.(ttl := x.rr.ttl) && x.expire == h[k].now + h[k].rr.ttl
    && x.rr.ttl <= h[k].rr.ttl
    && IndexOf(After(h[..k]), h[k].rr) == |After(h[..k])|
    && forall j :: k < j <= |h| ==> Holds(After(h[..j]), h[k].rr, x.expire)
  }

  /** The stored ttl is never below the time left at the latest event. */
  ghost predicate Current(h: seq<Event>, x: Item) {
    h != [] && x.rr.ttl >= x.expire - h[|h| - 1].now
  }

  lemma CreatedStays(h: seq<Event>, e: Event, x: Item, k: nat, y: Item)
    requires Created(h, x, k) && y in Apply(After(h), e)
    requires y.expire == x.expire && y.rr == x.rr.(ttl := y.rr.ttl) && y.rr.ttl <= x.rr.ttl
    ensures Created(h + [e], y, k)
  {
    hide Apply, IndexOf, After;
    AfterStep(h, e);
    var h' := h + [e];
    assert h'[..k] == h[..k] && h'[..|h'|] == h';
    forall j | k < j <= |h'|
      ensures Holds(After(h'[..j]), h'[k].rr, y.expire)
    {
      if j <= |h| {
        assert h'[..j] == h[..j];
      } else {
        var i :| 0 <= i < |Apply(After(h), e)| && Apply(After(h), e)[i] == y;
      }
    }
  }

  lemma PutHolds(s: seq<Item>, rr: Record, now: int)
    requires IndexOf(s, rr) == |s|
    ensures Holds(AfterPut(s, rr, now), rr, now + rr.ttl)
  {
    assert AfterPut(s, rr, now)[0] == Item(rr, now + rr.ttl);
  }

  lemma CreatedNow(h: seq<Event>, rr: Record, now: int)
    requires IndexOf(After(h), rr) == |After(h)|
    ensures Created(h + [Put(rr, now)], Item(rr, now + rr.ttl), |h|)
  {
    hide IndexOf, After, AfterPut, Holds, Same;
    AfterStep(h, Put(rr, now));
    PutHolds(After(h), rr, now);
    var h' := h + [Put(rr, now)];
    assert h'[..|h|] == h;
    forall j | |h| < j <= |h'|
      ensures Holds(After(h'[..j]), rr, now + rr.ttl)
    {
      assert h'[..j] == h';
    }
  }

  lemma PutMembers(s: seq<Item>, rr: Record, now: int, x: Item)
    requires x in AfterPut(s, rr, now)
    ensures x in s || (x == Item(rr, now + rr.ttl) && IndexOf(s, rr) == |s|)
  {
  }

  lemma NotEmpty(h: seq<Event>, x: Item)
    requires x in After(h)
    ensures h != []
  {
  }

  /** With a clock that never goes back: every cached item keeps the expiry of the put that created
      it, and refreshing never raises a ttl. */
  lemma {:induction false} ExpiryIsCreation(h: seq<Event>, x: Item) returns (k: nat)
    requires ClockRuns(h) && x in After(h)
    ensures Created(h, x, k) && Current(h, x)
  {
    hide Created, IndexOf, AfterPut, Alive, After;
    NotEmpty(h, x);
    var init, e := h[..|h| - 1], h[|h| - 1];
    assert h == init + [e];
    var s := After(init);
    AfterStep(init, e);
    if e.Put? {
      PutMembers(s, e.rr, e.now, x);
    }
    if e.Put? && x !in s {
      CreatedNow(init, e.rr, e.now);
      k := |init|;
    } else {
      var y := x;
      if e.Refresh? {
        AliveFrom(s, e.now);
        assert StemsFrom(x, s, e.now);
        var j :| 0 <= j < |s| && x == Aged(s[j], e.now) && s[j].expire > e.now;
        y := s[j];
      }
      k := ExpiryIsCreation(init, y);
      TtlShrinks(h, init, e, x, y, k);
      CreatedStays(init, e, y, k, x);
    }
  }

  lemma TtlShrinks(h: seq<Event>, init: seq<Event>, e: Event, x: Item, y: Item, k: nat)
    requires h == init + [e] && ClockRuns(h) && Created(init, y, k) && Current(init, y)
    requires if e.Put? then x == y else x == Aged(y, e.now) && y.expire > e.now
    ensures x.rr.ttl <= y.rr.ttl && Current(h, x)
    ensures e.Refresh? ==> x.rr.ttl == x.expire - e.now
  {
    assert h[|init| - 1] == init[|init| - 1] && h[k] == init[k] && h[|init|] == e;
  }

  /** Nothing that outlives a refresh has expired by then. */
  lemma SurvivorsUnexpired(s: seq<Item>, now: int)
    ensures forall x :: x in AfterRefresh(s, now) ==> x.expire > now
  {
    AliveFrom(s, now);
    forall x | x in AfterRefresh(s, now)
      ensures x.expire > now
    {
      assert StemsFrom(x, s, now);
    }
  }
}
