/** What the record cache is to do, as operations on the sequence of cached items, newest put first. */
module CacheModel {
  import opened Bytes
  import opened Names
  import opened Messages

  const CACHE_SIZE_MAX := 256

  /** A cached record and the second at which it expires. */
  datatype Item = Item(rr: Record, expire: int)

  /** The bound strncmp gets from domain_len; -1 turns into the largest size_t. */
  function CompareLength(name: seq<byte>): nat {
    var n := DomainLen(name);
    if n < 0 then 0xFFFF_FFFF_FFFF_FFFF else n
  }

  /** rr_cmp. */
  predicate RrCmp(a: Record, b: Record) {
    && StrNEqual(a.name + [0], b.name + [0], CompareLength(a.name))
    && |a.rdata| == |b.rdata| && a.rtype == b.rtype && a.cls == b.cls
    && StrNEqual(a.rdata, b.rdata, |a.rdata|)
  }

  /** The equivalence rr_cmp decides: rdata counts only up to its first zero byte. */
  ghost predicate Same(a: Record, b: Record) {
    && a.name == b.name && a.rtype == b.rtype && a.cls == b.cls
    && |a.rdata| == |b.rdata| && CText(a.rdata) == CText(b.rdata)
  }

  ghost predicate Named(rr: Record) {
    ZeroFree(rr.name) && |rr.name| < DOMAIN_LEN_MAX
  }

  /** Also for names over 254 bytes, whose comparison has no bound but the size of memory. */
  lemma RrCmpMeaning(a: Record, b: Record)
    requires ZeroFree(a.name) && ZeroFree(b.name) && |a.name| < 0xFFFF_FFFF_FFFF_FFFF
    ensures RrCmp(a, b) <==> Same(a, b)
  {
    StrNEqualTerminated(a.name, b.name, CompareLength(a.name));
    if |a.rdata| == |b.rdata| {
      StrNEqualSameLength(a.rdata, b.rdata);
    }
  }

  /** The name test of a lookup, bounded by the cached name's length, is equality. */
  lemma LookupCompare(domain: seq<byte>, rr: Record)
    requires ZeroFree(domain) && Named(rr)
    ensures StrNEqual(domain + [0], rr.name + [0], CompareLength(rr.name)) <==> domain == rr.name
  {
    StrNEqualSymmetric(domain + [0], rr.name + [0], CompareLength(rr.name));
    StrNEqualTerminated(rr.name, domain, CompareLength(rr.name));
  }

  /** Two records are told apart in every field but ttl exactly when no zero byte hides a difference. */
  lemma RrCmpExact(a: Record, b: Record)
    requires Named(a) && Named(b)
    ensures RrCmp(a, b) && a.rdata == b.rdata <==> a == b.(ttl := a.ttl)
    ensures ZeroFree(a.rdata) ==> (RrCmp(a, b) <==> a == b.(ttl := a.ttl))
  {
    RrCmpMeaning(a, b);
    if ZeroFree(a.rdata) && Same(a, b) {
      CTextZeroFree(a.rdata);
      CTextLength(b.rdata);
    }
  }

  lemma {:induction false} CTextLength(s: seq<byte>)
    ensures |CText(s)| <= |s| && (|CText(s)| == |s| ==> CText(s) == s)
  {
    if s != [] {
      CTextLength(s[1..]);
    }
  }

  /** The addresses 10.0.0.1 and 10.0.0.2 of one host are the same record to the cache. */
  lemma RrCmpConflates(name: seq<byte>, ttl: u32)
    requires ZeroFree(name) && |name| < DOMAIN_LEN_MAX
    ensures RrCmp(Record(name, RRTYPE_A, 1, ttl, [10, 0, 0, 1]), Record(name, RRTYPE_A, 1, ttl, [10, 0, 0, 2]))
  {
    var a, b := Record(name, RRTYPE_A, 1, ttl, [10, 0, 0, 1]), Record(name, RRTYPE_A, 1, ttl, [10, 0, 0, 2]);
    RrCmpMeaning(a, b);
    assert a.rdata[1..][0] == 0 && b.rdata[1..][0] == 0;
    assert CText(a.rdata) == [10] && CText(b.rdata) == [10];
  }

  // ---------- the operations ----------

  ghost function IndexOf(s: seq<Item>, rr: Record): (k: nat)
    ensures k <= |s| && (k < |s| ==> Same(s[k].rr, rr))
    ensures forall i :: 0 <= i < k ==> !Same(s[i].rr, rr)
  {
    if s == [] || Same(s[0].rr, rr) then 0 else 1 + IndexOf(s[1..], rr)
  }

  /** A put moves the matching item to the front, untouched, or adds a new one there. */
  ghost function AfterPut(s: seq<Item>, rr: Record, now: int): seq<Item> {
    var k := IndexOf(s, rr);
    if k < |s| then [s[k]] + s[..k] + s[k + 1..] else [Item(rr, now + rr.ttl)] + s
  }

  /** The ttl field is 32 bits wide. */
  ghost function Aged(x: Item, now: int): Item {
    x.(rr := x.rr.(ttl := (x.expire - now) % 0x1_0000_0000))
  }

  /** The unexpired items in order, each with the time it has left. */
  ghost function Alive(s: seq<Item>, now: int): seq<Item> {
    if s == [] then [] else
      var x := s[|s| - 1];
      Alive(s[..|s| - 1], now) + if x.expire > now then [Aged(x, now)] else []
  }

  /** idx lists, in increasing order, the positions of all items that expire after now. */
  ghost predicate Unexpired(idx: seq<nat>, s: seq<Item>, now: int) {
    && (forall k :: 0 <= k < |idx| ==> idx[k] < |s|)
    && (forall j, k :: 0 <= j < k < |idx| ==> idx[j] < idx[k])
    && (forall i :: 0 <= i < |s| ==> (i in idx <==> s[i].expire > now))
  }

  /** A refresh keeps the first 256 of these items, each with a ttl of the seconds it has left. */
  lemma RefreshExact(s: seq<Item>, now: int) returns (idx: seq<nat>)
    requires forall x :: x in s ==> x.expire - now < 0x1_0000_0000
    ensures Unexpired(idx, s, now)
    ensures var t := AfterRefresh(s, now);
            && |t| == (if |idx| < 256 then |idx| else 256)
            && forall k :: 0 <= k < |t| ==>
                 t[k].expire == s[idx[k]].expire && t[k].rr == s[idx[k]].rr.(ttl := s[idx[k]].expire - now)
  {
    hide Unexpired, Alive;
    idx := AliveInOrder(s, now);
    forall k | 0 <= k < |AfterRefresh(s, now)|
      ensures k < |idx| && s[idx[k]].expire > now && AfterRefresh(s, now)[k] == Aged(s[idx[k]], now)
    {
      assert AfterRefresh(s, now)[k] == Alive(s, now)[k];
    }
  }

  lemma {:induction false} AliveInOrder(s: seq<Item>, now: int) returns (idx: seq<nat>)
    ensures Unexpired(idx, s, now) && |Alive(s, now)| == |idx|
    ensures forall k :: 0 <= k < |idx| ==>
              idx[k] < |s| && s[idx[k]].expire > now && Alive(s, now)[k] == Aged(s[idx[k]], now)
  {
    hide Unexpired;
    idx := [];
    if s == [] {
      NoneUnexpired(now);
    } else {
      var last := |s| - 1;
      var init := AliveInOrder(s[..last], now);
      idx := init + if s[last].expire > now then [last] else [];
      UnexpiredSnoc(s, init, idx, now);
      assert forall k :: 0 <= k < |init| ==> s[..last][init[k]] == s[init[k]];
    }
  }

  lemma NoneUnexpired(now: int)
    ensures Unexpired([], [], now)
  {
  }

  lemma UnexpiredSnoc(s: seq<Item>, init: seq<nat>, idx: seq<nat>, now: int)
    requires s != [] && Unexpired(init, s[..|s| - 1], now)
    requires idx == init + if s[|s| - 1].expire > now then [|s| - 1] else []
    ensures Unexpired(idx, s, now)
  {
    var last := |s| - 1;
    forall i | 0 <= i < |s|
      ensures i in idx <==> s[i].expire > now
    {
      assert i < last ==> s[..last][i] == s[i];
      assert i in idx <==> i in init || (i == last && s[last].expire > now);
    }
  }

  /** Later items never displace earlier survivors. */
  lemma {:induction false} AlivePrefix(s: seq<Item>, j: nat, now: int)
    requires j <= |s|
    ensures Alive(s[..j], now) <= Alive(s, now)
    decreases |s|
  {
    if j == |s| {
      assert s[..j] == s;
    } else {
      var init := s[..|s| - 1];
      AlivePrefix(init, j, now);
      assert init[..j] == s[..j];
    }
  }

  ghost function Capped(s: seq<Item>): seq<Item> {
    if |s| <= CACHE_SIZE_MAX then s else s[..CACHE_SIZE_MAX]
  }

  ghost function AfterRefresh(s: seq<Item>, now: int): seq<Item> {
    Capped(Alive(s, now))
  }

  ghost predicate Answers(x: Item, name: seq<byte>, rtype: u16, cls: u16) {
    x.rr.rtype == rtype && x.rr.cls == cls && x.rr.name == name
  }

  /** The items a lookup returns, in cache order. */
  ghost function Hits(s: seq<Item>, name: seq<byte>, rtype: u16, cls: u16): seq<Item> {
    if s == [] then []
    else if Answers(s[0], name, rtype, cls) then [s[0]] + Hits(s[1..], name, rtype, cls)
    else Hits(s[1..], name, rtype, cls)
  }

  ghost function Misses(s: seq<Item>, name: seq<byte>, rtype: u16, cls: u16): seq<Item> {
    if s == [] then []
    else if Answers(s[0], name, rtype, cls) then Misses(s[1..], name, rtype, cls)
    else [s[0]] + Misses(s[1..], name, rtype, cls)
  }

  lemma {:induction false} HitsAnswer(s: seq<Item>, name: seq<byte>, rtype: u16, cls: u16)
    ensures forall x :: x in Hits(s, name, rtype, cls) <==> x in s && Answers(x, name, rtype, cls)
  {
    if s != [] {
      HitsAnswer(s[1..], name, rtype, cls);
    }
  }

  /** idx lists, in increasing order, the positions of all items with that name, type and class. */
  ghost predicate Positions(idx: seq<nat>, s: seq<Item>, name: seq<byte>, rtype: u16, cls: u16) {
    && (forall k :: 0 <= k < |idx| ==> idx[k] < |s|)
    && (forall j, k :: 0 <= j < k < |idx| ==> idx[j] < idx[k])
    && (forall i :: 0 <= i < |s| ==>
          (i in idx <==> s[i].rr.name == name && s[i].rr.rtype == rtype && s[i].rr.cls == cls))
  }

  ghost function Shifted(idx: seq<nat>): seq<nat> {
    seq(|idx|, k requires 0 <= k < |idx| => idx[k] + 1)
  }

  /** A lookup returns the items at these positions: all that match, in cache order. */
  lemma {:induction false} HitsInOrder(s: seq<Item>, name: seq<byte>, rtype: u16, cls: u16) returns (idx: seq<nat>)
    ensures Positions(idx, s, name, rtype, cls)
    ensures |Hits(s, name, rtype, cls)| == |idx|
    ensures forall k :: 0 <= k < |idx| ==> Hits(s, name, rtype, cls)[k] == s[idx[k]]
  {
    hide Positions, Answers;
    idx := [];
    if s == [] {
      NoPositions(name, rtype, cls);
    } else {
      var rest := HitsInOrder(s[1..], name, rtype, cls);
      ShiftedItems(s, rest, name, rtype, cls);
      idx := if Answers(s[0], name, rtype, cls) then [0] + Shifted(rest) else Shifted(rest);
      ShiftedPositions(s, rest, idx, name, rtype, cls);
    }
  }

  lemma NoPositions(name: seq<byte>, rtype: u16, cls: u16)
    ensures Positions([], [], name, rtype, cls)
  {
  }

  lemma ShiftedPositions(s: seq<Item>, rest: seq<nat>, idx: seq<nat>, name: seq<byte>, rtype: u16, cls: u16)
    requires s != [] && Positions(rest, s[1..], name, rtype, cls)
    requires idx == if Answers(s[0], name, rtype, cls) then [0] + Shifted(rest) else Shifted(rest)
    ensures Positions(idx, s, name, rtype, cls)
  {
    forall i | 0 <= i < |s|
      ensures i in idx <==> s[i].rr.name == name && s[i].rr.rtype == rtype && s[i].rr.cls == cls
    {
      ShiftedHas(rest, i);
      assert i > 0 ==> s[1..][i - 1] == s[i];
    }
  }

  lemma ShiftedItems(s: seq<Item>, rest: seq<nat>, name: seq<byte>, rtype: u16, cls: u16)
    requires s != [] && Positions(rest, s[1..], name, rtype, cls)
    ensures |Shifted(rest)| == |rest|
    ensures forall k :: 0 <= k < |rest| ==>
              rest[k] < |s[1..]| && Shifted(rest)[k] < |s| && s[Shifted(rest)[k]] == s[1..][rest[k]]
  {
  }

  lemma ShiftedHas(idx: seq<nat>, i: nat)
    ensures i in Shifted(idx) <==> i > 0 && i - 1 in idx
  {
    if i > 0 && i - 1 in idx {
      var k :| 0 <= k < |idx| && idx[k] == i - 1;
      assert Shifted(idx)[k] == i;
    }
  }

  ghost function RecordsOf(s: seq<Item>): seq<Record> {
    if s == [] then [] else [s[0].rr] + RecordsOf(s[1..])
  }

  lemma {:induction false} RecordsOfIndex(s: seq<Item>)
    ensures |RecordsOf(s)| == |s| && forall i :: 0 <= i < |s| ==> RecordsOf(s)[i] == s[i].rr
  {
    if s != [] {
      RecordsOfIndex(s[1..]);
    }
  }

  ghost predicate Distinct(s: seq<Item>) {
    forall i, j :: 0 <= i < j < |s| ==> !Same(s[i].rr, s[j].rr)
  }

  /** A lookup for the name, type and class of rr returns its rdata. */
  ghost predicate Finds(s: seq<Item>, rr: Record) {
    exists r :: r in RecordsOf(Hits(s, rr.name, rr.rtype, rr.cls)) && r.rdata == rr.rdata
  }

  lemma FindsExact(s: seq<Item>, rr: Record)
    ensures Finds(s, rr) <==> exists x :: x in s && x.rr == rr.(ttl := x.rr.ttl)
  {
    var hits := Hits(s, rr.name, rr.rtype, rr.cls);
    HitsAnswer(s, rr.name, rr.rtype, rr.cls);
    RecordsOfIndex(hits);
    if Finds(s, rr) {
      var r :| r in RecordsOf(hits) && r.rdata == rr.rdata;
      var i :| 0 <= i < |hits| && RecordsOf(hits)[i] == r;
      assert hits[i] in s && hits[i].rr == rr.(ttl := hits[i].rr.ttl);
    }
    if x :| x in s && x.rr == rr.(ttl := x.rr.ttl) {
      assert x in hits;
      var i :| 0 <= i < |hits| && hits[i] == x;
      assert RecordsOf(hits)[i].rdata == rr.rdata;
    }
  }

  /** No cached record with other rdata passes for rr. */
  ghost predicate Unshadowed(s: seq<Item>, rr: Record) {
    forall x :: x in s && Same(x.rr, rr) ==> x.rr.rdata == rr.rdata
  }

  /** A lookup finds the record just put exactly when no cached record with other rdata passes for it. */
  lemma PutThenFind(s: seq<Item>, rr: Record, now: int)
    requires Distinct(s)
    ensures Finds(AfterPut(s, rr, now), rr) <==> Unshadowed(s, rr)
  {
    hide IndexOf, CText, Finds;
    var k, t := IndexOf(s, rr), AfterPut(s, rr, now);
    FindsExact(t, rr);
    assert t[0] in t;
    if x :| x in t && x.rr == rr.(ttl := x.rr.ttl) {
      assert Same(x.rr, rr);
      assert k < |s| ==> x == s[k];
    }
    if Unshadowed(s, rr) && k < |s| {
      assert s[k] in s;
    }
  }

  /** That is so whenever the record's rdata has no zero byte. */
  lemma ZeroFreeUnshadowed(s: seq<Item>, rr: Record)
    requires ZeroFree(rr.rdata)
    ensures Unshadowed(s, rr)
  {
    forall x | x in s && Same(x.rr, rr)
      ensures x.rr.rdata == rr.rdata
    {
      CTextZeroFree(rr.rdata);
      CTextLength(x.rr.rdata);
    }
  }

  /** With 10.0.0.1 cached, putting 10.0.0.2 for the same host leaves the cache as it is. */
  lemma PutLosesAddress(name: seq<byte>, ttl: u32, expire: int, now: int)
    requires ZeroFree(name) && |name| < DOMAIN_LEN_MAX
    ensures var cached := [Item(Record(name, RRTYPE_A, 1, ttl, [10, 0, 0, 1]), expire)];
            AfterPut(cached, Record(name, RRTYPE_A, 1, ttl, [10, 0, 0, 2]), now) == cached
  {
    RrCmpConflates(name, ttl);
    RrCmpMeaning(Record(name, RRTYPE_A, 1, ttl, [10, 0, 0, 1]), Record(name, RRTYPE_A, 1, ttl, [10, 0, 0, 2]));
  }

  // ---------- a lookup followed by re-putting what it found ----------

  ghost function AfterPuts(s: seq<Item>, found: seq<Item>, now: int): seq<Item>
    decreases |found|
  {
    if found == [] then s else AfterPuts(AfterPut(s, found[0].rr, now), found[1..], now)
  }

  ghost function Backwards(s: seq<Item>): seq<Item> {
    if s == [] then [] else Backwards(s[1..]) + [s[0]]
  }

  lemma PutMovesFront(seen: seq<Item>, x: Item, rest: seq<Item>, now: int)
    requires Distinct(seen + [x] + rest)
    ensures AfterPut(seen + [x] + rest, x.rr, now) == [x] + seen + rest && Distinct([x] + seen + rest)
  {
    var s := seen + [x] + rest;
    assert s[|seen|] == x;
    var k := IndexOf(s, x.rr);
    assert k == |seen|;
    assert s[..k] == seen && s[k + 1..] == rest;
    var t := [x] + seen + rest;
    forall i, j | 0 <= i < j < |t|
      ensures !Same(t[i].rr, t[j].rr)
    {
      var p := if i == 0 then |seen| else if i <= |seen| then i - 1 else i;
      var q := if j <= |seen| then j - 1 else j;
      assert t[i] == s[p] && t[j] == s[q];
      assert p < q || q < p;
    }
  }

  /** A hit permutes the cache: the found items come to the front in reverse order of finding, the
      others keep theirs, and no item changes. */
  lemma {:induction false} HitPermutes(seen: seq<Item>, s: seq<Item>, name: seq<byte>, rtype: u16, cls: u16, now: int)
    requires Distinct(seen + s)
    ensures AfterPuts(seen + s, Hits(s, name, rtype, cls), now)
            == Backwards(Hits(s, name, rtype, cls)) + seen + Misses(s, name, rtype, cls)
    decreases |s|
  {
    hide Distinct, AfterPut, Answers;
    if s != [] {
      var x, rest := s[0], s[1..];
      var hits, misses := Hits(rest, name, rtype, cls), Misses(rest, name, rtype, cls);
      assert seen + s == seen + [x] + rest;
      if Answers(x, name, rtype, cls) {
        PutMovesFront(seen, x, rest, now);
        HitPermutes([x] + seen, rest, name, rtype, cls, now);
        assert ([x] + hits)[1..] == hits;
        Regroup(Backwards(hits), [x], seen, misses);
      } else {
        HitPermutes(seen + [x], rest, name, rtype, cls, now);
        Regroup(Backwards(hits), seen, [x], misses);
      }
    }
  }

  lemma Regroup(a: seq<Item>, b: seq<Item>, c: seq<Item>, d: seq<Item>)
    ensures a + (b + c) + d == (a + b) + c + d == (a + b) + (c + d)
  {
  }
}
