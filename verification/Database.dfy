/** The record database: the tree under reversed names, and the plain log scan it agrees with. */
module Database {
  import opened Bytes
  import opened Names
  import opened Messages
  import opened Levels
  import opened Trees

  /** What the reversal and the label buffers of the tree need of a stored name. */
  ghost predicate StorableName(name: seq<byte>) {
    && WellFormed(name) && ZeroFree(name)
    && forall i :: 0 <= i < |Labels(name)| ==> |Labels(name)[i]| < SUBDOMAIN_MAX
  }

  /** Names over the length limit are turned away before anything looks at them. */
  ghost predicate Acceptable(rr: Record) {
    DomainLen(rr.name) != -1 ==> StorableName(rr.name)
  }

  ghost function Downwards(name: seq<byte>): seq<Label>
    requires WellFormed(name)
  {
    Reverse(Labels(name))
  }

  // ---------- the naive specification ----------

  /** The records of one name and type, in the order they were inserted. */
  ghost function Matching(log: seq<Record>, name: seq<byte>, rtype: u16): seq<Record> {
    if log == [] then [] else
      var r := log[|log| - 1];
      Matching(log[..|log| - 1], name, rtype) + if r.name == name && r.rtype == rtype then [r] else []
  }

  /** Drop every record that duplicates one kept before it. */
  ghost function Deduped(rs: seq<Record>): seq<Record> {
    if rs == [] then [] else
      var kept := Deduped(rs[..|rs| - 1]);
      if Duplicate(kept, rs[|rs| - 1]) then kept else kept + [rs[|rs| - 1]]
  }

  ghost function FirstFour(rs: seq<Record>): seq<Record> {
    if |rs| <= RR_CNT_MAX then rs else rs[..RR_CNT_MAX]
  }

  /** The database answer as a scan of the insertion log; the root name is never stored. */
  ghost function Scan(log: seq<Record>, name: seq<byte>, rtype: u16): seq<Record> {
    if name == [] || |name| >= DOMAIN_LEN_MAX || ElementIndex(rtype) < 0 then []
    else FirstFour(Deduped(Matching(log, name, rtype)))
  }

  ghost predicate NoRepeats(rs: seq<Record>) {
    forall i, j :: 0 <= i < j < |rs| ==> !Repeats(rs[j], rs[i])
  }

  /** Nothing is kept twice, and what is dropped duplicates something kept. */
  lemma {:induction false} DedupedExact(rs: seq<Record>)
    ensures NoRepeats(Deduped(rs))
    ensures forall i :: 0 <= i < |rs| ==> rs[i] in Deduped(rs) || Duplicate(Deduped(rs), rs[i])
    ensures forall r :: r in Deduped(rs) ==> r in rs
  {
    if rs != [] {
      var init, last := rs[..|rs| - 1], rs[|rs| - 1];
      DedupedExact(init);
      var kept, d := Deduped(init), Deduped(rs);
      assert forall i :: 0 <= i < |kept| ==> d[i] == kept[i];
      if !Duplicate(kept, last) {
        assert forall i :: 0 <= i < |kept| ==> !Repeats(last, kept[i]);
        assert d == kept + [last] && NoRepeats(d);
      }
      forall i | 0 <= i < |rs|
        ensures rs[i] in d || Duplicate(d, rs[i])
      {
        if i < |init| {
          assert rs[i] == init[i];
          if Duplicate(kept, rs[i]) {
            var j :| 0 <= j < |kept| && Repeats(rs[i], kept[j]);
            assert Repeats(rs[i], d[j]);
          }
        } else if !Duplicate(kept, last) {
          assert d[|d| - 1] == last;
        }
      }
    }
  }

  lemma {:induction false} MatchingMembers(log: seq<Record>, name: seq<byte>, rtype: u16)
    ensures forall r :: r in Matching(log, name, rtype) <==> r in log && r.name == name && r.rtype == rtype
  {
    if log != [] {
      var init := log[..|log| - 1];
      MatchingMembers(init, name, rtype);
      assert log == init + [log[|log| - 1]];
    }
  }

  /** Where a type has one rdata length, as addresses do: at most four records come back, all of the
      asked name and type, no rdata twice, and an inserted rdata is missing only if four others came. */
  lemma ScanExact(log: seq<Record>, name: seq<byte>, rtype: u16, width: nat)
    requires forall r :: r in log && r.name == name && r.rtype == rtype ==> |r.rdata| == width
    requires name != [] && |name| < DOMAIN_LEN_MAX && ElementIndex(rtype) >= 0
    ensures var s := Scan(log, name, rtype);
            && |s| <= 4
            && (forall r :: r in s ==> r in log && r.name == name && r.rtype == rtype)
            && (forall i, j :: 0 <= i < j < |s| ==> s[i].rdata != s[j].rdata)
    ensures |Scan(log, name, rtype)| == 4
            || forall r :: r in log && r.name == name && r.rtype == rtype ==>
                 exists k :: 0 <= k < |Scan(log, name, rtype)| && Scan(log, name, rtype)[k].rdata == r.rdata
  {
    hide Matching, Deduped;
    var ms := Matching(log, name, rtype);
    MatchingMembers(log, name, rtype);
    DedupedExact(ms);
    var d, s := Deduped(ms), Scan(log, name, rtype);
    forall i, j | 0 <= i < j < |s|
      ensures s[i].rdata != s[j].rdata
    {
      assert d[i] == s[i] && d[j] == s[j] && !Repeats(d[j], d[i]);
    }
    if |s| < RR_CNT_MAX {
      forall r | r in ms
        ensures exists k :: 0 <= k < |s| && s[k].rdata == r.rdata
      {
        var m :| 0 <= m < |ms| && ms[m] == r;
        if r in d {
          var k :| 0 <= k < |d| && d[k] == r;
        } else {
          var k :| 0 <= k < |d| && Repeats(r, d[k]);
          assert d[k] in ms;
        }
      }
    }
  }

  // ---------- replaying the log on the tree's table ----------

  ghost function Replay(log: seq<Record>): (t: Table)
    requires forall i :: 0 <= i < |log| ==> Acceptable(log[i])
    ensures Total(t)
  {
    if log == [] then imap q: Path :: Blank(q) else
      var rr := log[|log| - 1];
      assert Acceptable(rr);
      var t := Replay(log[..|log| - 1]);
      if DomainLen(rr.name) == -1 then t else Inserted(t, Downwards(rr.name), rr)
  }

  /** Reversed paths tell names apart. */
  lemma PathsApart(a: seq<byte>, b: seq<byte>)
    requires WellFormed(a) && WellFormed(b)
    ensures PathOf(Downwards(a)) == PathOf(Downwards(b)) <==> a == b
  {
    if PathOf(Downwards(a)) == PathOf(Downwards(b)) {
      PathInjective(Downwards(a), Downwards(b));
      ReverseTwice(Labels(a));
      ReverseTwice(Labels(b));
    }
  }

  lemma DedupedStep(rs: seq<Record>, r: Record)
    ensures var kept := FirstFour(Deduped(rs));
            FirstFour(Deduped(rs + [r])) == if Refused(kept, r) then kept else kept + [r]
  {
    assert (rs + [r])[..|rs|] == rs;
    var all := Deduped(rs);
    if |all| > RR_CNT_MAX && Duplicate(all, r) {
      assert Refused(FirstFour(all), r);
    }
  }

  /** What Store.Insert answers 1 to. */
  ghost predicate Accepted(log: seq<Record>, rr: Record) {
    && |rr.name| < DOMAIN_LEN_MAX && ElementIndex(rr.rtype) >= 0
    && (rr.name == [] || !Refused(Scan(log, rr.name, rr.rtype), rr))
  }

  /** One insertion adds an accepted record to the answers for its own name and type, and touches no other answer. */
  lemma ScanInserted(log: seq<Record>, rr: Record, name: seq<byte>, rtype: u16)
    ensures Scan(log + [rr], name, rtype)
            == if Accepted(log, rr) && name == rr.name != [] && rtype == rr.rtype then Scan(log, name, rtype) + [rr]
               else Scan(log, name, rtype)
  {
    hide Deduped, Refused;
    assert (log + [rr])[..|log|] == log;
    var ms := Matching(log, name, rtype);
    assert ms + [] == ms;
    DedupedStep(ms, rr);
  }

  /** Acceptance in full: a name of at most 254 bytes, one of three types and, unless the name is the root,
      fewer than four records there, none of which starts with the new rdata. */
  lemma AcceptedExact(log: seq<Record>, rr: Record)
    ensures Accepted(log, rr) <==>
            && |rr.name| < 255 && (rr.rtype == 1 || rr.rtype == 5 || rr.rtype == 28)
            && (rr.name == [] ||
                (|Scan(log, rr.name, rr.rtype)| < 4
                 && forall r :: r in Scan(log, rr.name, rr.rtype) ==>
                      |r.rdata| < |rr.rdata| || r.rdata[..|rr.rdata|] != rr.rdata))
  {
    hide Matching, Deduped;
    var kept := Scan(log, rr.name, rr.rtype);
    forall r | r in kept && Repeats(rr, r)
      ensures Duplicate(kept, rr)
    {
      var i :| 0 <= i < |kept| && kept[i] == r;
    }
    if i :| 0 <= i < |kept| && Repeats(rr, kept[i]) {
      assert kept[i] in kept;
    }
  }

  /** A records, CNAME records and AAAA records are the types stored: the first of its name and type is
      accepted and becomes the answer. */
  lemma StoredTypes(log: seq<Record>, rr: Record)
    requires rr.rtype == 1 || rr.rtype == 5 || rr.rtype == 28
    requires rr.name != [] && |rr.name| < 255
    requires forall r :: r in log ==> r.name != rr.name || r.rtype != rr.rtype
    ensures Accepted(log, rr) && Scan(log + [rr], rr.name, rr.rtype) == [rr]
  {
    NoMatches(log, rr.name, rr.rtype);
    ScanInserted(log, rr, rr.name, rr.rtype);
  }

  lemma {:induction false} NoMatches(log: seq<Record>, name: seq<byte>, rtype: u16)
    requires forall r :: r in log ==> r.name != name || r.rtype != rtype
    ensures Matching(log, name, rtype) == []
  {
    if log != [] {
      NoMatches(log[..|log| - 1], name, rtype);
    }
  }

  /** Records of any other type are refused, and no answer is ever found for one. */
  lemma OtherTypes(log: seq<Record>, rr: Record)
    requires rr.rtype != 1 && rr.rtype != 5 && rr.rtype != 28
    ensures !Accepted(log, rr) && Scan(log, rr.name, rr.rtype) == []
  {
  }

  /** An accepted record is returned from then on, whatever is inserted later, unless its name is the root. */
  lemma AcceptedReturned(log: seq<Record>, rr: Record, more: seq<Record>)
    requires Accepted(log, rr)
    ensures rr in Scan(log + [rr] + more, rr.name, rr.rtype) <==> rr.name != []
  {
    hide Deduped, Refused, Matching;
    if rr.name != [] {
      ScanInserted(log, rr, rr.name, rr.rtype);
      ScanGrows(log + [rr], more, rr.name, rr.rtype);
      var first, all := Scan(log + [rr], rr.name, rr.rtype), Scan(log + [rr] + more, rr.name, rr.rtype);
      assert rr == first[|first| - 1] == all[|first| - 1];
    }
  }

  /** Later insertions only extend an answer. */
  lemma {:induction false} ScanGrows(log: seq<Record>, more: seq<Record>, name: seq<byte>, rtype: u16)
    ensures Scan(log, name, rtype) <= Scan(log + more, name, rtype)
    decreases |more|
  {
    hide Scan, Accepted;
    if more == [] {
      assert log + more == log;
    } else {
      var init := more[..|more| - 1];
      ScanGrows(log, init, name, rtype);
      assert log + more == log + init + [more[|more| - 1]];
      ScanInserted(log + init, more[|more| - 1], name, rtype);
    }
  }

  /** The reversed-label tree's table and the plain scan of the log always agree. */
  lemma {:induction false} ReplayIsScan(log: seq<Record>, name: seq<byte>, rtype: u16)
    requires forall i :: 0 <= i < |log| ==> Acceptable(log[i])
    requires WellFormed(name) && |name| < DOMAIN_LEN_MAX
    ensures Selected(Replay(log), Downwards(name), rtype) == Scan(log, name, rtype)
  {
    hide WellFormed, Labels, Deduped, PathOf, Reverse, StorableName;
    RootPath(name);
    DedupedNone();
    if log != [] && name != [] && ElementIndex(rtype) >= 0 {
      var init, rr := log[..|log| - 1], log[|log| - 1];
      ReplayIsScan(init, name, rtype);
      assert Acceptable(rr);
      var ms := Matching(init, name, rtype);
      assert ms + [] == ms;
      DedupedStep(ms, rr);
      if DomainLen(rr.name) != -1 {
        AcceptableNames(rr);
        RootPath(rr.name);
        PathsApart(rr.name, name);
      }
    }
  }

  lemma DedupedNone()
    ensures Deduped([]) == []
  {
  }

  lemma AcceptableNames(rr: Record)
    requires Acceptable(rr) && DomainLen(rr.name) != -1
    ensures WellFormed(rr.name)
  {
  }

  lemma RootPath(name: seq<byte>)
    requires WellFormed(name)
    ensures Downwards(name) == [] <==> name == []
  {
  }

  /** The database and the log of everything ever inserted into it. */
  class Store {
    const tree: BucketTree
    ghost var log: seq<Record>

    /** The tree holds exactly what replaying all insertions so far gives. */
    ghost predicate Valid()
      reads this, tree, tree.repr
    {
      && this !in tree.repr && tree.Valid() && (forall i :: 0 <= i < |log| ==> Acceptable(log[i]))
      && tree.Records() == Replay(log)
    }

    constructor ()
      ensures Valid() && log == [] && fresh(tree) && fresh(tree.repr)
    {
      hide BucketTree.Valid, BucketTree.Records;
      tree := new BucketTree();
      log := [];
    }

    /** insert_database; every call is logged, accepted or not. */
    method Insert(rr: Record) returns (ret: int)
      requires Valid() && Acceptable(rr)
      requires forall r :: r in Scan(log, rr.name, rr.rtype) ==> |r.rdata| >= |rr.rdata|
      modifies this, tree, tree.repr
      ensures Valid() && log == old(log) + [rr] && fresh(tree.repr - old(tree.repr))
      ensures ret == if Accepted(old(log), rr) then 1 else -1
      ensures |rr.name| >= 255 || rr.rtype !in {1, 5, 28} ==> ret == -1
      ensures ret == -1 ==> unchanged(tree) && unchanged(old(tree.repr))
    {
      hide BucketTree.Valid, BucketTree.Records, WellFormed, Labels, Deduped, PathOf, Reverse, Refused;
      log := log + [rr];
      assert log[..|log| - 1] == old(log);
      var dlen := DomainLen(rr.name);
      if dlen < 0 {
        return -1;
      }
      var revbuf := new byte[DOMAIN_BUF_LEN](_ => 0);
      DomainRev(rr.name, revbuf);
      ReplayIsScan(old(log), rr.name, rr.rtype);
      RootPath(rr.name);
      ReversedCursor(revbuf[..], rr.name);
      ret := tree.Insert(revbuf[..], rr, Downwards(rr.name));
    }

    /** select_database. */
    method Select(qname: seq<byte>, qtype: u16) returns (dest: seq<Record>)
      requires Valid() && (DomainLen(qname) != -1 ==> WellFormed(qname) && ZeroFree(qname))
      ensures dest == Scan(log, qname, qtype)
    {
      hide BucketTree.Valid, BucketTree.Records, WellFormed, Labels, Deduped, PathOf, Reverse;
      var dlen := DomainLen(qname);
      if dlen < 0 {
        return [];
      }
      var revbuf := new byte[DOMAIN_BUF_LEN](_ => 0);
      DomainRev(qname, revbuf);
      ReplayIsScan(log, qname, qtype);
      ReversedCursor(revbuf[..], qname);
      dest := tree.Search(revbuf[..], qtype, Downwards(qname));
    }
  }

  /** The reversed name in its buffer is where the tree walk starts. */
  lemma ReversedCursor(buf: seq<byte>, name: seq<byte>)
    requires WellFormed(name) && ZeroFree(name) && |buf| > |name| && buf[..|name| + 1] == Reversed(name) + [0]
    ensures Cursor(buf, 0, Downwards(name), 0)
    ensures var ls := Downwards(name); forall i :: 0 <= i < |ls| ==> Storable(ls[i])
    ensures StorableName(name) ==> var ls := Downwards(name); forall i :: 0 <= i < |ls| ==> |ls[i]| < SUBDOMAIN_MAX
  {
    var ls := Downwards(name);
    assert ls[0..] == ls;
    LabelsZeroFree(name);
  }

  lemma {:induction false} LabelsZeroFree(name: seq<byte>)
    requires WellFormed(name) && ZeroFree(name)
    ensures forall i :: 0 <= i < |Labels(name)| ==> ZeroFree(Labels(name)[i])
    decreases |name|
  {
    if name != [] {
      LabelsZeroFree(name[1 + name[0]..]);
    }
  }
}
