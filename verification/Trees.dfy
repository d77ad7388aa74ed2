/** The database tree: levels of entries, one level per label, keyed by reversed names. */
module Trees {
  import opened Bytes
  import opened Names
  import opened Messages
  import opened Levels

  const RR_ARR_LEN := 3
  const RR_CNT_MAX := 4
  const SUBDOMAIN_MAX := 50

  /** A place in the tree: the labels from the top-level domain downwards. */
  datatype Path = Top | Sub(parent: Path, text: Label)

  ghost function PathOf(ls: seq<Label>): Path {
    if ls == [] then Top else Sub(PathOf(ls[..|ls| - 1]), ls[|ls| - 1])
  }

  lemma PathStep(ls: seq<Label>, i: nat)
    requires i < |ls|
    ensures PathOf(ls[..i + 1]) == Sub(PathOf(ls[..i]), ls[i])
  {
    assert ls[..i + 1][..i] == ls[..i];
  }

  lemma {:induction false} PathInjective(a: seq<Label>, b: seq<Label>)
    requires PathOf(a) == PathOf(b)
    ensures a == b
    decreases |a|
  {
    if a != [] && b != [] {
      PathInjective(a[..|a| - 1], b[..|b| - 1]);
      assert a == a[..|a| - 1] + [a[|a| - 1]] && b == b[..|b| - 1] + [b[|b| - 1]];
    }
  }

  /** pos is where label i of the stored name ls lies in buf. */
  ghost predicate Cursor(buf: seq<byte>, pos: nat, ls: seq<Label>, i: nat) {
    AreLabels(ls) && i <= |ls| && At(buf, pos, Wire(ls[i..]) + [0])
  }

  ghost function LengthByte(ls: seq<Label>, i: nat): nat {
    if i < |ls| then |ls[i]| else 0
  }

  lemma CursorStep(buf: seq<byte>, pos: nat, ls: seq<Label>, i: nat)
    requires Cursor(buf, pos, ls, i)
    ensures pos < |buf| && buf[pos] == LengthByte(ls, i)
    ensures forall j :: i <= j <= |ls| ==> (LengthByte(ls, j) == 0 <==> j == |ls|)
    ensures i < |ls| ==> var n := |ls[i]|;
              && pos + 1 + n < |buf| && buf[pos + 1..pos + 1 + n] == ls[i]
              && Cursor(buf, pos + 1 + n, ls, i + 1) && buf[pos + 1 + n] == LengthByte(ls, i + 1)
  {
    CursorByte(buf, pos, ls, i);
    if i < |ls| {
      var n, tail := |ls[i]|, Wire(ls[i + 1..]) + [0];
      assert ls[i..][1..] == ls[i + 1..];
      assert Wire(ls[i..]) + [0] == ([n] + ls[i]) + tail;
      AtSplit(buf, pos, [n] + ls[i], tail);
      assert buf[pos + 1..pos + 1 + n] == buf[pos..pos + 1 + n][1..];
      CursorByte(buf, pos + 1 + n, ls, i + 1);
    }
  }

  lemma CursorByte(buf: seq<byte>, pos: nat, ls: seq<Label>, i: nat)
    requires Cursor(buf, pos, ls, i)
    ensures pos < |buf| && buf[pos] == LengthByte(ls, i)
  {
    AtByte(buf, pos, Wire(ls[i..]) + [0], 0);
  }

  /** The slot of an entry's record table for a record type; -1 for types the tree does not store. */
  function ElementIndex(rtype: u16): int {
    if rtype == RRTYPE_A then 0 else if rtype == RRTYPE_CNAME then 1 else if rtype == RRTYPE_AAAA then 2 else -1
  }

  /** memcmp over the new record's length: the new rdata is a prefix of the stored one. */
  predicate Repeats(rr: Record, stored: Record) {
    rr.rdata <= stored.rdata
  }

  ghost predicate Duplicate(stored: seq<Record>, rr: Record) {
    exists i :: 0 <= i < |stored| && Repeats(rr, stored[i])
  }

  ghost predicate Refused(stored: seq<Record>, rr: Record) {
    |stored| >= RR_CNT_MAX || Duplicate(stored, rr)
  }

  /** The records under every path, by slot. */
  type Table = imap<Path, seq<seq<Record>>>

  /** The slots of a path nothing has been stored under. */
  ghost function Blank(q: Path): seq<seq<Record>> {
    [[], [], []]
  }

  ghost predicate Total(t: Table) {
    forall q :: q in t && |t[q]| == RR_ARR_LEN
  }

  /** The table with one record appended in one slot. */
  ghost function Put(t: Table, q: Path, k: nat, rr: Record): Table
    requires Total(t) && k < RR_ARR_LEN
  {
    t[q := t[q][k := t[q][k] + [rr]]]
  }

  /** The duplicate test compares over the new record's length, so stored rdata must not be shorter. */
  ghost predicate NoOverread(t: Table, ls: seq<Label>, rr: Record)
    requires Total(t)
  {
    var k := ElementIndex(rr.rtype);
    ls != [] && k >= 0 ==> forall r :: r in t[PathOf(ls)][k] ==> |r.rdata| >= |rr.rdata|
  }

  /** tree_insert answers -1: an unsupported type, a full slot or a duplicate. */
  ghost predicate Rejects(t: Table, ls: seq<Label>, rr: Record)
    requires Total(t)
  {
    var k := ElementIndex(rr.rtype);
    k < 0 || (ls != [] && Refused(t[PathOf(ls)][k], rr))
  }

  /** The table after an insertion; a record for the root name is accepted and dropped. */
  ghost function Inserted(t: Table, ls: seq<Label>, rr: Record): Table
    requires Total(t)
  {
    if ls == [] || Rejects(t, ls, rr) then t else Put(t, PathOf(ls), ElementIndex(rr.rtype), rr)
  }

  /** The records a search is to return. */
  ghost function Selected(t: Table, ls: seq<Label>, rtype: u16): seq<Record>
    requires Total(t)
  {
    if ls == [] || ElementIndex(rtype) < 0 then [] else t[PathOf(ls)][ElementIndex(rtype)]
  }

  type Index = map<Path, map<Label, Entry>>
  type Nodes = map<Path, Entry>

  ghost predicate Below(p: Path, nodes: Nodes) {
    p == Top || p in nodes
  }

  /** Every level but the root lies below an entry. */
  ghost predicate Hanging(index: Index, nodes: Nodes) {
    Top in index && forall p {:trigger Below(p, nodes)} :: p in index ==> Below(p, nodes)
  }

  /** nodes lists entries under their full paths. */
  ghost predicate Keyed(index: Index, nodes: Nodes) {
    forall q :: q in nodes ==>
      q.Sub? && q.parent in index && q.text in index[q.parent] && index[q.parent][q.text] == nodes[q]
  }

  /** nodes misses no entry of any level. */
  ghost predicate Covered(index: Index, nodes: Nodes) {
    forall p, text :: p in index && text in index[p] ==> Sub(p, text) in nodes
  }

  /** No entry is listed twice. */
  ghost predicate Separate(nodes: Nodes) {
    forall q, q' :: q in nodes && q' in nodes && q != q' ==> nodes[q] != nodes[q']
  }

  ghost predicate Listed(index: Index, nodes: Nodes) {
    Hanging(index, nodes) && Keyed(index, nodes) && Covered(index, nodes) && Separate(nodes)
  }

  lemma ListedEntry(index: Index, nodes: Nodes, p: Path, text: Label)
    requires Listed(index, nodes) && p in index
    ensures text in index[p] <==> Sub(p, text) in nodes
    ensures text in index[p] ==> index[p][text] == nodes[Sub(p, text)]
    ensures Sub(p, text) !in nodes ==> Sub(p, text) !in index
  {
    hide Separate;
    assert Sub(p, text) in index ==> Below(Sub(p, text), nodes);
  }

  lemma HangingInsert(index: Index, nodes: Nodes, p: Path, text: Label, e: Entry)
    requires Hanging(index, nodes) && p in index
    ensures Hanging(index[p := index[p][text := e]], nodes[Sub(p, text) := e])
  {
    forall p' | p' in index
      ensures Below(p', nodes[Sub(p, text) := e])
    {
      assert Below(p', nodes);
    }
  }

  lemma ListedInsert(index: Index, nodes: Nodes, p: Path, text: Label, e: Entry)
    requires Listed(index, nodes) && p in index && text !in index[p]
    requires forall q :: q in nodes ==> nodes[q] != e
    ensures Listed(index[p := index[p][text := e]], nodes[Sub(p, text) := e])
  {
    hide Hanging;
    HangingInsert(index, nodes, p, text, e);
  }

  lemma ListedChild(index: Index, nodes: Nodes, q: Path)
    requires Listed(index, nodes) && q in nodes && q !in index
    ensures q != Top && Listed(index[q := map[]], nodes)
    ensures forall q' :: q' in nodes && q' != q ==> nodes[q'] != nodes[q]
  {
    assert Below(q, nodes);
  }

  /** An entry's path leads through levels all the way from the root. */
  lemma {:induction false} ListedAncestors(index: Index, nodes: Nodes, ls: seq<Label>, i: nat)
    requires Listed(index, nodes) && i < |ls| && PathOf(ls) in nodes
    ensures PathOf(ls[..i]) in index
  {
    hide Covered, Separate;
    assert ls[..|ls| - 1] + [ls[|ls| - 1]] == ls;
    var up := ls[..|ls| - 1];
    if i < |up| {
      assert Below(PathOf(up), nodes);
      ListedAncestors(index, nodes, up, i);
      assert up[..i] == ls[..i];
    }
  }

  lemma ListedSeparate(index: Index, nodes: Nodes)
    requires Listed(index, nodes)
    ensures Separate(nodes)
  {
  }

  /** The tree. levels, index and nodes are what its child and next pointers spell out, by path. */
  class BucketTree {
    const root: Level
    ghost var levels: map<Path, Level>
    ghost var index: Index
    ghost var nodes: Nodes
    ghost var repr: set<object>

    /** Every level is well formed and its objects are the tree's. */
    ghost predicate Owned()
      reads this, repr
    {
      && this !in repr && levels.Keys == index.Keys
      && forall p :: p in levels ==> levels[p] in repr && levels[p].Footprint() <= repr
                                     && levels[p].Valid() && levels[p].entries == index[p]
    }

    /** No object belongs to two levels. */
    ghost predicate Apart()
      requires Owned()
      reads this, repr
    {
      forall p, q :: p in levels && q in levels && p != q ==> levels[p].Footprint() !! levels[q].Footprint()
    }

    /** Every level but the root is the child of its entry; no entry holds too many records. */
    ghost predicate Hung()
      reads this, repr
    {
      && Top in levels && levels[Top] == root
      && (forall q :: q in nodes ==> nodes[q] in repr)
      && (forall q :: q in nodes ==> nodes[q].child == if q in levels then levels[q] else null)
      && (forall q :: q in nodes ==> |nodes[q].data| == RR_ARR_LEN)
      && (forall q, k :: q in nodes && 0 <= k < RR_ARR_LEN ==> |nodes[q].data[k]| <= RR_CNT_MAX)
    }

    ghost predicate Valid()
      reads this, repr
    {
      Owned() && Apart() && Listed(index, nodes) && Hung()
    }

    /** What the tree stores, with no trace of how. */
    ghost function Records(): (t: Table)
      requires Valid()
      reads this, repr
      ensures Total(t)
    {
      imap q: Path :: if q in nodes then nodes[q].data else Blank(q)
    }

    constructor ()
      ensures Valid() && fresh(repr)
      ensures Records() == imap q: Path :: Blank(q)
    {
      hide Level.Valid, Level.Footprint;
      root := new Level();
      new;
      levels, index, nodes, repr := map[Top := root], map[Top := map[]], map[], root.Footprint();
      assert Below(Top, nodes);
      root.Owns();
    }

    /** Owned and Apart speak of the levels' own fields and next pointers only. */
    twostate lemma LevelsStable()
      requires old(Owned() && Apart()) && unchanged(this)
      requires forall p :: p in levels ==> unchanged(levels[p]) && unchanged(levels[p].nodes`next)
      requires forall p :: p in levels && levels[p].bucket != null ==> unchanged(levels[p].bucket)
      ensures Owned() && Apart()
    {
      hide Level.Shape;
    }

    twostate lemma LevelsGrow(q: Path, new child: Level)
      requires old(Owned() && Apart()) && unchanged(old(repr))
      requires fresh(child.Footprint()) && child.Valid() && child.entries == map[]
      requires q !in old(levels) && levels == old(levels)[q := child] && index == old(index)[q := map[]]
      requires repr == old(repr) + child.Footprint()
      ensures Owned() && Apart()
    {
      hide Level.Valid;
    }

    /** Changing one level's own objects leaves every other level as it was. */
    twostate lemma LevelsElsewhere(p: Path)
      requires old(Owned() && Apart()) && levels == old(levels) && p in levels
      requires unchanged(old(repr) - old(levels[p].Footprint()))
      requires old(repr) <= repr
      ensures forall q :: q in levels && q != p ==>
                && levels[q] in repr && levels[q].Footprint() == old(levels[q].Footprint())
                && levels[q].Valid() && levels[q].entries == old(index[q])
    {
      hide Level.Valid;
    }

    twostate lemma LevelsInsert(p: Path)
      requires old(Owned() && Apart()) && levels == old(levels) && p in levels
      requires unchanged(old(repr) - old(levels[p].Footprint()))
      requires levels[p].Valid() && fresh(levels[p].Footprint() - old(levels[p].Footprint()))
      requires index == old(index)[p := levels[p].entries] && repr == old(repr) + levels[p].Footprint()
      ensures Owned() && Apart()
    {
      hide Level.Valid, Level.Footprint;
      levels[p].Owns();
      LevelsElsewhere(p);
    }

    twostate lemma HungInsert(q: Path, new e: Entry)
      requires old(Hung()) && levels == old(levels) && q !in levels && old(repr) <= repr && e in repr
      requires forall q' :: q' in old(nodes) ==>
                 var n := old(nodes[q']); n.child == old(n.child) && n.data == old(n.data)
      requires nodes == old(nodes)[q := e] && e.child == null && e.data == [[], [], []]
      ensures Hung()
    {
    }

    twostate lemma HungChild(q: Path, new child: Level)
      requires old(Hung()) && nodes == old(nodes) && q in nodes && q != Top && old(repr) <= repr
      requires levels == old(levels)[q := child] && nodes[q].child == child
      requires forall q' :: q' in nodes ==>
                 var n := nodes[q']; n.data == old(n.data) && (q' != q ==> n.child == old(n.child))
      ensures Hung()
    {
    }

    twostate lemma SameRecords()
      requires old(Valid()) && Valid()
      requires forall q :: q in old(nodes) ==> q in nodes && nodes[q].data == old(nodes[q].data)
      requires forall q :: q in nodes && q !in old(nodes) ==> nodes[q].data == [[], [], []]
      ensures Records() == old(Records())
    {
      hide Owned, Apart, Listed;
    }

    lemma OwnedFacts()
      requires Owned()
      ensures levels.Keys == index.Keys && this !in repr
      ensures forall p :: p in levels ==> levels[p].Valid() && levels[p].entries == index[p]
                                          && levels[p].Footprint() <= repr
    {
    }

    method AddChild(ghost q: Path, e: Entry) returns (child: Level)
      requires Valid() && q in nodes && nodes[q] == e && q !in levels
      modifies this`levels, this`index, this`repr, e`child
      ensures Valid() && levels == old(levels)[q := child] && e.child == child
      ensures child.entries == map[] && fresh(repr - old(repr)) && child in repr
      ensures Records() == old(Records())
    {
      hide Level.Valid, Level.Footprint, Owned, Apart, Listed, Hung, Records;
      OwnedFacts();
      ListedChild(index, nodes, q);
      child := new Level();
      levels, index, repr := levels[q := child], index[q := map[]], repr + {child};
      LevelsGrow(q, child);
      label Grown:
      e.child := child;
      LevelsStable@Grown();
      HungChild(q, child);
      SameRecords();
    }

    method AddEntry(ghost p: Path, tn: Level, text: Label) returns (e: Entry)
      requires Valid() && p in levels && levels[p] == tn && Storable(text) && text !in tn.entries
      modifies this`nodes, this`index, this`repr, tn, tn.bucket, tn.nodes`next
      ensures Valid() && nodes == old(nodes)[Sub(p, text) := e]
      ensures fresh(e) && e.data == [[], [], []] && e.child == null
      ensures tn.entries == old(tn.entries)[text := e] && fresh(repr - old(repr))
      ensures Records() == old(Records())
    {
      hide Level.Valid, Level.Footprint, Owned, Apart, Listed, Hung, Records;
      OwnedFacts();
      tn.Owns();
      ListedEntry(index, nodes, p, text);
      e := tn.Insert(text);
      tn.Owns();
      assert forall q :: q in nodes ==> nodes[q] != e;
      ListedInsert(index, nodes, p, text, e);
      nodes, index, repr := nodes[Sub(p, text) := e], index[p := tn.entries], repr + tn.Footprint();
      LevelsInsert(p);
      HungInsert(Sub(p, text), e);
      SameRecords();
    }

    method Append(ghost q: Path, e: Entry, k: nat, rr: Record)
      requires Valid() && q in nodes && nodes[q] == e && k < RR_ARR_LEN && |e.data[k]| < RR_CNT_MAX
      modifies e`data
      ensures Valid()
      ensures Records() == Put(old(Records()), q, k, rr)
    {
      hide Level.Valid, Level.Footprint, Owned, Apart, Listed;
      ListedSeparate(index, nodes);
      e.data := e.data[k := e.data[k] + [rr]];
      LevelsStable();
    }

    /** What a level says about one label, in terms of paths. */
    lemma AtLabel(p: Path, text: Label)
      requires Valid() && p in levels
      ensures levels[p].Valid() && levels[p].Footprint() <= repr
      ensures text in levels[p].entries <==> Sub(p, text) in nodes
      ensures Sub(p, text) in levels ==> Sub(p, text) in nodes
      ensures Sub(p, text) in nodes ==>
                && nodes[Sub(p, text)] == levels[p].entries[text] && nodes[Sub(p, text)] in repr
                && nodes[Sub(p, text)].child == (if Sub(p, text) in levels then levels[Sub(p, text)] else null)
                && |nodes[Sub(p, text)].data| == RR_ARR_LEN
      ensures Sub(p, text) !in nodes ==> Records()[Sub(p, text)] == [[], [], []]
    {
      hide Level.Valid, Level.Footprint, Apart, Listed;
      ListedEntry(index, nodes, p, text);
    }

    /** A level is the child of one entry only. */
    lemma OneParent(q: Path, q': Path)
      requires Valid() && q in nodes && q' in nodes && q != q' && nodes[q].child != null
      ensures nodes[q].child != nodes[q'].child
    {
      hide Level.Valid, Listed;
      assert q in levels && levels[q] in levels[q].Footprint();
    }

    /** The limit and duplicate checks of tree_insert, then the append. */
    method Store(ghost q: Path, ln: Entry, k: nat, rr: Record) returns (ret: int)
      requires Valid() && q in nodes && nodes[q] == ln && k < RR_ARR_LEN
      requires forall r :: r in Records()[q][k] ==> |r.rdata| >= |rr.rdata|
      modifies ln`data
      ensures Valid()
      ensures ret == if Refused(old(Records()[q][k]), rr) then -1 else 1
      ensures ret == 1 ==> Records() == Put(old(Records()), q, k, rr)
      ensures ret == -1 ==> Records() == old(Records()) && unchanged(ln)
    {
      hide Owned, Apart, Listed;
      var stored := ln.data[k];
      if |stored| >= RR_CNT_MAX {
        return -1;
      }
      for i := 0 to |stored|
        invariant forall j :: 0 <= j < i ==> !Repeats(rr, stored[j])
        invariant unchanged(ln)
      {
        if rr.rdata == stored[i].rdata[..|rr.rdata|] {
          return -1;
        }
      }
      Append(q, ln, k, rr);
      return 1;
    }

    /** Continue to an entry's child, creating it if it is missing. */
    method Enter(ghost q: Path, ln: Entry) returns (child: Level)
      requires Valid() && q in nodes && nodes[q] == ln
      modifies this, ln`child
      ensures Valid() && fresh(repr - old(repr)) && levels == old(levels)[q := child]
      ensures q in old(levels) ==> unchanged(this) && unchanged(ln)
      ensures q !in old(levels) ==> child.entries == map[]
      ensures Records() == old(Records())
    {
      hide Owned, Apart, Listed, Records;
      if ln.child == null {
        child := AddChild(q, ln);
      }
      child := ln.child;
    }

    /** Create a missing entry together with its empty child. */
    method Plant(ghost p: Path, tn: Level, text: Label)
      requires Valid() && p in levels && levels[p] == tn && Storable(text) && text !in tn.entries
      modifies this, tn, tn.bucket, tn.nodes`next
      ensures Valid() && fresh(repr - old(repr)) && p in levels && levels[p] == tn
      ensures text in tn.entries && Sub(p, text) in levels && levels[Sub(p, text)].entries == map[]
      ensures Records() == old(Records())
    {
      hide Valid, Records, Level.Valid;
      AtLabel(p, text);
      var added := AddEntry(p, tn, text);
      var child := AddChild(Sub(p, text), added);
    }

    /** Create a missing final entry holding just the new record. */
    method PlantRecord(ghost p: Path, tn: Level, text: Label, k: nat, rr: Record)
      requires Valid() && p in levels && levels[p] == tn && Storable(text) && text !in tn.entries && k < RR_ARR_LEN
      modifies this, tn, tn.bucket, tn.nodes`next
      ensures Valid() && fresh(repr - old(repr))
      ensures old(Records()[Sub(p, text)][k]) == [] && Records() == Put(old(Records()), Sub(p, text), k, rr)
    {
      hide Valid, Records, Level.Valid;
      AtLabel(p, text);
      var added := AddEntry(p, tn, text);
      Append(Sub(p, text), added, k, rr);
    }

    /** An iteration at a label that is not the last: go down, or create the entry and stay. */
    method Step(ghost p: Path, tn: Level, text: Label) returns (down: Level?)
      requires Valid() && p in levels && levels[p] == tn && Storable(text)
      modifies this, repr
      ensures Valid() && fresh(repr - old(repr)) && Records() == old(Records())
      ensures Sub(p, text) in levels && p in levels && levels[p] == tn && text in tn.entries
      ensures down == if text in old(tn.entries) then levels[Sub(p, text)] else null
      ensures if Sub(p, text) in old(levels) then unchanged(this) && unchanged(old(repr))
              else levels[Sub(p, text)].entries == map[]
    {
      hide Valid, Records, Level.Valid, Level.Footprint, Storable;
      AtLabel(p, text);
      tn.Owns();
      var ln := tn.Find(text);
      if ln != null {
        down := Enter(Sub(p, text), ln);
      } else {
        Plant(p, tn, text);
        down := null;
      }
    }

    /** The iteration at the last label. */
    method Finish(ghost p: Path, tn: Level, text: Label, k: nat, rr: Record) returns (ret: int)
      requires Valid() && p in levels && levels[p] == tn && Storable(text) && k < RR_ARR_LEN
      requires forall r :: r in Records()[Sub(p, text)][k] ==> |r.rdata| >= |rr.rdata|
      modifies this, repr
      ensures Valid() && fresh(repr - old(repr))
      ensures ret == if Refused(old(Records()[Sub(p, text)][k]), rr) then -1 else 1
      ensures Records() == if ret == 1 then Put(old(Records()), Sub(p, text), k, rr) else old(Records())
      ensures ret == -1 ==> text in old(tn.entries) && unchanged(this) && unchanged(old(repr))
    {
      hide Valid, Records, Level.Valid, Level.Footprint, Storable;
      AtLabel(p, text);
      tn.Owns();
      var ln := tn.Find(text);
      if ln != null {
        ret := Store(Sub(p, text), ln, k, rr);
      } else {
        PlantRecord(p, tn, text, k, rr);
        ret := 1;
      }
    }

    /** tree_insert: walk the reversed name in rev label by label. Creating an entry does not advance, so a
        label may take two iterations; once anything was created, the checks that answer -1 are out of reach. */
    method Insert(rev: seq<byte>, rr: Record, ghost ls: seq<Label>) returns (ret: int)
      requires Valid() && Cursor(rev, 0, ls, 0) && |rev| >= 2
      requires forall i :: 0 <= i < |ls| ==> Storable(ls[i]) && |ls[i]| < SUBDOMAIN_MAX
      requires NoOverread(Records(), ls, rr)
      modifies this, repr
      ensures Valid() && fresh(repr - old(repr))
      ensures ret == (if Rejects(old(Records()), ls, rr) then -1 else 1)
      ensures Records() == Inserted(old(Records()), ls, rr)
      ensures ret == -1 ==> unchanged(this) && unchanged(old(repr))
    {
      hide Valid, Records, PathOf, Cursor, Level.Valid, Refused, Storable, Put;
      CursorStep(rev, 0, ls, 0);
      var next: nat := rev[rev[0] + 1];
      var k := ElementIndex(rr.rtype);
      if k < 0 {
        return -1;
      }
      var tn, pos: nat := root, 0;
      ghost var i, p, created := 0, Top, false;
      Walking(ls);
      while rev[pos] != 0
        invariant Valid() && fresh(repr - old(repr)) && Records() == old(Records())
        invariant i < |ls| || (i == 0 && ls == [])
        invariant Cursor(rev, pos, ls, i) && pos < |rev| && rev[pos] == LengthByte(ls, i)
        invariant ls != [] ==> next == LengthByte(ls, i + 1)
        invariant p == PathOf(ls[..i]) && p in levels && levels[p] == tn
        invariant !created ==> unchanged(this) && unchanged(old(repr))
        invariant created && i < |ls| && ls[i] in tn.entries ==>
                    i + 1 < |ls| && Sub(p, ls[i]) in levels && levels[Sub(p, ls[i])].entries == map[]
        decreases |ls| - i, if i < |ls| && ls[i] in tn.entries then 0 else 1
      {
        CursorStep(rev, pos, ls, i);
        PathStep(ls, i);
        var text := rev[pos + 1..pos + 1 + rev[pos]];
        if next == 0 {
          assert ls[..i + 1] == ls;
          ret := Finish(p, tn, text, k, rr);
          return;
        }
        created := created || Sub(p, text) !in levels;
        var down := Step(p, tn, text);
        if down != null {
          pos := pos + rev[pos] + 1;
          CursorStep(rev, pos, ls, i + 1);
          next := rev[pos + rev[pos] + 1];
          tn, p, i := down, Sub(p, text), i + 1;
        }
      }
      CursorStep(rev, pos, ls, i);
      return 1;
    }

    lemma Walking(ls: seq<Label>)
      requires Valid()
      ensures PathOf(ls[..0]) == Top && Top in levels && levels[Top] == root
    {
      hide Owned, Apart, Listed;
    }

    /** Where the walk has left the tree, nothing is stored. */
    lemma NothingBelow(ls: seq<Label>, i: nat)
      requires Valid() && i <= |ls| && ls != []
      requires if i < |ls| then PathOf(ls[..i]) !in levels else PathOf(ls) !in nodes
      ensures Records()[PathOf(ls)] == [[], [], []]
    {
      hide Level.Valid, Level.Footprint, Apart, Listed, PathOf;
      if i < |ls| && PathOf(ls) in nodes {
        ListedAncestors(index, nodes, ls, i);
      }
    }

    /** tree_search. */
    method Search(rev: seq<byte>, rtype: u16, ghost ls: seq<Label>) returns (dest: seq<Record>)
      requires Valid() && Cursor(rev, 0, ls, 0) && |rev| >= 2
      requires forall i :: 0 <= i < |ls| ==> Storable(ls[i])
      ensures dest == Selected(Records(), ls, rtype)
    {
      hide Valid, PathOf, Cursor, Level.Valid, Storable;
      var k := ElementIndex(rtype);
      if k < 0 {
        return [];
      }
      CursorStep(rev, 0, ls, 0);
      var next: nat := rev[rev[0] + 1];
      var tn: Level?, pos: nat := root, 0;
      ghost var i, p := 0, Top;
      Walking(ls);
      while rev[pos] != 0 && tn != null
        invariant i < |ls| || (i == 0 && ls == [])
        invariant Cursor(rev, pos, ls, i) && pos < |rev| && rev[pos] == LengthByte(ls, i)
        invariant ls != [] ==> next == LengthByte(ls, i + 1)
        invariant p == PathOf(ls[..i]) && tn == if p in levels then levels[p] else null
        decreases |ls| - i
      {
        CursorStep(rev, pos, ls, i);
        PathStep(ls, i);
        AtLabel(p, ls[i]);
        var text := rev[pos + 1..pos + 1 + rev[pos]];
        var ln := tn.Find(text);
        if ln == null {
          if i + 1 < |ls| {
            NothingBelow(ls, i + 1);
          } else {
            assert ls[..i + 1] == ls;
            NothingBelow(ls, |ls|);
          }
          return [];
        } else if next == 0 {
          assert ls[..i + 1] == ls;
          return ln.data[k];
        } else {
          pos := pos + rev[pos] + 1;
          CursorStep(rev, pos, ls, i + 1);
          next := rev[pos + rev[pos] + 1];
          tn, p, i := ln.child, Sub(p, text), i + 1;
        }
      }
      CursorStep(rev, pos, ls, i);
      if ls != [] {
        NothingBelow(ls, i);
      }
      return [];
    }
  }
}
