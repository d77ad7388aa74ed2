/** One level of the database tree: a linked list of entries that becomes a hash table of
    chains once it holds more than 32 of them. */
module Levels {
  import opened Bytes
  import opened Names
  import opened Messages

  const HASH_SEED := 131
  const HASH_BUCKET_SIZE := 1024
  const HASH_SWITCH_THRESHOLD := 32

  /** The BKDR hash in 32-bit wrapping arithmetic. */
  ghost function Bkdr(s: seq<byte>): u32 {
    if s == [] then 0 else var last := |s| - 1; (Bkdr(s[..last]) * HASH_SEED + s[last]) % 0x1_0000_0000
  }

  /** A label as it lies in memory: its length, then its bytes. */
  function Stored(text: Label): seq<byte>
    requires |text| < 256
  {
    [|text|] + text
  }

  /** rr_hash starts at the length byte, so it never reaches the last byte of the label. */
  ghost function Bucket(text: Label): nat
    requires |text| < 256
  {
    Bkdr(Stored(text)[..|text|]) % HASH_BUCKET_SIZE
  }

  method RrHash(ptr: seq<byte>) returns (hsh: u32)
    requires ptr != [] && ptr[0] <= |ptr|
    ensures hsh == Bkdr(ptr[..ptr[0]])
  {
    hsh := 0;
    var n: nat := ptr[0];
    for i := 0 to n
      invariant hsh == Bkdr(ptr[..i])
    {
      assert ptr[..i + 1][..i] == ptr[..i];
      hsh := (hsh * HASH_SEED + ptr[i]) % 0x1_0000_0000;
    }
  }

  /** Labels of one length that differ only in their last byte share a chain, as ab and ac share number 359. */
  lemma LastByteUnhashed(a: Label, b: Label)
    requires 0 < |a| == |b| < 256 && a[..|a| - 1] == b[..|b| - 1]
    ensures Bucket(a) == Bucket(b)
    ensures Bucket([97, 98]) == Bucket([97, 99]) == 359
  {
    assert Stored(a)[..|a|] == [|a|] + a[..|a| - 1];
    assert Stored(b)[..|b|] == [|b|] + b[..|b| - 1];
    assert [2, 97][..1] == [2] && [2][..0] == [];
    assert Bkdr([2]) == 2 && Bkdr([2, 97]) == 359;
    assert Stored([97, 98])[..2] == [2, 97] && Stored([97, 99])[..2] == [2, 97];
  }

  ghost predicate Storable(text: Label) {
    1 <= |text| < 256 && ZeroFree(text)
  }

  lemma StoredCompare(a: Label, b: Label)
    requires Storable(a) && Storable(b)
    ensures StrNEqual(Stored(a), Stored(b), |a| + 1) <==> a == b
  {
    assert Stored(a)[1..] == a && Stored(b)[1..] == b;
    if |a| == |b| {
      StrNEqualSameLength(a, b);
      CTextZeroFree(a);
      CTextZeroFree(b);
    }
  }

  class Entry {
    const text: Label
    var data: seq<seq<Record>>
    var child: Level?
    var next: Entry?

    constructor (text: Label)
      ensures this.text == text && data == [[], [], []] && child == null && next == null
    {
      this.text := text;
      data, child, next := [[], [], []], null, null;
    }
  }

  ghost function After(c: seq<Entry>, i: nat): Entry? {
    if i + 1 < |c| then c[i + 1] else null
  }

  /** head starts the null-terminated chain c of next pointers. */
  ghost predicate Linked(head: Entry?, c: seq<Entry>)
    reads (set e | e in c)`next
  {
    && (head == if c == [] then null else c[0])
    && forall i :: 0 <= i < |c| ==> c[i].next == After(c, i)
  }

  lemma LinkedCons(node: Entry, c: seq<Entry>)
    requires Linked(node.next, c)
    ensures Linked(node, [node] + c)
  {
    var d := [node] + c;
    forall i | 0 <= i < |d|
      ensures d[i].next == After(d, i)
    {
      if i > 0 {
        assert c[i - 1].next == After(c, i - 1);
      }
    }
  }

  ghost predicate Distinct(c: seq<Entry>) {
    forall i, j :: 0 <= i < j < |c| ==> c[i] != c[j]
  }

  /** First entry of a chain with the given label. */
  ghost function Search(c: seq<Entry>, text: Label): (e: Entry?)
  {
    if c == [] then null else if c[0].text == text then c[0] else Search(c[1..], text)
  }

  lemma {:induction false} SearchFinds(c: seq<Entry>, text: Label)
    ensures Search(c, text) == null ==> forall i :: 0 <= i < |c| ==> c[i].text != text
    ensures var e := Search(c, text); e != null ==> e in c && e.text == text
  {
    if c != [] {
      SearchFinds(c[1..], text);
      assert c == [c[0]] + c[1..];
    }
  }

  /** _ll_find, and the chain walk of _hash_ll_find. */
  method FindInChain(head: Entry?, text: Label, ghost c: seq<Entry>) returns (r: Entry?)
    requires Linked(head, c) && Storable(text)
    requires forall i :: 0 <= i < |c| ==> Storable(c[i].text)
    ensures r == Search(c, text)
  {
    var target := Stored(text);
    r := head;
    ghost var i := 0;
    assert c[0..] == c;
    while r != null
      invariant 0 <= i <= |c| && r == (if i < |c| then c[i] else null)
      invariant Search(c[i..], text) == Search(c, text)
      decreases |c| - i
    {
      StoredCompare(text, r.text);
      if StrNEqual(target, Stored(r.text), |text| + 1) {
        break;
      }
      assert c[i..][1..] == c[i + 1..];
      r := r.next;
      i := i + 1;
    }
  }

  /** Linking a node in front of the chain in one bucket leaves every other chain alone. */
  method PushFront(bucket: array<Entry?>, index: nat, node: Entry, ghost placed: seq<seq<Entry>>)
    requires index < bucket.Length == |placed|
    requires forall k :: 0 <= k < |placed| ==> Linked(bucket[k], placed[k])
    requires forall k :: 0 <= k < |placed| ==> node !in placed[k]
    modifies bucket, node`next
    ensures forall k :: 0 <= k < |placed| ==> Linked(bucket[k], placed[index := [node] + placed[index]][k])
  {
    node.next := bucket[index];
    assert forall k :: 0 <= k < |placed| ==> Linked(bucket[k], placed[k]);
    LinkedCons(node, placed[index]);
    bucket[index] := node;
  }

  /** placed holds each entry of c in the chain its hash selects, and nothing else. */
  ghost predicate Spread(placed: seq<seq<Entry>>, c: seq<Entry>)
    requires forall i :: 0 <= i < |c| ==> |c[i].text| < 256
  {
    && |placed| == HASH_BUCKET_SIZE
    && (forall k, i :: 0 <= k < |placed| && 0 <= i < |placed[k]| ==>
          placed[k][i] in c && Bucket(placed[k][i].text) == k)
    && (forall i :: 0 <= i < |c| ==> c[i] in placed[Bucket(c[i].text)])
    && (forall k :: 0 <= k < |placed| ==> Distinct(placed[k]))
  }

  lemma SpreadStep(placed: seq<seq<Entry>>, c: seq<Entry>, i: nat, index: nat)
    requires forall j :: 0 <= j < |c| ==> |c[j].text| < 256
    requires Distinct(c) && i < |c| && Spread(placed, c[..i]) && index == Bucket(c[i].text)
    ensures forall k :: 0 <= k < |placed| ==> c[i] !in placed[k]
    ensures Spread(placed[index := [c[i]] + placed[index]], c[..i + 1])
  {
    assert c[..i + 1] == c[..i] + [c[i]];
    assert c[i] !in c[..i];
    var after := placed[index := [c[i]] + placed[index]];
    forall j | 0 <= j < i + 1
      ensures c[j] in after[Bucket(c[j].text)]
    {
      if j == i {
        assert after[index][0] == c[i];
      } else {
        assert c[..i][j] == c[j];
      }
    }
  }

  /** The switch to buckets: every node of the list is relinked at the front of its chain. */
  method Distribute(head: Entry?, ghost c: seq<Entry>) returns (bucket: array<Entry?>, ghost placed: seq<seq<Entry>>)
    requires Linked(head, c) && Distinct(c)
    requires forall i :: 0 <= i < |c| ==> |c[i].text| < 256
    modifies (set e | e in c)`next
    ensures fresh(bucket) && bucket.Length == HASH_BUCKET_SIZE && Spread(placed, c)
    ensures forall k :: 0 <= k < HASH_BUCKET_SIZE ==> Linked(bucket[k], placed[k])
  {
    hide Spread, Bkdr;
    bucket := new Entry?[HASH_BUCKET_SIZE](_ => null);
    placed := seq(HASH_BUCKET_SIZE, _ => []);
    SpreadNone(placed);
    var node := head;
    ghost var i := 0;
    while node != null
      invariant 0 <= i <= |c| && node == (if i < |c| then c[i] else null)
      invariant forall j :: i <= j < |c| ==> c[j].next == After(c, j)
      invariant Spread(placed, c[..i]) && |placed| == bucket.Length == HASH_BUCKET_SIZE
      invariant forall k :: 0 <= k < |placed| ==> Linked(bucket[k], placed[k])
      decreases |c| - i
    {
      var hash := RrHash(Stored(node.text));
      var index := hash % HASH_BUCKET_SIZE;
      var tmp := node.next;
      assert c[i] == node;
      SpreadStep(placed, c, i, index);
      PushFront(bucket, index, node, placed);
      placed := placed[index := [node] + placed[index]];
      assert forall j :: i < j < |c| ==> c[j] != c[i];
      node := tmp;
      i := i + 1;
    }
    assert c[..i] == c;
  }

  lemma SpreadNone(placed: seq<seq<Entry>>)
    requires |placed| == HASH_BUCKET_SIZE && forall k :: 0 <= k < |placed| ==> placed[k] == []
    ensures Spread(placed, [])
  {
  }

  ghost function Slot(text: Label, hashed: bool): nat
    requires |text| < 256
  {
    if hashed then Bucket(text) else 0
  }

  /** The chains hold the entries, each once, labels distinct, each in the chain its label selects. */
  ghost predicate Indexes(chains: seq<seq<Entry>>, entries: map<Label, Entry>, nodes: set<Entry>, hashed: bool) {
    && |chains| == (if hashed then HASH_BUCKET_SIZE else 1)
    && (forall text :: text in entries ==> Storable(text) && entries[text].text == text)
    && (forall text :: text in entries ==> entries[text] in chains[Slot(text, hashed)])
    && (forall k, i :: 0 <= k < |chains| && 0 <= i < |chains[k]| ==>
          var e := chains[k][i]; e.text in entries && entries[e.text] == e && Slot(e.text, hashed) == k)
    && (forall k :: 0 <= k < |chains| ==> Distinct(chains[k]))
    && (forall e :: e in nodes ==> e.text in entries && entries[e.text] == e)
    && (forall text :: text in entries ==> entries[text] in nodes)
  }

  lemma EmptyIndexes()
    ensures Indexes([[]], map[], {}, false) && Linked(null, [])
  {
  }

  lemma IndexedList(chains: seq<seq<Entry>>, entries: map<Label, Entry>, nodes: set<Entry>)
    requires Indexes(chains, entries, nodes, false)
    ensures |chains| == 1 && chains == [chains[0]] && Distinct(chains[0])
    ensures forall i :: 0 <= i < |chains[0]| ==> |chains[0][i].text| < 256 && chains[0][i] in nodes
  {
  }

  lemma IndexesInsert(chains: seq<seq<Entry>>, entries: map<Label, Entry>, nodes: set<Entry>, hashed: bool, r: Entry)
    requires Indexes(chains, entries, nodes, hashed) && Storable(r.text) && r.text !in entries
    ensures var k := Slot(r.text, hashed);
            k < |chains| && Indexes(chains[k := [r] + chains[k]], entries[r.text := r], nodes + {r}, hashed)
    ensures |chains| == if hashed then HASH_BUCKET_SIZE else 1
    ensures forall k :: 0 <= k < |chains| ==> r !in chains[k]
  {
    var k := Slot(r.text, hashed);
    var after := chains[k := [r] + chains[k]];
    assert after[k][0] == r;
    forall text | text in entries
      ensures entries[text] in after[Slot(text, hashed)]
    {
      var i :| 0 <= i < |chains[Slot(text, hashed)]| && chains[Slot(text, hashed)][i] == entries[text];
      assert Slot(text, hashed) == k ==> after[k][i + 1] == entries[text];
    }
  }

  /** The switch changes where entries are kept, not which there are. */
  lemma IndexesSwitch(c: seq<Entry>, entries: map<Label, Entry>, nodes: set<Entry>, placed: seq<seq<Entry>>)
    requires Indexes([c], entries, nodes, false)
    requires forall i :: 0 <= i < |c| ==> |c[i].text| < 256
    requires Spread(placed, c)
    ensures Indexes(placed, entries, nodes, true)
  {
    assert forall i :: 0 <= i < |c| ==> [c][0][i] == c[i];
  }

  /** Looking a label up after the switch finds the node, or none, that a scan of the list found before. */
  lemma SwitchPreservesLookup(c: seq<Entry>, entries: map<Label, Entry>, nodes: set<Entry>, placed: seq<seq<Entry>>,
                              text: Label)
    requires Indexes([c], entries, nodes, false) && Storable(text)
    requires forall i :: 0 <= i < |c| ==> |c[i].text| < 256
    requires Spread(placed, c)
    ensures Search(placed[Bucket(text)], text) == Search(c, text)
  {
    IndexesSwitch(c, entries, nodes, placed);
    IndexedSearch([c], entries, nodes, false, text);
    IndexedSearch(placed, entries, nodes, true, text);
  }

  lemma IndexedSearch(chains: seq<seq<Entry>>, entries: map<Label, Entry>, nodes: set<Entry>, hashed: bool, text: Label)
    requires Indexes(chains, entries, nodes, hashed) && Storable(text)
    ensures Search(chains[Slot(text, hashed)], text) == if text in entries then entries[text] else null
  {
    SearchFinds(chains[Slot(text, hashed)], text);
  }

  class Level {
    var hashed: bool
    var size: nat
    var list: Entry?
    var bucket: array?<Entry?>
    ghost var chains: seq<seq<Entry>>
    ghost var entries: map<Label, Entry>
    ghost var nodes: set<Entry>

    /** The objects this level owns; its entries' children own theirs. */
    ghost function Footprint(): set<object>
      reads this
    {
      {this} + nodes + if bucket == null then {} else {bucket}
    }

    lemma Owns()
      ensures this in Footprint() && nodes <= Footprint() && (bucket != null ==> bucket in Footprint())
    {
    }

    ghost predicate Shape()
      reads this, bucket, nodes`next
    {
      && size == |entries| && Indexes(chains, entries, nodes, hashed)
      && (!hashed ==> Linked(list, chains[0]))
      && (hashed ==> bucket != null && bucket.Length == HASH_BUCKET_SIZE
                     && forall k :: 0 <= k < HASH_BUCKET_SIZE ==> Linked(bucket[k], chains[k]))
    }

    /** The level is a hash table exactly when it holds more than 32 entries. */
    ghost predicate Valid()
      reads this, bucket, nodes`next
    {
      Shape() && (hashed <==> size > HASH_SWITCH_THRESHOLD)
    }

    constructor ()
      ensures Valid() && entries == map[] && Footprint() == {this}
    {
      hide Indexes, Linked;
      EmptyIndexes();
      hashed, size, list, bucket := false, 0, null, null;
      chains, entries, nodes := [[]], map[], {};
    }

    /** tree_node_find. */
    method Find(text: Label) returns (r: Entry?)
      requires Valid() && Storable(text)
      ensures r == if text in entries then entries[text] else null
    {
      IndexedSearch(chains, entries, nodes, hashed, text);
      if hashed {
        var hash := RrHash(Stored(text));
        r := FindInChain(bucket[hash % HASH_BUCKET_SIZE], text, chains[Slot(text, true)]);
      } else {
        r := FindInChain(list, text, chains[0]);
      }
    }

    method LinkInBucket(r: Entry)
      requires Shape() && hashed && Storable(r.text) && r.text !in entries
      modifies this`entries, this`nodes, this`chains, this`size, bucket, r`next
      ensures Shape() && entries == old(entries)[r.text := r] && nodes == old(nodes) + {r} && size == old(size) + 1
    {
      hide Indexes, Linked, Bkdr;
      IndexesInsert(chains, entries, nodes, true, r);
      var hash := RrHash(Stored(r.text));
      var index := hash % HASH_BUCKET_SIZE;
      PushFront(bucket, index, r, chains);
      entries, nodes, size := entries[r.text := r], nodes + {r}, size + 1;
      chains := chains[index := [r] + chains[index]];
    }

    method LinkInList(r: Entry)
      requires Shape() && !hashed && Storable(r.text) && r.text !in entries
      modifies this`entries, this`nodes, this`chains, this`size, this`list, r`next
      ensures Shape() && entries == old(entries)[r.text := r] && nodes == old(nodes) + {r} && size == old(size) + 1
    {
      hide Indexes, Linked;
      IndexesInsert(chains, entries, nodes, false, r);
      r.next := list;
      LinkedCons(r, chains[0]);
      list, entries, nodes, size := r, entries[r.text := r], nodes + {r}, size + 1;
      chains := chains[0 := [r] + chains[0]];
    }

    method SwitchToBuckets()
      requires Shape() && !hashed
      modifies this`bucket, this`chains, this`hashed, nodes`next
      ensures Shape() && hashed && fresh(bucket)
    {
      hide Indexes, Spread, Linked, Distinct;
      IndexedList(chains, entries, nodes);
      ghost var c := chains[0];
      bucket, chains := Distribute(list, c);
      IndexesSwitch(c, entries, nodes, chains);
      hashed := true;
    }

    /** tree_node_insert: the 33rd entry triggers the switch to buckets. */
    method Insert(text: Label) returns (r: Entry)
      requires Valid() && Storable(text) && text !in entries
      modifies this, bucket, nodes`next
      ensures Valid() && entries == old(entries)[text := r] && r in nodes
      ensures fresh(r) && r.text == text && r.data == [[], [], []] && r.child == null
      ensures fresh(Footprint() - old(Footprint())) && (hashed <==> size > 32)
    {
      hide Shape;
      r := new Entry(text);
      if hashed {
        LinkInBucket(r);
      } else {
        LinkInList(r);
      }
      if size > HASH_SWITCH_THRESHOLD && !hashed {
        SwitchToBuckets();
      }
    }
  }
}
