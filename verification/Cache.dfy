/** The record cache: a doubly linked list behind a dummy node. */
module Cache {
  import opened Bytes
  import opened Messages
  import opened CacheModel
  import opened CacheRuns

  class Node {
    var next: Node?
    var last: Node?
    var element: Record
    var expire: int

    constructor (next: Node?, last: Node?, rr: Record, expire: int)
      ensures this.next == next && this.last == last && element == rr && this.expire == expire
    {
      this.next, this.last, this.element, this.expire := next, last, rr, expire;
    }
  }

  ghost function Succ(c: seq<Node>, i: nat): Node? {
    if i + 1 < |c| then c[i + 1] else null
  }

  ghost function Pred(c: seq<Node>, i: nat): Node?
    requires i <= |c|
  {
    if i > 0 then c[i - 1] else null
  }

  ghost predicate NoNodeTwice(c: seq<Node>) {
    forall i, j :: 0 <= i < j < |c| ==> c[i] != c[j]
  }

  /** c is a null-terminated list whose next and last pointers are inverse to each other. */
  ghost predicate DoublyLinked(c: seq<Node>)
    reads (set n | n in c)`next, (set n | n in c)`last
  {
    && NoNodeTwice(c)
    && (forall i :: 0 <= i < |c| ==> c[i].next == Succ(c, i))
    && (forall i :: 0 <= i < |c| ==> c[i].last == Pred(c, i))
  }

  ghost function Removed(c: seq<Node>, k: nat): seq<Node>
    requires k < |c|
  {
    c[..k] + c[k + 1..]
  }

  /** Take a node other than the dummy out of the list. */
  method Unlink(node: Node, ghost c: seq<Node>, ghost k: nat)
    requires DoublyLinked(c) && 0 < k < |c| && node == c[k]
    modifies (set n | n in c)`next, (set n | n in c)`last
    ensures DoublyLinked(Removed(c, k))
    ensures node.next == old(node.next)
  {
    assert node.last == Pred(c, k) == c[k - 1] && node.next == Succ(c, k);
    node.last.next := node.next;
    if node.next != null {
      node.next.last := node.last;
    }
    ghost var d := Removed(c, k);
    forall i | 0 <= i < |d|
      ensures d[i].next == Succ(d, i) && d[i].last == Pred(d, i)
    {
      var j := if i < k then i else i + 1;
      assert d[i] == c[j] && old(c[j].next) == Succ(c, j) && old(c[j].last) == Pred(c, j);
    }
  }

  /** Put a node that is not in the list right behind the dummy. */
  method LinkFront(dummy: Node, node: Node, ghost c: seq<Node>)
    requires DoublyLinked(c) && c != [] && dummy == c[0] && node !in c
    modifies (set n | n in c)`next, (set n | n in c)`last, node`next, node`last
    ensures DoublyLinked([dummy, node] + c[1..])
  {
    node.last := dummy;
    node.next := dummy.next;
    dummy.next := node;
    if node.next != null {
      node.next.last := node;
    }
    ghost var d := [dummy, node] + c[1..];
    forall i | 0 <= i < |d|
      ensures d[i].next == Succ(d, i) && d[i].last == Pred(d, i)
    {
      if i > 1 {
        assert d[i] == c[i - 1] && old(c[i - 1].next) == Succ(c, i - 1) && old(c[i - 1].last) == Pred(c, i - 1);
      }
    }
  }

  /** Between iterations of the truncating loop: the first k + 1 nodes are done but for the end, the
      nodes from j on still hang together, and node j points back at the end. */
  ghost predicate Cutting(c: seq<Node>, k: nat, j: nat)
    requires k < j <= |c|
    reads (set n | n in c)`next, (set n | n in c)`last
  {
    && (forall i :: 0 <= i < k ==> c[i].next == Succ(c, i))
    && (forall i :: 0 <= i <= k ==> c[i].last == Pred(c, i))
    && c[k].next == (if j == k + 1 then Succ(c, k) else null)
    && (forall i :: j <= i < |c| ==> c[i].next == Succ(c, i))
    && (j < |c| ==> c[j].last == c[k])
  }

  /** One iteration: cut node j off and let the one after it point back at the end. */
  method CutNode(node: Node, next: Node?, ghost c: seq<Node>, ghost k: nat, ghost j: nat)
    requires NoNodeTwice(c) && k < j < |c| && Cutting(c, k, j) && node == c[j] && next == Succ(c, j)
    modifies (set n | n in c)`next, (set n | n in c)`last
    ensures Cutting(c, k, j + 1)
  {
    if node.last != null {
      node.last.next := null;
    }
    if next != null {
      next.last := node.last;
    }
  }

  /** Unlink every node after position k, counting them. */
  method Truncate(start: Node?, ghost c: seq<Node>, ghost k: nat) returns (gone: nat)
    requires DoublyLinked(c) && k < |c| && start == Succ(c, k)
    modifies (set n | n in c)`next, (set n | n in c)`last
    ensures gone == |c| - k - 1 && DoublyLinked(c[..k + 1])
  {
    hide Cutting, DoublyLinked, NoNodeTwice, Succ;
    CutStart(c, k);
    var node := start;
    gone := 0;
    ghost var j := k + 1;
    while node != null
      invariant k < j <= |c| && node == (if j < |c| then c[j] else null) && gone == j - k - 1
      invariant Cutting(c, k, j)
      decreases |c| - j
    {
      CutNext(c, k, j);
      var next := node.next;
      CutNode(node, next, c, k, j);
      gone := gone + 1;
      node := next;
      j := j + 1;
    }
    CutEnd(c, k);
  }

  lemma CutStart(c: seq<Node>, k: nat)
    requires DoublyLinked(c) && k < |c|
    ensures NoNodeTwice(c) && Cutting(c, k, k + 1)
    ensures Succ(c, k) == if k + 1 < |c| then c[k + 1] else null
  {
  }

  lemma CutNext(c: seq<Node>, k: nat, j: nat)
    requires k < j < |c| && Cutting(c, k, j)
    ensures c[j].next == Succ(c, j) == if j + 1 < |c| then c[j + 1] else null
  {
  }

  lemma CutEnd(c: seq<Node>, k: nat)
    requires NoNodeTwice(c) && k < |c| && Cutting(c, k, |c|)
    ensures DoublyLinked(c[..k + 1])
  {
    var d := c[..k + 1];
    forall i | 0 <= i < |d|
      ensures d[i].next == Succ(d, i) && d[i].last == Pred(d, i)
    {
      assert d[i] == c[i];
    }
  }

  class RrCache {
    const dummy: Node
    var size: nat
    ghost var chain: seq<Node>
    ghost var items: seq<Item>
    ghost var history: seq<Event>

    /** The list from the dummy holds the items, and size counts them. */
    ghost predicate Shape()
      reads this`chain, this`items, this`size, chain
    {
      && |chain| == |items| + 1 && chain[0] == dummy && DoublyLinked(chain) && size == |items|
      && (forall i :: 0 <= i < |items| ==> items[i] == Item(chain[i + 1].element, chain[i + 1].expire))
      && (forall i :: 0 <= i < |items| ==> Named(items[i].rr))
    }

    /** The items are what the history of puts and refresh passes makes them. */
    ghost predicate Valid()
      reads this, chain
    {
      Shape() && items == After(history)
    }

    constructor ()
      ensures Valid() && items == [] && history == [] && fresh(chain)
    {
      dummy := new Node(null, null, Record([], 0, 0, 0, []), 0);
      size := 0;
      new;
      chain, items, history := [dummy], [], [];
    }

    /** cache_find_rr. */
    method FindRr(domain: seq<byte>, rtype: u16, cls: u16) returns (found: seq<Record>)
      requires Shape() && ZeroFree(domain)
      ensures found == RecordsOf(Hits(items, domain, rtype, cls))
    {
      found := [];
      var node := dummy.next;
      ghost var i := 0;
      assert items[0..] == items;
      while node != null
        invariant 0 <= i <= |items| && node == Succ(chain, i)
        invariant found + RecordsOf(Hits(items[i..], domain, rtype, cls)) == RecordsOf(Hits(items, domain, rtype, cls))
        decreases |items| - i
      {
        var rr := node.element;
        assert items[i].rr == rr;
        LookupCompare(domain, rr);
        assert items[i..][0] == items[i] && items[i..][1..] == items[i + 1..];
        if rtype == rr.rtype && cls == rr.cls && StrNEqual(domain + [0], rr.name + [0], CompareLength(rr.name)) {
          HitsCons(items[i], items[i + 1..], domain, rtype, cls);
          found := found + [rr];
        }
        node := node.next;
        i := i + 1;
      }
    }

    /** cache_match_ln. */
    method MatchLn(rr: Record) returns (node: Node?)
      requires Shape() && Named(rr)
      ensures node == Succ(chain, IndexOf(items, rr))
    {
      node := dummy.next;
      ghost var i := 0;
      while node != null
        invariant 0 <= i <= |items| && node == Succ(chain, i)
        invariant forall j :: 0 <= j < i ==> !Same(items[j].rr, rr)
        decreases |items| - i
      {
        RrCmpMeaning(items[i].rr, rr);
        if RrCmp(node.element, rr) {
          return;
        }
        node := node.next;
        i := i + 1;
      }
    }

    /** The hit branch of cache_put_rr: only pointers change, and size does not. */
    method MoveToFront(node: Node, ghost k: nat)
      requires Shape() && k < |items| && node == chain[k + 1]
      modifies this`chain, this`items, (set n | n in chain)`next, (set n | n in chain)`last
      ensures Shape() && items == [old(items)[k]] + old(items)[..k] + old(items)[k + 1..]
      ensures forall n :: n in chain ==> n in old(chain)
    {
      hide DoublyLinked;
      ghost var c := Removed(chain, k + 1);
      RemovedFacts(chain, k + 1);
      Unlink(node, chain, k + 1);
      LinkFront(dummy, node, c);
      ghost var was := items;
      chain := [dummy, node] + c[1..];
      items := [items[k]] + items[..k] + items[k + 1..];
      forall i | 0 <= i < |items|
        ensures items[i] == Item(chain[i + 1].element, chain[i + 1].expire) && Named(items[i].rr)
      {
        var j := if i == 0 then k else if i <= k then i - 1 else i;
        assert items[i] == was[j] && chain[i + 1] == old(chain)[j + 1];
      }
    }

    /** The miss branch: a new node in front, expiring when its ttl runs out. */
    method AddFront(rr: Record, now: int)
      requires Shape() && Named(rr)
      modifies this`chain, this`items, this`size, (set n | n in chain)`next, (set n | n in chain)`last
      ensures Shape() && items == [Item(rr, now + rr.ttl)] + old(items)
      ensures forall n :: n in chain ==> n in old(chain) || fresh(n)
    {
      hide DoublyLinked;
      size := size + 1;
      var node := new Node(dummy.next, dummy, rr, now + rr.ttl);
      LinkFront(dummy, node, chain);
      chain := [dummy, node] + chain[1..];
      items := [Item(rr, now + rr.ttl)] + items;
    }

    /** cache_put_rr. */
    method PutRr(rr: Record, now: int)
      requires Valid() && Named(rr)
      modifies this, set n | n in chain
      ensures Valid() && history == old(history) + [Put(rr, now)]
      ensures items == AfterPut(old(items), rr, now)
      ensures forall n :: n in chain ==> n in old(chain) || fresh(n)
    {
      hide DoublyLinked, After;
      AfterStep(history, Put(rr, now));
      var node := MatchLn(rr);
      if node != null {
        MoveToFront(node, IndexOf(items, rr));
      } else {
        AddFront(rr, now);
      }
      history := history + [Put(rr, now)];
    }

    /** An expired node is unlinked and dropped. */
    method Drop(node: Node, ghost k: nat)
      requires Shape() && k < |items| && node == chain[k + 1]
      modifies this`chain, this`items, this`size, (set n | n in chain)`next, (set n | n in chain)`last
      ensures Shape() && items == old(items)[..k] + old(items)[k + 1..] && chain == Removed(old(chain), k + 1)
    {
      hide DoublyLinked;
      RemovedFacts(chain, k + 1);
      Unlink(node, chain, k + 1);
      ghost var was := items;
      chain := Removed(chain, k + 1);
      items := items[..k] + items[k + 1..];
      size := size - 1;
      forall i | 0 <= i < |items|
        ensures items[i] == Item(chain[i + 1].element, chain[i + 1].expire) && Named(items[i].rr)
      {
        var j := if i < k then i else i + 1;
        assert items[i] == was[j] && chain[i + 1] == old(chain)[j + 1];
      }
    }

    /** An unexpired node gets the time it has left. */
    method Age(node: Node, now: int, ghost k: nat)
      requires Shape() && k < |items| && node == chain[k + 1]
      modifies this`items, node`element
      ensures Shape() && items == old(items)[k := Aged(old(items)[k], now)]
    {
      hide DoublyLinked;
      OnlyAt(chain, k + 1);
      ghost var was := items;
      assert was[k] == Item(node.element, node.expire);
      node.element := node.element.(ttl := (node.expire - now) % 0x1_0000_0000);
      items := items[k := Aged(items[k], now)];
      forall i | 0 <= i < |items|
        ensures items[i] == Item(chain[i + 1].element, chain[i + 1].expire) && Named(items[i].rr)
      {
        assert i != k ==> chain[i + 1] != node && was[i] == items[i];
      }
    }

    /** The size restriction: unlink and drop every node after the first k. */
    method CutTail(start: Node?, ghost k: nat)
      requires Shape() && k <= |items| && start == Succ(chain, k)
      modifies this`chain, this`items, this`size, (set n | n in chain)`next, (set n | n in chain)`last
      ensures Shape() && items == old(items)[..k] && chain == old(chain)[..k + 1]
    {
      hide DoublyLinked;
      var gone := Truncate(start, chain, k);
      size := size - gone;
      chain, items := chain[..k + 1], items[..k];
    }

    lemma ShapeFacts(k: nat)
      requires Shape() && k <= |items|
      ensures |chain| == |items| + 1 && dummy.next == Succ(chain, 0)
      ensures k < |items| ==> chain[k + 1].next == Succ(chain, k + 1)
    {
    }

    /** What one iteration of the refresh loop does to the node it visits. */
    method Visit(node: Node, now: int, ghost k: nat) returns (kept: bool)
      requires Shape() && k < |items| && node == Succ(chain, k)
      modifies this`chain, this`items, this`size, set n | n in chain
      ensures Shape() && kept == (old(items)[k].expire > now)
      ensures items == if kept then old(items)[k := Aged(old(items)[k], now)] else old(items)[..k] + old(items)[k + 1..]
      ensures Succ(chain, if kept then k + 1 else k) == old(Succ(chain, k + 1))
      ensures forall n :: n in chain ==> n in old(chain)
    {
      hide DoublyLinked;
      assert items[k] == Item(chain[k + 1].element, chain[k + 1].expire);
      if node.expire <= now {
        Drop(node, k);
        kept := false;
      } else {
        assert chain[k + 1] in chain;
        Age(node, now, k);
        kept := true;
      }
    }

    /** The loop of refresh_cache: expiring, re-aging, counting and truncating are interleaved. */
    method Sweep(now: int)
      requires Shape()
      modifies this`chain, this`items, this`size, set n | n in chain
      ensures Shape() && items == AfterRefresh(old(items), now)
      ensures forall n :: n in chain ==> n in old(chain)
    {
      hide Shape, AfterRefresh, Alive, Succ;
      ghost var was := items;
      ShapeFacts(0);
      var node := dummy.next;
      var cnt := 0;
      ghost var done := 0;
      AliveNone(was, now);
      while node != null
        invariant Shape() && cnt < CACHE_SIZE_MAX && node == Succ(chain, cnt)
        invariant 0 <= done <= |was| && items == Alive(was[..done], now) + was[done..] && cnt == |Alive(was[..done], now)|
        invariant forall n :: n in chain ==> n in old(chain)
        decreases |was| - done
      {
        SuccIs(cnt);
        ShapeFacts(cnt);
        var next := node.next;
        RefreshStep(was, done, items, now);
        var kept := Visit(node, now, cnt);
        cnt := if kept then cnt + 1 else cnt;
        node := next;
        done := done + 1;
        if cnt == CACHE_SIZE_MAX {
          CutTail(node, cnt);
          AliveCapped(was, done, items, now);
          return;
        }
      }
      SuccEnds(cnt);
      AliveCapped(was, done, items, now);
    }

    /** One pass of refresh_cache. */
    method RefreshPass(now: int)
      requires Valid()
      modifies this, set n | n in chain
      ensures Valid() && history == old(history) + [Refresh(now)]
      ensures items == AfterRefresh(old(items), now)
      ensures forall n :: n in chain ==> n in old(chain)
    {
      hide Shape, After, AfterRefresh;
      AfterStep(history, Refresh(now));
      Sweep(now);
      history := history + [Refresh(now)];
    }

    lemma SuccIs(k: nat)
      requires Shape() && Succ(chain, k) != null
      ensures k < |items| && |chain| == |items| + 1 && Succ(chain, k) == chain[k + 1] && chain[k + 1] in chain
    {
    }

    lemma SuccEnds(k: nat)
      requires Shape() && Succ(chain, k) == null
      ensures k >= |items|
    {
    }
  }

  lemma AliveNone(s: seq<Item>, now: int)
    ensures Alive(s[..0], now) == [] && [] + s[0..] == s
  {
  }

  /** The item at the cursor joins the survivors or disappears. */
  lemma RefreshStep(was: seq<Item>, done: nat, items: seq<Item>, now: int)
    requires done <= |was| && items == Alive(was[..done], now) + was[done..] && |items| > |Alive(was[..done], now)|
    ensures done < |was|
    ensures var k := |Alive(was[..done], now)|; var alive := Alive(was[..done + 1], now);
            && items[k] == was[done]
            && (items[k].expire > now ==> |alive| == k + 1 && items[k := Aged(items[k], now)] == alive + was[done + 1..])
            && (items[k].expire <= now ==> |alive| == k && items[..k] + items[k + 1..] == alive + was[done + 1..])
  {
    AliveNext(was, done, now);
    hide Alive;
    var alive, rest := Alive(was[..done], now), was[done + 1..];
    assert was[done..] == [was[done]] + rest;
    var k := |alive|;
    assert items[..k] == alive && items[k + 1..] == rest;
  }

  lemma AliveNext(was: seq<Item>, done: nat, now: int)
    requires done < |was|
    ensures Alive(was[..done + 1], now)
            == Alive(was[..done], now) + if was[done].expire > now then [Aged(was[done], now)] else []
  {
    assert was[..done + 1][..done] == was[..done];
  }

  /** Stopping at the limit and running to the end of the list both give the first 256 survivors. */
  lemma AliveCapped(was: seq<Item>, done: nat, items: seq<Item>, now: int)
    requires done <= |was| && |Alive(was[..done], now)| <= |items|
    requires if |items| == CACHE_SIZE_MAX then items == Alive(was[..done], now)
             else done == |was| && items == Alive(was[..done], now) && |items| < CACHE_SIZE_MAX
    ensures items == AfterRefresh(was, now)
  {
    assert done == |was| ==> was[..done] == was;
    AlivePrefix(was, done, now);
  }

  lemma OnlyAt(c: seq<Node>, k: nat)
    requires DoublyLinked(c) && k < |c|
    ensures forall i :: 0 <= i < |c| && i != k ==> c[i] != c[k]
  {
  }

  lemma RemovedFacts(c: seq<Node>, k: nat)
    requires DoublyLinked(c) && 0 < k < |c|
    ensures var d := Removed(c, k); d != [] && d[0] == c[0] && c[k] !in d && forall n :: n in d ==> n in c
    ensures c[0] != c[k]
  {
  }

  lemma HitsCons(x: Item, rest: seq<Item>, name: seq<byte>, rtype: u16, cls: u16)
    requires Answers(x, name, rtype, cls)
    ensures RecordsOf(Hits([x] + rest, name, rtype, cls)) == [x.rr] + RecordsOf(Hits(rest, name, rtype, cls))
  {
    assert ([x] + rest)[1..] == rest;
    var hits := Hits(rest, name, rtype, cls);
    assert ([x] + hits)[1..] == hits;
  }
}
