/** Domain names: a name is stored as length-prefixed labels followed by a zero byte.
    Here a name is the bytes before that terminator. */
module Names {
  import opened Bytes

  type Label = seq<byte>

  const DOMAIN_LEN_MAX := 255
  const DOMAIN_BUF_LEN := 512

  ghost predicate AreLabels(ls: seq<Label>) {
    forall i :: 0 <= i < |ls| ==> 1 <= |ls[i]| < 256
  }

  /** The stored form of a label sequence. */
  ghost function Wire(ls: seq<Label>): seq<byte>
    requires AreLabels(ls)
  {
    if ls == [] then [] else [|ls[0]|] + ls[0] + Wire(ls[1..])
  }

  /** The length bytes of the name chain exactly to its end. */
  ghost predicate WellFormed(name: seq<byte>)
    decreases |name|
  {
    name == [] || (0 < name[0] < |name| && WellFormed(name[1 + name[0]..]))
  }

  ghost function Labels(name: seq<byte>): (ls: seq<Label>)
    requires WellFormed(name)
    ensures AreLabels(ls) && Wire(ls) == name
    decreases |name|
  {
    if name == [] then [] else
      var rest := Labels(name[1 + name[0]..]);
      var ls := [name[1..1 + name[0]]] + rest;
      assert ls[1..] == rest;
      assert name == [name[0]] + name[1..1 + name[0]] + name[1 + name[0]..];
      ls
  }

  lemma {:induction false} LabelsOfWire(ls: seq<Label>)
    requires AreLabels(ls)
    ensures WellFormed(Wire(ls)) && Labels(Wire(ls)) == ls
  {
    if ls != [] {
      LabelsOfWire(ls[1..]);
      var w := Wire(ls);
      assert w[1 + w[0]..] == Wire(ls[1..]);
      assert w[1..1 + w[0]] == ls[0];
    }
  }

  lemma {:induction false} WireConcat(a: seq<Label>, b: seq<Label>)
    requires AreLabels(a) && AreLabels(b)
    ensures Wire(a + b) == Wire(a) + Wire(b)
  {
    if a == [] {
      assert a + b == b;
    } else {
      assert (a + b)[1..] == a[1..] + b;
      WireConcat(a[1..], b);
    }
  }

  ghost function Reverse(ls: seq<Label>): (r: seq<Label>)
    ensures |r| == |ls|
    ensures forall i :: 0 <= i < |ls| ==> r[i] == ls[|ls| - 1 - i]
  {
    if ls == [] then [] else Reverse(ls[1..]) + [ls[0]]
  }

  /** The name whose labels come in the opposite order. */
  ghost function Reversed(name: seq<byte>): seq<byte>
    requires WellFormed(name)
  {
    Wire(Reverse(Labels(name)))
  }

  lemma ReverseTwice(ls: seq<Label>)
    ensures Reverse(Reverse(ls)) == ls
  {
  }

  lemma {:induction false} WireReverseLength(ls: seq<Label>)
    requires AreLabels(ls)
    ensures |Wire(Reverse(ls))| == |Wire(ls)|
  {
    if ls != [] {
      WireReverseLength(ls[1..]);
      WireConcat(Reverse(ls[1..]), [ls[0]]);
    }
  }

  /** Reversal keeps the length, undoes itself and so never merges two names. */
  lemma ReversedInvolution(name: seq<byte>)
    requires WellFormed(name)
    ensures WellFormed(Reversed(name)) && |Reversed(name)| == |name|
    ensures Labels(Reversed(name)) == Reverse(Labels(name))
    ensures Reversed(Reversed(name)) == name
  {
    LabelsOfWire(Reverse(Labels(name)));
    ReverseTwice(Labels(name));
    WireReverseLength(Labels(name));
  }

  lemma ReversedInjective(a: seq<byte>, b: seq<byte>)
    requires WellFormed(a) && WellFormed(b) && Reversed(a) == Reversed(b)
    ensures a == b
  {
    ReversedInvolution(a);
    ReversedInvolution(b);
  }

  /** domain_len: the stored length with its terminator, or -1 when it exceeds the limit. */
  function DomainLen(name: seq<byte>): (n: int)
    ensures n == -1 <==> |name| >= DOMAIN_LEN_MAX
    ensures n != -1 ==> n == |name| + 1 <= DOMAIN_LEN_MAX
  {
    var stored := (if |name| < DOMAIN_BUF_LEN then |name| else DOMAIN_BUF_LEN) + 1;
    if stored > DOMAIN_LEN_MAX then -1 else stored
  }

  /** The stack image of domain_rev: every label followed, not preceded, by its length. */
  ghost function Flat(ls: seq<Label>): seq<byte>
    requires AreLabels(ls)
  {
    if ls == [] then [] else var last := |ls| - 1; Flat(ls[..last]) + ls[last] + [|ls[last]|]
  }

  /** After k labels: flat is on the stack, src is still to be read from pos on. */
  ghost predicate Pushing(flat: seq<byte>, src: seq<byte>, pos: nat, ls: seq<Label>, k: nat) {
    AreLabels(ls) && k <= |ls| && flat == Flat(ls[..k]) && pos <= |src| && src[pos..] == Wire(ls[k..]) + [0]
  }

  lemma PushStep(flat: seq<byte>, src: seq<byte>, pos: nat, ls: seq<Label>, k: nat)
    requires Pushing(flat, src, pos, ls, k)
    ensures pos < |src| && k <= |ls|
    ensures src[pos] == 0 ==> k == |ls| && pos == |src| - 1
    ensures src[pos] != 0 ==> var n := src[pos];
              k < |ls| && pos + 1 + n < |src| && Pushing(flat + src[pos + 1..pos + 1 + n] + [n], src, pos + 1 + n, ls, k + 1)
  {
    var tail := src[pos..];
    assert src[pos] == tail[0];
    if k < |ls| {
      var n := |ls[k]|;
      assert tail == [n] + ls[k] + (Wire(ls[k + 1..]) + [0]);
      assert src[pos + 1..pos + 1 + n] == tail[1..n + 1] == ls[k];
      assert src[pos + 1 + n..] == tail[n + 1..] == Wire(ls[k + 1..]) + [0];
      assert ls[..k + 1][..k] == ls[..k];
    }
  }

  /** With k labels left on the stack: flat is the stack, out is what dest already holds. */
  ghost predicate Popping(flat: seq<byte>, out: seq<byte>, ls: seq<Label>, k: nat) {
    AreLabels(ls) && k <= |ls| && flat == Flat(ls[..k]) && out == Wire(Reverse(ls[k..]))
  }

  lemma PopStep(flat: seq<byte>, out: seq<byte>, ls: seq<Label>, k: nat)
    requires Popping(flat, out, ls, k)
    ensures flat == [] <==> k == 0
    ensures k > 0 ==> var top := |flat| - 1;
              && 0 < flat[top] <= top
              && Popping(flat[..top - flat[top]], out + ([flat[top]] + flat[top - flat[top]..top]), ls, k - 1)
  {
    if k > 0 {
      var last, below := ls[k - 1], Flat(ls[..k - 1]);
      assert ls[..k][..k - 1] == ls[..k - 1];
      assert flat == below + last + [|last|];
      assert flat[|below|..|below| + |last|] == last && flat[..|below|] == below;
      assert ls[k - 1..][1..] == ls[k..];
      WireConcat(Reverse(ls[k..]), [last]);
      assert Wire([last]) == [|last|] + last;
    }
  }

  /** One pass of the first loop of domain_rev: push a label, then its length. */
  method PushLabel(stack: array<byte>, sptr: nat, text: seq<byte>) returns (top: nat)
    requires 1 <= |text| < 256 && sptr + |text| + 1 <= stack.Length
    modifies stack
    ensures top == sptr + |text| + 1
    ensures stack[..top] == old(stack[..sptr]) + text + [|text|]
  {
    top := sptr;
    for i := 0 to |text|
      invariant top == sptr + i
      invariant stack[..top] == old(stack[..sptr]) + text[..i]
    {
      stack[top] := text[i];
      assert stack[..top + 1] == stack[..top] + [text[i]];
      assert text[..i + 1] == text[..i] + [text[i]];
      top := top + 1;
    }
    stack[top] := |text|;
    assert stack[..top + 1] == stack[..top] + [|text|];
    top := top + 1;
  }

  /** One pass of the second loop: copy the label below the length byte at sptr to dest. */
  method PopLabel(stack: array<byte>, sptr: nat, dest: array<byte>, at: nat)
    requires sptr < stack.Length && 0 < stack[sptr] <= sptr
    requires stack != dest && at + stack[sptr] + 1 <= dest.Length
    modifies dest
    ensures dest[..at + stack[sptr] + 1] == old(dest[..at]) + ([stack[sptr]] + stack[sptr - stack[sptr]..sptr])
    ensures forall i :: at + stack[sptr] < i < dest.Length ==> dest[i] == old(dest[i])
  {
    var n: int := stack[sptr];
    for i := 1 to n + 1
      invariant dest[..at] == old(dest[..at])
      invariant dest[at + 1..at + i] == stack[sptr - n..sptr - n + i - 1]
      invariant forall j :: at + n < j < dest.Length ==> dest[j] == old(dest[j])
    {
      dest[at + i] := stack[sptr - n + i - 1];
      assert dest[at + 1..at + i + 1] == dest[at + 1..at + i] + [dest[at + i]];
    }
    dest[at] := n;
    assert dest[..at + n + 1] == dest[..at] + ([dest[at]] + dest[at + 1..at + n + 1]);
  }

  /** The first loop of domain_rev flattens the whole name onto the stack. */
  method PushLabels(src: seq<byte>, stack: array<byte>, ghost ls: seq<Label>) returns (sptr: int)
    requires Pushing([], src, 0, ls, 0) && |src| <= stack.Length + 1
    modifies stack
    ensures 0 <= sptr == |src| - 1 <= stack.Length && Pushing(stack[..sptr], src, sptr, ls, |ls|)
  {
    hide *;
    var pos: nat := 0;
    sptr := 0;
    ghost var k := 0;
    PushStep([], src, 0, ls, 0);
    while src[pos] != 0
      invariant 0 <= sptr == pos < |src| && k <= |ls|
      invariant Pushing(stack[..pos], src, pos, ls, k)
      decreases |ls| - k
    {
      PushStep(stack[..pos], src, pos, ls, k);
      var n: nat := src[pos];
      sptr := PushLabel(stack, sptr, src[pos + 1..pos + 1 + n]);
      pos := pos + n + 1;
      k := k + 1;
    }
    PushStep(stack[..pos], src, pos, ls, k);
  }

  /** The second loop of domain_rev unwinds the stack into dest, last label first. */
  method PopLabels(stack: array<byte>, top: int, dest: array<byte>, ghost ls: seq<Label>) returns (at: nat)
    requires -1 <= top < stack.Length && Popping(stack[..top + 1], [], ls, |ls|)
    requires stack != dest && top + 1 <= dest.Length
    modifies dest
    ensures at == top + 1 && Popping([], dest[..at], ls, 0)
    ensures forall i :: at <= i < dest.Length ==> dest[i] == old(dest[i])
  {
    hide *;
    var sptr := top;
    at := 0;
    ghost var k: nat := |ls|;
    while sptr > 0 && stack[sptr] != 0
      invariant -1 <= sptr <= top && at == top - sptr
      invariant Popping(stack[..sptr + 1], dest[..at], ls, k)
      invariant forall i :: top < i < dest.Length ==> dest[i] == old(dest[i])
      decreases k
    {
      PopStep(stack[..sptr + 1], dest[..at], ls, k);
      var n: nat := stack[sptr];
      assert stack[..sptr + 1][sptr - n..sptr] == stack[sptr - n..sptr];
      assert stack[..sptr - n] == stack[..sptr + 1][..sptr - n];
      PopLabel(stack, sptr, dest, at);
      at := at + n + 1;
      sptr := sptr - (n + 1);
      k := k - 1;
    }
    PopStep(stack[..sptr + 1], dest[..at], ls, k);
    assert sptr == -1;
  }

  lemma RevEnds(name: seq<byte>, ls: seq<Label>)
    requires WellFormed(name) && ls == Labels(name)
    ensures Pushing([], name + [0], 0, ls, 0)
    ensures forall flat, src, pos :: Pushing(flat, src, pos, ls, |ls|) ==> Popping(flat, [], ls, |ls|)
    ensures forall flat, out :: Popping(flat, out, ls, 0) ==> out == Reversed(name)
  {
    assert ls[0..] == ls;
  }

  /** domain_rev. */
  method DomainRev(name: seq<byte>, dest: array<byte>)
    requires WellFormed(name) && |name| <= DOMAIN_BUF_LEN && |name| < dest.Length
    modifies dest
    ensures dest[..|name| + 1] == Reversed(name) + [0]
    ensures forall i :: |name| < i < dest.Length ==> dest[i] == old(dest[i])
  {
    ghost var ls := Labels(name);
    RevEnds(name, ls);
    hide *;
    var stack := new byte[DOMAIN_BUF_LEN](_ => 0);
    var sptr := PushLabels(name + [0], stack, ls);
    var at := PopLabels(stack, sptr - 1, dest, ls);
    dest[at] := 0;
    assert dest[..at + 1] == dest[..at] + [0];
  }
}
