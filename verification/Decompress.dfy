/** Reading a possibly compressed name: the byte-wise scan of read_domain and the label-wise
    meaning that section 4.1.4 of RFC 1035 gives to the same bytes. */
module Decompress {
  import opened Bytes
  import opened Names

  /** The scan treats any byte with its two top bits set as the start of a pointer. */
  predicate IsPointer(b: byte) {
    b >= 0xC0
  }

  function Target(hi: byte, lo: byte): nat
    requires IsPointer(hi)
  {
    var h: int, l: int := hi, lo;
    (h - 0xC0) * 256 + l
  }

  /** The scan from pos stays in the buffer and ends after following at most depth pointers. */
  ghost predicate Readable(buf: seq<byte>, pos: nat, depth: nat)
    decreases depth, |buf| - pos
  {
    pos < |buf| &&
    if buf[pos] == 0 then true
    else if IsPointer(buf[pos]) then
      pos + 1 < |buf| && depth > 0 && Readable(buf, Target(buf[pos], buf[pos + 1]), depth - 1)
    else Readable(buf, pos + 1, depth)
  }

  /** The bytes the scan collects. */
  ghost function Scan(buf: seq<byte>, pos: nat, depth: nat): seq<byte>
    requires Readable(buf, pos, depth)
    decreases depth, |buf| - pos
  {
    if buf[pos] == 0 then []
    else if IsPointer(buf[pos]) then Scan(buf, Target(buf[pos], buf[pos + 1]), depth - 1)
    else [buf[pos]] + Scan(buf, pos + 1, depth)
  }

  /** Where the name that starts at pos ends in place: after its zero byte or its first pointer. */
  ghost function NameEnd(buf: seq<byte>, pos: nat): nat
    decreases |buf| - pos
  {
    if pos >= |buf| || buf[pos] == 0 then pos + 1
    else if IsPointer(buf[pos]) then pos + 2
    else NameEnd(buf, pos + 1)
  }

  /** Bytes the scan passes through unchanged: neither a terminator nor a pointer. */
  ghost predicate Clean(s: seq<byte>) {
    forall i :: 0 <= i < |s| ==> 0 < s[i] < 0xC0
  }

  lemma {:induction false} ScanClean(buf: seq<byte>, pos: nat, depth: nat)
    requires Readable(buf, pos, depth)
    ensures Clean(Scan(buf, pos, depth))
    decreases depth, |buf| - pos
  {
    if buf[pos] != 0 {
      if IsPointer(buf[pos]) {
        ScanClean(buf, Target(buf[pos], buf[pos + 1]), depth - 1);
      } else {
        ScanClean(buf, pos + 1, depth);
      }
    }
  }

  lemma {:induction false} NameEndInside(buf: seq<byte>, pos: nat, depth: nat)
    requires Readable(buf, pos, depth)
    ensures pos < NameEnd(buf, pos) <= |buf|
    decreases |buf| - pos
  {
    if buf[pos] != 0 && !IsPointer(buf[pos]) {
      NameEndInside(buf, pos + 1, depth);
    }
  }

  lemma {:induction false} DeeperIsSame(buf: seq<byte>, pos: nat, depth: nat, deeper: nat)
    requires Readable(buf, pos, depth) && depth <= deeper
    ensures Readable(buf, pos, deeper) && Scan(buf, pos, deeper) == Scan(buf, pos, depth)
    decreases depth, |buf| - pos
  {
    if buf[pos] != 0 {
      if IsPointer(buf[pos]) {
        DeeperIsSame(buf, Target(buf[pos], buf[pos + 1]), depth - 1, deeper - 1);
      } else {
        DeeperIsSame(buf, pos + 1, depth, deeper);
      }
    }
  }

  // ---------- termination ----------

  /** If the scan needs exactly depth pointers, it passes through depth + 1 different positions. */
  lemma {:induction false} Visited(buf: seq<byte>, pos: nat, depth: nat) returns (seen: set<nat>)
    requires Readable(buf, pos, depth) && (depth > 0 ==> !Readable(buf, pos, depth - 1))
    ensures |seen| == depth + 1 && forall p :: p in seen ==> p < |buf| && Readable(buf, p, depth)
    decreases depth, |buf| - pos
  {
    if buf[pos] == 0 {
      seen := {pos};
    } else if IsPointer(buf[pos]) {
      var t := Target(buf[pos], buf[pos + 1]);
      seen := Visited(buf, t, depth - 1);
      forall p | p in seen
        ensures Readable(buf, p, depth)
      {
        DeeperIsSame(buf, p, depth - 1, depth);
      }
      seen := seen + {pos};
    } else {
      seen := Visited(buf, pos + 1, depth);
    }
  }

  lemma {:induction false} Pigeonhole(seen: set<nat>, n: nat)
    requires forall p :: p in seen ==> p < n
    ensures |seen| <= n
  {
    if n > 0 {
      Pigeonhole(seen - {n - 1}, n - 1);
    } else {
      assert seen == {};
    }
  }

  /** A scan that ends at all ends within |buf| pointers, so Readable(buf, pos, |buf|) is exactly termination. */
  lemma {:induction false} EndsWithinBuffer(buf: seq<byte>, pos: nat, depth: nat)
    requires Readable(buf, pos, depth)
    ensures Readable(buf, pos, |buf|) && Scan(buf, pos, |buf|) == Scan(buf, pos, depth)
    decreases depth
  {
    if depth > 0 && Readable(buf, pos, depth - 1) {
      EndsWithinBuffer(buf, pos, depth - 1);
      DeeperIsSame(buf, pos, depth - 1, depth);
    } else {
      var seen := Visited(buf, pos, depth);
      Pigeonhole(seen, |buf|);
      DeeperIsSame(buf, pos, depth, |buf|);
    }
  }

  /** Every pointer met while reading the segment begun at start leads strictly before start. */
  ghost predicate PointsBack(buf: seq<byte>, start: nat, pos: nat)
    decreases start, |buf| - pos
  {
    pos < |buf| &&
    if buf[pos] == 0 then true
    else if IsPointer(buf[pos]) then
      pos + 1 < |buf| && var t := Target(buf[pos], buf[pos + 1]); t < start && PointsBack(buf, t, t)
    else PointsBack(buf, start, pos + 1)
  }

  lemma {:induction false} PointsBackEnds(buf: seq<byte>, start: nat, pos: nat)
    requires PointsBack(buf, start, pos)
    ensures Readable(buf, pos, start)
    decreases start, |buf| - pos
  {
    if buf[pos] != 0 {
      if IsPointer(buf[pos]) {
        var t := Target(buf[pos], buf[pos + 1]);
        PointsBackEnds(buf, t, t);
        DeeperIsSame(buf, t, t, start - 1);
      } else {
        PointsBackEnds(buf, start, pos + 1);
      }
    }
  }

  // ---------- the label-wise meaning ----------

  ghost predicate Expandable(buf: seq<byte>, pos: nat, depth: nat)
    decreases depth, |buf| - pos
  {
    pos < |buf| &&
    if buf[pos] == 0 then true
    else if IsPointer(buf[pos]) then
      pos + 1 < |buf| && depth > 0 && Expandable(buf, Target(buf[pos], buf[pos + 1]), depth - 1)
    else pos + 1 + buf[pos] < |buf| && Expandable(buf, pos + 1 + buf[pos], depth)
  }

  /** Label by label: only a length byte can be a pointer. */
  ghost function Expand(buf: seq<byte>, pos: nat, depth: nat): (ls: seq<Label>)
    requires Expandable(buf, pos, depth)
    ensures AreLabels(ls)
    decreases depth, |buf| - pos
  {
    if buf[pos] == 0 then []
    else if IsPointer(buf[pos]) then Expand(buf, Target(buf[pos], buf[pos + 1]), depth - 1)
    else [buf[pos + 1..pos + 1 + buf[pos]]] + Expand(buf, pos + 1 + buf[pos], depth)
  }

  ghost function LabelEnd(buf: seq<byte>, pos: nat): nat
    decreases |buf| - pos
  {
    if pos >= |buf| || buf[pos] == 0 then pos + 1
    else if IsPointer(buf[pos]) then pos + 2
    else LabelEnd(buf, pos + 1 + buf[pos])
  }

  ghost predicate CleanLabels(ls: seq<Label>) {
    forall i :: 0 <= i < |ls| ==> Clean(ls[i])
  }

  lemma ScanBack(buf: seq<byte>, pos: nat, depth: nat)
    requires pos < |buf| && buf[pos] != 0 && !IsPointer(buf[pos]) && Readable(buf, pos + 1, depth)
    ensures Readable(buf, pos, depth) && Scan(buf, pos, depth) == [buf[pos]] + Scan(buf, pos + 1, depth)
    ensures NameEnd(buf, pos) == NameEnd(buf, pos + 1)
  {
  }

  /** Clean bytes are copied one by one. */
  lemma {:induction false} ScanRun(buf: seq<byte>, pos: nat, n: nat, depth: nat)
    requires pos + n <= |buf| && Readable(buf, pos + n, depth)
    requires forall i :: pos <= i < pos + n ==> buf[i] != 0 && !IsPointer(buf[i])
    ensures Readable(buf, pos, depth) && Scan(buf, pos, depth) == buf[pos..pos + n] + Scan(buf, pos + n, depth)
    ensures NameEnd(buf, pos) == NameEnd(buf, pos + n)
    decreases n
  {
    hide Readable, Scan, NameEnd;
    if n > 0 {
      ScanRun(buf, pos + 1, n - 1, depth);
      ScanBack(buf, pos, depth);
      assert buf[pos..pos + n] == [buf[pos]] + buf[pos + 1..pos + n];
    } else {
      assert buf[pos..pos + n] == [];
    }
  }

  /** A length byte and its clean label pass through the scan as they are. */
  lemma ScanLabel(buf: seq<byte>, pos: nat, n: nat, depth: nat)
    requires pos + 1 + n < |buf| && 0 < n == buf[pos] && !IsPointer(buf[pos])
    requires Clean(buf[pos + 1..pos + 1 + n]) && Readable(buf, pos + 1 + n, depth)
    ensures Readable(buf, pos, depth)
    ensures Scan(buf, pos, depth) == [n] + buf[pos + 1..pos + 1 + n] + Scan(buf, pos + 1 + n, depth)
    ensures NameEnd(buf, pos) == NameEnd(buf, pos + 1 + n)
  {
    hide Readable, Scan, NameEnd;
    var text := buf[pos + 1..pos + 1 + n];
    forall i | pos <= i < pos + 1 + n
      ensures buf[i] != 0 && !IsPointer(buf[i])
    {
      assert i > pos ==> buf[i] == text[i - pos - 1];
    }
    ScanRun(buf, pos, n + 1, depth);
    assert buf[pos..pos + (n + 1)] == [n] + text;
  }

  lemma {:induction false} ScanRefines(buf: seq<byte>, pos: nat, depth: nat)
    requires Expandable(buf, pos, depth) && CleanLabels(Expand(buf, pos, depth))
    ensures Readable(buf, pos, depth) && Scan(buf, pos, depth) == Wire(Expand(buf, pos, depth))
    ensures NameEnd(buf, pos) == LabelEnd(buf, pos)
    decreases depth, |buf| - pos
  {
    hide Clean;
    if buf[pos] != 0 {
      if IsPointer(buf[pos]) {
        ScanRefines(buf, Target(buf[pos], buf[pos + 1]), depth - 1);
      } else {
        var n := buf[pos];
        WireCons(buf[pos + 1..pos + 1 + n], Expand(buf, pos + 1 + n, depth));
        ScanRefines(buf, pos + 1 + n, depth);
        ScanLabel(buf, pos, n, depth);
      }
    }
  }

  lemma WireCons(text: Label, rest: seq<Label>)
    requires AreLabels([text] + rest)
    ensures AreLabels(rest) && Wire([text] + rest) == [|text|] + text + Wire(rest)
    ensures CleanLabels([text] + rest) ==> Clean(text) && CleanLabels(rest)
  {
    hide Clean;
    var ls := [text] + rest;
    assert ls[1..] == rest && ls[0] == text;
    forall i | 0 <= i < |rest|
      ensures rest[i] == ls[i + 1]
    {
    }
  }

  lemma {:induction false} WireClean(ls: seq<Label>)
    requires AreLabels(ls) && Clean(Wire(ls))
    ensures CleanLabels(ls)
  {
    if ls != [] {
      var w, rest := Wire(ls), Wire(ls[1..]);
      assert w == [|ls[0]|] + ls[0] + rest;
      assert forall i :: 0 <= i < |rest| ==> rest[i] == w[1 + |ls[0]| + i];
      WireClean(ls[1..]);
      assert forall i :: 0 <= i < |ls[0]| ==> ls[0][i] == w[1 + i];
    }
  }

  /** The scan reads the name that was meant exactly when no label holds a zero byte or a byte the
      scan takes for a pointer. */
  lemma ScanExact(buf: seq<byte>, pos: nat, depth: nat)
    requires Expandable(buf, pos, depth)
    ensures (Readable(buf, pos, depth) && Scan(buf, pos, depth) == Wire(Expand(buf, pos, depth)))
            <==> CleanLabels(Expand(buf, pos, depth))
    ensures CleanLabels(Expand(buf, pos, depth)) ==> NameEnd(buf, pos) == LabelEnd(buf, pos)
  {
    if CleanLabels(Expand(buf, pos, depth)) {
      ScanRefines(buf, pos, depth);
    } else if Readable(buf, pos, depth) && Scan(buf, pos, depth) == Wire(Expand(buf, pos, depth)) {
      ScanClean(buf, pos, depth);
      WireClean(Expand(buf, pos, depth));
    }
  }

  // ---------- the readings byte by byte ----------

  /** Both readings follow the pointer to t, whatever the offset, and resume behind its two bytes. */
  lemma PointerFollowed(buf: seq<byte>, pos: nat, t: nat, depth: nat)
    requires t < 0x4000 && At(buf, pos, [0xC0 + t / 256, t % 256])
    ensures Expandable(buf, t, depth) ==>
              Expandable(buf, pos, depth + 1) && Expand(buf, pos, depth + 1) == Expand(buf, t, depth)
    ensures Readable(buf, t, depth) ==>
              Readable(buf, pos, depth + 1) && Scan(buf, pos, depth + 1) == Scan(buf, t, depth)
    ensures NameEnd(buf, pos) == LabelEnd(buf, pos) == pos + 2
  {
    AtByte(buf, pos, [0xC0 + t / 256, t % 256], 0);
    AtByte(buf, pos, [0xC0 + t / 256, t % 256], 1);
    assert Target(buf[pos], buf[pos + 1]) == t;
  }

  /** A label of up to 191 bytes is expanded as it is; the scan takes its bytes one at a time. */
  lemma LabelRead(buf: seq<byte>, pos: nat, text: Label, depth: nat)
    requires 0 < |text| < 0xC0 && At(buf, pos, [|text|] + text)
    ensures var next := pos + 1 + |text|;
            && (Expandable(buf, next, depth) ==>
                  Expandable(buf, pos, depth) && Expand(buf, pos, depth) == [text] + Expand(buf, next, depth))
            && LabelEnd(buf, pos) == LabelEnd(buf, next)
  {
    hide Expandable, Expand;
    AtByte(buf, pos, [|text|] + text, 0);
    assert buf[pos..pos + 1 + |text|][1..] == buf[pos + 1..pos + 1 + |text|] == text;
    if Expandable(buf, pos + 1 + |text|, depth) {
      ExpandLabel(buf, pos, depth);
    }
  }

  lemma ExpandLabel(buf: seq<byte>, pos: nat, depth: nat)
    requires pos < |buf| && 0 < buf[pos] < 0xC0 && Expandable(buf, pos + 1 + buf[pos], depth)
    ensures pos + 1 + buf[pos] < |buf| && Expandable(buf, pos, depth)
    ensures Expand(buf, pos, depth) == [buf[pos + 1..pos + 1 + buf[pos]]] + Expand(buf, pos + 1 + buf[pos], depth)
  {
  }

  lemma ByteTaken(buf: seq<byte>, pos: nat, depth: nat)
    requires pos < |buf| && 0 < buf[pos] < 0xC0
    ensures Readable(buf, pos + 1, depth) ==>
              Readable(buf, pos, depth) && Scan(buf, pos, depth) == [buf[pos]] + Scan(buf, pos + 1, depth)
    ensures NameEnd(buf, pos) == NameEnd(buf, pos + 1)
  {
  }

  /** A zero byte ends a name in both readings. */
  lemma NameStops(buf: seq<byte>, pos: nat, depth: nat)
    requires At(buf, pos, [0])
    ensures Expandable(buf, pos, depth) && Expand(buf, pos, depth) == []
    ensures Readable(buf, pos, depth) && Scan(buf, pos, depth) == []
    ensures NameEnd(buf, pos) == LabelEnd(buf, pos) == pos + 1
  {
    AtByte(buf, pos, [0], 0);
  }

  /** Every pointer in the place of a length byte leads strictly before the segment it ends. */
  ghost predicate LabelsPointBack(buf: seq<byte>, start: nat, pos: nat)
    decreases start, |buf| - pos
  {
    pos < |buf| &&
    if buf[pos] == 0 then true
    else if IsPointer(buf[pos]) then
      pos + 1 < |buf| && var t := Target(buf[pos], buf[pos + 1]); t < start && LabelsPointBack(buf, t, t)
    else pos + 1 + buf[pos] < |buf| && LabelsPointBack(buf, start, pos + 1 + buf[pos])
  }

  lemma {:induction false} DeeperExpands(buf: seq<byte>, pos: nat, depth: nat, deeper: nat)
    requires Expandable(buf, pos, depth) && depth <= deeper
    ensures Expandable(buf, pos, deeper) && Expand(buf, pos, deeper) == Expand(buf, pos, depth)
    decreases depth, |buf| - pos
  {
    if buf[pos] != 0 {
      if IsPointer(buf[pos]) {
        DeeperExpands(buf, Target(buf[pos], buf[pos + 1]), depth - 1, deeper - 1);
      } else {
        DeeperExpands(buf, pos + 1 + buf[pos], depth, deeper);
      }
    }
  }

  lemma {:induction false} LabelsEnd(buf: seq<byte>, start: nat, pos: nat)
    requires LabelsPointBack(buf, start, pos)
    ensures Expandable(buf, pos, start)
    decreases start, |buf| - pos
  {
    if buf[pos] != 0 {
      if IsPointer(buf[pos]) {
        var t := Target(buf[pos], buf[pos + 1]);
        LabelsEnd(buf, t, t);
        DeeperExpands(buf, t, t, start - 1);
      } else {
        LabelsEnd(buf, start, pos + 1 + buf[pos]);
      }
    }
  }

  /** A name compressed as RFC 1035 has it, its labels clean, is read as meant, up to where it ends. */
  lemma CompressedName(buf: seq<byte>, start: nat, pos: nat)
    requires LabelsPointBack(buf, start, pos)
    ensures Expandable(buf, pos, start)
    ensures CleanLabels(Expand(buf, pos, start)) ==>
              && Readable(buf, pos, |buf|) && Scan(buf, pos, |buf|) == Wire(Expand(buf, pos, start))
              && NameEnd(buf, pos) == LabelEnd(buf, pos)
  {
    hide Readable, Scan, NameEnd, LabelEnd, Expand, Expandable, LabelsPointBack;
    LabelsEnd(buf, start, pos);
    if CleanLabels(Expand(buf, pos, start)) {
      ScanRefines(buf, pos, start);
      EndsWithinBuffer(buf, pos, start);
    }
  }

  /** A two-byte label that starts with 0xC0 is a name by its length bytes; the scan takes the label
      for a pointer back to the name and never ends. */
  lemma {:induction false} LabelTakenForPointer(depth: nat)
    ensures var buf := [2, 0xC0, 0, 0]; Expandable(buf, 0, 0) && Expand(buf, 0, 0) == [[0xC0, 0]]
    ensures !Readable([2, 0xC0, 0, 0], 0, depth)
  {
    var buf: seq<byte> := [2, 0xC0, 0, 0];
    assert Expandable(buf, 3, 0) && Expand(buf, 3, 0) == [];
    assert buf[1..3] == [0xC0, 0];
    if depth > 0 {
      LabelTakenForPointer(depth - 1);
    }
    assert !Readable(buf, 1, depth);
  }

  /** An uncompressed name is read back as it was written. */
  lemma ScanPlain(buf: seq<byte>, pos: nat, name: seq<byte>, depth: nat)
    requires Clean(name) && At(buf, pos, name + [0])
    ensures Readable(buf, pos, depth) && Scan(buf, pos, depth) == name && NameEnd(buf, pos) == pos + |name| + 1
  {
    AtSplit(buf, pos, name, [0]);
    AtByte(buf, pos + |name|, [0], 0);
    forall i | pos <= i < pos + |name|
      ensures buf[i] != 0 && !IsPointer(buf[i])
    {
      AtByte(buf, pos, name, i - pos);
    }
    ScanRun(buf, pos, |name|, depth);
  }

  /** s written over old from position at on. */
  ghost function Splice(base: seq<byte>, at: nat, s: seq<byte>): seq<byte>
    requires at + |s| <= |base|
  {
    base[..at] + s + base[at + |s|..]
  }

  /** read_domain: copies the name to dest without its terminator and reports the stored length and
      the bytes the name occupies at its original position. */
  method ReadDomain(buf: seq<byte>, start: nat, dest: array<byte>, at: nat, ghost depth: nat) returns (len: nat, offset: nat)
    requires Readable(buf, start, depth) && at + |Scan(buf, start, depth)| <= dest.Length
    modifies dest
    ensures len == |Scan(buf, start, depth)| + 1 && start + offset == NameEnd(buf, start)
    ensures dest[..] == Splice(old(dest[..]), at, Scan(buf, start, depth))
    decreases depth
  {
    hide Readable, Scan, NameEnd, Splice, Clean;
    ScanStep(buf, start, depth);
    SpliceNone(dest[..], at);
    len, offset := 1, 0;
    var src := start;
    ghost var name, read: seq<byte> := Scan(buf, start, depth), [];
    while buf[src] != 0
      invariant Readable(buf, src, depth) && src < |buf| && src == start + offset && offset == len - 1 == |read|
      invariant NameEnd(buf, start) == NameEnd(buf, src)
      invariant name == read + Scan(buf, src, depth)
      invariant dest[..] == Splice(old(dest[..]), at, read)
      decreases |buf| - src
    {
      ScanStep(buf, src, depth);
      if IsPointer(buf[src]) {
        var target := Target(buf[src], buf[src + 1]);
        var dlen, _ := ReadDomain(buf, target, dest, at + offset, depth - 1);
        SpliceTwice(old(dest[..]), at, read, Scan(buf, target, depth - 1));
        offset := offset + 2;
        len := len + (dlen - 1);
        return;
      } else {
        SpliceByte(dest[..], at + offset, buf[src]);
        dest[at + offset] := buf[src];
        SpliceTwice(old(dest[..]), at, read, [buf[src]]);
        assert read + ([buf[src]] + Scan(buf, src + 1, depth)) == (read + [buf[src]]) + Scan(buf, src + 1, depth);
        read := read + [buf[src]];
        ScanStep(buf, src + 1, depth);
        len, offset, src := len + 1, offset + 1, src + 1;
      }
    }
    ScanStep(buf, src, depth);
    assert read == name;
    offset := offset + 1;
  }

  lemma ScanStep(buf: seq<byte>, pos: nat, depth: nat)
    requires Readable(buf, pos, depth)
    ensures pos < |buf|
    ensures buf[pos] == 0 ==> Scan(buf, pos, depth) == [] && NameEnd(buf, pos) == pos + 1
    ensures IsPointer(buf[pos]) ==>
              pos + 1 < |buf| && depth > 0 && Readable(buf, Target(buf[pos], buf[pos + 1]), depth - 1)
              && Scan(buf, pos, depth) == Scan(buf, Target(buf[pos], buf[pos + 1]), depth - 1)
              && NameEnd(buf, pos) == pos + 2
    ensures buf[pos] != 0 && !IsPointer(buf[pos]) ==>
              Readable(buf, pos + 1, depth) && Scan(buf, pos, depth) == [buf[pos]] + Scan(buf, pos + 1, depth)
              && NameEnd(buf, pos) == NameEnd(buf, pos + 1)
  {
  }

  lemma SpliceNone(s: seq<byte>, at: nat)
    requires at <= |s|
    ensures Splice(s, at, []) == s
  {
  }

  lemma SpliceByte(s: seq<byte>, at: nat, b: byte)
    requires at < |s|
    ensures Splice(s, at, [b]) == s[at := b]
  {
  }

  lemma SpliceTwice(s: seq<byte>, at: nat, a: seq<byte>, b: seq<byte>)
    requires at + |a| + |b| <= |s|
    ensures Splice(Splice(s, at, a), at + |a|, b) == Splice(s, at, a + b)
  {
  }
}
