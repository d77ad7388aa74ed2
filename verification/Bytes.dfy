/** Bytes, big-endian integers and the C string comparison the relay relies on. */
module Bytes {
  type byte = b: int | 0 <= b < 256
  type u16 = x: int | 0 <= x < 0x1_0000
  type u32 = x: int | 0 <= x < 0x1_0000_0000

  /** Network byte order, as htons and htonl lay integers out. */
  function PutU16(x: u16): seq<byte> {
    [x / 256, x % 256]
  }

  function PutU32(x: u32): seq<byte> {
    PutU16(x / 0x1_0000) + PutU16(x % 0x1_0000)
  }

  function GetU16(buf: seq<byte>, pos: nat): u16
    requires pos + 2 <= |buf|
  {
    var hi: int, lo: int := buf[pos], buf[pos + 1];
    hi * 256 + lo
  }

  function GetU32(buf: seq<byte>, pos: nat): u32
    requires pos + 4 <= |buf|
  {
    var hi: int, lo: int := GetU16(buf, pos), GetU16(buf, pos + 2);
    hi * 0x1_0000 + lo
  }

  /** The bytes s occupy buf starting at pos. */
  predicate At(buf: seq<byte>, pos: nat, s: seq<byte>) {
    pos + |s| <= |buf| && buf[pos..pos + |s|] == s
  }

  lemma AtSplit(buf: seq<byte>, pos: nat, a: seq<byte>, b: seq<byte>)
    ensures At(buf, pos, a + b) <==> At(buf, pos, a) && At(buf, pos + |a|, b)
  {
    if At(buf, pos, a + b) {
      assert a == (a + b)[..|a|] == buf[pos..pos + |a|];
      assert b == (a + b)[|a|..] == buf[pos + |a|..pos + |a| + |b|];
    }
    if At(buf, pos, a) && At(buf, pos + |a|, b) {
      assert buf[pos..pos + |a + b|] == buf[pos..pos + |a|] + buf[pos + |a|..pos + |a| + |b|];
    }
  }

  lemma AtByte(buf: seq<byte>, pos: nat, s: seq<byte>, i: nat)
    requires At(buf, pos, s) && i < |s|
    ensures buf[pos + i] == s[i]
  {
  }

  lemma GetPutU16(buf: seq<byte>, pos: nat, x: u16)
    requires At(buf, pos, PutU16(x))
    ensures GetU16(buf, pos) == x
  {
    AtByte(buf, pos, PutU16(x), 0);
    AtByte(buf, pos, PutU16(x), 1);
  }

  lemma GetPutU32(buf: seq<byte>, pos: nat, x: u32)
    requires At(buf, pos, PutU32(x))
    ensures GetU32(buf, pos) == x
  {
    AtSplit(buf, pos, PutU16(x / 0x1_0000), PutU16(x % 0x1_0000));
    GetPutU16(buf, pos, x / 0x1_0000);
    GetPutU16(buf, pos + 2, x % 0x1_0000);
  }

  /** strncmp(a, b, n) == 0: byte by byte, stopping at a zero byte both sides share.
      Memory past the end of either operand is never equal, so it is never relied on. */
  predicate StrNEqual(a: seq<byte>, b: seq<byte>, n: nat) {
    n == 0 || (a != [] && b != [] && a[0] == b[0] && (a[0] == 0 || StrNEqual(a[1..], b[1..], n - 1)))
  }

  /** What a C string function sees of s: the bytes before its first zero. */
  function CText(s: seq<byte>): (t: seq<byte>) {
    if s == [] || s[0] == 0 then [] else [s[0]] + CText(s[1..])
  }

  predicate ZeroFree(s: seq<byte>) {
    forall i :: 0 <= i < |s| ==> s[i] != 0
  }

  lemma {:induction false} StrNEqualSameLength(a: seq<byte>, b: seq<byte>)
    requires |a| == |b|
    ensures StrNEqual(a, b, |a|) <==> CText(a) == CText(b)
  {
    if a != [] {
      StrNEqualSameLength(a[1..], b[1..]);
      if CText(a) == CText(b) && a[0] != 0 && b[0] != 0 {
        assert CText(a)[0] == a[0] && CText(b)[0] == b[0];
        assert CText(a)[1..] == CText(a[1..]) && CText(b)[1..] == CText(b[1..]);
      }
    }
  }

  /** Comparing two terminated zero-free strings over the first one's storage is equality. */
  lemma {:induction false} StrNEqualTerminated(a: seq<byte>, b: seq<byte>, n: nat)
    requires ZeroFree(a) && ZeroFree(b) && n > |a|
    ensures StrNEqual(a + [0], b + [0], n) <==> a == b
  {
    if a != [] && b != [] {
      assert (a + [0])[1..] == a[1..] + [0];
      assert (b + [0])[1..] == b[1..] + [0];
      StrNEqualTerminated(a[1..], b[1..], n - 1);
      assert a == [a[0]] + a[1..] && b == [b[0]] + b[1..];
    } else if a == [] && b != [] {
      assert (b + [0])[0] == b[0];
    } else if a != [] {
      assert (a + [0])[0] == a[0];
    }
  }

  lemma {:induction false} StrNEqualSymmetric(a: seq<byte>, b: seq<byte>, n: nat)
    ensures StrNEqual(a, b, n) <==> StrNEqual(b, a, n)
  {
    if n > 0 && a != [] && b != [] && a[0] == b[0] {
      StrNEqualSymmetric(a[1..], b[1..], n - 1);
    }
  }

  lemma {:induction false} CTextZeroFree(s: seq<byte>)
    requires ZeroFree(s)
    ensures CText(s) == s
  {
    if s != [] {
      CTextZeroFree(s[1..]);
    }
  }
}
