/** The parser as it runs: cursors moving over the buffer and names copied through work buffers. */
module Parser {
  import opened Bytes
  import opened Names
  import opened Messages
  import opened Decompress
  import opened Codec

  ghost function Zeros(n: nat): seq<byte> {
    seq(n, _ => 0)
  }

  /** memcpy. */
  method CopyBytes(dest: array<byte>, at: nat, s: seq<byte>)
    requires at + |s| <= dest.Length
    modifies dest
    ensures dest[..] == Splice(old(dest[..]), at, s)
  {
    forall i | 0 <= i < |s| {
      dest[at + i] := s[i];
    }
  }

  /** A name copied into a zeroed buffer is terminated by the zero behind it. */
  lemma Terminated(n: nat, name: seq<byte>)
    requires |name| < n
    ensures Splice(Zeros(n), 0, name)[..|name| + 1] == name + [0]
  {
  }

  method QuestionFromBuf(buf: seq<byte>, pos: nat) returns (q: Question, n: nat)
    requires QuestionReadable(buf, pos)
    ensures q == QuestionAt(buf, pos) && pos + n == QuestionEnd(buf, pos)
  {
    hide Readable, Scan, NameEnd;
    var domainbuf := new byte[DOMAIN_BUF_LEN](_ => 0);
    assert domainbuf[..] == Zeros(DOMAIN_BUF_LEN);
    var len, offset := ReadDomain(buf, pos, domainbuf, 0, |buf|);
    Terminated(DOMAIN_BUF_LEN, NameAt(buf, pos));
    var qname := domainbuf[..len];
    q := Question(qname[..len - 1], GetU16(buf, pos + offset), GetU16(buf, pos + offset + 2));
    n := offset + 4;
  }

  /** The rdata switch of msg_rr_from_buf. */
  method RdataFromBuf(buf: seq<byte>, rtype: u16, body: nat, rdlength: nat) returns (rdata: seq<byte>)
    requires RdataReadable(buf, rtype, body, rdlength)
    ensures rdata == RdataAt(buf, rtype, body, rdlength)
  {
    hide Readable, Scan, NameEnd, Splice, Zeros;
    var rrbuf := new byte[RR_BUF_SIZE](_ => 0);
    ZerosAre(rrbuf[..]);
    if rtype == RRTYPE_SOA {
      var mnameLen, mnameOffset := ReadDomain(buf, body, rrbuf, 0, |buf|);
      var rnameLen, rnameOffset := ReadDomain(buf, body + mnameOffset, rrbuf, mnameLen, |buf|);
      var from := body + mnameOffset + mnameOffset + rnameOffset;
      CopyBytes(rrbuf, mnameLen + rnameLen, buf[from..from + 20]);
      SoaBuffer(NameAt(buf, body), NameAt(buf, body + mnameOffset), buf[from..from + 20]);
      rdata := rrbuf[..mnameLen + rnameLen + 20];
    } else if rtype == RRTYPE_MX {
      CopyBytes(rrbuf, 0, buf[body..body + 2]);
      var exchangeLen, _ := ReadDomain(buf, body + 2, rrbuf, 2, |buf|);
      MxBuffer(buf[body..body + 2], NameAt(buf, body + 2));
      rdata := rrbuf[..exchangeLen + 2];
    } else if IsNameType(rtype) {
      var len, _ := ReadDomain(buf, body, rrbuf, 0, |buf|);
      Terminated(RR_BUF_SIZE, NameAt(buf, body));
      rdata := rrbuf[..len];
    } else {
      CopyBytes(rrbuf, 0, buf[body..body + rdlength]);
      RawBuffer(buf[body..body + rdlength]);
      rdata := rrbuf[..rdlength];
    }
  }

  lemma ZerosAre(s: seq<byte>)
    requires forall i :: 0 <= i < |s| ==> s[i] == 0
    ensures s == Zeros(|s|)
  {
  }

  lemma RawBuffer(raw: seq<byte>)
    requires |raw| <= RR_BUF_SIZE
    ensures Splice(Zeros(RR_BUF_SIZE), 0, raw)[..|raw|] == raw
  {
  }

  lemma SoaBuffer(mname: seq<byte>, rname: seq<byte>, fixed: seq<byte>)
    requires |mname| + |rname| + 22 <= RR_BUF_SIZE && |fixed| == 20
    ensures var one := Splice(Zeros(RR_BUF_SIZE), 0, mname);
            var two := Splice(one, |mname| + 1, rname);
            Splice(two, |mname| + |rname| + 2, fixed)[..|mname| + |rname| + 22] == mname + [0] + rname + [0] + fixed
  {
    var one := Splice(Zeros(RR_BUF_SIZE), 0, mname);
    var two := Splice(one, |mname| + 1, rname);
    assert one[..|mname| + 1] == mname + [0];
    assert two[..|mname| + |rname| + 2] == one[..|mname| + 1] + rname + [0];
  }

  lemma MxBuffer(preference: seq<byte>, name: seq<byte>)
    requires |name| + 3 <= RR_BUF_SIZE && |preference| == 2
    ensures Splice(Splice(Zeros(RR_BUF_SIZE), 0, preference), 2, name)[..|name| + 3] == preference + name + [0]
  {
    var one := Splice(Zeros(RR_BUF_SIZE), 0, preference);
    assert one[..2] == preference && forall i :: 2 <= i < RR_BUF_SIZE ==> one[i] == 0;
  }

  method RrFromBuf(buf: seq<byte>, pos: nat) returns (r: Record, n: nat)
    requires RecordReadable(buf, pos)
    ensures r == RecordAt(buf, pos) && pos + n == RecordEnd(buf, pos)
  {
    hide Readable, Scan, NameEnd, RdataReadable, RdataAt;
    var domainbuf := new byte[DOMAIN_BUF_LEN](_ => 0);
    assert domainbuf[..] == Zeros(DOMAIN_BUF_LEN);
    var len, offset := ReadDomain(buf, pos, domainbuf, 0, |buf|);
    Terminated(DOMAIN_BUF_LEN, NameAt(buf, pos));
    var name := domainbuf[..len];
    var e := pos + offset;
    var rtype, cls, ttl, rdlength := GetU16(buf, e), GetU16(buf, e + 2), GetU32(buf, e + 4), GetU16(buf, e + 8);
    var rdata := RdataFromBuf(buf, rtype, e + 10, rdlength);
    r := Record(name[..len - 1], rtype, cls, ttl, rdata);
    n := offset + 10 + rdlength;
  }

  method QuestionsFromBuf(buf: seq<byte>, pos: nat, count: nat) returns (qs: seq<Question>, end: nat)
    requires QuestionsReadable(buf, pos, count)
    ensures (qs, end) == QuestionsAt(buf, pos, count)
  {
    hide QuestionReadable, QuestionAt, QuestionEnd;
    qs, end := [], pos;
    for i := 0 to count
      invariant QuestionsReadable(buf, end, count - i)
      invariant qs + QuestionsAt(buf, end, count - i).0 == QuestionsAt(buf, pos, count).0
      invariant QuestionsAt(buf, end, count - i).1 == QuestionsAt(buf, pos, count).1
    {
      var q, n := QuestionFromBuf(buf, end);
      ghost var rest := QuestionsAt(buf, end + n, count - i - 1).0;
      assert qs + ([q] + rest) == (qs + [q]) + rest;
      qs, end := qs + [q], end + n;
    }
    assert qs + [] == qs;
  }

  method RecordsFromBuf(buf: seq<byte>, pos: nat, count: nat) returns (rs: seq<Record>, end: nat)
    requires RecordsReadable(buf, pos, count)
    ensures (rs, end) == RecordsAt(buf, pos, count)
  {
    hide RecordReadable, RecordAt, RecordEnd;
    rs, end := [], pos;
    for i := 0 to count
      invariant RecordsReadable(buf, end, count - i)
      invariant rs + RecordsAt(buf, end, count - i).0 == RecordsAt(buf, pos, count).0
      invariant RecordsAt(buf, end, count - i).1 == RecordsAt(buf, pos, count).1
    {
      var r, n := RrFromBuf(buf, end);
      ghost var rest := RecordsAt(buf, end + n, count - i - 1).0;
      assert rs + ([r] + rest) == (rs + [r]) + rest;
      rs, end := rs + [r], end + n;
    }
    assert rs + [] == rs;
  }

  /** message_from_buf; header is what it leaves in the message's header, whatever it answers. */
  method MessageFromBuf(buf: seq<byte>, size: nat, prior: Header) returns (parsed: Parsed, header: Header)
    requires MessageReadable(buf, size)
    ensures parsed == MessageAt(buf, size) && header == HeaderLeft(buf, size, prior)
  {
    hide QuestionsReadable, QuestionsAt, RecordsReadable, RecordsAt, GetU16;
    header := prior;
    if size < HEADER_SIZE {
      return Rejected, header;
    }
    header := HeaderAt(buf);
    if Truncated(header) {
      return Rejected, header;
    }
    var question, an := QuestionsFromBuf(buf, HEADER_SIZE, header.qdcount);
    var answer, ns := RecordsFromBuf(buf, an, header.ancount);
    var authority, ar := RecordsFromBuf(buf, ns, header.nscount);
    var addition, _ := RecordsFromBuf(buf, ar, header.arcount);
    parsed := Accepted(Message(header, question, answer, authority, addition));
  }
}
