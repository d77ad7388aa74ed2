/** Compressed messages as section 4.1 of RFC 1035 lays them out, byte by byte and label by label, and what
    the parser makes of them. */
module Reference {
  import opened Bytes
  import opened Names
  import opened Messages
  import opened Decompress
  import opened Codec

  /** The name whose labels stand at pos, behind however many pointers; no label holds a zero byte or a byte
      the scan takes for a pointer. */
  ghost predicate Spells(buf: seq<byte>, pos: nat, name: seq<byte>) {
    Expandable(buf, pos, |buf|) && CleanLabels(Expand(buf, pos, |buf|)) && name == Wire(Expand(buf, pos, |buf|))
  }

  /** Pointers that all lead backwards always spell a name. */
  lemma BackwardSpells(buf: seq<byte>, pos: nat)
    requires LabelsPointBack(buf, pos, pos)
    ensures Expandable(buf, pos, pos)
    ensures CleanLabels(Expand(buf, pos, pos)) ==> Spells(buf, pos, Wire(Expand(buf, pos, pos)))
  {
    LabelsEnd(buf, pos, pos);
    DeeperExpands(buf, pos, pos, |buf|);
  }

  lemma SpelledName(buf: seq<byte>, pos: nat, name: seq<byte>)
    requires Spells(buf, pos, name)
    ensures NameReadable(buf, pos) && NameAt(buf, pos) == name && NameEnd(buf, pos) == LabelEnd(buf, pos)
    ensures pos < LabelEnd(buf, pos) <= |buf|
  {
    ScanRefines(buf, pos, |buf|);
    NameEndInside(buf, pos, |buf|);
  }

  // ---------- questions and records on the wire ----------

  ghost predicate WireQuestion(buf: seq<byte>, pos: nat, q: Question) {
    && Spells(buf, pos, q.qname) && |q.qname| < 512
    && At(buf, LabelEnd(buf, pos), [q.qtype / 256, q.qtype % 256, q.qclass / 256, q.qclass % 256])
  }

  /** The ten bytes between the owner name and the rdata. */
  ghost function Fixed(rtype: u16, cls: u16, ttl: u32, n: u16): seq<byte> {
    [rtype / 256, rtype % 256, cls / 256, cls % 256,
     ttl / 0x100_0000, ttl / 0x1_0000 % 256, ttl / 256 % 256, ttl % 256, n / 256, n % 256]
  }

  /** Rdata of n wire bytes at body. NS, CNAME, PTR and TXT hold a name, MX a preference and a name, and SOA two
      names and twenty bytes, which the parser takes from further on; the rest is copied. */
  ghost predicate WireRdata(buf: seq<byte>, rtype: u16, body: nat, n: nat, rdata: seq<byte>) {
    var last := |rdata| - 1;
    && |rdata| <= 512
    && if rtype == 2 || rtype == 5 || rtype == 12 || rtype == 16 then
         0 <= last && rdata[last] == 0 && Spells(buf, body, rdata[..last])
       else if rtype == 15 then
         2 <= last && At(buf, body, rdata[..2]) && rdata[last] == 0 && Spells(buf, body + 2, rdata[2..last])
       else if rtype == 6 then
         var second := LabelEnd(buf, body);
         && SoaForm(rdata) && Spells(buf, body, Mname(rdata)) && Spells(buf, second, Rname(rdata))
         && At(buf, LabelEnd(buf, second), rdata[|rdata| - 20..])
         && LabelEnd(buf, second) + (second - body) + 20 <= |buf|
       else At(buf, body, rdata) && n == |rdata|
  }

  ghost predicate WireRecord(buf: seq<byte>, pos: nat, r: Record, n: u16) {
    && Spells(buf, pos, r.name) && |r.name| < 512
    && At(buf, LabelEnd(buf, pos), Fixed(r.rtype, r.cls, r.ttl, n))
    && WireRdata(buf, r.rtype, LabelEnd(buf, pos) + 10, n, r.rdata)
  }

  /** Questions one after the other, up to end. */
  ghost predicate WireQuestions(buf: seq<byte>, pos: nat, qs: seq<Question>, end: nat)
    decreases |qs|
  {
    if qs == [] then end == pos
    else WireQuestion(buf, pos, qs[0]) && WireQuestions(buf, LabelEnd(buf, pos) + 4, qs[1..], end)
  }

  /** Records one after the other, each as long as its length field says, up to end; ns are those lengths. */
  ghost predicate WireRecords(buf: seq<byte>, pos: nat, rs: seq<Record>, ns: seq<u16>, end: nat)
    decreases |rs|
  {
    && |ns| == |rs|
    && if rs == [] then end == pos
       else WireRecord(buf, pos, rs[0], ns[0])
            && WireRecords(buf, LabelEnd(buf, pos) + 10 + ns[0], rs[1..], ns[1..], end)
  }

  /** Where the sections of a message begin and how long its rdata are on the wire. */
  datatype Layout = Layout(an: nat, ns: nat, ar: nat, end: nat,
                           answers: seq<u16>, authorities: seq<u16>, additions: seq<u16>)

  ghost predicate WireMessage(buf: seq<byte>, m: Message, l: Layout) {
    var h := m.header;
    && At(buf, 0, [h.id / 256, h.id % 256, h.misc1, h.misc2, h.qdcount / 256, h.qdcount % 256,
                   h.ancount / 256, h.ancount % 256, h.nscount / 256, h.nscount % 256,
                   h.arcount / 256, h.arcount % 256])
    && (h.misc1 / 2) % 2 == 0
    && |m.question| == h.qdcount && |m.answer| == h.ancount
    && |m.authority| == h.nscount && |m.addition| == h.arcount
    && WireQuestions(buf, 12, m.question, l.an) && WireRecords(buf, l.an, m.answer, l.answers, l.ns)
    && WireRecords(buf, l.ns, m.authority, l.authorities, l.ar)
    && WireRecords(buf, l.ar, m.addition, l.additions, l.end)
  }

  // ---------- what the parser reads ----------

  lemma ReadU16(buf: seq<byte>, pos: nat, x: u16)
    requires At(buf, pos, [x / 256, x % 256])
    ensures pos + 2 <= |buf| && GetU16(buf, pos) == x
  {
    AtByte(buf, pos, [x / 256, x % 256], 0);
    AtByte(buf, pos, [x / 256, x % 256], 1);
  }

  lemma Quarters(x: u32)
    ensures var hi, lo := x / 0x1_0000, x % 0x1_0000;
            && x / 0x100_0000 == hi / 256 && x / 0x1_0000 % 256 == hi % 256
            && x / 256 % 256 == lo / 256 && x % 256 == lo % 256
  {
  }

  lemma ReadU32(buf: seq<byte>, pos: nat, x: u32)
    requires At(buf, pos, [x / 0x100_0000, x / 0x1_0000 % 256, x / 256 % 256, x % 256])
    ensures pos + 4 <= |buf| && GetU32(buf, pos) == x
  {
    var hi, lo: u16 := x / 0x1_0000, x % 0x1_0000;
    Quarters(x);
    AtSplit(buf, pos, [hi / 256, hi % 256], [lo / 256, lo % 256]);
    assert [x / 0x100_0000, x / 0x1_0000 % 256, x / 256 % 256, x % 256]
        == [hi / 256, hi % 256] + [lo / 256, lo % 256];
    ReadU16(buf, pos, hi);
    ReadU16(buf, pos + 2, lo);
  }

  lemma ReadFixed(buf: seq<byte>, e: nat, rtype: u16, cls: u16, ttl: u32, n: u16)
    requires At(buf, e, Fixed(rtype, cls, ttl, n))
    ensures e + 10 <= |buf| && GetU16(buf, e) == rtype && GetU16(buf, e + 2) == cls && GetU32(buf, e + 4) == ttl
    ensures GetU16(buf, e + 8) == n
  {
    hide At, GetU16, GetU32;
    var t, c, l := [rtype / 256, rtype % 256], [cls / 256, cls % 256], [n / 256, n % 256];
    var time := [ttl / 0x100_0000, ttl / 0x1_0000 % 256, ttl / 256 % 256, ttl % 256];
    assert Fixed(rtype, cls, ttl, n) == t + (c + (time + l));
    AtSplit(buf, e, t, c + (time + l));
    AtSplit(buf, e + 2, c, time + l);
    AtSplit(buf, e + 4, time, l);
    ReadU16(buf, e, rtype);
    ReadU16(buf, e + 2, cls);
    ReadU32(buf, e + 4, ttl);
    ReadU16(buf, e + 8, n);
  }

  lemma QuestionRead(buf: seq<byte>, pos: nat, q: Question)
    requires WireQuestion(buf, pos, q)
    ensures QuestionReadable(buf, pos) && QuestionAt(buf, pos) == q && QuestionEnd(buf, pos) == LabelEnd(buf, pos) + 4
  {
    hide At, GetU16, Readable, Scan, NameEnd, Spells;
    var e := LabelEnd(buf, pos);
    SpelledName(buf, pos, q.qname);
    var t, c := [q.qtype / 256, q.qtype % 256], [q.qclass / 256, q.qclass % 256];
    assert [q.qtype / 256, q.qtype % 256, q.qclass / 256, q.qclass % 256] == t + c;
    AtSplit(buf, e, t, c);
    ReadU16(buf, e, q.qtype);
    ReadU16(buf, e + 2, q.qclass);
  }

  /** Whatever its rdata, a record behind a compressed name has the name, type, class and ttl that stand there,
      and ends where its length field says. */
  lemma CompressedFraming(buf: seq<byte>, pos: nat, name: seq<byte>, rtype: u16, cls: u16, ttl: u32, n: u16)
    requires RecordReadable(buf, pos) && Spells(buf, pos, name)
    requires At(buf, LabelEnd(buf, pos), Fixed(rtype, cls, ttl, n))
    ensures var r := RecordAt(buf, pos); r.name == name && r.rtype == rtype && r.cls == cls && r.ttl == ttl
    ensures RecordEnd(buf, pos) == LabelEnd(buf, pos) + 10 + n
  {
    hide At, GetU16, GetU32, Readable, Scan, NameEnd, Spells, RdataReadable, RdataAt, Fixed;
    SpelledName(buf, pos, name);
    ReadFixed(buf, LabelEnd(buf, pos), rtype, cls, ttl, n);
  }

  lemma NameRdata(buf: seq<byte>, rtype: u16, body: nat, n: nat, rdata: seq<byte>)
    requires WireRdata(buf, rtype, body, n, rdata)
    requires rtype == 2 || rtype == 5 || rtype == 12 || rtype == 16
    ensures RdataReadable(buf, rtype, body, n) && RdataAt(buf, rtype, body, n) == rdata
  {
    hide Readable, Scan, NameEnd, Spells, At;
    var name := rdata[..|rdata| - 1];
    SpelledName(buf, body, name);
    assert rdata == name + [0];
  }

  lemma MxRdata(buf: seq<byte>, body: nat, n: nat, rdata: seq<byte>)
    requires WireRdata(buf, 15, body, n, rdata)
    ensures RdataReadable(buf, 15, body, n) && RdataAt(buf, 15, body, n) == rdata
  {
    hide Readable, Scan, NameEnd, Spells;
    var name := rdata[2..|rdata| - 1];
    SpelledName(buf, body + 2, name);
    assert rdata == rdata[..2] + name + [0];
  }

  /** SOA keeps its two names and takes its last twenty bytes from as far behind their place as the first
      name is long on the wire. */
  lemma SoaRdata(buf: seq<byte>, body: nat, n: nat, rdata: seq<byte>)
    requires WireRdata(buf, 6, body, n, rdata)
    ensures RdataReadable(buf, 6, body, n)
    ensures var second := LabelEnd(buf, body); var from := LabelEnd(buf, second) + (second - body);
            && 0 <= from && from + 20 <= |buf| && |rdata| >= 20
            && RdataAt(buf, 6, body, n) == rdata[..|rdata| - 20] + buf[from..from + 20]
  {
    hide Readable, Scan, NameEnd, Spells, Clean, Mname, Rname, At;
    var m, r := Mname(rdata), Rname(rdata);
    SpelledName(buf, body, m);
    SpelledName(buf, LabelEnd(buf, body), r);
    assert rdata[..|rdata| - 20] == m + [0] + r + [0];
  }

  /** All rdata but that of SOA is read as meant: names expanded, everything else copied. */
  lemma CompressedRdata(buf: seq<byte>, rtype: u16, body: nat, n: nat, rdata: seq<byte>)
    requires WireRdata(buf, rtype, body, n, rdata)
    ensures RdataReadable(buf, rtype, body, n)
    ensures rtype != 6 ==> RdataAt(buf, rtype, body, n) == rdata
  {
    hide Readable, Scan, NameEnd, Spells, SoaForm;
    if rtype == 2 || rtype == 5 || rtype == 12 || rtype == 16 {
      NameRdata(buf, rtype, body, n, rdata);
    } else if rtype == 15 {
      MxRdata(buf, body, n, rdata);
    } else if rtype == 6 {
      SoaRdata(buf, body, n, rdata);
    }
  }

  lemma RecordRead(buf: seq<byte>, pos: nat, r: Record, n: u16)
    requires WireRecord(buf, pos, r, n)
    ensures RecordReadable(buf, pos) && Agrees(RecordAt(buf, pos), r)
    ensures RecordEnd(buf, pos) == LabelEnd(buf, pos) + 10 + n
  {
    hide At, GetU16, GetU32, Readable, Scan, NameEnd, Spells, RdataReadable, RdataAt, WireRdata, Fixed;
    SpelledName(buf, pos, r.name);
    ReadFixed(buf, LabelEnd(buf, pos), r.rtype, r.cls, r.ttl, n);
    CompressedRdata(buf, r.rtype, LabelEnd(buf, pos) + 10, n, r.rdata);
  }

  lemma {:induction false} QuestionsRead(buf: seq<byte>, pos: nat, qs: seq<Question>, end: nat)
    requires WireQuestions(buf, pos, qs, end)
    ensures QuestionsReadable(buf, pos, |qs|) && QuestionsAt(buf, pos, |qs|) == (qs, end)
    decreases |qs|
  {
    hide WireQuestion, QuestionReadable, QuestionAt, QuestionEnd, LabelEnd;
    if qs != [] {
      QuestionRead(buf, pos, qs[0]);
      QuestionsRead(buf, LabelEnd(buf, pos) + 4, qs[1..], end);
      assert qs == [qs[0]] + qs[1..];
    }
  }

  lemma {:induction false} RecordsRead(buf: seq<byte>, pos: nat, rs: seq<Record>, ns: seq<u16>, end: nat)
    requires WireRecords(buf, pos, rs, ns, end)
    ensures RecordsReadable(buf, pos, |rs|) && RecordsAt(buf, pos, |rs|).1 == end
    ensures SectionAgrees(RecordsAt(buf, pos, |rs|).0, rs)
    decreases |rs|
  {
    hide WireRecord, RecordReadable, RecordAt, RecordEnd, Agrees, LabelEnd;
    if rs != [] {
      RecordRead(buf, pos, rs[0], ns[0]);
      RecordsRead(buf, LabelEnd(buf, pos) + 10 + ns[0], rs[1..], ns[1..], end);
      assert rs == [rs[0]] + rs[1..];
    }
  }

  lemma HeaderRead(buf: seq<byte>, h: Header)
    requires At(buf, 0, [h.id / 256, h.id % 256, h.misc1, h.misc2, h.qdcount / 256, h.qdcount % 256,
                         h.ancount / 256, h.ancount % 256, h.nscount / 256, h.nscount % 256,
                         h.arcount / 256, h.arcount % 256])
    ensures |buf| >= 12 && HeaderAt(buf) == h
  {
    var bytes := [h.id / 256, h.id % 256, h.misc1, h.misc2, h.qdcount / 256, h.qdcount % 256,
                  h.ancount / 256, h.ancount % 256, h.nscount / 256, h.nscount % 256,
                  h.arcount / 256, h.arcount % 256];
    assert forall i :: 0 <= i < 12 ==> buf[..12][i] == bytes[i];
  }

  /** The parser reads a compressed message as the RFC means it, up to the rdata of SOA records. */
  lemma CompressedMessage(buf: seq<byte>, size: nat, m: Message, l: Layout)
    requires WireMessage(buf, m, l) && size >= 12
    ensures MessageReadable(buf, size) && MessageAt(buf, size).Accepted?
    ensures AgreesMessage(MessageAt(buf, size).msg, m)
    ensures NoSoaMessage(m) ==> MessageAt(buf, size).msg == m
  {
    hide At, WireQuestions, WireRecords, QuestionsReadable, QuestionsAt, RecordsReadable, RecordsAt, HeaderAt, SectionAgrees,
         NoSoa;
    HeaderRead(buf, m.header);
    QuestionsRead(buf, 12, m.question, l.an);
    RecordsRead(buf, l.an, m.answer, l.answers, l.ns);
    RecordsRead(buf, l.ns, m.authority, l.authorities, l.ar);
    RecordsRead(buf, l.ar, m.addition, l.additions, l.end);
    if NoSoaMessage(m) {
      var got := MessageAt(buf, size).msg;
      NoSoaAgrees(got.answer, m.answer);
      NoSoaAgrees(got.authority, m.authority);
      NoSoaAgrees(got.addition, m.addition);
    }
  }

  /** The printer lays headers, questions and records out the same way, with nothing compressed. */
  lemma PrintedLayout(h: Header, q: Question, r: Record)
    requires |r.rdata| < 0x1_0000
    ensures EncodeHeader(h) == [h.id / 256, h.id % 256, h.misc1, h.misc2, h.qdcount / 256, h.qdcount % 256,
                                h.ancount / 256, h.ancount % 256, h.nscount / 256, h.nscount % 256,
                                h.arcount / 256, h.arcount % 256]
    ensures EncodeQuestion(q) == q.qname + [0] + [q.qtype / 256, q.qtype % 256, q.qclass / 256, q.qclass % 256]
    ensures EncodeRecord(r) == r.name + [0] + Fixed(r.rtype, r.cls, r.ttl, |r.rdata|) + r.rdata
  {
    hide Fixed, PutU32, EncodeRecord;
    PrintedRecordLayout(r);
  }

  lemma PrintedRecordLayout(r: Record)
    requires |r.rdata| < 0x1_0000
    ensures EncodeRecord(r) == r.name + [0] + Fixed(r.rtype, r.cls, r.ttl, |r.rdata|) + r.rdata
  {
    hide PutU16, PutU32, Fixed;
    PutFixed(r.rtype, r.cls, r.ttl, |r.rdata|);
    var t, c, y, l := PutU16(r.rtype), PutU16(r.cls), PutU32(r.ttl), PutU16(|r.rdata|);
    assert (r.name + [0]) + (t + (c + (y + (l + r.rdata)))) == r.name + [0] + (t + c + y + l) + r.rdata;
  }

  lemma PutFixed(rtype: u16, cls: u16, ttl: u32, n: u16)
    ensures PutU16(rtype) + PutU16(cls) + PutU32(ttl) + PutU16(n) == Fixed(rtype, cls, ttl, n)
  {
    Quarters(ttl);
  }

  // ---------- an answer with every name compressed ----------

  /** The question for the name a, its CNAME b.a, and an address. */
  ghost function SmallAnswer(): seq<byte> {
    [0, 7, 0x81, 0x80, 0, 1, 0, 2, 0, 0, 0, 0] + (([1, 97] + [0]) + ([0, 5, 0, 1] + (
    [0xC0, 12] + ([0, 5, 0, 1, 0, 0, 0, 60, 0, 4] + ([1, 98] + ([0xC0, 12] + (
    [0xC0, 12] + ([0, 1, 0, 1, 0, 0, 0, 60, 0, 4] + [10, 0, 0, 1]))))))))
  }

  lemma SmallBytes(buf: seq<byte>)
    requires At(buf, 0, SmallAnswer())
    ensures At(buf, 0, [0, 7, 0x81, 0x80, 0, 1, 0, 2, 0, 0, 0, 0]) && At(buf, 12, [1, 97] + [0]) && At(buf, 15, [0, 5, 0, 1])
    ensures At(buf, 19, [0xC0, 12]) && At(buf, 21, Fixed(5, 1, 60, 4)) && At(buf, 31, [1, 98]) && At(buf, 33, [0xC0, 12])
    ensures At(buf, 35, [0xC0, 12]) && At(buf, 37, Fixed(1, 1, 60, 4)) && At(buf, 47, [10, 0, 0, 1])
  {
    hide At;
    var h, n, q: seq<byte>, p: seq<byte> :=
      [0, 7, 0x81, 0x80, 0, 1, 0, 2, 0, 0, 0, 0], [1, 97] + [0], [0, 5, 0, 1], [0xC0, 12];
    var f, l: seq<byte> := [0, 5, 0, 1, 0, 0, 0, 60, 0, 4], [1, 98];
    var g, a: seq<byte> := [0, 1, 0, 1, 0, 0, 0, 60, 0, 4], [10, 0, 0, 1];
    AtSplit(buf, 0, h, n + (q + (p + (f + (l + (p + (p + (g + a))))))));
    AtSplit(buf, 12, n, q + (p + (f + (l + (p + (p + (g + a)))))));
    AtSplit(buf, 15, q, p + (f + (l + (p + (p + (g + a))))));
    AtSplit(buf, 19, p, f + (l + (p + (p + (g + a)))));
    AtSplit(buf, 21, f, l + (p + (p + (g + a))));
    AtSplit(buf, 31, l, p + (p + (g + a)));
    AtSplit(buf, 33, p, p + (g + a));
    AtSplit(buf, 35, p, g + a);
    AtSplit(buf, 37, g, a);
  }

  lemma SpellsOne(buf: seq<byte>, pos: nat, depth: nat)
    requires At(buf, pos, [1, 97] + [0])
    ensures Expandable(buf, pos, depth) && Expand(buf, pos, depth) == [[97]] && LabelEnd(buf, pos) == pos + 3
  {
    hide Expandable, Expand, LabelEnd, At;
    AtSplit(buf, pos, [1, 97], [0]);
    assert [1] + [97] == [1, 97];
    NameStops(buf, pos + 2, depth);
    LabelRead(buf, pos, [97], depth);
  }

  lemma SpellsPointed(buf: seq<byte>, pos: nat)
    requires At(buf, 12, [1, 97] + [0]) && At(buf, pos, [0xC0, 12])
    ensures Spells(buf, pos, [1, 97]) && Spells(buf, 12, [1, 97]) && LabelEnd(buf, pos) == pos + 2 && LabelEnd(buf, 12) == 15
    ensures pos >= 2 && At(buf, pos - 2, [1, 98]) ==>
              Spells(buf, pos - 2, [1, 98, 1, 97]) && LabelEnd(buf, pos - 2) == pos + 2
  {
    hide Expandable, Expand, LabelEnd;
    var d := |buf| - 1;
    SpellsOne(buf, 12, d + 1);
    SpellsOne(buf, 12, d);
    assert [0xC0 + 12 / 256, 12 % 256] == [0xC0, 12];
    PointerFollowed(buf, pos, 12, d);
    var a, b: seq<Label> := [[97]], [[98], [97]];
    assert Wire(a[1..]) == [] && Wire(a) == [1, 97];
    assert b[1..] == a && Wire(b) == [1, 98, 1, 97];
    assert b == [[98]] + a;
    if pos >= 2 && At(buf, pos - 2, [1, 98]) {
      assert [1] + [98] == [1, 98];
      LabelRead(buf, pos - 2, [98], d + 1);
    }
  }

  lemma SmallWire(buf: seq<byte>, one: Record, two: Record)
    requires At(buf, 0, SmallAnswer())
    requires one == Record([1, 97], 5, 1, 60, [1, 98, 1, 97, 0]) && two == Record([1, 97], 1, 1, 60, [10, 0, 0, 1])
    ensures WireQuestion(buf, 12, Question([1, 97], 5, 1)) && LabelEnd(buf, 12) == 15
    ensures WireRecord(buf, 19, one, 4) && LabelEnd(buf, 19) == 21
    ensures WireRecord(buf, 35, two, 4) && LabelEnd(buf, 35) == 37
  {
    hide Spells, LabelEnd, At, Fixed;
    SmallBytes(buf);
    SpellsPointed(buf, 19);
    SpellsPointed(buf, 33);
    SpellsPointed(buf, 35);
    assert one.rdata[..4] == [1, 98, 1, 97];
  }

  /** Both records come out whole: the expanded rdata of the first is one byte longer than it is on the wire,
      and the second is still read where it begins. */
  lemma SmallAnswerRead(buf: seq<byte>)
    requires At(buf, 0, SmallAnswer())
    ensures MessageReadable(buf, 51)
    ensures MessageAt(buf, 51) == Accepted(
      Message(Header(7, 0x81, 0x80, 1, 2, 0, 0), [Question([1, 97], 5, 1)],
              [Record([1, 97], 5, 1, 60, [1, 98, 1, 97, 0]), Record([1, 97], 1, 1, 60, [10, 0, 0, 1])], [], []))
  {
    hide WireQuestion, WireRecord, LabelEnd, At, MessageReadable, MessageAt;
    var one, two := Record([1, 97], 5, 1, 60, [1, 98, 1, 97, 0]), Record([1, 97], 1, 1, 60, [10, 0, 0, 1]);
    var m := Message(Header(7, 0x81, 0x80, 1, 2, 0, 0), [Question([1, 97], 5, 1)], [one, two], [], []);
    SmallBytes(buf);
    SmallWire(buf, one, two);
    assert m.answer[1..] == [two] && [4, 4][1..] == [4];
    assert WireRecords(buf, 35, [two], [4], 51);
    assert WireRecords(buf, 19, m.answer, [4, 4], 51);
    CompressedMessage(buf, 51, m, Layout(19, 51, 51, 51, [4, 4], [], []));
  }
}
