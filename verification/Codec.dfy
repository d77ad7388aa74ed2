/** The wire format of messages: what the parser makes of a buffer, what the printer writes, and
    when the two undo each other. */
module Codec {
  import opened Bytes
  import opened Names
  import opened Messages
  import opened Decompress

  const HEADER_SIZE := 12
  const RR_BUF_SIZE := 512

  // ---------- parsing: the meaning of buffers ----------

  ghost predicate NameReadable(buf: seq<byte>, pos: nat) {
    Readable(buf, pos, |buf|)
  }

  ghost function NameAt(buf: seq<byte>, pos: nat): seq<byte>
    requires NameReadable(buf, pos)
  {
    Scan(buf, pos, |buf|)
  }

  ghost predicate QuestionReadable(buf: seq<byte>, pos: nat) {
    NameReadable(buf, pos) && |NameAt(buf, pos)| < DOMAIN_BUF_LEN && NameEnd(buf, pos) + 4 <= |buf|
  }

  ghost function QuestionAt(buf: seq<byte>, pos: nat): Question
    requires QuestionReadable(buf, pos)
  {
    var e := NameEnd(buf, pos);
    Question(NameAt(buf, pos), GetU16(buf, e), GetU16(buf, e + 2))
  }

  ghost function QuestionEnd(buf: seq<byte>, pos: nat): nat {
    NameEnd(buf, pos) + 4
  }

  /** Types whose rdata the parser reads as a single name; TXT is one of them. */
  predicate IsNameType(rtype: u16) {
    rtype == RRTYPE_NS || rtype == RRTYPE_PTR || rtype == RRTYPE_TXT || rtype == RRTYPE_CNAME
  }

  /** Where the SOA branch looks for the five fixed fields: it adds the first name's length twice. */
  ghost function SoaFields(buf: seq<byte>, body: nat): int {
    var second := NameEnd(buf, body);
    second + (second - body) + (NameEnd(buf, second) - second)
  }

  ghost predicate RdataReadable(buf: seq<byte>, rtype: u16, body: nat, rdlength: nat) {
    if rtype == RRTYPE_SOA then
      && NameReadable(buf, body) && NameReadable(buf, NameEnd(buf, body))
      && 0 <= SoaFields(buf, body) && SoaFields(buf, body) + 20 <= |buf|
      && |NameAt(buf, body)| + |NameAt(buf, NameEnd(buf, body))| + 22 <= RR_BUF_SIZE
    else if rtype == RRTYPE_MX then
      body + 2 <= |buf| && NameReadable(buf, body + 2) && |NameAt(buf, body + 2)| + 3 <= RR_BUF_SIZE
    else if IsNameType(rtype) then
      NameReadable(buf, body) && |NameAt(buf, body)| + 1 <= RR_BUF_SIZE
    else
      body + rdlength <= |buf| && rdlength <= RR_BUF_SIZE
  }

  /** The stored rdata: names in it are expanded, so its length is not the one on the wire. */
  ghost function RdataAt(buf: seq<byte>, rtype: u16, body: nat, rdlength: nat): seq<byte>
    requires RdataReadable(buf, rtype, body, rdlength)
  {
    if rtype == RRTYPE_SOA then
      NameAt(buf, body) + [0] + NameAt(buf, NameEnd(buf, body)) + [0]
      + buf[SoaFields(buf, body)..SoaFields(buf, body) + 20]
    else if rtype == RRTYPE_MX then buf[body..body + 2] + NameAt(buf, body + 2) + [0]
    else if IsNameType(rtype) then NameAt(buf, body) + [0]
    else buf[body..body + rdlength]
  }

  ghost predicate RecordReadable(buf: seq<byte>, pos: nat) {
    && NameReadable(buf, pos) && |NameAt(buf, pos)| < DOMAIN_BUF_LEN
    && var e := NameEnd(buf, pos);
       e + 10 <= |buf| && RdataReadable(buf, GetU16(buf, e), e + 10, GetU16(buf, e + 8))
  }

  ghost function RecordAt(buf: seq<byte>, pos: nat): Record
    requires RecordReadable(buf, pos)
  {
    var e := NameEnd(buf, pos);
    Record(NameAt(buf, pos), GetU16(buf, e), GetU16(buf, e + 2), GetU32(buf, e + 4),
           RdataAt(buf, GetU16(buf, e), e + 10, GetU16(buf, e + 8)))
  }

  /** The next record starts where rdlength says this one ends, however long its rdata became. */
  ghost function RecordEnd(buf: seq<byte>, pos: nat): nat
    requires RecordReadable(buf, pos)
  {
    NameEnd(buf, pos) + 10 + GetU16(buf, NameEnd(buf, pos) + 8)
  }

  ghost predicate QuestionsReadable(buf: seq<byte>, pos: nat, n: nat)
    decreases n
  {
    n == 0 || (QuestionReadable(buf, pos) && QuestionsReadable(buf, QuestionEnd(buf, pos), n - 1))
  }

  ghost function QuestionsAt(buf: seq<byte>, pos: nat, n: nat): (seq<Question>, nat)
    requires QuestionsReadable(buf, pos, n)
    decreases n
  {
    if n == 0 then ([], pos) else
      var (qs, e) := QuestionsAt(buf, QuestionEnd(buf, pos), n - 1);
      ([QuestionAt(buf, pos)] + qs, e)
  }

  ghost predicate RecordsReadable(buf: seq<byte>, pos: nat, n: nat)
    decreases n
  {
    n == 0 || (RecordReadable(buf, pos) && RecordsReadable(buf, RecordEnd(buf, pos), n - 1))
  }

  ghost function RecordsAt(buf: seq<byte>, pos: nat, n: nat): (seq<Record>, nat)
    requires RecordsReadable(buf, pos, n)
    decreases n
  {
    if n == 0 then ([], pos) else
      var (rs, e) := RecordsAt(buf, RecordEnd(buf, pos), n - 1);
      ([RecordAt(buf, pos)] + rs, e)
  }

  function HeaderAt(buf: seq<byte>): Header
    requires |buf| >= HEADER_SIZE
  {
    Header(GetU16(buf, 0), buf[2], buf[3], GetU16(buf, 4), GetU16(buf, 6), GetU16(buf, 8), GetU16(buf, 10))
  }

  predicate Truncated(h: Header) {
    (h.misc1 / 2) % 2 == 1
  }

  /** message_from_buf answers -1 to a short buffer and to a truncated message, and 1 otherwise. */
  datatype Parsed = Rejected | Accepted(msg: Message)

  ghost predicate SectionsReadable(buf: seq<byte>, h: Header) {
    QuestionsReadable(buf, HEADER_SIZE, h.qdcount) && (
      var an := QuestionsAt(buf, HEADER_SIZE, h.qdcount).1;
      RecordsReadable(buf, an, h.ancount) && (
        var ns := RecordsAt(buf, an, h.ancount).1;
        RecordsReadable(buf, ns, h.nscount) && RecordsReadable(buf, RecordsAt(buf, ns, h.nscount).1, h.arcount)))
  }

  /** The parser never compares a cursor with size, so the buffer itself has to hold what is read. */
  ghost predicate MessageReadable(buf: seq<byte>, size: nat) {
    size >= HEADER_SIZE ==>
      |buf| >= HEADER_SIZE && (Truncated(HeaderAt(buf)) || SectionsReadable(buf, HeaderAt(buf)))
  }

  ghost function SectionsAt(buf: seq<byte>, h: Header): Message
    requires SectionsReadable(buf, h)
  {
    var (qs, an) := QuestionsAt(buf, HEADER_SIZE, h.qdcount);
    var (ans, ns) := RecordsAt(buf, an, h.ancount);
    var (auth, ar) := RecordsAt(buf, ns, h.nscount);
    Message(h, qs, ans, auth, RecordsAt(buf, ar, h.arcount).0)
  }

  ghost function MessageAt(buf: seq<byte>, size: nat): Parsed
    requires MessageReadable(buf, size)
  {
    if size < HEADER_SIZE || Truncated(HeaderAt(buf)) then Rejected else Accepted(SectionsAt(buf, HeaderAt(buf)))
  }

  /** The header a parse leaves in the message: the wire's as soon as there is one, even if TC is set. */
  function HeaderLeft(buf: seq<byte>, size: nat, prior: Header): Header
    requires size >= HEADER_SIZE ==> |buf| >= HEADER_SIZE
  {
    if size < HEADER_SIZE then prior else HeaderAt(buf)
  }

  // ---------- printing ----------

  function EncodeHeader(h: Header): seq<byte> {
    PutU16(h.id) + ([h.misc1, h.misc2]
    + (PutU16(h.qdcount) + (PutU16(h.ancount) + (PutU16(h.nscount) + PutU16(h.arcount)))))
  }

  function EncodeQuestion(q: Question): seq<byte> {
    (q.qname + [0]) + (PutU16(q.qtype) + PutU16(q.qclass))
  }

  function EncodeRecord(r: Record): seq<byte>
    requires |r.rdata| < 0x1_0000
  {
    (r.name + [0]) + (PutU16(r.rtype) + (PutU16(r.cls) + (PutU32(r.ttl) + (PutU16(|r.rdata|) + r.rdata))))
  }

  ghost function EncodeQuestions(qs: seq<Question>): seq<byte> {
    if qs == [] then [] else EncodeQuestion(qs[0]) + EncodeQuestions(qs[1..])
  }

  ghost predicate Sized(rs: seq<Record>) {
    forall i :: 0 <= i < |rs| ==> |rs[i].rdata| < 0x1_0000
  }

  ghost function EncodeRecords(rs: seq<Record>): seq<byte>
    requires Sized(rs)
  {
    if rs == [] then [] else EncodeRecord(rs[0]) + EncodeRecords(rs[1..])
  }

  ghost predicate SizedMessage(m: Message) {
    Sized(m.answer) && Sized(m.authority) && Sized(m.addition)
  }

  ghost function EncodeMessage(m: Message): seq<byte>
    requires SizedMessage(m)
  {
    EncodeHeader(m.header)
    + (EncodeQuestions(m.question) + (EncodeRecords(m.answer) + (EncodeRecords(m.authority) + EncodeRecords(m.addition))))
  }

  // ---------- what survives the round trip ----------

  /** The two names of SOA rdata, as the zero bytes delimit them. */
  ghost function Mname(rdata: seq<byte>): seq<byte> {
    CText(rdata)
  }

  ghost function Rname(rdata: seq<byte>): seq<byte> {
    if |Mname(rdata)| < |rdata| then CText(rdata[|Mname(rdata)| + 1..]) else []
  }

  /** Two clean terminated names and twenty bytes of fixed fields. */
  ghost predicate SoaForm(rdata: seq<byte>) {
    var m, r := Mname(rdata), Rname(rdata);
    && Clean(m) && Clean(r) && |m| + |r| + 22 == |rdata| <= RR_BUF_SIZE
    && rdata == (m + [0]) + ((r + [0]) + rdata[|rdata| - 20..])
  }

  /** Rdata of the form the parser itself produces for the type. */
  ghost predicate Faithful(rtype: u16, rdata: seq<byte>) {
    var last := |rdata| - 1;
    if rtype == RRTYPE_SOA then SoaForm(rdata)
    else if rtype == RRTYPE_MX then 2 <= last < RR_BUF_SIZE && rdata[last] == 0 && Clean(rdata[2..last])
    else if IsNameType(rtype) then 0 <= last < RR_BUF_SIZE && rdata[last] == 0 && Clean(rdata[..last])
    else |rdata| <= RR_BUF_SIZE
  }

  ghost predicate FaithfulRecord(r: Record) {
    Clean(r.name) && |r.name| < DOMAIN_BUF_LEN && Faithful(r.rtype, r.rdata)
  }

  ghost predicate FaithfulQuestion(q: Question) {
    Clean(q.qname) && |q.qname| < DOMAIN_BUF_LEN
  }

  lemma {:induction false} CTextOf(name: seq<byte>, rest: seq<byte>)
    requires Clean(name)
    ensures CText(name + [0] + rest) == name
  {
    var s := name + [0] + rest;
    if name != [] {
      assert s[1..] == name[1..] + [0] + rest;
      CTextOf(name[1..], rest);
    }
  }

  lemma SoaFormOf(m: seq<byte>, r: seq<byte>, fixed: seq<byte>)
    requires Clean(m) && Clean(r) && |fixed| == 20 && |m| + |r| + 22 <= RR_BUF_SIZE
    ensures var rdata := m + [0] + r + [0] + fixed;
            SoaForm(rdata) && Mname(rdata) == m && Rname(rdata) == r && rdata[|rdata| - 20..] == fixed
  {
    hide Clean;
    var rdata := m + [0] + r + [0] + fixed;
    var tail := r + [0] + fixed;
    assert rdata == m + [0] + tail;
    CTextOf(m, tail);
    assert rdata[|m| + 1..] == tail;
    CTextOf(r, fixed);
    assert rdata[|rdata| - 20..] == fixed;
    assert rdata == (m + [0]) + ((r + [0]) + fixed);
  }

  lemma ParsedRdata(buf: seq<byte>, rtype: u16, body: nat, rdlength: nat)
    requires RdataReadable(buf, rtype, body, rdlength)
    ensures Faithful(rtype, RdataAt(buf, rtype, body, rdlength))
    ensures |RdataAt(buf, rtype, body, rdlength)| <= RR_BUF_SIZE
  {
    hide Readable, Scan, NameEnd, SoaForm;
    var rdata := RdataAt(buf, rtype, body, rdlength);
    if rtype == RRTYPE_SOA {
      var second := NameEnd(buf, body);
      ScanClean(buf, body, |buf|);
      ScanClean(buf, second, |buf|);
      SoaFormOf(NameAt(buf, body), NameAt(buf, second), buf[SoaFields(buf, body)..SoaFields(buf, body) + 20]);
    } else if rtype == RRTYPE_MX {
      ScanClean(buf, body + 2, |buf|);
      assert rdata[2..|rdata| - 1] == NameAt(buf, body + 2);
    } else if IsNameType(rtype) {
      ScanClean(buf, body, |buf|);
      assert rdata[..|rdata| - 1] == NameAt(buf, body);
    }
  }

  /** Whatever the parser reads as a record is in its own form. */
  lemma ParsedRecord(buf: seq<byte>, pos: nat)
    requires RecordReadable(buf, pos)
    ensures FaithfulRecord(RecordAt(buf, pos)) && |RecordAt(buf, pos).name| < 512 && |RecordAt(buf, pos).rdata| <= 512
  {
    hide Readable, Scan, NameEnd, RdataReadable, RdataAt, Faithful;
    ScanClean(buf, pos, |buf|);
    var e := NameEnd(buf, pos);
    ParsedRdata(buf, GetU16(buf, e), e + 10, GetU16(buf, e + 8));
  }

  /** A printed record is five fields behind its name. */
  lemma RecordFields(buf: seq<byte>, pos: nat, r: Record)
    requires |r.rdata| < 0x1_0000 && At(buf, pos, EncodeRecord(r))
    ensures At(buf, pos, r.name + [0])
    ensures var e := pos + |r.name| + 1;
            && e + 10 + |r.rdata| <= |buf| && GetU16(buf, e) == r.rtype && GetU16(buf, e + 2) == r.cls
            && GetU32(buf, e + 4) == r.ttl && GetU16(buf, e + 8) == |r.rdata| && At(buf, e + 10, r.rdata)
    ensures pos + |EncodeRecord(r)| == pos + |r.name| + 1 + 10 + |r.rdata|
  {
    hide GetU16, GetU32, At;
    var tail5 := PutU16(|r.rdata|) + r.rdata;
    var tail4 := PutU32(r.ttl) + tail5;
    var tail3 := PutU16(r.cls) + tail4;
    var tail2 := PutU16(r.rtype) + tail3;
    var e := pos + |r.name| + 1;
    AtSplit(buf, pos, r.name + [0], tail2);
    AtSplit(buf, e, PutU16(r.rtype), tail3);
    AtSplit(buf, e + 2, PutU16(r.cls), tail4);
    AtSplit(buf, e + 4, PutU32(r.ttl), tail5);
    AtSplit(buf, e + 8, PutU16(|r.rdata|), r.rdata);
    AtEnd(buf, e + 10, r.rdata);
    GetPutU16(buf, e, r.rtype);
    GetPutU16(buf, e + 2, r.cls);
    GetPutU32(buf, e + 4, r.ttl);
    GetPutU16(buf, e + 8, |r.rdata|);
  }

  lemma AtEnd(buf: seq<byte>, pos: nat, s: seq<byte>)
    requires At(buf, pos, s)
    ensures pos + |s| <= |buf|
  {
  }

  /** The displaced read of SOA fixed fields stays in the buffer; end is where the record ends. */
  ghost predicate Reaches(buf: seq<byte>, end: nat, r: Record) {
    r.rtype == RRTYPE_SOA ==> end + |Mname(r.rdata)| + 1 <= |buf|
  }

  /** What the SOA branch needs to read back the fixed fields: they recur |mname| + 1 bytes further on. */
  ghost predicate Recurs(buf: seq<byte>, end: nat, r: Record) {
    r.rtype == RRTYPE_SOA ==>
      20 <= |r.rdata| <= end && At(buf, end - 20 + |Mname(r.rdata)| + 1, r.rdata[|r.rdata| - 20..])
  }

  /** The same record, up to the rdata of SOA. */
  ghost predicate Agrees(got: Record, r: Record) {
    got.(rdata := r.rdata) == r && (r.rtype != RRTYPE_SOA ==> got.rdata == r.rdata)
  }

  /** Printed SOA rdata is read back with its own names and the twenty bytes |mname| + 1 behind the right ones. */
  lemma SoaDisplaced(buf: seq<byte>, body: nat, rdata: seq<byte>)
    requires SoaForm(rdata) && At(buf, body, rdata) && body + |rdata| + |Mname(rdata)| + 1 <= |buf|
    ensures RdataReadable(buf, RRTYPE_SOA, body, |rdata|) && |rdata| >= 22
    ensures var from := body + |rdata| - 20 + |Mname(rdata)| + 1;
            RdataAt(buf, RRTYPE_SOA, body, |rdata|) == rdata[..|rdata| - 20] + buf[from..from + 20]
  {
    hide Readable, Scan, NameEnd, Clean, Mname, Rname, At;
    var m, r, fixed := Mname(rdata), Rname(rdata), rdata[|rdata| - 20..];
    var second := body + |m| + 1;
    AtSplit(buf, body, m + [0], (r + [0]) + fixed);
    AtSplit(buf, second, r + [0], fixed);
    ScanPlain(buf, body, m, |buf|);
    ScanPlain(buf, second, r, |buf|);
    assert rdata[..|rdata| - 20] == m + [0] + r + [0];
  }

  lemma SameTail(s: seq<byte>, n: nat, tail: seq<byte>)
    requires n <= |s| && |tail| == |s| - n
    ensures s[..n] + tail == s <==> tail == s[n..]
  {
    assert s == s[..n] + s[n..];
    assert (s[..n] + tail)[n..] == tail;
  }

  /** SOA rdata in printed form comes back exactly when the bytes |mname| + 1 further on repeat the fixed fields. */
  lemma SoaRoundTrip(buf: seq<byte>, body: nat, rdata: seq<byte>)
    requires SoaForm(rdata) && At(buf, body, rdata) && body + |rdata| + |Mname(rdata)| + 1 <= |buf|
    ensures RdataReadable(buf, RRTYPE_SOA, body, |rdata|)
    ensures RdataAt(buf, RRTYPE_SOA, body, |rdata|) == rdata
            <==> At(buf, body + |rdata| - 20 + |Mname(rdata)| + 1, rdata[|rdata| - 20..])
  {
    hide RdataReadable, RdataAt, SoaForm, Mname;
    SoaDisplaced(buf, body, rdata);
    var from := body + |rdata| - 20 + |Mname(rdata)| + 1;
    SameTail(rdata, |rdata| - 20, buf[from..from + 20]);
  }

  lemma PrintedRdata(buf: seq<byte>, rtype: u16, body: nat, rdata: seq<byte>)
    requires At(buf, body, rdata) && Faithful(rtype, rdata) && rtype != RRTYPE_SOA
    ensures RdataReadable(buf, rtype, body, |rdata|) && RdataAt(buf, rtype, body, |rdata|) == rdata
  {
    hide Readable, Scan, NameEnd, Clean;
    var last := |rdata| - 1;
    if rtype == RRTYPE_MX {
      var name := rdata[2..last];
      assert rdata == rdata[..2] + (name + [0]);
      AtSplit(buf, body, rdata[..2], name + [0]);
      ScanPlain(buf, body + 2, name, |buf|);
    } else if IsNameType(rtype) {
      var name := rdata[..last];
      assert rdata == name + [0];
      ScanPlain(buf, body, name, |buf|);
    }
  }

  /** Whatever its rdata, a printed record the parser can read keeps its name, type, class and ttl, and
      the cursor ends behind it. */
  lemma RecordFraming(buf: seq<byte>, pos: nat, r: Record)
    requires |r.rdata| < 0x1_0000 && At(buf, pos, EncodeRecord(r))
    requires Clean(r.name) && |r.name| < DOMAIN_BUF_LEN && RecordReadable(buf, pos)
    ensures RecordAt(buf, pos).(rdata := r.rdata) == r && RecordEnd(buf, pos) == pos + |EncodeRecord(r)|
  {
    hide Readable, Scan, NameEnd, RdataReadable, RdataAt, Faithful, EncodeRecord, At, GetU16, GetU32;
    RecordFields(buf, pos, r);
    ScanPlain(buf, pos, r.name, |buf|);
  }

  /** A record in parser form is readable when printed, unless an SOA read runs off the buffer. */
  lemma PrintedRecord(buf: seq<byte>, pos: nat, r: Record)
    requires |r.rdata| < 0x1_0000 && At(buf, pos, EncodeRecord(r)) && FaithfulRecord(r)
    requires Reaches(buf, pos + |EncodeRecord(r)|, r)
    ensures RecordReadable(buf, pos) && Agrees(RecordAt(buf, pos), r)
    ensures RecordAt(buf, pos) == r <==> Recurs(buf, pos + |EncodeRecord(r)|, r)
  {
    hide Readable, Scan, NameEnd, RdataReadable, RdataAt, SoaForm, EncodeRecord, At, GetU16, GetU32, Mname, Clean;
    RecordFields(buf, pos, r);
    ScanPlain(buf, pos, r.name, |buf|);
    if r.rtype == RRTYPE_SOA {
      SoaLength(r.rdata);
      SoaRoundTrip(buf, pos + |r.name| + 11, r.rdata);
    } else {
      PrintedRdata(buf, r.rtype, pos + |r.name| + 11, r.rdata);
    }
  }

  lemma SoaLength(rdata: seq<byte>)
    requires SoaForm(rdata)
    ensures |rdata| >= 22
  {
  }

  lemma RecursReaches(buf: seq<byte>, end: nat, r: Record)
    requires Recurs(buf, end, r)
    ensures Reaches(buf, end, r)
  {
  }

  /** A printed record reads back as itself exactly when it is in the parser's own form and, if it is
      an SOA record, its fixed fields recur. */
  lemma RecordRoundTrip(buf: seq<byte>, pos: nat, r: Record)
    requires |r.rdata| < 0x1_0000 && At(buf, pos, EncodeRecord(r))
    ensures RecordReadable(buf, pos) && RecordAt(buf, pos) == r
            <==> FaithfulRecord(r) && Recurs(buf, pos + |EncodeRecord(r)|, r)
    ensures FaithfulRecord(r) && Recurs(buf, pos + |EncodeRecord(r)|, r) ==> RecordEnd(buf, pos) == pos + |EncodeRecord(r)|
  {
    hide RecordReadable, RecordAt, RecordEnd, Recurs, Reaches, Agrees, Faithful, EncodeRecord, At, Clean;
    var end := pos + |EncodeRecord(r)|;
    if RecordReadable(buf, pos) && RecordAt(buf, pos) == r {
      ParsedRecord(buf, pos);
      ReadableReaches(buf, pos, r);
      PrintedRecord(buf, pos, r);
    } else if FaithfulRecord(r) && Recurs(buf, end, r) {
      RecursReaches(buf, end, r);
      PrintedRecord(buf, pos, r);
    }
    if FaithfulRecord(r) && RecordReadable(buf, pos) {
      RecordFraming(buf, pos, r);
    }
  }

  /** A printed SOA record the parser can read has its displaced fields inside the buffer. */
  lemma ReadableReaches(buf: seq<byte>, pos: nat, r: Record)
    requires |r.rdata| < 0x1_0000 && At(buf, pos, EncodeRecord(r)) && FaithfulRecord(r) && RecordReadable(buf, pos)
    ensures Reaches(buf, pos + |EncodeRecord(r)|, r)
  {
    hide Readable, Scan, NameEnd, EncodeRecord, At, GetU16, GetU32, Clean, Rname;
    if r.rtype == RRTYPE_SOA {
      var body, m := pos + |r.name| + 11, Mname(r.rdata);
      RecordFields(buf, pos, r);
      ScanPlain(buf, pos, r.name, |buf|);
      var fixed := r.rdata[|r.rdata| - 20..];
      AtSplit(buf, body, m + [0], (Rname(r.rdata) + [0]) + fixed);
      AtSplit(buf, body + |m| + 1, Rname(r.rdata) + [0], fixed);
      ScanPlain(buf, body, m, |buf|);
      ScanPlain(buf, body + |m| + 1, Rname(r.rdata), |buf|);
    }
  }

  /** A TXT record with the one character string "a" is not in the form of a name, so it never survives. */
  lemma TxtCounterexample(buf: seq<byte>, pos: nat)
    requires At(buf, pos, EncodeRecord(Record([], RRTYPE_TXT, 1, 0, [1, 97])))
    ensures !(RecordReadable(buf, pos) && RecordAt(buf, pos) == Record([], RRTYPE_TXT, 1, 0, [1, 97]))
  {
    hide RecordReadable, RecordAt, EncodeRecord, At;
    RecordRoundTrip(buf, pos, Record([], RRTYPE_TXT, 1, 0, [1, 97]));
  }

  lemma QuestionRoundTrip(buf: seq<byte>, pos: nat, q: Question)
    requires At(buf, pos, EncodeQuestion(q))
    ensures FaithfulQuestion(q) <==> QuestionReadable(buf, pos) && QuestionAt(buf, pos) == q
    ensures FaithfulQuestion(q) ==> QuestionEnd(buf, pos) == pos + |EncodeQuestion(q)|
  {
    hide Readable, Scan, NameEnd;
    if FaithfulQuestion(q) {
      var e := pos + |q.qname| + 1;
      AtSplit(buf, pos, q.qname + [0], PutU16(q.qtype) + PutU16(q.qclass));
      AtSplit(buf, e, PutU16(q.qtype), PutU16(q.qclass));
      ScanPlain(buf, pos, q.qname, |buf|);
      GetPutU16(buf, e, q.qtype);
      GetPutU16(buf, e + 2, q.qclass);
    } else if QuestionReadable(buf, pos) && QuestionAt(buf, pos) == q {
      ScanClean(buf, pos, |buf|);
    }
  }

  // ---------- sections ----------

  ghost predicate NoSoa(rs: seq<Record>) {
    forall i :: 0 <= i < |rs| ==> rs[i].rtype != RRTYPE_SOA
  }

  ghost predicate FaithfulRecords(rs: seq<Record>) {
    forall i :: 0 <= i < |rs| ==> FaithfulRecord(rs[i])
  }

  ghost predicate FaithfulQuestions(qs: seq<Question>) {
    forall i :: 0 <= i < |qs| ==> FaithfulQuestion(qs[i])
  }

  lemma {:induction false} QuestionsRoundTrip(buf: seq<byte>, pos: nat, qs: seq<Question>)
    requires FaithfulQuestions(qs) && At(buf, pos, EncodeQuestions(qs))
    ensures QuestionsReadable(buf, pos, |qs|)
    ensures QuestionsAt(buf, pos, |qs|) == (qs, pos + |EncodeQuestions(qs)|)
    decreases |qs|
  {
    hide At, QuestionReadable, QuestionAt, QuestionEnd, EncodeQuestion, FaithfulQuestion;
    if qs != [] {
      AtSplit(buf, pos, EncodeQuestion(qs[0]), EncodeQuestions(qs[1..]));
      QuestionRoundTrip(buf, pos, qs[0]);
      QuestionsRoundTrip(buf, pos + |EncodeQuestion(qs[0])|, qs[1..]);
      assert qs == [qs[0]] + qs[1..];
    }
  }

  /** Every SOA record of the section at pos can be read, or even comes back as it was. */
  ghost predicate SectionReaches(buf: seq<byte>, pos: nat, rs: seq<Record>)
    requires Sized(rs)
    decreases |rs|
  {
    rs == [] || (
      var end := pos + |EncodeRecord(rs[0])|;
      Reaches(buf, end, rs[0]) && SectionReaches(buf, end, rs[1..]))
  }

  ghost predicate SectionRecurs(buf: seq<byte>, pos: nat, rs: seq<Record>)
    requires Sized(rs)
    decreases |rs|
  {
    rs == [] || (
      var end := pos + |EncodeRecord(rs[0])|;
      Recurs(buf, end, rs[0]) && SectionRecurs(buf, end, rs[1..]))
  }

  ghost predicate SectionAgrees(got: seq<Record>, rs: seq<Record>) {
    |got| == |rs| && forall i :: 0 <= i < |rs| ==> Agrees(got[i], rs[i])
  }

  lemma NoSoaAgrees(got: seq<Record>, rs: seq<Record>)
    requires SectionAgrees(got, rs) && NoSoa(rs)
    ensures got == rs
  {
    forall i | 0 <= i < |rs|
      ensures got[i] == rs[i]
    {
      assert Agrees(got[i], rs[i]);
    }
  }

  lemma {:induction false} RecordsRoundTrip(buf: seq<byte>, pos: nat, rs: seq<Record>)
    requires FaithfulRecords(rs) && Sized(rs) && At(buf, pos, EncodeRecords(rs)) && SectionReaches(buf, pos, rs)
    ensures RecordsReadable(buf, pos, |rs|) && RecordsAt(buf, pos, |rs|).1 == pos + |EncodeRecords(rs)|
    ensures SectionAgrees(RecordsAt(buf, pos, |rs|).0, rs)
    ensures RecordsAt(buf, pos, |rs|).0 == rs <==> SectionRecurs(buf, pos, rs)
    decreases |rs|
  {
    hide At, RecordReadable, RecordAt, RecordEnd, EncodeRecord, Faithful, Clean, Reaches, Recurs, Agrees;
    if rs != [] {
      var next := pos + |EncodeRecord(rs[0])|;
      AtSplit(buf, pos, EncodeRecord(rs[0]), EncodeRecords(rs[1..]));
      PrintedRecord(buf, pos, rs[0]);
      RecordFraming(buf, pos, rs[0]);
      RecordsRoundTrip(buf, next, rs[1..]);
      var got, rest := RecordsAt(buf, pos, |rs|).0, RecordsAt(buf, next, |rs| - 1).0;
      assert got == [RecordAt(buf, pos)] + rest && rs == [rs[0]] + rs[1..];
      assert got[1..] == rest;
    }
  }

  lemma {:induction false} RecursSection(buf: seq<byte>, pos: nat, rs: seq<Record>)
    requires Sized(rs) && SectionRecurs(buf, pos, rs)
    ensures SectionReaches(buf, pos, rs)
    decreases |rs|
  {
    hide Recurs, Reaches, EncodeRecord;
    if rs != [] {
      RecursReaches(buf, pos + |EncodeRecord(rs[0])|, rs[0]);
      RecursSection(buf, pos + |EncodeRecord(rs[0])|, rs[1..]);
    }
  }

  /** Without SOA records nothing is read out of place. */
  lemma {:induction false} NoSoaRecurs(buf: seq<byte>, pos: nat, rs: seq<Record>)
    requires Sized(rs) && NoSoa(rs)
    ensures SectionRecurs(buf, pos, rs)
    decreases |rs|
  {
    hide EncodeRecord;
    if rs != [] {
      NoSoaRecurs(buf, pos + |EncodeRecord(rs[0])|, rs[1..]);
    }
  }

  /** A buffer with room for one more rdata behind the section lets every SOA record be read. */
  lemma {:induction false} SlackReaches(buf: seq<byte>, pos: nat, rs: seq<Record>)
    requires Sized(rs) && FaithfulRecords(rs) && pos + |EncodeRecords(rs)| + RR_BUF_SIZE <= |buf|
    ensures SectionReaches(buf, pos, rs)
    decreases |rs|
  {
    hide EncodeRecord, Clean;
    if rs != [] {
      SlackReaches(buf, pos + |EncodeRecord(rs[0])|, rs[1..]);
    }
  }

  lemma {:induction false} ParsedQuestions(buf: seq<byte>, pos: nat, n: nat)
    requires QuestionsReadable(buf, pos, n)
    ensures |QuestionsAt(buf, pos, n).0| == n && FaithfulQuestions(QuestionsAt(buf, pos, n).0)
    decreases n
  {
    hide Readable, Scan, NameEnd, Clean;
    if n > 0 {
      ScanClean(buf, pos, |buf|);
      ParsedQuestions(buf, QuestionEnd(buf, pos), n - 1);
    }
  }

  lemma {:induction false} ParsedRecords(buf: seq<byte>, pos: nat, n: nat)
    requires RecordsReadable(buf, pos, n)
    ensures var rs := RecordsAt(buf, pos, n).0; |rs| == n && Sized(rs) && FaithfulRecords(rs)
    decreases n
  {
    hide RecordReadable, RecordAt, RecordEnd, FaithfulRecord;
    if n > 0 {
      ParsedRecord(buf, pos);
      ParsedRecords(buf, RecordEnd(buf, pos), n - 1);
    }
  }

  /** If the parser can read a printed section, its SOA reads stay in the buffer. */
  lemma {:induction false} ReadableSection(buf: seq<byte>, pos: nat, rs: seq<Record>)
    requires FaithfulRecords(rs) && Sized(rs) && At(buf, pos, EncodeRecords(rs)) && RecordsReadable(buf, pos, |rs|)
    ensures SectionReaches(buf, pos, rs)
    decreases |rs|
  {
    hide At, RecordReadable, RecordAt, RecordEnd, EncodeRecord, Faithful, Clean, Reaches;
    if rs != [] {
      AtSplit(buf, pos, EncodeRecord(rs[0]), EncodeRecords(rs[1..]));
      ReadableReaches(buf, pos, rs[0]);
      RecordFraming(buf, pos, rs[0]);
      ReadableSection(buf, pos + |EncodeRecord(rs[0])|, rs[1..]);
    }
  }

  // ---------- messages ----------

  ghost predicate NoSoaMessage(m: Message) {
    NoSoa(m.answer) && NoSoa(m.authority) && NoSoa(m.addition)
  }

  ghost predicate Complete(m: Message) {
    && |m.question| == m.header.qdcount && |m.answer| == m.header.ancount
    && |m.authority| == m.header.nscount && |m.addition| == m.header.arcount
  }

  /** The message is as the parser makes them: TC clear, counts that match, every part in parser form. */
  ghost predicate ParserForm(m: Message) {
    && !Truncated(m.header) && Complete(m) && FaithfulQuestions(m.question)
    && FaithfulRecords(m.answer) && FaithfulRecords(m.authority) && FaithfulRecords(m.addition)
  }

  /** The same message, up to the rdata of SOA records. */
  ghost predicate AgreesMessage(got: Message, m: Message) {
    && got.header == m.header && got.question == m.question
    && SectionAgrees(got.answer, m.answer) && SectionAgrees(got.authority, m.authority)
    && SectionAgrees(got.addition, m.addition)
  }

  ghost function AnswerStart(m: Message): nat {
    HEADER_SIZE + |EncodeQuestions(m.question)|
  }

  ghost function AuthorityStart(m: Message): nat
    requires SizedMessage(m)
  {
    AnswerStart(m) + |EncodeRecords(m.answer)|
  }

  ghost function AdditionStart(m: Message): nat
    requires SizedMessage(m)
  {
    AuthorityStart(m) + |EncodeRecords(m.authority)|
  }

  /** The displaced reads of all SOA records stay in the buffer that holds the printed message. */
  ghost predicate MessageReaches(buf: seq<byte>, m: Message)
    requires SizedMessage(m)
  {
    && SectionReaches(buf, AnswerStart(m), m.answer) && SectionReaches(buf, AuthorityStart(m), m.authority)
    && SectionReaches(buf, AdditionStart(m), m.addition)
  }

  /** The fixed fields of all SOA records recur where the parser looks for them. */
  ghost predicate MessageRecurs(buf: seq<byte>, m: Message)
    requires SizedMessage(m)
  {
    && SectionRecurs(buf, AnswerStart(m), m.answer) && SectionRecurs(buf, AuthorityStart(m), m.authority)
    && SectionRecurs(buf, AdditionStart(m), m.addition)
  }

  lemma HeaderRoundTrip(buf: seq<byte>, h: Header)
    requires At(buf, 0, EncodeHeader(h))
    ensures |buf| >= HEADER_SIZE && HeaderAt(buf) == h
  {
    forall i | 0 <= i < HEADER_SIZE
      ensures buf[i] == EncodeHeader(h)[i]
    {
      AtByte(buf, 0, EncodeHeader(h), i);
    }
  }

  lemma HeaderLength(h: Header)
    ensures |EncodeHeader(h)| == HEADER_SIZE
  {
  }

  /** Whatever the parser accepts is in parser form: compression leaves no trace. */
  lemma ParsedMessage(buf: seq<byte>, size: nat)
    requires MessageReadable(buf, size) && MessageAt(buf, size).Accepted?
    ensures var m := MessageAt(buf, size).msg; SizedMessage(m) && ParserForm(m)
  {
    hide QuestionsReadable, QuestionsAt, RecordsReadable, RecordsAt, Sized, FaithfulQuestions, FaithfulRecords, GetU16;
    var h := HeaderAt(buf);
    var an := QuestionsAt(buf, HEADER_SIZE, h.qdcount).1;
    var ns := RecordsAt(buf, an, h.ancount).1;
    var ar := RecordsAt(buf, ns, h.nscount).1;
    ParsedQuestions(buf, HEADER_SIZE, h.qdcount);
    ParsedRecords(buf, an, h.ancount);
    ParsedRecords(buf, ns, h.nscount);
    ParsedRecords(buf, ar, h.arcount);
  }

  /** The encoding of a message lies in the buffer section by section. */
  lemma MessageFields(m: Message, buf: seq<byte>)
    requires SizedMessage(m) && At(buf, 0, EncodeMessage(m))
    ensures |buf| >= HEADER_SIZE && HeaderAt(buf) == m.header
    ensures At(buf, HEADER_SIZE, EncodeQuestions(m.question)) && At(buf, AnswerStart(m), EncodeRecords(m.answer))
    ensures At(buf, AuthorityStart(m), EncodeRecords(m.authority))
    ensures At(buf, AdditionStart(m), EncodeRecords(m.addition))
  {
    hide At, Sized, EncodeHeader, EncodeQuestions, EncodeRecords, HeaderAt;
    var q, a := EncodeQuestions(m.question), EncodeRecords(m.answer);
    var n, r := EncodeRecords(m.authority), EncodeRecords(m.addition);
    HeaderLength(m.header);
    AtSplit(buf, 0, EncodeHeader(m.header), q + (a + (n + r)));
    AtSplit(buf, HEADER_SIZE, q, a + (n + r));
    AtSplit(buf, HEADER_SIZE + |q|, a, n + r);
    AtSplit(buf, HEADER_SIZE + |q| + |a|, n, r);
    HeaderRoundTrip(buf, m.header);
  }

  /** Any buffer that starts with the encoding of a message in parser form reads back as that message,
      SOA rdata aside; and SOA rdata come back exactly when their fixed fields recur. */
  lemma EncodedMessage(m: Message, buf: seq<byte>, size: nat)
    requires SizedMessage(m) && ParserForm(m) && At(buf, 0, EncodeMessage(m)) && size >= HEADER_SIZE
    requires MessageReaches(buf, m)
    ensures MessageReadable(buf, size) && MessageAt(buf, size).Accepted?
    ensures AgreesMessage(MessageAt(buf, size).msg, m)
    ensures MessageAt(buf, size) == Accepted(m) <==> MessageRecurs(buf, m)
  {
    hide At, QuestionsReadable, QuestionsAt, RecordsReadable, RecordsAt, Sized, FaithfulQuestions, FaithfulRecords,
         EncodeMessage, EncodeQuestions, EncodeRecords, HeaderAt, SectionReaches, SectionRecurs, SectionAgrees;
    MessageFields(m, buf);
    QuestionsRoundTrip(buf, HEADER_SIZE, m.question);
    RecordsRoundTrip(buf, AnswerStart(m), m.answer);
    RecordsRoundTrip(buf, AuthorityStart(m), m.authority);
    RecordsRoundTrip(buf, AdditionStart(m), m.addition);
  }

  lemma ReadableMessage(m: Message, buf: seq<byte>, size: nat)
    requires SizedMessage(m) && ParserForm(m) && At(buf, 0, EncodeMessage(m)) && size >= HEADER_SIZE
    requires MessageReadable(buf, size)
    ensures MessageReaches(buf, m)
  {
    hide At, QuestionsReadable, QuestionsAt, RecordsReadable, RecordsAt, Sized, FaithfulQuestions, FaithfulRecords,
         EncodeMessage, EncodeQuestions, EncodeRecords, HeaderAt, SectionReaches, SectionAgrees, SectionRecurs;
    MessageFields(m, buf);
    QuestionsRoundTrip(buf, HEADER_SIZE, m.question);
    ReadableSection(buf, AnswerStart(m), m.answer);
    RecordsRoundTrip(buf, AnswerStart(m), m.answer);
    ReadableSection(buf, AuthorityStart(m), m.authority);
    RecordsRoundTrip(buf, AuthorityStart(m), m.authority);
    ReadableSection(buf, AdditionStart(m), m.addition);
  }

  /** An encoded message reads back as itself exactly when it is in parser form and its SOA fields recur. */
  lemma EncodingRoundTrip(m: Message, buf: seq<byte>, size: nat)
    requires SizedMessage(m) && At(buf, 0, EncodeMessage(m)) && size >= HEADER_SIZE
    ensures MessageReadable(buf, size) && MessageAt(buf, size) == Accepted(m) <==> ParserForm(m) && MessageRecurs(buf, m)
  {
    hide MessageReadable, MessageAt, EncodeMessage, ParserForm, At, SizedMessage, MessageRecurs, MessageReaches;
    if MessageReadable(buf, size) && MessageAt(buf, size) == Accepted(m) {
      ParsedMessage(buf, size);
      ReadableMessage(m, buf, size);
      EncodedMessage(m, buf, size);
    } else if ParserForm(m) && MessageRecurs(buf, m) {
      RecursMessage(buf, m);
      EncodedMessage(m, buf, size);
    }
  }

  lemma RecursMessage(buf: seq<byte>, m: Message)
    requires SizedMessage(m) && MessageRecurs(buf, m)
    ensures MessageReaches(buf, m)
  {
    hide Sized, SectionRecurs, SectionReaches, EncodeQuestions, EncodeRecords;
    RecursSection(buf, AnswerStart(m), m.answer);
    RecursSection(buf, AuthorityStart(m), m.authority);
    RecursSection(buf, AdditionStart(m), m.addition);
  }

  lemma NoSoaRecursMessage(buf: seq<byte>, m: Message)
    requires SizedMessage(m) && NoSoaMessage(m)
    ensures MessageRecurs(buf, m)
  {
    hide Sized, SectionRecurs, EncodeQuestions, EncodeRecords, NoSoa;
    NoSoaRecurs(buf, AnswerStart(m), m.answer);
    NoSoaRecurs(buf, AuthorityStart(m), m.authority);
    NoSoaRecurs(buf, AdditionStart(m), m.addition);
  }

  lemma EncodingLength(m: Message)
    requires SizedMessage(m)
    ensures |EncodeMessage(m)| == AdditionStart(m) + |EncodeRecords(m.addition)| >= HEADER_SIZE
  {
    hide Sized, EncodeHeader, EncodeQuestions, EncodeRecords;
    HeaderLength(m.header);
  }

  /** A receive buffer with 512 bytes to spare behind the message is always enough. */
  lemma SlackReachesMessage(buf: seq<byte>, m: Message)
    requires SizedMessage(m) && ParserForm(m) && |EncodeMessage(m)| + RR_BUF_SIZE <= |buf|
    ensures MessageReaches(buf, m)
  {
    hide Sized, SectionReaches, EncodeQuestions, EncodeRecords, EncodeMessage, FaithfulQuestions, FaithfulRecords;
    EncodingLength(m);
    SlackReaches(buf, AnswerStart(m), m.answer);
    SlackReaches(buf, AuthorityStart(m), m.authority);
    SlackReaches(buf, AdditionStart(m), m.addition);
  }

  /** The smallest SOA message: root names, serial number and timers that are not all alike. */
  ghost function SmallSoa(): Message {
    Message(Header(7, 0, 0, 0, 1, 0, 0), [], [Record([], RRTYPE_SOA, 1, 0, [0, 0] + ([1] + seq(19, _ => 0)))], [], [])
  }

  lemma SmallSoaForm(rdata: seq<byte>)
    requires rdata == [0, 0] + ([1] + seq(19, _ => 0))
    ensures SoaForm(rdata) && Mname(rdata) == [] && rdata[|rdata| - 20..] == [1] + seq(19, _ => 0)
  {
    var fixed: seq<byte> := [1] + seq(19, _ => 0);
    assert rdata == [] + [0] + [] + [0] + fixed;
    SoaFormOf([], [], fixed);
  }

  lemma SmallSoaWire(buf: seq<byte>, r: Record)
    requires r == SmallSoa().answer[0] && At(buf, HEADER_SIZE, EncodeRecord(r))
    ensures |EncodeRecord(r)| == 33 && !Recurs(buf, HEADER_SIZE + 33, r)
  {
    hide At, GetU16, GetU32, EncodeRecord, SoaForm;
    RecordFields(buf, HEADER_SIZE, r);
    SmallSoaForm(r.rdata);
    AtByte(buf, HEADER_SIZE + 11, r.rdata, 3);
    if Recurs(buf, HEADER_SIZE + 33, r) {
      AtByte(buf, HEADER_SIZE + 14, r.rdata[2..], 0);
    }
  }

  /** It is in parser form, and in a buffer with room to spare the parser accepts it and gets it wrong. */
  lemma SoaCounterexample(buf: seq<byte>)
    requires SizedMessage(SmallSoa()) && At(buf, 0, EncodeMessage(SmallSoa()))
    requires |EncodeMessage(SmallSoa())| + RR_BUF_SIZE <= |buf|
    ensures MessageReadable(buf, |EncodeMessage(SmallSoa())|)
    ensures var got := MessageAt(buf, |EncodeMessage(SmallSoa())|);
            got.Accepted? && got != Accepted(SmallSoa()) && AgreesMessage(got.msg, SmallSoa())
  {
    hide At, EncodeMessage, EncodeRecord, MessageReadable, MessageAt, AgreesMessage, Recurs, SoaForm, MessageReaches;
    var m := SmallSoa();
    SmallSoaForm(m.answer[0].rdata);
    assert ParserForm(m);
    EncodingLength(m);
    SlackReachesMessage(buf, m);
    EncodedMessage(m, buf, |EncodeMessage(m)|);
    MessageFields(m, buf);
    AtSplit(buf, HEADER_SIZE, EncodeRecord(m.answer[0]), EncodeRecords(m.answer[1..]));
    SmallSoaWire(buf, m.answer[0]);
  }
}
