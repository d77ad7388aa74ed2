/** The printer as it runs: a cursor into the output buffer that an overlong name moves backwards. */
module Printer {
  import opened Options
  import opened Bytes
  import opened Names
  import opened Messages
  import opened Decompress
  import opened Codec
  import opened Parser

  // ---------- what a sequence of writes leaves behind ----------

  /** What one question or record contributes: its bytes, or nothing when its name is too long. */
  type Part = Option<seq<byte>>

  ghost function QuestionPart(q: Question): Part {
    if DomainLen(q.qname) == -1 then None else Some(EncodeQuestion(q))
  }

  ghost function RecordPart(r: Record): Part
    requires |r.rdata| < 0x1_0000
  {
    if DomainLen(r.name) == -1 then None else Some(EncodeRecord(r))
  }

  ghost function QuestionParts(qs: seq<Question>): (ps: seq<Part>)
    ensures |ps| == |qs|
  {
    if qs == [] then [] else QuestionParts(qs[..|qs| - 1]) + [QuestionPart(qs[|qs| - 1])]
  }

  ghost function RecordParts(rs: seq<Record>): (ps: seq<Part>)
    requires Sized(rs)
    ensures |ps| == |rs|
  {
    if rs == [] then [] else RecordParts(rs[..|rs| - 1]) + [RecordPart(rs[|rs| - 1])]
  }

  /** The -1 of a part that cannot be printed is added to the cursor like a length. */
  function Advance(p: Part): int {
    if p.None? then -1 else |p.value|
  }

  ghost function CursorAfter(ps: seq<Part>, at: int): int {
    if ps == [] then at else CursorAfter(ps[..|ps| - 1], at) + Advance(ps[|ps| - 1])
  }

  /** Every write stays inside the buffer. */
  ghost predicate Safe(ps: seq<Part>, at: int, capacity: nat) {
    ps == [] || (
      var init, p := ps[..|ps| - 1], ps[|ps| - 1];
      Safe(init, at, capacity) &&
      (p.Some? ==> 0 <= CursorAfter(init, at) && CursorAfter(init, at) + |p.value| <= capacity))
  }

  ghost function Image(out: seq<byte>, ps: seq<Part>, at: int): (r: seq<byte>)
    requires Safe(ps, at, |out|)
    ensures |r| == |out|
  {
    if ps == [] then out else
      var init, p := ps[..|ps| - 1], ps[|ps| - 1];
      if p.None? then Image(out, init, at) else Splice(Image(out, init, at), CursorAfter(init, at), p.value)
  }

  lemma {:induction false} Appended(a: seq<Part>, b: seq<Part>, at: int, out: seq<byte>)
    requires Safe(a, at, |out|) && Safe(b, CursorAfter(a, at), |out|)
    ensures CursorAfter(a + b, at) == CursorAfter(b, CursorAfter(a, at)) && Safe(a + b, at, |out|)
    ensures Image(out, a + b, at) == Image(Image(out, a, at), b, CursorAfter(a, at))
    decreases |b|
  {
    if b == [] {
      assert a + b == a;
    } else {
      var init := b[..|b| - 1];
      Appended(a, init, at, out);
      assert (a + b)[..|a + b| - 1] == a + init;
    }
  }

  // ---------- the writers ----------

  /** Write the next bytes behind those already written from start on. */
  method Emit(dest: array<byte>, start: nat, ghost done: seq<byte>, at: nat, s: seq<byte>, ghost was: seq<byte>)
    returns (next: nat)
    requires at == start + |done| && at + |s| <= dest.Length == |was| && dest[..] == Splice(was, start, done)
    modifies dest
    ensures next == at + |s| && dest[..] == Splice(was, start, done + s)
  {
    CopyBytes(dest, at, s);
    SpliceTwice(was, start, done, s);
    next := at + |s|;
  }

  method HeaderToU8(h: Header, dest: array<byte>) returns (n: int)
    requires HEADER_SIZE <= dest.Length
    modifies dest
    ensures n == HEADER_SIZE && dest[..] == Splice(old(dest[..]), 0, EncodeHeader(h))
  {
    hide Splice, PutU16;
    ghost var was := dest[..];
    SpliceNone(was, 0);
    PutLengths(h.id, 0);
    PutLengths(h.qdcount, 0);
    PutLengths(h.ancount, 0);
    PutLengths(h.nscount, 0);
    PutLengths(h.arcount, 0);
    var at := Emit(dest, 0, [], 0, PutU16(h.id), was);
    at := Emit(dest, 0, [] + PutU16(h.id), at, [h.misc1, h.misc2], was);
    ghost var done := [] + PutU16(h.id) + [h.misc1, h.misc2];
    at := Emit(dest, 0, done, at, PutU16(h.qdcount), was);
    at := Emit(dest, 0, done + PutU16(h.qdcount), at, PutU16(h.ancount), was);
    at := Emit(dest, 0, done + PutU16(h.qdcount) + PutU16(h.ancount), at, PutU16(h.nscount), was);
    at := Emit(dest, 0, done + PutU16(h.qdcount) + PutU16(h.ancount) + PutU16(h.nscount), at, PutU16(h.arcount), was);
    assert done + PutU16(h.qdcount) + PutU16(h.ancount) + PutU16(h.nscount) + PutU16(h.arcount) == EncodeHeader(h);
    return HEADER_SIZE;
  }

  lemma PutLengths(x: u16, y: u32)
    ensures |PutU16(x)| == 2 && |PutU32(y)| == 4
  {
  }

  method QuestionToU8(q: Question, dest: array<byte>, at: int) returns (n: int)
    requires QuestionPart(q).Some? ==> 0 <= at && at + |EncodeQuestion(q)| <= dest.Length
    modifies dest
    ensures n == Advance(QuestionPart(q))
    ensures dest[..] == if n == -1 then old(dest[..]) else Splice(old(dest[..]), at, EncodeQuestion(q))
  {
    hide Splice, PutU16;
    var lenQname := DomainLen(q.qname);
    if lenQname == -1 {
      return -1;
    }
    PutLengths(q.qtype, 0);
    PutLengths(q.qclass, 0);
    ghost var was, name := dest[..], q.qname + [0];
    SpliceNone(was, at);
    var next := Emit(dest, at, [], at, q.qname + [0], was);
    next := Emit(dest, at, [] + name, next, PutU16(q.qtype), was);
    next := Emit(dest, at, [] + name + PutU16(q.qtype), next, PutU16(q.qclass), was);
    assert [] + name + PutU16(q.qtype) + PutU16(q.qclass) == EncodeQuestion(q);
    return lenQname + 2 + 2;
  }

  method RrToU8(r: Record, dest: array<byte>, at: int) returns (n: int)
    requires |r.rdata| < 0x1_0000
    requires RecordPart(r).Some? ==> 0 <= at && at + |EncodeRecord(r)| <= dest.Length
    modifies dest
    ensures n == Advance(RecordPart(r))
    ensures dest[..] == if n == -1 then old(dest[..]) else Splice(old(dest[..]), at, EncodeRecord(r))
  {
    hide Splice, PutU16, PutU32;
    var lenName := DomainLen(r.name);
    if lenName == -1 {
      return -1;
    }
    PutLengths(r.rtype, r.ttl);
    PutLengths(r.cls, r.ttl);
    PutLengths(|r.rdata|, r.ttl);
    ghost var was, name := dest[..], r.name + [0];
    SpliceNone(was, at);
    var next := Emit(dest, at, [], at, r.name + [0], was);
    next := Emit(dest, at, [] + name, next, PutU16(r.rtype), was);
    next := Emit(dest, at, [] + name + PutU16(r.rtype), next, PutU16(r.cls), was);
    ghost var done := [] + name + PutU16(r.rtype) + PutU16(r.cls);
    next := Emit(dest, at, done, next, PutU32(r.ttl), was);
    next := Emit(dest, at, done + PutU32(r.ttl), next, PutU16(|r.rdata|), was);
    next := Emit(dest, at, done + PutU32(r.ttl) + PutU16(|r.rdata|), next, r.rdata, was);
    assert done + PutU32(r.ttl) + PutU16(|r.rdata|) + r.rdata == EncodeRecord(r);
    return lenName + 2 + 2 + 4 + 2 + |r.rdata|;
  }

  /** A count without its array: the printer gives up with -1. */
  predicate Missing<T(==)>(section: seq<T>, count: nat) {
    count > 0 && section == []
  }

  /** An array that is there has as many elements as its count says. */
  ghost predicate Counted<T>(section: seq<T>, count: nat) {
    section != [] ==> |section| >= count
  }

  ghost function Taken<T>(section: seq<T>, count: nat): seq<T> {
    if count <= |section| then section[..count] else []
  }

  method QuestionsToU8(qs: seq<Question>, count: nat, dest: array<byte>, start: int) returns (ok: bool, at: int)
    requires Counted(qs, count) && Safe(QuestionParts(Taken(qs, count)), start, dest.Length)
    modifies dest
    ensures ok <==> !Missing(qs, count)
    ensures at == CursorAfter(QuestionParts(Taken(qs, count)), start)
    ensures dest[..] == Image(old(dest[..]), QuestionParts(Taken(qs, count)), start)
  {
    hide QuestionPart, EncodeQuestion, Splice, DomainLen;
    at := start;
    if count > 0 && qs == [] {
      return false, at;
    }
    for i := 0 to count
      invariant Safe(QuestionParts(qs[..i]), start, dest.Length) && at == CursorAfter(QuestionParts(qs[..i]), start)
      invariant dest[..] == Image(old(dest[..]), QuestionParts(qs[..i]), start)
    {
      QuestionsPrefix(qs, i, count, start, dest.Length);
      QuestionPartIs(qs[i]);
      var tmp := QuestionToU8(qs[i], dest, at);
      at := at + tmp;
    }
    ok := true;
  }

  method RecordsToU8(rs: seq<Record>, count: nat, dest: array<byte>, start: int) returns (ok: bool, at: int)
    requires Counted(rs, count) && Sized(Taken(rs, count)) && Safe(RecordParts(Taken(rs, count)), start, dest.Length)
    modifies dest
    ensures ok <==> !Missing(rs, count)
    ensures at == CursorAfter(RecordParts(Taken(rs, count)), start)
    ensures dest[..] == Image(old(dest[..]), RecordParts(Taken(rs, count)), start)
  {
    hide RecordPart, EncodeRecord, Splice, DomainLen;
    at := start;
    if count > 0 && rs == [] {
      return false, at;
    }
    for i := 0 to count
      invariant Sized(rs[..i])
      invariant Safe(RecordParts(rs[..i]), start, dest.Length) && at == CursorAfter(RecordParts(rs[..i]), start)
      invariant dest[..] == Image(old(dest[..]), RecordParts(rs[..i]), start)
    {
      RecordsPrefix(rs, i, count, start, dest.Length);
      RecordPartIs(rs[i]);
      var tmp := RrToU8(rs[i], dest, at);
      at := at + tmp;
    }
    ok := true;
  }

  lemma {:induction false} QuestionsPrefix(qs: seq<Question>, i: nat, count: nat, at: int, capacity: nat)
    requires i < count <= |qs| && Safe(QuestionParts(qs[..count]), at, capacity)
    ensures Safe(QuestionParts(qs[..i + 1]), at, capacity)
    ensures var ps := QuestionParts(qs[..i + 1]); ps[..i] == QuestionParts(qs[..i]) && ps[i] == QuestionPart(qs[i])
    decreases count - i
  {
    assert qs[..i + 1][..i] == qs[..i];
    if i + 1 < count {
      assert qs[..count][..count - 1] == qs[..count - 1];
      QuestionsPrefix(qs, i, count - 1, at, capacity);
    }
  }

  lemma {:induction false} RecordsPrefix(rs: seq<Record>, i: nat, count: nat, at: int, capacity: nat)
    requires i < count <= |rs| && Sized(rs[..count]) && Safe(RecordParts(rs[..count]), at, capacity)
    ensures Sized(rs[..i + 1]) && Sized(rs[..i]) && Safe(RecordParts(rs[..i + 1]), at, capacity)
    ensures |rs[i].rdata| < 0x1_0000
    ensures var ps := RecordParts(rs[..i + 1]); ps[..i] == RecordParts(rs[..i]) && ps[i] == RecordPart(rs[i])
    decreases count - i
  {
    assert forall j :: 0 <= j <= i ==> rs[j] == rs[..count][j];
    assert rs[..i + 1][..i] == rs[..i];
    if i + 1 < count {
      assert rs[..count][..count - 1] == rs[..count - 1];
      assert Sized(rs[..count - 1]);
      RecordsPrefix(rs, i, count - 1, at, capacity);
    }
  }

  lemma QuestionPartIs(q: Question)
    ensures QuestionPart(q).Some? ==> QuestionPart(q).value == EncodeQuestion(q) && |EncodeQuestion(q)| >= 5
  {
  }

  lemma RecordPartIs(r: Record)
    requires |r.rdata| < 0x1_0000
    ensures RecordPart(r).Some? ==> RecordPart(r).value == EncodeRecord(r) && |EncodeRecord(r)| >= 11
  {
  }

  // ---------- whole messages ----------

  ghost predicate AnyMissing(m: Message) {
    || Missing(m.question, m.header.qdcount) || Missing(m.answer, m.header.ancount)
    || Missing(m.authority, m.header.nscount) || Missing(m.addition, m.header.arcount)
  }

  /** No section is missing and every array that is there is long enough. */
  ghost predicate Counts(m: Message) {
    WellCounted(m) && !AnyMissing(m)
  }

  ghost predicate WellCounted(m: Message) {
    && Counted(m.question, m.header.qdcount) && Counted(m.answer, m.header.ancount)
    && Counted(m.authority, m.header.nscount) && Counted(m.addition, m.header.arcount)
  }

  ghost function SectionParts(rs: seq<Record>, count: nat): seq<Part>
    requires Sized(rs)
  {
    TakenSized(rs, count);
    RecordParts(Taken(rs, count))
  }

  lemma TakenSized(rs: seq<Record>, count: nat)
    requires Sized(rs)
    ensures Sized(Taken(rs, count))
  {
  }

  /** The parts printed after the header, section by section. */
  ghost function Parts(m: Message): seq<Part>
    requires SizedMessage(m)
  {
    QuestionParts(Taken(m.question, m.header.qdcount)) + SectionParts(m.answer, m.header.ancount)
    + SectionParts(m.authority, m.header.nscount) + SectionParts(m.addition, m.header.arcount)
  }

  lemma {:induction false} SafeSplit(a: seq<Part>, b: seq<Part>, at: int, capacity: nat)
    requires Safe(a + b, at, capacity)
    ensures Safe(a, at, capacity) && Safe(b, CursorAfter(a, at), capacity)
    ensures CursorAfter(a + b, at) == CursorAfter(b, CursorAfter(a, at))
    decreases |b|
  {
    if b == [] {
      assert a + b == a;
    } else {
      var init := b[..|b| - 1];
      assert (a + b)[..|a + b| - 1] == a + init;
      SafeSplit(a, init, at, capacity);
    }
  }

  /** The buffer after all writes: the header, then every part where the cursor stood. */
  ghost function Written(m: Message, out: seq<byte>): (r: seq<byte>)
    requires SizedMessage(m) && HEADER_SIZE <= |out| && Safe(Parts(m), HEADER_SIZE, |out|)
    ensures |r| == |out|
  {
    HeaderLength(m.header);
    Image(Splice(out, 0, EncodeHeader(m.header)), Parts(m), HEADER_SIZE)
  }

  /** message_to_u8. */
  method MessageToU8(m: Message, dest: array<byte>) returns (n: int)
    requires SizedMessage(m) && WellCounted(m)
    requires HEADER_SIZE <= dest.Length && Safe(Parts(m), HEADER_SIZE, dest.Length)
    modifies dest
    ensures AnyMissing(m) ==> n == -1
    ensures !AnyMissing(m) ==>
              n == CursorAfter(Parts(m), HEADER_SIZE) && dest[..] == Written(m, old(dest[..]))
  {
    hide QuestionParts, RecordParts, CursorAfter, Safe, Image, Splice, Sized, EncodeHeader, Taken, Counted, Missing;
    ghost var q := QuestionParts(Taken(m.question, m.header.qdcount));
    ghost var a, s, r := SectionParts(m.answer, m.header.ancount), SectionParts(m.authority, m.header.nscount),
                         SectionParts(m.addition, m.header.arcount);
    SafeSplit(q + a + s, r, HEADER_SIZE, dest.Length);
    SafeSplit(q + a, s, HEADER_SIZE, dest.Length);
    SafeSplit(q, a, HEADER_SIZE, dest.Length);
    TakenSized(m.answer, m.header.ancount);
    TakenSized(m.authority, m.header.nscount);
    TakenSized(m.addition, m.header.arcount);
    var hsize := HeaderToU8(m.header, dest);
    ghost var out := dest[..];
    var ok, at := QuestionsToU8(m.question, m.header.qdcount, dest, hsize);
    if !ok {
      return -1;
    }
    ok, at := RecordsToU8(m.answer, m.header.ancount, dest, at);
    if !ok {
      return -1;
    }
    Appended(q, a, HEADER_SIZE, out);
    ok, at := RecordsToU8(m.authority, m.header.nscount, dest, at);
    if !ok {
      return -1;
    }
    Appended(q + a, s, HEADER_SIZE, out);
    ok, at := RecordsToU8(m.addition, m.header.arcount, dest, at);
    if !ok {
      return -1;
    }
    Appended(q + a + s, r, HEADER_SIZE, out);
    return at;
  }

  // ---------- when the output is the encoding ----------

  ghost predicate QuestionsFit(qs: seq<Question>) {
    forall i :: 0 <= i < |qs| ==> |qs[i].qname| < DOMAIN_LEN_MAX
  }

  ghost predicate RecordsFit(rs: seq<Record>) {
    forall i :: 0 <= i < |rs| ==> |rs[i].name| < DOMAIN_LEN_MAX
  }

  ghost predicate NamesFit(m: Message) {
    QuestionsFit(m.question) && RecordsFit(m.answer) && RecordsFit(m.authority) && RecordsFit(m.addition)
  }

  ghost predicate AllPrinted(ps: seq<Part>) {
    forall i :: 0 <= i < |ps| ==> ps[i].Some?
  }

  ghost function Flatten(ps: seq<Part>): seq<byte>
    requires AllPrinted(ps)
  {
    if ps == [] then [] else Flatten(ps[..|ps| - 1]) + ps[|ps| - 1].value
  }

  /** Without overlong names the writes line up without gaps or overlaps. */
  lemma {:induction false} ImagePlain(out: seq<byte>, ps: seq<Part>, at: nat)
    requires AllPrinted(ps) && at + |Flatten(ps)| <= |out|
    ensures CursorAfter(ps, at) == at + |Flatten(ps)| && Safe(ps, at, |out|)
    ensures Image(out, ps, at) == Splice(out, at, Flatten(ps))
  {
    if ps == [] {
      SpliceNone(out, at);
    } else {
      var init := ps[..|ps| - 1];
      ImagePlain(out, init, at);
      SpliceTwice(out, at, Flatten(init), ps[|ps| - 1].value);
    }
  }

  lemma FlattenSnoc(ps: seq<Part>, p: Part)
    requires AllPrinted(ps) && p.Some?
    ensures AllPrinted(ps + [p]) && Flatten(ps + [p]) == Flatten(ps) + p.value
  {
    assert (ps + [p])[..|ps|] == ps;
  }

  lemma FlattenNone()
    ensures AllPrinted([]) && Flatten([]) == []
  {
  }

  lemma {:induction false} FlattenConcat(a: seq<Part>, b: seq<Part>)
    requires AllPrinted(a) && AllPrinted(b)
    ensures AllPrinted(a + b) && Flatten(a + b) == Flatten(a) + Flatten(b)
    decreases |b|
  {
    hide Flatten;
    if b == [] {
      FlattenNone();
      assert a + b == a;
    } else {
      var init, last := b[..|b| - 1], b[|b| - 1];
      FlattenConcat(a, init);
      FlattenSnoc(init, last);
      FlattenSnoc(a + init, last);
      assert b == init + [last] && a + b == a + init + [last];
    }
  }

  lemma {:induction false} QuestionsFlatten(qs: seq<Question>)
    requires QuestionsFit(qs)
    ensures AllPrinted(QuestionParts(qs)) && Flatten(QuestionParts(qs)) == EncodeQuestions(qs)
  {
    hide EncodeQuestion, Flatten, AllPrinted;
    FlattenNone();
    if qs != [] {
      var init, last := qs[..|qs| - 1], qs[|qs| - 1];
      QuestionsFlatten(init);
      FlattenSnoc(QuestionParts(init), QuestionPart(last));
      EncodeQuestionsSnoc(init, last);
      assert qs == init + [last];
    }
  }

  lemma {:induction false} EncodeQuestionsSnoc(qs: seq<Question>, q: Question)
    ensures EncodeQuestions(qs + [q]) == EncodeQuestions(qs) + EncodeQuestion(q)
  {
    hide EncodeQuestion;
    if qs != [] {
      assert (qs + [q])[1..] == qs[1..] + [q];
      EncodeQuestionsSnoc(qs[1..], q);
    }
  }

  lemma {:induction false} RecordsFlatten(rs: seq<Record>)
    requires Sized(rs) && RecordsFit(rs)
    ensures AllPrinted(RecordParts(rs)) && Flatten(RecordParts(rs)) == EncodeRecords(rs)
  {
    hide EncodeRecord, Flatten, AllPrinted;
    FlattenNone();
    if rs != [] {
      var init, last := rs[..|rs| - 1], rs[|rs| - 1];
      RecordsFlatten(init);
      FlattenSnoc(RecordParts(init), RecordPart(last));
      EncodeRecordsSnoc(init, last);
      assert rs == init + [last];
    }
  }

  lemma {:induction false} EncodeRecordsSnoc(rs: seq<Record>, r: Record)
    requires Sized(rs) && |r.rdata| < 0x1_0000
    ensures Sized(rs + [r]) && EncodeRecords(rs + [r]) == EncodeRecords(rs) + EncodeRecord(r)
  {
    hide EncodeRecord;
    if rs != [] {
      assert (rs + [r])[1..] == rs[1..] + [r];
      EncodeRecordsSnoc(rs[1..], r);
    }
  }

  lemma TakenAll<T>(section: seq<T>, count: nat)
    requires |section| == count
    ensures Taken(section, count) == section
  {
  }

  lemma Regroup(h: seq<byte>, a: seq<byte>, b: seq<byte>, c: seq<byte>, d: seq<byte>)
    ensures h + (a + b + c + d) == h + (a + (b + (c + d)))
  {
  }

  lemma PartsFlatten(m: Message)
    requires SizedMessage(m) && NamesFit(m) && Complete(m)
    ensures AllPrinted(Parts(m)) && EncodeHeader(m.header) + Flatten(Parts(m)) == EncodeMessage(m)
  {
    hide QuestionParts, RecordParts, EncodeHeader, EncodeQuestions, EncodeRecords, Flatten, AllPrinted, Sized, Taken;
    TakenAll(m.question, m.header.qdcount);
    TakenAll(m.answer, m.header.ancount);
    TakenAll(m.authority, m.header.nscount);
    TakenAll(m.addition, m.header.arcount);
    var q, a, s, r := QuestionParts(m.question), RecordParts(m.answer), RecordParts(m.authority), RecordParts(m.addition);
    QuestionsFlatten(m.question);
    RecordsFlatten(m.answer);
    RecordsFlatten(m.authority);
    RecordsFlatten(m.addition);
    FlattenConcat(q, a);
    FlattenConcat(q + a, s);
    FlattenConcat(q + a + s, r);
    Regroup(EncodeHeader(m.header), Flatten(q), Flatten(a), Flatten(s), Flatten(r));
  }

  lemma SpliceFront(out: seq<byte>, s: seq<byte>)
    requires |s| <= |out|
    ensures Splice(out, 0, s)[..|s|] == s
  {
  }

  /** Names that fit leave the cursor where the encoding ends. */
  lemma PrintsCursor(m: Message, capacity: nat)
    requires SizedMessage(m) && NamesFit(m) && Complete(m) && |EncodeMessage(m)| <= capacity
    ensures Safe(Parts(m), HEADER_SIZE, capacity) && CursorAfter(Parts(m), HEADER_SIZE) == |EncodeMessage(m)|
  {
    hide Parts, CursorAfter, Safe, Image, EncodeHeader, EncodeMessage, Flatten, AllPrinted, SizedMessage, NamesFit, Complete;
    PartsFlatten(m);
    HeaderLength(m.header);
    ImagePlain(seq(capacity, _ => 0), Parts(m), HEADER_SIZE);
  }

  lemma WrittenPlain(m: Message, out: seq<byte>)
    requires SizedMessage(m) && NamesFit(m) && Complete(m) && HEADER_SIZE <= |EncodeMessage(m)| <= |out|
    requires Safe(Parts(m), HEADER_SIZE, |out|)
    ensures Written(m, out) == Splice(out, 0, EncodeMessage(m))
  {
    hide Parts, CursorAfter, Safe, Image, EncodeHeader, EncodeMessage, Flatten, AllPrinted, SizedMessage, NamesFit, Complete,
         Splice;
    PartsFlatten(m);
    HeaderLength(m.header);
    var h := EncodeHeader(m.header);
    SpliceLength(out, 0, h);
    var flat := Flatten(Parts(m));
    HeaderThen(out, h, flat, HEADER_SIZE);
    ImagePlain(Splice(out, 0, h), Parts(m), HEADER_SIZE);
  }

  lemma HeaderThen(out: seq<byte>, h: seq<byte>, rest: seq<byte>, n: nat)
    requires n == |h| && n + |rest| <= |out|
    ensures |Splice(out, 0, h)| == |out| && Splice(Splice(out, 0, h), n, rest) == Splice(out, 0, h + rest)
  {
    SpliceTwice(out, 0, h, rest);
  }

  /** A message whose counts match and whose names fit is printed as its encoding. */
  lemma PrintsEncoding(m: Message, out: seq<byte>)
    requires SizedMessage(m) && NamesFit(m) && Complete(m) && |EncodeMessage(m)| <= |out|
    ensures |EncodeMessage(m)| >= HEADER_SIZE && Safe(Parts(m), HEADER_SIZE, |out|)
    ensures Written(m, out)[..|EncodeMessage(m)|] == EncodeMessage(m)
  {
    hide Parts, CursorAfter, Safe, Written, EncodeMessage, SizedMessage, NamesFit, Complete, Splice;
    EncodingLength(m);
    PrintsCursor(m, |out|);
    WrittenPlain(m, out);
    SpliceFront(out, EncodeMessage(m));
  }

  // Every name that does not fit leaves the output short.

  lemma {:induction false} CursorAppend(a: seq<Part>, b: seq<Part>, at: int)
    ensures CursorAfter(a + b, at) == CursorAfter(b, CursorAfter(a, at))
    decreases |b|
  {
    if b == [] {
      assert a + b == a;
    } else {
      assert (a + b)[..|a + b| - 1] == a + b[..|b| - 1];
      CursorAppend(a, b[..|b| - 1], at);
    }
  }

  lemma {:induction false} QuestionsCursor(qs: seq<Question>, at: int)
    ensures CursorAfter(QuestionParts(qs), at) <= at + |EncodeQuestions(qs)|
    ensures CursorAfter(QuestionParts(qs), at) == at + |EncodeQuestions(qs)| <==> QuestionsFit(qs)
  {
    hide EncodeQuestion, QuestionPart;
    if qs != [] {
      var init, last := qs[..|qs| - 1], qs[|qs| - 1];
      QuestionsCursor(init, at);
      QuestionAdvance(last);
      EncodeQuestionsSnoc(init, last);
      assert qs == init + [last];
    }
  }

  lemma QuestionAdvance(q: Question)
    ensures Advance(QuestionPart(q)) <= |EncodeQuestion(q)|
    ensures Advance(QuestionPart(q)) == |EncodeQuestion(q)| <==> |q.qname| < DOMAIN_LEN_MAX
  {
  }

  lemma {:induction false} RecordsCursor(rs: seq<Record>, at: int)
    requires Sized(rs)
    ensures CursorAfter(RecordParts(rs), at) <= at + |EncodeRecords(rs)|
    ensures CursorAfter(RecordParts(rs), at) == at + |EncodeRecords(rs)| <==> RecordsFit(rs)
  {
    hide EncodeRecord, RecordPart;
    if rs != [] {
      var init, last := rs[..|rs| - 1], rs[|rs| - 1];
      RecordsCursor(init, at);
      RecordAdvance(last);
      EncodeRecordsSnoc(init, last);
      assert rs == init + [last];
    }
  }

  lemma RecordAdvance(r: Record)
    requires |r.rdata| < 0x1_0000
    ensures Advance(RecordPart(r)) <= |EncodeRecord(r)|
    ensures Advance(RecordPart(r)) == |EncodeRecord(r)| <==> |r.name| < DOMAIN_LEN_MAX
  {
  }

  /** The printer returns the length of the encoding exactly when all names fit, and less otherwise. */
  lemma CursorExact(m: Message)
    requires SizedMessage(m) && Complete(m)
    ensures CursorAfter(Parts(m), HEADER_SIZE) <= |EncodeMessage(m)|
    ensures CursorAfter(Parts(m), HEADER_SIZE) == |EncodeMessage(m)| <==> NamesFit(m)
  {
    hide QuestionParts, RecordParts, CursorAfter, EncodeHeader, EncodeQuestions, EncodeRecords, EncodeMessage, Sized, Taken,
         QuestionsFit, RecordsFit;
    EncodingLength(m);
    TakenAll(m.question, m.header.qdcount);
    TakenAll(m.answer, m.header.ancount);
    TakenAll(m.authority, m.header.nscount);
    TakenAll(m.addition, m.header.arcount);
    var q, a, s, r := QuestionParts(m.question), RecordParts(m.answer), RecordParts(m.authority), RecordParts(m.addition);
    CursorAppend(q + a + s, r, HEADER_SIZE);
    CursorAppend(q + a, s, HEADER_SIZE);
    CursorAppend(q, a, HEADER_SIZE);
    QuestionsCursor(m.question, HEADER_SIZE);
    var an := CursorAfter(q, HEADER_SIZE);
    RecordsCursor(m.answer, an);
    var ns := CursorAfter(a, an);
    RecordsCursor(m.authority, ns);
    RecordsCursor(m.addition, CursorAfter(s, ns));
  }

  /** The printer writes the encoding exactly when all names fit. */
  lemma PrintsEncodingExact(m: Message, out: seq<byte>)
    requires SizedMessage(m) && Complete(m) && HEADER_SIZE <= |out| && Safe(Parts(m), HEADER_SIZE, |out|)
    requires |EncodeMessage(m)| <= |out|
    ensures var n := CursorAfter(Parts(m), HEADER_SIZE);
            0 <= n <= |out| && Written(m, out)[..n] == EncodeMessage(m) <==> NamesFit(m)
  {
    hide Parts, CursorAfter, Safe, Written, EncodeMessage, SizedMessage, NamesFit, Complete;
    CursorExact(m);
    if NamesFit(m) {
      PrintsEncoding(m, out);
    }
  }

  lemma SpliceLength(out: seq<byte>, at: nat, s: seq<byte>)
    requires at + |s| <= |out|
    ensures |Splice(out, at, s)| == |out|
  {
  }

  // ---------- what the printer writes, read back ----------

  /** buf starts with the bytes message_to_u8 has written for m. */
  ghost predicate Receives(buf: seq<byte>, m: Message, out: seq<byte>)
    requires SizedMessage(m) && HEADER_SIZE <= |out| && Safe(Parts(m), HEADER_SIZE, |out|)
  {
    var n := CursorAfter(Parts(m), HEADER_SIZE);
    0 <= n <= |out| && At(buf, 0, Written(m, out)[..n])
  }

  /** When all names fit, what the printer writes parses back to the message if and only if the message
      is in parser form and its SOA fields recur. */
  lemma MessageRoundTrip(m: Message, out: seq<byte>, buf: seq<byte>)
    requires SizedMessage(m) && NamesFit(m) && |EncodeMessage(m)| <= |out|
    requires HEADER_SIZE <= |out| && Safe(Parts(m), HEADER_SIZE, |out|) && Receives(buf, m, out)
    ensures var n := CursorAfter(Parts(m), HEADER_SIZE);
            MessageReadable(buf, n) && MessageAt(buf, n) == Accepted(m) <==> ParserForm(m) && MessageRecurs(buf, m)
  {
    hide MessageReadable, MessageAt, EncodeMessage, SizedMessage, MessageRecurs, NamesFit, Parts, Safe, CursorAfter, Written,
         FaithfulQuestions, FaithfulRecords, Truncated;
    var n := CursorAfter(Parts(m), HEADER_SIZE);
    if ParserForm(m) {
      PrintsCursor(m, |out|);
      PrintsEncoding(m, out);
      EncodingRoundTrip(m, buf, n);
    } else if MessageReadable(buf, n) && MessageAt(buf, n) == Accepted(m) {
      ParsedMessage(buf, n);
    }
  }

  /** Decompression preserves meaning: what was parsed, compressed or not, and printed again parses the
      same, up to the rdata of SOA records whose fixed fields do not recur. */
  lemma ParsePrintParse(first: seq<byte>, size: nat, out: seq<byte>, buf: seq<byte>)
    requires MessageReadable(first, size) && MessageAt(first, size).Accepted?
    requires SizedMessage(MessageAt(first, size).msg) && NamesFit(MessageAt(first, size).msg)
    requires HEADER_SIZE <= |out| && |EncodeMessage(MessageAt(first, size).msg)| <= |out|
    requires Safe(Parts(MessageAt(first, size).msg), HEADER_SIZE, |out|)
    requires Receives(buf, MessageAt(first, size).msg, out) && MessageReaches(buf, MessageAt(first, size).msg)
    ensures var m := MessageAt(first, size).msg; var n := CursorAfter(Parts(m), HEADER_SIZE);
            && MessageReadable(buf, n) && MessageAt(buf, n).Accepted? && AgreesMessage(MessageAt(buf, n).msg, m)
            && (MessageAt(buf, n) == MessageAt(first, size) <==> MessageRecurs(buf, m))
            && (NoSoaMessage(m) ==> MessageAt(buf, n) == MessageAt(first, size))
  {
    hide MessageReadable, MessageAt, EncodeMessage, SizedMessage, MessageRecurs, MessageReaches, NamesFit, Parts, Safe,
         CursorAfter, Written, FaithfulQuestions, FaithfulRecords, Truncated, AgreesMessage, NoSoaMessage;
    var m := MessageAt(first, size).msg;
    ParsedMessage(first, size);
    PrintsCursor(m, |out|);
    PrintsEncoding(m, out);
    EncodedMessage(m, buf, |EncodeMessage(m)|);
    if NoSoaMessage(m) {
      NoSoaRecursMessage(buf, m);
    }
  }

  /** A message of one question whose name is over 254 bytes is printed as 11 bytes, which no parser accepts. */
  lemma OverlongQuestionLost(m: Message, buf: seq<byte>)
    requires |m.question| == m.header.qdcount == 1 && |m.question[0].qname| >= DOMAIN_LEN_MAX
    requires m.answer == [] && m.authority == [] && m.addition == []
    requires m.header.ancount == m.header.nscount == m.header.arcount == 0
    ensures SizedMessage(m) && Counts(m) && Parts(m) == [None]
    ensures CursorAfter(Parts(m), HEADER_SIZE) == HEADER_SIZE - 1
    ensures forall capacity :: Safe(Parts(m), HEADER_SIZE, capacity)
    ensures MessageReadable(buf, HEADER_SIZE - 1) && MessageAt(buf, HEADER_SIZE - 1) == Rejected
  {
    assert m.question[..1] == [m.question[0]];
    assert m.question[..1][..0] == [];
  }

  /** These bytes are the header without its last one. */
  lemma OverlongWritten(m: Message, out: seq<byte>)
    requires SizedMessage(m) && HEADER_SIZE <= |out| && Parts(m) == [None] && Safe(Parts(m), HEADER_SIZE, |out|)
    ensures Written(m, out)[..HEADER_SIZE - 1] == EncodeHeader(m.header)[..HEADER_SIZE - 1]
  {
    hide Parts, SizedMessage;
    var ps: seq<Part> := [None];
    assert ps[..0] == [];
    HeaderLength(m.header);
    assert Image(Splice(out, 0, EncodeHeader(m.header)), ps, HEADER_SIZE) == Splice(out, 0, EncodeHeader(m.header));
  }

  /** Such a message can be in parser form: the parser itself reads names of up to 511 bytes. */
  lemma OverlongCounterexample()
    ensures var m := Message(Header(7, 0, 0, 1, 0, 0, 0), [Question(seq(300, _ => 1), 1, 1)], [], [], []);
            ParserForm(m) && SizedMessage(m) && !NamesFit(m) && CursorAfter(Parts(m), HEADER_SIZE) == 11
  {
    var m := Message(Header(7, 0, 0, 1, 0, 0, 0), [Question(seq(300, _ => 1), 1, 1)], [], [], []);
    assert |m.question[0].qname| == 300;
    OverlongQuestionLost(m, []);
  }
}
