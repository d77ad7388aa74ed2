/** Answering a query from the cache or the database, down to the bytes of the reply. */
module Resolve {
  import opened Bytes
  import opened Names
  import opened Messages
  import opened Decompress
  import opened Codec
  import opened Printer
  import opened CacheModel
  import opened CacheRuns
  import opened Cache
  import opened Clients
  import D = Database

  const RCODE_NO_ERROR: byte := 0
  const RCODE_FORMAT_ERROR: byte := 1
  const ANCOUNT_MAX := 100

  /** Bit fields of the second header word; each argument is masked to its width. */
  function CreateMisc1(qr: byte, opcode: byte, aa: byte, tc: byte, rd: byte): byte {
    (qr % 2) * 128 + (opcode % 16) * 8 + (aa % 2) * 4 + (tc % 2) * 2 + rd % 2
  }

  function CreateMisc2(ra: byte, z: byte, rcode: byte): byte {
    (ra % 2) * 128 + (z % 8) * 16 + rcode % 16
  }

  function Qr(misc1: byte): byte {
    misc1 / 128
  }

  function Opcode(misc1: byte): byte {
    (misc1 / 8) % 16
  }

  function Rcode(misc2: byte): byte {
    misc2 % 16
  }

  /** check_blocked: the first four bytes of the rdata are zero. */
  predicate Blocked(rr: Record)
    requires |rr.rdata| >= 4
  {
    rr.rdata[..4] == [0, 0, 0, 0]
  }

  // ---------- what the answer is to be ----------

  /** Database records carry addresses, so a blocked one can be recognised. */
  ghost predicate Checkable(rs: seq<Record>) {
    forall i :: 0 <= i < |rs| ==> |rs[i].rdata| >= 4
  }

  ghost predicate AnyBlocked(rs: seq<Record>)
    requires Checkable(rs)
  {
    exists i :: 0 <= i < |rs| && Blocked(rs[i])
  }

  ghost function CacheAnswers(items: seq<Item>, q: Question): seq<Record> {
    RecordsOf(Hits(items, q.qname, q.qtype, q.qclass))
  }

  /** Cache matches if there are any, else the database records, or none if one of them is blocked. */
  ghost function LocalAnswers(items: seq<Item>, log: seq<Record>, q: Question): seq<Record>
    requires CacheAnswers(items, q) == [] ==> Checkable(D.Scan(log, q.qname, q.qtype))
  {
    var hits, stored := CacheAnswers(items, q), D.Scan(log, q.qname, q.qtype);
    if hits != [] then hits else if AnyBlocked(stored) then [] else stored
  }

  /** Neither the cache nor the database knows the name. */
  ghost predicate Unknown(items: seq<Item>, log: seq<Record>, q: Question) {
    CacheAnswers(items, q) == [] && D.Scan(log, q.qname, q.qtype) == []
  }

  /** The header prepared before anything is looked up. */
  function Prepared(query: Message, rcode: byte): Header {
    Header(query.header.id, CreateMisc1(1, 0, 1, 0, 0), CreateMisc2(0, 0, rcode), 0, 0, 0, 0)
  }

  function Reply(query: Message, answers: seq<Record>, rcode: byte): Message
    requires |query.question| < 0x1_0000 && |answers| < 0x1_0000
  {
    Message(Prepared(query, rcode).(qdcount := |query.question|, ancount := |answers|), query.question, answers, [], [])
  }

  datatype Outcome = Malformed | Upstream | Replied(size: int)

  /** What a lookup needs: a name the database walk can take apart and stored addresses it can check and
      print, and at most 100 answers. */
  ghost predicate Answerable(items: seq<Item>, log: seq<Record>, q: Question) {
    && (CacheAnswers(items, q) == [] ==>
          && WellFormed(q.qname) && Checkable(D.Scan(log, q.qname, q.qtype))
          && FaithfulRecords(D.Scan(log, q.qname, q.qtype)))
    && |LocalAnswers(items, log, q)| <= ANCOUNT_MAX
  }

  ghost predicate TooLong(query: Message) {
    query.question != [] && |query.question[0].qname| >= DOMAIN_LEN_MAX
  }

  /** A standard query with a question to look up. */
  predicate LooksUp(query: Message) {
    && Qr(query.header.misc1) == 0 && Opcode(query.header.misc1) == 0
    && query.question != [] && |query.question[0].qname| < DOMAIN_LEN_MAX
  }

  /** Another kind of query than a standard one, or a name neither the cache nor the database knows. */
  ghost predicate AsksUpstream(items: seq<Item>, log: seq<Record>, query: Message) {
    && Qr(query.header.misc1) == 0
    && (Opcode(query.header.misc1) != 0 || (LooksUp(query) && Unknown(items, log, query.question[0])))
  }

  ghost predicate LookupReady(items: seq<Item>, log: seq<Record>, query: Message) {
    LooksUp(query) ==> Answerable(items, log, query.question[0])
  }

  /** The answer section of the reply to a query with at most one question. */
  ghost function AnswerSection(items: seq<Item>, log: seq<Record>, query: Message): seq<Record>
    requires LookupReady(items, log, query)
  {
    if LooksUp(query) then LocalAnswers(items, log, query.question[0]) else []
  }

  /** The reply that is made without upstream. */
  ghost function LocalReply(items: seq<Item>, log: seq<Record>, query: Message): Message
    requires LookupReady(items, log, query) && |query.question| < 0x1_0000
  {
    Reply(query, AnswerSection(items, log, query), RCODE_NO_ERROR)
  }

  ghost predicate Carried(answers: seq<Record>) {
    |answers| <= ANCOUNT_MAX && FaithfulRecords(answers) && RecordsFit(answers)
  }

  // ---------- the reply on the wire ----------

  ghost predicate Fits(m: Message, capacity: nat) {
    SizedMessage(m) && |EncodeMessage(m)| <= capacity
  }

  /** A reader gets the message, up to the rdata of SOA records. */
  ghost predicate Gets(buf: seq<byte>, size: nat, m: Message) {
    && MessageReadable(buf, size) && MessageAt(buf, size).Accepted? && AgreesMessage(MessageAt(buf, size).msg, m)
    && (NoSoaMessage(m) ==> MessageAt(buf, size).msg == m)
  }

  /** Whoever receives the bytes gets the message; with SOA records the receive buffer needs 512 bytes to spare. */
  ghost predicate Delivers(sent: seq<byte>, m: Message) {
    forall buf :: At(buf, 0, sent) && (NoSoaMessage(m) || |sent| + RR_BUF_SIZE <= |buf|) ==> Gets(buf, |sent|, m)
  }

  /** Whoever receives the bytes rejects them. */
  ghost predicate Repels(sent: seq<byte>) {
    forall buf :: At(buf, 0, sent) ==> MessageReadable(buf, |sent|) && MessageAt(buf, |sent|) == Rejected
  }

  lemma EncodingDelivers(m: Message)
    requires SizedMessage(m) && ParserForm(m)
    ensures Delivers(EncodeMessage(m), m)
  {
    hide SizedMessage, ParserForm, EncodeMessage, At, MessageReadable, MessageAt, NoSoaMessage, MessageReaches, MessageRecurs,
         AgreesMessage;
    var sent := EncodeMessage(m);
    EncodingLength(m);
    forall buf | At(buf, 0, sent) && (NoSoaMessage(m) || |sent| + RR_BUF_SIZE <= |buf|)
      ensures Gets(buf, |sent|, m)
    {
      if NoSoaMessage(m) {
        NoSoaRecursMessage(buf, m);
        RecursMessage(buf, m);
      } else {
        SlackReachesMessage(buf, m);
      }
      EncodedMessage(m, buf, |sent|);
    }
  }

  lemma TruncatedRepels(m: Message)
    requires SizedMessage(m) && Truncated(m.header)
    ensures Repels(EncodeMessage(m))
  {
    hide SizedMessage, SectionsReadable, EncodeMessage, HeaderAt, At, Truncated;
    var sent := EncodeMessage(m);
    EncodingLength(m);
    forall buf | At(buf, 0, sent)
      ensures MessageReadable(buf, |sent|) && MessageAt(buf, |sent|) == Rejected
    {
      MessageFields(m, buf);
    }
  }

  lemma CompleteCounts(m: Message)
    requires Complete(m)
    ensures Counts(m)
  {
  }

  /** A message whose counts match and whose names fit is sent as its encoding. It is delivered if it is in
      parser form, and rejected by every reader if its TC bit is set. */
  method SendMessage(m: Message, sendbuf: array<byte>) returns (n: int)
    requires Fits(m, sendbuf.Length) && NamesFit(m) && Complete(m)
    requires Truncated(m.header) || ParserForm(m)
    modifies sendbuf
    ensures HEADER_SIZE <= n <= sendbuf.Length && sendbuf[..n] == EncodeMessage(m)
    ensures if Truncated(m.header) then Repels(sendbuf[..n]) else Delivers(sendbuf[..n], m)
  {
    hide SizedMessage, ParserForm, NamesFit, Complete, AnyMissing, WellCounted, EncodeMessage, Parts, CursorAfter, Safe,
         Written, Truncated, Delivers, Repels;
    CompleteCounts(m);
    PrintsCursor(m, sendbuf.Length);
    PrintsEncoding(m, sendbuf[..]);
    n := MessageToU8(m, sendbuf);
    assert sendbuf[..n] == sendbuf[..][..n];
    if Truncated(m.header) {
      TruncatedRepels(m);
    } else {
      EncodingDelivers(m);
    }
  }

  lemma ReplyWire(query: Message, answers: seq<Record>)
    requires |query.question| <= 1 && FaithfulQuestions(query.question) && !TooLong(query) && Carried(answers)
    ensures var m := Reply(query, answers, RCODE_NO_ERROR);
            NamesFit(m) && Complete(m) && ParserForm(m)
  {
    hide FaithfulQuestion, FaithfulRecord, Truncated, CreateMisc1, CreateMisc2, Qr, Opcode, Rcode;
    ReplyHeader(query, answers, RCODE_NO_ERROR);
  }

  lemma FormNotTruncated(m: Message)
    requires ParserForm(m)
    ensures !Truncated(m.header)
  {
  }

  method SendReply(query: Message, answers: seq<Record>, sendbuf: array<byte>) returns (n: int)
    requires |query.question| <= 1 && FaithfulQuestions(query.question) && !TooLong(query) && Carried(answers)
    requires Fits(Reply(query, answers, RCODE_NO_ERROR), sendbuf.Length)
    modifies sendbuf
    ensures var m := Reply(query, answers, RCODE_NO_ERROR);
            HEADER_SIZE <= n <= sendbuf.Length && sendbuf[..n] == EncodeMessage(m) && Delivers(sendbuf[..n], m)
  {
    hide SizedMessage, ParserForm, NamesFit, Complete, EncodeMessage, Carried, Truncated, Qr, Opcode, Rcode, CreateMisc1,
         CreateMisc2, Delivers, Repels;
    ReplyWire(query, answers);
    FormNotTruncated(Reply(query, answers, RCODE_NO_ERROR));
    n := SendMessage(Reply(query, answers, RCODE_NO_ERROR), sendbuf);
  }

  /** An overlong question name makes the printer return 11 bytes: one less than a header. */
  method SendFormatError(query: Message, sendbuf: array<byte>) returns (n: int)
    requires |query.question| == 1 && TooLong(query) && HEADER_SIZE <= sendbuf.Length
    modifies sendbuf
    ensures n == HEADER_SIZE - 1 && sendbuf[..n] == FormatErrorBytes(query.header.id) && Repels(sendbuf[..n])
  {
    hide SizedMessage, WellCounted, AnyMissing, Parts, CursorAfter, Safe, Written, EncodeHeader, CreateMisc1, CreateMisc2;
    var m := Reply(query, [], RCODE_FORMAT_ERROR);
    OverlongQuestionLost(m, []);
    OverlongWritten(m, sendbuf[..]);
    FormatErrorHeader(query);
    n := MessageToU8(m, sendbuf);
    assert sendbuf[..n] == sendbuf[..][..n];
  }

  lemma FormatErrorHeader(query: Message)
    requires |query.question| == 1
    ensures var h := EncodeHeader(Reply(query, [], RCODE_FORMAT_ERROR).header);
            |h| == HEADER_SIZE && h[..HEADER_SIZE - 1] == FormatErrorBytes(query.header.id)
  {
    hide Qr, Opcode, Rcode, Truncated;
    assert CreateMisc1(1, 0, 1, 0, 0) == 132;
    assert CreateMisc2(0, 0, 1) == 1;
  }

  /** A reply carries the query's id, QR set, opcode 0, TC clear and the given code. */
  lemma ReplyHeader(query: Message, answers: seq<Record>, rcode: byte)
    requires |query.question| < 0x1_0000 && |answers| < 0x1_0000 && rcode < 16
    ensures var h := Reply(query, answers, rcode).header;
            h.id == query.header.id && Qr(h.misc1) == 1 && Opcode(h.misc1) == 0 && !Truncated(h) && Rcode(h.misc2) == rcode
  {
    assert CreateMisc1(1, 0, 1, 0, 0) == 132;
    assert CreateMisc2(0, 0, rcode) == rcode;
  }

  // ---------- resolving ----------

  /** Put every found record back, in the order it was found. */
  method PutBack(cache: RrCache, found: seq<Record>, now: int, ghost hits: seq<Item>)
    requires cache.Valid() && found == RecordsOf(hits) && forall i :: 0 <= i < |hits| ==> Named(hits[i].rr)
    modifies cache, set n | n in cache.chain
    ensures cache.Valid() && cache.items == AfterPuts(old(cache.items), hits, now)
    ensures cache.history == old(cache.history) + Puts(found, now)
    ensures forall n :: n in cache.chain ==> n in old(cache.chain) || fresh(n)
  {
    hide AfterPut, RrCache.Shape, After;
    RecordsOfIndex(hits);
    assert hits[0..] == hits;
    for j := 0 to |found|
      invariant cache.Valid()
      invariant AfterPuts(cache.items, hits[j..], now) == AfterPuts(old(cache.items), hits, now)
      invariant cache.history == old(cache.history) + Puts(found[..j], now)
      invariant forall n :: n in cache.chain ==> n in old(cache.chain) || fresh(n)
    {
      assert hits[j..][1..] == hits[j + 1..];
      assert found[..j + 1][..j] == found[..j];
      cache.PutRr(found[j], now);
    }
    assert found[..|found|] == found;
  }

  lemma {:induction false} NoHits(s: seq<Item>, name: seq<byte>, rtype: u16, cls: u16)
    requires Hits(s, name, rtype, cls) == []
    ensures Misses(s, name, rtype, cls) == s
  {
    if s != [] {
      NoHits(s[1..], name, rtype, cls);
    }
  }

  /** The cache after a lookup: hits first, last found first; everything else in its old order. */
  ghost function Reordered(items: seq<Item>, q: Question): seq<Item> {
    Backwards(Hits(items, q.qname, q.qtype, q.qclass)) + Misses(items, q.qname, q.qtype, q.qclass)
  }

  /** Re-putting what a cache lookup found. */
  method PutFound(q: Question, found: seq<Record>, cache: RrCache, now: int)
    requires cache.Valid() && found == CacheAnswers(cache.items, q)
    modifies cache, set n | n in cache.chain
    ensures cache.Valid() && cache.items == Reordered(old(cache.items), q)
    ensures cache.history == old(cache.history) + Puts(found, now)
    ensures forall n :: n in cache.chain ==> n in old(cache.chain) || fresh(n)
  {
    hide After, DoublyLinked, Hits, Misses, Backwards, AfterPuts;
    ghost var s := cache.items;
    ghost var hits := Hits(s, q.qname, q.qtype, q.qclass);
    HitsAnswer(s, q.qname, q.qtype, q.qclass);
    assert forall i :: 0 <= i < |hits| ==> hits[i] in s;
    RecordsOfIndex(hits);
    OrderIsRecency(cache.history);
    assert [] + s == s;
    HitPermutes([], s, q.qname, q.qtype, q.qclass, now);
    assert Backwards(hits) + [] == Backwards(hits);
    PutBack(cache, found, now, hits);
  }

  method FindCached(q: Question, cache: RrCache) returns (found: seq<Record>)
    requires cache.Valid() && ZeroFree(q.qname)
    ensures found == CacheAnswers(cache.items, q)
  {
    hide After, DoublyLinked, Hits;
    found := cache.FindRr(q.qname, q.qtype, q.qclass);
  }

  lemma NotReordered(items: seq<Item>, q: Question)
    requires CacheAnswers(items, q) == []
    ensures Reordered(items, q) == items
  {
    RecordsOfIndex(Hits(items, q.qname, q.qtype, q.qclass));
    NoHits(items, q.qname, q.qtype, q.qclass);
  }

  /** A single blocked record blocks the name. */
  method Unblocked(stored: seq<Record>) returns (answers: seq<Record>)
    requires Checkable(stored)
    ensures answers == if Blocks(stored) then [] else stored
  {
    BlockedMeans(stored);
    for i := 0 to |stored|
      invariant forall j :: 0 <= j < i ==> !Blocked(stored[j])
    {
      if Blocked(stored[i]) {
        return [];
      }
    }
    return stored;
  }

  /** Only records in parser form were ever put. */
  ghost predicate FaithfulHistory(h: seq<Event>) {
    forall i :: 0 <= i < |h| && h[i].Put? ==> FaithfulRecord(h[i].rr)
  }

  /** Then only such records are cached, whatever the run: aging changes nothing but the ttl. */
  lemma {:induction false} FaithfulCache(h: seq<Event>, x: Item)
    requires FaithfulHistory(h) && x in After(h)
    ensures FaithfulRecord(x.rr)
  {
    hide FaithfulRecord, IndexOf, AfterPut, Alive;
    NotEmpty(h, x);
    var init, e := h[..|h| - 1], h[|h| - 1];
    var s, y := After(init), x;
    if e.Put? {
      PutMembers(s, e.rr, e.now, x);
    } else {
      AliveFrom(s, e.now);
      assert StemsFrom(x, s, e.now);
      var j :| 0 <= j < |s| && x == Aged(s[j], e.now) && s[j].expire > e.now;
      y := s[j];
    }
    if y in s {
      FaithfulCache(init, y);
      FaithfulTtl(y.rr, x.rr.ttl);
    }
  }

  lemma FaithfulTtl(r: Record, ttl: u32)
    ensures FaithfulRecord(r.(ttl := ttl)) == FaithfulRecord(r)
  {
  }

  lemma FaithfulPuts(h: seq<Event>, rs: seq<Record>, now: int)
    requires FaithfulHistory(h) && FaithfulRecords(rs)
    ensures FaithfulHistory(h + Puts(rs, now))
  {
    hide FaithfulRecord, Puts;
    PutsIndex(rs, now);
  }

  /** Every local answer has the question's own name and can be put on the wire. */
  lemma AnswersCarried(history: seq<Event>, log: seq<Record>, q: Question)
    requires FaithfulHistory(history) && |q.qname| < DOMAIN_LEN_MAX && Answerable(After(history), log, q)
    ensures Carried(LocalAnswers(After(history), log, q))
    ensures forall r :: r in LocalAnswers(After(history), log, q) ==> r.name == q.qname && r.rtype == q.qtype
  {
    hide Hits, RecordsOf, D.Scan, FaithfulRecord, AnyBlocked, Checkable, WellFormed, After, FaithfulHistory;
    var items := After(history);
    var rs, hits := LocalAnswers(items, log, q), Hits(items, q.qname, q.qtype, q.qclass);
    HitsAnswer(items, q.qname, q.qtype, q.qclass);
    RecordsOfIndex(hits);
    ScanNames(log, q.qname, q.qtype);
    forall i | 0 <= i < |rs|
      ensures rs[i].name == q.qname && rs[i].rtype == q.qtype && FaithfulRecord(rs[i])
    {
      if CacheAnswers(items, q) != [] {
        assert hits[i] in hits;
        FaithfulCache(history, hits[i]);
      } else {
        assert rs[i] in D.Scan(log, q.qname, q.qtype);
      }
    }
  }

  lemma ScanNames(log: seq<Record>, name: seq<byte>, rtype: u16)
    ensures forall r :: r in D.Scan(log, name, rtype) ==> r.name == name && r.rtype == rtype
  {
    D.MatchingMembers(log, name, rtype);
    D.DedupedExact(D.Matching(log, name, rtype));
  }

  // ---------- the reply seen from outside ----------

  /** Upstream is asked about every query with another opcode, and about a name of at most 254 bytes that is
      neither cached nor stored. */
  lemma AsksUpstreamExact(items: seq<Item>, log: seq<Record>, query: Message)
    ensures AsksUpstream(items, log, query) <==>
            && query.header.misc1 < 128
            && ((query.header.misc1 / 8) % 16 != 0 ||
                (query.question != [] && |query.question[0].qname| < 255
                 && (forall i :: 0 <= i < |items| ==> !CachedFor(items[i], query.question[0]))
                 && D.Scan(log, query.question[0].qname, query.question[0].qtype) == []))
  {
    hide CacheAnswers, D.Scan, CachedFor;
    if query.question != [] {
      AgreesSelf(CacheAnswers(items, query.question[0]));
      CacheMeans(CacheAnswers(items, query.question[0]), items, query.question[0]);
    }
  }

  lemma BlockedMeans(rs: seq<Record>)
    requires Checkable(rs)
    ensures AnyBlocked(rs) <==> Blocks(rs)
  {
    forall i | 0 <= i < |rs|
      ensures Blocked(rs[i]) <==> ZeroAddress(rs[i].rdata)
    {
      assert ZeroAddress(rs[i].rdata) ==> rs[i].rdata[..4] == [0, 0, 0, 0];
      assert Blocked(rs[i]) ==> forall k :: 0 <= k < 4 ==> rs[i].rdata[k] == rs[i].rdata[..4][k];
    }
    if AnyBlocked(rs) {
      var i :| 0 <= i < |rs| && Blocked(rs[i]);
      assert ZeroAddress(rs[i].rdata);
    }
    if Blocks(rs) {
      var i :| 0 <= i < |rs| && ZeroAddress(rs[i].rdata);
      assert Blocked(rs[i]);
    }
  }

  lemma CacheMeans(got: seq<Record>, items: seq<Item>, q: Question)
    requires SectionAgrees(got, CacheAnswers(items, q))
    ensures FromCache(got, items, q)
    ensures CacheAnswers(items, q) != [] <==> exists i :: 0 <= i < |items| && CachedFor(items[i], q)
  {
    hide Agrees, Hits, RecordsOf;
    var hits := Hits(items, q.qname, q.qtype, q.qclass);
    var idx := HitsInOrder(items, q.qname, q.qtype, q.qclass);
    RecordsOfIndex(hits);
    assert AgreesAt(got, items, idx);
    if idx != [] {
      assert idx[0] in idx && CachedFor(items[idx[0]], q);
    }
  }

  /** What agrees with the local answers is the answer due. */
  lemma AnswerMeans(got: seq<Record>, items: seq<Item>, log: seq<Record>, q: Question)
    requires Answerable(items, log, q) && SectionAgrees(got, LocalAnswers(items, log, q))
    ensures IsAnswer(got, items, log, q)
  {
    hide CacheAnswers, D.Scan, FaithfulRecords, WellFormed, Checkable, AnyBlocked, Blocks, FromCache, CachedFor;
    var hits, stored := CacheAnswers(items, q), D.Scan(log, q.qname, q.qtype);
    AgreesSelf(hits);
    CacheMeans(if hits != [] then got else hits, items, q);
    if hits == [] {
      BlockedMeans(stored);
      if !AnyBlocked(stored) {
        StoredNotSoa(log, q);
        NoSoaAgrees(got, stored);
      }
    }
  }

  lemma AgreesSelf(rs: seq<Record>)
    ensures SectionAgrees(rs, rs)
  {
  }

  /** The database holds no SOA records. */
  lemma StoredNotSoa(log: seq<Record>, q: Question)
    ensures NoSoa(D.Scan(log, q.qname, q.qtype))
  {
    ScanNames(log, q.qname, q.qtype);
    var rs := D.Scan(log, q.qname, q.qtype);
    assert forall i :: 0 <= i < |rs| ==> rs[i] in rs;
  }

  /** Whoever gets the local reply gets what is due. */
  lemma DeliveredReply(sent: seq<byte>, history: seq<Event>, log: seq<Record>, query: Message)
    requires FaithfulHistory(history) && |query.question| <= 1 && (query.question != [] ==> LooksUp(query))
    requires LookupReady(After(history), log, query) && Delivers(sent, LocalReply(After(history), log, query))
    ensures RepliesTo(sent, After(history), log, query)
  {
    hide At, MessageReadable, MessageAt, LocalAnswers, Carried, FaithfulHistory, After, CreateMisc1, CreateMisc2, SectionAgrees,
         IsAnswer, D.Scan, CacheAnswers, WellFormed, Checkable;
    var m := LocalReply(After(history), log, query);
    PreparedBits(query);
    if query.question != [] {
      var q := query.question[0];
      AnswersCarried(history, log, q);
      assert forall i :: 0 <= i < |m.answer| ==> m.answer[i] in LocalAnswers(After(history), log, q);
    }
    forall buf | At(buf, 0, sent) && (query.question == [] || query.question[0].qtype != 6 || |sent| + 512 <= |buf|)
      ensures MessageReadable(buf, |sent|) && MessageAt(buf, |sent|).Accepted?
      ensures IsReply(MessageAt(buf, |sent|).msg, After(history), log, query)
    {
      assert Gets(buf, |sent|, m);
      var got := MessageAt(buf, |sent|).msg;
      AgreesLength(got.answer, m.answer);
      AgreesLength(got.authority, m.authority);
      AgreesLength(got.addition, m.addition);
      if query.question != [] {
        AnswerMeans(got.answer, After(history), log, query.question[0]);
      }
    }
  }

  lemma AgreesLength(got: seq<Record>, rs: seq<Record>)
    requires SectionAgrees(got, rs)
    ensures |got| == |rs|
  {
  }

  lemma PreparedBits(query: Message)
    ensures Prepared(query, RCODE_NO_ERROR).misc1 == 0x84 && Prepared(query, RCODE_NO_ERROR).misc2 == 0
  {
    hide Qr, Opcode, Rcode, Truncated;
    assert CreateMisc1(1, 0, 1, 0, 0) == 132;
    assert CreateMisc2(0, 0, 0) == 0;
  }

  /** What every query finds and leaves behind: a valid cache that holds parsed records only, a valid
      database, and no memory shared between the cache, the database and the send buffer. */
  ghost predicate Ready(cache: RrCache, db: D.Store, sendbuf: array<byte>)
    reads cache, cache.chain, db, db.tree, db.tree.repr
  {
    && cache.Valid() && FaithfulHistory(cache.history) && db.Valid() && HEADER_SIZE <= sendbuf.Length
    && cache !in db.tree.repr && sendbuf !in db.tree.repr && forall n :: n in cache.chain ==> n !in db.tree.repr
  }

  /** resolv_handle up to the point where upstream is needed. */
  method ResolvHandle(query: Message, cache: RrCache, db: D.Store, sendbuf: array<byte>, now: int) returns (out: Outcome)
    requires Ready(cache, db, sendbuf)
    requires query.header.qdcount == |query.question| <= 1 && FaithfulQuestions(query.question)
    requires LookupReady(cache.items, db.log, query)
    requires AsksUpstream(cache.items, db.log, query) || Fits(LocalReply(cache.items, db.log, query), sendbuf.Length)
    modifies cache, sendbuf, set n | n in cache.chain
    ensures Ready(cache, db, sendbuf) && db.log == old(db.log)
    ensures forall n :: n in cache.chain ==> n in old(cache.chain) || fresh(n)
    ensures out == Malformed <==> query.header.misc1 >= 128
    ensures out == Upstream <==> AsksUpstream(old(cache.items), db.log, query)
    ensures out.Replied? && !TooLong(query) ==>
            var m := LocalReply(old(cache.items), db.log, query);
            && HEADER_SIZE <= out.size <= sendbuf.Length && sendbuf[..out.size] == EncodeMessage(m)
            && Delivers(sendbuf[..out.size], m)
    ensures out.Replied? && !TooLong(query) ==> RepliesTo(sendbuf[..out.size], old(cache.items), db.log, query)
    ensures out.Replied? && TooLong(query) ==>
            && out.size == HEADER_SIZE - 1 && sendbuf[..out.size] == FormatErrorBytes(query.header.id)
            && Repels(sendbuf[..out.size])
    ensures cache.items ==
            if LooksUp(query) then Reordered(old(cache.items), query.question[0]) else old(cache.items)
    ensures cache.history == old(cache.history) +
            if LooksUp(query) then Puts(CacheAnswers(old(cache.items), query.question[0]), now) else []
  {
    hide EncodeMessage, Delivers, Repels, Reply, CacheAnswers, D.Scan, D.Store.Valid, RrCache.Shape, After,
         Sized, Carried, WellFormed, Clean, Reordered, AnyBlocked, Checkable, FaithfulRecords, FaithfulHistory, Puts, RepliesTo;
    if Qr(query.header.misc1) != 0 {
      return Malformed;
    }
    if Opcode(query.header.misc1) != 0 {
      return Upstream;
    }
    var answers: seq<Record> := [];
    if |query.question| == 1 {
      var q := query.question[0];
      if DomainLen(q.qname) < 0 {
        var n := SendFormatError(query, sendbuf);
        return Replied(n);
      }
      AnswersCarried(cache.history, db.log, q);
      CleanIsZeroFree(q.qname);
      var found := FindCached(q, cache);
      if found != [] {
        answers := found;
        CarriedFaithful(found);
        FaithfulPuts(cache.history, found, now);
        PutFound(q, found, cache, now);
      } else {
        NotReordered(cache.items, q);
        NoPuts(now);
        var stored := db.Select(q.qname, q.qtype);
        if stored == [] {
          return Upstream;
        }
        BlockedMeans(stored);
        answers := Unblocked(stored);
      }
    } else {
      NothingCarried();
    }
    var n := SendReply(query, answers, sendbuf);
    DeliveredReply(sendbuf[..n], old(cache.history), db.log, query);
    return Replied(n);
  }

  lemma CarriedFaithful(answers: seq<Record>)
    requires Carried(answers)
    ensures FaithfulRecords(answers)
  {
  }

  lemma NoPuts(now: int)
    ensures Puts([], now) == []
  {
  }

  lemma CleanIsZeroFree(s: seq<byte>)
    requires Clean(s)
    ensures ZeroFree(s)
  {
  }

  lemma NothingCarried()
    ensures Carried([])
  {
  }
}
