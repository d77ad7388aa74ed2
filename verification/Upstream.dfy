/** Passing an upstream answer on: what the client and the cache get, and what is sent when the
    upstream answer is missing or unusable. */
module Upstream {
  import opened Bytes
  import opened Messages
  import opened Codec
  import opened Parser
  import opened Printer
  import opened CacheModel
  import opened CacheRuns
  import opened Cache
  import opened Clients
  import opened Reference
  import opened Resolve
  import D = Database

  /** What arrives from upstream: nothing in time, or a buffer and the number of bytes received. */
  datatype Received = Nothing | Datagram(buf: seq<byte>, size: nat)

  ghost predicate ReceivedReadable(r: Received) {
    r.Datagram? ==> MessageReadable(r.buf, r.size)
  }

  /** The answer is usable: it parses and carries the id the question was sent with. */
  ghost predicate Usable(r: Received, newId: u16)
    requires ReceivedReadable(r)
  {
    r.Datagram? && MessageAt(r.buf, r.size).Accepted? && MessageAt(r.buf, r.size).msg.header.id == newId
  }

  /** The answer as it was sent upstream, under the client's own id. */
  ghost function Passed(query: Message, r: Received, newId: u16): Message
    requires ReceivedReadable(r) && Usable(r, newId)
  {
    var m := MessageAt(r.buf, r.size).msg;
    m.(header := m.header.(id := query.header.id))
  }

  /** The header a failed exchange leaves behind: parsing overwrites the prepared one as soon as twelve
      bytes have arrived. */
  function LeftHeader(query: Message, r: Received): Header
    requires r.Datagram? && r.size >= HEADER_SIZE ==> |r.buf| >= HEADER_SIZE
  {
    var prepared := Prepared(query, RCODE_NO_ERROR);
    if r == Nothing then prepared else HeaderLeft(r.buf, r.size, prepared)
  }

  /** The reply after a failed exchange: the header as it was left, the query's questions, and the records
      found for earlier questions, which are still in the answer buffer. */
  function Fallback(query: Message, buffered: seq<Record>, left: Header): Message
    requires |query.question| < 0x1_0000 && |buffered| < 0x1_0000
  {
    Message(left.(qdcount := |query.question|, ancount := |buffered|, nscount := 0, arcount := 0),
            query.question, buffered, [], [])
  }

  /** Every answer record is put into the cache, in order. */
  method PutAnswers(cache: RrCache, answers: seq<Record>, now: int)
    requires cache.Valid() && forall i :: 0 <= i < |answers| ==> Named(answers[i])
    modifies cache, set n | n in cache.chain
    ensures cache.Valid() && cache.history == old(cache.history) + Puts(answers, now)
    ensures forall n :: n in cache.chain ==> n in old(cache.chain) || fresh(n)
  {
    hide RrCache.Shape, After, Named, AfterPut;
    for j := 0 to |answers|
      invariant cache.Valid() && cache.history == old(cache.history) + Puts(answers[..j], now)
      invariant forall n :: n in cache.chain ==> n in old(cache.chain) || fresh(n)
    {
      assert answers[..j + 1][..j] == answers[..j];
      cache.PutRr(answers[j], now);
    }
    assert answers[..|answers|] == answers;
  }

  /** A usable answer whose names fit can be sent on under another id, and its answers can be cached. */
  lemma PassedForm(query: Message, r: Received, newId: u16)
    requires ReceivedReadable(r) && Usable(r, newId) && NamesFit(Passed(query, r, newId))
    ensures var m := Passed(query, r, newId);
            && SizedMessage(m) && ParserForm(m) && !Truncated(m.header) && Complete(m) && FaithfulRecords(m.answer)
            && forall i :: 0 <= i < |m.answer| ==> Named(m.answer[i])
  {
    hide MessageReadable, MessageAt, Faithful, Sized;
    ParsedMessage(r.buf, r.size);
  }

  lemma FallbackForm(query: Message, buffered: seq<Record>, left: Header)
    requires |query.question| < 0x1_0000 && FaithfulQuestions(query.question) && Carried(buffered)
    ensures var m := Fallback(query, buffered, left);
            Complete(m) && (Truncated(m.header) || ParserForm(m))
  {
    hide FaithfulQuestion, FaithfulRecord;
  }

  /** The first two bytes of an encoding are the id. */
  lemma EncodedId(m: Message)
    requires SizedMessage(m)
    ensures |EncodeMessage(m)| >= HEADER_SIZE && GetU16(EncodeMessage(m), 0) == m.header.id
  {
    hide SizedMessage, EncodeMessage, GetU16, EncodeQuestions, EncodeRecords;
    var buf := EncodeMessage(m);
    assert buf[0..|buf|] == buf;
    MessageFields(m, buf);
  }

  /** What came from upstream leaves the client's id in place: nothing came, too little came, or it has that id. */
  ghost predicate KeepsId(query: Message, r: Received)
    requires ReceivedReadable(r)
  {
    r == Nothing || r.size < HEADER_SIZE || GetU16(r.buf, 0) == query.header.id
  }

  /** The reply to be sent fits the buffer and the names in it fit the printer. */
  ghost predicate Sendable(query: Message, buffered: seq<Record>, r: Received, newId: u16, capacity: nat)
    requires ReceivedReadable(r) && |query.question| < 0x1_0000 && |buffered| < 0x1_0000
  {
    var m := if Usable(r, newId) then Passed(query, r, newId) else Fallback(query, buffered, LeftHeader(query, r));
    NamesFit(m) && Fits(m, capacity)
  }

  // ---------- what the client gets, told from what arrived ----------

  /** Upstream's message under the query's id: its flags, its counts, its questions and all its sections. */
  ghost predicate IsPassed(got: Message, query: Message, m: Message) {
    && got.header.id == query.header.id && got.header.misc1 == m.header.misc1 && got.header.misc2 == m.header.misc2
    && got.header.qdcount == m.header.qdcount && got.header.ancount == m.header.ancount
    && got.header.nscount == m.header.nscount && got.header.arcount == m.header.arcount
    && got.question == m.question && SectionAgrees(got.answer, m.answer)
    && SectionAgrees(got.authority, m.authority) && SectionAgrees(got.addition, m.addition)
  }

  /** Every reader of the bytes gets that; with SOA records in it the reader needs 512 bytes to spare. */
  ghost predicate PassesOn(sent: seq<byte>, query: Message, m: Message) {
    forall buf :: At(buf, 0, sent) && (NoSoaMessage(m) || |sent| + 512 <= |buf|) ==>
      && MessageReadable(buf, |sent|) && MessageAt(buf, |sent|).Accepted?
      && IsPassed(MessageAt(buf, |sent|).msg, query, m)
  }

  ghost predicate HeaderArrived(r: Received) {
    r.Datagram? && r.size >= 12 && |r.buf| >= 12
  }

  /** The query's questions and the buffered records, under the id and flags that arrived, if any did. */
  ghost predicate IsFallback(got: Message, query: Message, buffered: seq<Record>, r: Received) {
    && (if HeaderArrived(r) then
          && r.buf[0] == got.header.id / 256 && r.buf[1] == got.header.id % 256
          && got.header.misc1 == r.buf[2] && got.header.misc2 == r.buf[3]
        else got.header.id == query.header.id && got.header.misc1 == 0x84 && got.header.misc2 == 0)
    && got.header.qdcount == |query.question| && got.header.ancount == |buffered|
    && got.header.nscount == 0 && got.header.arcount == 0
    && got.question == query.question && SectionAgrees(got.answer, buffered) && got.authority == [] && got.addition == []
  }

  /** Every reader gets that, or nothing if the flags that arrived have the TC bit set. */
  ghost predicate FallsBack(sent: seq<byte>, query: Message, buffered: seq<Record>, r: Received) {
    if HeaderArrived(r) && (r.buf[2] / 2) % 2 == 1 then Repels(sent)
    else forall buf :: At(buf, 0, sent) && (NoSoa(buffered) || |sent| + 512 <= |buf|) ==>
      && MessageReadable(buf, |sent|) && MessageAt(buf, |sent|).Accepted?
      && IsFallback(MessageAt(buf, |sent|).msg, query, buffered, r)
  }

  /** An answer is usable if twelve bytes arrived that have the right id and TC clear. */
  lemma UsableExact(r: Received, newId: u16)
    requires ReceivedReadable(r)
    ensures Usable(r, newId) <==>
            HeaderArrived(r) && (r.buf[2] / 2) % 2 == 0 && r.buf[0] == newId / 256 && r.buf[1] == newId % 256
  {
    hide SectionsReadable;
  }

  /** A compressed answer laid out as the RFC has it, under the right id, is usable, and what is taken from it
      are the records it means. */
  lemma WireAnswerUsable(r: Received, newId: u16, m: Message, l: Layout)
    requires r.Datagram? && r.size >= 12 && WireMessage(r.buf, m, l) && m.header.id == newId
    ensures ReceivedReadable(r) && Usable(r, newId) && AgreesMessage(MessageAt(r.buf, r.size).msg, m)
    ensures NoSoaMessage(m) ==> MessageAt(r.buf, r.size).msg == m
  {
    hide MessageReadable, MessageAt, WireMessage, SectionAgrees, NoSoa;
    CompressedMessage(r.buf, r.size, m, l);
  }

  lemma DeliveredPassed(sent: seq<byte>, query: Message, r: Received, newId: u16)
    requires ReceivedReadable(r) && Usable(r, newId) && Delivers(sent, Passed(query, r, newId))
    ensures PassesOn(sent, query, MessageAt(r.buf, r.size).msg)
  {
    hide At, MessageReadable, MessageAt, SectionAgrees, NoSoa;
    var m := MessageAt(r.buf, r.size).msg;
    forall buf | At(buf, 0, sent) && (NoSoaMessage(m) || |sent| + 512 <= |buf|)
      ensures MessageReadable(buf, |sent|) && MessageAt(buf, |sent|).Accepted?
      ensures IsPassed(MessageAt(buf, |sent|).msg, query, m)
    {
      assert Gets(buf, |sent|, Passed(query, r, newId));
    }
  }

  lemma LeftBits(query: Message, r: Received)
    requires ReceivedReadable(r)
    ensures var h := LeftHeader(query, r);
            if HeaderArrived(r) then r.buf[0] == h.id / 256 && r.buf[1] == h.id % 256 && h.misc1 == r.buf[2] && h.misc2 == r.buf[3]
            else h.id == query.header.id && h.misc1 == 0x84 && h.misc2 == 0
  {
    hide SectionsReadable, CreateMisc1, CreateMisc2, Truncated;
    PreparedBits(query);
  }

  lemma DeliveredFallback(sent: seq<byte>, query: Message, buffered: seq<Record>, r: Received)
    requires ReceivedReadable(r) && |query.question| < 0x1_0000 && |buffered| < 0x1_0000
    requires var m := Fallback(query, buffered, LeftHeader(query, r));
             if Truncated(m.header) then Repels(sent) else Delivers(sent, m)
    ensures FallsBack(sent, query, buffered, r)
  {
    hide At, MessageReadable, MessageAt, LeftHeader, Repels, SectionAgrees;
    LeftId(query, r);
    var m := Fallback(query, buffered, LeftHeader(query, r));
    LeftBits(query, r);
    if !Truncated(m.header) {
      forall buf | At(buf, 0, sent) && (NoSoa(buffered) || |sent| + 512 <= |buf|)
        ensures MessageReadable(buf, |sent|) && MessageAt(buf, |sent|).Accepted?
        ensures IsFallback(MessageAt(buf, |sent|).msg, query, buffered, r)
      {
        assert Gets(buf, |sent|, m);
        AgreesLength(MessageAt(buf, |sent|).msg.authority, []);
        AgreesLength(MessageAt(buf, |sent|).msg.addition, []);
      }
    }
  }

  /** The second half of resolv_handle: the exchange with upstream has ended one way or the other. buffered
      are the records that the questions before the unknown one have left in the answer buffer. */
  method RelayUpstream(query: Message, buffered: seq<Record>, received: Received, newId: u16,
                       cache: RrCache, sendbuf: array<byte>, now: int)
    returns (n: int)
    requires cache.Valid() && FaithfulHistory(cache.history) && ReceivedReadable(received)
    requires |query.question| < 0x1_0000 && FaithfulQuestions(query.question) && Carried(buffered)
    requires Sendable(query, buffered, received, newId, sendbuf.Length)
    modifies cache, sendbuf, set n | n in cache.chain
    ensures HEADER_SIZE <= n <= sendbuf.Length && cache.Valid() && FaithfulHistory(cache.history)
    ensures forall n :: n in cache.chain ==> n in old(cache.chain) || fresh(n)
    ensures Usable(received, newId) ==>
              && sendbuf[..n] == EncodeMessage(Passed(query, received, newId))
              && PassesOn(sendbuf[..n], query, MessageAt(received.buf, received.size).msg)
              && cache.history == old(cache.history) + Puts(MessageAt(received.buf, received.size).msg.answer, now)
    ensures !Usable(received, newId) ==>
              && sendbuf[..n] == EncodeMessage(Fallback(query, buffered, LeftHeader(query, received)))
              && FallsBack(sendbuf[..n], query, buffered, received)
              && cache.history == old(cache.history) && cache.items == old(cache.items)
    ensures GetU16(sendbuf[..n], 0) == query.header.id <==> Usable(received, newId) || KeepsId(query, received)
  {
    hide MessageReadable, MessageAt, NamesFit, SizedMessage, EncodeMessage, ParserForm, Complete, Truncated, RrCache.Valid,
         FaithfulQuestions, FaithfulRecords, FaithfulHistory, Carried, Named, Prepared, Delivers, Repels, GetU16,
         PassesOn, FallsBack;
    var parsed, header := Rejected, Prepared(query, RCODE_NO_ERROR);
    LeftId(query, received);
    if received.Datagram? {
      parsed, header := MessageFromBuf(received.buf, received.size, header);
    }
    if parsed.Accepted? && parsed.msg.header.id == newId {
      var ans := parsed.msg.(header := parsed.msg.header.(id := query.header.id));
      PassedForm(query, received, newId);
      FaithfulPuts(cache.history, ans.answer, now);
      PutAnswers(cache, ans.answer, now);
      EncodedId(ans);
      n := SendMessage(ans, sendbuf);
      DeliveredPassed(sendbuf[..n], query, received, newId);
    } else {
      FallbackForm(query, buffered, header);
      EncodedId(Fallback(query, buffered, header));
      n := SendMessage(Fallback(query, buffered, header), sendbuf);
      DeliveredFallback(sendbuf[..n], query, buffered, received);
    }
  }

  /** The reply to a query, whatever upstream does. */
  ghost function Outgoing(items: seq<Item>, log: seq<Record>, query: Message, r: Received, newId: u16): Message
    requires LookupReady(items, log, query) && |query.question| < 0x1_0000 && ReceivedReadable(r)
  {
    if !AsksUpstream(items, log, query) then LocalReply(items, log, query)
    else if Usable(r, newId) then Passed(query, r, newId)
    else Fallback(query, [], LeftHeader(query, r))
  }

  /** The records the query puts into the cache: upstream's answers, or its own cache matches again. */
  ghost function Cached(items: seq<Item>, log: seq<Record>, query: Message, r: Received, newId: u16): seq<Record>
    requires ReceivedReadable(r)
  {
    if AsksUpstream(items, log, query) then (if Usable(r, newId) then MessageAt(r.buf, r.size).msg.answer else [])
    else if LooksUp(query) then CacheAnswers(items, query.question[0])
    else []
  }

  /** A standard query with an overlong name gets the eleven bytes. */
  ghost predicate FormatError(query: Message) {
    Qr(query.header.misc1) == 0 && Opcode(query.header.misc1) == 0 && TooLong(query)
  }

  lemma LocalFacts(items: seq<Item>, log: seq<Record>, query: Message)
    requires LookupReady(items, log, query) && |query.question| < 0x1_0000
    ensures AsksUpstream(items, log, query) && LooksUp(query) ==> CacheAnswers(items, query.question[0]) == []
    ensures LocalReply(items, log, query).header.id == query.header.id && !Truncated(LocalReply(items, log, query).header)
    ensures FormatError(query) <==> Qr(query.header.misc1) == 0 && !AsksUpstream(items, log, query) && TooLong(query)
  {
    hide Qr, Opcode, LocalAnswers, Truncated, CreateMisc1, CreateMisc2, CacheAnswers, D.Scan;
    ReplyHeader(query, AnswerSection(items, log, query), RCODE_NO_ERROR);
  }

  /** resolv_handle for a query of at most one question: -1 exactly for a message that is not a query, else
      the reply, under the client's id unless upstream's answer was unusable and had another; and everything
      is ready for the next query. */
  method Handle(query: Message, received: Received, newId: u16, cache: RrCache, db: D.Store, sendbuf: array<byte>, now: int)
    returns (size: int)
    requires Ready(cache, db, sendbuf) && ReceivedReadable(received)
    requires query.header.qdcount == |query.question| <= 1 && FaithfulQuestions(query.question)
    requires LookupReady(cache.items, db.log, query)
    requires Fits(Outgoing(cache.items, db.log, query, received, newId), sendbuf.Length)
    requires AsksUpstream(cache.items, db.log, query) ==> NamesFit(Outgoing(cache.items, db.log, query, received, newId))
    modifies cache, sendbuf, set n | n in cache.chain
    ensures Ready(cache, db, sendbuf) && db.log == old(db.log)
    ensures cache.history == old(cache.history) + Puts(Cached(old(cache.items), db.log, query, received, newId), now)
    ensures size == -1 <==> query.header.misc1 >= 128
    ensures FormatError(query) ==>
              size == HEADER_SIZE - 1 && sendbuf[..size] == FormatErrorBytes(query.header.id) && Repels(sendbuf[..size])
    ensures size != -1 && !FormatError(query) ==>
              && HEADER_SIZE <= size <= sendbuf.Length
              && sendbuf[..size] == EncodeMessage(Outgoing(old(cache.items), db.log, query, received, newId))
              && (if !AsksUpstream(old(cache.items), db.log, query) then
                    RepliesTo(sendbuf[..size], old(cache.items), db.log, query)
                  else if Usable(received, newId) then
                    PassesOn(sendbuf[..size], query, MessageAt(received.buf, received.size).msg)
                  else FallsBack(sendbuf[..size], query, [], received))
    ensures size >= HEADER_SIZE ==>
              (GetU16(sendbuf[..size], 0) != query.header.id
               <==> AsksUpstream(old(cache.items), db.log, query) && !Usable(received, newId) && !KeepsId(query, received))
  {
    hide Delivers, Repels, Reply, Fallback, Passed, Usable, KeepsId, Truncated, D.Store.Valid, RrCache.Valid, AsksUpstream,
         LookupReady, LocalReply, FormatError, TooLong, EncodeMessage, SizedMessage, FaithfulHistory, Carried, FaithfulQuestions, MessageReadable,
         GetU16, Puts, Reordered, CacheAnswers,
         RepliesTo, PassesOn, FallsBack;
    ghost var m := Outgoing(cache.items, db.log, query, received, newId);
    EncodedId(m);
    LocalFacts(cache.items, db.log, query);
    NoPuts(now);
    var out := ResolvHandle(query, cache, db, sendbuf, now);
    match out
    case Malformed =>
      size := -1;
    case Replied(n) =>
      size := n;
    case Upstream =>
      NothingCarried();
      if Usable(received, newId) {
        PassedForm(query, received, newId);
      }
      size := RelayUpstream(query, [], received, newId, cache, sendbuf, now);
  }

  lemma LeftId(query: Message, r: Received)
    requires ReceivedReadable(r)
    ensures r.Datagram? && r.size >= HEADER_SIZE ==> |r.buf| >= HEADER_SIZE
    ensures LeftHeader(query, r).id == query.header.id <==> KeepsId(query, r)
  {
    hide SectionsReadable, GetU16;
  }

  /** A truncated answer is rejected even if upstream did everything right, and what the client gets then has
      upstream's id and TC bit: its own parser rejects that too. */
  lemma TruncatedAnswer(query: Message, buffered: seq<Record>, r: Received, newId: u16)
    requires |query.question| < 0x1_0000 && |buffered| < 0x1_0000
    requires r.Datagram? && r.size >= HEADER_SIZE && |r.buf| >= HEADER_SIZE && Truncated(HeaderAt(r.buf))
    requires GetU16(r.buf, 0) == newId != query.header.id
    ensures ReceivedReadable(r) && !Usable(r, newId) && !KeepsId(query, r)
    ensures var m := Fallback(query, buffered, LeftHeader(query, r));
            m.header.id == newId && Truncated(m.header) && (SizedMessage(m) ==> Repels(EncodeMessage(m)))
  {
    hide SizedMessage, EncodeMessage, Repels, GetU16;
    var m := Fallback(query, buffered, LeftHeader(query, r));
    if SizedMessage(m) {
      TruncatedRepels(m);
    }
  }

  /** Twelve bytes that are such an answer to the query with id 7 sent on under the id 9. */
  lemma TruncatedDatagram(question: Question)
    ensures var query := Message(Header(7, 1, 0, 1, 0, 0, 0), [question], [], [], []);
            var r := Datagram([0, 9, 0x82, 0, 0, 0, 0, 0, 0, 0, 0, 0], 12);
            && ReceivedReadable(r) && !Usable(r, 9) && !KeepsId(query, r)
            && Fallback(query, [], LeftHeader(query, r)).header.id == 9
  {
    var query := Message(Header(7, 1, 0, 1, 0, 0, 0), [question], [], [], []);
    var buf: seq<byte> := [0, 9, 0x82, 0, 0, 0, 0, 0, 0, 0, 0, 0];
    TruncatedAnswer(query, [], Datagram(buf, 12), 9);
  }
}
