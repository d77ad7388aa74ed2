/** What a client is to get, told from the query, the cache and the database alone. */
module Clients {
  import opened Bytes
  import opened Messages
  import opened Codec
  import opened CacheModel
  import D = Database

  /** Some record starts with the address 0.0.0.0. */
  ghost predicate Blocks(rs: seq<Record>) {
    exists i :: 0 <= i < |rs| && ZeroAddress(rs[i].rdata)
  }

  ghost predicate ZeroAddress(rdata: seq<byte>) {
    |rdata| >= 4 && rdata[0] == 0 && rdata[1] == 0 && rdata[2] == 0 && rdata[3] == 0
  }

  ghost predicate CachedFor(x: Item, q: Question) {
    x.rr.name == q.qname && x.rr.rtype == q.qtype && x.rr.cls == q.qclass
  }

  /** All records cached for the question, in cache order, up to the rdata of SOA. */
  ghost predicate FromCache(got: seq<Record>, items: seq<Item>, q: Question) {
    exists idx :: Positions(idx, items, q.qname, q.qtype, q.qclass) && AgreesAt(got, items, idx)
  }

  ghost predicate AgreesAt(got: seq<Record>, items: seq<Item>, idx: seq<nat>) {
    && |got| == |idx| && (forall k :: 0 <= k < |idx| ==> idx[k] < |items|)
    && forall k :: 0 <= k < |idx| ==> Agrees(got[k], items[idx[k]].rr)
  }

  /** The cache first, then the database, and nothing at all if the database blocks the name. */
  ghost predicate IsAnswer(got: seq<Record>, items: seq<Item>, log: seq<Record>, q: Question) {
    if exists i :: 0 <= i < |items| && CachedFor(items[i], q) then FromCache(got, items, q)
    else if Blocks(D.Scan(log, q.qname, q.qtype)) then got == []
    else got == D.Scan(log, q.qname, q.qtype)
  }

  /** Id, QR and AA, code 1, one question, and no more. */
  ghost function FormatErrorBytes(id: u16): seq<byte> {
    [id / 256, id % 256, 0x84, 1, 0, 1, 0, 0, 0, 0, 0]
  }

  /** Id and question of the query, QR and AA set and everything else clear, and an answer section only. */
  ghost predicate IsReply(got: Message, items: seq<Item>, log: seq<Record>, query: Message) {
    && got.header.id == query.header.id && got.header.misc1 == 0x84 && got.header.misc2 == 0
    && got.header.qdcount == |query.question| && got.header.ancount == |got.answer|
    && got.header.nscount == 0 && got.header.arcount == 0
    && got.question == query.question && got.authority == [] && got.addition == []
    && if query.question == [] then got.answer == [] else IsAnswer(got.answer, items, log, query.question[0])
  }

  /** That is what every reader of the bytes gets; for an SOA question the reader needs 512 bytes to spare. */
  ghost predicate RepliesTo(sent: seq<byte>, items: seq<Item>, log: seq<Record>, query: Message) {
    forall buf :: At(buf, 0, sent) && (query.question == [] || query.question[0].qtype != 6 || |sent| + 512 <= |buf|) ==>
      && MessageReadable(buf, |sent|) && MessageAt(buf, |sent|).Accepted?
      && IsReply(MessageAt(buf, |sent|).msg, items, log, query)
  }
}
