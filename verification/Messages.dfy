/** The message structures and numeric constants of the relay. */
module Messages {
  import opened Bytes

  const RRTYPE_A: u16 := 1
  const RRTYPE_NS: u16 := 2
  const RRTYPE_CNAME: u16 := 5
  const RRTYPE_SOA: u16 := 6
  const RRTYPE_PTR: u16 := 12
  const RRTYPE_MX: u16 := 15
  const RRTYPE_TXT: u16 := 16
  const RRTYPE_AAAA: u16 := 28

  /** A resource record; the name is the stored bytes before the terminator and rdlength is |rdata|. */
  datatype Record = Record(name: seq<byte>, rtype: u16, cls: u16, ttl: u32, rdata: seq<byte>)

  datatype Question = Question(qname: seq<byte>, qtype: u16, qclass: u16)

  datatype Header = Header(id: u16, misc1: byte, misc2: byte,
                           qdcount: u16, ancount: u16, nscount: u16, arcount: u16)

  /** An absent section array (a null pointer) is the empty sequence. */
  datatype Message = Message(header: Header, question: seq<Question>,
                             answer: seq<Record>, authority: seq<Record>, addition: seq<Record>)
}
