/**
  The DNS server's request handling: a packet object whose fields are filled
  in by the parser, turned into an authoritative A-record answer and
  serialised again, and the decision logic that decides whether a query gets
  a reply at all.

  The address of the server chosen for the client (the router's choice) is a
  parameter of the reply: it is text that must be a dotted-decimal IPv4
  address.
*/
module DnsPacket {
  import opened Wrappers
  import opened Text
  import opened DnsWire

  /** A DNS message as the server holds it while answering one query. */
  class Packet {
    var id: bv16
    var qr: bool
    var opcode: bv8
    var aa: bool
    var tc: bool
    var rd: bool
    var ra: bool
    var rcode: bv8
    var qdcount: bv16
    var ancount: bv16
    var question: Option<Question>
    var answer: Option<Answer>

    /** The zero packet: every field zero, false or absent. */
    constructor ()
      ensures HeaderFields() == Header(0, false, 0, false, false, false, false, 0, 0)
      ensures ancount == 0 && question == None && answer == None
    {
      id, qr, opcode, aa, tc, rd, ra, rcode, qdcount := 0, false, 0, false, false, false, false, 0, 0;
      ancount := 0;
      question, answer := None, None;
    }

    /** The header fields that the parser sets and the serialiser writes. */
    function HeaderFields(): Header
      reads this`id, this`qr, this`opcode, this`aa, this`tc, this`rd, this`ra, this`rcode, this`qdcount
    {
      Header(id, qr, opcode, aa, tc, rd, ra, rcode, qdcount)
    }

    /**
      Fills the header from the first 12 bytes and, when QDCOUNT is at least
      one, the question from the bytes after them. A non-zero Z field is not
      an error.
    */
    method ParseDns(bytes: seq<byte>) returns (err: Option<WireError>)
      modifies this
      ensures |bytes| < HeaderLength ==> err == Some(PacketTooShort) && unchanged(this)
      ensures |bytes| >= HeaderLength ==> HeaderFields() == DecodeHeader(bytes)
      ensures ancount == old(ancount) && answer == old(answer)
      ensures |bytes| >= HeaderLength && qdcount == 0 ==> err == None && question == old(question)
      ensures |bytes| >= HeaderLength && qdcount != 0 ==>
        match DecodeQuestion(bytes[HeaderLength..])
        case Ok((q, _)) => err == None && question == Some(q)
        case Err(e) => err == Some(e) && question.Some?
    {
      if |bytes| < HeaderLength {
        return Some(PacketTooShort);
      }
      ParseHeader(bytes);
      err := None;
      if qdcount != 0 {
        var r := ParseQuestion(bytes[HeaderLength..]);
        if r.Err? {
          question := Some(Question([], 0, 0));
          return Some(r.error);
        }
        question := Some(r.value.0);
      }
    }

    /** Sets the header fields from the first 12 bytes, each from the bits DecodeHeader reads it from. */
    method ParseHeader(bytes: seq<byte>)
      requires |bytes| >= HeaderLength
      modifies this
      ensures HeaderFields() == DecodeHeader(bytes)
      ensures ancount == old(ancount) && question == old(question) && answer == old(answer)
    {
      var h := DecodeHeader(bytes);
      id, qr, opcode, aa, tc, rd := h.id, h.qr, h.opcode, h.aa, h.tc, h.rd;
      ra, rcode, qdcount := h.ra, h.rcode, h.qdcount;
    }

    /**
      Turns the parsed query into the answer: QR and AA set, one answer
      record for the question's name of type A, class IN, TTL 0, holding the
      four bytes of the server's address. Fails, changing nothing, when the
      server text is not an IPv4 address.
    */
    method QueryToAnswer(server: string) returns (err: Option<WireError>)
      requires question.Some?
      modifies this
      ensures ParseIpv4(server).None? ==> err == Some(BadServerAddress) && unchanged(this)
      ensures ParseIpv4(server).Some? ==>
        && err == None
        && HeaderFields() == old(HeaderFields()).(qr := true, aa := true)
        && ancount == 1
        && question == old(question)
        && answer == Some(Answer(question.value.qname, 1, 1, 0, 4, ParseIpv4(server).value))
    {
      var returnIp := ParseIpv4(server);
      if returnIp.None? {
        return Some(BadServerAddress);
      }
      qr := true;
      aa := true;
      ancount := 1;
      answer := Some(Answer(question.value.qname, 1, 1, 0, 4, returnIp.value));
      err := None;
    }

    /** The wire form of the packet: header, question and answer, at most 512 bytes. */
    method DnsToBytes() returns (r: Result<seq<byte>, WireError>)
      requires question.Some? && answer.Some?
      ensures r == EncodeMessage(HeaderFields(), ancount, question.value, answer.value)
    {
      var result := EncodeHeader(HeaderFields(), ancount);
      var qbytes := WriteQuestion(question.value);
      if qbytes.Err? {
        return Err(qbytes.error);
      }
      var abytes := WriteAnswer(answer.value);
      if abytes.Err? {
        return Err(abytes.error);
      }
      result := result + qbytes.value + abytes.value;
      if |result| > MaxUdpMessage {
        return Err(MessageTooLong);
      }
      r := Ok(result);
    }
  }

  /** The text form of a domain: the labels with a '.' between neighbours. */
  method ByteArraysToDomain(labels: seq<Label>) returns (r: seq<byte>)
    ensures r == Join(labels, Dot)
  {
    r := [];
    for i := 0 to |labels|
      invariant i == 0 ==> r == []
      invariant 0 < i ==> r == Join(labels[..i], Dot) + (if i < |labels| then [Dot] else [])
    {
      if 0 < i {
        JoinSnoc(labels[..i], labels[i], Dot);
        assert labels[..i + 1] == labels[..i] + [labels[i]];
      } else {
        assert labels[..1] == [labels[0]];
      }
      r := r + labels[i];
      if i + 1 < |labels| {
        r := r + [Dot];
      }
    }
    assert labels[..|labels|] == labels;
  }

  /** What one query turns into when the server is handled as written: a reply, no reply, or a crash. */
  datatype Outcome = NoReply | Reply(body: seq<byte>) | NilDereference

  /** The header of the reply to a query with header h. */
  function AnswerHeader(h: Header): Header
  {
    h.(qr := true, aa := true)
  }

  /** The answer record that points the question's name at the server address ip. */
  function AnswerFor(q: Question, ip: seq<byte>): Answer
  {
    Answer(q.qname, 1, 1, 0, 4, ip)
  }

  /** The reply to a query whose question was read, once the name matched. */
  function ReplyTo(h: Header, q: Question, server: string): Option<seq<byte>>
  {
    match ParseIpv4(server)
    case None => None
    case Some(ip) =>
      match EncodeMessage(AnswerHeader(h), 1, q, AnswerFor(q, ip))
      case Err(_) => None
      case Ok(m) => Some(m)
  }

  /**
    The reply to the UDP payload body when the server serves the domain name
    and routes the client to server; None when no reply is sent. A query
    without a question gets no reply.
  */
  function Respond(body: seq<byte>, name: seq<byte>, server: string): Option<seq<byte>>
  {
    if |body| < HeaderLength then None
    else
      var h := DecodeHeader(body);
      if h.qdcount == 0 then None
      else
        match DecodeQuestion(body[HeaderLength..])
        case Err(_) => None
        case Ok((q, _)) =>
          if Join(q.qname, Dot) != name then None else ReplyTo(h, q, server)
  }

  /** The same decision as the server code has it: the domain is read even when no question was parsed. */
  function RespondAsWritten(body: seq<byte>, name: seq<byte>, server: string): Outcome
  {
    if |body| < HeaderLength then NoReply
    else
      var h := DecodeHeader(body);
      if h.qdcount == 0 then NilDereference
      else
        match DecodeQuestion(body[HeaderLength..])
        case Err(_) => NoReply
        case Ok((q, _)) =>
          if Join(q.qname, Dot) != name then NoReply
          else
            match ReplyTo(h, q, server)
            case None => NoReply
            case Some(m) => Reply(m)
  }

  /** The server code crashes on exactly the queries of at least 12 bytes whose QDCOUNT is zero; otherwise it agrees with Respond. */
  lemma RespondAsWrittenCrashes(body: seq<byte>, name: seq<byte>, server: string)
    ensures RespondAsWritten(body, name, server) == NilDereference
      <==> |body| >= HeaderLength && Uint16(body[4], body[5]) == 0
    ensures RespondAsWritten(body, name, server) != NilDereference ==>
      (RespondAsWritten(body, name, server) == NoReply <==> Respond(body, name, server) == None)
    ensures RespondAsWritten(body, name, server).Reply? ==>
      Respond(body, name, server) == Some(RespondAsWritten(body, name, server).body)
  {
  }

  /** A header of twelve zero bytes (QDCOUNT zero) makes the server code crash for every served name. */
  lemma ZeroHeaderCrashes(name: seq<byte>, server: string)
    ensures RespondAsWritten([0, 0, 0, 0, 0, 0, 0, 0, 0, 0, 0, 0], name, server) == NilDereference
  {
    var body: seq<byte> := [0, 0, 0, 0, 0, 0, 0, 0, 0, 0, 0, 0];
    assert Uint16(body[4], body[5]) == 0;
  }

  /** Decoding the header keeps opcode and rcode within four bits. */
  lemma DecodedHeaderTruncated(b: seq<byte>)
    requires |b| >= HeaderLength
    ensures Truncated(DecodeHeader(b)) == DecodeHeader(b)
  {
  }

  /**
    Every reply fits one UDP message and answers the query it came from: the
    query had a question for the served name, the reply's header is the
    query's with QR and AA set and ANCOUNT one, the reply's question reads back
    as the query's, and the reply ends with the four address bytes of server.
  */
  lemma RespondReplies(body: seq<byte>, name: seq<byte>, server: string, m: seq<byte>)
    requires Respond(body, name, server) == Some(m)
    ensures |body| >= HeaderLength && DecodeHeader(body).qdcount != 0
    ensures HeaderLength + 4 <= |m| <= MaxUdpMessage
    ensures DecodeHeader(m) == AnswerHeader(DecodeHeader(body))
    ensures Uint16(m[6], m[7]) == 1
    ensures DecodeQuestion(body[HeaderLength..]).Ok?
    ensures Join(DecodeQuestion(body[HeaderLength..]).value.0.qname, Dot) == name
    ensures DecodeQuestion(m[HeaderLength..]).Ok?
    ensures DecodeQuestion(m[HeaderLength..]).value.0 == DecodeQuestion(body[HeaderLength..]).value.0
    ensures ParseIpv4(server) == Some(m[|m| - 4..])
  {
    var h := DecodeHeader(body);
    var q := DecodeQuestion(body[HeaderLength..]).value.0;
    var ip := ParseIpv4(server).value;
    DecodeQuestionSound(body[HeaderLength..], q, DecodeQuestion(body[HeaderLength..]).value.1);
    DecodedHeaderTruncated(body);
    ReplyMessage(h, q, ip, m);
  }

  /** The reply message built for header h, question q and address ip, read back. */
  lemma ReplyMessage(h: Header, q: Question, ip: seq<byte>, m: seq<byte>)
    requires WellFormedName(q.qname) && |ip| == 4
    requires EncodeMessage(AnswerHeader(h), 1, q, AnswerFor(q, ip)) == Ok(m)
    ensures HeaderLength + 4 <= |m| <= MaxUdpMessage
    ensures DecodeHeader(m) == Truncated(AnswerHeader(h))
    ensures Uint16(m[6], m[7]) == 1
    ensures DecodeQuestion(m[HeaderLength..]).Ok? && DecodeQuestion(m[HeaderLength..]).value.0 == q
    ensures m[|m| - 4..] == ip
  {
    var hb := EncodeHeader(AnswerHeader(h), 1);
    var qb := EncodeQuestion(q).value;
    var ab := EncodeAnswer(AnswerFor(q, ip)).value;
    ConcatAssoc(hb, qb, ab);
    HeaderOfMessage(hb, qb + ab);
    SliceAfter(m, hb, qb + ab);
    QuestionRoundTrip(q, ab);
    AnswerEndsWithAddress(AnswerFor(q, ip));
    assert m[|m| - 4..] == ab[|ab| - 4..];
  }

  /** A message's header is read from its first twelve bytes alone. */
  lemma HeaderOfMessage(hb: seq<byte>, rest: seq<byte>)
    requires |hb| == HeaderLength
    ensures DecodeHeader(hb + rest) == DecodeHeader(hb)
    ensures (hb + rest)[6] == hb[6] && (hb + rest)[7] == hb[7]
  {
  }

  /** The wire form of an answer record ends with its data. */
  lemma AnswerEndsWithAddress(a: Answer)
    requires EncodeAnswer(a).Ok? && |a.rdata| == 4
    ensures var ab := EncodeAnswer(a).value; |ab| >= 4 && ab[|ab| - 4..] == a.rdata
  {
  }

  /**
    A query with any twelve header bytes whose QDCOUNT is not zero, followed by
    a question for the served name and any further bytes, gets exactly the reply
    that carries the address of server, whenever that reply fits 512 bytes.
    ANCOUNT, NSCOUNT, ARCOUNT and the Z bits of the query play no part.
  */
  lemma RespondToQuery(hb: seq<byte>, q: Question, rest: seq<byte>, ip: seq<byte>)
    requires |hb| == HeaderLength && DecodeHeader(hb).qdcount != 0
    requires WellFormedName(q.qname) && |ip| == 4
    requires HeaderLength + 2 * LabelsSize(q.qname) + 20 <= MaxUdpMessage
    ensures EncodeQuestion(q).Ok?
    ensures Respond(hb + EncodeQuestion(q).value + rest, Join(q.qname, Dot), FormatIpv4(ip))
      == Some(EncodeHeader(AnswerHeader(DecodeHeader(hb)), 1) + EncodeQuestion(q).value + EncodeAnswer(AnswerFor(q, ip)).value)
  {
    QuestionRoundTrip(q, rest);
    var body := hb + EncodeQuestion(q).value + rest;
    HeaderOfMessage(hb, EncodeQuestion(q).value + rest);
    assert body == hb + (EncodeQuestion(q).value + rest);
    assert body[HeaderLength..] == EncodeQuestion(q).value + rest;
    DecodedHeaderTruncated(hb);
    ReplyToAddress(DecodeHeader(hb), q, ip);
  }

  /** The reply that carries a formatted address holds that address. */
  lemma ReplyToAddress(h: Header, q: Question, ip: seq<byte>)
    requires WellFormedName(q.qname) && |ip| == 4
    requires HeaderLength + 2 * LabelsSize(q.qname) + 20 <= MaxUdpMessage
    ensures EncodeQuestion(q).Ok? && EncodeAnswer(AnswerFor(q, ip)).Ok?
    ensures ReplyTo(h, q, FormatIpv4(ip))
      == Some(EncodeHeader(AnswerHeader(h), 1) + EncodeQuestion(q).value + EncodeAnswer(AnswerFor(q, ip)).value)
  {
    Ipv4RoundTrip(ip);
  }

  /** The header of an encoded query decodes to the header it was built from, cut to its wire widths. */
  lemma QueryHeader(h: Header, tail: seq<byte>)
    ensures |EncodeHeader(h, 0) + tail| >= HeaderLength
    ensures DecodeHeader(EncodeHeader(h, 0) + tail) == Truncated(h)
  {
    var b := EncodeHeader(h, 0) + tail;
    assert b[..HeaderLength] == EncodeHeader(h, 0);
    assert forall k | 0 <= k < HeaderLength :: b[k] == EncodeHeader(h, 0)[k];
  }

  /**
    Handles one query: parse, check the domain, build the answer, serialise.
    Returns the reply body, or None when no reply is sent.
  */
  method HandleRequest(body: seq<byte>, name: seq<byte>, server: string) returns (r: Option<seq<byte>>)
    ensures r == Respond(body, name, server)
  {
    var dns := new Packet();
    var err := dns.ParseDns(body);
    if err.Some? || dns.question.None? {
      return None;
    }
    var domain := ByteArraysToDomain(dns.question.value.qname);
    if domain != name {
      return None;
    }
    err := dns.QueryToAnswer(server);
    if err.Some? {
      return None;
    }
    var bytes := dns.DnsToBytes();
    if bytes.Err? {
      return None;
    }
    r := Some(bytes.value);
  }
}
