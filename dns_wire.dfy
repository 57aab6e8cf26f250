/**
  The DNS wire format as the CDN's DNS server reads and writes it: the header
  of section 4.1.1 of RFC 1035, the question of section 4.1.2, the resource
  record of section 4.1.3, names as length-prefixed labels (section 3.1) and
  the 512-octet limit for UDP messages (section 2.3.4).

  Two departures from RFC 1035 are kept as the server has them: a label may be
  up to 255 bytes long (the RFC allows 63), and compression pointers (section
  4.1.4) are not understood: a length byte of 192 or more is read as an
  ordinary label length.
*/
module DnsWire {
  import opened Wrappers
  import opened Text

  type byte = bv8
  type Label = seq<byte>

  /** Largest message the server sends over UDP. */
  const MaxUdpMessage: nat := 512
  const HeaderLength: nat := 12
  /** The byte of '.', which separates labels in the text form of a domain. */
  const Dot: byte := 46

  datatype WireError =
    | PacketTooShort           // a message shorter than its 12-byte header
    | DomainLongerThanPacket   // a label length that reaches or passes the end of the buffer
    | NoTypeAndClass           // fewer than 4 bytes left for qtype and qclass
    | LabelTooLong             // a label of 256 bytes or more has no length byte
    | MessageTooLong           // a reply longer than 512 bytes
    | BadServerAddress         // the server chosen for the client is not an IPv4 address

  /** The header fields the server decodes (ancount is handled separately). */
  datatype Header = Header(
    id: bv16, qr: bool, opcode: bv8, aa: bool, tc: bool, rd: bool,
    ra: bool, rcode: bv8, qdcount: bv16)

  datatype Question = Question(qname: seq<Label>, qtype: bv16, qclass: bv16)

  datatype Answer = Answer(
    aname: seq<Label>, atype: bv16, aclass: bv16, ttl: bv32, rdlength: bv16, rdata: seq<byte>)

  // ---------------------------------------------------------------------------
  // Fixed-width integers
  // ---------------------------------------------------------------------------

  function BoolToByte(b: bool): (r: byte)
    ensures r <= 1
    ensures r == 1 <==> b
  {
    if b then 1 else 0
  }

  /** Converting a small number to a byte keeps its value. */
  lemma ByteValue(n: int)
    requires 0 <= n < 256
    ensures (n as byte) as int == n
  {
    // The solver's bit-vector conversion is cheap on small ranges only.
    if n < 64 {
      if n < 32 {} else {}
    } else if n < 128 {
      if n < 96 {} else {}
    } else if n < 192 {
      if n < 160 {} else {}
    } else {
      if n < 224 {} else {}
    }
  }

  /** A 16-bit value read from two big-endian bytes. */
  function Uint16(hi: byte, lo: byte): bv16
  {
    ((hi as bv16) << 8) | (lo as bv16)
  }

  /** The two big-endian bytes of a 16-bit value. */
  function BigEndian16(x: bv16): (b: seq<byte>)
    ensures |b| == 2
    ensures Uint16(b[0], b[1]) == x
  {
    [(x >> 8) as byte, (x & 0xFF) as byte]
  }

  /** Every pair of bytes is the big-endian form of the value read from it. */
  lemma BigEndian16OfUint16(hi: byte, lo: byte)
    ensures BigEndian16(Uint16(hi, lo)) == [hi, lo]
  {
  }

  /** The four big-endian bytes of a 32-bit value. */
  function BigEndian32(x: bv32): (b: seq<byte>)
    ensures |b| == 4
    ensures ((b[0] as bv32) << 24) | ((b[1] as bv32) << 16) | ((b[2] as bv32) << 8) | (b[3] as bv32) == x
  {
    [(x >> 24) as byte, ((x >> 16) & 0xFF) as byte, ((x >> 8) & 0xFF) as byte, (x & 0xFF) as byte]
  }

  // ---------------------------------------------------------------------------
  // Header
  // ---------------------------------------------------------------------------

  /** Byte 2 of the header: QR, OPCODE, AA, TC, RD. */
  function FlagsByte(h: Header): byte
  {
    (BoolToByte(h.qr) << 7) + ((h.opcode & 15) << 3)
      + (BoolToByte(h.aa) << 2) + (BoolToByte(h.tc) << 1) + BoolToByte(h.rd)
  }

  /** Byte 3 of the header: RA, three Z bits, RCODE. */
  function RcodeByte(h: Header): byte
  {
    (BoolToByte(h.ra) << 7) + (h.rcode & 15)
  }

  /** The fields that are summed into bytes 2 and 3 occupy disjoint bits: no sum carries. */
  lemma FlagFieldsDisjoint(h: Header)
    ensures FlagsByte(h) == (BoolToByte(h.qr) << 7) | ((h.opcode & 15) << 3)
      | (BoolToByte(h.aa) << 2) | (BoolToByte(h.tc) << 1) | BoolToByte(h.rd)
    ensures RcodeByte(h) == (BoolToByte(h.ra) << 7) | (h.rcode & 15)
  {
  }

  /** Byte 2 gives back QR, the low four bits of OPCODE, AA, TC and RD. */
  lemma FlagsByteFields(h: Header)
    ensures var f := FlagsByte(h);
      && (f & 128 != 0) == h.qr && (f >> 3) & 15 == h.opcode & 15
      && (f & 4 != 0) == h.aa && (f & 2 != 0) == h.tc && (f & 1 != 0) == h.rd
  {
    FlagFieldsDisjoint(h);
  }

  /** Byte 3 gives back RA and the low four bits of RCODE, with the Z bits clear. */
  lemma RcodeByteFields(h: Header)
    ensures var r := RcodeByte(h);
      (r & 128 != 0) == h.ra && r & 15 == h.rcode & 15 && r & 0x70 == 0
  {
    FlagFieldsDisjoint(h);
  }

  /** The header fields of a message of at least 12 bytes. */
  function DecodeHeader(b: seq<byte>): Header
    requires |b| >= HeaderLength
  {
    Header(
      Uint16(b[0], b[1]),
      b[2] & 128 != 0, (b[2] >> 3) & 15, b[2] & 4 != 0, b[2] & 2 != 0, b[2] & 1 != 0,
      b[3] & 128 != 0, b[3] & 15,
      Uint16(b[4], b[5]))
  }

  /** The header as it survives a round trip: opcode and rcode cut to four bits. */
  function Truncated(h: Header): Header
  {
    h.(opcode := h.opcode & 15, rcode := h.rcode & 15)
  }

  /** The 12-byte header; NSCOUNT and ARCOUNT are always zero. */
  function EncodeHeader(h: Header, ancount: bv16): (b: seq<byte>)
    ensures |b| == HeaderLength
    ensures DecodeHeader(b) == Truncated(h)
    ensures Uint16(b[6], b[7]) == ancount
    ensures b[3] & 0x70 == 0
    ensures b[8..] == [0, 0, 0, 0]
  {
    FlagsByteFields(h);
    RcodeByteFields(h);
    var id, qd, an := BigEndian16(h.id), BigEndian16(h.qdcount), BigEndian16(ancount);
    var b := id + [FlagsByte(h), RcodeByte(h)] + qd + an + [0, 0, 0, 0];
    assert b[0] == id[0] && b[1] == id[1] && b[2] == FlagsByte(h) && b[3] == RcodeByte(h);
    assert b[4] == qd[0] && b[5] == qd[1] && b[6] == an[0] && b[7] == an[1];
    b
  }

  /** A non-zero Z field does not change what is decoded. */
  lemma DecodeHeaderIgnoresZ(b: seq<byte>)
    requires |b| >= HeaderLength
    ensures DecodeHeader(b[3 := b[3] & 0x8F]) == DecodeHeader(b)
  {
  }

  // ---------------------------------------------------------------------------
  // Names
  // ---------------------------------------------------------------------------

  /** Every label fits a length byte. */
  predicate Encodable(name: seq<Label>)
  {
    forall k | 0 <= k < |name| :: |name[k]| < 256
  }

  /** Every label is non-empty and fits a length byte: the names that survive a round trip. */
  predicate WellFormedName(name: seq<Label>)
  {
    forall k | 0 <= k < |name| :: 0 < |name[k]| < 256
  }

  /** Number of bytes of the labels with their length bytes, without the final zero. */
  function LabelsSize(name: seq<Label>): nat
  {
    if |name| == 0 then 0 else |name[0]| + 1 + LabelsSize(name[1..])
  }

  /** The labels, each as its length byte followed by its bytes, without the final zero. */
  function EncodeLabels(name: seq<Label>): (b: seq<byte>)
    requires Encodable(name)
    ensures |b| == LabelsSize(name)
  {
    if |name| == 0 then []
    else [|name[0]| as byte] + name[0] + EncodeLabels(name[1..])
  }

  lemma {:induction false} EncodeLabelsSnoc(name: seq<Label>, l: Label)
    requires Encodable(name) && |l| < 256
    ensures Encodable(name + [l])
    ensures EncodeLabels(name + [l]) == EncodeLabels(name) + [|l| as byte] + l
  {
    if |name| == 0 {
      assert name + [l] == [l];
    } else {
      EncodeLabelsSnoc(name[1..], l);
      EncodeLabelsSnocStep(name, l);
    }
  }

  /** The step of EncodeLabelsSnoc: appending after the first label, given the fact for the others. */
  lemma EncodeLabelsSnocStep(name: seq<Label>, l: Label)
    requires |name| > 0 && Encodable(name) && |l| < 256
    requires Encodable(name[1..] + [l])
    requires EncodeLabels(name[1..] + [l]) == EncodeLabels(name[1..]) + [|l| as byte] + l
    ensures Encodable(name + [l])
    ensures EncodeLabels(name + [l]) == EncodeLabels(name) + [|l| as byte] + l
  {
    var head := [|name[0]| as byte] + name[0];
    var tail := EncodeLabels(name[1..]);
    EncodeLabelsUnfold(name + [l]);
    assert (name + [l])[1..] == name[1..] + [l];
    ConcatAssoc(head, tail, [|l| as byte]);
    ConcatAssoc(head, tail + [|l| as byte], l);
  }

  /** The wire form of a non-empty name starts with its first label. */
  lemma EncodeLabelsUnfold(name: seq<Label>)
    requires |name| > 0 && Encodable(name)
    ensures Encodable(name[1..])
    ensures EncodeLabels(name) == [|name[0]| as byte] + name[0] + EncodeLabels(name[1..])
  {
  }

  /** A name in wire form: the labels and a zero byte; fails on a label of 256 bytes or more. */
  function EncodeName(name: seq<Label>): (r: Result<seq<byte>, WireError>)
    ensures r.Ok? <==> forall k | 0 <= k < |name| :: |name[k]| < 256
    ensures r.Ok? ==> |r.value| == LabelsSize(name) + 1 && r.value[|r.value| - 1] == 0
  {
    if Encodable(name) then Ok(EncodeLabels(name) + [0]) else Err(LabelTooLong)
  }

  /** The loop of the server's name serialiser, appending label after label. */
  method NameToBytes(name: seq<Label>) returns (r: Result<seq<byte>, WireError>)
    ensures r == EncodeName(name)
  {
    var result: seq<byte> := [];
    for i := 0 to |name|
      invariant Encodable(name[..i])
      invariant result == EncodeLabels(name[..i])
    {
      var bLen := |name[i]|;
      if bLen >= 256 {
        return Err(LabelTooLong);
      }
      EncodeLabelsSnoc(name[..i], name[i]);
      assert name[..i + 1] == name[..i] + [name[i]];
      result := result + [bLen as byte] + name[i];
    }
    assert name[..|name|] == name;
    r := Ok(result + [0]);
  }

  // ---------------------------------------------------------------------------
  // Questions and answers
  // ---------------------------------------------------------------------------

  /** A question in wire form: name, QTYPE, QCLASS. */
  function EncodeQuestion(q: Question): (r: Result<seq<byte>, WireError>)
    ensures r.Ok? <==> Encodable(q.qname)
    ensures r.Ok? ==> |r.value| == LabelsSize(q.qname) + 5
  {
    match EncodeName(q.qname)
    case Err(e) => Err(e)
    case Ok(n) => Ok(n + BigEndian16(q.qtype) + BigEndian16(q.qclass))
  }

  /** The question serialiser: the name, then the two big-endian 16-bit fields. */
  method WriteQuestion(q: Question) returns (r: Result<seq<byte>, WireError>)
    ensures r == EncodeQuestion(q)
  {
    var result := NameToBytes(q.qname);
    if result.Err? {
      return Err(result.error);
    }
    r := Ok(result.value + BigEndian16(q.qtype) + BigEndian16(q.qclass));
  }

  /** A resource record in wire form: name, TYPE, CLASS, TTL, RDLENGTH, RDATA. */
  function EncodeAnswer(a: Answer): (r: Result<seq<byte>, WireError>)
    ensures r.Ok? <==> Encodable(a.aname)
    ensures r.Ok? ==> |r.value| == LabelsSize(a.aname) + 11 + |a.rdata|
  {
    match EncodeName(a.aname)
    case Err(e) => Err(e)
    case Ok(n) =>
      Ok(n + BigEndian16(a.atype) + BigEndian16(a.aclass) + BigEndian32(a.ttl)
          + BigEndian16(a.rdlength) + a.rdata)
  }

  /** The resource-record serialiser. */
  method WriteAnswer(a: Answer) returns (r: Result<seq<byte>, WireError>)
    ensures r == EncodeAnswer(a)
  {
    var result := NameToBytes(a.aname);
    if result.Err? {
      return Err(result.error);
    }
    var bttl := BigEndian32(a.ttl);
    r := Ok(result.value + BigEndian16(a.atype) + BigEndian16(a.aclass) + bttl
            + BigEndian16(a.rdlength) + a.rdata);
  }

  /**
    The label loop of the question parser from cursor cur with labels acc read
    so far: the labels and the cursor after the loop, or an error. The loop
    stops after a zero length byte (consuming it) or when the cursor reaches
    the end.
  */
  function DecodeLabels(b: seq<byte>, cur: nat, acc: seq<Label>): Result<(seq<Label>, nat), WireError>
    decreases |b| - cur
  {
    if cur >= |b| then Ok((acc, cur))
    else
      var len := b[cur] as int;
      if len == 0 then Ok((acc, cur + 1))
      else if len + cur + 1 >= |b| then Err(DomainLongerThanPacket)
      else DecodeLabels(b, cur + 1 + len, acc + [b[cur + 1..cur + 1 + len]])
  }

  /** The question at the start of b and the bytes after it. */
  function DecodeQuestion(b: seq<byte>): Result<(Question, seq<byte>), WireError>
  {
    match DecodeLabels(b, 0, [])
    case Err(e) => Err(e)
    case Ok((labels, cur)) =>
      if |b| < cur + 4 then Err(NoTypeAndClass)
      else Ok((Question(labels, Uint16(b[cur], b[cur + 1]), Uint16(b[cur + 2], b[cur + 3])), b[cur + 4..]))
  }

  /** The question parser: a cursor walks the labels, then qtype and qclass are read. */
  method ParseQuestion(bytes: seq<byte>) returns (r: Result<(Question, seq<byte>), WireError>)
    ensures r == DecodeQuestion(bytes)
  {
    var bLen := |bytes|;
    var currentByte := 0;
    var qname: seq<Label> := [];
    while currentByte < bLen
      invariant 0 <= currentByte <= bLen
      invariant DecodeLabels(bytes, currentByte, qname) == DecodeLabels(bytes, 0, [])
      decreases bLen - currentByte
    {
      var lengthOfDomain := bytes[currentByte] as int;
      if lengthOfDomain == 0 {
        currentByte := currentByte + 1;
        break;
      } else if lengthOfDomain + currentByte + 1 >= bLen {
        return Err(DomainLongerThanPacket);
      } else {
        qname := qname + [bytes[currentByte + 1..currentByte + 1 + lengthOfDomain]];
        currentByte := currentByte + lengthOfDomain + 1;
      }
    }
    assert DecodeLabels(bytes, 0, []) == Ok((qname, currentByte));
    if bLen < currentByte + 4 {
      return Err(NoTypeAndClass);
    }
    var qtype := Uint16(bytes[currentByte], bytes[currentByte + 1]);
    var qclass := Uint16(bytes[currentByte + 2], bytes[currentByte + 3]);
    r := Ok((Question(qname, qtype, qclass), bytes[currentByte + 4..]));
  }

  /** Reading one length-prefixed label at cursor cur. */
  lemma LabelAt(b: seq<byte>, cur: nat, l: Label, after: seq<byte>)
    requires 0 < |l| < 256
    requires cur <= |b| && b[cur..] == [|l| as byte] + l + after
    ensures cur + 1 + |l| <= |b|
    ensures b[cur] as int == |l|
    ensures b[cur + 1..cur + 1 + |l|] == l
    ensures b[cur + 1 + |l|..] == after
  {
    ByteValue(|l|);
    assert b[cur] == b[cur..][0];
    assert b[cur + 1..cur + 1 + |l|] == b[cur..][1..1 + |l|];
    assert b[cur + 1 + |l|..] == b[cur..][1 + |l|..];
  }

  /** The label loop reads back the labels of an encoded name and stops after its zero byte. */
  lemma {:induction false} DecodeLabelsOfEncoding(b: seq<byte>, cur: nat, acc: seq<Label>, name: seq<Label>, tail: seq<byte>)
    requires WellFormedName(name)
    requires cur <= |b| && b[cur..] == EncodeLabels(name) + [0] + tail
    ensures DecodeLabels(b, cur, acc) == Ok((acc + name, |b| - |tail|))
    decreases |name|
  {
    if |name| == 0 {
      assert b[cur..][0] == 0;
      assert acc + name == acc;
    } else {
      FirstLabelAt(b, cur, name, tail);
      var next := cur + 1 + |name[0]|;
      DecodeLabelsOfEncoding(b, next, acc + [name[0]], name[1..], tail);
      DecodeFirstLabel(b, cur, acc, name, |b| - |tail|);
    }
  }

  /** The first label of an encoded name, and the encoding of the others after it. */
  lemma FirstLabelAt(b: seq<byte>, cur: nat, name: seq<Label>, tail: seq<byte>)
    requires WellFormedName(name) && |name| > 0
    requires cur <= |b| && b[cur..] == EncodeLabels(name) + [0] + tail
    ensures WellFormedName(name[1..])
    ensures cur + 1 + |name[0]| <= |b| && b[cur] as int == |name[0]|
    ensures b[cur + 1..cur + 1 + |name[0]|] == name[0]
    ensures b[cur + 1 + |name[0]|..] == EncodeLabels(name[1..]) + [0] + tail
  {
    var after := EncodeLabels(name[1..]) + [0] + tail;
    assert b[cur..] == [|name[0]| as byte] + name[0] + after;
    LabelAt(b, cur, name[0], after);
  }

  /** Reading a label of non-zero length, then the rest of the name, reads the whole name. */
  lemma DecodeFirstLabel(b: seq<byte>, cur: nat, acc: seq<Label>, name: seq<Label>, end: nat)
    requires |name| > 0 && 0 < |name[0]| < 256
    requires cur + 1 + |name[0]| < |b| && b[cur] as int == |name[0]|
    requires b[cur + 1..cur + 1 + |name[0]|] == name[0]
    requires DecodeLabels(b, cur + 1 + |name[0]|, acc + [name[0]]) == Ok((acc + [name[0]] + name[1..], end))
    ensures DecodeLabels(b, cur, acc) == Ok((acc + name, end))
  {
    assert acc + [name[0]] + name[1..] == acc + name;
  }

  /** A slice is the concatenation of its two halves. */
  lemma SliceConcat(b: seq<byte>, i: nat, j: nat, k: nat)
    requires i <= j <= k <= |b|
    ensures b[i..k] == b[i..j] + b[j..k]
  {
  }

  /** A byte read as a number and converted back is the same byte. */
  lemma ByteRoundTrip(x: byte)
    ensures 0 <= x as int < 256 && (x as int) as byte == x
  {
  }

  lemma EncodeLabelsCons(l: Label, rest: seq<Label>)
    requires |l| < 256 && Encodable(rest)
    ensures Encodable([l] + rest)
    ensures EncodeLabels([l] + rest) == [|l| as byte] + l + EncodeLabels(rest)
  {
    assert ([l] + rest)[1..] == rest;
  }

  /** A length byte and its label in front of an encoded name form the longer encoded name. */
  lemma LabelBefore(b: seq<byte>, cur: nat, end: nat, l: Label, rest: seq<Label>)
    requires 0 < |l| < 256 && WellFormedName(rest)
    requires cur + 1 + |l| <= end <= |b|
    requires b[cur] as int == |l| && b[cur + 1..cur + 1 + |l|] == l
    requires b[cur + 1 + |l|..end] == EncodeLabels(rest) + [0]
    ensures WellFormedName([l] + rest)
    ensures b[cur..end] == EncodeLabels([l] + rest) + [0]
  {
    var next := cur + 1 + |l|;
    EncodeLabelsCons(l, rest);
    ByteRoundTrip(b[cur]);
    var lengthByte := |l| as byte;
    assert b[cur] == lengthByte;
    SliceConcat(b, cur, cur + 1, end);
    SliceConcat(b, cur + 1, next, end);
    assert b[cur..cur + 1] == [lengthByte];
    var e := EncodeLabels(rest);
    assert b[cur..end] == [lengthByte] + (l + (e + [0]));
    Regroup(lengthByte, l, e);
  }

  lemma Regroup(x: byte, l: seq<byte>, e: seq<byte>)
    ensures [x] + (l + (e + [0])) == ([x] + l + e) + [0]
  {
  }

  /** One label read by the loop, in front of what the rest of the loop accepted, extends the encoded name. */
  lemma LabelStepSound(b: seq<byte>, cur: nat, acc: seq<Label>, l: Label, labels: seq<Label>, end: nat)
    requires 0 < |l| < 256 && cur + 1 + |l| < |b|
    requires b[cur] as int == |l| && b[cur + 1..cur + 1 + |l|] == l
    requires |acc + [l]| <= |labels| && labels[..|acc| + 1] == acc + [l]
    requires WellFormedName(labels[|acc| + 1..])
    requires cur + 1 + |l| < end <= |b| && b[cur + 1 + |l|..end] == EncodeLabels(labels[|acc| + 1..]) + [0]
    ensures |acc| <= |labels| && labels[..|acc|] == acc
    ensures WellFormedName(labels[|acc|..])
    ensures cur < end <= |b| && b[cur..end] == EncodeLabels(labels[|acc|..]) + [0]
  {
    var rest := labels[|acc| + 1..];
    assert labels[..|acc|] == acc by {
      assert labels[..|acc|] == labels[..|acc| + 1][..|acc|];
      assert (acc + [l])[..|acc|] == acc;
    }
    assert labels[|acc|..] == [l] + rest by {
      assert labels[|acc|] == (acc + [l])[|acc|];
    }
    LabelBefore(b, cur, end, l, rest);
  }

  /** Whatever the label loop accepts from a byte that exists is an encoded name followed by its zero byte. */
  lemma {:induction false} DecodeLabelsSound(b: seq<byte>, cur: nat, acc: seq<Label>, labels: seq<Label>, end: nat)
    requires cur < |b|
    requires DecodeLabels(b, cur, acc) == Ok((labels, end))
    ensures |acc| <= |labels| && labels[..|acc|] == acc
    ensures WellFormedName(labels[|acc|..])
    ensures cur < end <= |b| && b[cur..end] == EncodeLabels(labels[|acc|..]) + [0]
    decreases |b| - cur
  {
    if b[cur] == 0 {
      DecodeLabelsEnd(b, cur, acc, labels, end);
    } else {
      DecodeLabelsUnfold(b, cur, acc, labels, end);
      var next := cur + 1 + b[cur] as int;
      var l := b[cur + 1..next];
      DecodeLabelsSound(b, next, acc + [l], labels, end);
      LabelStepSound(b, cur, acc, l, labels, end);
    }
  }

  /** A zero length byte ends the name: the labels read are those accumulated. */
  lemma DecodeLabelsEnd(b: seq<byte>, cur: nat, acc: seq<Label>, labels: seq<Label>, end: nat)
    requires cur < |b| && b[cur] == 0
    requires DecodeLabels(b, cur, acc) == Ok((labels, end))
    ensures |acc| <= |labels| && labels[..|acc|] == acc
    ensures WellFormedName(labels[|acc|..])
    ensures cur < end <= |b| && b[cur..end] == EncodeLabels(labels[|acc|..]) + [0]
  {
    assert labels == acc && end == cur + 1;
    assert labels[|acc|..] == [];
  }

  /** A non-zero length byte is followed by that many bytes of label, and reading goes on after them. */
  lemma DecodeLabelsUnfold(b: seq<byte>, cur: nat, acc: seq<Label>, labels: seq<Label>, end: nat)
    requires cur < |b| && b[cur] != 0
    requires DecodeLabels(b, cur, acc) == Ok((labels, end))
    ensures 0 < b[cur] as int < 256 && cur + 1 + b[cur] as int < |b|
    ensures DecodeLabels(b, cur + 1 + b[cur] as int, acc + [b[cur + 1..cur + 1 + b[cur] as int]]) == Ok((labels, end))
  {
    ByteRoundTrip(b[cur]);
  }

  /** Round trip: a well-formed question is read back, with the bytes that follow it left over. */
  lemma QuestionRoundTrip(q: Question, rest: seq<byte>)
    requires WellFormedName(q.qname)
    ensures EncodeQuestion(q).Ok?
    ensures DecodeQuestion(EncodeQuestion(q).value + rest) == Ok((q, rest))
  {
    var name := EncodeLabels(q.qname) + [0];
    var t := BigEndian16(q.qtype);
    var c := BigEndian16(q.qclass);
    EncodeQuestionValue(q);
    ConcatAssoc(name, t, c);
    ConcatAssoc(name, t + c, rest);
    ConcatAssoc(t, c, rest);
    DecodeQuestionOfParts(q, name + (t + c + rest), rest);
  }

  /** Decoding the name's wire form followed by the type, the class and more bytes. */
  lemma DecodeQuestionOfParts(q: Question, b: seq<byte>, rest: seq<byte>)
    requires WellFormedName(q.qname)
    requires b == (EncodeLabels(q.qname) + [0]) + (BigEndian16(q.qtype) + BigEndian16(q.qclass) + rest)
    ensures DecodeQuestion(b) == Ok((q, rest))
  {
    var name := EncodeLabels(q.qname);
    var t := BigEndian16(q.qtype);
    var c := BigEndian16(q.qclass);
    var cur := |name| + 1;
    assert b[0..] == b;
    DecodeLabelsOfEncoding(b, 0, [], q.qname, t + c + rest);
    assert [] + q.qname == q.qname;
    assert |b| - |t + c + rest| == cur;
    SliceAfter(b, name + [0], t + c + rest);
    TypeAndClassAt(b, cur, t, c, rest);
    DecodeQuestionAt(b, q, cur, rest);
  }

  /** The question decoded once its name has been read up to cur and its type and class follow. */
  lemma DecodeQuestionAt(b: seq<byte>, q: Question, cur: nat, rest: seq<byte>)
    requires DecodeLabels(b, 0, []) == Ok((q.qname, cur))
    requires |b| >= cur + 4 && b[cur + 4..] == rest
    requires [b[cur], b[cur + 1]] == BigEndian16(q.qtype) && [b[cur + 2], b[cur + 3]] == BigEndian16(q.qclass)
    ensures DecodeQuestion(b) == Ok((q, rest))
  {
    assert Uint16(b[cur], b[cur + 1]) == q.qtype;
    assert Uint16(b[cur + 2], b[cur + 3]) == q.qclass;
  }

  /** The wire form of a question with encodable labels. */
  lemma EncodeQuestionValue(q: Question)
    requires WellFormedName(q.qname)
    ensures EncodeQuestion(q) == Ok(EncodeLabels(q.qname) + [0] + BigEndian16(q.qtype) + BigEndian16(q.qclass))
  {
  }

  /** What follows a prefix is the slice after it. */
  lemma SliceAfter(b: seq<byte>, p: seq<byte>, after: seq<byte>)
    requires b == p + after
    ensures b[|p|..] == after
  {
  }

  /** The four bytes at cur, read as two big-endian values, and what follows them. */
  lemma TypeAndClassAt(b: seq<byte>, cur: nat, t: seq<byte>, c: seq<byte>, rest: seq<byte>)
    requires cur <= |b| && b[cur..] == t + c + rest && |t| == 2 && |c| == 2
    ensures |b| >= cur + 4
    ensures [b[cur], b[cur + 1]] == t && [b[cur + 2], b[cur + 3]] == c
    ensures b[cur + 4..] == rest
  {
    assert b[cur..][4..] == rest;
    assert b[cur] == t[0] && b[cur + 1] == t[1] && b[cur + 2] == c[0] && b[cur + 3] == c[1];
  }

  /** Soundness: whatever is decoded is a well-formed question whose encoding is exactly the bytes consumed. */
  lemma DecodeQuestionSound(b: seq<byte>, q: Question, rest: seq<byte>)
    requires DecodeQuestion(b) == Ok((q, rest))
    ensures WellFormedName(q.qname)
    ensures EncodeQuestion(q).Ok? && b == EncodeQuestion(q).value + rest
  {
    var r := DecodeLabels(b, 0, []);
    var cur := r.value.1;
    assert 0 < |b|;
    DecodeLabelsSound(b, 0, [], q.qname, cur);
    assert q.qname[0..] == q.qname;
    BigEndian16OfUint16(b[cur], b[cur + 1]);
    BigEndian16OfUint16(b[cur + 2], b[cur + 3]);
    EncodeQuestionValue(q);
    QuestionBytes(b, cur);
  }

  /** Bytes cut at a name's end, its type, its class and what follows. */
  lemma QuestionBytes(b: seq<byte>, cur: nat)
    requires cur + 4 <= |b|
    ensures b == b[0..cur] + [b[cur], b[cur + 1]] + [b[cur + 2], b[cur + 3]] + b[cur + 4..]
  {
  }

  // ---------------------------------------------------------------------------
  // Whole messages
  // ---------------------------------------------------------------------------

  /** A reply in wire form: header, question, answer; fails beyond 512 bytes. */
  function EncodeMessage(h: Header, ancount: bv16, q: Question, a: Answer): (r: Result<seq<byte>, WireError>)
    ensures r.Ok? ==> |r.value| <= MaxUdpMessage
    ensures r.Ok? ==> EncodeQuestion(q).Ok? && EncodeAnswer(a).Ok?
    ensures r.Ok? ==> r.value == EncodeHeader(h, ancount) + EncodeQuestion(q).value + EncodeAnswer(a).value
    ensures r.Err? ==>
      || !Encodable(q.qname)
      || !Encodable(a.aname)
      || HeaderLength + LabelsSize(q.qname) + 5 + LabelsSize(a.aname) + 11 + |a.rdata| > MaxUdpMessage
  {
    match EncodeQuestion(q)
    case Err(e) => Err(e)
    case Ok(qb) =>
      match EncodeAnswer(a)
      case Err(e) => Err(e)
      case Ok(ab) =>
        var m := EncodeHeader(h, ancount) + qb + ab;
        if |m| > MaxUdpMessage then Err(MessageTooLong) else Ok(m)
  }

  // ---------------------------------------------------------------------------
  // IPv4 addresses in dotted-decimal text
  // ---------------------------------------------------------------------------

  /** One dotted-decimal component: one or more digits with a value of at most 255. */
  predicate IsOctetText(p: string)
  {
    |p| > 0 && AllDigits(p) && DecimalValue(p) <= 255
  }

  /** The byte a dotted-decimal component stands for. */
  function OctetByte(p: string): (b: byte)
    requires IsOctetText(p)
    ensures b as int == DecimalValue(p)
  {
    var n := DecimalValue(p);
    ByteValue(n);
    n as byte
  }

  /** The four bytes named by four dotted-decimal components, or None. */
  function Octets(parts: seq<string>): (r: Option<seq<byte>>)
    ensures r.Some? <==> |parts| == 4 && forall k | 0 <= k < 4 :: IsOctetText(parts[k])
    ensures r.Some? ==> |r.value| == 4 && forall k | 0 <= k < 4 :: r.value[k] as int == DecimalValue(parts[k])
  {
    if |parts| == 4 && IsOctetText(parts[0]) && IsOctetText(parts[1])
      && IsOctetText(parts[2]) && IsOctetText(parts[3])
    then Some([OctetByte(parts[0]), OctetByte(parts[1]), OctetByte(parts[2]), OctetByte(parts[3])])
    else None
  }

  /** The four bytes of an IPv4 address in dotted-decimal text, or None (Go's net.ParseIP followed by To4, for dotted-decimal text). */
  function ParseIpv4(s: string): Option<seq<byte>>
  {
    Octets(Split(s, '.'))
  }

  /** The dotted-decimal text of four bytes, without leading zeros. */
  function FormatIpv4(b: seq<byte>): string
    requires |b| == 4
  {
    Join(seq(4, k requires 0 <= k < 4 => DecimalString(b[k] as int)), '.')
  }

  /** Two bytes with the same value are equal. */
  lemma ByteEqualByValue(x: byte, y: byte)
    requires x as int == y as int
    ensures x == y
  {
  }

  /** Formatting an address and parsing the text gives the address back. */
  lemma Ipv4RoundTrip(b: seq<byte>)
    requires |b| == 4
    ensures ParseIpv4(FormatIpv4(b)) == Some(b)
  {
    var parts := seq(4, k requires 0 <= k < 4 => DecimalString(b[k] as int));
    forall k | 0 <= k < 4
      ensures '.' !in parts[k]
      ensures IsOctetText(parts[k]) && DecimalValue(parts[k]) == b[k] as int
    {
    }
    SplitJoin(parts, '.');
    assert Split(FormatIpv4(b), '.') == parts;
    var r := Octets(parts);
    assert r.Some?;
    forall k | 0 <= k < 4
      ensures r.value[k] == b[k]
    {
      ByteEqualByValue(r.value[k], b[k]);
    }
    assert r.value == b;
  }
}
