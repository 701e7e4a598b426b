/** The fixed 12-byte DNS message header of section 4.1.1 of RFC 1035:
    six big-endian 16-bit fields, the second of which packs the flags. */
module Header {
  import opened Bytes

  // Masks of the flag word (QR, OPCODE, AA, TC, RD, RA, RCODE).
  const QUERY: u16 := 0x8000
  const OPCODE: u16 := 0x7800
  const AUTHORITATIVE: u16 := 0x0400
  const TRUNCATED: u16 := 0x0200
  const RECURSION_DESIRED: u16 := 0x0100
  const RECURSION_AVAILABLE: u16 := 0x0080
  const RCODE: u16 := 0x000F

  /** Size of the header on the wire: six 16-bit words. */
  const HEADER_SIZE: nat := 12

  datatype DnsHeader = DnsHeader(
    id: u16,
    flags: u16,
    questionsCount: u16,
    answersCount: u16,
    nameServersCount: u16,
    additionalRecordsCount: u16)

  /** Operation codes; any code without a name is `Reserved`. */
  datatype OpCode = StandardQuery | InverseQuery | ServerStatusRequest | Notify | Update | Reserved

  /** Response codes 0-5 of RFC 1035 and 6-10 of section 2.2 of RFC 2136;
      any other code is `Reserved`. */
  datatype RCode =
    | NoError | FormatError | ServerFailure | NameError | NotImplemented | Refused
    | YXDomain | YXRRSet | NXRRSet | NotAuth | NotZone
    | Reserved

  /** The Rust discriminant of each operation code; `Reserved`, declared
      after `Update = 5` without a value, takes 6. */
  function OpCodeDiscriminant(op: OpCode): u16
  {
    match op
    case StandardQuery => 0
    case InverseQuery => 1
    case ServerStatusRequest => 2
    case Notify => 4
    case Update => 5
    case Reserved => 6
  }

  /** `From<u16> for OpCode`: total, unknown codes become `Reserved`. */
  function OpCodeFrom(code: u16): OpCode
  {
    match code
    case 0 => StandardQuery
    case 1 => InverseQuery
    case 2 => ServerStatusRequest
    case 4 => Notify
    case 5 => Update
    case _ => OpCode.Reserved
  }

  /** The conversion is the inverse of the discriminants, and a code maps
      to a named operation exactly when it is one of 0, 1, 2, 4 and 5. */
  lemma OpCodeConversion(op: OpCode, code: u16)
    ensures OpCodeFrom(OpCodeDiscriminant(op)) == op
    ensures OpCodeFrom(code) != OpCode.Reserved <==> code in {0, 1, 2, 4, 5}
    ensures OpCodeFrom(code) != OpCode.Reserved ==> OpCodeDiscriminant(OpCodeFrom(code)) == code
  {
  }

  /** The Rust discriminant of each response code; `Reserved` takes 11. */
  function RCodeDiscriminant(rc: RCode): u16
  {
    match rc
    case NoError => 0
    case FormatError => 1
    case ServerFailure => 2
    case NameError => 3
    case NotImplemented => 4
    case Refused => 5
    case YXDomain => 6
    case YXRRSet => 7
    case NXRRSet => 8
    case NotAuth => 9
    case NotZone => 10
    case Reserved => 11
  }

  /** `From<u16> for RCode`: total, unknown codes become `Reserved`. */
  function RCodeFrom(code: u16): RCode
  {
    match code
    case 0 => NoError
    case 1 => FormatError
    case 2 => ServerFailure
    case 3 => NameError
    case 4 => NotImplemented
    case 5 => Refused
    case 6 => YXDomain
    case 7 => YXRRSet
    case 8 => NXRRSet
    case 9 => NotAuth
    case 10 => NotZone
    case _ => RCode.Reserved
  }

  /** The conversion inverts the discriminants; exactly the codes 0..10
      have a name. */
  lemma RCodeConversion(rc: RCode, code: u16)
    ensures RCodeFrom(RCodeDiscriminant(rc)) == rc
    ensures RCodeFrom(code) != RCode.Reserved <==> code <= 10
    ensures RCodeFrom(code) != RCode.Reserved ==> RCodeDiscriminant(RCodeFrom(code)) == code
  {
  }

  /** `DNSHeader::new`: every field zero, so it encodes as twelve zero bytes. */
  function New(): (h: DnsHeader)
    ensures Raw(h) == seq(HEADER_SIZE, _ => 0)
    ensures IsQuery(h) && GetOpcode(h) == StandardQuery && GetResponseCode(h) == NoError
  {
    DnsHeader(0, 0, 0, 0, 0, 0)
  }

  /** `DNSHeader::from_values`. */
  function FromValues(id: u16, flags: u16, qd: u16, an: u16, ns: u16, ar: u16): DnsHeader
  {
    DnsHeader(id, flags, qd, an, ns, ar)
  }

  /** The six arguments of `from_values` reach the wire verbatim, in order. */
  lemma FromValuesOnWire(id: u16, flags: u16, qd: u16, an: u16, ns: u16, ar: u16)
    ensures var b := Raw(FromValues(id, flags, qd, an, ns, ar));
      && b[0..2] == BE16(id) && b[2..4] == BE16(flags) && b[4..6] == BE16(qd)
      && b[6..8] == BE16(an) && b[8..10] == BE16(ns) && b[10..12] == BE16(ar)
  {
    var ws := Words(FromValues(id, flags, qd, an, ns, ar));
    EncodeWordsAt(ws, 0);
    EncodeWordsAt(ws, 1);
    EncodeWordsAt(ws, 2);
    EncodeWordsAt(ws, 3);
    EncodeWordsAt(ws, 4);
    EncodeWordsAt(ws, 5);
  }

  /** The six words of a header, in wire order. */
  function Words(h: DnsHeader): seq<u16>
  {
    [h.id, h.flags, h.questionsCount, h.answersCount, h.nameServersCount, h.additionalRecordsCount]
  }

  /** `DNSHeader::from_bytes`: six big-endian words at offsets 0, 2, .., 10.
      The Rust parameter is a `[u8; 12]`, hence the precondition. */
  function FromBytes(b: seq<byte>): (h: DnsHeader)
    requires |b| == HEADER_SIZE
    ensures Raw(h) == b
  {
    var ws := ReadWords(b, 6);
    var h := DnsHeader(ws[0], ws[1], ws[2], ws[3], ws[4], ws[5]);
    assert Words(h) == ws;
    EncodeWordsOfRead(b, 6);
    h
  }

  /** `Raw::raw` for the header: the same six words at the same offsets. */
  function Raw(h: DnsHeader): (r: seq<byte>)
    ensures |r| == RawSize(h)
  {
    EncodeWords(Words(h))
  }

  /** `Raw::raw_size` for the header. */
  function RawSize(h: DnsHeader): nat
  {
    HEADER_SIZE
  }

  /** Decoding the encoding of any header gives the header back. */
  lemma FromBytesOfRaw(h: DnsHeader)
    ensures FromBytes(Raw(h)) == h
  {
    ReadWordsOfEncode(Words(h), []);
    assert Raw(h) + [] == Raw(h);
  }

  predicate IsQuery(h: DnsHeader)
  {
    h.flags & QUERY == 0
  }

  function GetOpcode(h: DnsHeader): OpCode
  {
    OpCodeFrom((h.flags & OPCODE) >> 11)
  }

  predicate IsAuthoritativeAnswer(h: DnsHeader)
  {
    h.flags & AUTHORITATIVE != 0
  }

  predicate IsTruncated(h: DnsHeader)
  {
    h.flags & TRUNCATED != 0
  }

  predicate IsRecursionDesired(h: DnsHeader)
  {
    h.flags & RECURSION_DESIRED != 0
  }

  predicate IsRecursionAvailable(h: DnsHeader)
  {
    h.flags & RECURSION_AVAILABLE != 0
  }

  function GetResponseCode(h: DnsHeader): RCode
  {
    RCodeFrom(h.flags & RCODE)
  }

  /** The flag word laid out as RFC 1035 draws it, most significant bit
      first: QR(1) OPCODE(4) AA(1) TC(1) RD(1) RA(1) Z(1) AD(1) CD(1)
      RCODE(4).  An independent description of the accessors above. */
  function FlagWord(qr: bool, opcode: bv4, aa: bool, tc: bool, rd: bool, ra: bool,
                    z: bool, ad: bool, cd: bool, rcode: bv4): u16
  {
    (if qr then 0x8000 else 0) | (opcode as u16 << 11)
    | (if aa then 0x0400 else 0) | (if tc then 0x0200 else 0)
    | (if rd then 0x0100 else 0) | (if ra then 0x0080 else 0)
    | (if z then 0x0040 else 0) | (if ad then 0x0020 else 0)
    | (if cd then 0x0010 else 0) | rcode as u16
  }

  /** Each accessor reads back exactly its own field of the layout:
      `is_query` is the negated QR bit 15, the booleans are bits 10, 9, 8
      and 7, the opcode is bits 11-14 and the response code bits 0-3.
      The other fields do not disturb them. */
  lemma AccessorsReadLayout(h: DnsHeader, qr: bool, opcode: bv4, aa: bool, tc: bool, rd: bool,
                            ra: bool, z: bool, ad: bool, cd: bool, rcode: bv4)
    requires h.flags == FlagWord(qr, opcode, aa, tc, rd, ra, z, ad, cd, rcode)
    ensures IsQuery(h) == !qr
    ensures GetOpcode(h) == OpCodeFrom(opcode as u16)
    ensures IsAuthoritativeAnswer(h) == aa
    ensures IsTruncated(h) == tc
    ensures IsRecursionDesired(h) == rd
    ensures IsRecursionAvailable(h) == ra
    ensures GetResponseCode(h) == RCodeFrom(rcode as u16)
  {
  }

  /** Every flag word is an instance of the layout, so the accessors above
      see every possible input; in particular opcode and response code are
      always 4-bit values and never fail to convert. */
  lemma EveryWordIsALayout(w: u16)
    ensures w == FlagWord(w & 0x8000 != 0, ((w >> 11) & 0xF) as bv4, w & 0x0400 != 0,
                          w & 0x0200 != 0, w & 0x0100 != 0, w & 0x0080 != 0,
                          w & 0x0040 != 0, w & 0x0020 != 0, w & 0x0010 != 0,
                          (w & 0xF) as bv4)
  {
  }

  /** With only RD set (0x0100), recursion-desired is the one true flag. */
  lemma OnlyRecursionDesired(h: DnsHeader)
    requires h.flags == 0x0100
    ensures IsQuery(h) && IsRecursionDesired(h)
    ensures !IsAuthoritativeAnswer(h) && !IsTruncated(h) && !IsRecursionAvailable(h)
    ensures GetOpcode(h) == StandardQuery && GetResponseCode(h) == NoError
  {
  }
}
