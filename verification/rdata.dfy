/** RDATA: the type-dependent payload of a resource record, one variant
    per record type.  Only A, AAAA and MX have a decoder and an encoder;
    every other type is `todo!()` in the Rust code, modelled here as an
    `Unsupported` failure carrying the type code. */
module Rdata {
  import opened Bytes
  import opened Results
  import Dns
  import Mx
  import Afsdb

  /** An IPv4 address as its four octets (section 3.4.1 of RFC 1035). */
  type Ipv4 = s: seq<byte> | |s| == 4 witness [0, 0, 0, 0]

  /** An IPv6 address as its eight 16-bit groups (section 2.2 of RFC 3596). */
  type Ipv6 = s: seq<u16> | |s| == 8 witness [0, 0, 0, 0, 0, 0, 0, 0]

  datatype RData =
    | A(ipv4: Ipv4)
    | AAAA(ipv6: Ipv6)
    | AFSDB(afsdb: Afsdb.AFSDB)
    | HINFO | ISDN | LOC | MINFO
    | MX(mx: Mx.MX)
    | NSAP | NULL | RT | RP | SOA | SRV | TXT | WKS

  /** The record type each variant stands for. */
  function TypeOf(rd: RData): Dns.Type
  {
    match rd
    case A(_) => Dns.A
    case AAAA(_) => Dns.AAAA
    case AFSDB(_) => Dns.AFSDB
    case HINFO => Dns.HINFO
    case ISDN => Dns.ISDN
    case LOC => Dns.LOC
    case MINFO => Dns.MINFO
    case MX(_) => Dns.MX
    case NSAP => Dns.NSAP
    case NULL => Dns.NULL
    case RT => Dns.RT
    case RP => Dns.RP
    case SOA => Dns.SOA
    case SRV => Dns.SRV
    case TXT => Dns.TXT
    case WKS => Dns.WKS
  }

  /** The variants the Rust code can encode and measure. */
  predicate Supported(rd: RData)
  {
    rd.A? || rd.AAAA? || rd.MX?
  }

  /** `RData::from_bytes`, dispatched on the record type: A takes the first
      four bytes as the address octets; AAAA reads eight big-endian groups
      from the first sixteen bytes; MX delegates to `MX::from_bytes`; every
      other type, AFSDB included, is not dispatched.  Too few bytes for a
      fixed shape is a failure. */
  function Decode(t: Dns.Type, b: seq<byte>): (r: Result<RData>)
    ensures r.Success? ==> TypeOf(r.value) == t && Supported(r.value)
    ensures t !in {Dns.A, Dns.AAAA, Dns.MX} ==> r == Failure(Unsupported(Dns.TypeCode(t)))
    ensures t == Dns.A ==> (r.Success? <==> |b| >= 4)
    ensures t == Dns.AAAA ==> (r.Success? <==> |b| >= 16)
  {
    match t
    case A => if |b| < 4 then Failure(OutOfRange) else Success(A(b[..4]))
    case AAAA => if |b| < 16 then Failure(OutOfRange) else Success(AAAA(ReadWords(b, 8)))
    case MX =>
      var mx :- Mx.Decode(b);
      Success(MX(mx))
    case _ => Failure(Unsupported(Dns.TypeCode(t)))
  }

  /** `Raw::raw` for RDATA: the four octets of an A address in order, the
      sixteen bytes of an AAAA address (its 128-bit big-endian value, that
      is its groups high byte first), the MX encoding; the rest is
      unsupported. */
  function Encode(rd: RData): Result<seq<byte>>
  {
    match rd
    case A(octets) => Success(octets)
    case AAAA(groups) => Success(EncodeWords(groups))
    case MX(mx) => Success(Mx.Encode(mx))
    case _ => Failure(Unsupported(Dns.TypeCode(TypeOf(rd))))
  }

  /** `Raw::raw_size` for RDATA: 4 for A, 16 for AAAA, the MX size. */
  function Size(rd: RData): Result<nat>
  {
    match rd
    case A(_) => Success(4)
    case AAAA(_) => Success(16)
    case MX(mx) => Success(Mx.Size(mx))
    case _ => Failure(Unsupported(Dns.TypeCode(TypeOf(rd))))
  }

  /** Encoding and size succeed on exactly the supported variants, and
      then agree; on the others both report the type as unsupported. */
  lemma EncodeSize(rd: RData)
    requires rd.MX? ==> rd.mx.host.Valid()
    ensures Encode(rd).Success? <==> Supported(rd)
    ensures Size(rd).Success? <==> Supported(rd)
    ensures Supported(rd) ==> |Encode(rd).value| == Size(rd).value
    ensures !Supported(rd) ==>
              Encode(rd) == Failure(Unsupported(Dns.TypeCode(TypeOf(rd))))
              && Size(rd) == Encode(rd).PropagateFailure()
  {
    if rd.MX? {
      Mx.EncodeSize(rd.mx);
    }
  }

  /** Decoding the encoding of supported RDATA under its own type gives it
      back, whatever follows. */
  lemma DecodeEncode(rd: RData, rest: seq<byte>)
    requires Supported(rd)
    requires rd.MX? ==> rd.mx.host.WireSafe()
    ensures Decode(TypeOf(rd), Encode(rd).value + rest) == Success(rd)
  {
    match rd
    case A(octets) =>
      assert (octets + rest)[..4] == octets;
    case AAAA(groups) =>
      ReadWordsOfEncode(groups, rest);
    case MX(mx) =>
      Mx.DecodeEncode(mx.preference, mx.host, rest);
  }

  /** Re-encoding decoded RDATA gives exactly the bytes it was read from:
      for A the first four bytes, leading zeros kept. */
  lemma EncodeDecode(t: Dns.Type, b: seq<byte>)
    requires Decode(t, b).Success?
    ensures Size(Decode(t, b).value).Success?
    ensures Size(Decode(t, b).value).value <= |b|
    ensures Encode(Decode(t, b).value) == Success(b[..Size(Decode(t, b).value).value])
  {
    var rd := Decode(t, b).value;
    match rd
    case A(_) =>
    case AAAA(_) =>
      EncodeWordsOfRead(b, 8);
    case MX(mx) =>
      Mx.EncodeDecode(b);
  }

  /** The A record 0.0.0.1 is read from and written back to exactly
      `\x00\x00\x00\x01`. */
  lemma AddressWithLeadingZeros()
    ensures Decode(Dns.A, [0, 0, 0, 1]) == Success(A([0, 0, 0, 1]))
    ensures Encode(A([0, 0, 0, 1])) == Success([0, 0, 0, 1])
  {
    var b: seq<byte> := [0, 0, 0, 1];
    assert b[..4] == b;
  }
}
