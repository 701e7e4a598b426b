/** MX record data (section 3.3.9 of RFC 1035): a 16-bit preference and
    the name of a mail exchange host. */
module Mx {
  import opened Bytes
  import opened Results
  import Names

  datatype MX = MX(preference: u16, host: Names.Name)

  /** `MX::new`. */
  function New(preference: u16, host: Names.Name): MX
  {
    MX(preference, host)
  }

  /** `MX::from_bytes`: the preference from bytes 0..2 (fewer than two
      bytes is a failure), then the host name from the bytes after it. */
  function Decode(b: seq<byte>): (r: Result<MX>)
    ensures r.Success? ==> |b| >= 2 && r.value.preference == ReadBE16(b[0], b[1])
    ensures r.Success? <==> |b| >= 2 && Names.Decode(b[2..]).Success?
  {
    if |b| < 2 then Failure(OutOfRange)
    else
      var host :- Names.Decode(b[2..]);
      Success(MX(ReadBE16(b[0], b[1]), host))
  }

  /** `Raw::raw` for MX: the big-endian preference, then the host name. */
  function Encode(m: MX): seq<byte>
  {
    BE16(m.preference) + Names.Encode(m.host)
  }

  /** `Raw::raw_size` for MX. */
  function Size(m: MX): nat
  {
    2 + Names.Size(m.host)
  }

  lemma EncodeSize(m: MX)
    requires m.host.Valid()
    ensures |Encode(m)| == Size(m)
  {
    Names.EncodeSize(m.host);
  }

  /** The values given to `new` come back from decoding its encoding,
      whatever follows. */
  lemma DecodeEncode(preference: u16, host: Names.Name, rest: seq<byte>)
    requires host.WireSafe()
    ensures Decode(Encode(New(preference, host)) + rest) == Success(New(preference, host))
  {
    var b := Encode(New(preference, host)) + rest;
    assert b[2..] == Names.Encode(host) + rest;
    Names.DecodeEncode(host, rest);
    ReadOfWrite(preference);
  }

  /** Re-encoding decoded MX data gives exactly the bytes it was read from. */
  lemma EncodeDecode(b: seq<byte>)
    requires Decode(b).Success?
    ensures Size(Decode(b).value) <= |b|
    ensures Encode(Decode(b).value) == b[..Size(Decode(b).value)]
  {
    var host := Decode(b).value.host;
    WriteOfRead(b[0], b[1]);
    assert b[..Size(Decode(b).value)] == b[..2] + b[2..][..Names.Size(host)];
  }
}
