/** AFSDB record data (section 1 of RFC 1183): a 16-bit subtype and
    the name of a server for the cell. */
module Afsdb {
  import opened Bytes
  import opened Results
  import Names

  datatype AFSDB = AFSDB(subtype: u16, name: Names.Name)

  /** `AFSDB::new`. */
  function New(subtype: u16, name: Names.Name): AFSDB
  {
    AFSDB(subtype, name)
  }

  /** `AFSDB::from_bytes`: the subtype from bytes 0..2 (fewer than two
      bytes is a failure), then the name from the bytes after it. */
  function Decode(b: seq<byte>): (r: Result<AFSDB>)
    ensures r.Success? ==> |b| >= 2 && r.value.subtype == ReadBE16(b[0], b[1])
    ensures r.Success? <==> |b| >= 2 && Names.Decode(b[2..]).Success?
  {
    if |b| < 2 then Failure(OutOfRange)
    else
      var name :- Names.Decode(b[2..]);
      Success(AFSDB(ReadBE16(b[0], b[1]), name))
  }

  /** `Raw::raw` for AFSDB: the big-endian subtype, then the name. */
  function Encode(a: AFSDB): seq<byte>
  {
    BE16(a.subtype) + Names.Encode(a.name)
  }

  /** `Raw::raw_size` for AFSDB. */
  function Size(a: AFSDB): nat
  {
    2 + Names.Size(a.name)
  }

  lemma EncodeSize(a: AFSDB)
    requires a.name.Valid()
    ensures |Encode(a)| == Size(a)
  {
    Names.EncodeSize(a.name);
  }

  /** The values given to `new` come back from decoding its encoding,
      whatever follows. */
  lemma DecodeEncode(subtype: u16, name: Names.Name, rest: seq<byte>)
    requires name.WireSafe()
    ensures Decode(Encode(New(subtype, name)) + rest) == Success(New(subtype, name))
  {
    var b := Encode(New(subtype, name)) + rest;
    assert b[2..] == Names.Encode(name) + rest;
    Names.DecodeEncode(name, rest);
    ReadOfWrite(subtype);
  }

  /** Re-encoding decoded AFSDB data gives exactly the bytes it was read from. */
  lemma EncodeDecode(b: seq<byte>)
    requires Decode(b).Success?
    ensures Size(Decode(b).value) <= |b|
    ensures Encode(Decode(b).value) == b[..Size(Decode(b).value)]
  {
    var name := Decode(b).value.name;
    WriteOfRead(b[0], b[1]);
    assert b[..Size(Decode(b).value)] == b[..2] + b[2..][..Names.Size(name)];
  }
}
