/** A resource record (section 4.1.3 of RFC 1035): owner name, type,
    class, TTL, declared RDATA length and the RDATA itself.

    The TTL is a 16-bit field here, as in the Rust code, where RFC 1035
    has 32 bits. */
module ResourceRecords {
  import opened Bytes
  import opened Results
  import Names
  import Dns
  import Rdata

  datatype ResourceRecord = ResourceRecord(
    name: Names.Name,
    rtype: Dns.Type,
    rclass: Dns.Class,
    ttl: u16,
    rlength: u16,
    rdata: Rdata.RData)

  /** `ResourceRecord::new`. */
  function New(name: Names.Name, rtype: Dns.Type, rclass: Dns.Class, ttl: u16, rlength: u16,
               rdata: Rdata.RData): ResourceRecord
  {
    ResourceRecord(name, rtype, rclass, ttl, rlength, rdata)
  }

  /** A record whose encoding decodes back: a wire-safe owner name, RDATA
      of a supported shape whose type is the record's type, and, for MX, a
      wire-safe host name. */
  predicate RoundTrips(rr: ResourceRecord)
  {
    && rr.name.WireSafe()
    && Rdata.Supported(rr.rdata)
    && Rdata.TypeOf(rr.rdata) == rr.rtype
    && (rr.rdata.MX? ==> rr.rdata.mx.host.WireSafe())
  }

  /** The fixed words after the owner name, then the RDATA, which is read
      from all the remaining bytes (the declared length is not used).  Each
      word is read once its own two bytes are there: an unknown type code
      fails before the class word is looked for, and an unknown class code
      before the TTL. */
  function DecodeAfterName(b: seq<byte>, name: Names.Name, start: nat): Result<ResourceRecord>
  {
    if |b| < start + 2 then Failure(OutOfRange)
    else
      var typeCode := ReadBE16(b[start], b[start + 1]);
      match Dns.TypeFromCode(typeCode)
      case None => Failure(UnknownType(typeCode))
      case Some(rtype) =>
        if |b| < start + 4 then Failure(OutOfRange)
        else
          var classCode := ReadBE16(b[start + 2], b[start + 3]);
          match Dns.ClassFromCode(classCode)
          case None => Failure(UnknownClass(classCode))
          case Some(rclass) =>
            if |b| < start + 8 then Failure(OutOfRange)
            else
              var rdata :- Rdata.Decode(rtype, b[start + 8..]);
              Success(ResourceRecord(name, rtype, rclass, ReadBE16(b[start + 4], b[start + 5]),
                                     ReadBE16(b[start + 6], b[start + 7]), rdata))
  }

  /** `ResourceRecord::from_bytes`: the owner name up to its terminator,
      then type, class, TTL and RDATA length as big-endian words at offsets
      0, 2, 4 and 6 after it, then the RDATA from offset 8 on. */
  function Decode(b: seq<byte>): Result<ResourceRecord>
  {
    var name :- Names.Decode(b);
    DecodeAfterName(b, name, Names.Size(name))
  }

  /** The fields are read in wire order: an unknown type code fails first,
      then an unknown class code, then the RDATA decoder for the type; TTL
      and RDATA length are kept as they are. */
  lemma DecodeFields(n: Names.Name, typeCode: u16, classCode: u16, ttl: u16, rlength: u16,
                     rest: seq<byte>)
    requires n.WireSafe()
    ensures var r := Decode(Names.Encode(n) + BE16(typeCode) + BE16(classCode) + BE16(ttl)
                            + BE16(rlength) + rest);
      && (Dns.TypeFromCode(typeCode).None? ==> r == Failure(UnknownType(typeCode)))
      && (Dns.TypeFromCode(typeCode).Some? && Dns.ClassFromCode(classCode).None? ==>
            r == Failure(UnknownClass(classCode)))
      && (Dns.TypeFromCode(typeCode).Some? && Dns.ClassFromCode(classCode).Some? ==>
            var rd := Rdata.Decode(Dns.TypeFromCode(typeCode).value, rest);
            (rd.Failure? ==> r == Failure(rd.error))
            && (rd.Success? ==>
                  r == Success(ResourceRecord(n, Dns.TypeFromCode(typeCode).value,
                                              Dns.ClassFromCode(classCode).value,
                                              ttl, rlength, rd.value))))
  {
    var fields := BE16(typeCode) + BE16(classCode) + BE16(ttl) + BE16(rlength);
    var b := Names.Encode(n) + BE16(typeCode) + BE16(classCode) + BE16(ttl) + BE16(rlength) + rest;
    FieldsFollowName(n, typeCode, classCode, ttl, rlength, rest);
    assert Decode(b) == DecodeAfterName(b, n, Names.Size(n));
  }

  /** The type is checked as soon as its two bytes follow the name: an
      unknown type code fails with that code whatever follows it, even
      nothing, and a known one without a full class word after it runs off
      the buffer. */
  lemma DecodeTypeFirst(n: Names.Name, typeCode: u16, rest: seq<byte>)
    requires n.WireSafe()
    ensures Dns.TypeFromCode(typeCode).None? ==>
              Decode(Names.Encode(n) + BE16(typeCode) + rest) == Failure(UnknownType(typeCode))
    ensures Dns.TypeFromCode(typeCode).Some? && |rest| < 2 ==>
              Decode(Names.Encode(n) + BE16(typeCode) + rest) == Failure(OutOfRange)
  {
    var b := Names.Encode(n) + BE16(typeCode) + rest;
    assert b == Names.Encode(n) + (BE16(typeCode) + rest);
    Names.DecodeEncode(n, BE16(typeCode) + rest);
    Names.EncodeSize(n);
    var s := Names.Size(n);
    assert b[s..s + 2] == BE16(typeCode);
    ReadAt(b, s, typeCode);
  }

  /** After a known type, the class is checked as soon as its two bytes
      are there: an unknown class code fails with that code whatever
      follows it, and a known one without the TTL and RDATA length words
      after it runs off the buffer. */
  lemma DecodeClassSecond(n: Names.Name, typeCode: u16, classCode: u16, rest: seq<byte>)
    requires n.WireSafe() && Dns.TypeFromCode(typeCode).Some?
    ensures Dns.ClassFromCode(classCode).None? ==>
              Decode(Names.Encode(n) + BE16(typeCode) + BE16(classCode) + rest)
              == Failure(UnknownClass(classCode))
    ensures Dns.ClassFromCode(classCode).Some? && |rest| < 4 ==>
              Decode(Names.Encode(n) + BE16(typeCode) + BE16(classCode) + rest) == Failure(OutOfRange)
  {
    var b := Names.Encode(n) + BE16(typeCode) + BE16(classCode) + rest;
    assert b == Names.Encode(n) + (BE16(typeCode) + BE16(classCode) + rest);
    Names.DecodeEncode(n, BE16(typeCode) + BE16(classCode) + rest);
    Names.EncodeSize(n);
    var s := Names.Size(n);
    assert b[s..s + 2] == BE16(typeCode) && b[s + 2..s + 4] == BE16(classCode);
    ReadAt(b, s, typeCode);
    ReadAt(b, s + 2, classCode);
  }

  /** The name decodes from the front of a record's bytes and the four
      words and the RDATA bytes sit where the decoder reads them. */
  lemma FieldsFollowName(n: Names.Name, typeCode: u16, classCode: u16, ttl: u16, rlength: u16,
                         rest: seq<byte>)
    requires n.WireSafe()
    ensures var b := Names.Encode(n) + BE16(typeCode) + BE16(classCode) + BE16(ttl)
                     + BE16(rlength) + rest;
      var s := Names.Size(n);
      && Names.Decode(b) == Success(n)
      && |b| == s + 8 + |rest|
      && ReadBE16(b[s], b[s + 1]) == typeCode && ReadBE16(b[s + 2], b[s + 3]) == classCode
      && ReadBE16(b[s + 4], b[s + 5]) == ttl && ReadBE16(b[s + 6], b[s + 7]) == rlength
      && b[s + 8..] == rest
  {
    var fields := BE16(typeCode) + BE16(classCode) + BE16(ttl) + BE16(rlength);
    var b := Names.Encode(n) + BE16(typeCode) + BE16(classCode) + BE16(ttl) + BE16(rlength) + rest;
    assert b == Names.Encode(n) + (fields + rest);
    Names.DecodeEncode(n, fields + rest);
    Names.EncodeSize(n);
    WordsAfter(Names.Encode(n), typeCode, classCode, ttl, rlength, rest);
  }

  /** Four words written after a prefix read back from offsets 0, 2, 4
      and 6 after it, and what follows starts at offset 8. */
  lemma WordsAfter(p: seq<byte>, w0: u16, w1: u16, w2: u16, w3: u16, rest: seq<byte>)
    ensures var b := p + BE16(w0) + BE16(w1) + BE16(w2) + BE16(w3) + rest;
      var s := |p|;
      && |b| == s + 8 + |rest|
      && ReadBE16(b[s], b[s + 1]) == w0 && ReadBE16(b[s + 2], b[s + 3]) == w1
      && ReadBE16(b[s + 4], b[s + 5]) == w2 && ReadBE16(b[s + 6], b[s + 7]) == w3
      && b[s + 8..] == rest
  {
    var b := p + BE16(w0) + BE16(w1) + BE16(w2) + BE16(w3) + rest;
    var s := |p|;
    assert b[s..s + 2] == BE16(w0) && b[s + 2..s + 4] == BE16(w1);
    assert b[s + 4..s + 6] == BE16(w2) && b[s + 6..s + 8] == BE16(w3);
    assert b[s + 8..] == rest;
    ReadAt(b, s, w0);
    ReadAt(b, s + 2, w1);
    ReadAt(b, s + 4, w2);
    ReadAt(b, s + 6, w3);
  }

  /** `Raw::raw` for a record, with every fixed field two bytes wide: the
      owner name, type, class, TTL, RDATA length, then the RDATA; it fails
      when the RDATA shape is unsupported. */
  function Encode(rr: ResourceRecord): Result<seq<byte>>
  {
    var rd :- Rdata.Encode(rr.rdata);
    Success(FixedPart(rr) + rd)
  }

  /** The owner name and the four fixed words. */
  function FixedPart(rr: ResourceRecord): seq<byte>
  {
    Names.Encode(rr.name) + BE16(Dns.TypeCode(rr.rtype)) + BE16(Dns.ClassCode(rr.rclass))
    + BE16(rr.ttl) + BE16(rr.rlength)
  }

  /** `Raw::raw_size` for a record: the owner name, eight bytes of fixed
      fields, and the RDATA's own size. */
  function Size(rr: ResourceRecord): Result<nat>
  {
    var rs :- Rdata.Size(rr.rdata);
    Success(Names.Size(rr.name) + 8 + rs)
  }

  /** The size ignores the stored RDATA length. */
  lemma SizeIgnoresRLength(rr: ResourceRecord, rlength: u16)
    ensures Size(rr.(rlength := rlength)) == Size(rr)
  {
  }

  /** Encoding and size succeed on exactly the supported RDATA shapes and
      then agree. */
  lemma EncodeSize(rr: ResourceRecord)
    requires rr.name.Valid()
    requires rr.rdata.MX? ==> rr.rdata.mx.host.Valid()
    ensures Encode(rr).Success? <==> Rdata.Supported(rr.rdata)
    ensures Size(rr).Success? <==> Rdata.Supported(rr.rdata)
    ensures Encode(rr).Success? ==> |Encode(rr).value| == Size(rr).value
  {
    Rdata.EncodeSize(rr.rdata);
    Names.EncodeSize(rr.name);
  }

  /** The six values given to `new` come back from decoding the encoding,
      for A, AAAA and MX RDATA of the record's own type. */
  lemma DecodeEncode(rr: ResourceRecord, rest: seq<byte>)
    requires RoundTrips(rr)
    ensures Encode(rr).Success?
    ensures Decode(Encode(rr).value + rest) == Success(rr)
  {
    var rd := Rdata.Encode(rr.rdata).value;
    var b := Encode(rr).value + rest;
    assert b == Names.Encode(rr.name) + BE16(Dns.TypeCode(rr.rtype)) + BE16(Dns.ClassCode(rr.rclass))
              + BE16(rr.ttl) + BE16(rr.rlength) + (rd + rest);
    DecodeFields(rr.name, Dns.TypeCode(rr.rtype), Dns.ClassCode(rr.rclass), rr.ttl, rr.rlength, rd + rest);
    Dns.TypeCodeInverse(rr.rtype, 0);
    Dns.ClassCodeInverse(rr.rclass, 0);
    Rdata.DecodeEncode(rr.rdata, rest);
  }

  /** Re-encoding a decoded record gives exactly the bytes it was read from. */
  lemma EncodeDecode(b: seq<byte>, rr: ResourceRecord)
    requires Decode(b) == Success(rr)
    ensures Size(rr).Success? && Size(rr).value <= |b|
    ensures Encode(rr) == Success(b[..Size(rr).value])
  {
    DecodedParts(b);
    Reencode(b, rr);
  }

  /** A record whose fixed part is the front of `b` and whose RDATA
      decodes from the bytes after it encodes as the prefix it covers. */
  lemma Reencode(b: seq<byte>, rr: ResourceRecord)
    requires Names.Size(rr.name) + 8 <= |b| && FixedPart(rr) == b[..Names.Size(rr.name) + 8]
    requires Rdata.Decode(rr.rtype, b[Names.Size(rr.name) + 8..]) == Success(rr.rdata)
    ensures Size(rr).Success? && Size(rr).value <= |b|
    ensures Encode(rr) == Success(b[..Size(rr).value])
  {
    var s := Names.Size(rr.name);
    Rdata.EncodeDecode(rr.rtype, b[s + 8..]);
    PrefixThenRest(b, s + 8, Rdata.Size(rr.rdata).value);
  }

  /** A prefix of `b` followed by a prefix of what comes after it. */
  lemma PrefixThenRest(b: seq<byte>, k: nat, m: nat)
    requires k + m <= |b|
    ensures b[..k] + b[k..][..m] == b[..k + m]
  {
  }

  /** What a successful decode read: the fixed part at the front, the
      RDATA from offset 8 after the name. */
  lemma DecodedParts(b: seq<byte>)
    requires Decode(b).Success?
    ensures var rr := Decode(b).value;
      var s := Names.Size(rr.name);
      && s + 8 <= |b| && FixedPart(rr) == b[..s + 8]
      && Rdata.Decode(rr.rtype, b[s + 8..]) == Success(rr.rdata)
  {
    var name := Names.Decode(b).value;
    var s := Names.Size(name);
    var rr := Decode(b).value;
    assert rr == DecodeAfterName(b, name, s).value;
    AfterNameParts(b, name, s);
    Dns.TypeCodeInverse(rr.rtype, ReadBE16(b[s], b[s + 1]));
    Dns.ClassCodeInverse(rr.rclass, ReadBE16(b[s + 2], b[s + 3]));
    FixedReread(rr, b);
  }

  /** What a successful read after the name took from where. */
  lemma AfterNameParts(b: seq<byte>, name: Names.Name, s: nat)
    requires DecodeAfterName(b, name, s).Success?
    ensures var rr := DecodeAfterName(b, name, s).value;
      && s + 8 <= |b| && rr.name == name
      && Dns.TypeFromCode(ReadBE16(b[s], b[s + 1])) == Some(rr.rtype)
      && Dns.ClassFromCode(ReadBE16(b[s + 2], b[s + 3])) == Some(rr.rclass)
      && rr.ttl == ReadBE16(b[s + 4], b[s + 5])
      && rr.rlength == ReadBE16(b[s + 6], b[s + 7])
      && Rdata.Decode(rr.rtype, b[s + 8..]) == Success(rr.rdata)
  {
  }

  /** A record whose fields are the words after its name's encoding at the
      front of `b` has those bytes as its fixed part. */
  lemma FixedReread(rr: ResourceRecord, b: seq<byte>)
    requires var s := Names.Size(rr.name);
      && s + 8 <= |b| && Names.Encode(rr.name) == b[..s]
      && Dns.TypeCode(rr.rtype) == ReadBE16(b[s], b[s + 1])
      && Dns.ClassCode(rr.rclass) == ReadBE16(b[s + 2], b[s + 3])
      && rr.ttl == ReadBE16(b[s + 4], b[s + 5])
      && rr.rlength == ReadBE16(b[s + 6], b[s + 7])
    ensures FixedPart(rr) == b[..Names.Size(rr.name) + 8]
  {
    WordsReread(b, Names.Size(rr.name));
  }

  /** The eight bytes at offset `s` are the four words read from them,
      written back. */
  lemma WordsReread(b: seq<byte>, s: nat)
    requires s + 8 <= |b|
    ensures b[..s + 8] == b[..s] + BE16(ReadBE16(b[s], b[s + 1])) + BE16(ReadBE16(b[s + 2], b[s + 3]))
                          + BE16(ReadBE16(b[s + 4], b[s + 5])) + BE16(ReadBE16(b[s + 6], b[s + 7]))
  {
    WriteOfReadAt(b, s);
    WriteOfReadAt(b, s + 2);
    WriteOfReadAt(b, s + 4);
    WriteOfReadAt(b, s + 6);
    assert b[..s + 8] == b[..s] + b[s..s + 2] + b[s + 2..s + 4] + b[s + 4..s + 6] + b[s + 6..s + 8];
  }

  // ---------------------------------------------------------------------
  // The encoder as the Rust code builds it, in a growing buffer

  /** `Raw::raw` for a record step by step: size the buffer with
      `raw_size` (which fails on an unsupported RDATA shape), append the
      name, then for each fixed field push two zero bytes and write the word
      into the slice `bytes[start..start + w]`, `w` being 2 for type, class
      and TTL and `rlengthSlice` for the RDATA length; then append the
      RDATA. */
  function RawBuffered(rr: ResourceRecord, rlengthSlice: nat): Result<seq<byte>>
  {
    var _ :- Size(rr);
    var start := Names.Size(rr.name);
    var b0 := Names.Encode(rr.name);
    var b1 :- WriteU16Into(b0 + [0, 0], start, start + 2, Dns.TypeCode(rr.rtype));
    var b2 :- WriteU16Into(b1 + [0, 0], start + 2, start + 4, Dns.ClassCode(rr.rclass));
    var b3 :- WriteU16Into(b2 + [0, 0], start + 4, start + 6, rr.ttl);
    var b4 :- WriteU16Into(b3 + [0, 0], start + 6, start + 6 + rlengthSlice, rr.rlength);
    var rd :- Rdata.Encode(rr.rdata);
    Success(b4 + rd)
  }

  /** The Rust encoder writes the RDATA length into a four-byte slice of a
      buffer that has only two bytes reserved for it. */
  function RawAsWritten(rr: ResourceRecord): Result<seq<byte>>
  {
    RawBuffered(rr, 4)
  }

  /** As written, encoding a record always fails: on an unsupported RDATA
      shape `raw_size` gives up first, and on every other record the write
      of the RDATA length runs past the end of the buffer. */
  lemma RawAsWrittenAlwaysFails(rr: ResourceRecord)
    requires rr.name.Valid()
    ensures Rdata.Supported(rr.rdata) ==> RawAsWritten(rr) == Failure(OutOfRange)
    ensures !Rdata.Supported(rr.rdata) ==>
              RawAsWritten(rr) == Failure(Unsupported(Dns.TypeCode(Rdata.TypeOf(rr.rdata))))
  {
    Names.EncodeSize(rr.name);
  }

  /** With a two-byte slice the buffered encoder builds exactly `Encode`. */
  lemma RawWithTwoByteSlice(rr: ResourceRecord)
    requires rr.name.Valid()
    ensures RawBuffered(rr, 2) == Encode(rr)
  {
    Names.EncodeSize(rr.name);
    var b0 := Names.Encode(rr.name);
    PushWord(b0, Dns.TypeCode(rr.rtype));
    var b1 := b0 + BE16(Dns.TypeCode(rr.rtype));
    PushWord(b1, Dns.ClassCode(rr.rclass));
    var b2 := b1 + BE16(Dns.ClassCode(rr.rclass));
    PushWord(b2, rr.ttl);
    var b3 := b2 + BE16(rr.ttl);
    PushWord(b3, rr.rlength);
  }
}
