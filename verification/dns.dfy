/** The DNS module's shared tables: record types and classes with their
    wire codes, the older zero-terminated name decoder, and what the DNS
    layer reports to the packet. */
module Dns {
  import opened Bytes
  import opened Results
  import opened Names
  import Packets

  /** Record and query types, in declaration order. */
  datatype Type =
    | A | AAAA | AFSDB | HINFO | ISDN | LOC | MINFO | MX | NSAP | NULL | RT
    | RP | SOA | SRV | TXT | WKS | IXFR | AXFR | MAILB | MAILA | ANY

  /** The enum declares no discriminants, so `t as u16` is the position of
      `t` in the declaration, from `A = 0` to `ANY = 20`. */
  function TypeCode(t: Type): u16
  {
    match t
    case A => 0
    case AAAA => 1
    case AFSDB => 2
    case HINFO => 3
    case ISDN => 4
    case LOC => 5
    case MINFO => 6
    case MX => 7
    case NSAP => 8
    case NULL => 9
    case RT => 10
    case RP => 11
    case SOA => 12
    case SRV => 13
    case TXT => 14
    case WKS => 15
    case IXFR => 16
    case AXFR => 17
    case MAILB => 18
    case MAILA => 19
    case ANY => 20
  }

  /** The types in declaration order. */
  const TYPES: seq<Type> :=
    [A, AAAA, AFSDB, HINFO, ISDN, LOC, MINFO, MX, NSAP, NULL, RT,
     RP, SOA, SRV, TXT, WKS, IXFR, AXFR, MAILB, MAILA, ANY]

  /** `Type::try_from(u16)`: the type declared at that position, if any. */
  function TypeFromCode(code: u16): Option<Type>
  {
    if code <= 20 then Some(TYPES[code as int]) else None
  }

  /** `try_from` is the partial inverse of `as u16`: it accepts exactly the
      codes 0..20 and undoes the code of every type. */
  lemma TypeCodeInverse(t: Type, code: u16)
    ensures TypeFromCode(TypeCode(t)) == Some(t)
    ensures TypeFromCode(code).Some? <==> code <= 20
    ensures TypeFromCode(code).Some? ==> TypeCode(TypeFromCode(code).value) == code
  {
  }

  datatype Class = IN | CS | CH | HS | NONE

  /** The explicit discriminants of `Class`. */
  function ClassCode(c: Class): u16
  {
    match c
    case IN => 1
    case CS => 2
    case CH => 3
    case HS => 4
    case NONE => 254
  }

  /** `Class::try_from(u16)`. */
  function ClassFromCode(code: u16): Option<Class>
  {
    match code
    case 1 => Some(IN)
    case 2 => Some(CS)
    case 3 => Some(CH)
    case 4 => Some(HS)
    case 254 => Some(NONE)
    case _ => None
  }

  /** `try_from` accepts exactly the five class codes and undoes `as u16`;
      every class code fits in the low byte of a word. */
  lemma ClassCodeInverse(c: Class, code: u16)
    ensures ClassFromCode(ClassCode(c)) == Some(c)
    ensures ClassFromCode(code).Some? <==> code in {1, 2, 3, 4, 254}
    ensures ClassFromCode(code).Some? ==> ClassCode(ClassFromCode(code).value) == code
    ensures ClassCode(c) & 0xFF00 == 0
  {
  }

  // ---------------------------------------------------------------------
  // The older decoder of `Name` in the DNS module

  /** The older decoder's loop: it stops at the first zero length byte; for
      a length byte `n` it keeps `n` as the label length and takes as
      contents the `n` bytes starting AT the length byte, then advances by
      `n + 1`.  Running past the buffer is a failure. */
  function LegacyDecodeLabels(b: seq<byte>): (r: Result<seq<Label>>)
    ensures r.Success? ==> Name(r.value).Valid()
    decreases |b|
  {
    if |b| == 0 then Failure(OutOfRange)
    else if b[0] == 0 then Success([])
    else if |b| < b[0] as int + 1 then Failure(OutOfRange)
    else
      var rest :- LegacyDecodeLabels(b[b[0] as int + 1..]);
      var l := Label(b[0], b[..b[0] as int]);
      assert forall i :: 0 < i < |[l] + rest| ==> ([l] + rest)[i] == rest[i - 1];
      Success([l] + rest)
  }

  /** `Name::new(&[u8])` of the DNS module. */
  function LegacyDecode(b: seq<byte>): (r: Result<Name>)
    ensures r.Success? ==> r.value.Valid()
  {
    var labels :- LegacyDecodeLabels(b);
    Success(Name(labels))
  }

  /** `early` is `fixed` read one byte too early: same length, contents
      starting with the length byte and missing the last content byte. */
  predicate ShiftedByOne(early: Label, fixed: Label)
  {
    && early.length == fixed.length
    && |fixed.contents| >= 1
    && early.contents == [fixed.length] + fixed.contents[..|fixed.contents| - 1]
  }

  /** One step of the older decoder on a non-zero length byte. */
  lemma LegacyStep(b: seq<byte>)
    requires |b| > 0 && b[0] != 0 && |b| >= b[0] as int + 1
    ensures LegacyDecodeLabels(b).Success? <==> LegacyDecodeLabels(b[b[0] as int + 1..]).Success?
    ensures LegacyDecodeLabels(b).Success? ==>
              LegacyDecodeLabels(b).value
              == [Label(b[0], b[..b[0] as int])] + LegacyDecodeLabels(b[b[0] as int + 1..]).value
  {
  }

  /** The older decoder succeeds on exactly the buffers the zero-terminated
      decoder accepts. */
  lemma {:induction false} LegacyFailsLikeFixed(b: seq<byte>)
    ensures LegacyDecodeLabels(b).Success? <==> DecodeLabels(b).Success?
    decreases |b|
  {
    if |b| > 0 && b[0] != 0 && |b| >= b[0] as int + 1 {
      LegacyStep(b);
      DecodeLabelsStep(b);
      LegacyFailsLikeFixed(b[b[0] as int + 1..]);
    }
  }

  /** Where both succeed, the older decoder finds the same labels with the
      same lengths, each one's contents shifted by one byte. */
  lemma {:induction false} LegacyIsShifted(b: seq<byte>)
    requires DecodeLabels(b).Success?
    ensures LegacyDecodeLabels(b).Success?
    ensures |LegacyDecodeLabels(b).value| == |DecodeLabels(b).value|
    ensures forall i :: 0 <= i < |DecodeLabels(b).value| ==>
              ShiftedByOne(LegacyDecodeLabels(b).value[i], DecodeLabels(b).value[i])
    decreases |b|
  {
    LegacyFailsLikeFixed(b);
    if b[0] != 0 {
      var k := b[0] as int + 1;
      LegacyStep(b);
      DecodeLabelsStep(b);
      LegacyIsShifted(b[k..]);
      assert b[..k - 1] == [b[0]] + b[1..k][..k - 2];
      ConsShifted(Label(b[0], b[..k - 1]), Label(b[0], b[1..k]),
                  LegacyDecodeLabels(b[k..]).value, DecodeLabels(b[k..]).value);
    }
  }

  lemma ConsShifted(e: Label, f: Label, earlies: seq<Label>, fixeds: seq<Label>)
    requires ShiftedByOne(e, f) && |earlies| == |fixeds|
    requires forall i :: 0 <= i < |fixeds| ==> ShiftedByOne(earlies[i], fixeds[i])
    ensures forall i :: 0 <= i < |fixeds| + 1 ==> ShiftedByOne(([e] + earlies)[i], ([f] + fixeds)[i])
  {
    forall i | 0 < i < |fixeds| + 1
      ensures ShiftedByOne(([e] + earlies)[i], ([f] + fixeds)[i])
    {
      assert ([e] + earlies)[i] == earlies[i - 1];
      assert ([f] + fixeds)[i] == fixeds[i - 1];
    }
  }

  /** On `\x03com\x00` the older decoder yields the label `\x03co` where
      the name holds `com`. */
  lemma LegacyDecodeExample()
    ensures LegacyDecode([3, 0x63, 0x6F, 0x6D, 0]) == Success(Name([Label(3, [3, 0x63, 0x6F])]))
    ensures Decode([3, 0x63, 0x6F, 0x6D, 0]) == Success(Name([Label(3, [0x63, 0x6F, 0x6D])]))
  {
    var b: seq<byte> := [3, 0x63, 0x6F, 0x6D, 0];
    assert b[0] as int == 3;
    assert b[4..] == [0];
    assert LegacyDecodeLabels(b[4..]) == Success([]);
    assert DecodeLabels(b[4..]) == Success([]);
    LegacyStep(b);
    DecodeLabelsStep(b);
    assert b[..3] == [3, 0x63, 0x6F] && b[1..4] == [0x63, 0x6F, 0x6D];
    assert LegacyDecodeLabels(b) == Success([Label(3, [3, 0x63, 0x6F])] + []);
    assert DecodeLabels(b) == Success([Label(3, [0x63, 0x6F, 0x6D])] + []);
    assert [Label(3, [3, 0x63, 0x6F])] + [] == [Label(3, [3, 0x63, 0x6F])];
    assert [Label(3, [0x63, 0x6F, 0x6D])] + [] == [Label(3, [0x63, 0x6F, 0x6D])];
  }

  // ---------------------------------------------------------------------
  // The DNS layer as the packet sees it

  /** `Layer for DnsLayer`: name "DNS", type `DNSLayer`, OSI level 7. */
  const DNS_LAYER: Packets.Layer := Packets.Layer("DNS", Packets.DNSLayer, 7)

  /** A DNS layer fits beside the Ethernet layer, and is then found by its
      name; a second DNS layer is refused. */
  lemma DnsBesideEthernet()
    ensures Packets.AddLayer(Packets.New(), Packets.ETHERNET).Success?
    ensures Packets.AddLayer(Packets.AddLayer(Packets.New(), Packets.ETHERNET).value, DNS_LAYER).Success?
    ensures var p := Packets.AddLayer(Packets.AddLayer(Packets.New(), Packets.ETHERNET).value, DNS_LAYER).value;
      && p.layers == [Packets.ETHERNET, DNS_LAYER]
      && Packets.DistinctLevels(p)
      && Packets.GetLayer(p, "DNS") == Some(DNS_LAYER)
      && Packets.AddLayer(p, DNS_LAYER) == Failure(DuplicateLayer)
  {
    var p1 := Packets.AddLayer(Packets.New(), Packets.ETHERNET).value;
    assert p1.layers == [Packets.ETHERNET];
    var p := Packets.AddLayer(p1, DNS_LAYER).value;
    assert p.layers[1].osiLevel == DNS_LAYER.osiLevel;
    assert p.layers[0].name != "DNS";
  }
}
