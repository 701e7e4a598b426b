/** MAC addresses of the data-link layer: six octets, parsed from the
    colon-separated hexadecimal text form `XX:XX:XX:XX:XX:XX`. */
module MacAddresses {
  import opened Results

  /** An unsigned 8-bit value, kept as an integer: no bit operations are
      applied to MAC octets. */
  type octet = x: int | 0 <= x < 0x100

  type Octets6 = s: seq<octet> | |s| == 6 witness [0, 0, 0, 0, 0, 0]

  datatype MacAddr = MacAddr(addr: Octets6)

  /** `MACAddr::new`. */
  function New(addr: Octets6): MacAddr
  {
    MacAddr(addr)
  }

  /** `MACAddr::get`. */
  function Get(m: MacAddr): Octets6
  {
    m.addr
  }

  /** `MACAddr::set`, as a function returning the updated address. */
  function Set(m: MacAddr, bytes: Octets6): MacAddr
  {
    m.(addr := bytes)
  }

  /** Get returns what New or Set stored; Set of the current bytes changes
      nothing, and a second Set overrides the first. */
  lemma GetSet(m: MacAddr, a: Octets6, b: Octets6)
    ensures Get(New(a)) == a
    ensures Get(Set(m, b)) == b
    ensures Set(m, Get(m)) == m
    ensures Set(Set(m, a), b) == Set(m, b)
    ensures Set(m, b) == New(b)
  {
  }

  // ---------------------------------------------------------------------
  // Hexadecimal digits

  predicate IsHexDigit(c: char)
  {
    ('0' <= c <= '9') || ('a' <= c <= 'f') || ('A' <= c <= 'F')
  }

  /** The value of a hexadecimal digit, either case. */
  function HexValue(c: char): (v: nat)
    requires IsHexDigit(c)
    ensures v < 16
  {
    if '0' <= c <= '9' then c as int - '0' as int
    else if 'a' <= c <= 'f' then c as int - 'a' as int + 10
    else c as int - 'A' as int + 10
  }

  /** The octet a pair of digits spells, high digit first. */
  function PairValue(hi: char, lo: char): octet
    requires IsHexDigit(hi) && IsHexDigit(lo)
  {
    16 * HexValue(hi) + HexValue(lo)
  }

  /** The upper-case hexadecimal digit of a value below 16. */
  function HexChar(v: nat): char
    requires v < 16
  {
    if v < 10 then ('0' as int + v) as char else ('A' as int + v - 10) as char
  }

  lemma HexCharValue(v: nat)
    requires v < 16
    ensures IsHexDigit(HexChar(v)) && HexValue(HexChar(v)) == v
  {
  }

  /** ASCII lower-casing. */
  function Lower(c: char): char
  {
    if 'A' <= c <= 'Z' then (c as int - 'A' as int + 'a' as int) as char else c
  }

  function LowerString(s: string): (r: string)
    ensures |r| == |s|
    ensures forall i :: 0 <= i < |s| ==> r[i] == Lower(s[i])
  {
    seq(|s|, i requires 0 <= i < |s| => Lower(s[i]))
  }

  /** Lower-casing keeps a character a hex digit (or not) and keeps its
      value; a colon stays a colon. */
  lemma LowerHex(c: char)
    ensures IsHexDigit(Lower(c)) <==> IsHexDigit(c)
    ensures IsHexDigit(c) ==> HexValue(Lower(c)) == HexValue(c)
    ensures Lower(c) == ':' <==> c == ':'
  {
  }

  // ---------------------------------------------------------------------
  // The text form

  /** One or more pairs of hex digits, separated by single colons. */
  predicate Grouped(s: string)
    decreases |s|
  {
    && |s| >= 2 && IsHexDigit(s[0]) && IsHexDigit(s[1])
    && (|s| == 2 || (|s| >= 3 && s[2] == ':' && Grouped(s[3..])))
  }

  /** The anchored pattern `([0-9A-Fa-f]{2}[:]){5}([0-9A-Fa-f]{2})`: six
      groups. */
  predicate MatchesMacPattern(s: string)
  {
    |s| == 17 && Grouped(s)
  }

  /** Grouped text has `3k - 1` characters for `k` groups. */
  lemma {:induction false} GroupedLength(s: string)
    requires Grouped(s)
    ensures (|s| + 1) % 3 == 0
    decreases |s|
  {
    if |s| > 2 {
      GroupedLength(s[3..]);
    }
  }

  /** `str::replace(':', "")`. */
  function RemoveColons(s: string): (r: string)
    ensures |r| <= |s|
    ensures ':' !in r
  {
    if |s| == 0 then []
    else (if s[0] == ':' then [] else [s[0]]) + RemoveColons(s[1..])
  }

  /** Removing colons from text that opens with two non-colons and then,
      if anything, a colon keeps the first two and drops the colon. */
  lemma RemoveColonsStep(s: string)
    requires |s| >= 2 && s[0] != ':' && s[1] != ':'
    requires |s| > 2 ==> s[2] == ':'
    ensures |s| == 2 ==> RemoveColons(s) == [s[0], s[1]]
    ensures |s| > 2 ==> RemoveColons(s) == [s[0], s[1]] + RemoveColons(s[3..])
  {
    var t := s[1..];
    var u := t[1..];
    RemoveColonsKeep(s);
    RemoveColonsKeep(t);
    assert u == s[2..];
    if |s| == 2 {
      assert RemoveColons(u) == [];
      KeepTwo(s[0], s[1], []);
    } else {
      RemoveColonsDrop(u);
      assert u[1..] == s[3..];
      KeepTwo(s[0], s[1], RemoveColons(s[3..]));
    }
  }

  lemma RemoveColonsKeep(s: string)
    requires |s| >= 1 && s[0] != ':'
    ensures RemoveColons(s) == [s[0]] + RemoveColons(s[1..])
  {
  }

  lemma RemoveColonsDrop(s: string)
    requires |s| >= 1 && s[0] == ':'
    ensures RemoveColons(s) == RemoveColons(s[1..])
  {
  }

  lemma KeepTwo(x: char, y: char, rest: string)
    ensures [x] + ([y] + rest) == [x, y] + rest
  {
  }

  /** `hex::decode`: an even number of hex digits, two to a byte, high
      digit first; anything else is an error. */
  function HexDecode(t: string): (r: Result<seq<octet>>)
    ensures r.Success? <==> |t| % 2 == 0 && forall i :: 0 <= i < |t| ==> IsHexDigit(t[i])
    ensures r.Success? ==> 2 * |r.value| == |t|
    ensures r.Success? ==> forall i :: 0 <= i < |r.value| ==> r.value[i] == PairValue(t[2 * i], t[2 * i + 1])
    decreases |t|
  {
    if |t| == 0 then Success([])
    else if |t| == 1 || !IsHexDigit(t[0]) || !IsHexDigit(t[1]) then Failure(InvalidMac)
    else
      match HexDecode(t[2..])
      case Failure(e) => Failure(e)
      case Success(rest) =>
        Success([PairValue(t[0], t[1])] + rest)
  }

  /** The octets grouped text spells: one per group, in order. */
  function GroupValues(s: string): (r: seq<octet>)
    requires Grouped(s)
    ensures 3 * |r| == |s| + 1
    decreases |s|
  {
    [PairValue(s[0], s[1])] + if |s| == 2 then [] else GroupValues(s[3..])
  }

  /** Octet `i` of grouped text is the digit pair at `3i`. */
  lemma {:induction false} GroupValuesAt(s: string, i: nat)
    requires Grouped(s) && i < |GroupValues(s)|
    ensures IsHexDigit(s[3 * i]) && IsHexDigit(s[3 * i + 1])
    ensures GroupValues(s)[i] == PairValue(s[3 * i], s[3 * i + 1])
    decreases |s|
  {
    if i > 0 {
      GroupValuesAt(s[3..], i - 1);
      assert s[3..][3 * (i - 1)] == s[3 * i] && s[3..][3 * (i - 1) + 1] == s[3 * i + 1];
    }
  }

  /** Removing the colons and decoding the hex digits of grouped text
      gives its group values. */
  lemma {:induction false} DecodeGrouped(s: string)
    requires Grouped(s)
    ensures HexDecode(RemoveColons(s)) == Success(GroupValues(s))
    decreases |s|
  {
    RemoveColonsStep(s);
    var t := RemoveColons(s);
    if |s| == 2 {
      assert t[2..] == [];
    } else {
      DecodeGrouped(s[3..]);
      assert t[2..] == RemoveColons(s[3..]);
    }
  }

  /** `MACAddr::from_str`: text that does not match the pattern is
      rejected (the Rust code panics); otherwise octet `i` is the digit
      pair at `3i`. */
  function FromStr(s: string): (r: Result<MacAddr>)
    ensures r.Success? <==> MatchesMacPattern(s)
    ensures r.Failure? ==> r.error == InvalidMac
    ensures r.Success? ==> forall i :: 0 <= i < 6 ==>
      IsHexDigit(s[3 * i]) && IsHexDigit(s[3 * i + 1]) && r.value.addr[i] == PairValue(s[3 * i], s[3 * i + 1])
  {
    if !MatchesMacPattern(s) then Failure(InvalidMac)
    else
      DecodeGrouped(s);
      var octets := GroupValues(s);
      assert forall i :: 0 <= i < 6 ==>
        IsHexDigit(s[3 * i]) && IsHexDigit(s[3 * i + 1]) && octets[i] == PairValue(s[3 * i], s[3 * i + 1])
      by {
        forall i | 0 <= i < 6
          ensures IsHexDigit(s[3 * i]) && IsHexDigit(s[3 * i + 1]) && octets[i] == PairValue(s[3 * i], s[3 * i + 1])
        {
          GroupValuesAt(s, i);
        }
      }
      match HexDecode(RemoveColons(s))
      case Success(bytes) => Success(MacAddr(bytes))
      case Failure(e) => assert false; Failure(e)
  }

  /** Lower-casing preserves the grouping. */
  lemma {:induction false} LowerGrouped(s: string)
    ensures Grouped(LowerString(s)) <==> Grouped(s)
    decreases |s|
  {
    var l := LowerString(s);
    if |s| >= 2 {
      LowerHex(s[0]);
      LowerHex(s[1]);
    }
    if |s| >= 3 {
      LowerHex(s[2]);
      assert l[3..] == LowerString(s[3..]);
      LowerGrouped(s[3..]);
    }
  }

  /** Parsing ignores the case of the hex letters. */
  lemma FromStrIgnoresCase(s: string)
    ensures FromStr(LowerString(s)) == FromStr(s)
  {
    var l := LowerString(s);
    LowerGrouped(s);
    if MatchesMacPattern(s) {
      var a := FromStr(l).value.addr;
      var b := FromStr(s).value.addr;
      forall i | 0 <= i < 6 ensures a[i] == b[i] {
        GroupedDigits(s, i);
        LowerHex(s[3 * i]);
        LowerHex(s[3 * i + 1]);
      }
      assert a == b;
    }
  }

  /** The two characters of every group of grouped text are hex digits. */
  lemma {:induction false} GroupedDigits(s: string, i: nat)
    requires Grouped(s) && 3 * i + 1 < |s|
    ensures IsHexDigit(s[3 * i]) && IsHexDigit(s[3 * i + 1])
    decreases |s|
  {
    if i > 0 {
      GroupedDigits(s[3..], i - 1);
    }
  }

  // ---------------------------------------------------------------------
  // Formatting, the inverse of parsing

  /** Octets as upper-case digit pairs joined by colons. */
  function FormatOctets(b: seq<octet>): (r: string)
    requires |b| >= 1
    ensures |r| == 3 * |b| - 1
  {
    var pair := [HexChar(b[0] / 16), HexChar(b[0] % 16)];
    if |b| == 1 then pair else pair + [':'] + FormatOctets(b[1..])
  }

  /** The colon-separated text form of an address. */
  function Format(m: MacAddr): string
  {
    FormatOctets(m.addr)
  }

  /** Formatted octets are grouped text whose group `k` spells octet `k`. */
  lemma {:induction false} FormatOctetsGrouped(b: seq<octet>)
    requires |b| >= 1
    ensures Grouped(FormatOctets(b))
    ensures forall k :: 0 <= k < |b| ==>
      && IsHexDigit(FormatOctets(b)[3 * k]) && IsHexDigit(FormatOctets(b)[3 * k + 1])
      && PairValue(FormatOctets(b)[3 * k], FormatOctets(b)[3 * k + 1]) == b[k]
  {
    var r := FormatOctets(b);
    Nibbles(b[0]);
    HexCharValue(b[0] / 16);
    HexCharValue(b[0] % 16);
    if |b| > 1 {
      FormatOctetsGrouped(b[1..]);
      var rest := FormatOctets(b[1..]);
      assert r[3..] == rest;
      ShiftGroups(r, rest, b);
    }
  }

  /** The per-group facts of the text after the first group carry over to
      the whole text, one group further on. */
  lemma ShiftGroups(r: string, rest: string, b: seq<octet>)
    requires |b| >= 2 && |rest| == 3 * (|b| - 1) - 1 && |r| == |rest| + 3 && r[3..] == rest
    requires forall k :: 0 <= k < |b| - 1 ==>
      && IsHexDigit(rest[3 * k]) && IsHexDigit(rest[3 * k + 1])
      && PairValue(rest[3 * k], rest[3 * k + 1]) == b[1..][k]
    ensures forall k :: 1 <= k < |b| ==>
      && IsHexDigit(r[3 * k]) && IsHexDigit(r[3 * k + 1])
      && PairValue(r[3 * k], r[3 * k + 1]) == b[k]
  {
    forall k | 1 <= k < |b|
      ensures IsHexDigit(r[3 * k]) && IsHexDigit(r[3 * k + 1]) && PairValue(r[3 * k], r[3 * k + 1]) == b[k]
    {
      var j := k - 1;
      assert r[3 * k] == rest[3 * j] && r[3 * k + 1] == rest[3 * j + 1];
      assert b[k] == b[1..][j];
    }
  }

  /** The high and low digits of an octet put it back together. */
  lemma Nibbles(x: octet)
    ensures x / 16 < 16
    ensures 16 * (x / 16) + x % 16 == x
  {
  }

  /** Parsing the formatted text gives the address back. */
  lemma FromStrFormat(m: MacAddr)
    ensures FromStr(Format(m)) == Success(m)
  {
    FormatOctetsGrouped(m.addr);
    var a := FromStr(Format(m)).value.addr;
    assert forall k :: 0 <= k < 6 ==> a[k] == m.addr[k];
    assert a == m.addr;
  }

  /** A literal address is grouped if each of its suffixes after a colon
      is. */
  lemma SixGroups(s: string)
    requires |s| == 17
    requires forall i :: 0 <= i < 17 && i % 3 != 2 ==> IsHexDigit(s[i])
    requires s[2] == ':' && s[5] == ':' && s[8] == ':' && s[11] == ':' && s[14] == ':'
    ensures MatchesMacPattern(s)
  {
    assert Grouped(s[15..]);
    assert s[12..][3..] == s[15..];
    assert Grouped(s[12..]);
    assert s[9..][3..] == s[12..];
    assert Grouped(s[9..]);
    assert s[6..][3..] == s[9..];
    assert Grouped(s[6..]);
    assert s[3..][3..] == s[6..];
    assert Grouped(s[3..]);
  }

  /** The worked example in upper case. */
  lemma UpperCaseExample(s: string)
    requires s == "23:AC:12:00:AF:00"
    ensures FromStr(s) == Success(New([0x23, 0xAC, 0x12, 0x00, 0xAF, 0x00]))
  {
    SixGroups(s);
    var a := FromStr(s).value.addr;
    assert a[0] == 0x23 && a[1] == 0xAC && a[2] == 0x12;
    assert a[3] == 0x00 && a[4] == 0xAF && a[5] == 0x00;
    SixOctets(a, [0x23, 0xAC, 0x12, 0x00, 0xAF, 0x00]);
  }

  /** The worked example in lower case. */
  lemma LowerCaseExample(s: string)
    requires s == "aa:ab:ac:ad:ae:af"
    ensures FromStr(s) == Success(New([0xAA, 0xAB, 0xAC, 0xAD, 0xAE, 0xAF]))
  {
    SixGroups(s);
    var a := FromStr(s).value.addr;
    assert a[0] == 0xAA && a[1] == 0xAB && a[2] == 0xAC;
    assert a[3] == 0xAD && a[4] == 0xAE && a[5] == 0xAF;
    SixOctets(a, [0xAA, 0xAB, 0xAC, 0xAD, 0xAE, 0xAF]);
  }

  lemma SixOctets(a: Octets6, v: Octets6)
    requires a[0] == v[0] && a[1] == v[1] && a[2] == v[2]
    requires a[3] == v[3] && a[4] == v[4] && a[5] == v[5]
    ensures a == v
  {
  }

  /** Five groups are not an address. */
  lemma ShortExample()
    ensures FromStr("23:AC:12:00:AF").Failure?
  {
  }
}
