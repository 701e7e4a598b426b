/** Domain names as sequences of length-prefixed labels (section 3.1 of
    RFC 1035), with the text form that joins labels with dots.

    Label contents and the text of a name are kept as bytes (the UTF-8
    encoding of the Rust `String`); the lossy UTF-8 decoding of the Rust
    code is not modelled. */
module Names {
  import opened Bytes
  import opened Results

  /** The separator of the text form, `.`. */
  const DOT: byte := 0x2E

  /** Labels may be at most 255 bytes long: the length is one byte. */
  const MAX_LABEL_LENGTH: nat := 255

  /** A label keeps its length byte beside its contents. */
  datatype Label = Label(length: byte, contents: seq<byte>) {
    /** The invariant `Label::new` establishes: the length byte is the
        length of the contents. */
    predicate Valid()
    {
      length as int == |contents|
    }
  }

  datatype Name = Name(labels: seq<Label>) {
    predicate Valid()
    {
      forall i :: 0 <= i < |labels| ==> labels[i].Valid()
    }

    /** A name the zero-terminated wire form can carry: valid, and no
        label empty, since an empty label's length byte is the terminator. */
    predicate WireSafe()
    {
      Valid() && forall i :: 0 <= i < |labels| ==> labels[i].length != 0
    }
  }

  /** `Label::new`: the length is derived from the contents, and contents
      longer than 255 bytes are rejected. */
  function NewLabel(contents: seq<byte>): (r: Result<Label>)
    ensures r.Success? <==> |contents| <= MAX_LABEL_LENGTH
    ensures r.Success? ==> r.value.Valid() && r.value.contents == contents
    ensures r.Failure? ==> r.error == LabelTooLong
  {
    if |contents| <= MAX_LABEL_LENGTH then
      Success(Label(ByteOf(|contents|), contents))
    else
      Failure(LabelTooLong)
  }

  // ---------------------------------------------------------------------
  // Text form

  /** Number of occurrences of `x` in `s`. */
  function Count(s: seq<byte>, x: byte): nat
  {
    if |s| == 0 then 0 else (if s[0] == x then 1 else 0) + Count(s[1..], x)
  }

  /** `str::split('.')`: the pieces between dots, in order; `n` dots give
      `n + 1` pieces, and no piece holds a dot. */
  function Split(s: seq<byte>): (parts: seq<seq<byte>>)
    ensures |parts| == Count(s, DOT) + 1
    ensures forall i :: 0 <= i < |parts| ==> DOT !in parts[i]
  {
    if |s| == 0 then [[]]
    else
      var rest := Split(s[1..]);
      if s[0] == DOT then [[]] + rest
      else [[s[0]] + rest[0]] + rest[1..]
  }

  /** The pieces joined with dots between them, as `Display` writes a name. */
  function Join(parts: seq<seq<byte>>): seq<byte>
    requires |parts| >= 1
  {
    if |parts| == 1 then parts[0] else parts[0] + [DOT] + Join(parts[1..])
  }

  /** Joining the pieces of a split gives back the text. */
  lemma {:induction false} JoinSplit(s: seq<byte>)
    ensures Join(Split(s)) == s
  {
    if |s| == 0 {
    } else {
      var rest := Split(s[1..]);
      JoinSplit(s[1..]);
      if s[0] == DOT {
        assert Split(s) == [[]] + rest;
        assert Split(s)[1..] == rest;
      } else {
        var parts := Split(s);
        assert parts[0] == [s[0]] + rest[0];
        if |rest| == 1 {
          assert s == [s[0]] + s[1..];
        } else {
          assert parts[1..] == rest[1..];
          assert s[1..] == rest[0] + [DOT] + Join(rest[1..]);
          assert s == [s[0]] + s[1..];
        }
      }
    }
  }

  /** Splitting a join of dot-free pieces gives back the pieces. */
  lemma {:induction false} SplitJoin(parts: seq<seq<byte>>)
    requires |parts| >= 1
    requires forall i :: 0 <= i < |parts| ==> DOT !in parts[i]
    ensures Split(Join(parts)) == parts
  {
    if |parts| == 1 {
      SplitDotFree(parts[0]);
    } else {
      SplitJoin(parts[1..]);
      SplitPrefix(parts[0], Join(parts[1..]));
      assert parts == [parts[0]] + parts[1..];
    }
  }

  /** A dot-free text splits into itself. */
  lemma {:induction false} SplitDotFree(p: seq<byte>)
    requires DOT !in p
    ensures Split(p) == [p]
  {
    if |p| > 0 {
      assert DOT !in p[1..];
      SplitDotFree(p[1..]);
      assert p == [p[0]] + p[1..];
    }
  }

  /** A dot-free prefix followed by a dot becomes the first piece. */
  lemma {:induction false} SplitPrefix(p: seq<byte>, t: seq<byte>)
    requires DOT !in p
    ensures Split(p + [DOT] + t) == [p] + Split(t)
  {
    if |p| == 0 {
      assert p + [DOT] + t == [DOT] + t;
      assert ([DOT] + t)[1..] == t;
    } else {
      assert (p + [DOT] + t)[1..] == p[1..] + [DOT] + t;
      assert DOT !in p[1..];
      SplitPrefix(p[1..], t);
      assert p == [p[0]] + p[1..];
    }
  }

  /** Labels for each piece, failing on the first piece over 255 bytes. */
  function NewLabels(parts: seq<seq<byte>>): (r: Result<seq<Label>>)
    ensures r.Success? <==> forall i :: 0 <= i < |parts| ==> |parts[i]| <= MAX_LABEL_LENGTH
    ensures r.Success? ==> |r.value| == |parts|
    ensures r.Success? ==> forall i :: 0 <= i < |parts| ==>
              r.value[i].Valid() && r.value[i].contents == parts[i]
  {
    if |parts| == 0 then Success([])
    else
      var first :- NewLabel(parts[0]);
      var rest :- NewLabels(parts[1..]);
      Success([first] + rest)
  }

  /** `Name::new(s)`: one label per dot-separated piece of `s`, in order. */
  function FromString(s: seq<byte>): (r: Result<Name>)
    ensures r.Success? <==> forall i :: 0 <= i < |Split(s)| ==> |Split(s)[i]| <= MAX_LABEL_LENGTH
    ensures r.Success? ==> r.value.Valid() && |r.value.labels| == Count(s, DOT) + 1
    ensures r.Success? ==> forall i :: 0 <= i < |r.value.labels| ==>
              r.value.labels[i].contents == Split(s)[i]
  {
    var parts := Split(s);
    match NewLabels(parts)
    case Success(labels) => Success(Name(labels))
    case Failure(e) => Failure(e)
  }

  /** `Name::from_labels`. */
  function FromLabels(labels: seq<Label>): Name
  {
    Name(labels)
  }

  /** `Name::labels`. */
  function Labels(n: Name): seq<Label>
  {
    n.labels
  }

  /** The labels given to `from_labels` are the labels read back. */
  lemma LabelsOfFromLabels(labels: seq<Label>)
    ensures Labels(FromLabels(labels)) == labels
  {
  }

  /** Contents of every label, in order. */
  function Contents(labels: seq<Label>): (r: seq<seq<byte>>)
    ensures |r| == |labels|
  {
    seq(|labels|, i requires 0 <= i < |labels| => labels[i].contents)
  }

  /** `Display for Name`: the first label, then `.` and each further label.
      The Rust code indexes `labels[0]`, so a name without labels panics. */
  function Display(n: Name): seq<byte>
    requires |n.labels| >= 1
  {
    Join(Contents(n.labels))
  }

  /** A name built from a text displays as that text. */
  lemma DisplayFromString(s: seq<byte>)
    requires FromString(s).Success?
    ensures |FromString(s).value.labels| >= 1
    ensures Display(FromString(s).value) == s
  {
    var n := FromString(s).value;
    assert Contents(n.labels) == Split(s);
    JoinSplit(s);
  }

  /** Conversely, dot-free labels display as a text that builds the same
      label contents again. */
  lemma FromStringDisplay(n: Name)
    requires n.Valid() && |n.labels| >= 1
    requires forall i :: 0 <= i < |n.labels| ==> DOT !in n.labels[i].contents
    ensures FromString(Display(n)).Success?
    ensures Contents(FromString(Display(n)).value.labels) == Contents(n.labels)
  {
    SplitJoin(Contents(n.labels));
  }

  // ---------------------------------------------------------------------
  // Wire form: the encoder of section 3.1 of RFC 1035 and two decoders

  /** Each label as its length byte followed by its contents. */
  function EncodeLabels(labels: seq<Label>): seq<byte>
  {
    if |labels| == 0 then []
    else [labels[0].length] + labels[0].contents + EncodeLabels(labels[1..])
  }

  /** `Name::raw`: the labels, then the zero byte that ends the name. */
  function Encode(n: Name): seq<byte>
  {
    EncodeLabels(n.labels) + [0]
  }

  function SizeLabels(labels: seq<Label>): nat
  {
    if |labels| == 0 then 0 else labels[0].length as int + 1 + SizeLabels(labels[1..])
  }

  /** `Name::raw_size`: one length byte plus the stated length per label,
      plus the terminator. */
  function Size(n: Name): nat
  {
    SizeLabels(n.labels) + 1
  }

  /** The size agrees with the length of the encoding. */
  lemma {:induction false} EncodeSize(n: Name)
    requires n.Valid()
    ensures |Encode(n)| == Size(n)
  {
    EncodeLabelsSize(n.labels);
  }

  lemma {:induction false} EncodeLabelsSize(labels: seq<Label>)
    requires forall i :: 0 <= i < |labels| ==> labels[i].Valid()
    ensures |EncodeLabels(labels)| == SizeLabels(labels)
  {
    if |labels| > 0 {
      EncodeLabelsSize(labels[1..]);
    }
  }

  /** The labels of a zero-terminated name: a zero length byte ends the
      name; otherwise the label is the `n` bytes after its length byte `n`
      and reading resumes `n + 1` bytes further on.  A length byte or
      contents past the end of the buffer is a failure. */
  function DecodeLabels(b: seq<byte>): (r: Result<seq<Label>>)
    decreases |b|
  {
    if |b| == 0 then Failure(OutOfRange)
    else if b[0] == 0 then Success([])
    else if |b| < b[0] as int + 1 then Failure(OutOfRange)
    else
      var rest :- DecodeLabels(b[b[0] as int + 1..]);
      Success([Label(b[0], b[1..b[0] as int + 1])] + rest)
  }

  /** Decoding of a name that stops at the terminating zero byte, the rule
      the older decoder of the DNS module follows (with its label contents
      taken after the length byte), and the one the question, record and
      RDATA decoders rely on. */
  function Decode(b: seq<byte>): (r: Result<Name>)
    ensures r.Success? ==> r.value.WireSafe()
    ensures r.Success? ==> Size(r.value) <= |b| && Encode(r.value) == b[..Size(r.value)]
  {
    match DecodeLabels(b)
    case Success(labels) =>
      DecodedWireSafe(b);
      DecodeConsumesEncoding(b);
      Success(Name(labels))
    case Failure(e) => Failure(e)
  }

  /** A successful decode reads only wire-safe labels. */
  lemma {:induction false} DecodedWireSafe(b: seq<byte>)
    requires DecodeLabels(b).Success?
    ensures Name(DecodeLabels(b).value).WireSafe()
    decreases |b|
  {
    if b[0] != 0 {
      var k := b[0] as int + 1;
      DecodeLabelsStep(b);
      DecodedWireSafe(b[k..]);
      ConsWireSafe(Label(b[0], b[1..k]), DecodeLabels(b[k..]).value);
    }
  }

  /** What a successful decode read is exactly the encoding of the result. */
  lemma {:induction false} DecodeConsumesEncoding(b: seq<byte>)
    requires DecodeLabels(b).Success?
    ensures SizeLabels(DecodeLabels(b).value) + 1 <= |b|
    ensures EncodeLabels(DecodeLabels(b).value) + [0] == b[..SizeLabels(DecodeLabels(b).value) + 1]
    decreases |b|
  {
    if b[0] != 0 {
      var k := b[0] as int + 1;
      DecodeLabelsStep(b);
      DecodeConsumesEncoding(b[k..]);
      ConsumedAfterLabel(b, DecodeLabels(b[k..]).value);
    } else {
      assert DecodeLabels(b).value == [];
      assert EncodeLabels([]) + [0] == b[..1];
    }
  }

  /** One step of the decoder: a non-zero length byte `n` with `n` bytes
      after it yields the label of those bytes, followed by the labels
      decoded after it, and fails exactly when that rest fails. */
  lemma DecodeLabelsStep(b: seq<byte>)
    requires |b| > 0 && b[0] != 0 && |b| >= b[0] as int + 1
    ensures DecodeLabels(b).Success? <==> DecodeLabels(b[b[0] as int + 1..]).Success?
    ensures DecodeLabels(b).Success? ==>
              DecodeLabels(b).value
              == [Label(b[0], b[1..b[0] as int + 1])] + DecodeLabels(b[b[0] as int + 1..]).value
  {
  }

  /** If the labels after the first one were read from their own encoding,
      the first label and they were read from theirs. */
  lemma ConsumedAfterLabel(b: seq<byte>, rest: seq<Label>)
    requires |b| > 0 && b[0] != 0 && |b| >= b[0] as int + 1
    requires SizeLabels(rest) + 1 <= |b[b[0] as int + 1..]|
    requires EncodeLabels(rest) + [0] == b[b[0] as int + 1..][..SizeLabels(rest) + 1]
    ensures var labels := [Label(b[0], b[1..b[0] as int + 1])] + rest;
      && SizeLabels(labels) + 1 <= |b|
      && EncodeLabels(labels) + [0] == b[..SizeLabels(labels) + 1]
  {
    var k := b[0] as int + 1;
    var l := Label(b[0], b[1..k]);
    ConsLabel(l, rest);
    var m := SizeLabels(rest) + 1;
    assert EncodeLabels([l] + rest) + [0] == [b[0]] + b[1..k] + b[k..][..m];
    SplitAtLabel(b, k, m);
  }

  lemma SplitAtLabel(b: seq<byte>, k: nat, m: nat)
    requires 1 <= k && k + m <= |b|
    ensures [b[0]] + b[1..k] + b[k..][..m] == b[..k + m]
  {
    assert b[k..][..m] == b[k..k + m];
  }

  /** Prepending a label extends the encoding and the size of the rest by
      that label. */
  lemma ConsLabel(l: Label, rest: seq<Label>)
    ensures EncodeLabels([l] + rest) == [l.length] + l.contents + EncodeLabels(rest)
    ensures SizeLabels([l] + rest) == l.length as int + 1 + SizeLabels(rest)
  {
    assert ([l] + rest)[1..] == rest;
  }

  /** Prepending a valid non-empty label keeps a name wire-safe. */
  lemma ConsWireSafe(l: Label, rest: seq<Label>)
    requires l.Valid() && l.length != 0 && Name(rest).WireSafe()
    ensures Name([l] + rest).WireSafe()
  {
    forall i | 0 <= i < |[l] + rest|
      ensures ([l] + rest)[i].Valid() && ([l] + rest)[i].length != 0
    {
      if i > 0 {
        assert ([l] + rest)[i] == rest[i - 1];
      }
    }
  }

  /** Decoding the encoding of a wire-safe name, whatever follows it,
      gives the name back. */
  lemma {:induction false} DecodeEncode(n: Name, rest: seq<byte>)
    requires n.WireSafe()
    ensures Decode(Encode(n) + rest) == Success(n)
  {
    DecodeEncodeLabels(n.labels, rest);
  }

  lemma {:induction false} DecodeEncodeLabels(labels: seq<Label>, rest: seq<byte>)
    requires Name(labels).WireSafe()
    ensures DecodeLabels(EncodeLabels(labels) + [0] + rest) == Success(labels)
  {
    var b := EncodeLabels(labels) + [0] + rest;
    if |labels| == 0 {
      assert b[0] == 0;
    } else {
      var l := labels[0];
      var k := l.length as int + 1;
      assert Name(labels[1..]).WireSafe() by {
        forall i | 0 <= i < |labels[1..]|
          ensures labels[1..][i].Valid() && labels[1..][i].length != 0
        {
          assert labels[1..][i] == labels[i + 1];
        }
      }
      DecodeEncodeLabels(labels[1..], rest);
      assert labels[0].Valid() && labels[0].length != 0;
      assert b == [l.length] + l.contents + (EncodeLabels(labels[1..]) + [0] + rest);
      assert b[1..k] == l.contents;
      assert b[k..] == EncodeLabels(labels[1..]) + [0] + rest;
      assert labels == [Label(b[0], b[1..k])] + labels[1..];
    }
  }

  /** The corrected decoder needs the terminator: the labels of a
      wire-safe name with nothing after them, which the loop-to-the-end
      decoder accepts, run off the end of the buffer. */
  lemma {:induction false} DecodeRejectsUnterminated(labels: seq<Label>)
    requires Name(labels).WireSafe()
    ensures DecodeLabels(EncodeLabels(labels)) == Failure(OutOfRange)
    ensures Decode(EncodeLabels(labels)) == Failure(OutOfRange)
  {
    if |labels| > 0 {
      var l := labels[0];
      var b := EncodeLabels(labels);
      assert b == [l.length] + l.contents + EncodeLabels(labels[1..]);
      var k := l.length as int + 1;
      assert b[0] == l.length && b[k..] == EncodeLabels(labels[1..]);
      ValidTail(labels);
      DecodeRejectsUnterminated(labels[1..]);
    }
  }

  /** `Name::from_bytes` as the Rust code writes it: the loop runs to the
      end of the slice instead of stopping at a zero length byte, so a zero
      byte is read as an empty label and reading goes on past it. */
  function FromBytesToEnd(b: seq<byte>): (r: Result<Name>)
    decreases |b|
  {
    if |b| == 0 then Success(Name([]))
    else if |b| < b[0] as int + 1 then Failure(OutOfRange)
    else
      var rest :- FromBytesToEnd(b[b[0] as int + 1..]);
      Success(Name([Label(b[0], b[1..b[0] as int + 1])] + rest.labels))
  }

  /** The loop-to-the-end decoder either runs off the buffer or consumes
      every byte of it: the labels it returns account for the whole input. */
  lemma {:induction false} FromBytesToEndConsumesAll(b: seq<byte>)
    ensures FromBytesToEnd(b).Failure? ==> FromBytesToEnd(b).error == OutOfRange
    ensures FromBytesToEnd(b).Success? ==> SizeLabels(FromBytesToEnd(b).value.labels) == |b|
    decreases |b|
  {
    if |b| > 0 && |b| >= b[0] as int + 1 {
      var k := b[0] as int + 1;
      var l := Label(b[0], b[1..k]);
      var tail := FromBytesToEnd(b[k..]);
      FromBytesToEndConsumesAll(b[k..]);
      if tail.Success? {
        assert FromBytesToEnd(b) == Success(Name([l] + tail.value.labels));
        ConsLabel(l, tail.value.labels);
      } else {
        assert FromBytesToEnd(b) == Failure(tail.error);
      }
    }
  }

  /** On the encoding of any valid name the loop-to-the-end decoder reads
      the terminator as one more, empty, label: it never gives the name
      back. */
  lemma FromBytesToEndOfEncoding(n: Name)
    requires n.Valid()
    ensures FromBytesToEnd(Encode(n)) == Success(Name(n.labels + [Label(0, [])]))
    ensures FromBytesToEnd(Encode(n)) != Success(n)
  {
    FromBytesToEndAfterName(n, []);
    assert Encode(n) + [] == Encode(n);
    assert FromBytesToEnd([]) == Success(Name([]));
    assert n.labels + [Label(0, [])] + [] == n.labels + [Label(0, [])];
    assert |n.labels + [Label(0, [])]| != |n.labels|;
  }

  /** Whatever follows a name's terminator, the loop-to-the-end decoder
      goes on reading it, so it succeeds only if that rest decodes too, and
      then returns more labels than the name has. */
  lemma FromBytesToEndAfterName(n: Name, rest: seq<byte>)
    requires n.Valid()
    ensures FromBytesToEnd(Encode(n) + rest).Success? <==> FromBytesToEnd(rest).Success?
    ensures FromBytesToEnd(Encode(n) + rest).Success? ==>
              FromBytesToEnd(Encode(n) + rest).value.labels
              == n.labels + [Label(0, [])] + FromBytesToEnd(rest).value.labels
  {
    assert Encode(n) + rest == EncodeLabels(n.labels) + ([0] + rest);
    FromBytesToEndLabels(n.labels, [0] + rest);
    FromBytesToEndZero(rest);
  }

  /** A zero byte is an empty label to the loop-to-the-end decoder. */
  lemma FromBytesToEndZero(rest: seq<byte>)
    ensures FromBytesToEnd([0] + rest).Success? <==> FromBytesToEnd(rest).Success?
    ensures FromBytesToEnd([0] + rest).Success? ==>
              FromBytesToEnd([0] + rest).value.labels == [Label(0, [])] + FromBytesToEnd(rest).value.labels
  {
    var b := [0] + rest;
    assert b[0] as int == 0;
    assert b[1..] == rest && b[1..1] == [];
  }

  /** The labels of a valid name are read back one by one, and the
      decoder then carries on with what follows them. */
  lemma {:induction false} FromBytesToEndLabels(labels: seq<Label>, rest: seq<byte>)
    requires Name(labels).Valid()
    ensures FromBytesToEnd(EncodeLabels(labels) + rest).Success? <==> FromBytesToEnd(rest).Success?
    ensures FromBytesToEnd(EncodeLabels(labels) + rest).Success? ==>
              FromBytesToEnd(EncodeLabels(labels) + rest).value.labels
              == labels + FromBytesToEnd(rest).value.labels
  {
    var b := EncodeLabels(labels) + rest;
    if |labels| == 0 {
      assert EncodeLabels(labels) == [];
      assert b == rest;
    } else {
      var l := labels[0];
      var tail := EncodeLabels(labels[1..]) + rest;
      ValidTail(labels);
      FromBytesToEndLabels(labels[1..], rest);
      assert b == [l.length] + l.contents + tail;
      FromBytesToEndStep(l, tail);
      if FromBytesToEnd(b).Success? {
        HeadThenTail(labels, FromBytesToEnd(rest).value.labels);
      }
    }
  }

  lemma HeadThenTail(s: seq<Label>, x: seq<Label>)
    requires |s| > 0
    ensures s + x == [s[0]] + (s[1..] + x)
  {
    assert s == [s[0]] + s[1..];
  }

  lemma ValidTail(labels: seq<Label>)
    requires |labels| > 0 && Name(labels).Valid()
    ensures labels[0].Valid() && Name(labels[1..]).Valid()
  {
    assert labels[0].Valid();
    forall i | 0 <= i < |labels[1..]|
      ensures labels[1..][i].Valid()
    {
      assert labels[1..][i] == labels[i + 1];
    }
  }

  /** One step of the loop-to-the-end decoder over an encoded label. */
  lemma FromBytesToEndStep(l: Label, tail: seq<byte>)
    requires l.Valid()
    ensures var b := [l.length] + l.contents + tail;
      && (FromBytesToEnd(b).Success? <==> FromBytesToEnd(tail).Success?)
      && (FromBytesToEnd(b).Success? ==>
            FromBytesToEnd(b).value.labels == [l] + FromBytesToEnd(tail).value.labels)
  {
    var b := [l.length] + l.contents + tail;
    var k := l.length as int + 1;
    assert b[1..k] == l.contents && b[k..] == tail;
  }

  /** The labels `other`, `example`, `com`. */
  const OTHER_EXAMPLE_COM: seq<Label> := [
    Label(5, [0x6F, 0x74, 0x68, 0x65, 0x72]),
    Label(7, [0x65, 0x78, 0x61, 0x6D, 0x70, 0x6C, 0x65]),
    Label(3, [0x63, 0x6F, 0x6D])]

  /** The byte-decoding half of the name module's unit test: the buffer
      `\x05other\x07example\x03com`, which has no terminator, reads as the
      three labels and displays as `other.example.com`; the zero-terminated
      decoder rejects the same buffer for want of its terminator. */
  lemma NameUnitTest(b: seq<byte>, text: seq<byte>)
    requires b == [5, 0x6F, 0x74, 0x68, 0x65, 0x72, 7, 0x65, 0x78, 0x61, 0x6D, 0x70, 0x6C, 0x65,
                   3, 0x63, 0x6F, 0x6D]
    requires text == [0x6F, 0x74, 0x68, 0x65, 0x72, DOT, 0x65, 0x78, 0x61, 0x6D, 0x70, 0x6C, 0x65,
                      DOT, 0x63, 0x6F, 0x6D]
    ensures FromBytesToEnd(b) == Success(Name(OTHER_EXAMPLE_COM))
    ensures Display(Name(OTHER_EXAMPLE_COM)) == text
    ensures Decode(b) == Failure(OutOfRange)
  {
    ExampleFromBytes(b);
    ExampleDisplay(text);
    ExampleRejected(b);
  }

  lemma ExampleRejected(b: seq<byte>)
    requires b == [5, 0x6F, 0x74, 0x68, 0x65, 0x72, 7, 0x65, 0x78, 0x61, 0x6D, 0x70, 0x6C, 0x65,
                   3, 0x63, 0x6F, 0x6D]
    ensures Decode(b) == Failure(OutOfRange)
  {
    var l := OTHER_EXAMPLE_COM;
    assert b == [l[0].length] + l[0].contents + ([l[1].length] + l[1].contents + ([l[2].length] + l[2].contents + []));
    ThreeLabelsEncoding(l[0], l[1], l[2]);
    assert [l[0], l[1], l[2]] == l;
    assert Name(l).WireSafe();
    DecodeRejectsUnterminated(l);
  }

  lemma ThreeLabelsEncoding(l0: Label, l1: Label, l2: Label)
    ensures EncodeLabels([l0, l1, l2])
            == [l0.length] + l0.contents + ([l1.length] + l1.contents + ([l2.length] + l2.contents + []))
  {
    assert [l2][1..] == [];
    assert EncodeLabels([l2]) == [l2.length] + l2.contents + [];
    assert [l1, l2][1..] == [l2];
    assert EncodeLabels([l1, l2]) == [l1.length] + l1.contents + EncodeLabels([l2]);
    assert [l0, l1, l2][1..] == [l1, l2];
  }

  lemma ExampleFromBytes(b: seq<byte>)
    requires b == [5, 0x6F, 0x74, 0x68, 0x65, 0x72, 7, 0x65, 0x78, 0x61, 0x6D, 0x70, 0x6C, 0x65,
                   3, 0x63, 0x6F, 0x6D]
    ensures FromBytesToEnd(b) == Success(Name(OTHER_EXAMPLE_COM))
  {
    var l := OTHER_EXAMPLE_COM;
    assert b == [l[0].length] + l[0].contents + ([l[1].length] + l[1].contents + ([l[2].length] + l[2].contents + []));
    ThreeLabels(l[0], l[1], l[2]);
    assert [l[0], l[1], l[2]] == l;
  }

  /** Three valid labels, unterminated, read back as those labels. */
  lemma ThreeLabels(l0: Label, l1: Label, l2: Label)
    requires l0.Valid() && l1.Valid() && l2.Valid()
    ensures FromBytesToEnd([l0.length] + l0.contents + ([l1.length] + l1.contents + ([l2.length] + l2.contents + [])))
            == Success(Name([l0, l1, l2]))
  {
    FromBytesToEndStep(l2, []);
    FromBytesToEndStep(l1, [l2.length] + l2.contents + []);
    FromBytesToEndStep(l0, [l1.length] + l1.contents + ([l2.length] + l2.contents + []));
    assert [l0] + ([l1] + ([l2] + [])) == [l0, l1, l2];
  }

  lemma ExampleDisplay(text: seq<byte>)
    requires text == [0x6F, 0x74, 0x68, 0x65, 0x72, DOT, 0x65, 0x78, 0x61, 0x6D, 0x70, 0x6C, 0x65,
                      DOT, 0x63, 0x6F, 0x6D]
    ensures Display(Name(OTHER_EXAMPLE_COM)) == text
  {
    var l := OTHER_EXAMPLE_COM;
    assert Contents(l) == [l[0].contents, l[1].contents, l[2].contents];
    JoinThree(l[0].contents, l[1].contents, l[2].contents);
    assert text == l[0].contents + [DOT] + (l[1].contents + [DOT] + l[2].contents);
  }

  lemma JoinThree(p0: seq<byte>, p1: seq<byte>, p2: seq<byte>)
    ensures Join([p0, p1, p2]) == p0 + [DOT] + (p1 + [DOT] + p2)
  {
    assert [p1, p2][1..] == [p2];
    assert Join([p1, p2]) == p1 + [DOT] + p2;
    assert [p0, p1, p2][1..] == [p1, p2];
    assert Join([p0, p1, p2]) == p0 + [DOT] + Join([p1, p2]);
  }

}
