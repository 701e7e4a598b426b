/** A question entry (section 4.1.2 of RFC 1035): a name, a 16-bit type
    and a 16-bit class word whose top bit is the unicast-response flag of
    section 5.4 of RFC 6762. */
module Questions {
  import opened Bytes
  import opened Results
  import opened Names
  import opened Dns

  /** The unicast-response bit of the class word. */
  const UNICAST_RESPONSE: u16 := 0x8000

  /** The part of the class word that holds the class. */
  const CLASS_MASK: u16 := 0x00FF

  /** The class word is stored as it came, flag bit included. */
  datatype Question = Question(name: Name, qtype: Type, classWord: u16)

  /** `Question::new`: the class code with the top bit set when a unicast
      response is preferred.  Both are read back unchanged. */
  function New(name: Name, qtype: Type, qclass: Class, unicastResponse: bool): (q: Question)
    ensures q.name == name && q.qtype == qtype
    ensures ClassOf(q) == Success(qclass)
    ensures PrefersUnicastResponse(q) == unicastResponse
  {
    Question(name, qtype, ClassCode(qclass) | (if unicastResponse then UNICAST_RESPONSE else 0))
  }

  /** `Question::class`: the low byte of the class word as a class; it
      fails (the Rust code panics) when that byte is not a class code. */
  function ClassOf(q: Question): (r: Result<Class>)
    ensures r.Failure? <==> q.classWord & CLASS_MASK !in {1, 2, 3, 4, 254}
    ensures r.Success? ==> ClassCode(r.value) == q.classWord & CLASS_MASK
  {
    var low := q.classWord & CLASS_MASK;
    match ClassFromCode(low)
    case Some(c) => Success(c)
    case None => Failure(UnknownClass(low))
  }

  /** `Question::prefers_unicast_response`: the top bit of the class word. */
  predicate PrefersUnicastResponse(q: Question)
  {
    q.classWord & UNICAST_RESPONSE != 0
  }

  /** Internet class with a unicast response stores the word 0x8001. */
  lemma NewInternetUnicast(name: Name, qtype: Type)
    ensures New(name, qtype, IN, true).classWord == 0x8001
  {
  }

  /** `Raw::raw` for a question: the name, the type code, the class word. */
  function Encode(q: Question): seq<byte>
  {
    Names.Encode(q.name) + BE16(TypeCode(q.qtype)) + BE16(q.classWord)
  }

  /** `Raw::raw_size`: the name plus two 16-bit words. */
  function Size(q: Question): nat
  {
    Names.Size(q.name) + 4
  }

  lemma EncodeSize(q: Question)
    requires q.name.Valid()
    ensures |Encode(q)| == Size(q)
  {
    Names.EncodeSize(q.name);
  }

  /** The type and class words that follow a name of size `end`.  Each
      word is read once its two bytes are there, so an unknown type code
      fails before the class word is looked for. */
  function DecodeAfterName(b: seq<byte>, name: Name, end: nat): Result<Question>
  {
    if |b| < end + 2 then Failure(OutOfRange)
    else
      var code := ReadBE16(b[end], b[end + 1]);
      match TypeFromCode(code)
      case None => Failure(UnknownType(code))
      case Some(t) =>
        if |b| < end + 4 then Failure(OutOfRange)
        else Success(Question(name, t, ReadBE16(b[end + 2], b[end + 3])))
  }

  /** `Question::from_bytes`, reading the name up to its terminator: then
      the type, which must be known, and the class word, kept raw. */
  function Decode(b: seq<byte>): Result<Question>
  {
    var name :- Names.Decode(b);
    DecodeAfterName(b, name, Names.Size(name))
  }

  /** After a name, an unknown type code fails the decode, and any class
      word at all is kept as it is, valid class or not. */
  lemma DecodeTypeAndClass(n: Name, code: u16, word: u16, rest: seq<byte>)
    requires n.WireSafe()
    ensures TypeFromCode(code).None? ==>
              Decode(Names.Encode(n) + BE16(code) + BE16(word) + rest) == Failure(UnknownType(code))
    ensures TypeFromCode(code).Some? ==>
              Decode(Names.Encode(n) + BE16(code) + BE16(word) + rest)
              == Success(Question(n, TypeFromCode(code).value, word))
  {
    var b := Names.Encode(n) + BE16(code) + BE16(word) + rest;
    assert b == Names.Encode(n) + (BE16(code) + BE16(word) + rest);
    Names.DecodeEncode(n, BE16(code) + BE16(word) + rest);
    Names.EncodeSize(n);
    var end := Names.Size(n);
    assert b[end..end + 2] == BE16(code) && b[end + 2..end + 4] == BE16(word);
    ReadAt(b, end, code);
    ReadAt(b, end + 2, word);
  }

  /** The type is checked as soon as its two bytes follow the name: an
      unknown type code fails with that code whatever follows it, even
      nothing, and a known one without a full class word after it runs off
      the buffer. */
  lemma DecodeTypeFirst(n: Name, code: u16, rest: seq<byte>)
    requires n.WireSafe()
    ensures TypeFromCode(code).None? ==>
              Decode(Names.Encode(n) + BE16(code) + rest) == Failure(UnknownType(code))
    ensures TypeFromCode(code).Some? && |rest| < 2 ==>
              Decode(Names.Encode(n) + BE16(code) + rest) == Failure(OutOfRange)
  {
    var b := Names.Encode(n) + BE16(code) + rest;
    assert b == Names.Encode(n) + (BE16(code) + rest);
    Names.DecodeEncode(n, BE16(code) + rest);
    Names.EncodeSize(n);
    var end := Names.Size(n);
    assert b[end..end + 2] == BE16(code);
    ReadAt(b, end, code);
  }

  /** Decoding the encoding of a question with a wire-safe name, whatever
      follows it, gives the question back. */
  lemma DecodeEncode(q: Question, rest: seq<byte>)
    requires q.name.WireSafe()
    ensures Decode(Encode(q) + rest) == Success(q)
  {
    DecodeTypeAndClass(q.name, TypeCode(q.qtype), q.classWord, rest);
    TypeCodeInverse(q.qtype, 0);
  }

  /** Re-encoding a decoded question gives exactly the bytes it was read
      from. */
  lemma EncodeDecode(b: seq<byte>)
    requires Decode(b).Success?
    ensures Size(Decode(b).value) <= |b|
    ensures Encode(Decode(b).value) == b[..Size(Decode(b).value)]
  {
    var name := Names.Decode(b).value;
    var end := Names.Size(name);
    var q := Decode(b).value;
    var code := ReadBE16(b[end], b[end + 1]);
    assert q == Question(name, TypeFromCode(code).value, ReadBE16(b[end + 2], b[end + 3]));
    TypeCodeInverse(q.qtype, code);
    assert Names.Encode(name) == b[..end];
    WriteOfReadAt(b, end);
    WriteOfReadAt(b, end + 2);
    assert b[..end + 4] == b[..end] + b[end..end + 2] + b[end + 2..end + 4];
  }

  /** `Question::from_bytes` as the Rust code writes it: the name decoder
      runs to the end of the slice, and the type and class are then read
      after the size of whatever name it produced. */
  function DecodeAsWritten(b: seq<byte>): Result<Question>
  {
    var name :- Names.FromBytesToEnd(b);
    DecodeAfterName(b, name, Names.Size(name))
  }

  /** As written, decoding never gives back the question that was encoded:
      the name swallows the terminator and the type and class bytes. */
  lemma DecodeAsWrittenNeverRoundTrips(q: Question)
    requires q.name.Valid()
    ensures DecodeAsWritten(Encode(q)) != Success(q)
  {
    var rest := BE16(TypeCode(q.qtype)) + BE16(q.classWord);
    assert Encode(q) == Names.Encode(q.name) + rest;
    Names.FromBytesToEndAfterName(q.name, rest);
    if DecodeAsWritten(Encode(q)).Success? {
      var n := Names.FromBytesToEnd(Encode(q)).value;
      assert |n.labels| > |q.name.labels|;
      assert DecodeAsWritten(Encode(q)).value.name == n;
    }
  }

  /** As written, `Question::from_bytes` fails on every buffer: a name read
      to the end of the slice leaves no bytes for the type. */
  lemma DecodeAsWrittenAlwaysFails(b: seq<byte>)
    ensures DecodeAsWritten(b) == Failure(OutOfRange)
  {
    Names.FromBytesToEndConsumesAll(b);
  }

  /** The labels `question`, `example`, `com`. */
  const QUESTION_EXAMPLE_COM: Name := Name([
    Label(8, [0x71, 0x75, 0x65, 0x73, 0x74, 0x69, 0x6F, 0x6E]),
    Label(7, [0x65, 0x78, 0x61, 0x6D, 0x70, 0x6C, 0x65]),
    Label(3, [0x63, 0x6F, 0x6D])])

  /** The unit test of the question module: an A question for
      `question.example.com`, class IN, unicast response preferred, reads
      back its class and flag, and survives encoding and decoding with
      identical bytes; with the decoder as written the same bytes fail to
      decode at all. */
  lemma QuestionUnitTest()
    ensures var q := New(QUESTION_EXAMPLE_COM, A, IN, true);
      && ClassOf(q) == Success(IN)
      && PrefersUnicastResponse(q)
      && Decode(Encode(q)) == Success(q)
      && Encode(Decode(Encode(q)).value) == Encode(q)
      && DecodeAsWritten(Encode(q)).Failure?
  {
    var q := New(QUESTION_EXAMPLE_COM, A, IN, true);
    ExampleRoundTrips(q);
    ExampleFailsAsWritten(q);
  }

  lemma ExampleRoundTrips(q: Question)
    requires q == New(QUESTION_EXAMPLE_COM, A, IN, true)
    ensures Decode(Encode(q)) == Success(q)
  {
    assert QUESTION_EXAMPLE_COM.WireSafe();
    DecodeEncode(q, []);
    assert Encode(q) + [] == Encode(q);
  }

  lemma ExampleFailsAsWritten(q: Question)
    requires q == New(QUESTION_EXAMPLE_COM, A, IN, true)
    ensures DecodeAsWritten(Encode(q)).Failure?
  {
    DecodeAsWrittenAlwaysFails(Encode(q));
  }
}
