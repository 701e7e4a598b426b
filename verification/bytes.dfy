/** Bytes and big-endian 16-bit words, as the `byteorder` crate's
    `NetworkEndian` reads and writes them. */
module Bytes {
  import opened Results

  type byte = bv8
  type u16 = bv16

  /** `NetworkEndian::write_u16`: the high byte first. */
  function BE16(w: u16): (r: seq<byte>)
    ensures |r| == 2
  {
    [(w >> 8) as byte, (w & 0xFF) as byte]
  }

  /** `NetworkEndian::read_u16` of the two bytes `hi`, `lo`. */
  function ReadBE16(hi: byte, lo: byte): u16
  {
    (hi as u16 << 8) | lo as u16
  }

  /** Reading back a written word gives the word. */
  lemma ReadOfWrite(w: u16)
    ensures ReadBE16(BE16(w)[0], BE16(w)[1]) == w
  {
  }

  /** A word written at offset `i` of a buffer reads back from there. */
  lemma ReadAt(b: seq<byte>, i: nat, w: u16)
    requires i + 2 <= |b| && b[i..i + 2] == BE16(w)
    ensures ReadBE16(b[i], b[i + 1]) == w
  {
    assert b[i] == BE16(w)[0] && b[i + 1] == BE16(w)[1];
    ReadOfWrite(w);
  }

  /** Writing a word that was read gives back the two bytes. */
  lemma WriteOfRead(hi: byte, lo: byte)
    ensures BE16(ReadBE16(hi, lo)) == [hi, lo]
  {
  }

  /** The word read at offset `i` of a buffer writes back as the two
      bytes there. */
  lemma WriteOfReadAt(b: seq<byte>, i: nat)
    requires i + 2 <= |b|
    ensures BE16(ReadBE16(b[i], b[i + 1])) == b[i..i + 2]
  {
    WriteOfRead(b[i], b[i + 1]);
    assert b[i..i + 2] == [b[i], b[i + 1]];
  }

  /** The byte whose value is `n` (a checked `as u8`). */
  function ByteOf(n: int): (r: byte)
    requires 0 <= n < 0x100
    ensures r as int == n
  {
    (NibbleOf(n / 16) << 4) | NibbleOf(n % 16)
  }

  function NibbleOf(n: int): (r: byte)
    requires 0 <= n < 16
    ensures r as int == n
  {
    n as byte
  }

  /** `NetworkEndian::write_u16(&mut buf[lo..hi], w)`: the slice must lie
      inside the buffer and hold at least two bytes, else Rust panics; the
      word goes into the first two bytes of the slice. */
  function WriteU16Into(buf: seq<byte>, lo: nat, hi: nat, w: u16): (r: Result<seq<byte>>)
    ensures r.Success? <==> lo + 2 <= hi <= |buf|
    ensures r.Success? ==> |r.value| == |buf|
    ensures r.Success? ==> r.value[lo..lo + 2] == BE16(w)
    ensures r.Success? ==> r.value[..lo] == buf[..lo] && r.value[lo + 2..] == buf[lo + 2..]
  {
    if hi <= |buf| && lo + 2 <= hi then
      Success(buf[..lo] + BE16(w) + buf[lo + 2..])
    else
      Failure(OutOfRange)
  }

  /** Pushing two zero bytes and writing a word into exactly them appends
      the word. */
  lemma PushWord(buf: seq<byte>, w: u16)
    ensures WriteU16Into(buf + [0, 0], |buf|, |buf| + 2, w) == Success(buf + BE16(w))
  {
    var r := WriteU16Into(buf + [0, 0], |buf|, |buf| + 2, w).value;
    assert r == r[..|buf|] + r[|buf|..|buf| + 2];
  }

  /** Words written one after the other, each high byte first. */
  function EncodeWords(ws: seq<u16>): (r: seq<byte>)
    ensures |r| == 2 * |ws|
  {
    if |ws| == 0 then [] else BE16(ws[0]) + EncodeWords(ws[1..])
  }

  /** Word `i` sits at bytes `2i` and `2i + 1`. */
  lemma {:induction false} EncodeWordsAt(ws: seq<u16>, i: nat)
    requires i < |ws|
    ensures EncodeWords(ws)[2 * i..2 * i + 2] == BE16(ws[i])
  {
    if i > 0 {
      EncodeWordsAt(ws[1..], i - 1);
      assert EncodeWords(ws) == BE16(ws[0]) + EncodeWords(ws[1..]);
      assert EncodeWords(ws)[2 * i..2 * i + 2] == EncodeWords(ws[1..])[2 * (i - 1)..2 * (i - 1) + 2];
    }
  }

  /** The first `n` big-endian words of a buffer. */
  function ReadWords(b: seq<byte>, n: nat): (ws: seq<u16>)
    requires 2 * n <= |b|
    ensures |ws| == n
    ensures forall i :: 0 <= i < n ==> ws[i] == ReadBE16(b[2 * i], b[2 * i + 1])
  {
    seq(n, i requires 0 <= i < n => ReadBE16(b[2 * i], b[2 * i + 1]))
  }

  /** Reading back written words gives the words, whatever follows them. */
  lemma ReadWordsOfEncode(ws: seq<u16>, rest: seq<byte>)
    ensures ReadWords(EncodeWords(ws) + rest, |ws|) == ws
  {
    var e := EncodeWords(ws);
    var b := e + rest;
    forall i | 0 <= i < |ws|
      ensures ReadWords(b, |ws|)[i] == ws[i]
    {
      EncodeWordsAt(ws, i);
      assert e[2 * i] == e[2 * i..2 * i + 2][0] && e[2 * i + 1] == e[2 * i..2 * i + 2][1];
      assert b[2 * i] == e[2 * i] && b[2 * i + 1] == e[2 * i + 1];
      ReadOfWrite(ws[i]);
    }
  }

  /** Writing the words that were read gives back the bytes they came from. */
  lemma EncodeWordsOfRead(b: seq<byte>, n: nat)
    requires 2 * n <= |b|
    ensures EncodeWords(ReadWords(b, n)) == b[..2 * n]
  {
    var e := EncodeWords(ReadWords(b, n));
    forall k | 0 <= k < 2 * n
      ensures e[k] == b[k]
    {
      var i := k / 2;
      EncodeWordsAt(ReadWords(b, n), i);
      WriteOfReadAt(b, 2 * i);
      assert e[k] == e[2 * i..2 * i + 2][k - 2 * i];
    }
  }
}
