/**
 Self-delimiting lengths and strings: the encodings written by the encoder and the reader of the
 decoder, as functions over byte sequences, with their round trips. A string is written as an integer
 when it is the canonical decimal of a 31-bit number, else LZF-compressed when that is enabled and
 pays, else plainly.
 */
module RdbString {
  import opened Bytes
  import opened Parsing
  import Lzf

  const LEN_32BIT := 0x80
  const LEN_64BIT := 0x81
  const INT8_PREFIX := 0xc0
  const INT16_PREFIX := 0xc1
  const INT32_PREFIX := 0xc2
  const LZF_PREFIX := 0xc3

  // ----- lengths

  datatype Length = Length(value: nat, special: bool)

  function EncLength(v: nat): (s: seq<byte>)
    requires v < TWO_64
    ensures 1 <= |s| <= 9
  {
    if v <= 63 then [v]
    else if v <= 16383 then [64 + v / 256, v % 256]
    else if v < TWO_32 then [LEN_32BIT] + BE(v, 4)
    else [LEN_64BIT] + BE(v, 8)
  }

  function PLength(s: seq<byte>): (p: Parsed<Length>)
    ensures p.Got? ==> |p.rest| < |s| && p.value.value < TWO_64
  {
    var (b, t) :- PByte(s);
    if b < 64 then Got(Length(b, false), t)
    else if b < 128 then
      var (c, u) :- PByte(t);
      Got(Length((b as int - 64) * 256 + c, false), u)
    else if b < 192 then
      if b == LEN_32BIT then PWide(t, 4)
      else if b == LEN_64BIT then PWide(t, 8)
      else Bad
    else Got(Length(b - 192, true), t)
  }

  function PWide(s: seq<byte>, n: nat): (p: Parsed<Length>)
    requires n == 4 || n == 8
    ensures p.Got? ==> |p.rest| + n == |s| && p.value.value < TWO_64
  {
    var (bs, u) :- PBytes(s, n);
    UnBEBound(bs);
    Pow256Values();
    Got(Length(UnBE(bs), false), u)
  }

  lemma WideRoundTrip(v: nat, n: nat, t: seq<byte>)
    requires (n == 4 && v < TWO_32) || (n == 8 && v < TWO_64)
    ensures PWide(BE(v, n) + t, n) == Got(Length(v, false), t)
  {
    hide BE, UnBE;
    Pow256Values();
    UnsignedRoundTrip(v, n);
    PBytesOf(BE(v, n), t);
  }

  /** Every 64-bit length reads back, and reading stops exactly at its end. */
  lemma LengthRoundTrip(v: nat, t: seq<byte>)
    requires v < TWO_64
    ensures PLength(EncLength(v) + t) == Got(Length(v, false), t)
  {
    hide BE, UnBE, PWide;
    var s := EncLength(v) + t;
    if v <= 63 {
      assert s[1..] == t;
    } else if v <= 16383 {
      assert s[1..][1..] == t;
    } else if v < TWO_32 {
      assert s[1..] == BE(v, 4) + t;
      WideRoundTrip(v, 4, t);
    } else {
      assert s[1..] == BE(v, 8) + t;
      WideRoundTrip(v, 8, t);
    }
  }

  // ----- integers as text

  /** isEncodableUint32 / isEncodableUint64: the value of a canonical non-negative decimal up to max. */
  function EncodableInt(s: seq<byte>, max: nat): (r: Option<nat>)
    ensures r.Some? ==> r.value <= max && NatText(r.value) == s
  {
    if Canonical(s) && TextNat(s) <= max then
      TextRoundTrip(s);
      Some(TextNat(s))
    else None
  }

  /** Exactly the texts Go prints for 0..max are encodable. */
  lemma EncodableIff(s: seq<byte>, max: nat)
    ensures EncodableInt(s, max).Some? <==> exists v: nat :: v <= max && s == NatText(v)
  {
    if exists v: nat :: v <= max && s == NatText(v) {
      var v: nat :| v <= max && s == NatText(v);
      NatTextCanonical(v);
    }
  }

  const MAX_INT32 := 0x7fff_ffff
  const MAX_INT64 := 0x7fff_ffff_ffff_ffff

  function EncIntString(v: nat): (s: seq<byte>)
    requires v <= MAX_INT32
    ensures |s| >= 2
  {
    if v <= 127 then [INT8_PREFIX, v]
    else if v <= 32767 then [INT16_PREFIX] + LE(v, 2)
    else [INT32_PREFIX] + LE(v, 4)
  }

  // ----- strings

  function EncPlain(s: seq<byte>): (r: seq<byte>)
    requires |s| < TWO_63
    ensures |r| > |s|
  {
    EncLength(|s|) + s
  }

  /** What a string must satisfy to be written: its length is a Go int, and 32-bit when compressing. */
  predicate Writable(s: seq<byte>, compress: bool)
  {
    |s| < TWO_63 && (compress ==> |s| < TWO_32)
  }

  /** writeLZFString: nothing when compression does not pay. */
  function EncLzf(s: seq<byte>): Option<seq<byte>>
    requires 20 < |s| < TWO_32
  {
    match Lzf.Compressed(s)
    case Ok(c) =>
      Lzf.RoundTrip(s, |s|);
      Some([LZF_PREFIX] + (EncLength(|c|) + (EncLength(|s|) + c)))
    case Err(_) => None
  }

  /** writeNanString: compressed if enabled, longer than 20 bytes and compressible, else plain. */
  function EncNanString(s: seq<byte>, compress: bool): (r: seq<byte>)
    requires Writable(s, compress)
  {
    if compress && |s| > 20 then
      match EncLzf(s)
      case Some(block) => block
      case None => EncPlain(s)
    else EncPlain(s)
  }

  /** writeString */
  function EncString(s: seq<byte>, compress: bool): (r: seq<byte>)
    requires Writable(s, compress)
  {
    match EncodableInt(s, MAX_INT32)
    case Some(v) => EncIntString(v)
    case None => EncNanString(s, compress)
  }

  function PIntText(s: seq<byte>, n: nat): (p: Parsed<seq<byte>>)
    ensures p.Got? ==> |p.rest| <= |s|
  {
    var (bs, t) :- PBytes(s, n);
    Got(IntText(Signed(UnLE(bs), Pow256(n))), t)
  }

  function PLzf(s: seq<byte>): (p: Parsed<seq<byte>>)
    ensures p.Got? ==> |p.rest| < |s|
  {
    var (inLen, s1) :- PLength(s);
    var (outLen, s2) :- PLength(s1);
    var (val, s3) :- PBytes(s2, inLen.value);
    if outLen.value >= TWO_63 then Bad
    else
      match Lzf.Expand(val, [], outLen.value)
      case Ok(bytes) => Got(bytes, s3)
      case Err(_) => Bad
  }

  /** readString */
  function PString(s: seq<byte>): (p: Parsed<seq<byte>>)
    ensures p.Got? ==> |p.rest| < |s|
  {
    var (len, t) :- PLength(s);
    if !len.special then PBytes(t, len.value)
    else if len.value == 0 then PIntText(t, 1)
    else if len.value == 1 then PIntText(t, 2)
    else if len.value == 2 then PIntText(t, 4)
    else if len.value == 3 then PLzf(t)
    else Bad
  }

  // ----- round trips

  lemma IntTextRoundTrip(v: nat, n: nat, t: seq<byte>)
    requires 2 * v < Pow256(n)
    ensures PIntText(LE(v, n) + t, n) == Got(NatText(v), t)
  {
    hide LE, UnLE;
    PBytesOf(LE(v, n), t);
    SignedRoundTrip(v, n);
  }

  lemma SpecialPrefix(b: byte, t: seq<byte>)
    requires b >= 192
    ensures PLength([b] + t) == Got(Length(b - 192, true), t)
  {
    assert ([b] + t)[1..] == t;
  }

  lemma TaggedIntRoundTrip(tag: byte, v: nat, n: nat, t: seq<byte>)
    requires (tag == INT8_PREFIX && n == 1) || (tag == INT16_PREFIX && n == 2) || (tag == INT32_PREFIX && n == 4)
    requires 2 * v < Pow256(n)
    ensures PString([tag] + LE(v, n) + t) == Got(NatText(v), t)
  {
    hide LE, UnLE, PLength, PIntText, NatText, PLzf;
    Assoc([tag], LE(v, n), t);
    SpecialPrefix(tag, LE(v, n) + t);
    IntTextRoundTrip(v, n, t);
  }

  lemma IntStringRoundTrip(v: nat, t: seq<byte>)
    requires v <= MAX_INT32
    ensures PString(EncIntString(v) + t) == Got(NatText(v), t)
  {
    Pow256Values();
    assert v <= 127 ==> [INT8_PREFIX, v] == [INT8_PREFIX] + LE(v, 1) by {
      assert LE(v, 1) == [v % 256] + LE(v / 256, 0);
    }
    hide LE, PString, NatText;
    if v <= 127 {
      TaggedIntRoundTrip(INT8_PREFIX, v, 1, t);
    } else if v <= 32767 {
      TaggedIntRoundTrip(INT16_PREFIX, v, 2, t);
    } else {
      TaggedIntRoundTrip(INT32_PREFIX, v, 4, t);
    }
  }

  lemma PlainRoundTrip(s: seq<byte>, t: seq<byte>)
    requires |s| < TWO_63
    ensures PString(EncPlain(s) + t) == Got(s, t)
  {
    hide PLength, EncLength, PIntText, PLzf;
    LengthRoundTrip(|s|, s + t);
    Assoc(EncLength(|s|), s, t);
    PBytesOf(s, t);
  }

  lemma LzfRoundTrip(s: seq<byte>, t: seq<byte>)
    requires 20 < |s| < TWO_32 && Lzf.Compressed(s).Ok?
    ensures |Lzf.Compressed(s).bytes| < |s|
    ensures var c := Lzf.Compressed(s).bytes;
            PLzf((EncLength(|c|) + (EncLength(|s|) + c)) + t) == Got(s, t)
  {
    hide PLength, EncLength, Lzf.Compressed, Lzf.Expand;
    Lzf.RoundTrip(s, |s|);
    var c := Lzf.Compressed(s).bytes;
    var s2 := c + t;
    var s1 := EncLength(|s|) + s2;
    assert (EncLength(|c|) + (EncLength(|s|) + c)) + t == EncLength(|c|) + s1;
    LengthRoundTrip(|c|, s1);
    LengthRoundTrip(|s|, s2);
    PBytesOf(c, t);
  }

  lemma NanStringRoundTrip(s: seq<byte>, compress: bool, t: seq<byte>)
    requires Writable(s, compress)
    ensures PString(EncNanString(s, compress) + t) == Got(s, t)
  {
    hide PLength, EncLength, PIntText, PLzf, Lzf.Compressed;
    if compress && |s| > 20 && Lzf.Compressed(s).Ok? {
      var c := Lzf.Compressed(s).bytes;
      LzfRoundTrip(s, t);
      var body := EncLength(|c|) + (EncLength(|s|) + c);
      assert ([LZF_PREFIX] + body) + t == [LZF_PREFIX] + (body + t);
      SpecialPrefix(LZF_PREFIX, body + t);
    } else {
      PlainRoundTrip(s, t);
    }
  }

  /** Reading a written string returns the same bytes and stops exactly at its end, whichever of the
      integer, compressed, fallback or plain forms was chosen. */
  lemma StringRoundTrip(s: seq<byte>, compress: bool, t: seq<byte>)
    requires Writable(s, compress)
    ensures PString(EncString(s, compress) + t) == Got(s, t)
  {
    hide PString, EncIntString, EncNanString;
    match EncodableInt(s, MAX_INT32)
    case Some(v) => IntStringRoundTrip(v, t);
    case None => NanStringRoundTrip(s, compress, t);
  }

  // ----- integers of either sign, which other writers store

  lemma SignedTextRead(v: int, n: nat, t: seq<byte>)
    requires -2 * v <= Pow256(n) && 2 * v < Pow256(n)
    ensures PIntText(LE(v, n) + t, n) == Got(IntText(v), t) && IsDecimal(IntText(v), v)
  {
    hide LE, UnLE, IntText, IsDecimal;
    PBytesOf(LE(v, n), t);
    SignedRoundTrip(v, n);
    IntTextDecimal(v);
  }

  /** A string stored as a signed integer of 8, 16 or 32 bits reads as its decimal text, and reading stops at
      its end. */
  lemma SignedStringRead(tag: byte, v: int, n: nat, t: seq<byte>)
    requires || (tag == 0xc0 && n == 1 && -0x80 <= v < 0x80)
             || (tag == 0xc1 && n == 2 && -0x8000 <= v < 0x8000)
             || (tag == 0xc2 && n == 4 && -0x8000_0000 <= v < 0x8000_0000)
    ensures PString([tag] + LE(v, n) + t) == Got(IntText(v), t) && IsDecimal(IntText(v), v)
  {
    hide LE, UnLE, PLength, PIntText, IntText, PLzf, IsDecimal, Pow256;
    Pow256Values();
    Assoc([tag], LE(v, n), t);
    SpecialPrefix(tag, LE(v, n) + t);
    SignedTextRead(v, n, t);
  }
}
