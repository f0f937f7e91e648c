/**
 Listpack entries as the stream writer encodes them and the decoder reads them. Each entry is followed
 by its own length in a form the reader only skips. Integers in three ranges do not read back, and an
 empty string is written as the integer 0; the lemmas say so exactly.
 */
module ListPack {
  import opened Bytes
  import opened Parsing
  import opened Hashes

  // ----- encodings

  /** An entry to be written: the string unless it is empty, else the integer. */
  datatype LpEntry = LpEntry(intVal: int, strVal: seq<byte>)

  datatype LpValue = Str(text: seq<byte>) | Num(value: int)

  /** Lengths, with the entry's header, fit in 32 bits. */
  predicate LpWritable(e: LpEntry)
  {
    IsInt64(e.intVal) && |e.strVal| + 5 < TWO_32
  }

  /** encodeListPackInt */
  function EncLpInt(v: int): (s: seq<byte>)
    requires IsInt64(v)
    ensures 1 <= |s| <= 9
  {
    if -127 <= v <= 127 then [v % 256]
    else if -8191 <= v <= 8191 then
      var u := if v < 0 then 8192 + v else v;
      [0xc0 + u / 256, u % 256]
    else if -32767 <= v <= 32767 then [0xf1] + LE(v, 2)
    else if -8388607 <= v <= 8388607 then [0xf2] + LE(v, 3)
    else if -2147483647 <= v <= 2147483647 then [0xf3] + LE(v, 4)
    else [0xf4] + LE(v, 8)
  }

  /** encodeListPackString */
  function EncLpString(text: seq<byte>): (s: seq<byte>)
    requires |text| + 5 < TWO_32
    ensures |text| < |s| <= |text| + 5
  {
    if |text| <= 63 then [0x80 + |text|] + text
    else if |text| < 4096 then [0xe0 + |text| / 256, |text| % 256] + text
    else [0xf0] + (LE(|text|, 4) + text)
  }

  function EncLp(e: LpEntry): (s: seq<byte>)
    requires LpWritable(e)
    ensures 1 <= |s| < TWO_32
  {
    if e.strVal != [] then EncLpString(e.strVal) else EncLpInt(e.intVal)
  }

  /** getBackLen: how many bytes the length of an entry takes. */
  function BackLen(n: nat): (k: nat)
    ensures 1 <= k <= 5
  {
    if n <= 127 then 1 else if n < 0x3fff then 2 else if n < 0x1f_ffff then 3 else if n < 0xfff_ffff then 4 else 5
  }

  /** encodeBacklen agrees with getBackLen on how many bytes there are. */
  function EncBacklen(n: nat): (s: seq<byte>)
    requires n < TWO_32
    ensures |s| == BackLen(n)
  {
    if n <= 127 then [n]
    else if n < 0x3fff then [0x80 + n / 256, n % 256]
    else if n < 0x1f_ffff then [0xc0 + n / TWO_16, n / 256 % 256, n % 256]
    else if n < 0xfff_ffff then [0xe0 + n / TWO_24, n / TWO_16 % 256, n / 256 % 256, n % 256]
    else [0xf0, n / TWO_24 % 256, n / TWO_16 % 256, n / 256 % 256, n % 256]
  }

  /** An entry followed by its length. */
  function Framed(e: LpEntry): (s: seq<byte>)
    requires LpWritable(e)
  {
    EncLp(e) + EncBacklen(|EncLp(e)|)
  }

  // ----- reading

  /** Skipping past the end is noticed by the next read only. */
  function Skip(s: seq<byte>, n: nat): (r: seq<byte>)
    ensures |r| <= |s|
  {
    if n <= |s| then s[n..] else []
  }

  function PLpBytes(s: seq<byte>, n: nat, headerLen: nat): (p: Parsed<LpValue>)
    ensures p.Got? ==> |p.rest| <= |s|
  {
    var (text, t) :- PBytes(s, n);
    Got(Str(text), Skip(t, BackLen((headerLen + n) % TWO_32)))
  }

  function PLpNum(s: seq<byte>, n: nat): (p: Parsed<LpValue>)
    ensures p.Got? ==> |p.rest| <= |s|
  {
    var (bs, t) :- PBytes(s, n);
    Got(Num(Signed(UnLE(bs), Pow256(n))), Skip(t, BackLen(1 + n)))
  }

  function Int13(u: nat): int
  {
    if u >= 4096 then u - 8192 else u
  }

  /** readListPackEntry */
  function PLp(s: seq<byte>): (p: Parsed<LpValue>)
    ensures p.Got? ==> |p.rest| < |s|
  {
    var (h, t) :- PByte(s);
    if h < 128 then Got(Num(h), Skip(t, BackLen(1)))
    else if h < 192 then PLpBytes(t, h - 128, 1)
    else if h < 224 then
      var (c, u) :- PByte(t);
      Got(Num(Int13((h as int - 192) * 256 + c)), Skip(u, BackLen(2)))
    else if h < 240 then
      var (c, u) :- PByte(t);
      PLpBytes(u, (h as int - 224) * 256 + c, 2)
    else if h == 240 then
      var (bs, u) :- PBytes(t, 4);
      PLpBytes(u, UnLE(bs), 5)
    else if h == 241 then PLpNum(t, 2)
    else if h == 242 then PLpNum(t, 3)
    else if h == 243 then PLpNum(t, 4)
    else if h == 244 then PLpNum(t, 8)
    else Bad
  }

  /** readListPackEntryAsInt */
  function PAsInt(s: seq<byte>): (p: Parsed<int>)
    ensures p.Got? ==> |p.rest| < |s|
  {
    var (v, t) :- PLp(s);
    match v
    case Num(n) => Got(n, t)
    case Str(_) => Bad
  }

  /** readListPackEntryAsString */
  function PAsString(s: seq<byte>): (p: Parsed<seq<byte>>)
    ensures p.Got? ==> |p.rest| < |s|
  {
    var (v, t) :- PLp(s);
    match v
    case Num(n) => Got(IntText(n), t)
    case Str(text) => Got(text, t)
  }

  // ----- integers

  /** The integers that read back. */
  predicate LpIntOk(v: int)
  {
    !(-127 <= v <= -1) && !(-8191 <= v <= -4097) && !(4096 <= v <= 8191)
  }

  lemma SkipBack(n: nat, t: seq<byte>)
    requires n < TWO_32
    ensures Skip(EncBacklen(n) + t, BackLen(n)) == t
  {
    hide EncBacklen, BackLen;
    assert (EncBacklen(n) + t)[BackLen(n)..] == t;
  }

  lemma NumRoundTrip(v: int, n: nat, t: seq<byte>)
    requires -2 * v < Pow256(n) && 2 * v < Pow256(n) && n < 100
    ensures PLpNum(LE(v, n) + (EncBacklen(1 + n) + t), n) == Got(Num(v), t)
  {
    hide EncBacklen, BackLen, Skip, LE, UnLE, Pow256;
    PBytesOf(LE(v, n), EncBacklen(1 + n) + t);
    SignedRoundTrip(v, n);
    SkipBack(1 + n, t);
  }

  lemma WideIntRoundTrip(v: int, t: seq<byte>)
    requires IsInt64(v) && !(-8191 <= v <= 8191) && v != -TWO_63
    ensures PLp(EncLpInt(v) + (EncBacklen(|EncLpInt(v)|) + t)) == Got(Num(v), t)
  {
    hide EncBacklen, BackLen, Skip, LE, UnLE, Pow256, PLpNum;
    Pow256Values();
    var s := EncLpInt(v);
    var n := |s| - 1;
    assert s == [s[0]] + LE(v, n);
    Assoc([s[0]], LE(v, n), EncBacklen(1 + n) + t);
    PByteOf(s[0], LE(v, n) + (EncBacklen(1 + n) + t));
    NumRoundTrip(v, n, t);
  }

  /** The least 64-bit integer has no opposite. */
  lemma LeastIntRoundTrip(t: seq<byte>)
    ensures PLp(EncLpInt(-TWO_63) + (EncBacklen(|EncLpInt(-TWO_63)|) + t)) == Got(Num(-TWO_63), t)
  {
    hide EncBacklen, BackLen, Skip, LE, UnLE, Pow256;
    Pow256Values();
    var bs := LE(-TWO_63, 8);
    Assoc([0xf4], bs, EncBacklen(9) + t);
    PByteOf(0xf4, bs + (EncBacklen(9) + t));
    PBytesOf(bs, EncBacklen(9) + t);
    SignedRoundTrip(-TWO_63, 8);
    SkipBack(9, t);
  }

  lemma SmallIntDecode(v: int, t: seq<byte>)
    requires -8191 <= v <= 8191 && !(-127 <= v <= -1)
    ensures PLp(EncLpInt(v) + (EncBacklen(|EncLpInt(v)|) + t)) ==
            Got(Num(if -127 <= v <= 127 then v else Int13(if v < 0 then 8192 + v else v)), t)
  {
    hide EncBacklen, BackLen, Skip;
    var s := EncLpInt(v);
    var rest := EncBacklen(|s|) + t;
    SkipBack(|s|, t);
    assert (s + rest)[0] == s[0];
    if -127 <= v <= 127 {
      assert (s + rest)[1..] == rest;
    } else {
      assert (s + rest)[1..][0] == s[1] && (s + rest)[1..][1..] == rest;
    }
  }

  /** The length of a one-byte entry is the byte 1, so whatever a negative byte is taken for, the lowest
      byte of what is read is 1 and not the byte written. */
  lemma NegativeByteLost(v: int, t: seq<byte>)
    requires -127 <= v <= -1
    ensures var p := PLp(EncLpInt(v) + (EncBacklen(|EncLpInt(v)|) + t));
            p.Got? ==> p.value != Num(v)
  {
    hide PBytes;
    var s := EncLpInt(v) + (EncBacklen(1) + t);
    assert EncLpInt(v) == [256 + v] && s[0] == 256 + v && s[1..] == [1] + t;
    var p := PLp(s);
    if p.Got? && p.value.Num? {
      LowestByte(256 + v, s[1..], v);
    }
  }

  lemma LowestByte(h: byte, t: seq<byte>, v: int)
    requires 129 <= h && v == h - 256 && t != [] && t[0] == 1
    ensures PLp([h] + t).Got? ==> PLp([h] + t).value != Num(v)
  {
    hide Skip, BackLen;
    assert ([h] + t)[1..] == t;
    if 192 <= h < 224 {
    } else if h == 241 {
      LowestOf(t, 2, v);
    } else if h == 242 {
      LowestOf(t, 3, v);
    } else if h == 243 {
      LowestOf(t, 4, v);
    } else if h == 244 {
      LowestOf(t, 8, v);
    }
  }

  lemma LowestOf(t: seq<byte>, n: nat, v: int)
    requires n in {2, 3, 4, 8} && t != [] && t[0] == 1 && -127 <= v <= -1 && v % 256 != 1
    ensures PLpNum(t, n).Got? ==> PLpNum(t, n).value != Num(v)
  {
    hide Skip, BackLen, Pow256;
    Pow256Values();
    if n <= |t| {
      var bs := t[..n];
      assert bs[0] == 1;
      assert UnLE(bs) == 1 + 256 * UnLE(bs[1..]);
      UnLEBound(bs);
    }
  }

  /** An integer entry reads back as itself exactly outside the three ranges; counts in the third range
      come back 8192 less. */
  lemma IntRoundTripIff(v: int, t: seq<byte>)
    requires IsInt64(v)
    ensures var p := PAsInt(Framed(LpEntry(v, [])) + t);
            && (LpIntOk(v) ==> p == Got(v, t))
            && (!LpIntOk(v) ==> p.Got? ==> p.value != v)
            && (4096 <= v <= 8191 ==> p == Got(v - 8192, t))
  {
    hide EncBacklen, BackLen, Skip, LE, UnLE, Pow256, PLp;
    var s := EncLpInt(v);
    Assoc(s, EncBacklen(|s|), t);
    if -127 <= v <= -1 {
      NegativeByteLost(v, t);
    } else if -8191 <= v <= 8191 {
      SmallIntDecode(v, t);
    } else if v == -TWO_63 {
      LeastIntRoundTrip(t);
    } else {
      WideIntRoundTrip(v, t);
    }
  }

  /** One integer of each lost range: -1 does not come back, -5000 and 4096 come back as other numbers. */
  lemma LostInts(t: seq<byte>)
    ensures PAsInt(Framed(LpEntry(-1, [])) + t) != Got(-1, t)
    ensures PAsInt(Framed(LpEntry(-5000, [])) + t) == Got(3192, t)
    ensures PAsInt(Framed(LpEntry(4096, [])) + t) == Got(-4096, t)
  {
    hide PLp, Skip, BackLen;
    IntRoundTripIff(-1, t);
    IntRoundTripIff(4096, t);
    Assoc(EncLpInt(-5000), EncBacklen(2), t);
    SmallIntDecode(-5000, t);
  }

  lemma IntIs64(s: seq<byte>)
    ensures PAsInt(s).Got? ==> IsInt64(PAsInt(s).value)
  {
    hide Skip, BackLen, UnLE, PLpNum;
    if s != [] {
      NumIs64(s[1..], 2);
      NumIs64(s[1..], 3);
      NumIs64(s[1..], 4);
      NumIs64(s[1..], 8);
    }
  }

  lemma NumIs64(t: seq<byte>, n: nat)
    requires n in {2, 3, 4, 8}
    ensures PLpNum(t, n).Got? ==> PLpNum(t, n).value.Num? && IsInt64(PLpNum(t, n).value.value)
  {
    hide Skip, BackLen, UnLE;
    Pow256Values();
    if n <= |t| {
      UnLEBound(t[..n]);
    }
  }

  // ----- strings

  /** What a string entry reads as. */
  function Shown(text: seq<byte>): seq<byte>
  {
    if text == [] then [48] else text
  }

  lemma BytesRoundTrip(text: seq<byte>, headerLen: nat, t: seq<byte>)
    requires headerLen + |text| < TWO_32
    ensures PLpBytes(text + (EncBacklen(headerLen + |text|) + t), |text|, headerLen) == Got(Str(text), t)
  {
    hide EncBacklen, BackLen, Skip;
    PBytesOf(text, EncBacklen(headerLen + |text|) + t);
    SkipBack(headerLen + |text|, t);
  }

  lemma LpStringRoundTrip(text: seq<byte>, t: seq<byte>)
    requires |text| + 5 < TWO_32
    ensures PLp(EncLpString(text) + (EncBacklen(|EncLpString(text)|) + t)) == Got(Str(text), t)
  {
    hide EncBacklen, BackLen, Skip, LE, UnLE, PLpBytes, Pow256, PByte;
    var n := |text|;
    var rest := EncBacklen(|EncLpString(text)|) + t;
    if n <= 63 {
      Assoc([0x80 + n], text, rest);
      PByteOf(0x80 + n, text + rest);
      BytesRoundTrip(text, 1, t);
    } else if n < 4096 {
      MediumStringRoundTrip(text, t);
    } else {
      LongStringRoundTrip(text, t);
    }
  }

  lemma MediumStringRoundTrip(text: seq<byte>, t: seq<byte>)
    requires 63 < |text| < 4096
    ensures PLp(EncLpString(text) + (EncBacklen(|EncLpString(text)|) + t)) == Got(Str(text), t)
  {
    hide EncBacklen, BackLen, Skip, LE, UnLE, PLpBytes, Pow256, PByte;
    var n := |text|;
    var (h, c) := (0xe0 + n / 256, n % 256);
    var body := text + (EncBacklen(2 + n) + t);
    TwoBytes(h, c, text, EncBacklen(2 + n) + t);
    assert EncLpString(text) + (EncBacklen(|EncLpString(text)|) + t) == [h] + ([c] + body);
    PByteOf(h, [c] + body);
    PByteOf(c, body);
    BytesRoundTrip(text, 2, t);
  }

  lemma TwoBytes(h: byte, c: byte, text: seq<byte>, rest: seq<byte>)
    ensures ([h, c] + text) + rest == [h] + ([c] + (text + rest))
  {
  }

  lemma LongStringRoundTrip(text: seq<byte>, t: seq<byte>)
    requires 4096 <= |text| && |text| + 5 < TWO_32
    ensures PLp(EncLpString(text) + (EncBacklen(|EncLpString(text)|) + t)) == Got(Str(text), t)
  {
    hide EncBacklen, BackLen, Skip, LE, UnLE, PLpBytes, Pow256;
    var n := |text|;
    var rest := EncBacklen(|EncLpString(text)|) + t;
    BytesRoundTrip(text, 5, t);
    Pow256Values();
    UnsignedRoundTrip(n, 4);
    Assoc3([0xf0], LE(n, 4), text, rest);
    PByteOf(0xf0, LE(n, 4) + (text + rest));
    PBytesOf(LE(n, 4), text + rest);
  }

  /** A string entry reads back as itself unless it is empty: then it reads as "0". */
  lemma StringRoundTrip(text: seq<byte>, t: seq<byte>)
    requires |text| + 5 < TWO_32
    ensures PAsString(Framed(LpEntry(0, text)) + t) == Got(Shown(text), t)
  {
    hide EncBacklen, BackLen, Skip, LE, UnLE, PLp;
    if text == [] {
      Assoc(EncLpInt(0), EncBacklen(1), t);
      SmallIntDecode(0, t);
    } else {
      Assoc(EncLpString(text), EncBacklen(|EncLpString(text)|), t);
      LpStringRoundTrip(text, t);
    }
  }

  // ----- whole packs

  predicate AllLpWritable(entries: seq<LpEntry>)
  {
    forall i :: 0 <= i < |entries| ==> LpWritable(entries[i])
  }

  /** The entries in order, each followed by its length. */
  function Frames(entries: seq<LpEntry>): seq<byte>
    requires AllLpWritable(entries)
  {
    if entries == [] then [] else Framed(entries[0]) + Frames(entries[1..])
  }

  lemma {:induction false} FramesConcat(a: seq<LpEntry>, b: seq<LpEntry>)
    requires AllLpWritable(a) && AllLpWritable(b)
    ensures Frames(a + b) == Frames(a) + Frames(b)
  {
    hide Framed, LpWritable;
    if a == [] {
      assert a + b == b;
    } else {
      assert (a + b)[1..] == a[1..] + b;
      FramesConcat(a[1..], b);
      Assoc(Framed(a[0]), Frames(a[1..]), Frames(b));
    }
  }

  /** The finished listpack: total bytes, 16-bit count, entries; there is no end byte. */
  function EncPack(entries: seq<LpEntry>): (s: seq<byte>)
    requires AllLpWritable(entries)
    ensures |s| == 6 + |Frames(entries)| && s[6..] == Frames(entries)
  {
    LE(6 + |Frames(entries)|, 4) + LE(|entries|, 2) + Frames(entries)
  }

  /** The header holds the size of the whole pack, and the number of entries in 16 bits. */
  lemma PackHeader(entries: seq<LpEntry>)
    requires AllLpWritable(entries) && |EncPack(entries)| < TWO_32
    ensures UnLE(EncPack(entries)[..4]) == |EncPack(entries)|
    ensures UnLE(EncPack(entries)[4..6]) == |entries| % TWO_16
  {
    hide Frames, LpWritable;
    Pow256Values();
    var (s, n) := (EncPack(entries), |EncPack(entries)|);
    assert s[..4] == LE(n, 4) && s[4..6] == LE(|entries|, 2);
    hide LE, UnLE, Pow256;
    UnsignedRoundTrip(n, 4);
    var q := LEResidue(|entries|, 2);
    QuotientZero(|entries| % TWO_16, UnLE(LE(|entries|, 2)), |entries| / TWO_16 - q, TWO_16);
  }

  /** The encodings without lengths, as the first pass lays them out. */
  function Plain(entries: seq<LpEntry>): seq<byte>
    requires AllLpWritable(entries)
  {
    if entries == [] then [] else Plain(entries[..|entries| - 1]) + EncLp(entries[|entries| - 1])
  }

  lemma PlainStep(entries: seq<LpEntry>, i: nat)
    requires AllLpWritable(entries) && i < |entries|
    ensures Plain(entries[..i + 1]) == Plain(entries[..i]) + EncLp(entries[i])
  {
    hide EncLp, LpWritable;
    assert entries[..i + 1][..i] == entries[..i];
  }

  lemma FramesStep(entries: seq<LpEntry>, i: nat)
    requires AllLpWritable(entries) && i < |entries|
    ensures Frames(entries[i..]) == EncLp(entries[i]) + (EncBacklen(|EncLp(entries[i])|) + Frames(entries[i + 1..]))
  {
    hide EncLp, EncBacklen, LpWritable;
    assert entries[i..][1..] == entries[i + 1..];
    Assoc(EncLp(entries[i]), EncBacklen(|EncLp(entries[i])|), Frames(entries[i + 1..]));
  }

  /** The first pass of buildListpackWithBacklen. */
  method EncodeEntries(entries: seq<LpEntry>) returns (listpackData: seq<byte>, entrySizes: seq<nat>)
    requires AllLpWritable(entries)
    ensures listpackData == Plain(entries)
    ensures |entrySizes| == |entries| && forall i :: 0 <= i < |entries| ==> entrySizes[i] == |EncLp(entries[i])|
  {
    hide EncLp, LpWritable, Plain;
    listpackData, entrySizes := [], [];
    PlainNone(entries);
    for i := 0 to |entries|
      invariant listpackData == Plain(entries[..i])
      invariant |entrySizes| == i && forall j :: 0 <= j < i ==> entrySizes[j] == |EncLp(entries[j])|
    {
      PlainStep(entries, i);
      var encoded := EncLp(entries[i]);
      listpackData := listpackData + encoded;
      entrySizes := entrySizes + [|encoded|];
    }
    assert entries[..|entries|] == entries;
  }

  lemma PlainNone(entries: seq<LpEntry>)
    ensures Plain(entries[..0]) == []
  {
  }

  method StartOf(entries: seq<LpEntry>, entrySizes: seq<nat>, i: nat) returns (start: nat)
    requires AllLpWritable(entries) && i <= |entries| == |entrySizes|
    requires forall j :: 0 <= j < |entries| ==> entrySizes[j] == |EncLp(entries[j])|
    ensures start == |Plain(entries[..i])|
  {
    hide EncLp, LpWritable, Plain;
    start := 0;
    PlainNone(entries);
    for j := 0 to i
      invariant start == |Plain(entries[..j])|
    {
      PlainStep(entries, j);
      start := start + entrySizes[j];
    }
  }

  /** buildListpackWithBacklen. The second pass runs backwards and appends to a slice of the first
      pass's array, which overwrites that array behind the slice whenever its capacity allows; spare is
      the capacity left over. The entries still to come lie before the slice. */
  method BuildListpackWithBacklen(entries: seq<LpEntry>, spare: nat) returns (r: seq<byte>)
    requires AllLpWritable(entries)
    ensures r == EncPack(entries)
  {
    hide EncLp, EncBacklen, LpWritable, Plain, Frames;
    var encoded, entrySizes := EncodeEntries(entries);
    var data := Backing(encoded, spare);
    assert entries[..|entries|] == entries;
    var finalListpack: seq<byte> := [];
    FramesNone(entries);
    for i := |entries| downto 0
      invariant |Plain(entries[..i])| <= data.Length && data[..|Plain(entries[..i])|] == Plain(entries[..i])
      invariant finalListpack == Frames(entries[i..])
    {
      PlainStep(entries, i);
      FramesStep(entries, i);
      var backlen := EncBacklen(entrySizes[i]);
      var entryStart := StartOf(entries, entrySizes, i);
      var entryEnd := entryStart + entrySizes[i];
      finalListpack := AppendTo(data, entryStart, entryEnd, backlen + finalListpack, EncLp(entries[i]));
    }
    assert entries[0..] == entries;
    r := LE(|finalListpack| + 6, 4) + LE(|entries|, 2) + finalListpack;
  }

  /** The array behind a slice of the given bytes. */
  method Backing(encoded: seq<byte>, spare: nat) returns (data: array<byte>)
    ensures fresh(data) && data.Length == |encoded| + spare && data[..|encoded|] == encoded
  {
    data := new byte[|encoded| + spare](_ => 0);
    forall k | 0 <= k < |encoded| {
      data[k] := encoded[k];
    }
  }

  lemma FramesNone(entries: seq<LpEntry>)
    ensures Frames(entries[|entries|..]) == []
  {
  }

  /** append(data[lo:hi], tail...): in place when it fits. */
  method AppendTo(data: array<byte>, lo: nat, hi: nat, tail: seq<byte>, ghost entry: seq<byte>) returns (r: seq<byte>)
    requires lo <= hi <= data.Length && data[..hi] == data[..lo] + entry
    modifies data
    ensures data[..lo] == old(data[..lo]) && r == entry + tail
  {
    assert data[lo..hi] == entry by {
      assert data[..hi][lo..] == data[lo..hi];
    }
    if hi + |tail| <= data.Length {
      forall k | 0 <= k < |tail| {
        data[hi + k] := tail[k];
      }
      r := data[lo..hi + |tail|];
      assert r[..hi - lo] == entry && r[hi - lo..] == tail;
    } else {
      r := data[lo..hi] + tail;
    }
  }

  // ----- entries as they are read, whoever wrote them

  /** A 7-bit, a 13-bit, and 16-, 24-, 32- and 64-bit integers of either sign read as themselves, as numbers and as
      decimal text, and reading stops behind the one length byte that follows. */
  lemma SignedLpRead(head: seq<byte>, v: int, back: byte, t: seq<byte>)
    requires || (head == [v % 256] && 0 <= v < 0x80)
             || (head == [0xc0 + v % 8192 / 256, v % 256] && -0x1000 <= v < 0x1000)
             || (head == [0xf1] + LE(v, 2) && -0x8000 <= v < 0x8000)
             || (head == [0xf2] + LE(v, 3) && -0x80_0000 <= v < 0x80_0000)
             || (head == [0xf3] + LE(v, 4) && -0x8000_0000 <= v < 0x8000_0000)
             || (head == [0xf4] + LE(v, 8) && -0x8000_0000_0000_0000 <= v < 0x8000_0000_0000_0000)
    ensures PAsInt(head + ([back] + t)) == Got(v, t)
    ensures PAsString(head + ([back] + t)) == Got(IntText(v), t) && IsDecimal(IntText(v), v)
  {
    hide LE, UnLE, IntText, IsDecimal, PLp;
    IntTextDecimal(v);
    if |head| == 1 {
      ByteRead(v, back, t);
    } else if |head| == 2 {
      Int13Read(v, back, t);
    } else {
      TaggedRead(head[0], v, |head| - 1, back, t);
    }
  }

  lemma ByteRead(v: nat, back: byte, t: seq<byte>)
    requires v < 0x80
    ensures PLp([v] + ([back] + t)) == Got(Num(v), t)
  {
    PByteOf(v, [back] + t);
    PByteOf(back, t);
  }

  lemma Int13Read(v: int, back: byte, t: seq<byte>)
    requires -0x1000 <= v < 0x1000
    ensures PLp([0xc0 + v % 8192 / 256, v % 256] + ([back] + t)) == Got(Num(v), t)
  {
    var hi, lo := 0xc0 + v % 8192 / 256, v % 256;
    assert [hi, lo] + ([back] + t) == [hi] + ([lo] + ([back] + t));
    PByteOf(hi, [lo] + ([back] + t));
    PByteOf(lo, [back] + t);
    PByteOf(back, t);
    assert (hi - 192) * 256 + lo == v % 8192;
  }

  lemma TaggedRead(tag: byte, v: int, n: nat, back: byte, t: seq<byte>)
    requires || (tag == 0xf1 && n == 2 && -0x8000 <= v < 0x8000)
             || (tag == 0xf2 && n == 3 && -0x80_0000 <= v < 0x80_0000)
             || (tag == 0xf3 && n == 4 && -0x8000_0000 <= v < 0x8000_0000)
             || (tag == 0xf4 && n == 8 && -0x8000_0000_0000_0000 <= v < 0x8000_0000_0000_0000)
    ensures PLp([tag] + LE(v, n) + ([back] + t)) == Got(Num(v), t)
  {
    hide LE, UnLE, Pow256, PBytes;
    Pow256Values();
    Assoc([tag], LE(v, n), [back] + t);
    PByteOf(tag, LE(v, n) + ([back] + t));
    PBytesOf(LE(v, n), [back] + t);
    SignedRoundTrip(v, n);
    PByteOf(back, t);
  }

  lemma AsText(s: seq<byte>, text: seq<byte>, t: seq<byte>)
    requires PLp(s) == Got(Str(text), t)
    ensures PAsString(s) == Got(text, t) && PAsInt(s) == Bad
  {
  }

  lemma TextHeader6(n: nat, s: seq<byte>)
    requires n < 0x40
    ensures PLp([0x80 + n] + s) == PLpBytes(s, n, 1)
  {
    hide PLpBytes, PBytes;
    PByteOf(0x80 + n, s);
  }

  lemma TextHeader12(n: nat, s: seq<byte>)
    requires n < 0x1000
    ensures PLp([0xe0 + n / 256, n % 256] + s) == PLpBytes(s, n, 2)
  {
    hide PLpBytes, PBytes;
    var hi, lo := 0xe0 + n / 256, n % 256;
    assert [hi, lo] + s == [hi] + ([lo] + s);
    PByteOf(hi, [lo] + s);
    PByteOf(lo, s);
  }

  lemma TextHeader32(n: nat, s: seq<byte>)
    requires n < 0x1_0000_0000
    ensures PLp([0xf0] + LE(n, 4) + s) == PLpBytes(s, n, 5)
  {
    hide LE, UnLE, PLpBytes, PBytes, Pow256;
    Pow256Values();
    Assoc([0xf0], LE(n, 4), s);
    PByteOf(0xf0, LE(n, 4) + s);
    PBytesOf(LE(n, 4), s);
    UnsignedRoundTrip(n, 4);
  }

  lemma BodyRead(text: seq<byte>, headerLen: nat, back: seq<byte>, t: seq<byte>)
    requires headerLen + |text| < 0x1_0000_0000
    requires var n := headerLen + |text|;
             |back| == if n < 0x80 then 1 else if n < 0x3fff then 2 else if n < 0x1f_ffff then 3
                       else if n < 0xfff_ffff then 4 else 5
    ensures PLpBytes(text + (back + t), |text|, headerLen) == Got(Str(text), t)
  {
    PBytesOf(text, back + t);
    hide PBytes;
    assert (back + t)[|back|..] == t;
  }

  /** A string with a 6-bit length reads as itself, and reading stops behind one byte that holds its length. */
  lemma ShortLpRead(text: seq<byte>, back: byte, t: seq<byte>)
    requires |text| < 0x40
    ensures PAsString([0x80 + |text|] + (text + ([back] + t))) == Got(text, t)
    ensures PAsInt([0x80 + |text|] + (text + ([back] + t))) == Bad
  {
    hide *;
    BodyRead(text, 1, [back], t);
    TextHeader6(|text|, text + ([back] + t));
    AsText([0x80 + |text|] + (text + ([back] + t)), text, t);
  }

  /** A string with a 12-bit length: one or two such bytes. */
  lemma MiddleLpRead(text: seq<byte>, back: seq<byte>, t: seq<byte>)
    requires |text| < 0x1000 && |back| == if 2 + |text| < 0x80 then 1 else 2
    ensures PAsString([0xe0 + |text| / 256, |text| % 256] + (text + (back + t))) == Got(text, t)
    ensures PAsInt([0xe0 + |text| / 256, |text| % 256] + (text + (back + t))) == Bad
  {
    hide *;
    BodyRead(text, 2, back, t);
    TextHeader12(|text|, text + (back + t));
    AsText([0xe0 + |text| / 256, |text| % 256] + (text + (back + t)), text, t);
  }

  /** A string with a 32-bit length, low byte first: up to five, seven bits to a byte. */
  lemma LongLpRead(text: seq<byte>, back: seq<byte>, t: seq<byte>)
    requires |text| + 5 < 0x1_0000_0000
    requires var n := 5 + |text|;
             |back| == if n < 0x80 then 1 else if n < 0x3fff then 2 else if n < 0x1f_ffff then 3
                       else if n < 0xfff_ffff then 4 else 5
    ensures PAsString([0xf0] + LE(|text|, 4) + (text + (back + t))) == Got(text, t)
    ensures PAsInt([0xf0] + LE(|text|, 4) + (text + (back + t))) == Bad
  {
    hide *;
    BodyRead(text, 5, back, t);
    TextHeader32(|text|, text + (back + t));
    AsText([0xf0] + LE(|text|, 4) + (text + (back + t)), text, t);
  }
}
