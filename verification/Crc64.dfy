/**
 CRC-64 in the Jones flavour. The reference is the bitwise definition: eight shift/xor rounds per
 byte. The code uses a 256-entry table per byte and, on long inputs, eight derived tables that take
 eight bytes at once; both are proved equal to the reference, for every polynomial.

 The proofs are linear algebra over xor. The bit-level facts are isolated in a few small lemmas, and
 everything above them hides the bit operations behind the functions Xor, Half, Odd, Low and Rest.
 */
module Crc64 {
  import opened Bytes

  type Word = bv64

  // ----- bit operations

  function Xor(a: Word, b: Word): Word { a ^ b }

  predicate Odd(c: Word) { c & 1 == 1 }

  function Half(c: Word): Word { c >> 1 }

  function Low(c: Word): Word { c & 0xff }

  function Rest(c: Word): Word { c >> 8 }

  function ToWord(b: byte): Word { (b as bv8) as Word }

  lemma XorAssoc(x: Word, y: Word, z: Word)
    ensures Xor(Xor(x, y), z) == Xor(x, Xor(y, z))
  {
  }

  lemma XorComm(x: Word, y: Word)
    ensures Xor(x, y) == Xor(y, x)
  {
  }

  lemma XorCancel(x: Word, y: Word, z: Word)
    ensures Xor(Xor(x, z), Xor(y, z)) == Xor(x, y)
  {
    XorZero(z);
    XorZero(x);
    hide Xor;
    XorComm(y, z);
    XorAssoc(x, z, Xor(z, y));
    XorAssoc(z, z, y);
    XorComm(0, y);
    XorZero(y);
  }

  lemma XorZero(x: Word)
    ensures Xor(x, x) == 0 && Xor(x, 0) == x
  {
  }

  lemma HalfXor(a: Word, b: Word)
    ensures Half(Xor(a, b)) == Xor(Half(a), Half(b))
    ensures Odd(Xor(a, b)) <==> Odd(a) != Odd(b)
  {
    assert (a ^ b) & 1 == (a & 1) ^ (b & 1);
    assert a & 1 == 0 || a & 1 == 1;
    assert b & 1 == 0 || b & 1 == 1;
  }

  lemma RestXor(a: Word, b: Word)
    ensures Rest(Xor(a, b)) == Xor(Rest(a), Rest(b))
    ensures Low(Xor(a, b)) == Xor(Low(a), Low(b))
  {
  }

  /** A word is its low byte xor the rest, whose own low byte is clear. */
  lemma SplitWord(c: Word) returns (high: Word)
    ensures Xor(Low(c), high) == c && Low(high) == 0 && Rest(high) == Rest(c)
  {
    high := (c >> 8) << 8;
  }

  /** Clear low bits: the first eight halvings meet no odd word and amount to one byte shift. */
  lemma EightHalvings(c: Word)
    requires Low(c) == 0
    ensures var c1 := Half(c); var c2 := Half(c1); var c3 := Half(c2); var c4 := Half(c3);
            var c5 := Half(c4); var c6 := Half(c5); var c7 := Half(c6);
            && !Odd(c) && !Odd(c1) && !Odd(c2) && !Odd(c3) && !Odd(c4) && !Odd(c5) && !Odd(c6) && !Odd(c7)
            && Half(c7) == Rest(c)
  {
  }

  // ----- the reference

  function Round(c: Word, poly: Word): Word
  {
    if Odd(c) then Xor(Half(c), poly) else Half(c)
  }

  function Rounds(c: Word, poly: Word, n: nat): Word
    decreases n
  {
    if n == 0 then c else Rounds(Round(c, poly), poly, n - 1)
  }

  /** Advances the register by one byte position. */
  function Shift8(c: Word, poly: Word): Word
  {
    Rounds(c, poly, 8)
  }

  function ByteStep(crc: Word, b: byte, poly: Word): Word
  {
    Shift8(Xor(crc, ToWord(b)), poly)
  }

  /** The checksum of p continued from crc. */
  function Fold(crc: Word, p: seq<byte>, poly: Word): Word
    decreases |p|
  {
    if p == [] then crc else Fold(ByteStep(crc, p[0], poly), p[1..], poly)
  }

  lemma {:induction false} FoldConcat(crc: Word, a: seq<byte>, b: seq<byte>, poly: Word)
    ensures Fold(crc, a + b, poly) == Fold(Fold(crc, a, poly), b, poly)
    decreases |a|
  {
    hide ByteStep;
    if a == [] {
      assert a + b == b;
    } else {
      assert (a + b)[1..] == a[1..] + b;
      FoldConcat(ByteStep(crc, a[0], poly), a[1..], b, poly);
    }
  }

  // ----- linearity over xor

  lemma RoundLinear(a: Word, b: Word, poly: Word)
    ensures Round(Xor(a, b), poly) == Xor(Round(a, poly), Round(b, poly))
  {
    hide Xor, Odd, Half;
    HalfXor(a, b);
    XorCancel(Half(a), Half(b), poly);
    XorAssoc(Half(a), Half(b), poly);
    XorAssoc(Half(a), poly, Half(b));
    XorComm(poly, Half(b));
  }

  lemma {:induction false} RoundsLinear(a: Word, b: Word, poly: Word, n: nat)
    ensures Rounds(Xor(a, b), poly, n) == Xor(Rounds(a, poly, n), Rounds(b, poly, n))
    decreases n
  {
    hide Xor, Round;
    if n > 0 {
      RoundLinear(a, b, poly);
      RoundsLinear(Round(a, poly), Round(b, poly), poly, n - 1);
    }
  }

  lemma EvenRounds(c: Word, poly: Word, n: nat)
    requires !Odd(c)
    ensures Rounds(c, poly, n + 1) == Rounds(Half(c), poly, n)
    ensures Rounds(c, poly, 0) == c
  {
    hide Xor, Odd, Half;
  }

  /** A register whose low byte is clear just shifts. */
  lemma HighBytesShift(c: Word, poly: Word)
    requires Low(c) == 0
    ensures Shift8(c, poly) == Rest(c)
  {
    EightHalvings(c);
    hide Rounds, Half, Odd, Low, Rest;
    var c1 := Half(c);
    var c2 := Half(c1);
    var c3 := Half(c2);
    var c4 := Half(c3);
    var c5 := Half(c4);
    var c6 := Half(c5);
    var c7 := Half(c6);
    EvenRounds(c, poly, 7);
    EvenRounds(c1, poly, 6);
    EvenRounds(c2, poly, 5);
    EvenRounds(c3, poly, 4);
    EvenRounds(c4, poly, 3);
    EvenRounds(c5, poly, 2);
    EvenRounds(c6, poly, 1);
    EvenRounds(c7, poly, 0);
    NoRounds(Half(c7), poly);
  }

  lemma NoRounds(c: Word, poly: Word)
    ensures Rounds(c, poly, 0) == c
  {
  }

  /** The table identity: only the low byte needs the polynomial. */
  lemma SplitLowByte(c: Word, poly: Word)
    ensures Shift8(c, poly) == Xor(Shift8(Low(c), poly), Rest(c))
  {
    hide Rounds, Xor, Low, Rest;
    var high := SplitWord(c);
    RoundsLinear(Low(c), high, poly, 8);
    HighBytesShift(high, poly);
  }

  /** n byte positions. */
  function Shifts(c: Word, poly: Word, n: nat): Word
    decreases n
  {
    if n == 0 then c else Shifts(Shift8(c, poly), poly, n - 1)
  }

  lemma {:induction false} ShiftsLinear(a: Word, b: Word, poly: Word, n: nat)
    ensures Shifts(Xor(a, b), poly, n) == Xor(Shifts(a, poly, n), Shifts(b, poly, n))
    decreases n
  {
    hide Rounds, Xor;
    if n > 0 {
      RoundsLinear(a, b, poly, 8);
      ShiftsLinear(Shift8(a, poly), Shift8(b, poly), poly, n - 1);
    }
  }

  lemma SplitShifts(x: Word, poly: Word, n: nat)
    ensures Shifts(x, poly, n + 1) == Xor(Shifts(Low(x), poly, n + 1), Shifts(Rest(x), poly, n))
  {
    hide Shift8, Xor, Low, Rest;
    SplitLowByte(x, poly);
    ShiftsLinear(Shift8(Low(x), poly), Rest(x), poly, n);
  }

  // ----- the one-byte table

  /** byte(crc) ^ v */
  function TableIndex(crc: Word, v: byte): byte
  {
    (((crc & 0xff) as bv8) ^ (v as bv8)) as int
  }

  ghost predicate IsTable(t: seq<Word>, poly: Word)
  {
    |t| == 256 && forall i: byte :: t[i] == Shift8(ToWord(i), poly)
  }

  lemma TableIndexWord(crc: Word, v: byte)
    ensures ToWord(TableIndex(crc, v)) == Low(Xor(crc, ToWord(v)))
    ensures Rest(Xor(crc, ToWord(v))) == Rest(crc)
  {
  }

  /** byte(c) */
  function LowByte(c: Word): byte
  {
    TableIndex(c, 0)
  }

  lemma LowByteWord(c: Word)
    ensures ToWord(LowByte(c)) == Low(c)
  {
    TableIndexWord(c, 0);
    assert ToWord(0) == 0;
    XorZero(c);
    hide ToWord, Xor, Low, TableIndex;
  }

  lemma TableStep(t: seq<Word>, crc: Word, v: byte, poly: Word)
    requires IsTable(t, poly)
    ensures Xor(t[TableIndex(crc, v)], Rest(crc)) == ByteStep(crc, v, poly)
  {
    hide Shift8, Xor, Rest, Low, TableIndex, ToWord;
    TableIndexWord(crc, v);
    SplitLowByte(Xor(crc, ToWord(v)), poly);
  }

  /** crc64.MakeTable: eight rounds per index. */
  method MakeTable(poly: Word) returns (t: array<Word>)
    ensures fresh(t) && IsTable(t[..], poly)
  {
    hide Shift8, ToWord;
    t := new Word[256](_ => 0);
    for i := 0 to 256
      invariant forall k :: 0 <= k < i ==> t[k] == Shift8(ToWord(k), poly)
    {
      var crc := OneEntry(i, poly);
      t[i] := crc;
    }
  }

  method OneEntry(i: byte, poly: Word) returns (crc: Word)
    ensures crc == Shift8(ToWord(i), poly)
  {
    hide Round, Xor, Half, Odd, ToWord;
    crc := ToWord(i);
    for j := 0 to 8
      invariant Rounds(crc, poly, 8 - j) == Shift8(ToWord(i), poly)
    {
      ghost var before := crc;
      crc := if Odd(crc) then Xor(Half(crc), poly) else Half(crc);
      RoundIs(before, poly);
    }
  }

  lemma RoundIs(c: Word, poly: Word)
    ensures Round(c, poly) == if Odd(c) then Xor(Half(c), poly) else Half(c)
  {
  }

  // ----- slicing by eight

  ghost predicate IsSliced(h: array2<Word>, poly: Word)
    reads h
  {
    && h.Length0 == 8 && h.Length1 == 256
    && forall j, i :: 0 <= j < 8 && 0 <= i < 256 ==> h[j, i] == Shifts(ToWord(i), poly, j + 1)
  }

  /** The inner loop: the i-th entry of tables 1..7 from the one-byte table. */
  method FillColumn(t: array<Word>, h: array2<Word>, i: byte, ghost poly: Word)
    requires IsTable(t[..], poly) && h.Length0 == 8 && h.Length1 == 256
    requires h[0, i] == t[i] && t[i] == Shifts(ToWord(i), poly, 1)
    modifies h
    ensures forall j :: 0 <= j < 8 ==> h[j, i] == Shifts(ToWord(i), poly, j + 1)
    ensures forall j, k :: 0 <= j < 8 && 0 <= k < 256 && (k != i || j == 0) ==> h[j, k] == old(h[j, k])
  {
    hide Shift8, ToWord, Xor, Rest, LowByte, Shifts;
    var crc := t[i];
    for j := 1 to 8
      invariant crc == Shifts(ToWord(i), poly, j)
      invariant forall j' :: 0 <= j' < j ==> h[j', i] == Shifts(ToWord(i), poly, j' + 1)
      invariant forall j', k :: 0 <= j' < 8 && 0 <= k < 256 && (k != i || j' == 0) ==> h[j', k] == old(h[j', k])
    {
      NextShift(t[..], ToWord(i), crc, poly, j);
      crc := Xor(t[LowByte(crc)], Rest(crc));
      h[j, i] := crc;
    }
  }

  method MakeSlicingBy8Table(t: array<Word>, ghost poly: Word) returns (h: array2<Word>)
    requires IsTable(t[..], poly)
    ensures fresh(h) && IsSliced(h, poly)
  {
    hide Shift8, ToWord, Shifts;
    h := new Word[8, 256]((_, _) => 0);
    forall i | 0 <= i < 256 {
      h[0, i] := t[i];
    }
    for i := 0 to 256
      invariant forall k :: i <= k < 256 ==> h[0, k] == t[k]
      invariant forall j, k :: 0 <= j < 8 && 0 <= k < i ==> h[j, k] == Shifts(ToWord(k), poly, j + 1)
    {
      assert t[..][i] == t[i];
      OneShift(ToWord(i), poly);
      FillColumn(t, h, i, poly);
    }
  }

  lemma OneShift(c: Word, poly: Word)
    ensures Shifts(c, poly, 1) == Shift8(c, poly)
  {
    hide Shift8;
  }

  lemma {:induction false} ShiftsLast(c: Word, poly: Word, n: nat)
    ensures Shifts(c, poly, n + 1) == Shift8(Shifts(c, poly, n), poly)
    decreases n
  {
    hide Shift8;
    if n > 0 {
      ShiftsLast(Shift8(c, poly), poly, n - 1);
    }
  }

  lemma NextShift(t: seq<Word>, c: Word, crc: Word, poly: Word, n: nat)
    requires IsTable(t, poly) && crc == Shifts(c, poly, n)
    ensures Xor(t[LowByte(crc)], Rest(crc)) == Shifts(c, poly, n + 1)
  {
    LowByteWord(crc);
    hide Shift8, Xor, Rest, Low, ToWord, LowByte;
    ShiftsLast(c, poly, n);
    SplitLowByte(crc, poly);
  }

  // ----- eight bytes at once

  /** One byte below a word moved up by a byte. */
  function Push(b: byte, w: Word): Word { Join(ToWord(b), w) }

  function Join(low: Word, high: Word): Word { low | (high << 8) }

  /** The little-endian word of up to eight bytes. */
  function WordOf(p: seq<byte>): Word
    decreases |p|
  {
    if p == [] then 0 else Push(p[0], WordOf(p[1..]))
  }

  /** The largest word of n bytes, n <= 7. */
  function Limit(n: nat): Word
  {
    if n == 0 then 0 else if n == 1 then 0xff else if n == 2 then 0xffff else if n == 3 then 0xff_ffff
    else if n == 4 then 0xffff_ffff else if n == 5 then 0xff_ffff_ffff else if n == 6 then 0xffff_ffff_ffff
    else 0xff_ffff_ffff_ffff
  }

  predicate Within(w: Word, n: nat) { w <= Limit(n) }

  lemma PushLimit(b: byte, w: Word, n: nat)
    requires n < 7 && Within(w, n)
    ensures Within(Push(b, w), n + 1)
  {
  }

  lemma LimitGrows(w: Word, n: nat)
    requires n <= 7
    ensures Within(0, 0) && (Within(w, n) ==> Within(w, 7))
  {
  }

  lemma PushSplits(b: byte, w: Word)
    requires Within(w, 7)
    ensures Low(Push(b, w)) == ToWord(b) && Rest(Push(b, w)) == w
  {
  }

  lemma {:induction false} WordOfLimit(p: seq<byte>)
    requires |p| <= 7
    ensures Within(WordOf(p), |p|) && Within(WordOf(p), 7)
    decreases |p|
  {
    hide Push, Within;
    LimitGrows(WordOf(p), |p|);
    if p != [] {
      WordOfLimit(p[1..]);
      PushLimit(p[0], WordOf(p[1..]), |p| - 1);
    }
  }

  /** Feeding bytes one by one is shifting them in all together. */
  lemma {:induction false} FoldWord(crc: Word, p: seq<byte>, poly: Word)
    requires |p| <= 8
    ensures Shifts(Xor(crc, WordOf(p)), poly, |p|) == Fold(crc, p, poly)
    decreases |p|
  {
    hide Xor, Low, Rest, Shift8, ToWord, Push, Within;
    if p == [] {
      XorZero(crc);
    } else {
      var b, w := ToWord(p[0]), WordOf(p[1..]);
      WordOfLimit(p[1..]);
      FoldWordStep(crc, p[0], w, poly);
      FoldWord(ByteStep(crc, p[0], poly), p[1..], poly);
    }
  }

  lemma FoldWordStep(crc: Word, b: byte, w: Word, poly: Word)
    requires Within(w, 7)
    ensures Shift8(Xor(crc, Push(b, w)), poly) == Xor(ByteStep(crc, b, poly), w)
  {
    hide Xor, Low, Rest, Shift8, ToWord, Push, Within, LowByte;
    PushSplits(b, w);
    RestXor(crc, Push(b, w));
    SplitLowByte(Xor(crc, Push(b, w)), poly);
    LowIdempotent(b);
    RestXor(crc, ToWord(b));
    SplitLowByte(Xor(crc, ToWord(b)), poly);
    var z := Shift8(Xor(Low(crc), ToWord(b)), poly);
    XorZero(Rest(crc));
    XorAssoc(z, Rest(crc), w);
  }

  lemma LowIdempotent(b: byte)
    ensures Low(ToWord(b)) == ToWord(b) && Rest(ToWord(b)) == 0
  {
  }

  /** The eight table lookups of the sliced form, nested to the right. */
  function Lookups(x: Word, poly: Word, n: nat): Word
    decreases n
  {
    if n == 0 then x else Xor(Shifts(Low(x), poly, n), Lookups(Rest(x), poly, n - 1))
  }

  lemma {:induction false} LookupsShift(x: Word, poly: Word, n: nat)
    ensures Lookups(x, poly, n) == Shifts(x, poly, n)
    decreases n
  {
    hide Xor, Low, Rest, Shift8;
    if n > 0 {
      LookupsShift(Rest(x), poly, n - 1);
      SplitShifts(x, poly, n - 1);
    }
  }

  /** uint64(p[0]) | uint64(p[1])<<8 | ... | uint64(p[7])<<56 */
  function Load8(p: seq<byte>): Word
    requires |p| >= 8
  {
    ToWord(p[0]) | (ToWord(p[1]) << 8) | (ToWord(p[2]) << 16) | (ToWord(p[3]) << 24) |
    (ToWord(p[4]) << 32) | (ToWord(p[5]) << 40) | (ToWord(p[6]) << 48) | (ToWord(p[7]) << 56)
  }

  lemma PushesLoad(b0: byte, b1: byte, b2: byte, b3: byte, b4: byte, b5: byte, b6: byte, b7: byte)
    ensures Push(b0, Push(b1, Push(b2, Push(b3, Push(b4, Push(b5, Push(b6, Push(b7, 0)))))))) ==
            ToWord(b0) | (ToWord(b1) << 8) | (ToWord(b2) << 16) | (ToWord(b3) << 24) |
            (ToWord(b4) << 32) | (ToWord(b5) << 40) | (ToWord(b6) << 48) | (ToWord(b7) << 56)
  {
    hide ToWord;
  }

  lemma WordOfStep(p: seq<byte>)
    ensures p != [] ==> WordOf(p) == Push(p[0], WordOf(p[1..]))
    ensures p == [] ==> WordOf(p) == 0
  {
    hide Push;
  }

  lemma Load8IsWordOf(p: seq<byte>)
    requires |p| >= 8
    ensures Load8(p) == WordOf(p[..8])
  {
    PushesLoad(p[0], p[1], p[2], p[3], p[4], p[5], p[6], p[7]);
    hide Push, WordOf, ToWord;
    var q0 := p[..8];
    var q1 := q0[1..];
    var q2 := q1[1..];
    var q3 := q2[1..];
    var q4 := q3[1..];
    var q5 := q4[1..];
    var q6 := q5[1..];
    var q7 := q6[1..];
    WordOfStep(q0);
    WordOfStep(q1);
    WordOfStep(q2);
    WordOfStep(q3);
    WordOfStep(q4);
    WordOfStep(q5);
    WordOfStep(q6);
    WordOfStep(q7);
    WordOfStep(q7[1..]);
  }

  // ----- updating the checksum

  /** The byte-at-a-time loop. */
  method UpdateBytes(crc0: Word, tab: array<Word>, p: seq<byte>, ghost poly: Word) returns (crc: Word)
    requires IsTable(tab[..], poly)
    ensures crc == Fold(crc0, p, poly)
  {
    hide Xor, Rest, TableIndex, ByteStep;
    crc := crc0;
    for i := 0 to |p|
      invariant Fold(crc, p[i..], poly) == Fold(crc0, p, poly)
    {
      TableStep(tab[..], crc, p[i], poly);
      assert p[i..][1..] == p[i + 1..];
      crc := Xor(tab[TableIndex(crc, p[i])], Rest(crc));
    }
  }

  /** crc >> (8 * bytes) */
  function Shr(c: Word, bytes: nat): Word
    decreases bytes
  {
    if bytes == 0 then c else Rest(Shr(c, bytes - 1))
  }

  lemma ShrStep(c: Word, bytes: nat)
    ensures Shr(c, bytes + 1) == Rest(Shr(c, bytes))
    ensures Shr(c, 0) == c
  {
    hide Rest;
  }

  lemma ShrAll(c: Word)
    ensures Shr(c, 8) == 0
  {
    assert ((((((((c >> 8) >> 8) >> 8) >> 8) >> 8) >> 8) >> 8) >> 8) == 0;
    var r := Rest(Rest(Rest(Rest(Rest(Rest(Rest(Rest(c))))))));
    assert r == 0;
    hide Rest;
    ShrStep(c, 0);
    ShrStep(c, 1);
    ShrStep(c, 2);
    ShrStep(c, 3);
    ShrStep(c, 4);
    ShrStep(c, 5);
    ShrStep(c, 6);
    ShrStep(c, 7);
  }

  lemma XorChain(a: Word, b: Word, c: Word, d: Word, e: Word, f: Word, g: Word, h: Word)
    ensures Xor(Xor(Xor(Xor(Xor(Xor(Xor(a, b), c), d), e), f), g), h) ==
            Xor(a, Xor(b, Xor(c, Xor(d, Xor(e, Xor(f, Xor(g, Xor(h, 0))))))))
  {
    XorZero(h);
    hide Xor;
    XorAssoc(a, b, c);
    XorAssoc(a, Xor(b, c), d);
    XorAssoc(b, c, d);
    var bcd := Xor(b, Xor(c, d));
    XorAssoc(a, bcd, e);
    XorAssoc(b, Xor(c, d), e);
    XorAssoc(c, d, e);
    var bcde := Xor(b, Xor(c, Xor(d, e)));
    XorAssoc(a, bcde, f);
    XorAssoc(b, Xor(c, Xor(d, e)), f);
    XorAssoc(c, Xor(d, e), f);
    XorAssoc(d, e, f);
    var bcdef := Xor(b, Xor(c, Xor(d, Xor(e, f))));
    XorAssoc(a, bcdef, g);
    XorAssoc(b, Xor(c, Xor(d, Xor(e, f))), g);
    XorAssoc(c, Xor(d, Xor(e, f)), g);
    XorAssoc(d, Xor(e, f), g);
    XorAssoc(e, f, g);
    var bcdefg := Xor(b, Xor(c, Xor(d, Xor(e, Xor(f, g)))));
    XorAssoc(a, bcdefg, h);
    XorAssoc(b, Xor(c, Xor(d, Xor(e, Xor(f, g)))), h);
    XorAssoc(c, Xor(d, Xor(e, Xor(f, g))), h);
    XorAssoc(d, Xor(e, Xor(f, g)), h);
    XorAssoc(e, Xor(f, g), h);
    XorAssoc(f, g, h);
  }

  lemma LookupsStep(x: Word, poly: Word, n: nat)
    ensures Lookups(x, poly, n + 1) == Xor(Shifts(Low(x), poly, n + 1), Lookups(Rest(x), poly, n))
    ensures Lookups(x, poly, 0) == x
  {
    hide Xor, Low, Rest, Shifts;
  }

  /** Eight table lookups, combined left to right, advance the register by eight byte positions. */
  lemma EightLookups(x: Word, poly: Word)
    ensures Shifts(x, poly, 8) ==
            Xor(Xor(Xor(Xor(Xor(Xor(Xor(
              Shifts(Low(x), poly, 8), Shifts(Low(Shr(x, 1)), poly, 7)), Shifts(Low(Shr(x, 2)), poly, 6)),
              Shifts(Low(Shr(x, 3)), poly, 5)), Shifts(Low(Shr(x, 4)), poly, 4)), Shifts(Low(Shr(x, 5)), poly, 3)),
              Shifts(Low(Shr(x, 6)), poly, 2)), Shifts(Low(Shr(x, 7)), poly, 1))
  {
    hide Xor, Low, Rest, Shifts, Lookups, Shr;
    LookupsShift(x, poly, 8);
    var x1, x2, x3, x4 := Shr(x, 1), Shr(x, 2), Shr(x, 3), Shr(x, 4);
    var x5, x6, x7 := Shr(x, 5), Shr(x, 6), Shr(x, 7);
    ShrStep(x, 0);
    ShrStep(x, 1);
    ShrStep(x, 2);
    ShrStep(x, 3);
    ShrStep(x, 4);
    ShrStep(x, 5);
    ShrStep(x, 6);
    ShrStep(x, 7);
    ShrAll(x);
    LookupsStep(x, poly, 7);
    LookupsStep(x1, poly, 6);
    LookupsStep(x2, poly, 5);
    LookupsStep(x3, poly, 4);
    LookupsStep(x4, poly, 3);
    LookupsStep(x5, poly, 2);
    LookupsStep(x6, poly, 1);
    LookupsStep(x7, poly, 0);
    LookupsStep(Rest(x7), poly, 0);
    XorChain(Shifts(Low(x), poly, 8), Shifts(Low(x1), poly, 7), Shifts(Low(x2), poly, 6), Shifts(Low(x3), poly, 5),
             Shifts(Low(x4), poly, 4), Shifts(Low(x5), poly, 3), Shifts(Low(x6), poly, 2), Shifts(Low(x7), poly, 1));
  }

  method Lookup(h: array2<Word>, j: nat, c: Word, ghost poly: Word) returns (w: Word)
    requires IsSliced(h, poly) && j < 8
    ensures w == Shifts(Low(c), poly, j + 1)
  {
    LowByteWord(c);
    hide Low, Shifts, ToWord, LowByte;
    w := h[j, LowByte(c)];
  }

  /** One step of the sliced loop: eight bytes at once. */
  method EightBytes(crc0: Word, h: array2<Word>, p: seq<byte>, ghost poly: Word) returns (crc: Word)
    requires IsSliced(h, poly) && |p| >= 8
    ensures crc == Fold(crc0, p[..8], poly)
  {
    hide Xor, Low, Rest, Shifts, ToWord, Fold, WordOf, IsSliced, Shr;
    var x := Xor(crc0, Load8(p));
    var t7 := Lookup(h, 7, x, poly);
    var t6 := Lookup(h, 6, Shr(x, 1), poly);
    var t5 := Lookup(h, 5, Shr(x, 2), poly);
    var t4 := Lookup(h, 4, Shr(x, 3), poly);
    var t3 := Lookup(h, 3, Shr(x, 4), poly);
    var t2 := Lookup(h, 2, Shr(x, 5), poly);
    var t1 := Lookup(h, 1, Shr(x, 6), poly);
    var t0 := Lookup(h, 0, Shr(x, 7), poly);
    crc := Xor(Xor(Xor(Xor(Xor(Xor(Xor(t7, t6), t5), t4), t3), t2), t1), t0);
    EightLookups(x, poly);
    Load8IsWordOf(p);
    FoldWord(crc0, p[..8], poly);
  }

  /** Whether *tab equals the first of the prepared tables. */
  method SameTable(tab: array<Word>, h: array2<Word>) returns (same: bool)
    requires tab.Length == 256 && h.Length0 == 8 && h.Length1 == 256
    ensures same <==> forall i :: 0 <= i < 256 ==> tab[i] == h[0, i]
  {
    for i := 0 to 256
      invariant forall k :: 0 <= k < i ==> tab[k] == h[0, k]
    {
      if tab[i] != h[0, i] {
        return false;
      }
    }
    same := true;
  }

  /** Equal one-byte tables come from polynomials with equal tables everywhere. */
  lemma {:induction false} SameShifts(poly: Word, poly': Word, c: Word, n: nat)
    requires forall i: byte :: Shift8(ToWord(i), poly) == Shift8(ToWord(i), poly')
    ensures Shifts(c, poly, n) == Shifts(c, poly', n)
    decreases n
  {
    hide Shift8, ToWord, Xor, Low, Rest, LowByte;
    if n > 0 {
      SplitLowByte(c, poly);
      SplitLowByte(c, poly');
      LowByteWord(c);
      assert Shift8(ToWord(LowByte(c)), poly) == Shift8(ToWord(LowByte(c)), poly');
      SameShifts(poly, poly', Shift8(c, poly), n - 1);
    }
  }

  /** Update: slicing-by-8 whenever the input is long enough, with the prepared tables if they belong
      to this table, with freshly made ones from 2048 bytes on; then byte at a time. */
  method Update(crc0: Word, tab: array<Word>, p0: seq<byte>, prepared: array2<Word>, ghost poly: Word,
                ghost jones: Word)
    returns (crc: Word)
    requires IsTable(tab[..], poly) && IsSliced(prepared, jones)
    ensures crc == Fold(crc0, p0, poly)
  {
    hide Fold, Shift8, Shifts, ToWord;
    crc := crc0;
    var p := p0;
    while |p| >= 64
      invariant Fold(crc, p, poly) == Fold(crc0, p0, poly)
    {
      var helper: array2<Word>;
      var same := SameTable(tab, prepared);
      if same {
        helper := prepared;
        SameTables(tab, prepared, poly, jones);
      } else if |p| >= 2048 {
        helper := MakeSlicingBy8Table(tab, poly);
      } else {
        break;
      }
      while |p| > 8
        invariant IsSliced(helper, poly) && Fold(crc, p, poly) == Fold(crc0, p0, poly)
        decreases |p|
      {
        FoldConcat(crc, p[..8], p[8..], poly);
        assert p == p[..8] + p[8..];
        crc := EightBytes(crc, helper, p, poly);
        p := p[8..];
      }
    }
    crc := UpdateBytes(crc, tab, p, poly);
  }

  lemma SameTables(tab: array<Word>, h: array2<Word>, poly: Word, jones: Word)
    requires IsTable(tab[..], poly) && IsSliced(h, jones)
    requires forall i :: 0 <= i < 256 ==> tab[i] == h[0, i]
    ensures IsSliced(h, poly)
  {
    hide Shift8, Shifts, ToWord;
    forall i: byte ensures Shift8(ToWord(i), poly) == Shift8(ToWord(i), jones) {
      OneShift(ToWord(i), jones);
      assert tab[..][i] == h[0, i];
    }
    forall j, i | 0 <= j < 8 && 0 <= i < 256 ensures h[j, i] == Shifts(ToWord(i), poly, j + 1) {
      SameShifts(poly, jones, ToWord(i), j + 1);
    }
  }

  // ----- the digest

  /** The bytes of a word, lowest first. */
  function WordBytes(c: Word, n: nat): (s: seq<byte>)
    ensures |s| == n
    decreases n
  {
    if n == 0 then [] else [LowByte(c)] + WordBytes(Rest(c), n - 1)
  }

  lemma JoinSplit(c: Word)
    ensures Join(Low(c), Rest(c)) == c
  {
  }

  lemma PushLow(c: Word)
    ensures Push(LowByte(c), Rest(c)) == c
  {
    JoinSplit(c);
    LowByteWord(c);
    hide LowByte, ToWord, Join, Low, Rest;
  }

  lemma {:induction false} ShrRest(c: Word, n: nat)
    ensures Shr(Rest(c), n) == Shr(c, n + 1)
    decreases n
  {
    hide Rest;
    if n > 0 {
      ShrRest(c, n - 1);
    }
  }

  lemma {:induction false} WordOfBytes(c: Word, n: nat)
    requires Shr(c, n) == 0
    ensures WordOf(WordBytes(c, n)) == c
    decreases n
  {
    hide Rest, Push, LowByte;
    if n > 0 {
      ShrRest(c, n - 1);
      WordOfBytes(Rest(c), n - 1);
      PushLow(c);
      assert WordBytes(c, n)[1..] == WordBytes(Rest(c), n - 1);
    }
  }

  /** A text followed by its own little-endian checksum has checksum zero. */
  lemma SelfCheck(p: seq<byte>, poly: Word)
    ensures Fold(0, p + WordBytes(Fold(0, p, poly), 8), poly) == 0
  {
    var c := Fold(0, p, poly);
    var tail := WordBytes(c, 8);
    FoldConcat(0, p, tail, poly);
    ShrAll(c);
    WordOfBytes(c, 8);
    FoldWord(c, tail, poly);
    XorZero(c);
    XorZero(Shifts(c, poly, 8));
    ShiftsLinear(c, c, poly, 8);
    hide *;
  }

  /** hash.Hash64: the checksum of the bytes written so far. */
  class Digest {
    var crc: Word
    const tab: array<Word>
    const prepared: array2<Word>
    ghost const poly: Word
    ghost const jones: Word

    ghost predicate Valid()
      reads tab, prepared
    {
      IsTable(tab[..], poly) && IsSliced(prepared, jones)
    }

    constructor (tab: array<Word>, prepared: array2<Word>, ghost poly: Word, ghost jones: Word)
      requires IsTable(tab[..], poly) && IsSliced(prepared, jones)
      ensures Valid() && crc == 0 && this.tab == tab && this.prepared == prepared && this.poly == poly
    {
      this.crc := 0;
      this.tab := tab;
      this.prepared := prepared;
      this.poly := poly;
      this.jones := jones;
    }

    method Write(p: seq<byte>)
      requires Valid()
      modifies this`crc
      ensures crc == Fold(old(crc), p, poly)
    {
      crc := Update(crc, tab, p, prepared, poly, jones);
    }

    method Sum(head: seq<byte>) returns (r: seq<byte>)
      ensures r == head + WordBytes(crc, 8)
    {
      hide LowByte, Rest, Shr;
      SumBytes(crc);
      r := head + [LowByte(crc), LowByte(Shr(crc, 1)), LowByte(Shr(crc, 2)), LowByte(Shr(crc, 3)),
                   LowByte(Shr(crc, 4)), LowByte(Shr(crc, 5)), LowByte(Shr(crc, 6)), LowByte(Shr(crc, 7))];
    }
  }

  lemma {:induction false} WordBytesAt(c: Word, n: nat, k: nat)
    requires k < n
    ensures WordBytes(c, n)[k] == LowByte(Shr(c, k))
    decreases n
  {
    hide Rest, LowByte;
    if k > 0 {
      WordBytesAt(Rest(c), n - 1, k - 1);
      ShrRest(c, k - 1);
    }
  }

  lemma SumBytes(c: Word)
    ensures WordBytes(c, 8) == [LowByte(c), LowByte(Shr(c, 1)), LowByte(Shr(c, 2)), LowByte(Shr(c, 3)),
                                LowByte(Shr(c, 4)), LowByte(Shr(c, 5)), LowByte(Shr(c, 6)), LowByte(Shr(c, 7))]
  {
    ShrStep(c, 0);
    hide *;
    WordBytesAt(c, 8, 0);
    WordBytesAt(c, 8, 1);
    WordBytesAt(c, 8, 2);
    WordBytesAt(c, 8, 3);
    WordBytesAt(c, 8, 4);
    WordBytesAt(c, 8, 5);
    WordBytesAt(c, 8, 6);
    WordBytesAt(c, 8, 7);
  }
}
