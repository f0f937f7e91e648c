/** The check value that the Jones checksum is published with. */
module CheckValues {
  import opened Bytes
  import opened Crc64
  import opened Crc64Reflect

  /** The Jones polynomial, and its bits in reverse order. */
  const JONES: Word := 0xad93_d235_94c9_35a9
  const JONES_REFLECTED: Word := 0x95ac_9329_ac4b_c9b5

  lemma ByteSteps1()
    ensures ByteStep(0, 49, JONES_REFLECTED) == 0xfdc1_7184_a9f7_39fa
    ensures ByteStep(0xfdc1_7184_a9f7_39fa, 50, JONES_REFLECTED) == 0xe103_6451_3a98_ed96
    ensures ByteStep(0xe103_6451_3a98_ed96, 51, JONES_REFLECTED) == 0xd5bc_fb81_4479_b1ac
  {
  }

  lemma ByteSteps2()
    ensures ByteStep(0xd5bc_fb81_4479_b1ac, 52, JONES_REFLECTED) == 0x4359_3c5d_cda5_21f0
    ensures ByteStep(0x4359_3c5d_cda5_21f0, 53, JONES_REFLECTED) == 0xf075_8513_239c_7e0d
    ensures ByteStep(0xf075_8513_239c_7e0d, 54, JONES_REFLECTED) == 0xa3a9_0925_b2ab_4903
  {
  }

  lemma ByteSteps3()
    ensures ByteStep(0xa3a9_0925_b2ab_4903, 55, JONES_REFLECTED) == 0x4782_4d36_2431_ad45
    ensures ByteStep(0x4782_4d36_2431_ad45, 56, JONES_REFLECTED) == 0x49ec_20b3_15e8_6dc2
    ensures ByteStep(0x49ec_20b3_15e8_6dc2, 57, JONES_REFLECTED) == 0xe9c6_d914_c4b8_d9ca
  {
  }

  lemma FoldByte(crc: Word, b: byte, p: seq<byte>, poly: Word)
    ensures Fold(crc, [b] + p, poly) == Fold(ByteStep(crc, b, poly), p, poly)
    ensures p == [] ==> Fold(crc, [b] + p, poly) == ByteStep(crc, b, poly)
  {
    hide ByteStep;
    assert ([b] + p)[1..] == p;
  }

  /** The checksum of the text 123456789. */
  lemma CheckValue()
    ensures Fold(0, [49, 50, 51, 52, 53, 54, 55, 56, 57], JONES_REFLECTED) == 0xe9c6_d914_c4b8_d9ca
  {
    hide ByteStep, Fold;
    ByteSteps1();
    ByteSteps2();
    ByteSteps3();
    FoldByte(0, 49, [50, 51, 52, 53, 54, 55, 56, 57], JONES_REFLECTED);
    assert [49] + [50, 51, 52, 53, 54, 55, 56, 57] == [49, 50, 51, 52, 53, 54, 55, 56, 57];
    FoldByte(0xfdc1_7184_a9f7_39fa, 50, [51, 52, 53, 54, 55, 56, 57], JONES_REFLECTED);
    assert [50] + [51, 52, 53, 54, 55, 56, 57] == [50, 51, 52, 53, 54, 55, 56, 57];
    FoldByte(0xe103_6451_3a98_ed96, 51, [52, 53, 54, 55, 56, 57], JONES_REFLECTED);
    assert [51] + [52, 53, 54, 55, 56, 57] == [51, 52, 53, 54, 55, 56, 57];
    FoldByte(0xd5bc_fb81_4479_b1ac, 52, [53, 54, 55, 56, 57], JONES_REFLECTED);
    assert [52] + [53, 54, 55, 56, 57] == [52, 53, 54, 55, 56, 57];
    FoldByte(0x4359_3c5d_cda5_21f0, 53, [54, 55, 56, 57], JONES_REFLECTED);
    assert [53] + [54, 55, 56, 57] == [53, 54, 55, 56, 57];
    FoldByte(0xf075_8513_239c_7e0d, 54, [55, 56, 57], JONES_REFLECTED);
    assert [54] + [55, 56, 57] == [54, 55, 56, 57];
    FoldByte(0xa3a9_0925_b2ab_4903, 55, [56, 57], JONES_REFLECTED);
    assert [55] + [56, 57] == [55, 56, 57];
    FoldByte(0x4782_4d36_2431_ad45, 56, [57], JONES_REFLECTED);
    assert [56] + [57] == [56, 57];
    FoldByte(0x49ec_20b3_15e8_6dc2, 57, [], JONES_REFLECTED);
    assert [57] + [] == [57];
  }

  // ----- the reflected polynomial

  lemma {:induction false} ReversedConcat(a: seq<bool>, b: seq<bool>)
    ensures Reversed(a + b) == Reversed(b) + Reversed(a)
  {
    if a == [] {
      assert a + b == b;
    } else {
      assert (a + b)[1..] == a[1..] + b;
      ReversedConcat(a[1..], b);
    }
  }

  lemma FourBits(c: Word, n: nat)
    ensures Bits(c, n + 4) ==
            [Odd(c), Odd(Half(c)), Odd(Half(Half(c))), Odd(Half(Half(Half(c))))] + Bits(Half(Half(Half(Half(c)))), n)
  {
    hide Half, Odd, Bits;
    OneBitOff(c, n + 3);
    OneBitOff(Half(c), n + 2);
    OneBitOff(Half(Half(c)), n + 1);
    OneBitOff(Half(Half(Half(c))), n);
  }

  lemma OneBitOff(c: Word, n: nat)
    ensures Bits(c, n + 1) == [Odd(c)] + Bits(Half(c), n)
  {
    hide Half, Odd;
  }

  lemma FourHalves(c: Word)
    ensures Half(Half(Half(Half(c)))) == c >> 4 && c >> 4 >> 4 == c >> 8
    ensures Odd(c) <==> Odd(c & 15)
    ensures Odd(Half(c)) <==> Odd(Half(c & 15))
    ensures Odd(Half(Half(c))) <==> Odd(Half(Half(c & 15)))
    ensures Odd(Half(Half(Half(c)))) <==> Odd(Half(Half(Half(c & 15))))
  {
  }

  /** A word's bits are those of its sixteen digits of four bits, lowest first. */
  lemma DigitBits(c: Word, n: nat)
    ensures Bits(c, n + 4) == Bits(c & 15, 4) + Bits(c >> 4, n)
  {
    FourHalves(c);
    hide Half, Odd, Bits;
    FourBits(c, n);
    FourBits(c & 15, 0);
    assert Bits(Half(Half(Half(Half(c & 15)))), 0) == [] by {
      NoBits(Half(Half(Half(Half(c & 15)))));
    }
  }

  lemma NoBits(c: Word)
    ensures Bits(c, 0) == []
  {
  }

  function Flip(c: Word): Word
  {
    (if Odd(c) then 8 else 0) + (if Odd(Half(c)) then 4 else 0) +
    (if Odd(Half(Half(c))) then 2 else 0) + (if Odd(Half(Half(Half(c)))) then 1 else 0)
  }

  lemma FlipBits(c: Word)
    ensures Odd(Flip(c)) <==> Odd(Half(Half(Half(c))))
    ensures Odd(Half(Flip(c))) <==> Odd(Half(Half(c)))
    ensures Odd(Half(Half(Flip(c)))) <==> Odd(Half(c))
    ensures Odd(Half(Half(Half(Flip(c))))) <==> Odd(c)
  {
  }

  lemma ReversedFour(a: bool, b: bool, c: bool, d: bool)
    ensures Reversed([a, b, c, d]) == [d, c, b, a]
  {
    ReversedPair(a, b);
    ReversedPair(c, d);
    hide Reversed;
    ReversedConcat([a, b], [c, d]);
    assert [a, b] + [c, d] == [a, b, c, d];
  }

  lemma ReversedPair(a: bool, b: bool)
    ensures Reversed([a, b]) == [b, a]
  {
    assert [a, b][1..] == [b] && [b][1..] == [];
  }

  /** Four bits read backwards. */
  lemma Mirror(c: Word)
    ensures Bits(Flip(c), 4) == Reversed(Bits(c, 4))
  {
    FlipBits(c);
    hide Half, Odd, Bits, Flip, Reversed;
    JustFour(c);
    JustFour(Flip(c));
    ReversedFour(Odd(c), Odd(Half(c)), Odd(Half(Half(c))), Odd(Half(Half(Half(c)))));
  }

  lemma JustFour(c: Word)
    ensures Bits(c, 4) == [Odd(c), Odd(Half(c)), Odd(Half(Half(c))), Odd(Half(Half(Half(c))))]
  {
    hide Half, Odd, Bits;
    FourBits(c, 0);
    NoBits(Half(Half(Half(Half(c)))));
  }

  function DigitsOf(c: Word, n: nat): seq<Word>
  {
    if n == 0 then [] else [c & 15] + DigitsOf(c >> 4, n - 1)
  }

  function AllBits(digits: seq<Word>): seq<bool>
  {
    if digits == [] then [] else Bits(digits[0], 4) + AllBits(digits[1..])
  }

  lemma {:induction false} BitsByDigits(c: Word, n: nat)
    ensures Bits(c, 4 * n) == AllBits(DigitsOf(c, n))
    decreases n
  {
    hide Bits;
    if n == 0 {
      NoBits(c);
    } else {
      DigitBits(c, 4 * (n - 1));
      BitsByDigits(c >> 4, n - 1);
    }
  }

  lemma {:induction false} AllBitsPush(digits: seq<Word>, d: Word)
    ensures AllBits(digits + [d]) == AllBits(digits) + Bits(d, 4)
  {
    hide Bits;
    if digits == [] {
      assert [] + [d] == [d];
    } else {
      assert (digits + [d])[1..] == digits[1..] + [d];
      AllBitsPush(digits[1..], d);
    }
  }

  function Flipped(digits: seq<Word>): seq<Word>
  {
    if digits == [] then [] else Flipped(digits[1..]) + [Flip(digits[0])]
  }

  lemma {:induction false} FlippedBits(digits: seq<Word>)
    ensures AllBits(Flipped(digits)) == Reversed(AllBits(digits))
  {
    hide Bits, Flip;
    if digits != [] {
      FlippedBits(digits[1..]);
      Mirror(digits[0]);
      AllBitsPush(Flipped(digits[1..]), Flip(digits[0]));
      ReversedConcat(Bits(digits[0], 4), AllBits(digits[1..]));
    }
  }

  lemma JonesDigits()
    ensures DigitsOf(JONES, 16) == [9, 10, 5, 3, 9, 12, 4, 9, 5, 3, 2, 13, 3, 9, 13, 10]
  {
    hide DigitsOf;
    FourDigits(JONES, 12);
    FourDigits(0xad93_d235_94c9, 8);
    FourDigits(0xad93_d235, 4);
    FourDigits(0xad93, 0);
    NoDigits();
  }

  lemma ReflectedDigits()
    ensures DigitsOf(JONES_REFLECTED, 16) == [5, 11, 9, 12, 11, 4, 12, 10, 9, 2, 3, 9, 12, 10, 5, 9]
  {
    hide DigitsOf;
    FourDigits(JONES_REFLECTED, 12);
    FourDigits(0x95ac_9329_ac4b, 8);
    FourDigits(0x95ac_9329, 4);
    FourDigits(0x95ac, 0);
    NoDigits();
  }

  lemma NoDigits()
    ensures DigitsOf(0, 0) == []
  {
  }

  lemma FourDigits(c: Word, n: nat)
    ensures DigitsOf(c, n + 4) == [c & 15, (c >> 4) & 15, (c >> 8) & 15, (c >> 12) & 15] + DigitsOf(c >> 16, n)
  {
    assert c >> 4 >> 4 == c >> 8 && c >> 8 >> 4 == c >> 12 && c >> 12 >> 4 == c >> 16;
    hide DigitsOf;
    OneMore(c, n + 3);
    OneMore(c >> 4, n + 2);
    OneMore(c >> 8, n + 1);
    OneMore(c >> 12, n);
  }

  lemma OneMore(c: Word, n: nat)
    ensures DigitsOf(c, n + 1) == [c & 15] + DigitsOf(c >> 4, n)
  {
  }

  /** The one polynomial is the other backwards. */
  lemma JonesReflected()
    ensures Bits(JONES_REFLECTED, 64) == Reversed(Bits(JONES, 64))
  {
    hide Bits, AllBits, DigitsOf, Reversed;
    JonesDigits();
    ReflectedDigits();
    BitsByDigits(JONES, 16);
    BitsByDigits(JONES_REFLECTED, 16);
    FlippedBits(DigitsOf(JONES, 16));
    FlippedJones();
  }

  lemma FlippedJones()
    ensures Flipped([9, 10, 5, 3, 9, 12, 4, 9, 5, 3, 2, 13, 3, 9, 13, 10]) ==
            [5, 11, 9, 12, 11, 4, 12, 10, 9, 2, 3, 9, 12, 10, 5, 9]
  {
    SmallFlips();
    hide Flip, Flipped;
    FlippedFour(3, 9, 13, 10, []);
    var four: seq<Word> := [3, 9, 13, 10];
    assert four + [] == four;
    var eight: seq<Word> := [5, 3, 2, 13, 3, 9, 13, 10];
    FlippedFour(5, 3, 2, 13, four);
    assert [5, 3, 2, 13] + four == eight;
    var twelve: seq<Word> := [9, 12, 4, 9, 5, 3, 2, 13, 3, 9, 13, 10];
    FlippedFour(9, 12, 4, 9, eight);
    assert [9, 12, 4, 9] + eight == twelve;
    assert Flipped(twelve) == [5, 11, 9, 12, 11, 4, 12, 10, 9, 2, 3, 9];
    FlippedFour(9, 10, 5, 3, twelve);
    assert [9, 10, 5, 3] + twelve == [9, 10, 5, 3, 9, 12, 4, 9, 5, 3, 2, 13, 3, 9, 13, 10];
  }

  lemma SmallFlips()
    ensures Flip(2) == 4 && Flip(3) == 12 && Flip(4) == 2 && Flip(5) == 10 && Flip(9) == 9
    ensures Flip(10) == 5 && Flip(12) == 3 && Flip(13) == 11
  {
  }

  lemma FlippedFour(a: Word, b: Word, c: Word, d: Word, rest: seq<Word>)
    ensures Flipped([a, b, c, d] + rest) == Flipped(rest) + [Flip(d), Flip(c), Flip(b), Flip(a)]
    ensures rest == [] ==> Flipped(rest) == []
  {
    hide Flip, Flipped;
    FlippedNext(d, rest);
    FlippedNext(c, [d] + rest);
    FlippedNext(b, [c] + ([d] + rest));
    FlippedNext(a, [b] + ([c] + ([d] + rest)));
    assert [a] + ([b] + ([c] + ([d] + rest))) == [a, b, c, d] + rest;
  }

  lemma FlippedNext(a: Word, rest: seq<Word>)
    ensures Flipped([a] + rest) == Flipped(rest) + [Flip(a)]
    ensures rest == [] ==> Flipped(rest) == []
  {
    hide Flip;
    assert ([a] + rest)[1..] == rest;
  }
}
