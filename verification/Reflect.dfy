/** The bit reversal that turns the Jones polynomial into the form the checksum's rounds use. */
module Crc64Reflect {
  import opened Crc64

  /** The low n bits, lowest first. */
  function Bits(c: Word, n: nat): (r: seq<bool>)
    ensures |r| == n
  {
    if n == 0 then [] else [Odd(c)] + Bits(Half(c), n - 1)
  }

  function Reversed(s: seq<bool>): (r: seq<bool>)
    ensures |r| == |s|
  {
    if s == [] then [] else Reversed(s[1..]) + [s[0]]
  }

  function Halved(c: Word, n: nat): Word
  {
    if n == 0 then c else Half(Halved(c, n - 1))
  }

  function Double(c: Word, bit: bool): Word
  {
    (c << 1) | (if bit then 1 else 0)
  }

  /** The low n bits are zero. */
  predicate HighOnly(d: Word, n: nat)
  {
    n == 0 || (!Odd(d) && HighOnly(Half(d), n - 1))
  }

  lemma {:induction false} SameBits(a: Word, b: Word, n: nat)
    requires HighOnly(Xor(a, b), n)
    ensures Bits(a, n) == Bits(b, n)
    decreases n
  {
    hide Xor, Half, Odd;
    if n > 0 {
      HalfXor(a, b);
      SameBits(Half(a), Half(b), n - 1);
    }
  }

  const TOP: Word := 0x8000_0000_0000_0000

  lemma DoubleHalf(c: Word)
    ensures (c << 1) >> 1 == c & 0x7fff_ffff_ffff_ffff && ((c << 1) | 1) >> 1 == c & 0x7fff_ffff_ffff_ffff
    ensures (c << 1) & 1 == 0 && ((c << 1) | 1) & 1 == 1
  {
  }

  lemma ClearTop(c: Word)
    ensures (c & 0x7fff_ffff_ffff_ffff) ^ c == c & TOP
  {
  }

  lemma TopOnly(c: Word)
    ensures c & TOP == 0 || c & TOP == TOP
  {
  }

  /** Doubling loses the top bit and no other. */
  lemma DoubleIs(c: Word, bit: bool)
    ensures (Odd(Double(c, bit)) <==> bit)
    ensures Xor(Half(Double(c, bit)), c) == 0 || Xor(Half(Double(c, bit)), c) == TOP
  {
    DoubleHalf(c);
    ClearTop(c);
    TopOnly(c);
    if !bit {
      assert Double(c, bit) == c << 1 by {
        OrZero(c << 1);
      }
    }
  }

  lemma OrZero(c: Word)
    ensures c | 0 == c
  {
  }

  lemma {:induction false} ZeroLow(n: nat)
    ensures HighOnly(0, n)
    decreases n
  {
    if n > 0 {
      ZeroLow(n - 1);
    }
  }

  lemma {:induction false} FewerLow(d: Word, n: nat, k: nat)
    requires HighOnly(d, n) && k <= n
    ensures HighOnly(d, k)
    decreases k
  {
    hide Half, Odd;
    if k > 0 {
      FewerLow(Half(d), n - 1, k - 1);
    }
  }

  lemma FourMore(d: Word, n: nat)
    requires !Odd(d) && !Odd(Half(d)) && !Odd(Half(Half(d))) && !Odd(Half(Half(Half(d))))
    requires HighOnly(Half(Half(Half(Half(d)))), n)
    ensures HighOnly(d, n + 4)
  {
    hide Half, Odd;
    assert HighOnly(Half(Half(d)), n + 2);
  }

  lemma ZeroByte(d: Word, n: nat)
    requires Low(d) == 0 && HighOnly(Rest(d), n)
    ensures HighOnly(d, n + 8)
  {
    EightHalvings(d);
    hide Half, Odd, Low, Rest;
    FourMore(Half(Half(Half(Half(d)))), n);
    FourMore(d, n + 4);
  }

  lemma TopLow()
    ensures HighOnly(TOP, 63)
  {
    assert HighOnly(0x1, 0);
    assert HighOnly(0x4, 2);
    assert HighOnly(0x10, 4);
    assert HighOnly(0x80, 7);
    ZeroByte(0x8000, 7);
    ZeroByte(0x80_0000, 15);
    ZeroByte(0x8000_0000, 23);
    ZeroByte(0x80_0000_0000, 31);
    ZeroByte(0x8000_0000_0000, 39);
    ZeroByte(0x80_0000_0000_0000, 47);
    ZeroByte(TOP, 55);
  }

  lemma DoubleBits(c: Word, bit: bool, n: nat)
    requires n <= 63
    ensures Bits(Double(c, bit), n + 1) == [bit] + Bits(c, n)
  {
    hide Xor, Half, Odd, Double;
    DoubleIs(c, bit);
    ZeroLow(n);
    TopLow();
    FewerLow(TOP, 63, n);
    SameBits(Half(Double(c, bit)), c, n);
  }

  lemma {:induction false} MoreBits(c: Word, n: nat)
    ensures Bits(c, n + 1) == Bits(c, n) + [Odd(Halved(c, n))]
    decreases n
  {
    hide Half, Odd;
    if n > 0 {
      MoreBits(Half(c), n - 1);
      HalvedHalf(c, n - 1);
    }
  }

  lemma {:induction false} HalvedHalf(c: Word, n: nat)
    ensures Halved(Half(c), n) == Half(Halved(c, n))
    decreases n
  {
    hide Half;
    if n > 0 {
      HalvedHalf(c, n - 1);
    }
  }

  lemma {:induction false} ReversedPush(s: seq<bool>, b: bool)
    ensures Reversed(s + [b]) == [b] + Reversed(s)
  {
    if s == [] {
      assert s + [b] == [b];
    } else {
      assert (s + [b])[1..] == s[1..] + [b];
      ReversedPush(s[1..], b);
    }
  }

  /** reflect: the same bits in reverse order. */
  method Reflect(poly: Word) returns (x: Word)
    ensures Bits(x, 64) == Reversed(Bits(poly, 64))
  {
    hide Half, Odd, Double, Bits, Reversed;
    var p := poly;
    x := if Odd(p) then 1 else 0;
    OneBit(poly, x);
    for i := 1 to 64
      invariant p == Halved(poly, i - 1) && Bits(x, i) == Reversed(Bits(poly, i))
    {
      p := Half(p);
      DoubleBits(x, Odd(p), i);
      MoreBits(poly, i);
      ReversedPush(Bits(poly, i), Odd(p));
      x := Double(x, Odd(p));
    }
  }

  lemma OneBit(poly: Word, x: Word)
    requires x == if Odd(poly) then 1 else 0
    ensures Bits(x, 1) == Reversed(Bits(poly, 1))
  {
    assert Bits(poly, 1) == [Odd(poly)] && Bits(x, 1) == [Odd(x)];
    assert Reversed([Odd(poly)]) == [Odd(poly)];
  }
}
