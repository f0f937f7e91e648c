/** Bytes, fixed-width integers in both byte orders, and Go's decimal conversions. */
module Bytes {

  type byte = x: int | 0 <= x < 256

  const TWO_8 := 0x100
  const TWO_16 := 0x1_0000
  const TWO_24 := 0x100_0000
  const TWO_32 := 0x1_0000_0000
  const TWO_63 := 0x8000_0000_0000_0000
  const TWO_64 := 0x1_0000_0000_0000_0000

  function Pow256(n: nat): (p: nat)
    ensures p >= 1
  {
    if n == 0 then 1 else 256 * Pow256(n - 1)
  }

  lemma Pow256Values()
    ensures Pow256(1) == TWO_8 && Pow256(2) == TWO_16 && Pow256(3) == TWO_24
    ensures Pow256(4) == TWO_32 && Pow256(8) == TWO_64
  {
    assert Pow256(1) == 256 * Pow256(0);
    assert Pow256(3) == 256 * Pow256(2);
    assert Pow256(4) == 256 * Pow256(3);
    assert Pow256(6) == 256 * (256 * Pow256(4));
    assert Pow256(8) == 256 * (256 * Pow256(6));
  }

  // ----- little endian (binary.LittleEndian.PutUintN); negative values wrap to two's complement

  function LE(v: int, n: nat): (s: seq<byte>)
    ensures |s| == n
    decreases n
  {
    if n == 0 then [] else [v % 256] + LE(v / 256, n - 1)
  }

  function UnLE(s: seq<byte>): nat
  {
    if s == [] then 0 else s[0] + 256 * UnLE(s[1..])
  }

  /** What reading back a truncated value yields: the residue, with the lost quotient. */
  lemma {:induction false} LEResidue(v: int, n: nat) returns (q: int)
    ensures v == UnLE(LE(v, n)) + q * Pow256(n)
    ensures UnLE(LE(v, n)) < Pow256(n)
    decreases n
  {
    if n == 0 {
      q := v;
    } else {
      q := LEResidue(v / 256, n - 1);
      var r := LE(v / 256, n - 1);
      assert LE(v, n)[1..] == r;
      var p := Pow256(n - 1);
      assert 256 * (q * p) == q * (256 * p);
    }
  }

  lemma {:induction false} UnLEBound(s: seq<byte>)
    ensures UnLE(s) < Pow256(|s|)
  {
    if s != [] {
      UnLEBound(s[1..]);
    }
  }

  lemma {:induction false} LEUnLE(s: seq<byte>)
    ensures LE(UnLE(s), |s|) == s
  {
    if s != [] {
      LEUnLE(s[1..]);
      assert UnLE(s) % 256 == s[0] && UnLE(s) / 256 == UnLE(s[1..]);
    }
  }

  // ----- big endian

  function BE(v: int, n: nat): (s: seq<byte>)
    ensures |s| == n
    decreases n
  {
    if n == 0 then [] else BE(v / 256, n - 1) + [v % 256]
  }

  function UnBE(s: seq<byte>): nat
  {
    if s == [] then 0 else 256 * UnBE(s[..|s| - 1]) + s[|s| - 1]
  }

  lemma {:induction false} BEResidue(v: int, n: nat) returns (q: int)
    ensures v == UnBE(BE(v, n)) + q * Pow256(n)
    ensures UnBE(BE(v, n)) < Pow256(n)
    decreases n
  {
    if n == 0 {
      q := v;
    } else {
      q := BEResidue(v / 256, n - 1);
      var r := BE(v / 256, n - 1);
      assert BE(v, n)[..n - 1] == r;
      var p := Pow256(n - 1);
      assert 256 * (q * p) == q * (256 * p);
    }
  }

  lemma {:induction false} UnBEBound(s: seq<byte>)
    ensures UnBE(s) < Pow256(|s|)
  {
    if s != [] {
      UnBEBound(s[..|s| - 1]);
    }
  }

  lemma {:induction false} BEUnBE(s: seq<byte>)
    ensures BE(UnBE(s), |s|) == s
  {
    if s != [] {
      var init, last := s[..|s| - 1], s[|s| - 1];
      BEUnBE(init);
      assert UnBE(s) % 256 == last && UnBE(s) / 256 == UnBE(init);
      assert s == init + [last];
    }
  }

  // ----- signed reinterpretation: intN(x) of an N-bit unsigned x

  function Signed(u: int, modulus: int): int
  {
    if 2 * u < modulus then u else u - modulus
  }

  function Wrap64(v: int): (u: nat)
    ensures u < TWO_64
  {
    v % TWO_64
  }

  lemma UnsignedRoundTrip(v: int, n: nat)
    requires 0 <= v < Pow256(n)
    ensures UnLE(LE(v, n)) == v
    ensures UnBE(BE(v, n)) == v
  {
    var q := LEResidue(v, n);
    QuotientZero(v, UnLE(LE(v, n)), q, Pow256(n));
    q := BEResidue(v, n);
    QuotientZero(v, UnBE(BE(v, n)), q, Pow256(n));
  }

  lemma QuotientZero(v: int, u: int, q: int, p: int)
    requires 0 <= v < p && 0 <= u < p && v == u + q * p
    ensures q == 0 && u == v
  {
    Multiple(q, p);
  }

  lemma Multiple(q: int, p: int)
    requires p >= 1
    ensures q >= 1 ==> q * p >= p
    ensures q <= -1 ==> q * p <= -p
  {
    if q >= 1 {
      assert (q - 1) * p >= 0;
    } else if q <= -1 {
      assert (-q - 1) * p >= 0;
    }
  }

  lemma SignedRoundTrip(v: int, n: nat)
    requires -2 * v <= Pow256(n) && 2 * v < Pow256(n)
    ensures Signed(UnLE(LE(v, n)), Pow256(n)) == v
  {
    var q := LEResidue(v, n);
    var p := Pow256(n);
    var u := UnLE(LE(v, n));
    if v >= 0 {
      QuotientZero(v, u, q, p);
    } else {
      assert v + p == u + (q + 1) * p;
      QuotientZero(v + p, u, q + 1, p);
    }
  }

  // ----- decimal text (strconv)

  predicate IsDigit(b: byte)
  {
    48 <= b <= 57
  }

  predicate AllDigits(s: seq<byte>)
  {
    forall i :: 0 <= i < |s| ==> IsDigit(s[i])
  }

  /** strconv.Itoa on a non-negative number. */
  function NatText(n: nat): (s: seq<byte>)
    ensures |s| >= 1
  {
    if n < 10 then [48 + n] else NatText(n / 10) + [48 + n % 10]
  }

  /** strconv.FormatInt(n, 10). */
  function IntText(n: int): (s: seq<byte>)
    ensures |s| >= 1
  {
    if n < 0 then [45] + NatText(-n) else NatText(n)
  }

  function TextNat(s: seq<byte>): nat
    requires AllDigits(s)
  {
    if s == [] then 0 else 10 * TextNat(s[..|s| - 1]) + (s[|s| - 1] - 48)
  }

  /** The texts that Go prints for non-negative numbers: digits without a leading zero. */
  predicate Canonical(s: seq<byte>)
  {
    s != [] && AllDigits(s) && (s[0] == 48 ==> |s| == 1)
  }

  lemma {:induction false} CanonicalPositive(s: seq<byte>)
    requires AllDigits(s) && s != [] && s[0] != 48
    ensures TextNat(s) >= 1
  {
    if |s| > 1 {
      CanonicalPositive(s[..|s| - 1]);
    }
  }

  lemma {:induction false} TextRoundTrip(s: seq<byte>)
    requires Canonical(s)
    ensures NatText(TextNat(s)) == s
  {
    if |s| > 1 {
      var init := s[..|s| - 1];
      TextRoundTrip(init);
      CanonicalPositive(init);
      assert s == init + [s[|s| - 1]];
    }
  }

  lemma {:induction false} NatTextCanonical(n: nat)
    ensures Canonical(NatText(n)) && TextNat(NatText(n)) == n
    ensures n > 0 ==> NatText(n)[0] != 48
  {
    if n >= 10 {
      NatTextCanonical(n / 10);
      assert NatText(n)[..|NatText(n)| - 1] == NatText(n / 10);
    }
  }

  /** The decimal text of n: digits without a leading zero, after a minus sign if n is negative. */
  predicate IsDecimal(s: seq<byte>, n: int)
  {
    if n < 0 then s != [] && s[0] == 45 && Canonical(s[1..]) && TextNat(s[1..]) == -n
    else Canonical(s) && TextNat(s) == n
  }

  lemma IntTextDecimal(n: int)
    ensures IsDecimal(IntText(n), n)
    ensures n < 0 ==> IntText(n)[0] == 45 && Canonical(IntText(n)[1..]) && TextNat(IntText(n)[1..]) == -n
  {
    NatTextCanonical(if n < 0 then -n else n);
    if n < 0 {
      assert IntText(n)[1..] == NatText(-n);
    }
  }
}
