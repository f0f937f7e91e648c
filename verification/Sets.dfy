/** Set objects: an intset when every member is a canonical integer, else plain strings. */
module Sets {
  import opened Bytes
  import opened Parsing
  import opened RdbString
  import opened Lists

  const MIN_INT64 := -0x8000_0000_0000_0000

  // ----- plain strings

  predicate AllWritable(values: Values, compress: bool)
  {
    forall i :: 0 <= i < |values| ==> Writable(values[i], compress)
  }

  function EncStrings(values: Values, compress: bool): seq<byte>
    requires AllWritable(values, compress)
  {
    if values == [] then [] else EncString(values[0], compress) + EncStrings(values[1..], compress)
  }

  function PStrings(s: seq<byte>, n: nat): (p: Parsed<Values>)
    ensures p.Got? ==> |p.rest| <= |s|
    decreases n
  {
    if n == 0 then Got([], s)
    else
      var (v, t) :- PString(s);
      var (vs, u) :- PStrings(t, n - 1);
      Got([v] + vs, u)
  }

  /** readSet and readList; a negative capacity panics in the original. */
  function PSet(s: seq<byte>): (p: Parsed<Values>)
    ensures p.Got? ==> |p.rest| < |s|
  {
    var (len, t) :- PLength(s);
    if len.value >= TWO_63 then Bad else PStrings(t, len.value)
  }

  lemma {:induction false} StringsRoundTrip(values: Values, compress: bool, t: seq<byte>)
    requires AllWritable(values, compress)
    ensures PStrings(EncStrings(values, compress) + t, |values|) == Got(values, t)
  {
    hide PString, EncString, Writable;
    if values == [] {
      assert EncStrings(values, compress) + t == t;
    } else {
      var first, rest := EncString(values[0], compress), EncStrings(values[1..], compress);
      Assoc(first, rest, t);
      StringRoundTrip(values[0], compress, rest + t);
      StringsRoundTrip(values[1..], compress, t);
      assert [values[0]] + values[1..] == values;
    }
  }

  lemma SetRoundTrip(values: Values, compress: bool, t: seq<byte>)
    requires AllWritable(values, compress) && |values| < TWO_63
    ensures PSet(EncLength(|values|) + EncStrings(values, compress) + t) == Got(values, t)
  {
    hide PLength, EncLength, PStrings, EncStrings;
    Assoc(EncLength(|values|), EncStrings(values, compress), t);
    LengthRoundTrip(|values|, EncStrings(values, compress) + t);
    StringsRoundTrip(values, compress, t);
  }

  // ----- intsets

  /** The members as integers, when all of them are canonical. */
  function IntValues(values: Values): (r: Option<seq<nat>>)
    ensures r.Some? ==> |r.value| == |values| && AllInt64(r.value)
    ensures r.Some? ==> forall i :: 0 <= i < |values| ==> values[i] == NatText(r.value[i])
  {
    if values == [] then Some([])
    else
      match (IntValues(values[..|values| - 1]), EncodableInt(values[|values| - 1], MAX_INT64))
      case (Some(init), Some(v)) => Some(init + [v])
      case _ => None
  }

  predicate AllInt64(ints: seq<nat>)
  {
    forall i :: 0 <= i < |ints| ==> ints[i] <= MAX_INT64
  }

  function MinOf(ints: seq<nat>): int
  {
    if ints == [] then MAX_INT64
    else
      var m := MinOf(ints[..|ints| - 1]);
      if ints[|ints| - 1] < m then ints[|ints| - 1] else m
  }

  function MaxOf(ints: seq<nat>): int
  {
    if ints == [] then MIN_INT64
    else
      var m := MaxOf(ints[..|ints| - 1]);
      if ints[|ints| - 1] > m then ints[|ints| - 1] else m
  }

  function Width(min: int, max: int): (w: nat)
    ensures w == 2 || w == 4 || w == 8
  {
    if min >= -32768 && max <= 32767 then 2
    else if min >= -0x8000_0000 && max <= MAX_INT32 then 4
    else 8
  }

  function WidthOf(ints: seq<nat>): (w: nat)
    ensures w == 2 || w == 4 || w == 8
  {
    Width(MinOf(ints), MaxOf(ints))
  }

  /** No member is truncated at the chosen width. */
  lemma {:induction false} WidthFits(ints: seq<nat>, x: nat)
    requires x in ints && AllInt64(ints)
    ensures x <= MaxOf(ints) && 2 * x < Pow256(WidthOf(ints))
  {
    Pow256Values();
    MaxBounds(ints, x);
  }

  lemma {:induction false} MaxBounds(ints: seq<nat>, x: nat)
    requires x in ints
    ensures x <= MaxOf(ints)
  {
    if x != ints[|ints| - 1] {
      MaxBounds(ints[..|ints| - 1], x);
    }
  }

  // ----- sorting (sort.Slice)

  predicate Ascending(s: seq<nat>)
  {
    forall i, j :: 0 <= i < j < |s| ==> s[i] <= s[j]
  }

  function Insert(s: seq<nat>, x: nat): (r: seq<nat>)
    requires Ascending(s)
    ensures |r| == |s| + 1 && Ascending(r)
    ensures r[0] == if s == [] || x <= s[0] then x else s[0]
  {
    if s == [] then [x] else if x <= s[0] then [x] + s else [s[0]] + Insert(s[1..], x)
  }

  lemma {:induction false} InsertPermutes(s: seq<nat>, x: nat)
    requires Ascending(s)
    ensures multiset(Insert(s, x)) == multiset(s) + multiset{x}
  {
    if s != [] && x > s[0] {
      InsertPermutes(s[1..], x);
      assert s == [s[0]] + s[1..];
    }
  }

  function Sorted(ints: seq<nat>): (r: seq<nat>)
    ensures Ascending(r) && |r| == |ints|
  {
    if ints == [] then [] else Insert(Sorted(ints[..|ints| - 1]), ints[|ints| - 1])
  }

  lemma {:induction false} SortedPermutes(ints: seq<nat>)
    ensures multiset(Sorted(ints)) == multiset(ints)
  {
    if ints != [] {
      SortedPermutes(ints[..|ints| - 1]);
      InsertPermutes(Sorted(ints[..|ints| - 1]), ints[|ints| - 1]);
      assert ints == ints[..|ints| - 1] + [ints[|ints| - 1]];
    }
  }

  lemma SortedMember(ints: seq<nat>, x: nat)
    requires x in Sorted(ints)
    ensures x in ints
  {
    SortedPermutes(ints);
    assert x in multiset(Sorted(ints));
  }

  // ----- the intset buffer

  function EncInts(ints: seq<nat>, w: nat): seq<byte>
  {
    if ints == [] then [] else EncInts(ints[..|ints| - 1], w) + LE(ints[|ints| - 1], w)
  }

  lemma {:induction false} EncIntsSize(ints: seq<nat>, w: nat)
    ensures |EncInts(ints, w)| == |ints| * w
  {
    if ints != [] {
      EncIntsSize(ints[..|ints| - 1], w);
      assert (|ints| - 1) * w + w == |ints| * w;
    }
  }

  lemma {:induction false} EncIntsCons(x: nat, ints: seq<nat>, w: nat)
    ensures EncInts([x] + ints, w) == LE(x, w) + EncInts(ints, w)
  {
    hide LE;
    if ints == [] {
      assert ([x] + ints)[..0] == [];
    } else {
      var init := ints[..|ints| - 1];
      assert ([x] + ints)[..|ints|] == [x] + init;
      EncIntsCons(x, init, w);
    }
  }

  function EncIntSet(ints: seq<nat>): seq<byte>
  {
    var w := WidthOf(ints);
    LE(w, 4) + LE(|ints|, 4) + EncInts(Sorted(ints), w)
  }

  function PInts(s: seq<byte>, w: nat, n: nat): (r: Option<Values>)
    decreases n
  {
    if n == 0 then Some([])
    else
      match PBytes(s, w)
      case Bad => None
      case Got(bs, t) =>
        match PInts(t, w, n - 1)
        case None => None
        case Some(vs) => Some([IntText(Signed(UnLE(bs), Pow256(w)))] + vs)
  }

  /** readIntSet on its buffer; a buffer shorter than the header panics in the original. */
  function PIntSetBuf(buf: seq<byte>): Option<Values>
  {
    if |buf| < 8 then None
    else
      var w := UnLE(buf[..4]);
      if w != 2 && w != 4 && w != 8 then None else PInts(buf[8..], w, UnLE(buf[4..8]))
  }

  function PIntSet(s: seq<byte>): (p: Parsed<Values>)
    ensures p.Got? ==> |p.rest| < |s|
  {
    var (buf, t) :- PString(s);
    match PIntSetBuf(buf)
    case Some(vs) => Got(vs, t)
    case None => Bad
  }

  function Texts(ints: seq<nat>): (r: Values)
    ensures |r| == |ints|
  {
    seq(|ints|, i requires 0 <= i < |ints| => NatText(ints[i]))
  }

  lemma {:induction false} IntsRoundTrip(ints: seq<nat>, w: nat)
    requires forall i :: 0 <= i < |ints| ==> 2 * ints[i] < Pow256(w)
    ensures PInts(EncInts(ints, w), w, |ints|) == Some(Texts(ints))
  {
    hide LE, UnLE, NatText, Pow256;
    if ints == [] {
      assert Texts(ints) == [];
    } else {
      var x, rest := ints[0], ints[1..];
      assert ints == [x] + rest;
      EncIntsCons(x, rest, w);
      IntsRoundTrip(rest, w);
      PBytesOf(LE(x, w), EncInts(rest, w));
      SignedRoundTrip(x, w);
      assert Texts(ints) == [NatText(x)] + Texts(rest);
    }
  }

  /** An intset reads back as the members' texts in ascending numeric order. */
  lemma IntSetRoundTrip(ints: seq<nat>, compress: bool, t: seq<byte>)
    requires AllInt64(ints) && |ints| < TWO_32 && Writable(EncIntSet(ints), compress)
    ensures PIntSet(EncNanString(EncIntSet(ints), compress) + t) == Got(Texts(Sorted(ints)), t)
  {
    hide EncInts, Sorted, WidthOf, LE, UnLE, Texts, PString, EncNanString, NatText, PInts, Writable;
    var w := WidthOf(ints);
    var sorted := Sorted(ints);
    NanStringRoundTrip(EncIntSet(ints), compress, t);
    Pow256Values();
    UnsignedRoundTrip(w, 4);
    UnsignedRoundTrip(|ints|, 4);
    forall i | 0 <= i < |sorted| ensures 2 * sorted[i] < Pow256(w) {
      SortedMember(ints, sorted[i]);
      WidthFits(ints, sorted[i]);
    }
    IntsRoundTrip(sorted, w);
    var buf := EncIntSet(ints);
    assert buf[..4] == LE(w, 4) && buf[4..8] == LE(|ints|, 4) && buf[8..] == EncInts(sorted, w);
  }

  lemma {:induction false} IntsNumber(s: seq<byte>, w: nat, n: nat)
    ensures PInts(s, w, n).Some? ==> |PInts(s, w, n).value| == n
    decreases n
  {
    hide UnLE;
    if n > 0 && w <= |s| {
      IntsNumber(s[w..], w, n - 1);
    }
  }

  /** An intset reads back so exactly when the number of its members fits in the 32-bit count. */
  lemma IntSetRoundTripIff(ints: seq<nat>, compress: bool, t: seq<byte>)
    requires AllInt64(ints) && Writable(EncIntSet(ints), compress)
    ensures var p := PIntSet(EncNanString(EncIntSet(ints), compress) + t);
            (p.Got? ==> p.rest == t) && (p == Got(Texts(Sorted(ints)), t) <==> |ints| < TWO_32)
  {
    hide EncInts, Sorted, WidthOf, LE, UnLE, Texts, PString, EncNanString, PInts, Writable;
    NanStringRoundTrip(EncIntSet(ints), compress, t);
    if |ints| < TWO_32 {
      IntSetRoundTrip(ints, compress, t);
    } else {
      var buf := EncIntSet(ints);
      UnLEBound(buf[4..8]);
      Pow256Values();
      IntsNumber(buf[8..], UnLE(buf[..4]), UnLE(buf[4..8]));
    }
  }

  /** The members of a written set as the decoder returns them. */
  function ReadBack(values: Values): (r: Values)
  {
    match IntValues(values)
    case Some(ints) => Texts(Sorted(ints))
    case None => values
  }

  lemma {:induction false} TextsMultiset(ints: seq<nat>)
    ensures multiset(Texts(ints)) == if ints == [] then multiset{}
                                     else multiset(Texts(ints[..|ints| - 1])) + multiset{NatText(ints[|ints| - 1])}
  {
    hide NatText;
    if ints != [] {
      assert Texts(ints) == Texts(ints[..|ints| - 1]) + [NatText(ints[|ints| - 1])];
    }
  }

  lemma TextsCons(x: nat, s: seq<nat>)
    ensures Texts([x] + s) == [NatText(x)] + Texts(s)
    ensures Texts([]) == []
  {
    hide NatText;
  }

  lemma {:induction false} TextsInsert(s: seq<nat>, x: nat)
    requires Ascending(s)
    ensures multiset(Texts(Insert(s, x))) == multiset(Texts(s)) + multiset{NatText(x)}
  {
    hide NatText, Texts;
    TextsCons(x, s);
    if s == [] {
      assert [x] + [] == [x];
    } else if x > s[0] {
      TextsInsert(s[1..], x);
      TextsCons(s[0], Insert(s[1..], x));
      TextsCons(s[0], s[1..]);
      assert [s[0]] + s[1..] == s;
    }
  }

  lemma {:induction false} TextsSorted(ints: seq<nat>)
    ensures multiset(Texts(Sorted(ints))) == multiset(Texts(ints))
  {
    hide NatText;
    if ints == [] {
      assert Texts(ints) == [];
    } else {
      TextsSorted(ints[..|ints| - 1]);
      TextsInsert(Sorted(ints[..|ints| - 1]), ints[|ints| - 1]);
      TextsMultiset(ints);
    }
  }

  /** What comes back is a permutation of what was written, sorted by value for an intset. */
  lemma ReadBackPermutes(values: Values)
    ensures multiset(ReadBack(values)) == multiset(values)
    ensures IntValues(values).Some? ==>
              forall i, j :: 0 <= i < j < |values| ==> IntAt(ReadBack(values), i) <= IntAt(ReadBack(values), j)
  {
    match IntValues(values)
    case None =>
    case Some(ints) =>
      assert Texts(ints) == values;
      TextsSorted(ints);
      forall i | 0 <= i < |values| ensures IntAt(ReadBack(values), i) == Sorted(ints)[i] {
        NatTextCanonical(Sorted(ints)[i]);
      }
  }

  /** The numeric value of the i-th member. */
  function IntAt(values: Values, i: nat): nat
  {
    if i < |values| && AllDigits(values[i]) then TextNat(values[i]) else 0
  }

  // ----- members of either sign, which other writers store

  function SignedInts(ints: seq<int>, w: nat): seq<byte>
  {
    if ints == [] then [] else LE(ints[0], w) + SignedInts(ints[1..], w)
  }

  function Decimals(ints: seq<int>): (r: Values)
    ensures |r| == |ints|
  {
    seq(|ints|, i requires 0 <= i < |ints| => IntText(ints[i]))
  }

  lemma {:induction false} SignedIntsRead(ints: seq<int>, w: nat)
    requires forall i :: 0 <= i < |ints| ==> -2 * ints[i] <= Pow256(w) && 2 * ints[i] < Pow256(w)
    ensures PInts(SignedInts(ints, w), w, |ints|) == Some(Decimals(ints))
  {
    hide LE, UnLE, IntText, Pow256, PBytes;
    if ints == [] {
      assert Decimals(ints) == [];
    } else {
      PBytesOf(LE(ints[0], w), SignedInts(ints[1..], w));
      SignedRoundTrip(ints[0], w);
      SignedIntsRead(ints[1..], w);
      assert Decimals(ints) == [IntText(ints[0])] + Decimals(ints[1..]);
    }
  }

  /** An intset of any signed members at a width of 2, 4 or 8 bytes reads as their decimal texts, in order. */
  lemma SignedIntSetRead(ints: seq<int>, w: nat)
    requires || (w == 2 && forall i :: 0 <= i < |ints| ==> -0x8000 <= ints[i] < 0x8000)
             || (w == 4 && forall i :: 0 <= i < |ints| ==> -0x8000_0000 <= ints[i] < 0x8000_0000)
             || (w == 8 && forall i :: 0 <= i < |ints| ==>
                                        -0x8000_0000_0000_0000 <= ints[i] < 0x8000_0000_0000_0000)
    requires |ints| < 0x1_0000_0000
    ensures var r := PIntSetBuf(LE(w, 4) + LE(|ints|, 4) + SignedInts(ints, w));
            && r.Some? && |r.value| == |ints|
            && forall i :: 0 <= i < |ints| ==> r.value[i] == IntText(ints[i]) && IsDecimal(r.value[i], ints[i])
  {
    hide LE, UnLE, IntText, PInts, SignedInts, IsDecimal, Pow256;
    Pow256Values();
    UnsignedRoundTrip(w, 4);
    UnsignedRoundTrip(|ints|, 4);
    var buf := LE(w, 4) + LE(|ints|, 4) + SignedInts(ints, w);
    assert buf[..4] == LE(w, 4) && buf[4..8] == LE(|ints|, 4) && buf[8..] == SignedInts(ints, w);
    SignedIntsRead(ints, w);
    forall i | 0 <= i < |ints| ensures IsDecimal(IntText(ints[i]), ints[i]) {
      IntTextDecimal(ints[i]);
    }
  }
}
