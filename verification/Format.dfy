/** The format in literal bytes and numbers: which form is chosen where, and what is read of forms and versions
    that are not written. */
module Formats {
  import opened Bytes
  import opened Parsing
  import opened RdbString
  import opened ZipList
  import opened Lists
  import opened Sets
  import opened Hashes
  import opened Objects
  import opened DecoderModel
  import Lzf
  import ListPack

  // ----- byte order

  lemma LittleEndian(v: int)
    ensures LE(v, 2) == [v % 256, v / 256 % 256]
    ensures LE(v, 3) == [v % 256, v / 256 % 256, v / 256 / 256 % 256]
    ensures LE(v, 4) == [v % 256, v / 256 % 256, v / 256 / 256 % 256, v / 256 / 256 / 256 % 256]
  {
    var a, b, c := v / 256, v / 256 / 256, v / 256 / 256 / 256;
    assert LE(v, 2) == [v % 256] + ([a % 256] + LE(b, 0));
    assert LE(v, 3) == [v % 256] + ([a % 256] + ([b % 256] + LE(c, 0)));
    assert LE(v, 4) == [v % 256] + ([a % 256] + ([b % 256] + ([c % 256] + LE(c / 256, 0))));
  }

  lemma BigEndian(v: int)
    ensures BE(v, 4) == [v / 256 / 256 / 256 % 256, v / 256 / 256 % 256, v / 256 % 256, v % 256]
  {
    var a, b, c := v / 256, v / 256 / 256, v / 256 / 256 / 256;
    assert BE(v, 4) == (((BE(c / 256, 0) + [c % 256]) + [b % 256]) + [a % 256]) + [v % 256];
  }

  lemma {:induction false} LittleEndianHalves(v: int)
    ensures LE(v, 8) == LE(v, 4) + LE(v / 256 / 256 / 256 / 256, 4)
  {
    var a, b, c, d := v / 256, v / 256 / 256, v / 256 / 256 / 256, v / 256 / 256 / 256 / 256;
    LittleEndian(v);
    assert LE(v, 8) == [v % 256] + ([a % 256] + ([b % 256] + ([c % 256] + LE(d, 4))));
  }

  // ----- the shortest forms

  /** Lengths take 1, 2, 5 or 9 bytes. */
  lemma LengthForms(v: nat)
    requires v < 0x1_0000_0000_0000_0000
    ensures v <= 0x3f ==> EncLength(v) == [v]
    ensures 0x3f < v <= 0x3fff ==> EncLength(v) == [0x40 + v / 256, v % 256]
    ensures 0x3fff < v <= 0xffff_ffff ==> EncLength(v) == [0x80] + BE(v, 4) && |EncLength(v)| == 5
    ensures 0xffff_ffff < v ==> EncLength(v) == [0x81] + BE(v, 8) && |EncLength(v)| == 9
  {
  }

  /** Lengths are read in each form, the shortest or not, with the high byte first. */
  lemma LengthForms14(v: nat, t: seq<byte>)
    requires v <= 0x3fff
    ensures PLength([0x40 + v / 256, v % 256] + t) == Got(Length(v, false), t)
  {
    hide PWide;
    assert ([0x40 + v / 256, v % 256] + t)[1..][1..] == t;
  }

  lemma LengthForms64(v: nat, n: nat, t: seq<byte>)
    requires (n == 4 && v < 0x1_0000_0000) || (n == 8 && v < 0x1_0000_0000_0000_0000)
    ensures PLength([if n == 4 then 0x80 else 0x81] + (BE(v, n) + t)) == Got(Length(v, false), t)
  {
    hide PWide, BE;
    assert ([if n == 4 then 0x80 else 0x81] + (BE(v, n) + t))[1..] == BE(v, n) + t;
    WideRoundTrip(v, n, t);
  }

  /** A string that is the text of a number up to 2^31 - 1 takes 2, 3 or 5 bytes. */
  lemma IntForms(v: nat, compress: bool)
    requires v <= 0x7fff_ffff
    ensures Writable(NatText(v), compress) ==>
              EncString(NatText(v), compress) ==
              if v <= 0x7f then [0xc0, v] else if v <= 0x7fff then [0xc1] + LE(v, 2) else [0xc2] + LE(v, 4)
  {
    hide NatText;
    EncodableIff(NatText(v), 0x7fff_ffff);
    NatTextCanonical(v);
  }

  /** Any other is compressed if that is on, it is longer than 20 bytes and it gets shorter; and else follows its
      length. */
  lemma TextForms(s: seq<byte>, compress: bool)
    requires Writable(s, compress) && forall v: nat :: v <= 0x7fff_ffff ==> s != NatText(v)
    ensures EncString(s, compress) == EncNanString(s, compress)
    ensures if compress && |s| > 20 && Lzf.Compressed(s).Ok? then
              var c := Lzf.Compressed(s).bytes;
              |c| < |s| && EncNanString(s, compress) == [0xc3] + (EncLength(|c|) + (EncLength(|s|) + c))
            else EncNanString(s, compress) == EncLength(|s|) + s
  {
    hide NatText, EncLength, Lzf.Compressed;
    EncodableIff(s, 0x7fff_ffff);
    if compress && |s| > 20 && Lzf.Compressed(s).Ok? {
      Lzf.RoundTrip(s, |s|);
    }
  }

  /** At the default settings a list is a ziplist up to 512 values of up to 64 bytes. */
  lemma ListForm(values: Values)
    ensures UsesZipList(values, Unset) <==> |values| <= 512 && forall v :: v in values ==> |v| <= 64
  {
    if UsesZipList(values, Unset) {
      forall v | v in values ensures |v| <= 64 {
        var i :| 0 <= i < |values| && values[i] == v;
      }
    }
  }

  /** And a hash up to 512 fields with values of up to 64 bytes, whatever the field names. */
  lemma HashForm(order: Values, m: Fields)
    requires Enumerates(order, m.Keys) && InMap(order, m)
    ensures UsesZipHash(order, m, Unset) <==> |m| <= 512 && forall f :: f in m ==> |m[f]| <= 64
  {
    if UsesZipHash(order, m, Unset) {
      forall f | f in m ensures |m[f]| <= 64 {
        assert f in order;
        var i :| 0 <= i < |order| && order[i] == f;
      }
    }
    if forall f :: f in m ==> |m[f]| <= 64 {
      assert forall i :: 0 <= i < |order| ==> order[i] in m;
    }
  }

  /** With other settings the bounds are those set, and 0 stands for the default. */
  lemma SetBounds(maxValue: int, maxEntries: int)
    ensures ZipListOpt(maxValue, maxEntries).MaxValue() == if maxValue == 0 then 64 else maxValue
    ensures ZipListOpt(maxValue, maxEntries).MaxEntries() == if maxEntries == 0 then 512 else maxEntries
  {
  }

  /** Pages of a quicklist: each but the last reaches 4096 bytes, and with its last value only. */
  lemma PageBounds(values: Values)
    ensures Concat(Pages(values)) == values
    ensures forall i :: 0 <= i < |Pages(values)| ==>
              var p := Pages(values)[i];
              p != [] && TotalSize(p[..|p| - 1]) < 4096 && (i < |Pages(values)| - 1 ==> TotalSize(p) >= 4096)
  {
    hide PagesFrom, Concat;
    PagesShape(values, [], 0);
    assert [] + values == values;
    forall i | 0 <= i < |Pages(values)| ensures Pages(values)[i] in Pages(values) {
    }
  }

  /** Ziplist entries: integers up to 2^63 - 1 in 1, 2, 4, 5 or 9 bytes, texts behind 1 or 2 up to 16383 bytes. */
  lemma EntryForms(v: nat, prevLen: nat)
    requires v <= 0x7fff_ffff_ffff_ffff
    ensures |NatText(v)| < TWO_32 ==>
              EncEntry(prevLen, NatText(v)) ==
              (if prevLen < 0xfe then [prevLen] else [0xfe] + LE(prevLen, 4)) +
              (if v <= 12 then [0xf1 + v] else if v <= 0x7f then [0xfe, v] else if v <= 0x7f_ffff then [0xf0] + LE(v, 3)
               else if v <= 0x7fff_ffff then [0xd0] + LE(v, 4) else [0xe0] + LE(v, 8))
  {
    hide NatText, LE;
    EncodableIff(NatText(v), 0x7fff_ffff_ffff_ffff);
    NatTextCanonical(v);
  }

  lemma EntryTextForms(val: seq<byte>, prevLen: nat)
    requires |val| < TWO_32 && forall v: nat :: v <= 0x7fff_ffff_ffff_ffff ==> val != NatText(v)
    ensures EncEntry(prevLen, val) ==
            (if prevLen < 0xfe then [prevLen] else [0xfe] + LE(prevLen, 4)) +
            ((if |val| <= 0x3f then [|val|] else if |val| <= 0x3fff then [0x40 + |val| / 256, |val| % 256]
              else [0x80] + (LE(|val|, 4) + [0, 0, 0, 0])) + val)
  {
    hide NatText, LE;
    EncodableIff(val, 0x7fff_ffff_ffff_ffff);
  }

  /** What a ziplist keeps, in numbers. */
  lemma ZipOkMeans(val: seq<byte>)
    ensures ZipOk(val) <==> |val| <= 16383 || exists v: nat :: v <= 0x7fff_ffff_ffff_ffff && val == NatText(v)
  {
    hide NatText;
    EncodableIff(val, 0x7fff_ffff_ffff_ffff);
  }

  lemma {:induction false} MaxAttained(ints: seq<nat>)
    ensures ints != [] ==> exists x :: x in ints && x == MaxOf(ints)
    ensures ints == [] ==> MaxOf(ints) < 0
    ensures MinOf(ints) >= 0
  {
    if ints != [] {
      var init, last := ints[..|ints| - 1], ints[|ints| - 1];
      MaxAttained(init);
      assert last in ints;
      if init != [] {
        var x :| x in init && x == MaxOf(init);
        assert x in ints;
      }
    }
  }

  /** An intset takes the narrowest of 2, 4 and 8 bytes that holds all its members. */
  lemma NarrowestWidth(ints: seq<nat>)
    requires AllInt64(ints)
    ensures WidthOf(ints) == if forall x :: x in ints ==> x <= 0x7fff then 2
                             else if forall x :: x in ints ==> x <= 0x7fff_ffff then 4 else 8
  {
    hide MinOf, MaxOf;
    MaxAttained(ints);
    forall x | x in ints ensures x <= MaxOf(ints) {
      MaxBounds(ints, x);
    }
  }

  /** The expirations a Redis hash keeps, in numbers, and the base its reader rejects. */
  lemma ExpiresMean(m: Fields, e: Expires)
    ensures ExpiresOk(m, e) <==>
              && (forall f :: f in m ==> ExpireOf(e, f) <= 0xffff_ffff_ffff)
              && ((exists f :: f in m && ExpireOf(e, f) == -1) ==> exists f :: f in e && 0 < e[f] <= 0xffff_ffff_ffff)
  {
  }

  lemma BaseRejected(base: int, t: seq<byte>)
    requires 0x1_0000_0000_0000 < base < 0x8000_0000_0000_0000
    ensures PHashEx(LE(base, 8) + t, false) == Bad
  {
    hide LE, PInt64, PExBody;
    Int64RoundTrip(base, t);
  }

  /** A stored expiration, read: 0 is none, others count from the base, one less; 48 bits at most. */
  lemma RelativeRead(ttl: nat, base: int)
    requires ttl < 0x8000_0000_0000_0000 && 0 <= base <= 0x1_0000_0000_0000
    requires ttl + base - 1 < 0x8000_0000_0000_0000
    ensures DecRelative(ttl, base) ==
            if ttl == 0 then Some(0)
            else if ttl + base - 1 <= 0xffff_ffff_ffff then Some(ttl + base - 1) else None
  {
  }

  /** Listpack entries as written: integers by size, and texts behind 1, 2 or 5 bytes. */
  lemma ListPackIntForms(v: int)
    requires -0x8000_0000_0000_0000 <= v < 0x8000_0000_0000_0000
    ensures ListPack.EncLpInt(v) ==
            if -127 <= v <= 127 then [v % 256]
            else if -8191 <= v <= 8191 then [0xc0 + (if v < 0 then 8192 + v else v) / 256,
                                               (if v < 0 then 8192 + v else v) % 256]
            else if -32767 <= v <= 32767 then [0xf1] + LE(v, 2)
            else if -8388607 <= v <= 8388607 then [0xf2] + LE(v, 3)
            else if -2147483647 <= v <= 2147483647 then [0xf3] + LE(v, 4)
            else [0xf4] + LE(v, 8)
  {
    hide LE;
  }

  lemma ListPackTextForms(text: seq<byte>)
    requires |text| + 5 < 0x1_0000_0000
    ensures ListPack.EncLpString(text) ==
            if |text| <= 63 then [0x80 + |text|] + text
            else if |text| < 4096 then [0xe0 + |text| / 256, |text| % 256] + text
            else [0xf0] + (LE(|text|, 4) + text)
  {
    hide LE;
  }

  // ----- versions

  function Digits(v: nat, n: nat): seq<byte>
    decreases n
  {
    if n == 0 then [] else Digits(v / 10, n - 1) + [48 + v % 10]
  }

  function Ten(n: nat): nat
  {
    if n == 0 then 1 else 10 * Ten(n - 1)
  }

  lemma {:induction false} DigitsRead(v: nat, n: nat)
    requires v < Ten(n)
    ensures |Digits(v, n)| == n && AllDigits(Digits(v, n)) && TextNat(Digits(v, n)) == v
  {
    if n > 0 {
      DigitsRead(v / 10, n - 1);
      assert Digits(v, n)[..n - 1] == Digits(v / 10, n - 1);
    }
  }

  /** Of the files that begin with REDIS and four digits exactly versions 1 to 12 are read, and of those that begin
      with VALKEY and three digits exactly version 80. */
  lemma Versions(v: nat, t: seq<byte>)
    ensures v < 10000 ==> PHeader([82, 69, 68, 73, 83] + Digits(v, 4) + t) ==
                          if 1 <= v <= 12 then Got(Redis(v), t) else Bad
    ensures v < 1000 ==> PHeader([86, 65, 76, 75, 69, 89] + Digits(v, 3) + t) ==
                         if v == 80 then Got(Valkey(v), t) else Bad
  {
    assert Ten(3) == 1000 && Ten(4) == 10000 by {
      assert Ten(1) == 10 * Ten(0) && Ten(2) == 10 * Ten(1) && Ten(3) == 10 * Ten(2);
    }
    if v < 10000 {
      DigitsRead(v, 4);
      VersionRead([82, 69, 68, 73, 83], Digits(v, 4), v, t);
    }
    if v < 1000 {
      DigitsRead(v, 3);
      VersionRead([86, 65, 76, 75, 69, 89], Digits(v, 3), v, t);
    }
  }

  lemma VersionRead(name: seq<byte>, digits: seq<byte>, v: nat, t: seq<byte>)
    requires name == [82, 69, 68, 73, 83] || name == [86, 65, 76, 75, 69, 89]
    requires |name + digits| == 9 && digits != [] && AllDigits(digits) && TextNat(digits) == v
    ensures PHeader(name + digits + t) ==
            if name[0] == 82 then if 1 <= v <= 12 then Got(Redis(v), t) else Bad
            else if v == 80 then Got(Valkey(v), t) else Bad
  {
    hide TextNat, PBytes;
    var h := name + digits;
    PBytesOf(h, t);
    assert h[|name|..] == digits && IsDigit(digits[0]) && h[0] == name[0];
    assert REDIS <= h <==> name[0] == 82 by {
      if name[0] == 82 {
        assert h[..5] == REDIS;
      }
    }
    assert name[0] != 82 ==> h[..6] == VALKEY;
  }

  /** Any other beginning is refused. */
  lemma OtherHeader(s: seq<byte>)
    requires !([82, 69, 68, 73, 83] <= s) && !([86, 65, 76, 75, 69, 89] <= s)
    ensures PHeader(s) == Bad
  {
    if |s| >= 9 {
      PrefixOfTake(REDIS, s, 9);
      PrefixOfTake(VALKEY, s, 9);
    }
  }

  lemma PrefixOfTake(p: seq<byte>, s: seq<byte>, n: nat)
    requires n <= |s|
    ensures p <= s[..n] ==> p <= s
  {
  }

  // ----- an object that is only read

  /** A hash of the release candidates, for Redis and not for Valkey. */
  lemma RcHashObject(order: Values, m: Fields, e: Expires, compress: bool, t: seq<byte>)
    requires Enumerates(order, m.Keys) && |m| < TWO_63
    requires PairsWritable(order, m, compress) && forall f :: f in m ==> IsInt64(ExpireOf(e, f))
    ensures PObject(22, EncLength(|m|) + (RcPairs(order, m, e, compress) + t), false) ==
            if m != map[] && forall f :: f in m ==> ExpireOf(e, f) <= 0xffff_ffff_ffff
            then Got(HashV(m, Delivered(m, e)), t) else Bad
  {
    hide PHashEx, EncLength, RcPairs, PairsWritable, ExpireOf, Delivered, IsInt64;
    RcHashRead(order, m, e, compress, t);
  }
}
