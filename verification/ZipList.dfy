/**
 Ziplists: entries chained by a back link holding the previous entry's length, behind a ten-byte
 header with the total size, the start of the last entry and a 16-bit count.
 */
module ZipList {
  import opened Bytes
  import opened Parsing
  import opened RdbString

  const BIG_PREV_LEN := 0xfe
  const MAX_ENTRIES := 65535
  const MAX_STRING := 16383

  // ----- entries

  function EncPrevLen(n: nat): (s: seq<byte>)
    ensures |s| == if n < BIG_PREV_LEN then 1 else 5
  {
    if n < BIG_PREV_LEN then [n] else [BIG_PREV_LEN] + LE(n, 4)
  }

  function EncIntEntry(v: nat): (s: seq<byte>)
    requires v <= MAX_INT64
    ensures 1 <= |s| <= 9
  {
    if v <= 12 then [0xf1 + v]
    else if v <= 127 then [0xfe, v]
    else if v <= 8388607 then [0xf0] + LE(v, 3)
    else if v <= MAX_INT32 then [0xd0] + LE(v, 4)
    else [0xe0] + LE(v, 8)
  }

  function EncStrHeader(n: nat): (s: seq<byte>)
    requires n < TWO_32
    ensures 1 <= |s| <= 9 && (n <= MAX_STRING ==> |s| <= 2)
  {
    if n <= 63 then [n]
    else if n <= MAX_STRING then [64 + n / 256, n % 256]
    else [0x80] + (LE(n, 4) + [0, 0, 0, 0])
  }

  function EncContent(val: seq<byte>): (s: seq<byte>)
    requires |val| < TWO_32
    ensures |s| >= 1
  {
    match EncodableInt(val, MAX_INT64)
    case Some(v) => EncIntEntry(v)
    case None => EncStrHeader(|val|) + val
  }

  /** encodeZipListEntry */
  function EncEntry(prevLen: nat, val: seq<byte>): (s: seq<byte>)
    requires |val| < TWO_32
    ensures |s| >= 2
  {
    EncPrevLen(prevLen) + EncContent(val)
  }

  function PSmallInt(h: byte, s: seq<byte>): (p: Parsed<seq<byte>>)
    ensures p.Got? ==> |p.rest| <= |s|
  {
    if h == 0xfe then PIntText(s, 1)
    else if h == 0xc0 then PIntText(s, 2)
    else if h == 0xd0 then PIntText(s, 4)
    else if h == 0xe0 then PIntText(s, 8)
    else if h == 0xf0 then PIntText(s, 3)
    else if h / 16 == 15 then Got(IntText(h % 16 - 1), s)
    else Bad
  }

  function PContent(s: seq<byte>): (p: Parsed<seq<byte>>)
    ensures p.Got? ==> |p.rest| < |s|
  {
    var (h, t) :- PByte(s);
    if h < 64 then PBytes(t, h)
    else if h < 128 then
      var (b, u) :- PByte(t);
      PBytes(u, (h as int - 64) * 256 + b)
    else if h < 192 then
      var (bs, u) :- PBytes(t, 4);
      PBytes(u, UnBE(bs))
    else PSmallInt(h, t)
  }

  function PPrevLen(s: seq<byte>): (p: Parsed<nat>)
    ensures p.Got? ==> |p.rest| < |s|
  {
    var (b, t) :- PByte(s);
    if b != BIG_PREV_LEN then Got(b, t)
    else
      var (bs, u) :- PBytes(t, 4);
      Got(UnLE(bs), u)
  }

  /** readZipListEntry; reads past the buffer, which panic in the original, are failures. */
  function PEntry(s: seq<byte>): (p: Parsed<seq<byte>>)
    ensures p.Got? ==> |p.rest| < |s|
  {
    var (_, t) :- PPrevLen(s);
    PContent(t)
  }

  /** The values that survive: integers and strings short enough for the 6- and 14-bit headers. */
  predicate ZipOk(val: seq<byte>)
  {
    EncodableInt(val, MAX_INT64).Some? || |val| <= MAX_STRING
  }

  lemma PrevLenRoundTrip(n: nat, t: seq<byte>)
    requires n < TWO_32
    ensures PPrevLen(EncPrevLen(n) + t) == Got(n, t)
  {
    Pow256Values();
    hide LE, UnLE;
    if n < BIG_PREV_LEN {
      PByteOf(n, t);
    } else {
      UnsignedRoundTrip(n, 4);
      Assoc([BIG_PREV_LEN], LE(n, 4), t);
      PByteOf(BIG_PREV_LEN, LE(n, 4) + t);
      PBytesOf(LE(n, 4), t);
    }
  }

  lemma PrevLenSkips(n: nat, t: seq<byte>)
    ensures PPrevLen(EncPrevLen(n) + t).Got? && PPrevLen(EncPrevLen(n) + t).rest == t
  {
    hide LE, UnLE;
    if n < BIG_PREV_LEN {
      PByteOf(n, t);
    } else {
      Assoc([BIG_PREV_LEN], LE(n, 4), t);
      PByteOf(BIG_PREV_LEN, LE(n, 4) + t);
      PBytesOf(LE(n, 4), t);
    }
  }

  lemma TaggedInt(h: byte, v: nat, n: nat, t: seq<byte>)
    requires (h == 0xf0 && n == 3) || (h == 0xd0 && n == 4) || (h == 0xe0 && n == 8)
    requires 2 * v < Pow256(n)
    ensures PContent([h] + LE(v, n) + t) == Got(NatText(v), t)
  {
    hide LE, UnLE, PIntText, NatText;
    Assoc([h], LE(v, n), t);
    PByteOf(h, LE(v, n) + t);
    IntTextRoundTrip(v, n, t);
  }

  lemma IntEntryRoundTrip(v: nat, t: seq<byte>)
    requires v <= MAX_INT64
    ensures PContent(EncIntEntry(v) + t) == Got(NatText(v), t)
  {
    Pow256Values();
    assert LE(v, 1) == [v % 256] + LE(v / 256, 0);
    hide LE, UnLE, PIntText, NatText;
    var s := EncIntEntry(v) + t;
    if v <= 12 {
      PByteOf(0xf1 + v, t);
      assert (0xf1 + v) / 16 == 15 && (0xf1 + v) % 16 - 1 == v;
    } else if v <= 127 {
      assert s == [0xfe] + (LE(v, 1) + t);
      PByteOf(0xfe, LE(v, 1) + t);
      IntTextRoundTrip(v, 1, t);
    } else if v <= 8388607 {
      TaggedInt(0xf0, v, 3, t);
    } else if v <= MAX_INT32 {
      TaggedInt(0xd0, v, 4, t);
    } else {
      TaggedInt(0xe0, v, 8, t);
    }
  }

  lemma StrEntryRoundTrip(val: seq<byte>, t: seq<byte>)
    requires |val| <= MAX_STRING
    ensures PContent(EncStrHeader(|val|) + val + t) == Got(val, t)
  {
    hide PSmallInt, LE, UnBE;
    var s := EncStrHeader(|val|) + val + t;
    PBytesOf(val, t);
    if |val| <= 63 {
      assert s[1..] == val + t;
    } else {
      assert s[1..][1..] == val + t;
      assert s[0] as int - 64 == |val| / 256;
    }
  }

  /** Zeros only, in a number whose four length bytes read the same from both ends. */
  predicate ZeroRun(val: seq<byte>)
  {
    LE(|val|, 4) == BE(|val|, 4) && forall i :: 0 <= i < |val| ==> val[i] == 0
  }

  const FOUR_ZEROS: seq<byte> := [0, 0, 0, 0]

  /** In the long-string branch the writer puts eight length bytes, low first, where the reader takes
      four, high first: it reads another length, and from four bytes too early. */
  lemma LongStrRead(val: seq<byte>, t: seq<byte>)
    requires MAX_STRING < |val| < TWO_32
    ensures PContent(EncStrHeader(|val|) + val + t) == PBytes(FOUR_ZEROS + (val + t), UnBE(LE(|val|, 4)))
  {
    hide PSmallInt, LE, UnBE, PByte;
    var n := LE(|val|, 4);
    var u := FOUR_ZEROS + (val + t);
    LongParts(n, val, t);
    PByteOf(0x80, n + u);
    PBytesOf(n, u);
  }

  lemma LongParts(n: seq<byte>, val: seq<byte>, t: seq<byte>)
    ensures ([0x80] + (n + FOUR_ZEROS)) + val + t == [0x80] + (n + (FOUR_ZEROS + (val + t)))
  {
  }

  /** A text that starts with four zeros and then repeats itself is all zeros. */
  lemma {:induction false} ZerosEcho(val: seq<byte>, t: seq<byte>, i: nat)
    requires i < |val| && (FOUR_ZEROS + (val + t))[..|val|] == val
    ensures val[i] == 0
    decreases i
  {
    assert val[i] == (FOUR_ZEROS + (val + t))[..|val|][i];
    if i >= 4 {
      ZerosEcho(val, t, i - 4);
    }
  }

  lemma ZerosShift(val: seq<byte>, t: seq<byte>)
    requires |val| >= 4 && forall i :: 0 <= i < |val| ==> val[i] == 0
    ensures PBytes(FOUR_ZEROS + (val + t), |val|) == Got(val, FOUR_ZEROS + t)
  {
    var u := FOUR_ZEROS + (val + t);
    assert u == val + (FOUR_ZEROS + t);
    PBytesOf(val, FOUR_ZEROS + t);
  }

  lemma LengthMirrored(n: nat)
    requires n < TWO_32
    ensures UnBE(LE(n, 4)) == n <==> LE(n, 4) == BE(n, 4)
  {
    hide LE, BE, UnBE;
    Pow256Values();
    UnsignedRoundTrip(n, 4);
    BEUnBE(LE(n, 4));
  }

  /** A longer string still reads as itself exactly when it is a zero run; reading then stops four bytes
      early. */
  lemma LongStrIff(val: seq<byte>, t: seq<byte>)
    requires MAX_STRING < |val| < TWO_32
    ensures var p := PContent(EncStrHeader(|val|) + val + t);
            && (ZeroRun(val) ==> p == Got(val, FOUR_ZEROS + t))
            && (!ZeroRun(val) ==> p.Got? ==> p.value != val)
  {
    hide LE, BE, UnBE, EncStrHeader, PContent;
    LongStrRead(val, t);
    LengthMirrored(|val|);
    var u := FOUR_ZEROS + (val + t);
    if ZeroRun(val) {
      ZerosShift(val, t);
    } else if UnBE(LE(|val|, 4)) == |val| && u[..|val|] == val {
      forall i | 0 <= i < |val| ensures val[i] == 0 {
        ZerosEcho(val, t, i);
      }
      assert false;
    }
  }

  /** No longer string both reads as itself and stops at its end. */
  lemma LongStrEntry(val: seq<byte>, t: seq<byte>)
    requires MAX_STRING < |val| < TWO_32
    ensures PContent(EncStrHeader(|val|) + val + t) != Got(val, t)
  {
    hide PContent, EncStrHeader, ZeroRun;
    LongStrIff(val, t);
    assert |FOUR_ZEROS + t| != |t|;
  }

  /** An entry reads back as itself, and reading stops at its end, exactly when its value is an
      integer or at most 16383 bytes long. */
  lemma EntryRoundTripIff(prevLen: nat, val: seq<byte>, t: seq<byte>)
    requires |val| < TWO_32
    ensures PEntry(EncEntry(prevLen, val) + t) == Got(val, t) <==> ZipOk(val)
  {
    hide PContent, EncIntEntry, EncStrHeader, EncPrevLen, PPrevLen;
    var content := EncContent(val);
    Assoc(EncPrevLen(prevLen), content, t);
    PrevLenSkips(prevLen, content + t);
    match EncodableInt(val, MAX_INT64)
    case Some(v) => IntEntryRoundTrip(v, t);
    case None =>
      if |val| <= MAX_STRING {
        StrEntryRoundTrip(val, t);
      } else {
        LongStrEntry(val, t);
      }
  }

  // ----- whole lists

  predicate AllShort(values: seq<seq<byte>>)
  {
    forall i :: 0 <= i < |values| ==> |values[i]| < TWO_32
  }

  predicate AllZipOk(values: seq<seq<byte>>)
  {
    AllShort(values) && forall i :: 0 <= i < |values| ==> ZipOk(values[i])
  }

  /** The chained entries, the first of which follows an entry of prevLen bytes. */
  function Body(values: seq<seq<byte>>, prevLen: nat): seq<byte>
    requires AllShort(values)
  {
    if values == [] then []
    else
      var e := EncEntry(prevLen, values[0]);
      e + Body(values[1..], |e| % TWO_32)
  }

  /** The offset at which each entry starts. */
  function Starts(values: seq<seq<byte>>, prevLen: nat, at: nat): (r: seq<nat>)
    requires AllShort(values)
    ensures |r| == |values|
  {
    if values == [] then []
    else
      var n := |EncEntry(prevLen, values[0])|;
      [at] + Starts(values[1..], n % TWO_32, at + n)
  }

  function TailOffset(values: seq<seq<byte>>): nat
    requires AllShort(values)
  {
    if values == [] then 10 else Starts(values, 0, 10)[|values| - 1]
  }

  function ListHeader(values: seq<seq<byte>>): (h: seq<byte>)
    requires AllShort(values)
    ensures |h| == 10
  {
    LE(11 + |Body(values, 0)|, 4) + LE(TailOffset(values), 4) + LE(|values|, 2)
  }

  /** The buffer built by writeZipList. */
  function EncZipList(values: seq<seq<byte>>): (s: seq<byte>)
    requires AllShort(values)
    ensures |s| == 11 + |Body(values, 0)|
  {
    ListHeader(values) + (Body(values, 0) + [0xff])
  }

  function PEntries(s: seq<byte>, n: nat): (p: Parsed<seq<seq<byte>>>)
    ensures p.Got? ==> |p.rest| <= |s| && |p.value| == n
    decreases n
  {
    if n == 0 then Got([], s)
    else
      var (v, t) :- PEntry(s);
      var (vs, u) :- PEntries(t, n - 1);
      Got([v] + vs, u)
  }

  /** The entries of a ziplist buffer, by the count in its header. */
  function PZipListBuf(buf: seq<byte>): Option<seq<seq<byte>>>
  {
    if |buf| < 10 then None
    else
      match PEntries(buf[10..], UnLE(buf[8..10]))
      case Got(vs, _) => Some(vs)
      case Bad => None
  }

  /** readZipList */
  function PZipList(s: seq<byte>): (p: Parsed<seq<seq<byte>>>)
    ensures p.Got? ==> |p.rest| < |s|
  {
    var (buf, t) :- PString(s);
    match PZipListBuf(buf)
    case Some(vs) => Got(vs, t)
    case None => Bad
  }

  lemma {:induction false} EntriesRoundTrip(values: seq<seq<byte>>, prevLen: nat, n: nat, t: seq<byte>)
    requires AllZipOk(values) && n <= |values|
    ensures PEntries(Body(values, prevLen) + t, n).Got?
    ensures PEntries(Body(values, prevLen) + t, n).value == values[..n]
    decreases n
  {
    hide PEntry, EncEntry, ZipOk;
    if n > 0 {
      var e := EncEntry(prevLen, values[0]);
      var rest := Body(values[1..], |e| % TWO_32);
      EntriesRoundTrip(values[1..], |e| % TWO_32, n - 1, t);
      Assoc(e, rest, t);
      EntryRoundTripIff(prevLen, values[0], rest + t);
    }
  }

  lemma HeaderFields(values: seq<seq<byte>>)
    requires AllShort(values)
    ensures var buf := EncZipList(values);
            && buf[..4] == LE(|buf|, 4) && buf[4..8] == LE(TailOffset(values), 4)
            && buf[8..10] == LE(|values|, 2) && buf[10..] == Body(values, 0) + [0xff]
  {
    hide LE, Body, TailOffset;
  }

  /** The part of the header the reader uses. */
  lemma ReaderHeader(values: seq<seq<byte>>)
    requires AllShort(values)
    ensures var buf := EncZipList(values);
            |buf| >= 10 && UnLE(buf[8..10]) == |values| % 65536 && buf[10..] == Body(values, 0) + [0xff]
  {
    hide LE, UnLE, Body, EncZipList;
    HeaderFields(values);
    CountField(|values|);
  }

  /** What a 16-bit count leaves of a list. */
  function Counted(values: seq<seq<byte>>): seq<seq<byte>>
  {
    values[..|values| % 65536]
  }

  /** The 16-bit count is the only thing that can lose entries: reading back yields the first
      |values| % 65536 of them. */
  lemma BufRoundTrip(values: seq<seq<byte>>)
    requires AllZipOk(values)
    ensures PZipListBuf(EncZipList(values)) == Some(Counted(values))
  {
    hide EncZipList, LE, UnLE, Body, PEntries, ZipOk, AllShort;
    ReaderHeader(values);
    EntriesRoundTrip(values, 0, |values| % 65536, [0xff]);
  }

  lemma CountField(n: nat)
    ensures UnLE(LE(n, 2)) == n % 65536
  {
    hide LE, UnLE, Pow256;
    Pow256Values();
    var q := LEResidue(n, 2);
    assert n == UnLE(LE(n, 2)) + q * 65536;
  }

  // ----- exactly which lists come back

  predicate AllEmpty(values: seq<seq<byte>>)
  {
    forall i :: 0 <= i < |values| ==> values[i] == []
  }

  /** Every value is an integer, or at most 16383 bytes long, or a zero run with nothing but empty
      strings behind it. */
  predicate ListOk(values: seq<seq<byte>>)
  {
    forall i :: 0 <= i < |values| ==> ZipOk(values[i]) || (ZeroRun(values[i]) && AllEmpty(values[i + 1..]))
  }

  lemma ListOkStep(values: seq<seq<byte>>)
    requires values != []
    ensures ListOk(values) <==>
            if ZipOk(values[0]) then ListOk(values[1..]) else ZeroRun(values[0]) && AllEmpty(values[1..])
  {
    hide ZipOk, ZeroRun;
    forall i | 0 < i < |values| ensures values[1..][i - 1] == values[i] && values[1..][i..] == values[i + 1..] {
    }
    if AllEmpty(values[1..]) {
      forall i | 0 < i < |values| ensures ZipOk(values[i]) {
        assert values[1..][i - 1] == [];
        EmptyOk();
      }
    }
    if ListOk(values) {
      forall i | 0 <= i < |values| - 1
        ensures ZipOk(values[1..][i]) || (ZeroRun(values[1..][i]) && AllEmpty(values[1..][i + 1..]))
      {
        assert values[1..][i] == values[i + 1];
      }
    }
  }

  lemma EmptyOk()
    ensures ZipOk([])
  {
  }

  lemma AllEmptyOk(values: seq<seq<byte>>)
    requires AllEmpty(values)
    ensures AllZipOk(values)
  {
  }

  /** Two zero bytes read as an empty entry. */
  lemma ZerosRead(t: seq<byte>)
    ensures PEntry([0, 0] + t) == Got([], t)
  {
    var s: seq<byte> := [0, 0] + t;
    assert s[1..][1..] == t;
    PBytesOf([], t);
    assert [] + t == t;
  }

  lemma FourZerosRead(t: seq<byte>, n: nat)
    ensures var p := PEntries(FOUR_ZEROS + t, n);
            && (n == 0 ==> p.Got? && p.value == [])
            && (n == 1 ==> p.Got? && p.value == [[]])
            && (n >= 2 ==> var q := PEntries(t, n - 2);
                           if q.Got? then p.Got? && p.value == [[], []] + q.value else p == Bad)
  {
    hide PEntry;
    assert FOUR_ZEROS + t == [0, 0] + ([0, 0] + t);
    ZerosRead([0, 0] + t);
    ZerosRead(t);
    if n >= 2 {
      assert PEntries([0, 0] + t, n - 1) ==
             if PEntries(t, n - 2).Got? then Got([[]] + PEntries(t, n - 2).value, PEntries(t, n - 2).rest) else Bad;
      if PEntries(t, n - 2).Got? {
        assert [[]] + ([[]] + PEntries(t, n - 2).value) == [[], []] + PEntries(t, n - 2).value;
      }
    }
  }

  /** Reading two entries behind gives the list back only if it is empty strings throughout: each entry
      must equal the one two before it. */
  lemma {:induction false} TwoBehind(values: seq<seq<byte>>, prevLen: nat, t: seq<byte>)
    requires AllShort(values) && |values| >= 2 && values[0] == [] && values[1] == []
    requires var p := PEntries(Body(values, prevLen) + t, |values| - 2); p.Got? && p.value == values[2..]
    ensures AllEmpty(values)
    decreases |values|
  {
    hide PEntry, EncEntry, ZipOk;
    if |values| > 2 {
      var e := EncEntry(prevLen, []);
      var rest := Body(values[1..], |e| % TWO_32);
      Assoc(e, rest, t);
      EmptyOk();
      EntryRoundTripIff(prevLen, [], rest + t);
      var p := PEntries(Body(values, prevLen) + t, |values| - 2);
      var q := PEntries(rest + t, |values| - 3);
      assert q.Got? && p.value == [[]] + q.value;
      assert values[2] == values[2..][0] == [];
      assert q.value == p.value[1..] == values[2..][1..] == values[1..][2..];
      TwoBehind(values[1..], |e| % TWO_32, t);
      forall i | 0 <= i < |values| ensures values[i] == [] {
        if i > 0 {
          assert values[i] == values[1..][i - 1];
        }
      }
    }
  }

  /** Behind a zero run, what is read is the list exactly when all of it is empty strings. */
  lemma AfterRunIff(values: seq<seq<byte>>, prevLen: nat, t: seq<byte>)
    requires AllShort(values)
    ensures var p := PEntries(FOUR_ZEROS + (Body(values, prevLen) + t), |values|);
            (p.Got? && p.value == values) <==> AllEmpty(values)
  {
    hide PEntry, EncEntry, ZipOk, PEntries, Body;
    var s, n := Body(values, prevLen) + t, |values|;
    FourZerosRead(s, n);
    if n >= 2 {
      if AllEmpty(values) {
        AllEmptyOk(values);
        EntriesRoundTrip(values, prevLen, n - 2, t);
        assert [[], []] + values[..n - 2] == values;
      } else {
        var p := PEntries(FOUR_ZEROS + s, n);
        if p.Got? && p.value == values {
          assert values[0] == ([[], []] + PEntries(s, n - 2).value)[0];
          assert values[2..] == PEntries(s, n - 2).value;
          TwoBehind(values, prevLen, t);
        }
      }
    } else if n == 1 {
      assert values == [values[0]];
    }
  }

  lemma {:induction false} EntriesIff(values: seq<seq<byte>>, prevLen: nat, t: seq<byte>)
    requires AllShort(values)
    ensures var p := PEntries(Body(values, prevLen) + t, |values|); (p.Got? && p.value == values) <==> ListOk(values)
    decreases |values|
  {
    hide PEntry, EncEntry, ZipOk, ListOk, AllEmpty, ZeroRun;
    if values == [] {
      NothingOk();
    } else {
      var e := EncEntry(prevLen, values[0]);
      var rest := Body(values[1..], |e| % TWO_32);
      Assoc(e, rest, t);
      ListOkStep(values);
      FirstRead(prevLen, values[0], rest + t);
      assert values == [values[0]] + values[1..];
      if ZipOk(values[0]) {
        EntriesIff(values[1..], |e| % TWO_32, t);
      } else {
        AfterRunIff(values[1..], |e| % TWO_32, t);
      }
    }
  }

  lemma NothingOk()
    ensures ListOk([])
  {
  }

  /** How one entry is read: as it is, as a zero run with four bytes left over, or wrongly. */
  lemma FirstRead(prevLen: nat, val: seq<byte>, t: seq<byte>)
    requires |val| < TWO_32
    ensures var p := PEntry(EncEntry(prevLen, val) + t);
            && (ZipOk(val) ==> p == Got(val, t))
            && (!ZipOk(val) && ZeroRun(val) ==> p == Got(val, FOUR_ZEROS + t))
            && (!ZipOk(val) && !ZeroRun(val) ==> p.Got? ==> p.value != val)
  {
    hide PContent, EncIntEntry, EncStrHeader, EncPrevLen, PPrevLen, ZeroRun;
    EntryRoundTripIff(prevLen, val, t);
    if !ZipOk(val) {
      Assoc(EncPrevLen(prevLen), EncContent(val), t);
      PrevLenSkips(prevLen, EncContent(val) + t);
      LongStrIff(val, t);
    }
  }

  /** A list comes back as written exactly when the count fits and every value survives in its place. */
  lemma BufRoundTripIff(values: seq<seq<byte>>)
    requires AllShort(values)
    ensures (PZipListBuf(EncZipList(values)) == Some(values)) <==> |values| <= MAX_ENTRIES && ListOk(values)
  {
    hide EncZipList, LE, UnLE, Body, PEntries, ListOk, AllShort;
    ReaderHeader(values);
    if |values| <= MAX_ENTRIES {
      EntriesIff(values, 0, [0xff]);
    }
  }

  /** Never more entries are read than the count says. */
  lemma BufCount(values: seq<seq<byte>>)
    requires AllShort(values)
    ensures PZipListBuf(EncZipList(values)).Some? ==> |PZipListBuf(EncZipList(values)).value| == |values| % 65536
  {
    hide EncZipList, LE, UnLE, Body, AllShort;
    ReaderHeader(values);
  }

  /** A zero run that comes back although no header for its length is read right. */
  lemma RunComesBack()
    ensures var z: seq<byte> := seq(65792, _ => 0);
            !ZipOk(z) && AllShort([z]) && PZipListBuf(EncZipList([z])) == Some([z])
  {
    hide EncZipList, PZipListBuf;
    var z: seq<byte> := seq(65792, _ => 0);
    assert z[0] == 0;
    assert EncodableInt(z, MAX_INT64).None?;
    MirroredLength();
    assert ListOk([z]);
    BufRoundTripIff([z]);
  }

  lemma MirroredLength()
    ensures LE(65792, 4) == BE(65792, 4)
  {
    assert LE(65792, 4) == [0, 1, 1, 0] && BE(65792, 4) == [0, 1, 1, 0];
  }

  // ----- walking backwards

  /** The back link stored at pos. */
  function PrevLenAt(buf: seq<byte>, pos: nat): Option<nat>
  {
    if pos > |buf| then None
    else
      match PPrevLen(buf[pos..])
      case Got(n, _) => Some(n)
      case Bad => None
  }

  /** The entry offsets met by following back links from pos until one is zero. */
  function WalkBack(buf: seq<byte>, pos: nat): seq<nat>
    decreases pos
  {
    match PrevLenAt(buf, pos)
    case Some(n) => if 0 < n <= pos then [pos] + WalkBack(buf, pos - n) else [pos]
    case None => [pos]
  }

  function Backwards(s: seq<nat>): seq<nat>
  {
    if s == [] then [] else [s[|s| - 1]] + Backwards(s[..|s| - 1])
  }

  /** Entry k starts where Starts says, and its back link spans the entry before it. */
  lemma {:induction false} LinkAt(values: seq<seq<byte>>, prevLen: nat, at: nat, k: nat)
    requires AllShort(values) && k < |values| && prevLen < TWO_32
    requires |Body(values, prevLen)| < TWO_32
    ensures var starts := Starts(values, prevLen, at);
            var off := starts[k] - at;
            && 0 <= off < |Body(values, prevLen)|
            && (k > 0 ==> starts[k - 1] < starts[k])
            && PrevLenAt(Body(values, prevLen), off) == Some(if k == 0 then prevLen else starts[k] - starts[k - 1])
    decreases |values|
  {
    hide EncContent, EncPrevLen, PPrevLen;
    var e := EncEntry(prevLen, values[0]);
    var rest := Body(values[1..], |e| % TWO_32);
    var body := Body(values, prevLen);
    if k == 0 {
      Assoc(EncPrevLen(prevLen), EncContent(values[0]), rest);
      PrevLenRoundTrip(prevLen, EncContent(values[0]) + rest);
      assert body[0..] == body;
    } else {
      assert |e| % TWO_32 == |e|;
      assert Starts(values, prevLen, at) == [at] + Starts(values[1..], |e|, at + |e|);
      assert body == e + rest;
      hide Body, EncEntry, Starts, PrevLenAt;
      LinkAt(values[1..], |e|, at + |e|, k - 1);
      var off := Starts(values, prevLen, at)[k] - at;
      PrevLenBehind(e, rest, off - |e|);
      if k == 1 {
        FirstStart(values[1..], |e|, at + |e|);
      }
    }
  }

  lemma PrevLenBehind(e: seq<byte>, rest: seq<byte>, off: nat)
    requires off <= |rest|
    ensures PrevLenAt(e + rest, |e| + off) == PrevLenAt(rest, off)
  {
    hide PPrevLen;
    assert (e + rest)[|e| + off..] == rest[off..];
  }

  lemma FirstStart(values: seq<seq<byte>>, prevLen: nat, at: nat)
    requires AllShort(values) && values != []
    ensures Starts(values, prevLen, at)[0] == at
  {
  }

  lemma LinkInBuffer(values: seq<seq<byte>>, k: nat)
    requires AllShort(values) && k < |values| && |EncZipList(values)| < TWO_32
    ensures var starts := Starts(values, 0, 10);
            && 10 <= starts[k] < |EncZipList(values)|
            && (k > 0 ==> starts[k - 1] < starts[k])
            && PrevLenAt(EncZipList(values), starts[k]) == Some(if k == 0 then 0 else starts[k] - starts[k - 1])
  {
    hide Body, EncEntry, ListHeader, PPrevLen;
    LinkAt(values, 0, 10, k);
    var pos := Starts(values, 0, 10)[k];
    var body := Body(values, 0);
    assert EncZipList(values)[pos..] == body[pos - 10..] + [0xff];
    PPrevLenPrefix(body[pos - 10..], [0xff]);
  }

  lemma PPrevLenPrefix(a: seq<byte>, t: seq<byte>)
    requires PPrevLen(a).Got?
    ensures PPrevLen(a + t).Got? && PPrevLen(a + t).value == PPrevLen(a).value
  {
    hide UnLE;
    assert (a + t)[1..] == a[1..] + t;
    if a[0] == BIG_PREV_LEN {
      assert (a[1..] + t)[..4] == a[1..][..4];
    }
  }

  lemma NothingBackwards(s: seq<nat>)
    ensures Backwards(s[..0]) == []
  {
  }

  lemma BackwardsLast(s: seq<nat>, k: nat)
    requires k < |s|
    ensures Backwards(s[..k + 1]) == [s[k]] + Backwards(s[..k])
  {
    assert s[..k + 1][..k] == s[..k];
  }

  lemma {:induction false} WalkBackFrom(values: seq<seq<byte>>, k: nat)
    requires AllShort(values) && k < |values| && |EncZipList(values)| < TWO_32
    ensures WalkBack(EncZipList(values), Starts(values, 0, 10)[k]) == Backwards(Starts(values, 0, 10)[..k + 1])
    decreases k
  {
    hide EncZipList, Starts, PrevLenAt, Backwards;
    var starts := Starts(values, 0, 10);
    LinkInBuffer(values, k);
    BackwardsLast(starts, k);
    if k == 0 {
      assert Backwards(starts[..0]) == [] by { NothingBackwards(starts); }
    } else {
      WalkBackFrom(values, k - 1);
    }
  }

  lemma LastStart(values: seq<seq<byte>>)
    requires AllShort(values) && values != [] && |EncZipList(values)| < TWO_32
    ensures var buf := EncZipList(values);
            UnLE(buf[..4]) == |buf| && UnLE(buf[4..8]) == Starts(values, 0, 10)[|values| - 1]
  {
    hide EncZipList, Starts, LE, UnLE, AllShort, Body, PrevLenAt;
    HeaderFields(values);
    Pow256Values();
    LinkInBuffer(values, |values| - 1);
    UnsignedRoundTrip(|EncZipList(values)|, 4);
    UnsignedRoundTrip(TailOffset(values), 4);
  }

  /** A written ziplist can be read from the back: its header holds the buffer's exact size and the start
      of the last entry, and following the back links from there meets every entry start, last to
      first, ending at offset 10. */
  lemma WalkBackwards(values: seq<seq<byte>>)
    requires AllShort(values) && values != [] && |EncZipList(values)| < TWO_32
    ensures var buf := EncZipList(values);
            && UnLE(buf[..4]) == |buf|
            && WalkBack(buf, UnLE(buf[4..8])) == Backwards(Starts(values, 0, 10))
            && Starts(values, 0, 10)[0] == 10
  {
    hide EncZipList, Starts, LE, UnLE, WalkBack, AllShort, Backwards, Body, PrevLenAt;
    FirstStart(values, 0, 10);
    LastStart(values);
    WalkBackFrom(values, |values| - 1);
    assert Starts(values, 0, 10)[..|values| - 1 + 1] == Starts(values, 0, 10);
  }

  // ----- entries that other writers store

  /** An integer entry of 8, 16, 24, 32 or 64 bits, of either sign, behind any back link, reads as its decimal
      text, and reading stops at its end. */
  lemma SignedEntryRead(prevLen: nat, tag: byte, v: int, n: nat, t: seq<byte>)
    requires || (tag == 0xfe && n == 1 && -0x80 <= v < 0x80)
             || (tag == 0xc0 && n == 2 && -0x8000 <= v < 0x8000)
             || (tag == 0xf0 && n == 3 && -0x80_0000 <= v < 0x80_0000)
             || (tag == 0xd0 && n == 4 && -0x8000_0000 <= v < 0x8000_0000)
             || (tag == 0xe0 && n == 8 && -0x8000_0000_0000_0000 <= v < 0x8000_0000_0000_0000)
    ensures PEntry(EncPrevLen(prevLen) + ([tag] + LE(v, n) + t)) == Got(IntText(v), t) && IsDecimal(IntText(v), v)
  {
    hide EncPrevLen, PPrevLen, LE, UnLE, PIntText, IntText, IsDecimal, Pow256;
    Pow256Values();
    PrevLenSkips(prevLen, [tag] + LE(v, n) + t);
    Assoc([tag], LE(v, n), t);
    PByteOf(tag, LE(v, n) + t);
    SignedTextRead(v, n, t);
  }

  /** A four-bit integer entry reads as one of 0 to 12. */
  lemma SmallEntryRead(prevLen: nat, v: nat, t: seq<byte>)
    requires v <= 12
    ensures PEntry(EncPrevLen(prevLen) + ([0xf1 + v] + t)) == Got(IntText(v), t) && IsDecimal(IntText(v), v)
  {
    hide EncPrevLen, PPrevLen, IntText, IsDecimal;
    PrevLenSkips(prevLen, [0xf1 + v] + t);
    PByteOf(0xf1 + v, t);
    IntTextDecimal(v);
  }

  lemma ShortTextRead(val: seq<byte>, t: seq<byte>)
    requires |val| < 0x40
    ensures PContent([|val|] + (val + t)) == Got(val, t)
  {
    hide PSmallInt;
    PByteOf(|val|, val + t);
    PBytesOf(val, t);
  }

  lemma MiddleTextRead(val: seq<byte>, t: seq<byte>)
    requires |val| < 0x4000
    ensures PContent([0x40 + |val| / 256, |val| % 256] + (val + t)) == Got(val, t)
  {
    hide PSmallInt, PBytes;
    var hi, lo := 0x40 + |val| / 256, |val| % 256;
    assert [hi, lo] + (val + t) == [hi] + ([lo] + (val + t));
    PByteOf(hi, [lo] + (val + t));
    PByteOf(lo, val + t);
    PBytesOf(val, t);
  }

  lemma LongTextRead(val: seq<byte>, t: seq<byte>)
    requires |val| < 0x1_0000_0000
    ensures PContent([0x80] + BE(|val|, 4) + (val + t)) == Got(val, t)
  {
    hide BE, UnBE, PSmallInt, PBytes, Pow256;
    Pow256Values();
    Assoc([0x80], BE(|val|, 4), val + t);
    PByteOf(0x80, BE(|val|, 4) + (val + t));
    PBytesOf(BE(|val|, 4), val + t);
    UnsignedRoundTrip(|val|, 4);
    PBytesOf(val, t);
  }

  /** A string entry with a 6-bit, a 14-bit or a 32-bit length, the last two high byte first, reads as itself. */
  lemma TextEntryRead(prevLen: nat, header: seq<byte>, val: seq<byte>, t: seq<byte>)
    requires || (|val| < 0x40 && header == [|val|])
             || (|val| < 0x4000 && header == [0x40 + |val| / 256, |val| % 256])
             || (|val| < 0x1_0000_0000 && header == [0x80] + BE(|val|, 4))
    ensures PEntry(EncPrevLen(prevLen) + (header + (val + t))) == Got(val, t)
  {
    hide EncPrevLen, PPrevLen, BE, PContent;
    PrevLenSkips(prevLen, header + (val + t));
    if |header| == 1 {
      ShortTextRead(val, t);
    } else if |header| == 2 {
      MiddleTextRead(val, t);
    } else {
      LongTextRead(val, t);
    }
  }
}
