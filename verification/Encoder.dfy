/**
 The encoder as an object: the output written so far, a running checksum, the protocol state and the
 databases already opened. Every write is proved to append exactly the bytes the codec functions
 give, and every public call to act as EncoderModel.Apply says. The writer never fails.
 */
module RdbEncoder {
  import opened Bytes
  import opened Parsing
  import opened RdbString
  import opened ZipList
  import opened Lists
  import opened Sets
  import opened Hashes
  import opened Objects
  import opened EncoderModel
  import Crc64
  import Lzf

  /** isEncodableUint32 and isEncodableUint64: the digit loop, then strconv.ParseInt with its range check. */
  method IsEncodable(s: seq<byte>, max: nat) returns (r: Option<nat>)
    ensures r == EncodableInt(s, max)
  {
    if s == [] || (s[0] == 48 && |s| > 1) {
      return None;
    }
    for i := 0 to |s|
      invariant forall k :: 0 <= k < i ==> IsDigit(s[k])
    {
      if !IsDigit(s[i]) {
        return None;
      }
    }
    r := if TextNat(s) <= max then Some(TextNat(s)) else None;
  }

  /** encodeZipListEntry, writing piece by piece into a buffer. */
  method EncodeZipListEntry(prevLen: nat, val: seq<byte>) returns (buf: seq<byte>)
    requires |val| < TWO_32
    ensures buf == EncEntry(prevLen, val)
  {
    hide LE;
    buf := [];
    if prevLen < BIG_PREV_LEN {
      buf := buf + [prevLen];
    } else {
      buf := buf + [0xfe];
      buf := buf + LE(prevLen, 4);
    }
    var content := EncodeZipListContent(val);
    buf := buf + content;
  }

  method EncodeZipListContent(val: seq<byte>) returns (buf: seq<byte>)
    requires |val| < TWO_32
    ensures buf == EncContent(val)
  {
    hide LE;
    var intVal := IsEncodable(val, MAX_INT64);
    if intVal.Some? {
      var v := intVal.value;
      if v <= 12 {
        buf := [0xf0 + (v + 1)];
      } else if v <= 127 {
        buf := [0xfe, v];
      } else if v <= 8388607 {
        buf := [0xf0] + LE(v, 3);
      } else if v <= MAX_INT32 {
        buf := [0xd0] + LE(v, 4);
      } else {
        buf := [0xe0] + LE(v, 8);
      }
      return;
    }
    if |val| <= 63 {
      buf := [|val|];
    } else if |val| <= MAX_STRING {
      buf := [64 + |val| / 256, |val| % 256];
    } else {
      var buffer := LE(|val|, 4) + [0, 0, 0, 0];
      buf := [0x80];
      buf := buf + buffer;
    }
    buf := buf + val;
  }

  /** writeZipList's buffer: entries appended one by one, then the reserved header filled in. */
  method BuildZipList(values: Values) returns (buf: seq<byte>)
    requires AllShort(values)
    ensures buf == EncZipList(values)
  {
    hide EncEntry, LE, Body, Starts;
    buf := seq(10, _ => 0);
    var zlBytes, zlTail := 11, 10;
    var prevLen: nat := 0;
    ghost var starts := [];
    BodyStep(values, 0, prevLen, 10);
    assert buf[10..] == [];
    for i := 0 to |values|
      invariant |buf| >= 10 && zlBytes == |buf| + 1
      invariant buf[10..] + Body(values[i..], prevLen) == Body(values, 0)
      invariant |starts| == i && starts + Starts(values[i..], prevLen, |buf|) == Starts(values, 0, 10)
      invariant zlTail == if i < |values| then |buf| else if i == 0 then 10 else starts[i - 1]
    {
      BodyStep(values, i, prevLen, |buf|);
      var entry := EncodeZipListEntry(prevLen, values[i]);
      Assoc(buf[10..], entry, Body(values[i + 1..], |entry| % TWO_32));
      starts := starts + [|buf|];
      buf := buf + entry;
      prevLen := |entry| % TWO_32;
      zlBytes := zlBytes + |entry|;
      if i < |values| - 1 {
        zlTail := zlTail + |entry|;
      }
    }
    BodyStep(values, |values|, prevLen, |buf|);
    assert buf[10..] == Body(values, 0) && starts == Starts(values, 0, 10);
    buf := buf + [0xff];
    buf := PatchHeader(buf, zlBytes, zlTail, |values|);
  }

  lemma BodyStep(values: Values, i: nat, prevLen: nat, at: nat)
    requires i <= |values| && AllShort(values)
    ensures values[0..] == values && AllShort(values[i..])
    ensures i == |values| ==> Body(values[i..], prevLen) == [] && Starts(values[i..], prevLen, at) == []
    ensures i < |values| ==>
              && |values[i]| < TWO_32 && AllShort(values[i + 1..])
              && var entry := EncEntry(prevLen, values[i]);
                 && Body(values[i..], prevLen) == entry + Body(values[i + 1..], |entry| % TWO_32)
                 && Starts(values[i..], prevLen, at) == [at] + Starts(values[i + 1..], |entry| % TWO_32, at + |entry|)
  {
    hide EncEntry;
    if i < |values| {
      assert values[i..][0] == values[i] && values[i..][1..] == values[i + 1..];
    }
  }

  /** Fills in the ten reserved bytes, field by field. */
  method PatchHeader(buf: seq<byte>, zlBytes: int, zlTail: int, count: nat) returns (r: seq<byte>)
    requires |buf| >= 10
    ensures r == LE(zlBytes, 4) + LE(zlTail, 4) + LE(count, 2) + buf[10..]
  {
    hide LE;
    r := LE(zlBytes, 4) + buf[4..];
    r := r[..4] + LE(zlTail, 4) + r[8..];
    r := r[..8] + LE(count, 2) + r[10..];
  }

  /** The paging loop of writeQuickList. */
  method BuildPages(values: Values) returns (pages: seq<Values>)
    ensures pages == Pages(values)
  {
    var pageSize: nat := 0;
    var curPage: Values := [];
    pages := [];
    assert values[0..] == values;
    for i := 0 to |values|
      invariant pages + PagesFrom(values[i..], curPage, pageSize) == Pages(values)
    {
      ghost var before := curPage;
      assert values[i..][1..] == values[i + 1..];
      curPage := curPage + [values[i]];
      pageSize := pageSize + |values[i]|;
      if pageSize >= PAGE_LIMIT {
        pageSize := 0;
        assert pages + ([curPage] + PagesFrom(values[i + 1..], [], 0)) ==
               pages + [curPage] + PagesFrom(values[i + 1..], [], 0);
        pages := pages + [curPage];
        curPage := [];
      }
    }
    if |curPage| > 0 {
      pages := pages + [curPage];
    }
  }

  /** The scan of tryWriteIntSetEncoding: every member as an integer, and the extremes. */
  method ScanInts(values: Values) returns (ints: Option<seq<nat>>, min: int, max: int)
    ensures ints == IntValues(values)
    ensures ints.Some? ==> min == MinOf(ints.value) && max == MaxOf(ints.value)
  {
    hide EncodableInt, IntValues, MinOf, MaxOf;
    max, min := MIN_INT64, MAX_INT64;
    var intList: seq<nat> := [];
    NoInts(values);
    for i := 0 to |values|
      invariant IntValues(values[..i]) == Some(intList)
      invariant min == MinOf(intList) && max == MaxOf(intList)
    {
      IntValuesStep(values, i);
      var intV := IsEncodable(values[i], MAX_INT64);
      if intV.None? {
        NotAllInts(values, i + 1);
        return None, min, max;
      }
      ExtremesPush(intList, intV.value);
      if intV.value < min {
        min := intV.value;
      }
      if intV.value > max {
        max := intV.value;
      }
      intList := intList + [intV.value];
    }
    assert values[..|values|] == values;
    ints := Some(intList);
  }

  lemma NoInts(values: Values)
    ensures IntValues(values[..0]) == Some([]) && MinOf([]) == MAX_INT64 && MaxOf([]) == MIN_INT64
  {
  }

  lemma IntValuesStep(values: Values, i: nat)
    requires i < |values|
    ensures IntValues(values[..i + 1]) ==
            if IntValues(values[..i]).Some? && EncodableInt(values[i], MAX_INT64).Some?
            then Some(IntValues(values[..i]).value + [EncodableInt(values[i], MAX_INT64).value]) else None
  {
    hide EncodableInt;
    assert values[..i + 1][..i] == values[..i];
  }

  lemma ExtremesPush(ints: seq<nat>, x: nat)
    ensures MinOf(ints + [x]) == if x < MinOf(ints) then x else MinOf(ints)
    ensures MaxOf(ints + [x]) == if x > MaxOf(ints) then x else MaxOf(ints)
  {
    assert (ints + [x])[..|ints|] == ints;
  }

  lemma {:induction false} NotAllInts(values: Values, i: nat)
    requires i <= |values| && IntValues(values[..i]).None?
    ensures IntValues(values).None?
    decreases |values| - i
  {
    hide EncodableInt;
    if i == |values| {
      assert values[..i] == values;
    } else {
      assert values[..i + 1][..i] == values[..i];
      NotAllInts(values, i + 1);
    }
  }

  /** The intset buffer: width, count, then the sorted members. */
  method BuildIntSet(ints: seq<nat>, min: int, max: int) returns (buf: seq<byte>)
    requires min == MinOf(ints) && max == MaxOf(ints)
    ensures buf == EncIntSet(ints)
  {
    hide LE, Sorted, MinOf, MaxOf;
    var intSize := 8;
    if min >= -32768 && max <= 32767 {
      intSize := 2;
    } else if min >= -0x8000_0000 && max <= MAX_INT32 {
      intSize := 4;
    }
    var intList := Sorted(ints);
    buf := LE(intSize, 4) + LE(|ints|, 4);
    for i := 0 to |intList|
      invariant buf == LE(intSize, 4) + LE(|ints|, 4) + EncInts(intList[..i], intSize)
    {
      assert intList[..i + 1][..i] == intList[..i];
      buf := buf + LE(intList[i], intSize);
    }
    assert intList[..|intList|] == intList;
  }

  /** The base of relative expirations. */
  method FindMinExpire(keys: Values, e: Expires) returns (minExpire: int)
    requires InExpires(keys, e)
    ensures minExpire == MinExpire(keys, e)
  {
    minExpire := EB_EXPIRE_TIME_INVALID;
    for i := 0 to |keys|
      invariant minExpire == MinOver(keys[..i], e)
    {
      assert keys[..i + 1][..i] == keys[..i];
      var x := e[keys[i]];
      if x > 0 && x < minExpire {
        minExpire := x;
      }
    }
    assert keys[..|keys|] == keys;
    if minExpire == EB_EXPIRE_TIME_INVALID {
      minExpire := 0;
    }
  }

  predicate IntSetWritable(values: Values, compress: bool)
  {
    var ints := IntValues(values);
    ints.Some? ==> Writable(EncIntSet(ints.value), compress)
  }

  /** The intset of members that are all integers. */
  function IntSetBody(values: Values, compress: bool): Option<seq<byte>>
    requires IntSetWritable(values, compress)
  {
    match IntValues(values)
    case Some(ints) => Some(EncNanString(EncIntSet(ints), compress))
    case None => None
  }

  class Encoder {
    var out: seq<byte>          // what the writer has received
    const buffer: array<byte>   // scratch
    const crc: Crc64.Digest
    var existDB: set<nat>
    var state: Phase
    const cfg: Config

    /** The bytes the running checksum covers: all of them until the checksum itself is appended. */
    ghost function Covered(): seq<byte>
      reads this
    {
      if state == WrittenEnd && |out| >= 8 then out[..|out| - 8] else out
    }

    ghost predicate Valid()
      reads this, crc, crc.tab, crc.prepared
    {
      buffer.Length == 8 && crc.Valid() && crc.crc == Crc64.Fold(0, Covered(), crc.poly)
    }

    ghost function Model(): Enc
      reads this
    {
      Enc(state, existDB, out)
    }

    constructor (cfg: Config, crc: Crc64.Digest)
      requires crc.Valid() && crc.crc == 0
      ensures Valid() && this.cfg == cfg && this.crc == crc && Model() == Initial
    {
      this.out := [];
      this.buffer := new byte[8](_ => 0);
      this.crc := crc;
      this.existDB := {};
      this.state := AtStart;
      this.cfg := cfg;
    }

    /** w was appended and nothing else changed. */
    twostate predicate Wrote(w: seq<byte>)
      reads this
    {
      out == old(out) + w && state == old(state) && existDB == old(existDB)
    }

    /** write: the writer first, then the checksum. */
    method Put(p: seq<byte>)
      requires Valid() && state != WrittenEnd
      modifies this`out, crc
      ensures Valid() && Wrote(p)
    {
      out := out + p;
      crc.Write(p);
      Crc64.FoldConcat(0, old(out), p, crc.poly);
    }

    method WriteLength(value: nat)
      requires Valid() && state != WrittenEnd && value < TWO_64
      modifies this, crc, buffer
      ensures Valid() && Wrote(EncLength(value))
    {
      hide BE;
      if value <= 63 {
        buffer[0] := value;
        Put(buffer[..1]);
      } else if value <= 16383 {
        buffer[0] := 64 + value / 256;
        buffer[1] := value % 256;
        Put(buffer[..2]);
      } else if value < TWO_32 {
        Put([LEN_32BIT] + BE(value, 4));
      } else {
        Put([LEN_64BIT] + BE(value, 8));
      }
    }

    method WriteSimpleString(s: seq<byte>)
      requires Valid() && state != WrittenEnd && |s| < TWO_63
      modifies this, crc, buffer
      ensures Valid() && Wrote(EncPlain(s))
    {
      hide Valid, EncLength;
      WriteLength(|s|);
      Put(s);
    }

    /** tryWriteIntString */
    method TryWriteIntString(s: seq<byte>) returns (isInt: bool)
      requires Valid() && state != WrittenEnd
      modifies this, crc, buffer
      ensures Valid() && isInt == EncodableInt(s, MAX_INT32).Some?
      ensures Wrote(if isInt then EncIntString(EncodableInt(s, MAX_INT32).value) else [])
    {
      hide Valid, LE;
      var intVal := IsEncodable(s, MAX_INT32);
      if intVal.None? {
        return false;
      }
      var v := intVal.value;
      if v <= 127 {
        Put([INT8_PREFIX, v]);
      } else if v <= 32767 {
        Put([INT16_PREFIX] + LE(v, 2));
      } else {
        Put([INT32_PREFIX] + LE(v, 4));
      }
      isInt := true;
    }

    /** writeLZFString: nothing is written when compression does not pay. */
    method WriteLZFString(s: seq<byte>) returns (ok: bool)
      requires Valid() && state != WrittenEnd && 20 < |s| < TWO_32
      modifies this, crc, buffer
      ensures Valid() && ok == EncLzf(s).Some?
      ensures Wrote(if ok then EncLzf(s).value else [])
    {
      hide Valid, EncLength, Lzf.Compressed;
      var r := Lzf.Compress(s);
      if r.Err? {
        return false;
      }
      Lzf.RoundTrip(s, |s|);
      var compressed := r.bytes;
      ghost var (start, n, m) := (out, EncLength(|compressed|), EncLength(|s|));
      Put([LZF_PREFIX]);
      WriteLength(|compressed|);
      WriteLength(|s|);
      Put(compressed);
      Nested4(start, [LZF_PREFIX], n, m, compressed);
      ok := true;
    }

    method WriteNanString(s: seq<byte>)
      requires Valid() && state != WrittenEnd && Writable(s, cfg.compress)
      modifies this, crc, buffer
      ensures Valid() && Wrote(EncNanString(s, cfg.compress))
    {
      hide Valid, EncPlain, EncLzf;
      if cfg.compress && |s| > 20 {
        var ok := WriteLZFString(s);
        if ok {
          return;
        }
      }
      WriteSimpleString(s);
    }

    method WriteString(s: seq<byte>)
      requires Valid() && state != WrittenEnd && Writable(s, cfg.compress)
      modifies this, crc, buffer
      ensures Valid() && Wrote(EncString(s, cfg.compress))
    {
      hide Valid, EncPlain, EncLzf, EncIntString, EncNanString;
      var isInt := TryWriteIntString(s);
      if isInt {
        return;
      }
      WriteNanString(s);
    }

    method WriteZipList(values: Values)
      requires Valid() && state != WrittenEnd && AllShort(values) && Writable(EncZipList(values), cfg.compress)
      modifies this, crc, buffer
      ensures Valid() && Wrote(EncNanString(EncZipList(values), cfg.compress))
    {
      hide Valid, EncZipList, EncNanString;
      var buf := BuildZipList(values);
      WriteNanString(buf);
    }

    // ----- bodies of objects

    /** The type byte and the key. */
    method WriteTypeAndKey(flag: byte, key: seq<byte>)
      requires Valid() && state != WrittenEnd && Writable(key, cfg.compress)
      modifies this, crc, buffer
      ensures Valid() && Wrote([flag] + EncString(key, cfg.compress))
    {
      hide Valid, EncString;
      Put([flag]);
      WriteString(key);
    }

    method FitsZipList(values: Values) returns (fits: bool)
      ensures fits == UsesZipList(values, cfg.listOpt)
    {
      if |values| > cfg.listOpt.MaxEntries() {
        return false;
      }
      for i := 0 to |values|
        invariant forall k :: 0 <= k < i ==> |values[k]| <= cfg.listOpt.MaxValue()
      {
        if |values[i]| > cfg.listOpt.MaxValue() {
          return false;
        }
      }
      fits := true;
    }

    /** tryWriteListZipList; false means the list is too large and nothing was written. */
    method TryWriteListZipList(key: seq<byte>, values: Values) returns (ok: bool)
      requires Valid() && state != WrittenEnd && Writable(key, cfg.compress)
      requires UsesZipList(values, cfg.listOpt) ==> AllShort(values) && Writable(EncZipList(values), cfg.compress)
      modifies this, crc, buffer
      ensures Valid() && ok == UsesZipList(values, cfg.listOpt)
      ensures Wrote(if ok then [TYPE_LIST_ZIPLIST] +
                               (EncString(key, cfg.compress) + EncNanString(EncZipList(values), cfg.compress))
                    else [])
    {
      hide Valid, EncString, EncNanString, EncZipList, Writable, AllShort, UsesZipList;
      ok := FitsZipList(values);
      if ok {
        ghost var (start, body) := (out, EncNanString(EncZipList(values), cfg.compress));
        WriteTypeAndKey(TYPE_LIST_ZIPLIST, key);
        WriteZipList(values);
        AfterKey1(start, [TYPE_LIST_ZIPLIST], EncString(key, cfg.compress), body);
      }
    }

    method WriteQuickList(key: seq<byte>, values: Values)
      requires Valid() && state != WrittenEnd && Writable(key, cfg.compress)
      requires |Pages(values)| < TWO_63 && PagesWritable(Pages(values), cfg.compress)
      modifies this, crc, buffer
      ensures Valid()
      ensures Wrote([TYPE_LIST_QUICKLIST] + (EncString(key, cfg.compress) + EncQuickList(Pages(values), cfg.compress)))
    {
      hide Valid, EncString, EncPages, EncLength, Pages, PagesWritable;
      ghost var start := out;
      var pages := BuildPages(values);
      WriteTypeAndKey(TYPE_LIST_QUICKLIST, key);
      WriteLength(|pages|);
      WritePages(pages);
      AfterKey2(start, [TYPE_LIST_QUICKLIST], EncString(key, cfg.compress), EncLength(|pages|),
                EncPages(pages, cfg.compress));
    }

    method WritePages(pages: seq<Values>)
      requires Valid() && state != WrittenEnd && PagesWritable(pages, cfg.compress)
      modifies this, crc, buffer
      ensures Valid() && Wrote(EncPages(pages, cfg.compress))
    {
      hide Valid, EncNanString, EncZipList, Writable, AllShort, EncPages, PagesWritable;
      PagesStep(pages, 0, cfg.compress);
      for i := 0 to |pages|
        invariant Valid() && state == old(state) && existDB == old(existDB)
        invariant PagesWritable(pages[i..], cfg.compress)
        invariant out + EncPages(pages[i..], cfg.compress) == old(out) + EncPages(pages, cfg.compress)
      {
        PagesStep(pages, i, cfg.compress);
        Assoc(out, EncNanString(EncZipList(pages[i]), cfg.compress), EncPages(pages[i + 1..], cfg.compress));
        WriteZipList(pages[i]);
      }
      PagesStep(pages, |pages|, cfg.compress);
    }

    /** tryWriteIntSetEncoding; false means some member is no canonical integer. */
    method TryWriteIntSet(key: seq<byte>, values: Values) returns (ok: bool)
      requires Valid() && state != WrittenEnd && Writable(key, cfg.compress) && IntSetWritable(values, cfg.compress)
      modifies this, crc, buffer
      ensures Valid() && ok == IntSetBody(values, cfg.compress).Some?
      ensures Wrote(if ok then [TYPE_SET_INTSET] +
                               (EncString(key, cfg.compress) + IntSetBody(values, cfg.compress).value)
                    else [])
    {
      hide Valid, EncString, EncNanString, EncIntSet, Writable, IntValues, MinOf, MaxOf;
      var ints, min, max := ScanInts(values);
      ok := ints.Some?;
      if ok {
        ghost var (start, body) := (out, EncNanString(EncIntSet(ints.value), cfg.compress));
        WriteTypeAndKey(TYPE_SET_INTSET, key);
        var buf := BuildIntSet(ints.value, min, max);
        WriteNanString(buf);
        AfterKey1(start, [TYPE_SET_INTSET], EncString(key, cfg.compress), body);
      }
    }

    method WriteStrings(values: Values)
      requires Valid() && state != WrittenEnd && AllWritable(values, cfg.compress)
      modifies this, crc, buffer
      ensures Valid() && Wrote(EncStrings(values, cfg.compress))
    {
      hide Valid, EncString, Writable;
      assert values[0..] == values;
      for i := 0 to |values|
        invariant Valid() && state == old(state) && existDB == old(existDB)
        invariant out + EncStrings(values[i..], cfg.compress) == old(out) + EncStrings(values, cfg.compress)
      {
        assert values[i..][0] == values[i] && values[i..][1..] == values[i + 1..];
        Assoc(out, EncString(values[i], cfg.compress), EncStrings(values[i + 1..], cfg.compress));
        WriteString(values[i]);
      }
      assert values[|values|..] == [];
    }

    method WriteSetEncoding(key: seq<byte>, values: Values)
      requires Valid() && state != WrittenEnd && Writable(key, cfg.compress)
      requires AllWritable(values, cfg.compress) && |values| < TWO_63
      modifies this, crc, buffer
      ensures Valid()
      ensures Wrote([TYPE_SET] + (EncString(key, cfg.compress) +
                                  (EncLength(|values|) + EncStrings(values, cfg.compress))))
    {
      hide Valid, EncString, EncLength, EncStrings, AllWritable;
      ghost var start := out;
      WriteTypeAndKey(TYPE_SET, key);
      WriteLength(|values|);
      WriteStrings(values);
      AfterKey2(start, [TYPE_SET], EncString(key, cfg.compress), EncLength(|values|), EncStrings(values, cfg.compress));
    }

    method FitsZipHash(m: Fields, order: Values) returns (fits: bool)
      requires InMap(order, m)
      ensures fits == UsesZipHash(order, m, cfg.hashOpt)
    {
      if |m| > cfg.hashOpt.MaxEntries() {
        return false;
      }
      for i := 0 to |order|
        invariant forall k :: 0 <= k < i ==> |m[order[k]]| <= cfg.hashOpt.MaxValue()
      {
        if |m[order[i]]| > cfg.hashOpt.MaxValue() {
          return false;
        }
      }
      fits := true;
    }

    /** tryWriteZipListHashMap; only value lengths are checked. */
    method TryWriteZipListHash(key: seq<byte>, m: Fields, order: Values) returns (ok: bool)
      requires Valid() && state != WrittenEnd && Writable(key, cfg.compress) && InMap(order, m)
      requires UsesZipHash(order, m, cfg.hashOpt) ==>
                 AllShort(Flatten(order, m)) && Writable(EncZipList(Flatten(order, m)), cfg.compress)
      modifies this, crc, buffer
      ensures Valid() && ok == UsesZipHash(order, m, cfg.hashOpt)
      ensures Wrote(if ok then [TYPE_HASH_ZIPLIST] + (EncString(key, cfg.compress) +
                               EncNanString(EncZipList(Flatten(order, m)), cfg.compress))
                    else [])
    {
      hide Valid, EncString, EncNanString, EncZipList, Writable, AllShort, Flatten, UsesZipHash, InMap;
      ok := FitsZipHash(m, order);
      if ok {
        ghost var (start, body) := (out, EncNanString(EncZipList(Flatten(order, m)), cfg.compress));
        WriteTypeAndKey(TYPE_HASH_ZIPLIST, key);
        var entries := BuildEntries(m, order);
        WriteZipList(entries);
        AfterKey1(start, [TYPE_HASH_ZIPLIST], EncString(key, cfg.compress), body);
      }
    }

    static method BuildEntries(m: Fields, order: Values) returns (entries: Values)
      requires InMap(order, m)
      ensures entries == Flatten(order, m)
    {
      entries := [];
      assert order[0..] == order;
      for i := 0 to |order|
        invariant InMap(order[i..], m) && entries + Flatten(order[i..], m) == Flatten(order, m)
      {
        assert order[i..][0] == order[i] && order[i..][1..] == order[i + 1..];
        assert entries + ([order[i], m[order[i]]] + Flatten(order[i + 1..], m)) ==
               entries + [order[i], m[order[i]]] + Flatten(order[i + 1..], m);
        entries := entries + [order[i], m[order[i]]];
      }
      assert order[|order|..] == [];
    }

    method WritePairs(m: Fields, order: Values)
      requires Valid() && state != WrittenEnd && PairsWritable(order, m, cfg.compress)
      modifies this, crc, buffer
      ensures Valid() && Wrote(EncPairs(order, m, cfg.compress))
    {
      hide Valid, EncString, Writable;
      assert order[0..] == order;
      for i := 0 to |order|
        invariant Valid() && state == old(state) && existDB == old(existDB)
        invariant PairsWritable(order[i..], m, cfg.compress)
        invariant out + EncPairs(order[i..], m, cfg.compress) == old(out) + EncPairs(order, m, cfg.compress)
      {
        ghost var (start, rest) := (out, EncPairs(order[i + 1..], m, cfg.compress));
        assert order[i..][0] == order[i] && order[i..][1..] == order[i + 1..];
        WriteString(order[i]);
        WriteString(m[order[i]]);
        Nested3(start, EncString(order[i], cfg.compress), EncString(m[order[i]], cfg.compress), rest);
      }
      assert order[|order|..] == [];
    }

    method WriteHashEncoding(key: seq<byte>, m: Fields, order: Values)
      requires Valid() && state != WrittenEnd && Writable(key, cfg.compress)
      requires PairsWritable(order, m, cfg.compress) && |m| < TWO_63
      modifies this, crc, buffer
      ensures Valid()
      ensures Wrote([TYPE_HASH] + (EncString(key, cfg.compress) + (EncLength(|m|) + EncPairs(order, m, cfg.compress))))
    {
      hide Valid, EncString, EncLength, EncPairs, PairsWritable;
      ghost var start := out;
      WriteTypeAndKey(TYPE_HASH, key);
      WriteLength(|m|);
      WritePairs(m, order);
      AfterKey2(start, [TYPE_HASH], EncString(key, cfg.compress), EncLength(|m|), EncPairs(order, m, cfg.compress));
    }

    method WriteExPair(field: seq<byte>, value: seq<byte>, fieldExpire: int, minExpire: int)
      requires Valid() && state != WrittenEnd && Writable(field, cfg.compress) && Writable(value, cfg.compress)
      modifies this, crc, buffer
      ensures Valid()
      ensures Wrote(EncLength(EncRelative(fieldExpire, minExpire)) +
                    (EncString(field, cfg.compress) + EncString(value, cfg.compress)))
    {
      hide Valid, EncString, EncLength, Writable;
      ghost var start := out;
      var ttl: nat := 0;
      if fieldExpire != 0 {
        ttl := Wrap64(fieldExpire - minExpire + 1);
      }
      WriteLength(ttl);
      WriteString(field);
      WriteString(value);
      Nested3(start, EncLength(ttl), EncString(field, cfg.compress), EncString(value, cfg.compress));
    }

    method WriteExPairs(m: Fields, e: Expires, order: Values, minExpire: int)
      requires Valid() && state != WrittenEnd && PairsWritable(order, m, cfg.compress)
      modifies this, crc, buffer
      ensures Valid() && Wrote(EncExPairs(order, m, e, minExpire, cfg.compress))
    {
      hide Valid, EncString, EncLength, Writable, EncExPairs, EncRelative, ExpireOf;
      ExPairsStep(order, 0, m, e, minExpire, cfg.compress);
      for i := 0 to |order|
        invariant Valid() && state == old(state) && existDB == old(existDB)
        invariant PairsWritable(order[i..], m, cfg.compress)
        invariant out + EncExPairs(order[i..], m, e, minExpire, cfg.compress) ==
                  old(out) + EncExPairs(order, m, e, minExpire, cfg.compress)
      {
        ghost var (start, rest) := (out, EncExPairs(order[i + 1..], m, e, minExpire, cfg.compress));
        ExPairsStep(order, i, m, e, minExpire, cfg.compress);
        WriteExPair(order[i], m[order[i]], ExpireOf(e, order[i]), minExpire);
        Piece3(start, EncLength(EncRelative(ExpireOf(e, order[i]), minExpire)), EncString(order[i], cfg.compress),
               EncString(m[order[i]], cfg.compress), rest);
      }
      ExPairsStep(order, |order|, m, e, minExpire, cfg.compress);
    }

    method WriteHashEncodingEx(key: seq<byte>, m: Fields, e: Expires, order: Values, keys: Values)
      requires Valid() && state != WrittenEnd && Writable(key, cfg.compress)
      requires PairsWritable(order, m, cfg.compress) && |m| < TWO_63 && InExpires(keys, e)
      modifies this, crc, buffer
      ensures Valid()
      ensures Wrote([TYPE_HASH_HFE] + (EncString(key, cfg.compress) + EncHashEx(order, m, keys, e, cfg.compress)))
    {
      hide Valid, EncString, EncLength, EncExPairs, PairsWritable, MinExpire, LE;
      ghost var start := out;
      WriteTypeAndKey(TYPE_HASH_HFE, key);
      var minExpire := FindMinExpire(keys, e);
      Put(LE(minExpire, 8));
      WriteLength(|m|);
      WriteExPairs(m, e, order, minExpire);
      AfterKey3(start, [TYPE_HASH_HFE], EncString(key, cfg.compress), LE(minExpire, 8), EncLength(|m|),
              EncExPairs(order, m, e, minExpire, cfg.compress));
    }

    method WriteValkeyPair(field: seq<byte>, value: seq<byte>, fieldExpire: int)
      requires Valid() && state != WrittenEnd && Writable(field, cfg.compress) && Writable(value, cfg.compress)
      modifies this, crc, buffer
      ensures Valid()
      ensures Wrote(EncString(field, cfg.compress) + (EncString(value, cfg.compress) + LE(EncAbsolute(fieldExpire), 8)))
    {
      hide Valid, EncString, Writable, LE;
      ghost var start := out;
      WriteString(field);
      WriteString(value);
      var ttl;
      if fieldExpire == 0 {
        ttl := LE(-1, 8);  // math.MaxUint64
      } else {
        ttl := LE(fieldExpire, 8);
      }
      Put(ttl);
      Nested3(start, EncString(field, cfg.compress), EncString(value, cfg.compress), ttl);
    }

    method WriteValkeyPairs(m: Fields, e: Expires, order: Values)
      requires Valid() && state != WrittenEnd && PairsWritable(order, m, cfg.compress)
      modifies this, crc, buffer
      ensures Valid() && Wrote(EncPairsValkey(order, m, e, cfg.compress))
    {
      hide Valid, EncString, Writable, LE, EncPairsValkey, EncAbsolute, ExpireOf;
      ValkeyPairsStep(order, 0, m, e, cfg.compress);
      for i := 0 to |order|
        invariant Valid() && state == old(state) && existDB == old(existDB)
        invariant PairsWritable(order[i..], m, cfg.compress)
        invariant out + EncPairsValkey(order[i..], m, e, cfg.compress) ==
                  old(out) + EncPairsValkey(order, m, e, cfg.compress)
      {
        ghost var (start, rest) := (out, EncPairsValkey(order[i + 1..], m, e, cfg.compress));
        ValkeyPairsStep(order, i, m, e, cfg.compress);
        WriteValkeyPair(order[i], m[order[i]], ExpireOf(e, order[i]));
        Piece3(start, EncString(order[i], cfg.compress), EncString(m[order[i]], cfg.compress),
               LE(EncAbsolute(ExpireOf(e, order[i])), 8), rest);
      }
      ValkeyPairsStep(order, |order|, m, e, cfg.compress);
    }

    method WriteHash2Encoding(key: seq<byte>, m: Fields, e: Expires, order: Values)
      requires Valid() && state != WrittenEnd && Writable(key, cfg.compress)
      requires PairsWritable(order, m, cfg.compress) && |m| < TWO_63
      modifies this, crc, buffer
      ensures Valid()
      ensures Wrote([TYPE_HASH2] +
                    (EncString(key, cfg.compress) + (EncLength(|m|) + EncPairsValkey(order, m, e, cfg.compress))))
    {
      hide Valid, EncString, EncLength, EncPairsValkey, PairsWritable;
      ghost var start := out;
      WriteTypeAndKey(TYPE_HASH2, key);
      WriteLength(|m|);
      WriteValkeyPairs(m, e, order);
      AfterKey2(start, [TYPE_HASH2], EncString(key, cfg.compress), EncLength(|m|),
                EncPairsValkey(order, m, e, cfg.compress));
    }

    // ----- public calls

    method SetState(next: Phase)
      requires Valid() && state != WrittenEnd && next != WrittenEnd
      modifies this`state
      ensures Valid() && state == next
    {
      state := next;
    }

    /** The call did what the protocol model says, refusals included. */
    twostate predicate Did(c: Call, ok: bool)
      reads this, crc
      requires CallWritable(c, cfg)
    {
      Reply(Model(), ok) == Apply(old(Model()), c, cfg, crc.poly)
    }

    method WriteHeader() returns (ok: bool)
      requires Valid()
      modifies this, crc, buffer
      ensures Valid() && Did(Header, ok)
    {
      hide Crc64.Fold, MagicOf, Valid;
      if !Allowed(state, WrittenHeader) {
        return false;
      }
      Put(MagicOf(cfg));
      SetState(WrittenHeader);
      ok := true;
    }

    method WriteAux(key: seq<byte>, value: seq<byte>) returns (ok: bool)
      requires Valid() && Writable(key, cfg.compress) && Writable(value, cfg.compress)
      modifies this, crc, buffer
      ensures Valid() && Did(Aux(key, value), ok)
    {
      hide EncString, Writable, Valid;
      if !Allowed(state, WrittenAux) {
        return false;
      }
      ghost var start := out;
      Put([OP_AUX]);
      WriteString(key);
      WriteString(value);
      Nested3(start, [OP_AUX], EncString(key, cfg.compress), EncString(value, cfg.compress));
      SetState(WrittenAux);
      ok := true;
    }

    method WriteDBHeader(dbIndex: nat, keyCount: nat, ttlCount: nat) returns (ok: bool)
      requires Valid() && dbIndex < TWO_64 && keyCount < TWO_64 && ttlCount < TWO_64
      modifies this, crc, buffer
      ensures Valid() && Did(DBHeader(dbIndex, keyCount, ttlCount), ok)
    {
      hide EncLength, Valid;
      if !Allowed(state, WrittenDBHeader) {
        return false;
      }
      if dbIndex in existDB {
        return false;
      }
      AddDB(dbIndex);
      ghost var start := out;
      Put([OP_SELECT_DB]);
      WriteLength(dbIndex);
      Put([OP_RESIZE_DB]);
      WriteLength(keyCount);
      WriteLength(ttlCount);
      Nested5(start, [OP_SELECT_DB], EncLength(dbIndex), [OP_RESIZE_DB], EncLength(keyCount), EncLength(ttlCount));
      SetState(WrittenDBHeader);
      ok := true;
    }

    method AddDB(dbIndex: nat)
      requires Valid()
      modifies this`existDB
      ensures Valid() && existDB == old(existDB) + {dbIndex}
    {
      existDB := existDB + {dbIndex};
    }

    method WriteEnd() returns (ok: bool)
      requires Valid()
      modifies this, crc, buffer
      ensures Valid() && Did(End, ok)
    {
      hide Crc64.Fold, Crc64.WordBytes;
      if !Allowed(state, WrittenEnd) {
        return false;
      }
      Put([OP_EOF]);
      var checkSum := crc.Sum([]);
      assert [] + Crc64.WordBytes(crc.crc, 8) == Crc64.WordBytes(crc.crc, 8);
      ghost var body := out;
      out := out + checkSum;
      assert out[..|out| - 8] == body;
      state := WrittenEnd;
      ok := true;
    }

    method WriteTTL(expiration: nat) returns (ok: bool)
      requires Valid() && expiration < TWO_64
      modifies this, crc, buffer
      ensures Valid() && ok == Allowed(old(state), WrittenTTL)
      ensures Model() == if ok then old(Model()).(phase := WrittenTTL, out := old(out) + EncTTL(expiration))
                         else old(Model())
    {
      hide Crc64.Fold, LE;
      if !Allowed(state, WrittenTTL) {
        return false;
      }
      ghost var start := out;
      Put([OP_EXPIRE_MS]);
      var bytes := LE(expiration, 8);
      forall i | 0 <= i < 8 {
        buffer[i] := bytes[i];
      }
      assert buffer[..] == bytes;
      Put(buffer[..]);
      Assoc(start, [OP_EXPIRE_MS], bytes);
      SetState(WrittenTTL);
      ok := true;
    }

    /** beforeWriteObject: each TTL option in turn, stopping at the first refusal. */
    method BeforeWriteObject(ttls: seq<nat>) returns (ok: bool)
      requires Valid() && forall i :: 0 <= i < |ttls| ==> ttls[i] < TWO_64
      modifies this, crc, buffer
      ensures Valid()
      ensures Reply(Model(), ok) ==
              if Allowed(old(state), WrittenObject) then ApplyTTLs(old(Model()), ttls) else Reply(old(Model()), false)
    {
      hide Valid, EncTTL;
      if !Allowed(state, WrittenObject) {
        return false;
      }
      assert ttls[0..] == ttls;
      for i := 0 to |ttls|
        invariant Valid() && ApplyTTLs(Model(), ttls[i..]) == ApplyTTLs(old(Model()), ttls)
      {
        assert ttls[i..][1..] == ttls[i + 1..] && ttls[i..][0] == ttls[i];
        var accepted := WriteTTL(ttls[i]);
        if !accepted {
          return false;
        }
      }
      assert ttls[|ttls|..] == [];
      ok := true;
    }

    method WriteStringObject(key: seq<byte>, value: seq<byte>, ttls: seq<nat>) returns (ok: bool)
      requires Valid() && CallWritable(Write(key, StringObj(value), ttls), cfg)
      modifies this, crc, buffer
      ensures Valid() && Did(Write(key, StringObj(value), ttls), ok)
    {
      hide EncString, Writable, Crc64.Fold, ApplyTTLs, Valid;
      ok := BeforeWriteObject(ttls);
      ghost var before := Model();
      if ok {
        TTLsNeverEnd(old(Model()), ttls);
        WriteTypeAndKey(TYPE_STRING, key);
        WriteString(value);
        AfterKey1(before.out, [TYPE_STRING], EncString(key, cfg.compress), EncString(value, cfg.compress));
        SetState(WrittenObject);
      }
      ObjectDone(old(Model()), key, StringObj(value), ttls, ok, before, Model(), cfg, crc.poly);
    }

    method WriteListObject(key: seq<byte>, values: Values, ttls: seq<nat>) returns (ok: bool)
      requires Valid() && CallWritable(Write(key, ListObj(values), ttls), cfg)
      modifies this, crc, buffer
      ensures Valid() && Did(Write(key, ListObj(values), ttls), ok)
    {
      hide EncString, Writable, Crc64.Fold, ApplyTTLs, UsesZipList, AllShort, EncZipList, EncNanString, Pages,
        PagesWritable,
           EncQuickList, Valid;
      ok := BeforeWriteObject(ttls);
      ghost var before := Model();
      if ok {
        TTLsNeverEnd(old(Model()), ttls);
        var small := TryWriteListZipList(key, values);
        if !small {
          WriteQuickList(key, values);
        }
        SetState(WrittenObject);
      }
      ObjectDone(old(Model()), key, ListObj(values), ttls, ok, before, Model(), cfg, crc.poly);
    }

    method WriteSetObject(key: seq<byte>, values: Values, ttls: seq<nat>) returns (ok: bool)
      requires Valid() && CallWritable(Write(key, SetObj(values), ttls), cfg)
      modifies this, crc, buffer
      ensures Valid() && Did(Write(key, SetObj(values), ttls), ok)
    {
      hide EncString, Writable, Crc64.Fold, ApplyTTLs, IntValues, EncIntSet, EncNanString, EncLength, EncStrings,
        AllWritable,
           Valid;
      ok := BeforeWriteObject(ttls);
      ghost var before := Model();
      if ok {
        TTLsNeverEnd(old(Model()), ttls);
        var ints := TryWriteIntSet(key, values);
        if !ints {
          WriteSetEncoding(key, values);
        }
        SetState(WrittenObject);
      }
      ObjectDone(old(Model()), key, SetObj(values), ttls, ok, before, Model(), cfg, crc.poly);
    }

    method WriteHashMapObject(key: seq<byte>, m: Fields, order: Values, ttls: seq<nat>) returns (ok: bool)
      requires Valid() && CallWritable(Write(key, HashObj(m, order), ttls), cfg)
      modifies this, crc, buffer
      ensures Valid() && Did(Write(key, HashObj(m, order), ttls), ok)
    {
      hide EncString, Writable, Crc64.Fold, ApplyTTLs, UsesZipHash, Flatten, AllShort, EncZipList, EncNanString,
        EncLength,
           EncPairs, PairsWritable, InMap, Enumerates, Valid;
      ok := BeforeWriteObject(ttls);
      ghost var before := Model();
      if ok {
        TTLsNeverEnd(old(Model()), ttls);
        var small := TryWriteZipListHash(key, m, order);
        if !small {
          WriteHashEncoding(key, m, order);
        }
        SetState(WrittenObject);
      }
      ObjectDone(old(Model()), key, HashObj(m, order), ttls, ok, before, Model(), cfg, crc.poly);
    }

    method WriteHashMapObjectEx(key: seq<byte>, m: Fields, e: Expires, order: Values, keys: Values, ttls: seq<nat>)
      returns (ok: bool)
      requires Valid() && CallWritable(Write(key, HashExObj(m, e, order, keys), ttls), cfg)
      modifies this, crc, buffer
      ensures Valid() && Did(Write(key, HashExObj(m, e, order, keys), ttls), ok)
    {
      hide EncString, Writable, Crc64.Fold, ApplyTTLs, EncLength, EncPairsValkey, EncHashEx, PairsWritable, InExpires,
        InMap,
           Enumerates, Valid;
      ok := BeforeWriteObject(ttls);
      ghost var before := Model();
      if ok {
        TTLsNeverEnd(old(Model()), ttls);
        if cfg.valkey {
          WriteHash2Encoding(key, m, e, order);
        } else {
          WriteHashEncodingEx(key, m, e, order, keys);
        }
        SetState(WrittenObject);
      }
      ObjectDone(old(Model()), key, HashExObj(m, e, order, keys), ttls, ok, before, Model(), cfg, crc.poly);
    }
  }

  // One more element of a written sequence.

  lemma PagesStep(pages: seq<Values>, i: nat, compress: bool)
    requires i <= |pages| && PagesWritable(pages, compress)
    ensures pages[0..] == pages && PagesWritable(pages[i..], compress)
    ensures i == |pages| ==> EncPages(pages[i..], compress) == []
    ensures i < |pages| ==>
              && AllShort(pages[i]) && Writable(EncZipList(pages[i]), compress)
              && PagesWritable(pages[i + 1..], compress)
              && EncPages(pages[i..], compress) ==
                 EncNanString(EncZipList(pages[i]), compress) + EncPages(pages[i + 1..], compress)
  {
    hide EncNanString, EncZipList, Writable, AllShort;
    if i < |pages| {
      assert pages[i..][0] == pages[i] && pages[i..][1..] == pages[i + 1..];
    }
  }

  lemma ExPairsStep(order: Values, i: nat, m: Fields, e: Expires, base: int, compress: bool)
    requires i <= |order| && PairsWritable(order, m, compress)
    ensures order[0..] == order && PairsWritable(order[i..], m, compress)
    ensures i == |order| ==> EncExPairs(order[i..], m, e, base, compress) == []
    ensures i < |order| ==>
              EncExPairs(order[i..], m, e, base, compress) ==
              EncLength(EncRelative(ExpireOf(e, order[i]), base)) +
              (EncString(order[i], compress) + (EncString(m[order[i]], compress) +
               EncExPairs(order[i + 1..], m, e, base, compress)))
  {
    hide EncString, EncLength, Writable, EncRelative, ExpireOf;
    if i < |order| {
      assert order[i..][0] == order[i] && order[i..][1..] == order[i + 1..];
    }
  }

  lemma ValkeyPairsStep(order: Values, i: nat, m: Fields, e: Expires, compress: bool)
    requires i <= |order| && PairsWritable(order, m, compress)
    ensures order[0..] == order && PairsWritable(order[i..], m, compress)
    ensures i == |order| ==> EncPairsValkey(order[i..], m, e, compress) == []
    ensures i < |order| ==>
              EncPairsValkey(order[i..], m, e, compress) ==
              EncString(order[i], compress) + (EncString(m[order[i]], compress) +
              (LE(EncAbsolute(ExpireOf(e, order[i])), 8) + EncPairsValkey(order[i + 1..], m, e, compress)))
  {
    hide EncString, LE, Writable, EncAbsolute, ExpireOf;
    if i < |order| {
      assert order[i..][0] == order[i] && order[i..][1..] == order[i + 1..];
    }
  }

  /** After a refused or accepted option loop and, if accepted, the object's bytes: the model's verdict. */
  lemma ObjectDone(e: Enc, key: seq<byte>, obj: Object, ttls: seq<nat>, ok: bool, before: Enc, after: Enc,
                   cfg: Config, poly: Crc64.Word)
    requires CallWritable(Write(key, obj, ttls), cfg)
    requires Reply(before, ok) == if Allowed(e.phase, WrittenObject) then ApplyTTLs(e, ttls) else Reply(e, false)
    requires after == if ok then before.(phase := WrittenObject, out := before.out + EncObject(key, obj, cfg))
                      else before
    ensures Reply(after, ok) == Apply(e, Write(key, obj, ttls), cfg, poly)
  {
    hide EncObject, ApplyTTLs;
  }

  lemma {:induction false} TTLsNeverEnd(e: Enc, ttls: seq<nat>)
    requires e.phase != WrittenEnd
    ensures ApplyTTLs(e, ttls).enc.phase != WrittenEnd
    decreases |ttls|
  {
    hide EncTTL;
    if ttls != [] && Allowed(e.phase, WrittenTTL) {
      TTLsNeverEnd(e.(phase := WrittenTTL, out := e.out + EncTTL(ttls[0])), ttls[1..]);
    }
  }
}
