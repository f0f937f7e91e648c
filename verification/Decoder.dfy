/**
 The decoder as an object reading its input byte by byte. Every reader is proved to return and to
 consume exactly what the corresponding parsing function does; Parse is proved to deliver what
 DecoderModel.ParseFile says. None stands for an error return or a recovered panic.
 */
module RdbDecoder {
  import opened Bytes
  import opened Parsing
  import opened RdbString
  import opened ZipList
  import opened Lists
  import opened Sets
  import opened Hashes
  import opened Objects
  import opened EncoderModel
  import opened DecoderModel
  import Lzf

  ghost predicate Agrees<T>(r: Option<T>, p: Parsed<T>, rest: seq<byte>)
  {
    if r.Some? then p == Got(r.value, rest) else p == Bad
  }

  // ----- cursors over a buffer (core/utils.go)

  method ReadByteAt(buf: seq<byte>, cursor: nat) returns (r: Option<byte>, cursor': nat)
    requires cursor <= |buf|
    ensures cursor <= cursor' <= |buf| && Agrees(r, PByte(buf[cursor..]), buf[cursor'..])
  {
    cursor' := cursor;
    if cursor >= |buf| {
      return None, cursor';
    }
    r := Some(buf[cursor]);
    cursor' := cursor + 1;
  }

  method ReadBytesAt(buf: seq<byte>, cursor: nat, size: nat) returns (r: Option<seq<byte>>, cursor': nat)
    requires cursor <= |buf|
    ensures cursor <= cursor' <= |buf| && Agrees(r, PBytes(buf[cursor..], size), buf[cursor'..])
    ensures cursor' == if r.Some? then cursor + size else cursor
  {
    cursor' := cursor;
    if cursor + size > |buf| {
      return None, cursor';
    }
    var end := cursor + size;
    r := Some(buf[cursor..end]);
    cursor' := end;
    assert buf[cursor..][..size] == buf[cursor..end] && buf[cursor..][size..] == buf[end..];
  }

  /** A little-endian integer of size bytes, as text. */
  method ReadIntTextAt(buf: seq<byte>, cursor: nat, size: nat) returns (r: Option<seq<byte>>, cursor': nat)
    requires cursor <= |buf|
    ensures cursor <= cursor' <= |buf| && Agrees(r, PIntText(buf[cursor..], size), buf[cursor'..])
  {
    hide IntText, UnLE;
    var bs;
    bs, cursor' := ReadBytesAt(buf, cursor, size);
    r := if bs.Some? then Some(IntText(Signed(UnLE(bs.value), Pow256(size)))) else None;
  }

  lemma Int24(bs: seq<byte>)
    requires |bs| == 3
    ensures Signed(UnLE([0] + bs), TWO_32) / 256 == Signed(UnLE(bs), Pow256(3))
  {
    Pow256Values();
    UnLEBound(bs);
    assert ([0] + bs)[1..] == bs;
    hide UnLE;
  }

  /** Three bytes widened below by a zero byte and shifted back. */
  method ReadInt24At(buf: seq<byte>, cursor: nat) returns (r: Option<seq<byte>>, cursor': nat)
    requires cursor <= |buf|
    ensures cursor <= cursor' <= |buf| && Agrees(r, PIntText(buf[cursor..], 3), buf[cursor'..])
  {
    hide IntText, UnLE;
    var bs;
    bs, cursor' := ReadBytesAt(buf, cursor, 3);
    if bs.None? {
      return None, cursor';
    }
    var wide := [0] + bs.value;
    Int24(bs.value);
    r := Some(IntText(Signed(UnLE(wide), TWO_32) / 256));
  }

  method ReadZipListInt(buf: seq<byte>, cursor: nat, header: byte) returns (r: Option<seq<byte>>, cursor': nat)
    requires cursor <= |buf|
    ensures cursor <= cursor' <= |buf| && Agrees(r, PSmallInt(header, buf[cursor..]), buf[cursor'..])
  {
    hide IntText, PIntText;
    cursor' := cursor;
    if header == 0xfe {
      r, cursor' := ReadIntTextAt(buf, cursor, 1);
    } else if header == 0xc0 {
      r, cursor' := ReadIntTextAt(buf, cursor, 2);
    } else if header == 0xd0 {
      r, cursor' := ReadIntTextAt(buf, cursor, 4);
    } else if header == 0xe0 {
      r, cursor' := ReadIntTextAt(buf, cursor, 8);
    } else if header == 0xf0 {
      r, cursor' := ReadInt24At(buf, cursor);
    } else if header / 16 == 15 {
      r := Some(IntText(header % 16 - 1));
    } else {
      r := None;
    }
  }

  method ReadZipListContent(buf: seq<byte>, cursor: nat) returns (r: Option<seq<byte>>, cursor': nat)
    requires cursor <= |buf|
    ensures cursor <= cursor' <= |buf| && Agrees(r, PContent(buf[cursor..]), buf[cursor'..])
  {
    hide PSmallInt, UnBE;
    var header;
    header, cursor' := ReadByteAt(buf, cursor);
    if header.None? {
      return None, cursor';
    }
    var h := header.value;
    if h < 64 {
      r, cursor' := ReadBytesAt(buf, cursor', h);
    } else if h < 128 {
      var b;
      b, cursor' := ReadByteAt(buf, cursor');
      if b.None? {
        return None, cursor';
      }
      r, cursor' := ReadBytesAt(buf, cursor', (h as int - 64) * 256 + b.value);
    } else if h < 192 {
      var lenBytes;
      lenBytes, cursor' := ReadBytesAt(buf, cursor', 4);
      if lenBytes.None? {
        return None, cursor';
      }
      r, cursor' := ReadBytesAt(buf, cursor', UnBE(lenBytes.value));
    } else {
      r, cursor' := ReadZipListInt(buf, cursor', h);
    }
  }

  /** readZipListEntry: the back link is skipped, not read. */
  method ReadZipListEntry(buf: seq<byte>, cursor: nat) returns (r: Option<seq<byte>>, cursor': nat)
    requires cursor <= |buf|
    ensures cursor <= cursor' <= |buf| && Agrees(r, PEntry(buf[cursor..]), buf[cursor'..])
  {
    hide PContent, UnLE;
    var prevLen;
    prevLen, cursor' := ReadByteAt(buf, cursor);
    if prevLen.None? {
      return None, cursor';
    }
    if prevLen.value == BIG_PREV_LEN {
      if cursor' + 4 > |buf| {
        return None, cursor';
      }
      assert buf[cursor'..][4..] == buf[cursor' + 4..];
      cursor' := cursor' + 4;
    }
    r, cursor' := ReadZipListContent(buf, cursor');
  }

  method ReadZipListBuf(buf: seq<byte>) returns (r: Option<Values>)
    ensures r == PZipListBuf(buf)
  {
    hide PEntry, UnLE;
    if |buf| < 10 {
      return None;
    }
    var size := UnLE(buf[8..10]);
    var cursor := 10;
    var entries: Values := [];
    PrependNone(PEntries(buf[10..], size));
    for i := 0 to size
      invariant 10 <= cursor <= |buf|
      invariant PEntries(buf[10..], size) == Prepend(entries, PEntries(buf[cursor..], size - i))
    {
      var entry, cursor' := ReadZipListEntry(buf, cursor);
      if entry.None? {
        return None;
      }
      PrependPush(entries, entry.value, PEntries(buf[cursor'..], size - i - 1));
      entries := entries + [entry.value];
      cursor := cursor';
    }
    assert entries + [] == entries;
    r := Some(entries);
  }

  function Prepend<T>(vs: seq<T>, p: Parsed<seq<T>>): Parsed<seq<T>>
  {
    if p.Got? then Got(vs + p.value, p.rest) else Bad
  }

  lemma PrependPush<T>(vs: seq<T>, v: T, p: Parsed<seq<T>>)
    ensures p.Got? ==> Prepend(vs, Got([v] + p.value, p.rest)) == Prepend(vs + [v], p)
  {
    if p.Got? {
      assert vs + ([v] + p.value) == (vs + [v]) + p.value;
    }
  }

  lemma PrependPage<T>(vs: seq<T>, page: seq<T>, p: Parsed<seq<T>>)
    ensures p.Got? ==> Prepend(vs, Got(page + p.value, p.rest)) == Prepend(vs + page, p)
  {
    if p.Got? {
      assert vs + (page + p.value) == (vs + page) + p.value;
    }
  }

  lemma PrependNone<T>(p: Parsed<seq<T>>)
    ensures Prepend([], p) == p
  {
    if p.Got? {
      assert [] + p.value == p.value;
    }
  }

  lemma PrependEnd<T>(vs: seq<T>, rest: seq<byte>)
    ensures Prepend(vs, Got([], rest)) == Got(vs, rest)
  {
    assert vs + [] == vs;
  }

  method ReadZipHashBuf(buf: seq<byte>) returns (r: Option<Fields>)
    ensures r == PZipHashBuf(buf)
  {
    hide PEntry, UnLE;
    if |buf| < 10 {
      return None;
    }
    var size := UnLE(buf[8..10]);
    var cursor := 10;
    var m: Fields := map[];
    var i := 0;
    while i < size
      invariant 10 <= cursor <= |buf| && 0 <= i <= size + 1
      invariant PZipPairs(buf[10..], size, map[]) == PZipPairs(buf[cursor..], if i < size then size - i else 0, m)
    {
      var key, cursor1 := ReadZipListEntry(buf, cursor);
      if key.None? {
        return None;
      }
      var val, cursor2 := ReadZipListEntry(buf, cursor1);
      if val.None? {
        return None;
      }
      m := m[key.value := val.value];
      cursor := cursor2;
      i := i + 2;
    }
    r := Some(m);
  }

  method ReadIntSetBuf(buf: seq<byte>) returns (r: Option<Values>)
    ensures r == PIntSetBuf(buf)
  {
    hide UnLE, IntText, Pow256;
    if |buf| < 8 {
      return None;
    }
    var intSize := UnLE(buf[..4]);
    if intSize != 2 && intSize != 4 && intSize != 8 {
      return None;
    }
    var cardinality := UnLE(buf[4..8]);
    var cursor := 8;
    var result: Values := [];
    BehindNone(PInts(buf[8..], intSize, cardinality));
    for i := 0 to cardinality
      invariant 8 <= cursor <= |buf|
      invariant PInts(buf[8..], intSize, cardinality) == Behind(result, PInts(buf[cursor..], intSize, cardinality - i))
    {
      var bs, cursor' := ReadBytesAt(buf, cursor, intSize);
      if bs.None? {
        return None;
      }
      var text := IntText(Signed(UnLE(bs.value), Pow256(intSize)));
      BehindPush(result, text, PInts(buf[cursor'..], intSize, cardinality - i - 1));
      result := result + [text];
      cursor := cursor';
    }
    assert result + [] == result;
    r := Some(result);
  }

  function Behind(vs: Values, r: Option<Values>): Option<Values>
  {
    if r.Some? then Some(vs + r.value) else None
  }

  lemma BehindPush(vs: Values, v: seq<byte>, r: Option<Values>)
    ensures r.Some? ==> Behind(vs, Some([v] + r.value)) == Behind(vs + [v], r)
  {
    if r.Some? {
      assert vs + ([v] + r.value) == (vs + [v]) + r.value;
    }
  }

  lemma BehindNone(r: Option<Values>)
    ensures Behind([], r) == r
  {
    if r.Some? {
      assert [] + r.value == r.value;
    }
  }

  // ----- the decoder

  lemma ExPairsEnd(s: seq<byte>, rc: bool, base: int, h: HashEx)
    ensures PExPairs(s, 0, rc, base, h) == Got(h, s)
  {
  }

  /** How a turn of the loop in parse ends: continue, break, or return of an error. */
  datatype Step = Continue(ctx: Context, events: seq<Event>) | Break | Error

  ghost predicate Took(step: Step, turn: Turn, rest: seq<byte>)
  {
    match step
    case Continue(ctx, events) => turn == Next(rest, ctx, events)
    case Break => turn == Leave
    case Error => turn == Fail
  }

  class Decoder {
    const input: seq<byte>
    const withSpecialOpCode: bool
    var readCount: nat
    var valkey: bool
    const buffer: array<byte>

    ghost predicate Valid()
      reads this
    {
      readCount <= |input| && buffer.Length == 8
    }

    ghost function Rest(): seq<byte>
      requires Valid()
      reads this
    {
      input[readCount..]
    }

    constructor (input: seq<byte>, withSpecialOpCode: bool)
      ensures Valid() && Rest() == input && this.withSpecialOpCode == withSpecialOpCode && fresh(buffer)
    {
      this.input := input;
      this.withSpecialOpCode := withSpecialOpCode;
      this.valkey := false;
      this.readCount := 0;
      this.buffer := new byte[8](_ => 0);
    }

    method ReadByte() returns (r: Option<byte>)
      requires Valid()
      modifies `readCount, buffer
      ensures Valid() && Agrees(r, PByte(old(Rest())), Rest())
    {
      if readCount >= |input| {
        return None;
      }
      r := Some(input[readCount]);
      readCount := readCount + 1;
    }

    /** io.ReadFull into the first n bytes of buf. */
    method ReadFull(buf: array<byte>, n: nat) returns (ok: bool)
      requires Valid() && n <= buf.Length
      modifies `readCount, buf
      ensures Valid() && Agrees(if ok then Some(buf[..n]) else None, PBytes(old(Rest()), n), Rest())
    {
      if readCount + n > |input| {
        return false;
      }
      forall i | 0 <= i < n {
        buf[i] := input[readCount + i];
      }
      assert buf[..n] == input[readCount..][..n];
      assert input[readCount..][n..] == input[readCount + n..];
      readCount := readCount + n;
      ok := true;
    }

    /** A freshly allocated slice of n bytes, filled. */
    method ReadNew(n: nat) returns (r: Option<seq<byte>>)
      requires Valid()
      modifies `readCount, buffer
      ensures Valid() && Agrees(r, PBytes(old(Rest()), n), Rest())
    {
      var res := new byte[n](_ => 0);
      var ok := ReadFull(res, n);
      r := if ok then Some(res[..n]) else None;
    }

    /** readLength */
    method ReadLength() returns (r: Option<Length>)
      requires Valid()
      modifies `readCount, buffer
      ensures Valid() && Agrees(r, PLength(old(Rest())), Rest())
    {
      hide UnBE;
      var first := ReadByte();
      if first.None? {
        return None;
      }
      var b := first.value;
      if b < 64 {
        r := Some(Length(b, false));
      } else if b < 128 {
        var next := ReadByte();
        if next.None? {
          return None;
        }
        r := Some(Length((b as int - 64) * 256 + next.value, false));
      } else if b < 192 {
        var n := 0;
        if b == LEN_32BIT {
          n := 4;
        } else if b == LEN_64BIT {
          n := 8;
        } else {
          return None;
        }
        var ok := ReadFull(buffer, n);
        if !ok {
          return None;
        }
        r := Some(Length(UnBE(buffer[..n]), false));
      } else {
        r := Some(Length(b - 192, true));
      }
    }

    /** readInt16 and readInt32, and the single byte of the int8 form, as text. */
    method ReadIntText(n: nat) returns (r: Option<seq<byte>>)
      requires Valid() && n <= 8
      modifies `readCount, buffer
      ensures Valid() && Agrees(r, PIntText(old(Rest()), n), Rest())
    {
      hide IntText, UnLE;
      var ok := ReadFull(buffer, n);
      r := if ok then Some(IntText(Signed(UnLE(buffer[..n]), Pow256(n)))) else None;
    }

    method ReadInt64() returns (r: Option<int>)
      requires Valid()
      modifies `readCount, buffer
      ensures Valid() && Agrees(r, PInt64(old(Rest())), Rest())
    {
      hide UnLE;
      var ok := ReadFull(buffer, 8);
      r := if ok then Some(Signed(UnLE(buffer[..8]), TWO_64)) else None;
    }

    method ReadLZF() returns (r: Option<seq<byte>>)
      requires Valid()
      modifies `readCount, buffer
      ensures Valid() && Agrees(r, PLzf(old(Rest())), Rest())
    {
      hide PLength, Lzf.Expand;
      var inLen := ReadLength();
      if inLen.None? {
        return None;
      }
      var outLen := ReadLength();
      if outLen.None? {
        return None;
      }
      var val := ReadNew(inLen.value.value);
      if val.None? || outLen.value.value >= TWO_63 {
        return None;
      }
      assert val.value[..|val.value|] == val.value;
      var d := Lzf.Decompress(val.value, |val.value|, outLen.value.value);
      r := if d.Ok? then Some(d.bytes) else None;
    }

    /** readString */
    method ReadString() returns (r: Option<seq<byte>>)
      requires Valid()
      modifies `readCount, buffer
      ensures Valid() && Agrees(r, PString(old(Rest())), Rest())
    {
      hide PLength, PIntText, PLzf;
      var length := ReadLength();
      if length.None? {
        return None;
      }
      var n := length.value.value;
      if length.value.special {
        if n == 0 {
          r := ReadIntText(1);
        } else if n == 1 {
          r := ReadIntText(2);
        } else if n == 2 {
          r := ReadIntText(4);
        } else if n == 3 {
          r := ReadLZF();
        } else {
          r := None;
        }
        return;
      }
      r := ReadNew(n);
    }

    method ReadZipList() returns (r: Option<Values>)
      requires Valid()
      modifies `readCount, buffer
      ensures Valid() && Agrees(r, PZipList(old(Rest())), Rest())
    {
      hide PString, PZipListBuf;
      var buf := ReadString();
      if buf.None? {
        return None;
      }
      r := ReadZipListBuf(buf.value);
    }

    method ReadZipListHash() returns (r: Option<Fields>)
      requires Valid()
      modifies `readCount, buffer
      ensures Valid() && Agrees(r, PZipHash(old(Rest())), Rest())
    {
      hide PString, PZipHashBuf;
      var buf := ReadString();
      if buf.None? {
        return None;
      }
      r := ReadZipHashBuf(buf.value);
    }

    method ReadIntSet() returns (r: Option<Values>)
      requires Valid()
      modifies `readCount, buffer
      ensures Valid() && Agrees(r, PIntSet(old(Rest())), Rest())
    {
      hide PString, PIntSetBuf;
      var buf := ReadString();
      if buf.None? {
        return None;
      }
      r := ReadIntSetBuf(buf.value);
    }

    /** The loop shared by readList and readSet. */
    method ReadStrings(size: nat) returns (r: Option<Values>)
      requires Valid()
      modifies `readCount, buffer
      ensures Valid() && Agrees(r, PStrings(old(Rest()), size), Rest())
    {
      hide PString;
      var values: Values := [];
      PrependNone(PStrings(Rest(), size));
      for i := 0 to size
        invariant Valid()
        invariant PStrings(old(Rest()), size) == Prepend(values, PStrings(Rest(), size - i))
      {
        var val := ReadString();
        if val.None? {
          return None;
        }
        PrependPush(values, val.value, PStrings(Rest(), size - i - 1));
        values := values + [val.value];
      }
      PrependEnd(values, Rest());
      r := Some(values);
    }

    /** readList and readSet: a negative capacity panics. */
    method ReadSet() returns (r: Option<Values>)
      requires Valid()
      modifies `readCount, buffer
      ensures Valid() && Agrees(r, PSet(old(Rest())), Rest())
    {
      hide PLength, PStrings;
      var size := ReadLength();
      if size.None? || size.value.value >= TWO_63 {
        return None;
      }
      r := ReadStrings(size.value.value);
    }

    method ReadQuickList() returns (r: Option<Values>)
      requires Valid()
      modifies `readCount, buffer
      ensures Valid() && Agrees(r, PQuickList(old(Rest())), Rest())
    {
      hide PLength, PZipList;
      var size := ReadLength();
      if size.None? {
        return None;
      }
      var n := LoopCount(size.value.value);
      var entries: Values := [];
      ghost var start := Rest();
      PrependNone(PPages(start, n));
      for i := 0 to n
        invariant Valid()
        invariant PPages(start, n) == Prepend(entries, PPages(Rest(), n - i))
      {
        var page := ReadZipList();
        if page.None? {
          return None;
        }
        PrependPage(entries, page.value, PPages(Rest(), n - i - 1));
        entries := entries + page.value;
      }
      PrependEnd(entries, Rest());
      r := Some(entries);
    }

    method ReadHashMap() returns (r: Option<Fields>)
      requires Valid()
      modifies `readCount, buffer
      ensures Valid() && Agrees(r, PHash(old(Rest())), Rest())
    {
      hide PLength, PString;
      var size := ReadLength();
      if size.None? {
        return None;
      }
      var n := LoopCount(size.value.value);
      var m: Fields := map[];
      ghost var start := Rest();
      for i := 0 to n
        invariant Valid()
        invariant PPairs(start, n, map[]) == PPairs(Rest(), n - i, m)
      {
        var field := ReadString();
        if field.None? {
          return None;
        }
        var value := ReadString();
        if value.None? {
          return None;
        }
        m := m[field.value := value.value];
      }
      r := Some(m);
    }

    /** One field of readHashMapEx: its expiration, name and value. */
    method ReadFieldEx(rc: bool, minExpire: int, h: HashEx, ghost n: nat) returns (r: Option<HashEx>)
      requires Valid() && n > 0
      modifies `readCount, buffer
      ensures Valid()
      ensures PExPairs(old(Rest()), n, rc, minExpire, h) ==
              if r.None? then Bad else PExPairs(Rest(), n - 1, rc, minExpire, r.value)
    {
      hide PLength, PString, DecRelative, DecRc;
      var ttl := ReadLength();
      if ttl.None? {
        return None;
      }
      var expire := if rc then DecRc(ttl.value.value) else DecRelative(ttl.value.value, minExpire);
      if expire.None? {
        return None;
      }
      var field := ReadString();
      if field.None? {
        return None;
      }
      var value := ReadString();
      if value.None? {
        return None;
      }
      r := Some(HashEx(h.fields[field.value := value.value], h.expires[field.value := expire.value]));
    }

    method ReadHashMapExBody(rc: bool, minExpire: int) returns (r: Option<HashEx>)
      requires Valid()
      modifies `readCount, buffer
      ensures Valid() && Agrees(r, PExBody(old(Rest()), rc, minExpire), Rest())
    {
      hide PLength, PExPairs;
      var size := ReadLength();
      if size.None? || size.value.value == 0 {
        return None;
      }
      var n := LoopCount(size.value.value);
      var h := HashEx(map[], map[]);
      ghost var start := Rest();
      for i := 0 to n
        invariant Valid()
        invariant PExPairs(start, n, rc, minExpire, HashEx(map[], map[])) == PExPairs(Rest(), n - i, rc, minExpire, h)
      {
        var next := ReadFieldEx(rc, minExpire, h, n - i);
        if next.None? {
          return None;
        }
        h := next.value;
      }
      ExPairsEnd(Rest(), rc, minExpire, h);
      r := Some(h);
    }

    /** readHashMapEx */
    method ReadHashMapEx(rc: bool) returns (r: Option<HashEx>)
      requires Valid()
      modifies `readCount, buffer
      ensures Valid() && Agrees(r, PHashEx(old(Rest()), rc), Rest())
    {
      hide PExBody, PInt64;
      var minExpire := EB_EXPIRE_TIME_INVALID;
      if !rc {
        var min := ReadInt64();
        if min.None? || min.value > EB_EXPIRE_TIME_INVALID {
          return None;
        }
        minExpire := min.value;
      }
      r := ReadHashMapExBody(rc, minExpire);
    }

    method ReadHashMapExValkey() returns (r: Option<HashEx>)
      requires Valid()
      modifies `readCount, buffer
      ensures Valid() && Agrees(r, PHashValkey(old(Rest())), Rest())
    {
      hide PLength, PString, PInt64;
      var size := ReadLength();
      if size.None? || size.value.value == 0 {
        return None;
      }
      var n := LoopCount(size.value.value);
      var h := HashEx(map[], map[]);
      ghost var start := Rest();
      for i := 0 to n
        invariant Valid()
        invariant PPairsValkey(start, n, HashEx(map[], map[])) == PPairsValkey(Rest(), n - i, h)
      {
        var field := ReadString();
        if field.None? {
          return None;
        }
        var value := ReadString();
        if value.None? {
          return None;
        }
        var expire := ReadInt64();
        if expire.None? {
          return None;
        }
        var expireAt := if expire.value < 0 then 0 else expire.value;
        h := HashEx(h.fields[field.value := value.value], h.expires[field.value := expireAt]);
      }
      r := Some(h);
    }

    /** readObject */
    method ReadObject(flag: byte) returns (r: Option<Value>)
      requires Valid()
      modifies `readCount, buffer
      ensures Valid() && Agrees(r, PObject(flag, old(Rest()), valkey), Rest())
    {
      hide PString, PSet, PIntSet, PHash, PZipList, PQuickList, PZipHash, PHashValkey, PHashEx;
      if flag == TYPE_STRING {
        var s := ReadString();
        r := if s.Some? then Some(StringV(s.value)) else None;
      } else if flag == TYPE_LIST || flag == TYPE_SET {
        var s := ReadSet();
        r := if s.None? then None else Some(if flag == TYPE_LIST then ListV(s.value) else SetV(s.value));
      } else if flag == TYPE_SET_INTSET {
        var s := ReadIntSet();
        r := if s.Some? then Some(SetV(s.value)) else None;
      } else if flag == TYPE_LIST_ZIPLIST || flag == TYPE_LIST_QUICKLIST {
        var l;
        if flag == TYPE_LIST_ZIPLIST {
          l := ReadZipList();
        } else {
          l := ReadQuickList();
        }
        r := if l.Some? then Some(ListV(l.value)) else None;
      } else {
        r := ReadHashObject(flag);
      }
    }

    method ReadHashObject(flag: byte) returns (r: Option<Value>)
      requires Valid()
      requires flag !in {TYPE_STRING, TYPE_LIST, TYPE_SET, TYPE_SET_INTSET, TYPE_LIST_ZIPLIST, TYPE_LIST_QUICKLIST}
      modifies `readCount, buffer
      ensures Valid() && Agrees(r, PObject(flag, old(Rest()), valkey), Rest())
    {
      hide PString, PSet, PIntSet, PHash, PZipList, PQuickList, PZipHash, PHashValkey, PHashEx;
      if flag == TYPE_HASH || flag == TYPE_HASH_ZIPLIST {
        var m;
        if flag == TYPE_HASH {
          m := ReadHashMap();
        } else {
          m := ReadZipListHash();
        }
        r := if m.Some? then Some(HashV(m.value, map[])) else None;
      } else if flag == TYPE_HASH2 || flag == TYPE_HASH_HFE {
        var h;
        if valkey {
          h := ReadHashMapExValkey();
        } else {
          h := ReadHashMapEx(flag == TYPE_HASH2);
        }
        r := if h.Some? then Some(HashV(h.value.fields, h.value.expires)) else None;
      } else {
        r := None;
      }
    }

    // ----- parse

    method CheckHeader() returns (version: Option<int>)
      requires Valid()
      modifies `readCount, `valkey, buffer
      ensures Valid()
      ensures Agrees(if version.None? then None
                     else Some(if valkey then Valkey(version.value) else Redis(version.value)),
                     PHeader(old(Rest())), Rest())
    {
      hide Atoi;
      var header := ReadNew(9);
      if header.None? {
        return None;
      }
      var h := header.value;
      if REDIS <= h {
        valkey := false;
        version := Atoi(h[5..]);
      } else if VALKEY <= h {
        valkey := true;
        version := Atoi(h[6..]);
      } else {
        return None;
      }
      if version.Some? && (if valkey then version.value != 80 else version.value < 1 || version.value > 12) {
        version := None;
      }
    }

    method OnSelectDB(ctx: Context) returns (step: Step)
      requires Valid()
      modifies `readCount, buffer
      ensures Valid() && Took(step, TurnSelectDB(old(Rest()), ctx), Rest())
    {
      hide PLength, ToInt64;
      var dbIndex := ReadLength();
      step := if dbIndex.None? then Error else Continue(ctx.(db := ToInt64(dbIndex.value.value)), []);
    }

    method OnExpireTime(ctx: Context) returns (step: Step)
      requires Valid()
      modifies `readCount, buffer
      ensures Valid() && Took(step, TurnExpireSec(old(Rest()), ctx), Rest())
    {
      hide UnLE;
      var ok := ReadFull(buffer, 4);
      step := if ok then Continue(ctx.(expireMs := UnLE(buffer[..4]) * 1000), []) else Error;
    }

    method OnExpireTimeMs(ctx: Context) returns (step: Step)
      requires Valid()
      modifies `readCount, buffer
      ensures Valid() && Took(step, TurnExpireMs(old(Rest()), ctx), Rest())
    {
      hide PInt64;
      var ms := ReadInt64();
      step := if ms.None? then Error else Continue(ctx.(expireMs := ms.value), []);
    }

    method OnResizeDB(ctx: Context) returns (step: Step)
      requires Valid()
      modifies `readCount, buffer
      ensures Valid() && Took(step, TurnResizeDB(old(Rest()), ctx, withSpecialOpCode), Rest())
    {
      hide PLength;
      var keyCount := ReadLength();
      if keyCount.None? {
        return Error;
      }
      var ttlCount := ReadLength();
      if ttlCount.None? {
        return Break;
      }
      step := Continue(ctx, if withSpecialOpCode then [SizeEvent(ctx.db, keyCount.value.value, ttlCount.value.value)]
                            else []);
    }

    method OnAux(ctx: Context) returns (step: Step)
      requires Valid()
      modifies `readCount, buffer
      ensures Valid() && Took(step, TurnAux(old(Rest()), ctx, withSpecialOpCode), Rest())
    {
      hide PString;
      var key := ReadString();
      if key.None? {
        return Error;
      }
      var value := ReadString();
      if value.None? {
        return Break;
      }
      step := Continue(ctx, if withSpecialOpCode then [AuxEvent(key.value, value.value)] else []);
    }

    method OnFreq(ctx: Context) returns (step: Step)
      requires Valid()
      modifies `readCount, buffer
      ensures Valid() && Took(step, TurnFreq(old(Rest()), ctx), Rest())
    {
      hide PLength;
      var freq := ReadByte();
      step := if freq.None? then Error else Continue(ctx.(lfu := Some(freq.value)), []);
    }

    method OnIdle(ctx: Context) returns (step: Step)
      requires Valid()
      modifies `readCount, buffer
      ensures Valid() && Took(step, TurnIdle(old(Rest()), ctx), Rest())
    {
      hide PLength, ToInt64;
      var idle := ReadLength();
      step := if idle.None? then Error else Continue(ctx.(lru := Some(ToInt64(idle.value.value))), []);
    }

    method OnFunction(ctx: Context) returns (step: Step)
      requires Valid()
      modifies `readCount, buffer
      ensures Valid() && Took(step, TurnFunction(old(Rest()), ctx, withSpecialOpCode), Rest())
    {
      hide PString;
      var lua := ReadString();
      if lua.None? {
        return Error;
      }
      step := Continue(ctx, if withSpecialOpCode then [FunctionsEvent(lua.value)] else []);
    }

    method SkipLengths(n: nat) returns (ok: bool)
      requires Valid()
      modifies `readCount, buffer
      ensures Valid() && Agrees(if ok then Some(()) else None, PSkipLengths(old(Rest()), n), Rest())
    {
      hide PLength;
      for i := 0 to n
        invariant Valid() && PSkipLengths(old(Rest()), n) == PSkipLengths(Rest(), n - i)
      {
        var length := ReadLength();
        if length.None? {
          return false;
        }
      }
      ok := true;
    }

    method OnSlotInfo(ctx: Context) returns (step: Step)
      requires Valid()
      modifies `readCount, buffer
      ensures Valid() && Took(step, TurnSlotInfo(old(Rest()), ctx, valkey), Rest())
    {
      hide PSkipLengths;
      if !valkey {
        return Error;
      }
      var ok := SkipLengths(3);
      step := if ok then Continue(ctx, []) else Error;
    }

    method OnSlotImport(ctx: Context) returns (step: Step)
      requires Valid()
      modifies `readCount, buffer
      ensures Valid() && Took(step, TurnSlotImport(old(Rest()), ctx, valkey), Rest())
    {
      hide PSkipLengths, PString, PLength;
      if !valkey {
        return Error;
      }
      var job := ReadString();
      if job.None? {
        return Error;
      }
      var ranges := ReadLength();
      if ranges.None? || ranges.value.value >= TWO_63 {
        return Error;
      }
      var ok := SkipLengths(2 * ranges.value.value);
      step := if ok then Continue(ctx, []) else Error;
    }

    method OnObject(flag: byte, ctx: Context) returns (step: Step)
      requires Valid()
      modifies `readCount, buffer
      ensures Valid() && Took(step, TurnObject(flag, old(Rest()), ctx, valkey), Rest())
    {
      hide PString, PObject;
      var key := ReadString();
      if key.None? {
        return Error;
      }
      var expiration := if ctx.expireMs > 0 then Some(ctx.expireMs) else None;
      var expireMs := if ctx.expireMs > 0 then 0 else ctx.expireMs;
      var obj := ReadObject(flag);
      if obj.None? {
        return Error;
      }
      step := Continue(Context(ctx.db, expireMs, None, None),
                       [ObjectEvent(ctx.db, key.value, expiration, ctx.lru, ctx.lfu, obj.value)]);
    }

    /** The dispatch on the byte that starts a turn. */
    method OnByte(b: byte, ctx: Context) returns (step: Step)
      requires Valid()
      modifies `readCount, buffer
      ensures Valid() && Took(step, TakeTurn([b] + old(Rest()), ctx, valkey, withSpecialOpCode), Rest())
    {
      hide TurnSelectDB, TurnExpireSec, TurnExpireMs, TurnResizeDB, TurnAux, TurnFreq, TurnIdle, TurnFunction,
           TurnSlotInfo, TurnSlotImport, TurnObject;
      assert ([b] + Rest())[1..] == Rest();
      if b == OP_EOF {
        step := Break;
      } else if b == OP_SELECT_DB {
        step := OnSelectDB(ctx);
      } else if b == OP_EXPIRE_SEC {
        step := OnExpireTime(ctx);
      } else if b == OP_EXPIRE_MS {
        step := OnExpireTimeMs(ctx);
      } else if b == OP_RESIZE_DB {
        step := OnResizeDB(ctx);
      } else if b == OP_AUX {
        step := OnAux(ctx);
      } else if b == OP_FREQ {
        step := OnFreq(ctx);
      } else if b == OP_IDLE {
        step := OnIdle(ctx);
      } else if b == OP_MODULE_AUX {
        step := Error;
      } else if b == OP_FUNCTION {
        step := OnFunction(ctx);
      } else if b == OP_SLOT_INFO {
        step := OnSlotInfo(ctx);
      } else if b == OP_SLOT_IMPORT {
        step := OnSlotImport(ctx);
      } else {
        step := OnObject(b, ctx);
      }
    }

    /** The loop of parse; the events are the calls of the callback, in order. */
    method ParseLoop(cb: seq<Event> -> bool) returns (events: seq<Event>, ok: bool)
      requires Valid()
      modifies `readCount, buffer
      ensures Valid() && Outcome(events, ok) == Until(ParseFrom(old(Rest()), Fresh, valkey, withSpecialOpCode), cb, 0)
    {
      hide ParseFrom, TakeTurn, After;
      var ctx := Fresh;
      events := [];
      ghost var all := ParseFrom(Rest(), ctx, valkey, withSpecialOpCode);
      NothingBefore(all);
      while true
        invariant Valid()
        invariant all == After(events, ParseFrom(Rest(), ctx, valkey, withSpecialOpCode))
        invariant Until(all, cb, 0) == Until(all, cb, |events|)
        decreases |Rest()|
      {
        ghost var before := Rest();
        var b := ReadByte();
        if b.None? {
          EndOfInput(events, ctx, valkey, withSpecialOpCode);
          return events, false;
        }
        assert before == [b.value] + Rest();
        var step := OnByte(b.value, ctx);
        LoopStep(events, before, ctx, valkey, withSpecialOpCode, step, Rest());
        if step.Error? {
          return events, false;
        }
        if step.Break? {
          break;
        }
        UntilStep(events, step.events, ParseFrom(Rest(), step.ctx, valkey, withSpecialOpCode), cb);
        ctx, events := step.ctx, events + step.events;
        if step.events != [] && !cb(events) {
          break;
        }
      }
      var checksum := ReadFull(buffer, 8);
      ok := true;
    }

    method Parse(cb: seq<Event> -> bool) returns (events: seq<Event>, ok: bool)
      requires Valid()
      modifies `readCount, `valkey, buffer
      ensures Valid() && Outcome(events, ok) == Until(ParseFile(old(Rest()), withSpecialOpCode), cb, 0)
    {
      hide PHeader, ParseFrom;
      var version := CheckHeader();
      if version.None? {
        return [], false;
      }
      events, ok := ParseLoop(cb);
    }
  }

  /** An outcome of the rest of the loop, after some events. */
  ghost function After(events: seq<Event>, o: Outcome): Outcome
  {
    Outcome(events + o.events, o.ok)
  }

  lemma NothingBefore(o: Outcome)
    ensures After([], o) == o
  {
    assert [] + o.events == o.events;
  }

  lemma EndOfInput(events: seq<Event>, ctx: Context, valkey: bool, special: bool)
    ensures After(events, ParseFrom([], ctx, valkey, special)) == Outcome(events, false)
  {
    assert events + [] == events;
  }

  /** What the callback says of the event just delivered decides whether the loop goes on. */
  lemma UntilStep(events: seq<Event>, delivered: seq<Event>, o: Outcome, cb: seq<Event> -> bool)
    requires |delivered| <= 1
    ensures Until(After(events + delivered, o), cb, |events|) ==
            if delivered != [] && !cb(events + delivered) then Outcome(events + delivered, true)
            else Until(After(events + delivered, o), cb, |events + delivered|)
  {
    if delivered != [] {
      assert After(events + delivered, o).events[..|events| + 1] == events + delivered;
    }
  }

  lemma LoopStep(events: seq<Event>, s: seq<byte>, ctx: Context, valkey: bool, special: bool, step: Step,
                 rest: seq<byte>)
    requires Took(step, TakeTurn(s, ctx, valkey, special), rest)
    ensures |rest| < |s| || !step.Continue?
    ensures step.Error? ==> After(events, ParseFrom(s, ctx, valkey, special)) == Outcome(events, false)
    ensures step.Break? ==> After(events, ParseFrom(s, ctx, valkey, special)) == Outcome(events, true)
    ensures step.Continue? ==> |step.events| <= 1
    ensures step.Continue? ==> After(events, ParseFrom(s, ctx, valkey, special)) ==
                               After(events + step.events, ParseFrom(rest, step.ctx, valkey, special))
  {
    OneEvent(s, ctx, valkey, special);
    hide TakeTurn;
    if step.Continue? {
      var o := ParseFrom(rest, step.ctx, valkey, special);
      assert events + (step.events + o.events) == (events + step.events) + o.events;
    } else {
      assert events + [] == events;
    }
  }
}
