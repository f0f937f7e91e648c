/**
 Hash objects: field-value pairs, plain, as a ziplist, or with field expirations in the Redis form
 (relative to the least expiration) or the Valkey form (absolute). The order in which the original
 ranges over a map is arbitrary and is a parameter here.
 */
module Hashes {
  import opened Bytes
  import opened Parsing
  import opened RdbString
  import opened ZipList
  import opened Lists

  const EB_EXPIRE_TIME_MAX := 0x0000_FFFF_FFFF_FFFF
  const EB_EXPIRE_TIME_INVALID := EB_EXPIRE_TIME_MAX + 1

  type Fields = map<seq<byte>, seq<byte>>
  type Expires = map<seq<byte>, int>

  /** order is one of the orders in which a range over the keys may run. */
  ghost predicate Enumerates(order: Values, keys: set<seq<byte>>)
  {
    |order| == |keys| && forall f :: f in order <==> f in keys
  }

  predicate InMap(order: Values, m: Fields)
  {
    forall i :: 0 <= i < |order| ==> order[i] in m
  }

  predicate PairsWritable(order: Values, m: Fields, compress: bool)
  {
    InMap(order, m) && forall i :: 0 <= i < |order| ==> Writable(order[i], compress) && Writable(m[order[i]], compress)
  }

  /** The part of m under the listed fields. */
  function Restrict(m: Fields, order: Values): Fields
    requires InMap(order, m)
  {
    map f | f in order :: m[f]
  }

  lemma RestrictAll(m: Fields, order: Values)
    requires Enumerates(order, m.Keys)
    ensures InMap(order, m) && map[] + Restrict(m, order) == m
  {
    assert Restrict(m, order) == m;
  }

  /** Recording the first field and then the rest is recording them all. */
  lemma RestrictStep(m: Fields, order: Values, acc: Fields)
    requires InMap(order, m)
    ensures order == [] ==> acc + Restrict(m, order) == acc
    ensures order != [] ==>
              InMap(order[1..], m) && acc[order[0] := m[order[0]]] + Restrict(m, order[1..]) == acc + Restrict(m, order)
  {
    if order != [] {
      var f := order[0];
      assert forall g :: g in order <==> g == f || g in order[1..];
    }
  }

  // ----- plain hashes

  function EncPairs(order: Values, m: Fields, compress: bool): seq<byte>
    requires PairsWritable(order, m, compress)
  {
    if order == [] then []
    else EncString(order[0], compress) + (EncString(m[order[0]], compress) + EncPairs(order[1..], m, compress))
  }

  function PPairs(s: seq<byte>, n: nat, m: Fields): (p: Parsed<Fields>)
    ensures p.Got? ==> |p.rest| <= |s|
    decreases n
  {
    if n == 0 then Got(m, s)
    else
      var (f, t) :- PString(s);
      var (v, u) :- PString(t);
      PPairs(u, n - 1, m[f := v])
  }

  /** readHashMap */
  function PHash(s: seq<byte>): (p: Parsed<Fields>)
    ensures p.Got? ==> |p.rest| < |s|
  {
    var (len, t) :- PLength(s);
    PPairs(t, LoopCount(len.value), map[])
  }

  lemma {:induction false} PairsRoundTrip(order: Values, m: Fields, compress: bool, acc: Fields, t: seq<byte>)
    requires PairsWritable(order, m, compress)
    ensures PPairs(EncPairs(order, m, compress) + t, |order|, acc) == Got(acc + Restrict(m, order), t)
    decreases |order|
  {
    hide PString, EncString, Writable, Restrict;
    RestrictStep(m, order, acc);
    if order == [] {
      assert EncPairs(order, m, compress) + t == t;
    } else {
      var f := order[0];
      var rest := EncPairs(order[1..], m, compress);
      var ef, ev := EncString(f, compress), EncString(m[f], compress);
      Assoc3(ef, ev, rest, t);
      StringRoundTrip(f, compress, ev + (rest + t));
      StringRoundTrip(m[f], compress, rest + t);
      PairsRoundTrip(order[1..], m, compress, acc[f := m[f]], t);
    }
  }

  lemma HashRoundTrip(order: Values, m: Fields, compress: bool, t: seq<byte>)
    requires Enumerates(order, m.Keys) && PairsWritable(order, m, compress) && |m| < TWO_63
    ensures PHash(EncLength(|m|) + EncPairs(order, m, compress) + t) == Got(m, t)
  {
    hide EncLength, PLength, EncPairs, PPairs, PairsWritable, Restrict;
    Assoc(EncLength(|m|), EncPairs(order, m, compress), t);
    LengthRoundTrip(|m|, EncPairs(order, m, compress) + t);
    PairsRoundTrip(order, m, compress, map[], t);
    RestrictAll(m, order);
  }

  // ----- ziplist hashes

  /** The entries of a ziplist hash: each field followed by its value. */
  function Flatten(order: Values, m: Fields): (r: Values)
    requires InMap(order, m)
    ensures |r| == 2 * |order|
  {
    if order == [] then [] else [order[0], m[order[0]]] + Flatten(order[1..], m)
  }

  /** for i := 0; i < size; i += 2: two entries a pass, rounding an odd count up. */
  function PZipPairs(s: seq<byte>, size: nat, m: Fields): Option<Fields>
    decreases size
  {
    if size == 0 then Some(m)
    else
      match PEntry(s)
      case Bad => None
      case Got(f, t) =>
        match PEntry(t)
        case Bad => None
        case Got(v, u) => PZipPairs(u, if size == 1 then 0 else size - 2, m[f := v])
  }

  /** readZipListHash */
  function PZipHash(s: seq<byte>): (p: Parsed<Fields>)
    ensures p.Got? ==> |p.rest| < |s|
  {
    var (buf, t) :- PString(s);
    match PZipHashBuf(buf)
    case Some(m) => Got(m, t)
    case None => Bad
  }

  function PZipHashBuf(buf: seq<byte>): Option<Fields>
  {
    if |buf| < 10 then None else PZipPairs(buf[10..], UnLE(buf[8..10]), map[])
  }

  /** The map made from entries read in pairs. */
  function FieldsOf(entries: Values, m: Fields): Fields
    decreases |entries|
  {
    if |entries| < 2 then m else FieldsOf(entries[2..], m[entries[0] := entries[1]])
  }

  /** Reading pairs is reading entries and pairing them up. */
  lemma {:induction false} PairsAreEntries(s: seq<byte>, n: nat, m: Fields)
    ensures PZipPairs(s, 2 * n, m) ==
            if PEntries(s, 2 * n).Got? then Some(FieldsOf(PEntries(s, 2 * n).value, m)) else None
    decreases n
  {
    hide PEntry;
    if n > 0 && PEntry(s).Got? {
      var f, t := PEntry(s).value, PEntry(s).rest;
      assert PEntries(t, 2 * n - 1) ==
             match PEntry(t)
             case Bad => Bad
             case Got(v, u) =>
               if PEntries(u, 2 * n - 2).Got?
               then Got([v] + PEntries(u, 2 * n - 2).value, PEntries(u, 2 * n - 2).rest) else Bad;
      if PEntry(t).Got? {
        var v, u := PEntry(t).value, PEntry(t).rest;
        PairsAreEntries(u, n - 1, m[f := v]);
        if PEntries(u, 2 * n - 2).Got? {
          PairUp(f, v, PEntries(u, 2 * n - 2).value, m);
        }
      }
    }
  }

  lemma PairUp(f: seq<byte>, v: seq<byte>, entries: Values, m: Fields)
    ensures FieldsOf([f] + ([v] + entries), m) == FieldsOf(entries, m[f := v])
  {
    assert ([f] + ([v] + entries))[2..] == entries;
  }

  lemma FlattenStep(order: Values, m: Fields)
    requires InMap(order, m) && order != []
    ensures Flatten(order, m) == [order[0]] + ([m[order[0]]] + Flatten(order[1..], m))
  {
  }

  lemma {:induction false} FlattenBack(order: Values, m: Fields, acc: Fields)
    requires InMap(order, m)
    ensures FieldsOf(Flatten(order, m), acc) == acc + Restrict(m, order)
    decreases |order|
  {
    hide FieldsOf, Restrict;
    RestrictStep(m, order, acc);
    if order == [] {
      assert FieldsOf([], acc) == acc by {
        NoEntries(acc);
      }
    } else {
      FlattenStep(order, m);
      PairUp(order[0], m[order[0]], Flatten(order[1..], m), acc);
      FlattenBack(order[1..], m, acc[order[0] := m[order[0]]]);
    }
  }

  lemma NoEntries(m: Fields)
    ensures FieldsOf([], m) == m
  {
  }

  /** What a written ziplist hash reads as: its entries, as far as the count goes, paired up. */
  lemma ZipHashRead(order: Values, m: Fields)
    requires InMap(order, m) && AllShort(Flatten(order, m))
    ensures var p := PEntries(Body(Flatten(order, m), 0) + [0xff], 2 * (|order| % 32768));
            PZipHashBuf(EncZipList(Flatten(order, m))) == if p.Got? then Some(FieldsOf(p.value, map[])) else None
  {
    hide EncZipList, Body, PZipPairs, PEntries, UnLE, AllShort, Flatten, FieldsOf, InMap;
    ReaderHeader(Flatten(order, m));
    assert 2 * |order| % 65536 == 2 * (|order| % 32768);
    PairsAreEntries(Body(Flatten(order, m), 0) + [0xff], |order| % 32768, map[]);
  }

  /** A list of entries that comes back, and few enough of them for the 16-bit count. */
  predicate ZipHashOk(order: Values, m: Fields)
  {
    InMap(order, m) && AllShort(Flatten(order, m)) && ListOk(Flatten(order, m)) && |order| <= 32767
  }

  /** The entries of a ziplist hash are read as they were written exactly under that condition. */
  lemma ZipHashEntriesIff(order: Values, m: Fields)
    requires InMap(order, m) && AllShort(Flatten(order, m))
    ensures (PZipListBuf(EncZipList(Flatten(order, m))) == Some(Flatten(order, m))) <==> ZipHashOk(order, m)
  {
    hide EncZipList, PZipListBuf, AllShort, ListOk, Flatten, InMap;
    BufRoundTripIff(Flatten(order, m));
  }

  lemma ZipHashBufRoundTrip(order: Values, m: Fields)
    requires Enumerates(order, m.Keys) && ZipHashOk(order, m)
    ensures PZipHashBuf(EncZipList(Flatten(order, m))) == Some(m)
  {
    hide EncZipList, Body, PZipHashBuf, PEntries, AllShort, ListOk, Restrict, Flatten, Enumerates, FieldsOf, InMap;
    var flat := Flatten(order, m);
    ZipHashRead(order, m);
    EntriesIff(flat, 0, [0xff]);
    FlattenBack(order, m, map[]);
    RestrictAll(m, order);
  }

  /** A ziplist hash reads as its buffer does, and reading stops at its end. */
  lemma ZipHashRecord(order: Values, m: Fields, compress: bool, t: seq<byte>)
    requires InMap(order, m) && AllShort(Flatten(order, m)) && Writable(EncZipList(Flatten(order, m)), compress)
    ensures PZipHash(EncNanString(EncZipList(Flatten(order, m)), compress) + t) ==
            if PZipHashBuf(EncZipList(Flatten(order, m))).Some?
            then Got(PZipHashBuf(EncZipList(Flatten(order, m))).value, t) else Bad
  {
    hide EncZipList, EncNanString, PString, PZipHashBuf, AllShort;
    NanStringRoundTrip(EncZipList(Flatten(order, m)), compress, t);
  }

  lemma ZipHashRoundTrip(order: Values, m: Fields, compress: bool, t: seq<byte>)
    requires Enumerates(order, m.Keys) && ZipHashOk(order, m) && Writable(EncZipList(Flatten(order, m)), compress)
    ensures PZipHash(EncNanString(EncZipList(Flatten(order, m)), compress) + t) == Got(m, t)
  {
    hide EncZipList, EncNanString, PZipHash, PZipHashBuf, ListOk, AllShort;
    ZipHashRecord(order, m, compress, t);
    ZipHashBufRoundTrip(order, m);
  }

  // ----- field expirations: one value

  predicate IsInt64(v: int)
  {
    -TWO_63 <= v < TWO_63
  }

  function ToInt64(v: int): (r: int)
    ensures IsInt64(r)
  {
    Signed(Wrap64(v), TWO_64)
  }

  function ExpireOf(e: Expires, f: seq<byte>): int
  {
    if f in e then e[f] else 0
  }

  /** The stored length: 0 for no expiration, else the distance to the base plus one, as uint64. */
  function EncRelative(expire: int, base: int): (ttl: nat)
    ensures ttl < TWO_64
  {
    if expire == 0 then 0 else Wrap64(expire - base + 1)
  }

  function DecRelative(ttl: nat, base: int): Option<int>
  {
    var expire := if ttl == 0 then 0 else ToInt64(ttl + base - 1);
    if expire > EB_EXPIRE_TIME_MAX then None else Some(expire)
  }

  /** Over all 64-bit expirations: the relative form is exact except for values past the 48-bit maximum
      and for the one just below the base, whose distance plus one is the zero that means "none". */
  lemma RelativeIff(expire: int, base: int)
    requires IsInt64(expire) && 0 <= base <= EB_EXPIRE_TIME_MAX
    ensures DecRelative(EncRelative(expire, base), base) == Some(expire) <==>
            expire == 0 || (expire <= EB_EXPIRE_TIME_MAX && expire != base - 1)
  {
    var d := expire - base + 1;
    if expire != 0 && d % TWO_64 != 0 {
      assert ToInt64(d % TWO_64 + base - 1) == expire by {
        var q := d / TWO_64;
        assert d % TWO_64 + base - 1 == expire - q * TWO_64;
      }
    }
  }

  function EncAbsolute(expire: int): int
  {
    if expire == 0 then -1 else expire
  }

  function DecAbsolute(stored: int): int
  {
    if stored < 0 then 0 else stored
  }

  /** The absolute form is exact on non-negative expirations and on nothing else. */
  lemma AbsoluteIff(expire: int)
    ensures DecAbsolute(EncAbsolute(expire)) == expire <==> expire >= 0
  {
  }

  // ----- the base of the relative form

  predicate InExpires(keys: Values, e: Expires)
  {
    forall i :: 0 <= i < |keys| ==> keys[i] in e
  }

  /** The loop over the expirations: the least positive one below the invalid mark. */
  function MinOver(keys: Values, e: Expires): (r: int)
    requires InExpires(keys, e)
    ensures 0 < r <= EB_EXPIRE_TIME_INVALID
  {
    if keys == [] then EB_EXPIRE_TIME_INVALID
    else
      var m := MinOver(keys[..|keys| - 1], e);
      var x := e[keys[|keys| - 1]];
      if x > 0 && x < m then x else m
  }

  function MinExpire(keys: Values, e: Expires): (r: int)
    requires InExpires(keys, e)
    ensures 0 <= r <= EB_EXPIRE_TIME_MAX
  {
    var m := MinOver(keys, e);
    if m == EB_EXPIRE_TIME_INVALID then 0 else m
  }

  lemma {:induction false} MinOverBounds(keys: Values, e: Expires, f: seq<byte>)
    requires InExpires(keys, e)
    requires f in keys && e[f] > 0
    ensures MinOver(keys, e) <= e[f]
  {
    if f != keys[|keys| - 1] {
      MinOverBounds(keys[..|keys| - 1], e, f);
    }
  }

  lemma {:induction false} MinOverAttained(keys: Values, e: Expires)
    requires InExpires(keys, e)
    ensures MinOver(keys, e) == EB_EXPIRE_TIME_INVALID || exists f :: f in keys && e[f] == MinOver(keys, e)
  {
    if keys != [] {
      MinOverAttained(keys[..|keys| - 1], e);
      var x := e[keys[|keys| - 1]];
      if x > 0 && x < MinOver(keys[..|keys| - 1], e) {
        assert keys[|keys| - 1] in keys;
      }
    }
  }

  /** The base is the least positive expiration, whatever order the map is ranged over; 0 if none. */
  lemma MinExpireIsLeast(keys: Values, e: Expires)
    requires Enumerates(keys, e.Keys)
    ensures InExpires(keys, e)
    ensures MinExpire(keys, e) == 0 ==> forall f :: f in e ==> e[f] <= 0 || e[f] > EB_EXPIRE_TIME_MAX
    ensures MinExpire(keys, e) > 0 ==> exists f :: f in e && e[f] == MinExpire(keys, e)
    ensures forall f :: f in e && e[f] > 0 ==> MinExpire(keys, e) <= e[f]
  {
    MinOverAttained(keys, e);
    forall f | f in e && e[f] > 0 ensures MinOver(keys, e) <= e[f] {
      MinOverBounds(keys, e, f);
    }
  }

  // ----- hashes with expirations

  function EncExPairs(order: Values, m: Fields, e: Expires, base: int, compress: bool): seq<byte>
    requires PairsWritable(order, m, compress)
  {
    if order == [] then []
    else
      var f := order[0];
      EncLength(EncRelative(ExpireOf(e, f), base)) + (EncString(f, compress) +
        (EncString(m[f], compress) + EncExPairs(order[1..], m, e, base, compress)))
  }

  datatype HashEx = HashEx(fields: Fields, expires: Expires)

  /** The loop of readHashMapEx; rc selects the absolute form of the 7.4 release candidates. */
  function PExPairs(s: seq<byte>, n: nat, rc: bool, base: int, h: HashEx): (p: Parsed<HashEx>)
    ensures p.Got? ==> |p.rest| <= |s|
    decreases n
  {
    if n == 0 then Got(h, s)
    else
      var (ttl, s1) :- PLength(s);
      match (if rc then DecRc(ttl.value) else DecRelative(ttl.value, base))
      case None => Bad
      case Some(expire) =>
        var (f, s2) :- PString(s1);
        var (v, s3) :- PString(s2);
        PExPairs(s3, n - 1, rc, base, HashEx(h.fields[f := v], h.expires[f := expire]))
  }

  function DecRc(ttl: nat): Option<int>
  {
    if ToInt64(ttl) > EB_EXPIRE_TIME_MAX then None else Some(ToInt64(ttl))
  }

  function PInt64(s: seq<byte>): (p: Parsed<int>)
    ensures p.Got? ==> |p.rest| + 8 == |s| && IsInt64(p.value)
  {
    var (bs, t) :- PBytes(s, 8);
    UnLEBound(bs);
    Pow256Values();
    Got(Signed(UnLE(bs), TWO_64), t)
  }

  function PExBody(s: seq<byte>, rc: bool, base: int): (p: Parsed<HashEx>)
    ensures p.Got? ==> |p.rest| < |s|
  {
    var (len, t) :- PLength(s);
    if len.value == 0 then Bad else PExPairs(t, LoopCount(len.value), rc, base, HashEx(map[], map[]))
  }

  /** readHashMapEx */
  function PHashEx(s: seq<byte>, rc: bool): (p: Parsed<HashEx>)
    ensures p.Got? ==> |p.rest| < |s|
  {
    if rc then PExBody(s, true, EB_EXPIRE_TIME_INVALID)
    else
      var (base, t) :- PInt64(s);
      if base > EB_EXPIRE_TIME_INVALID then Bad else PExBody(t, false, base)
  }

  lemma Int64RoundTrip(v: int, t: seq<byte>)
    requires IsInt64(v)
    ensures PInt64(LE(v, 8) + t) == Got(v, t)
  {
    Pow256Values();
    hide LE, UnLE, Pow256;
    PBytesOf(LE(v, 8), t);
    SignedRoundTrip(v, 8);
  }

  /** The expirations delivered: one for every field, 0 where none was given. */
  function Delivered(m: Fields, e: Expires): Expires
  {
    map f | f in m :: ExpireOf(e, f)
  }

  /** What the relative form makes of one expiration: nothing if the reader rejects it. */
  function Relayed(expire: int, base: int): Option<int>
  {
    DecRelative(EncRelative(expire, base), base)
  }

  predicate Accepted(order: Values, e: Expires, base: int)
  {
    forall i :: 0 <= i < |order| ==> Relayed(ExpireOf(e, order[i]), base).Some?
  }

  function RelayedOver(order: Values, e: Expires, base: int): Expires
  {
    map f | f in order :: var d := Relayed(ExpireOf(e, f), base); if d.Some? then d.value else 0
  }

  lemma RelayedStep(order: Values, e: Expires, base: int, acc: Expires)
    ensures order == [] ==> acc + RelayedOver(order, e, base) == acc
    ensures order != [] && Relayed(ExpireOf(e, order[0]), base).Some? ==>
              acc[order[0] := Relayed(ExpireOf(e, order[0]), base).value] + RelayedOver(order[1..], e, base) ==
              acc + RelayedOver(order, e, base)
  {
    hide Relayed, ExpireOf;
    if order != [] {
      var f := order[0];
      assert forall g :: g in order <==> g == f || g in order[1..];
    }
  }

  lemma {:induction false} ExPairsDecode(order: Values, m: Fields, e: Expires, base: int, compress: bool, acc: HashEx,
                                         t: seq<byte>)
    requires PairsWritable(order, m, compress)
    ensures PExPairs(EncExPairs(order, m, e, base, compress) + t, |order|, false, base, acc) ==
            if Accepted(order, e, base)
            then Got(HashEx(acc.fields + Restrict(m, order), acc.expires + RelayedOver(order, e, base)), t)
            else Bad
    decreases |order|
  {
    hide PString, EncString, Writable, PLength, EncLength, EncRelative, DecRelative, ExpireOf, Restrict, RelayedOver;
    RestrictStep(m, order, acc.fields);
    RelayedStep(order, e, base, acc.expires);
    if order == [] {
      assert EncExPairs(order, m, e, base, compress) + t == t;
    } else {
      var f := order[0];
      var x := ExpireOf(e, f);
      var rest := EncExPairs(order[1..], m, e, base, compress);
      var el, ef, ev := EncLength(EncRelative(x, base)), EncString(f, compress), EncString(m[f], compress);
      Assoc4(el, ef, ev, rest, t);
      LengthRoundTrip(EncRelative(x, base), ef + (ev + (rest + t)));
      if Relayed(x, base).Some? {
        StringRoundTrip(f, compress, ev + (rest + t));
        StringRoundTrip(m[f], compress, rest + t);
        var acc' := HashEx(acc.fields[f := m[f]], acc.expires[f := Relayed(x, base).value]);
        ExPairsDecode(order[1..], m, e, base, compress, acc', t);
        AcceptedTail(order, e, base);
      } else {
        assert !Accepted(order, e, base);
      }
    }
  }

  lemma AcceptedTail(order: Values, e: Expires, base: int)
    requires order != [] && Relayed(ExpireOf(e, order[0]), base).Some?
    ensures Accepted(order, e, base) <==> Accepted(order[1..], e, base)
  {
    hide Relayed, ExpireOf;
    if Accepted(order[1..], e, base) {
      forall i | 0 <= i < |order| ensures Relayed(ExpireOf(e, order[i]), base).Some? {
        if i > 0 {
          assert order[i] == order[1..][i - 1];
        }
      }
    }
  }

  /** The body of writeHashEncodingEx after the key. */
  function EncHashEx(order: Values, m: Fields, keys: Values, e: Expires, compress: bool): seq<byte>
    requires PairsWritable(order, m, compress) && |m| < TWO_63 && InExpires(keys, e)
  {
    var base := MinExpire(keys, e);
    LE(base, 8) + (EncLength(|m|) + EncExPairs(order, m, e, base, compress))
  }

  /** Expirations the relative form keeps: at most 48 bits; and -1 only beside a positive one. */
  ghost predicate ExpiresOk(m: Fields, e: Expires)
  {
    && (forall f :: f in m ==> ExpireOf(e, f) <= EB_EXPIRE_TIME_MAX)
    && ((exists f :: f in m && ExpireOf(e, f) == -1) ==> exists f :: f in e && 0 < e[f] <= EB_EXPIRE_TIME_MAX)
  }

  lemma HashExDecode(order: Values, m: Fields, keys: Values, e: Expires, compress: bool, t: seq<byte>)
    requires Enumerates(order, m.Keys) && InExpires(keys, e) && |m| < TWO_63
    requires PairsWritable(order, m, compress)
    ensures PHashEx(EncHashEx(order, m, keys, e, compress) + t, false) ==
            if m != map[] && Accepted(order, e, MinExpire(keys, e))
            then Got(HashEx(m, RelayedOver(order, e, MinExpire(keys, e))), t)
            else Bad
  {
    hide EncLength, PLength, EncExPairs, PExPairs, MinExpire, LE, PInt64, PairsWritable, Accepted, RelayedOver,
      Restrict;
    var base := MinExpire(keys, e);
    var pairs := EncExPairs(order, m, e, base, compress);
    Assoc3(LE(base, 8), EncLength(|m|), pairs, t);
    Int64RoundTrip(base, EncLength(|m|) + (pairs + t));
    LengthRoundTrip(|m|, pairs + t);
    ExPairsDecode(order, m, e, base, compress, HashEx(map[], map[]), t);
    RestrictAll(m, order);
    assert map[] + RelayedOver(order, e, base) == RelayedOver(order, e, base);
  }

  /** A Redis hash with expirations reads back with the same fields, values and expirations exactly
      when it is not empty, every expiration is at most 48 bits wide and none is a -1 that no positive
      one accompanies. The writer accepts an empty one; the reader does not. */
  lemma HashExRoundTripIff(order: Values, m: Fields, keys: Values, e: Expires, compress: bool, t: seq<byte>)
    requires Enumerates(order, m.Keys) && Enumerates(keys, e.Keys) && |m| < TWO_63
    requires PairsWritable(order, m, compress) && forall f :: f in m ==> IsInt64(ExpireOf(e, f))
    ensures InExpires(keys, e)
    ensures (PHashEx(EncHashEx(order, m, keys, e, compress) + t, false) == Got(HashEx(m, Delivered(m, e)), t))
            <==> m != map[] && ExpiresOk(m, e)
  {
    hide PHashEx, EncHashEx, MinExpire, EncRelative, DecRelative, PairsWritable;
    HashExDecode(order, m, keys, e, compress, t);
    var base := MinExpire(keys, e);
    MinExpireIsLeast(keys, e);
    forall f | f in m
      ensures Relayed(ExpireOf(e, f), base) == Some(ExpireOf(e, f)) <==>
              ExpireOf(e, f) <= EB_EXPIRE_TIME_MAX && (ExpireOf(e, f) == -1 ==> base != 0)
    {
      RelativeIff(ExpireOf(e, f), base);
    }
    if m == map[] {
      assert PHashEx(EncHashEx(order, m, keys, e, compress) + t, false) == Bad;
    } else if ExpiresOk(m, e) {
      assert forall i :: 0 <= i < |order| ==> order[i] in m;
      assert Accepted(order, e, base);
      assert RelayedOver(order, e, base) == Delivered(m, e);
    } else if Accepted(order, e, base) && RelayedOver(order, e, base) == Delivered(m, e) {
      forall f | f in m ensures Relayed(ExpireOf(e, f), base) == Some(ExpireOf(e, f)) {
        assert f in order;
        var i :| 0 <= i < |order| && order[i] == f;
        assert Delivered(m, e)[f] == ExpireOf(e, f) && RelayedOver(order, e, base)[f] == ExpireOf(e, f);
      }
      assert false;
    }
  }

  // ----- the Valkey form

  function EncPairsValkey(order: Values, m: Fields, e: Expires, compress: bool): seq<byte>
    requires PairsWritable(order, m, compress)
  {
    if order == [] then []
    else
      var f := order[0];
      EncString(f, compress) + (EncString(m[f], compress) +
        (LE(EncAbsolute(ExpireOf(e, f)), 8) + EncPairsValkey(order[1..], m, e, compress)))
  }

  function PPairsValkey(s: seq<byte>, n: nat, h: HashEx): (p: Parsed<HashEx>)
    ensures p.Got? ==> |p.rest| <= |s|
    decreases n
  {
    if n == 0 then Got(h, s)
    else
      var (f, s1) :- PString(s);
      var (v, s2) :- PString(s1);
      var (stored, s3) :- PInt64(s2);
      PPairsValkey(s3, n - 1, HashEx(h.fields[f := v], h.expires[f := DecAbsolute(stored)]))
  }

  /** readHashMapExValkey */
  function PHashValkey(s: seq<byte>): (p: Parsed<HashEx>)
    ensures p.Got? ==> |p.rest| < |s|
  {
    var (len, t) :- PLength(s);
    if len.value == 0 then Bad else PPairsValkey(t, LoopCount(len.value), HashEx(map[], map[]))
  }

  /** The expirations as the absolute form delivers them. */
  function AbsoluteOver(order: Values, e: Expires): Expires
  {
    map f | f in order :: DecAbsolute(EncAbsolute(ExpireOf(e, f)))
  }

  lemma AbsoluteStep(order: Values, e: Expires, acc: Expires)
    ensures order == [] ==> acc + AbsoluteOver(order, e) == acc
    ensures order != [] ==>
              acc[order[0] := DecAbsolute(EncAbsolute(ExpireOf(e, order[0])))] + AbsoluteOver(order[1..], e) ==
              acc + AbsoluteOver(order, e)
  {
    hide ExpireOf, EncAbsolute, DecAbsolute;
    if order != [] {
      var f := order[0];
      assert forall g :: g in order <==> g == f || g in order[1..];
    }
  }

  lemma {:induction false} PairsValkeyDecode(order: Values, m: Fields, e: Expires, compress: bool, acc: HashEx,
                                             t: seq<byte>)
    requires PairsWritable(order, m, compress)
    requires forall i :: 0 <= i < |order| ==> IsInt64(ExpireOf(e, order[i]))
    ensures PPairsValkey(EncPairsValkey(order, m, e, compress) + t, |order|, acc) ==
            Got(HashEx(acc.fields + Restrict(m, order), acc.expires + AbsoluteOver(order, e)), t)
    decreases |order|
  {
    hide PString, EncString, Writable, PInt64, LE, ExpireOf, Restrict, AbsoluteOver;
    RestrictStep(m, order, acc.fields);
    AbsoluteStep(order, e, acc.expires);
    if order == [] {
      assert EncPairsValkey(order, m, e, compress) + t == t;
    } else {
      var f := order[0];
      var x := ExpireOf(e, f);
      var rest := EncPairsValkey(order[1..], m, e, compress);
      var ef, ev, ex := EncString(f, compress), EncString(m[f], compress), LE(EncAbsolute(x), 8);
      Assoc4(ef, ev, ex, rest, t);
      StringRoundTrip(f, compress, ev + (ex + (rest + t)));
      StringRoundTrip(m[f], compress, ex + (rest + t));
      Int64RoundTrip(EncAbsolute(x), rest + t);
      var acc' := HashEx(acc.fields[f := m[f]], acc.expires[f := DecAbsolute(EncAbsolute(x))]);
      PairsValkeyDecode(order[1..], m, e, compress, acc', t);
    }
  }

  ghost predicate ExpiresNonNegative(m: Fields, e: Expires)
  {
    forall f :: f in m ==> ExpireOf(e, f) >= 0
  }

  lemma HashValkeyDecode(order: Values, m: Fields, e: Expires, compress: bool, t: seq<byte>)
    requires Enumerates(order, m.Keys) && |m| < TWO_63
    requires PairsWritable(order, m, compress) && forall f :: f in m ==> IsInt64(ExpireOf(e, f))
    ensures PHashValkey(EncLength(|m|) + EncPairsValkey(order, m, e, compress) + t) ==
            if m != map[] then Got(HashEx(m, AbsoluteOver(order, e)), t) else Bad
  {
    hide EncLength, PLength, EncPairsValkey, PPairsValkey, PairsWritable, AbsoluteOver, Restrict, ExpireOf;
    assert forall i :: 0 <= i < |order| ==> order[i] in order && order[i] in m;
    var pairs := EncPairsValkey(order, m, e, compress);
    Assoc(EncLength(|m|), pairs, t);
    LengthRoundTrip(|m|, pairs + t);
    PairsValkeyDecode(order, m, e, compress, HashEx(map[], map[]), t);
    RestrictAll(m, order);
    AfterNothing(AbsoluteOver(order, e));
  }

  lemma AfterNothing(e: Expires)
    ensures map[] + e == e
  {
  }

  /** A Valkey hash reads back with the same fields, values and expirations exactly when it is not empty
      and no expiration is negative. */
  lemma HashValkeyRoundTripIff(order: Values, m: Fields, e: Expires, compress: bool, t: seq<byte>)
    requires Enumerates(order, m.Keys) && |m| < TWO_63
    requires PairsWritable(order, m, compress) && forall f :: f in m ==> IsInt64(ExpireOf(e, f))
    ensures (PHashValkey(EncLength(|m|) + EncPairsValkey(order, m, e, compress) + t) ==
             Got(HashEx(m, Delivered(m, e)), t))
            <==> m != map[] && ExpiresNonNegative(m, e)
  {
    HashValkeyDecode(order, m, e, compress, t);
    hide PHashValkey, EncLength, EncPairsValkey, PairsWritable, EncAbsolute, DecAbsolute, ExpireOf;
    assert forall i :: 0 <= i < |order| ==> order[i] in order && order[i] in m;
    forall f | f in m
      ensures AbsoluteOver(order, e)[f] == ExpireOf(e, f) <==> ExpireOf(e, f) >= 0
    {
      AbsoluteIff(ExpireOf(e, f));
    }
    if m == map[] {
      assert PHashValkey(EncLength(|m|) + EncPairsValkey(order, m, e, compress) + t) == Bad;
    } else if ExpiresNonNegative(m, e) {
      assert AbsoluteOver(order, e) == Delivered(m, e);
    } else {
      var f :| f in m && ExpireOf(e, f) < 0;
      assert Delivered(m, e)[f] == ExpireOf(e, f);
    }
  }

  // ----- the form of the release candidates, which is only read

  /** Each field's expiration as an unsigned length, 0 for none, then its name and its value. */
  function RcPairs(order: Values, m: Fields, e: Expires, compress: bool): seq<byte>
    requires PairsWritable(order, m, compress)
  {
    if order == [] then []
    else
      var f := order[0];
      EncLength(Wrap64(ExpireOf(e, f))) + (EncString(f, compress) +
        (EncString(m[f], compress) + RcPairs(order[1..], m, e, compress)))
  }

  /** No expiration is wider than 48 bits. */
  predicate Within48(order: Values, e: Expires)
  {
    forall i :: 0 <= i < |order| ==> ExpireOf(e, order[i]) <= 0xffff_ffff_ffff
  }

  function GivenOver(order: Values, e: Expires): Expires
  {
    map f | f in order :: ExpireOf(e, f)
  }

  lemma GivenStep(order: Values, e: Expires, acc: Expires)
    ensures order == [] ==> acc + GivenOver(order, e) == acc
    ensures order != [] ==>
              acc[order[0] := ExpireOf(e, order[0])] + GivenOver(order[1..], e) == acc + GivenOver(order, e)
  {
    hide ExpireOf;
    if order != [] {
      assert forall g :: g in order <==> g == order[0] || g in order[1..];
    }
  }

  lemma Within48Step(order: Values, e: Expires)
    requires order != []
    ensures Within48(order, e) <==> ExpireOf(e, order[0]) <= 0xffff_ffff_ffff && Within48(order[1..], e)
  {
    hide ExpireOf;
    if Within48(order[1..], e) {
      assert forall i :: 0 < i < |order| ==> order[i] == order[1..][i - 1];
    }
  }

  lemma WrapSigned(v: int)
    requires IsInt64(v)
    ensures DecRc(Wrap64(v)) == if v <= 0xffff_ffff_ffff then Some(v) else None
  {
  }

  lemma {:induction false} RcPairsRead(order: Values, m: Fields, e: Expires, base: int, compress: bool, acc: HashEx,
                                       t: seq<byte>)
    requires PairsWritable(order, m, compress)
    requires forall i :: 0 <= i < |order| ==> IsInt64(ExpireOf(e, order[i]))
    ensures PExPairs(RcPairs(order, m, e, compress) + t, |order|, true, base, acc) ==
            if Within48(order, e)
            then Got(HashEx(acc.fields + Restrict(m, order), acc.expires + GivenOver(order, e)), t)
            else Bad
    decreases |order|
  {
    hide PString, EncString, Writable, PLength, EncLength, DecRelative, DecRc, ExpireOf, Restrict, GivenOver, Within48,
      Wrap64;
    RestrictStep(m, order, acc.fields);
    GivenStep(order, e, acc.expires);
    if order == [] {
      assert RcPairs(order, m, e, compress) + t == t;
      NothingWide(e);
    } else {
      var f := order[0];
      var x := ExpireOf(e, f);
      var rest := RcPairs(order[1..], m, e, compress);
      var el, ef, ev := EncLength(Wrap64(x)), EncString(f, compress), EncString(m[f], compress);
      Assoc4(el, ef, ev, rest, t);
      LengthRoundTrip(Wrap64(x), ef + (ev + (rest + t)));
      WrapSigned(x);
      Within48Step(order, e);
      if x <= 0xffff_ffff_ffff {
        StringRoundTrip(f, compress, ev + (rest + t));
        StringRoundTrip(m[f], compress, rest + t);
        RcPairsRead(order[1..], m, e, base, compress, HashEx(acc.fields[f := m[f]], acc.expires[f := x]), t);
      }
    }
  }

  lemma NothingWide(e: Expires)
    ensures Within48([], e)
  {
  }

  lemma RcHashDecode(order: Values, m: Fields, e: Expires, compress: bool, t: seq<byte>)
    requires Enumerates(order, m.Keys) && |m| < TWO_63
    requires PairsWritable(order, m, compress) && forall i :: 0 <= i < |order| ==> IsInt64(ExpireOf(e, order[i]))
    ensures PHashEx(EncLength(|m|) + (RcPairs(order, m, e, compress) + t), true) ==
            if m != map[] && Within48(order, e) then Got(HashEx(m, GivenOver(order, e)), t) else Bad
  {
    hide EncLength, PLength, RcPairs, PExPairs, PairsWritable, Restrict, ExpireOf, Within48, GivenOver, IsInt64;
    LengthRoundTrip(|m|, RcPairs(order, m, e, compress) + t);
    RcPairsRead(order, m, e, EB_EXPIRE_TIME_INVALID, compress, HashEx(map[], map[]), t);
    RestrictAll(m, order);
    AfterNothing(GivenOver(order, e));
  }

  lemma GivenAll(order: Values, m: Fields, e: Expires)
    requires Enumerates(order, m.Keys)
    ensures GivenOver(order, e) == Delivered(m, e)
    ensures Within48(order, e) <==> forall f :: f in m ==> ExpireOf(e, f) <= 0xffff_ffff_ffff
  {
    hide ExpireOf;
    assert forall i :: 0 <= i < |order| ==> order[i] in order && order[i] in m;
    if Within48(order, e) {
      forall f | f in m ensures ExpireOf(e, f) <= 0xffff_ffff_ffff {
        assert f in order;
      }
    }
  }

  /** A release-candidate hash reads as its fields with the expirations stored, unless one of these is wider than
      48 bits or there are no fields. */
  lemma RcHashRead(order: Values, m: Fields, e: Expires, compress: bool, t: seq<byte>)
    requires Enumerates(order, m.Keys) && |m| < TWO_63
    requires PairsWritable(order, m, compress) && forall f :: f in m ==> IsInt64(ExpireOf(e, f))
    ensures PHashEx(EncLength(|m|) + (RcPairs(order, m, e, compress) + t), true) ==
            if m != map[] && forall f :: f in m ==> ExpireOf(e, f) <= 0xffff_ffff_ffff
            then Got(HashEx(m, Delivered(m, e)), t) else Bad
  {
    hide EncLength, PHashEx, RcPairs, PairsWritable, ExpireOf, Within48, GivenOver, Delivered, IsInt64;
    assert forall i :: 0 <= i < |order| ==> order[i] in order && order[i] in m;
    RcHashDecode(order, m, e, compress, t);
    GivenAll(order, m, e);
  }
}
