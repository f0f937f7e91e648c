/**
 Database objects: how the encoder lays each one out, which encoding it picks, and how the decoder
 dispatches on the type byte. Type bytes of encodings the encoder never writes, other than the plain
 list and the release-candidate hash, are not modelled and read as failures.
 */
module Objects {
  import opened Bytes
  import opened Parsing
  import opened RdbString
  import opened ZipList
  import opened Lists
  import opened Sets
  import opened Hashes
  import opened ZipHashes

  const TYPE_STRING := 0
  const TYPE_LIST := 1
  const TYPE_SET := 2
  const TYPE_HASH := 4
  const TYPE_LIST_ZIPLIST := 10
  const TYPE_SET_INTSET := 11
  const TYPE_HASH_ZIPLIST := 13
  const TYPE_LIST_QUICKLIST := 14
  const TYPE_HASH2 := 22
  const TYPE_HASH_HFE := 24

  // ----- encoder settings

  datatype ZipListOpt = Unset | ZipListOpt(maxValue: int, maxEntries: int) {
    function MaxValue(): int
    {
      if Unset? || maxValue == 0 then 64 else maxValue
    }

    function MaxEntries(): int
    {
      if Unset? || maxEntries == 0 then 512 else maxEntries
    }
  }

  datatype Config = Config(compress: bool, valkey: bool, listOpt: ZipListOpt, hashOpt: ZipListOpt)

  // ----- objects as given to the encoder and as delivered by the decoder

  /** Maps come with the order in which the encoder happens to range over them. */
  datatype Object =
    | StringObj(text: seq<byte>)
    | ListObj(values: Values)
    | SetObj(members: Values)
    | HashObj(fields: Fields, order: Values)
    | HashExObj(exFields: Fields, expires: Expires, exOrder: Values, keys: Values)

  datatype Value =
    | StringV(text: seq<byte>)
    | ListV(values: Values)
    | SetV(members: Values)
    | HashV(fields: Fields, expires: Expires)

  // ----- choice of encoding

  /** tryWriteListZipList's tests */
  predicate UsesZipList(values: Values, opt: ZipListOpt)
  {
    |values| <= opt.MaxEntries() && forall i :: 0 <= i < |values| ==> |values[i]| <= opt.MaxValue()
  }

  /** tryWriteZipListHashMap's tests, which look at values only */
  predicate UsesZipHash(order: Values, m: Fields, opt: ZipListOpt)
    requires InMap(order, m)
  {
    |m| <= opt.MaxEntries() && forall i :: 0 <= i < |order| ==> |m[order[i]]| <= opt.MaxValue()
  }

  /** What the encoder needs in order to write an object at all: lengths in range, and orders that
      enumerate the maps. */
  ghost predicate ObjWritable(obj: Object, cfg: Config)
  {
    match obj
    case StringObj(text) => Writable(text, cfg.compress)
    case ListObj(values) =>
      if UsesZipList(values, cfg.listOpt) then AllShort(values) && Writable(EncZipList(values), cfg.compress)
      else |Pages(values)| < TWO_63 && PagesWritable(Pages(values), cfg.compress)
    case SetObj(members) =>
      var ints := IntValues(members);
      if ints.Some? then Writable(EncIntSet(ints.value), cfg.compress)
      else AllWritable(members, cfg.compress) && |members| < TWO_63
    case HashObj(m, order) =>
      && Enumerates(order, m.Keys) && InMap(order, m)
      && if UsesZipHash(order, m, cfg.hashOpt)
         then AllShort(Flatten(order, m)) && Writable(EncZipList(Flatten(order, m)), cfg.compress)
         else PairsWritable(order, m, cfg.compress) && |m| < TWO_63
    case HashExObj(m, e, order, keys) =>
      && Enumerates(order, m.Keys) && Enumerates(keys, e.Keys) && InExpires(keys, e)
      && PairsWritable(order, m, cfg.compress) && |m| < TWO_63
  }

  /** The type byte and the bytes after the key. */
  ghost function Layout(obj: Object, cfg: Config): (byte, seq<byte>)
    requires ObjWritable(obj, cfg)
  {
    match obj
    case StringObj(text) => (TYPE_STRING, EncString(text, cfg.compress))
    case ListObj(values) =>
      if UsesZipList(values, cfg.listOpt) then (TYPE_LIST_ZIPLIST, EncNanString(EncZipList(values), cfg.compress))
      else (TYPE_LIST_QUICKLIST, EncQuickList(Pages(values), cfg.compress))
    case SetObj(members) =>
      var ints := IntValues(members);
      if ints.Some? then (TYPE_SET_INTSET, EncNanString(EncIntSet(ints.value), cfg.compress))
      else (TYPE_SET, EncLength(|members|) + EncStrings(members, cfg.compress))
    case HashObj(m, order) =>
      if UsesZipHash(order, m, cfg.hashOpt)
      then (TYPE_HASH_ZIPLIST, EncNanString(EncZipList(Flatten(order, m)), cfg.compress))
      else (TYPE_HASH, EncLength(|m|) + EncPairs(order, m, cfg.compress))
    case HashExObj(m, e, order, keys) =>
      if cfg.valkey then (TYPE_HASH2, EncLength(|m|) + EncPairsValkey(order, m, e, cfg.compress))
      else (TYPE_HASH_HFE, EncHashEx(order, m, keys, e, cfg.compress))
  }

  ghost function EncObject(key: seq<byte>, obj: Object, cfg: Config): seq<byte>
    requires Writable(key, cfg.compress) && ObjWritable(obj, cfg)
  {
    var (flag, body) := Layout(obj, cfg);
    [flag] + (EncString(key, cfg.compress) + body)
  }

  // ----- decoding

  /** readObject */
  function PObject(flag: byte, s: seq<byte>, valkey: bool): (p: Parsed<Value>)
    ensures p.Got? ==> |p.rest| <= |s|
  {
    if flag == TYPE_STRING then var (v, t) :- PString(s); Got(StringV(v), t)
    else if flag == TYPE_LIST then var (v, t) :- PSet(s); Got(ListV(v), t)
    else if flag == TYPE_SET then var (v, t) :- PSet(s); Got(SetV(v), t)
    else if flag == TYPE_SET_INTSET then var (v, t) :- PIntSet(s); Got(SetV(v), t)
    else if flag == TYPE_HASH then var (v, t) :- PHash(s); Got(HashV(v, map[]), t)
    else if flag == TYPE_LIST_ZIPLIST then var (v, t) :- PZipList(s); Got(ListV(v), t)
    else if flag == TYPE_LIST_QUICKLIST then var (v, t) :- PQuickList(s); Got(ListV(v), t)
    else if flag == TYPE_HASH_ZIPLIST then var (v, t) :- PZipHash(s); Got(HashV(v, map[]), t)
    else if flag == TYPE_HASH2 || flag == TYPE_HASH_HFE then
      var (h, t) :- if valkey then PHashValkey(s) else PHashEx(s, flag == TYPE_HASH2);
      Got(HashV(h.fields, h.expires), t)
    else Bad
  }

  // ----- round trip

  /** Go's types: expirations are 64-bit integers. */
  ghost predicate ObjTyped(obj: Object)
  {
    obj.HashExObj? ==> forall f :: f in obj.exFields ==> IsInt64(ExpireOf(obj.expires, f))
  }

  predicate ZipHashed(obj: Object, cfg: Config)
  {
    obj.HashObj? && InMap(obj.order, obj.fields) && UsesZipHash(obj.order, obj.fields, cfg.hashOpt)
  }

  /** The objects that come back, each in the encoding the writer chooses for it. */
  ghost predicate ReadsBack(obj: Object, cfg: Config)
  {
    match obj
    case StringObj(_) => true
    case ListObj(values) =>
      if UsesZipList(values, cfg.listOpt) then |values| <= MAX_ENTRIES && ListOk(values)
      else PagesFit(Pages(values)) && RunsOk(values)
    case SetObj(members) => IntValues(members).Some? ==> |members| < TWO_32
    case HashObj(m, order) => ZipHashed(obj, cfg) ==> ComesBack(order, m)
    case HashExObj(m, e, _, _) => m != map[] && if cfg.valkey then ExpiresNonNegative(m, e) else ExpiresOk(m, e)
  }

  /** The objects that come back whatever order their maps are ranged over, by conditions a caller can
      check beforehand. */
  ghost predicate Survives(obj: Object, cfg: Config)
  {
    && ObjWritable(obj, cfg) && ObjTyped(obj)
    && if ZipHashed(obj, cfg) then HashSafe(obj.fields) else ReadsBack(obj, cfg)
  }

  /** What the decoder delivers for an object that comes back. */
  function AsRead(obj: Object): Value
  {
    match obj
    case StringObj(text) => StringV(text)
    case ListObj(values) => ListV(values)
    case SetObj(members) => SetV(ReadBack(members))
    case HashObj(m, _) => HashV(m, map[])
    case HashExObj(m, e, _, _) => HashV(m, Delivered(m, e))
  }

  /** Reading stops at the end of the object, and gives it back exactly when it should. */
  ghost predicate ReadIff(p: Parsed<Value>, t: seq<byte>, obj: Object, cfg: Config)
  {
    (p.Got? ==> p.rest == t) && (p == Got(AsRead(obj), t) <==> ReadsBack(obj, cfg))
  }

  lemma ListIff(values: Values, cfg: Config, t: seq<byte>)
    requires ObjWritable(ListObj(values), cfg)
    ensures var (flag, body) := Layout(ListObj(values), cfg);
            ReadIff(PObject(flag, body + t, cfg.valkey), t, ListObj(values), cfg)
  {
    hide EncZipList, EncNanString, PZipList, PQuickList, EncQuickList, Pages, AllShort, PagesWritable, ListOk, RunsOk,
      PZipListBuf, PagesFit;
    if UsesZipList(values, cfg.listOpt) {
      PageRead(values, cfg.compress, t);
      BufRoundTripIff(values);
    } else {
      QuickListRoundTripIff(values, cfg.compress, t);
    }
  }

  lemma SetIff(members: Values, cfg: Config, t: seq<byte>)
    requires ObjWritable(SetObj(members), cfg)
    ensures var (flag, body) := Layout(SetObj(members), cfg);
            ReadIff(PObject(flag, body + t, cfg.valkey), t, SetObj(members), cfg)
  {
    hide EncNanString, EncIntSet, PIntSet, PSet, EncLength, EncStrings, Texts, Sorted, IntValues, AllWritable;
    match IntValues(members)
    case Some(ints) => IntSetRoundTripIff(ints, cfg.compress, t);
    case None => SetRoundTrip(members, cfg.compress, t);
  }

  lemma HashIff(m: Fields, order: Values, cfg: Config, t: seq<byte>)
    requires ObjWritable(HashObj(m, order), cfg)
    ensures var (flag, body) := Layout(HashObj(m, order), cfg);
            ReadIff(PObject(flag, body + t, cfg.valkey), t, HashObj(m, order), cfg)
  {
    hide EncNanString, EncZipList, Flatten, PZipHash, PHash, EncLength, EncPairs, AllShort, PairsWritable, PZipHashBuf;
    if UsesZipHash(order, m, cfg.hashOpt) {
      ZipHashRecord(order, m, cfg.compress, t);
    } else {
      HashRoundTrip(order, m, cfg.compress, t);
    }
  }

  lemma HashExIff(m: Fields, e: Expires, order: Values, keys: Values, cfg: Config, t: seq<byte>)
    requires ObjWritable(HashExObj(m, e, order, keys), cfg) && ObjTyped(HashExObj(m, e, order, keys))
    ensures var (flag, body) := Layout(HashExObj(m, e, order, keys), cfg);
            ReadIff(PObject(flag, body + t, cfg.valkey), t, HashExObj(m, e, order, keys), cfg)
  {
    hide EncHashEx, EncPairsValkey, EncLength, PHashEx, PHashValkey, PairsWritable, ExpireOf, Delivered, AbsoluteOver,
      RelayedOver, Accepted, ExpiresOk, ExpiresNonNegative;
    if cfg.valkey {
      HashValkeyDecode(order, m, e, cfg.compress, t);
      HashValkeyRoundTripIff(order, m, e, cfg.compress, t);
    } else {
      HashExDecode(order, m, keys, e, cfg.compress, t);
      HashExRoundTripIff(order, m, keys, e, cfg.compress, t);
    }
  }

  /** Through the encoding the writer chose for it, an object reads back as itself exactly under the
      conditions listed; the reader never stops short of its end or past it. */
  lemma ObjectRoundTripIff(obj: Object, cfg: Config, t: seq<byte>)
    requires ObjWritable(obj, cfg) && ObjTyped(obj)
    ensures var (flag, body) := Layout(obj, cfg); ReadIff(PObject(flag, body + t, cfg.valkey), t, obj, cfg)
  {
    match obj
    case StringObj(text) =>
      StringRoundTrip(text, cfg.compress, t);
      hide EncString, PString;
    case ListObj(values) => ListIff(values, cfg, t);
      hide *;
    case SetObj(members) => SetIff(members, cfg, t);
      hide *;
    case HashObj(m, order) => HashIff(m, order, cfg, t);
      hide *;
    case HashExObj(m, e, order, keys) => HashExIff(m, e, order, keys, cfg, t);
      hide *;
  }

  // ----- conditions that do not depend on the order

  /** A hash written as a ziplist: in every order of its fields it comes back, exactly when it is safe. */
  lemma EveryHashIff(m: Fields, order: Values, cfg: Config)
    requires ObjWritable(HashObj(m, order), cfg) && ZipHashed(HashObj(m, order), cfg)
    ensures (forall o :: Enumerates(o, m.Keys) ==> ReadsBack(HashObj(m, o), cfg)) <==> Survives(HashObj(m, order), cfg)
  {
    hide ObjWritable, HashSafe, ComesBack, Enumerates;
    HashShort(m, order, cfg);
    forall o | Enumerates(o, m.Keys) ensures ZipHashed(HashObj(m, o), cfg) {
      SameChoice(m, order, o, cfg);
    }
    EveryOrderIff(m);
  }

  lemma HashShort(m: Fields, order: Values, cfg: Config)
    requires ObjWritable(HashObj(m, order), cfg) && ZipHashed(HashObj(m, order), cfg)
    ensures Enumerates(order, m.Keys) && InMap(order, m) && ShortFields(m)
  {
    hide Writable, EncZipList;
    forall f | f in m ensures |f| < TWO_32 && |m[f]| < TWO_32 {
      assert f in order;
      var i :| 0 <= i < |order| && order[i] == f;
      FlattenAt(order, m, i);
    }
  }

  /** The writer's choice depends on the map only. */
  lemma SameChoice(m: Fields, order: Values, o: Values, cfg: Config)
    requires Enumerates(order, m.Keys) && Enumerates(o, m.Keys) && ZipHashed(HashObj(m, order), cfg)
    ensures ZipHashed(HashObj(m, o), cfg)
  {
    OrderInMap(o, m.Keys, m);
    forall i | 0 <= i < |o| ensures |m[o[i]]| <= cfg.hashOpt.MaxValue() {
      assert o[i] in o;
      assert o[i] in order;
    }
  }

  lemma SurvivesReads(obj: Object, cfg: Config)
    requires Survives(obj, cfg)
    ensures ReadsBack(obj, cfg)
  {
    if ZipHashed(obj, cfg) {
      HashShort(obj.fields, obj.order, cfg);
      hide *;
      EveryHashIff(obj.fields, obj.order, cfg);
    }
  }

  /** Every object that survives reads back as itself through the encoding the writer chose for it. */
  lemma ObjectRoundTrip(obj: Object, cfg: Config, t: seq<byte>)
    requires Survives(obj, cfg)
    ensures ObjWritable(obj, cfg)
    ensures var (flag, body) := Layout(obj, cfg);
            PObject(flag, body + t, cfg.valkey) == Got(AsRead(obj), t)
  {
    hide ReadsBack, ObjWritable, ObjTyped, Layout, PObject, AsRead, HashSafe;
    SurvivesReads(obj, cfg);
    ObjectRoundTripIff(obj, cfg, t);
  }

  /** With the default settings: a hash with one field name of 16384 bytes is written as a ziplist that
      the reader cannot read, so parsing ends there. */
  lemma LongFieldUnread(f: seq<byte>, v: seq<byte>, cfg: Config, t: seq<byte>)
    requires |f| == 16384 && f[0] == 97 && |v| <= 64 && cfg.hashOpt == Unset
    ensures var obj := HashObj(map[f := v], [f]);
            && ObjWritable(obj, cfg)
            && var (flag, body) := Layout(obj, cfg);
               flag == TYPE_HASH_ZIPLIST && PObject(flag, body + t, cfg.valkey) == Bad
  {
    hide EncNanString, EncZipList, Flatten, AllShort, PZipHashBuf, PString;
    var m: Fields := map[f := v];
    LongFieldLost(f, v);
    assert |m| == 1;
    NanStringRoundTrip(EncZipList(Flatten([f], m)), cfg.compress, t);
  }

  /** With the default settings: a list of one value of 16384 bytes is written as a quicklist that the reader
      cannot read either. */
  lemma LongValueUnread(f: seq<byte>, cfg: Config, t: seq<byte>)
    requires |f| == 16384 && f[0] == 97 && cfg.listOpt == Unset
    ensures var obj := ListObj([f]);
            && ObjWritable(obj, cfg)
            && var (flag, body) := Layout(obj, cfg);
               flag == TYPE_LIST_QUICKLIST && PObject(flag, body + t, cfg.valkey) == Bad
  {
    hide EncZipList, AllShort, EncPages, PPages, PZipListBuf, EncLength, PLength;
    assert [f][0] == f && [] + [f] == [f] && [f][1..] == [];
    assert Pages([f]) == [[f]] by {
      assert PagesFrom([], [], 0) == [];
    }
    LongValueLost(f);
    Assoc(EncLength(1), EncPages([[f]], cfg.compress), t);
    LengthRoundTrip(1, EncPages([[f]], cfg.compress) + t);
    PagesCons([[f]], cfg.compress, t);
  }
}
