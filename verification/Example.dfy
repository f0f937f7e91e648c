/** Examples in literal bytes: one object of each kind, a small file, a command and a compressed text,
    as they are written and as they are read. */
module Examples {
  import opened Bytes
  import opened Parsing
  import opened RdbString
  import opened ZipList
  import opened Lists
  import opened Sets
  import opened Hashes
  import opened Objects
  import opened EncoderModel
  import opened DecoderModel
  import opened RdbFile
  import opened Formats
  import Crc64
  import Resp
  import Lzf
  import LzfRepeats

  // ----- one object of each kind

  const A: seq<byte> := [97]
  const B: seq<byte> := [98]

  /** Settings under which nothing is small enough for a ziplist. */
  function Plain(valkey: bool, compress: bool): Config
  {
    Config(compress, valkey, ZipListOpt(-1, -1), ZipListOpt(-1, -1))
  }

  lemma OneLetter(c: byte, compress: bool)
    requires 58 <= c
    ensures EncodableInt([c], MAX_INT64) == None && EncodableInt([c], MAX_INT32) == None
    ensures Writable([c], compress) && EncString([c], compress) == [1, c]
  {
    assert !IsDigit([c][0]);
  }

  lemma AsExample(obj: Object, cfg: Config, flag: byte, body: seq<byte>, t: seq<byte>)
    requires ObjWritable(obj, cfg) && ObjTyped(obj) && ReadsBack(obj, cfg) && Layout(obj, cfg) == (flag, body)
    ensures PObject(flag, body + t, cfg.valkey) == Got(AsRead(obj), t)
  {
    hide ObjWritable, ObjTyped, ReadsBack, Layout, AsRead, PObject;
    ObjectRoundTripIff(obj, cfg, t);
  }

  lemma StringExample(cfg: Config, t: seq<byte>)
    ensures ObjWritable(StringObj(A), cfg) && Layout(StringObj(A), cfg) == (0, [1, 97])
    ensures PObject(0, [1, 97] + t, cfg.valkey) == Got(StringV(A), t)
  {
    OneLetter(97, cfg.compress);
    hide EncString, Writable, PObject;
    AsExample(StringObj(A), cfg, 0, [1, 97], t);
  }

  lemma SetExample(cfg: Config, t: seq<byte>)
    ensures ObjWritable(SetObj([A, B]), cfg) && Layout(SetObj([A, B]), cfg) == (2, [2, 1, 97, 1, 98])
    ensures PObject(2, [2, 1, 97, 1, 98] + t, cfg.valkey) == Got(SetV([A, B]), t)
  {
    OneLetter(97, cfg.compress);
    OneLetter(98, cfg.compress);
    hide EncString, Writable, PObject, EncodableInt;
    assert [A, B][..1] == [A] && [A, B][1..] == [B] && [B][1..] == [];
    assert [A, B][|[A, B]| - 1] == B;
    assert IntValues([A, B]) == None;
    assert EncStrings([B], cfg.compress) == [1, 98] + [];
    assert EncStrings([A, B], cfg.compress) == [1, 97] + EncStrings([B], cfg.compress);
    assert EncLength(2) + EncStrings([A, B], cfg.compress) == [2, 1, 97, 1, 98];
    AsExample(SetObj([A, B]), cfg, 2, [2, 1, 97, 1, 98], t);
  }

  lemma HashExample(cfg: Config, t: seq<byte>)
    requires cfg.hashOpt == ZipListOpt(-1, -1)
    ensures ObjWritable(HashObj(map[A := B], [A]), cfg)
    ensures Layout(HashObj(map[A := B], [A]), cfg) == (4, [1, 1, 97, 1, 98])
    ensures PObject(4, [1, 1, 97, 1, 98] + t, cfg.valkey) == Got(HashV(map[A := B], map[]), t)
  {
    var m: Fields := map[A := B];
    OneLetter(97, cfg.compress);
    OneLetter(98, cfg.compress);
    hide EncString, Writable, PObject, EncodableInt;
    assert m.Keys == {A} && |m| == 1 && [A][1..] == [];
    assert EncPairs([A], m, cfg.compress) == [1, 97] + ([1, 98] + []);
    assert EncLength(1) + EncPairs([A], m, cfg.compress) == [1, 1, 97, 1, 98];
    AsExample(HashObj(m, [A]), cfg, 4, [1, 1, 97, 1, 98], t);
  }

  /** The ziplist of two letters. */
  function Letters(): seq<byte>
  {
    [17, 0, 0, 0, 13, 0, 0, 0, 2, 0, 0, 1, 97, 3, 1, 98, 255]
  }

  lemma LetterEntry(prevLen: nat, c: byte)
    requires 58 <= c && prevLen < 254
    ensures EncEntry(prevLen, [c]) == [prevLen, 1, c]
  {
    OneLetter(c, false);
  }

  lemma LettersList()
    ensures AllShort([A, B]) && EncZipList([A, B]) == Letters()
  {
    hide EncEntry, LE;
    LetterEntry(0, 97);
    LetterEntry(3, 98);
    assert [A, B][1..] == [B] && [B][1..] == [];
    assert Body([B], 3) == [3, 1, 98] + [];
    assert Body([A, B], 0) == [0, 1, 97] + Body([B], 3);
    assert Starts([B], 3, 13) == [13] + [];
    assert Starts([A, B], 0, 10) == [10] + ([13] + []);
    LittleEndian(17);
    LittleEndian(13);
    LittleEndian(2);
    assert ListHeader([A, B]) == [17, 0, 0, 0] + [13, 0, 0, 0] + [2, 0];
  }

  lemma LettersString(compress: bool)
    ensures Writable(Letters(), compress) && EncNanString(Letters(), compress) == [17] + Letters()
  {
  }

  lemma LettersSurvive()
    ensures ListOk([A, B]) && RunsOk([A, B])
  {
    OneLetter(97, false);
    OneLetter(98, false);
  }

  lemma ZipListExample(cfg: Config, t: seq<byte>)
    requires cfg.listOpt == Unset
    ensures ObjWritable(ListObj([A, B]), cfg) && Layout(ListObj([A, B]), cfg) == (10, [17] + Letters())
    ensures PObject(10, [17] + Letters() + t, cfg.valkey) == Got(ListV([A, B]), t)
  {
    hide EncNanString, EncZipList, AllShort, PObject, Writable, ListOk, Letters;
    LettersList();
    LettersString(cfg.compress);
    LettersSurvive();
    AsExample(ListObj([A, B]), cfg, 10, [17] + Letters(), t);
  }

  lemma QuickListExample(cfg: Config, t: seq<byte>)
    requires cfg.listOpt == ZipListOpt(-1, -1)
    ensures ObjWritable(ListObj([A, B]), cfg) && Layout(ListObj([A, B]), cfg) == (14, [1, 17] + Letters())
    ensures PObject(14, [1, 17] + Letters() + t, cfg.valkey) == Got(ListV([A, B]), t)
  {
    hide EncNanString, EncZipList, AllShort, PObject, Writable, RunsOk, Letters;
    LettersList();
    LettersString(cfg.compress);
    LettersSurvive();
    assert [] + [A] == [A] && [A] + [B] == [A, B] && [A, B][1..] == [B] && [B][1..] == [];
    assert PagesFrom([], [A, B], 2) == [[A, B]];
    assert PagesFrom([B], [A], 1) == PagesFrom([], [A, B], 2);
    assert Pages([A, B]) == [[A, B]];
    assert EncPages([[A, B]], cfg.compress) == ([17] + Letters()) + [];
    assert EncQuickList([[A, B]], cfg.compress) == [1, 17] + Letters();
    AsExample(ListObj([A, B]), cfg, 14, [1, 17] + Letters(), t);
  }

  lemma ZipHashExample(cfg: Config, t: seq<byte>)
    requires cfg.hashOpt == Unset
    ensures ObjWritable(HashObj(map[A := B], [A]), cfg)
    ensures Layout(HashObj(map[A := B], [A]), cfg) == (13, [17] + Letters())
    ensures PObject(13, [17] + Letters() + t, cfg.valkey) == Got(HashV(map[A := B], map[]), t)
  {
    hide EncNanString, EncZipList, AllShort, PObject, Writable, ListOk, Letters, PZipHashBuf;
    var m: Fields := map[A := B];
    LettersList();
    LettersString(cfg.compress);
    LettersSurvive();
    assert m.Keys == {A} && |m| == 1 && [A][1..] == [] && Flatten([A], m) == [A, B];
    ZipHashBufRoundTrip([A], m);
    AsExample(HashObj(m, [A]), cfg, 13, [17] + Letters(), t);
  }

  lemma IntSetExample(cfg: Config, t: seq<byte>)
    ensures ObjWritable(SetObj([[55]]), cfg)
    ensures Layout(SetObj([[55]]), cfg) == (11, [10, 2, 0, 0, 0, 1, 0, 0, 0, 7, 0])
    ensures PObject(11, [10, 2, 0, 0, 0, 1, 0, 0, 0, 7, 0] + t, cfg.valkey) == Got(SetV([[55]]), t)
  {
    hide EncNanString, PObject, Writable, LE;
    var buf: seq<byte> := [2, 0, 0, 0, 1, 0, 0, 0, 7, 0];
    SevenSet();
    SmallString(buf, cfg.compress);
    assert [10] + buf == [10, 2, 0, 0, 0, 1, 0, 0, 0, 7, 0];
    AsExample(SetObj([[55]]), cfg, 11, [10] + buf, t);
  }

  lemma SmallString(s: seq<byte>, compress: bool)
    requires |s| <= 20
    ensures Writable(s, compress) && EncNanString(s, compress) == [|s|] + s
  {
  }

  lemma SevenSet()
    ensures NatText(7) == [55] && IntValues([[55]]) == Some([7]) && ReadBack([[55]]) == [[55]]
    ensures EncIntSet([7]) == [2, 0, 0, 0, 1, 0, 0, 0, 7, 0]
  {
    SevenValue();
    SevenBytes();
    hide IntValues, EncIntSet, NatText;
    assert Sorted([7]) == [7] by {
      assert [7][..0] == [];
    }
    assert Texts([7]) == [[55]];
  }

  lemma SevenValue()
    ensures NatText(7) == [55] && IntValues([[55]]) == Some([7])
  {
    hide EncodableInt;
    EncodableSeven();
    var texts: Values := [[55]];
    assert texts[..|texts| - 1] == [] && texts[|texts| - 1] == [55];
    assert IntValues(texts[..|texts| - 1]) == Some([]);
    assert [] + [7] == [7];
  }

  lemma EncodableSeven()
    ensures NatText(7) == [55] && EncodableInt([55], MAX_INT64) == Some(7)
  {
    NatTextCanonical(7);
  }

  lemma SevenBytes()
    ensures EncIntSet([7]) == [2, 0, 0, 0, 1, 0, 0, 0, 7, 0]
  {
    hide LE;
    assert [7][..0] == [];
    LittleEndian(2);
    LittleEndian(1);
    LittleEndian(7);
    assert Sorted([7]) == [7] && WidthOf([7]) == 2;
    assert EncInts([7], 2) == [] + LE(7, 2);
  }

  function RedisHash(): seq<byte>
  {
    [232, 3, 0, 0, 0, 0, 0, 0, 1, 1, 1, 97, 1, 98]
  }

  function ValkeyHash(): seq<byte>
  {
    [1, 1, 97, 1, 98, 232, 3, 0, 0, 0, 0, 0, 0]
  }

  function Expiring(): Object
  {
    HashExObj(map[A := B], map[A := 1000], [A], [A])
  }

  lemma ExpiringFits(cfg: Config)
    ensures ObjWritable(Expiring(), cfg) && ObjTyped(Expiring()) && ReadsBack(Expiring(), cfg)
    ensures AsRead(Expiring()) == HashV(map[A := B], map[A := 1000])
  {
    hide Writable, EncString, ExpireOf, ExpiresOk, ExpiresNonNegative, PairsWritable;
    var m: Fields := map[A := B];
    var e: Expires := map[A := 1000];
    assert m.Keys == {A} && |m| == 1 && e.Keys == {A};
    ExpiringBytes(cfg.compress);
    ExpiringKept(m, e);
    assert Delivered(m, e) == e;
  }

  /** A hash with one field that expires at 1000, for Redis and for Valkey. */
  lemma ExpiringExample(cfg: Config, t: seq<byte>)
    ensures ObjWritable(Expiring(), cfg)
    ensures Layout(Expiring(), cfg) == if cfg.valkey then (22, ValkeyHash()) else (24, RedisHash())
    ensures PObject(if cfg.valkey then 22 else 24, (if cfg.valkey then ValkeyHash() else RedisHash()) + t,
                    cfg.valkey) ==
            Got(HashV(map[A := B], map[A := 1000]), t)
  {
    hide PObject, ObjWritable, ObjTyped, ReadsBack, AsRead, ValkeyHash, RedisHash, EncHashEx, EncPairsValkey, EncLength;
    ExpiringFits(cfg);
    ExpiringBytes(cfg.compress);
    AsExample(Expiring(), cfg, if cfg.valkey then 22 else 24, if cfg.valkey then ValkeyHash() else RedisHash(), t);
  }

  lemma ExpiringKept(m: Fields, e: Expires)
    requires m == map[A := B] && e == map[A := 1000]
    ensures ExpiresOk(m, e) && ExpiresNonNegative(m, e) && ExpireOf(e, A) == 1000
  {
  }

  lemma Thousand()
    ensures LE(1000, 8) == [232, 3, 0, 0, 0, 0, 0, 0]
  {
    hide LE;
    LittleEndianHalves(1000);
    LittleEndian(1000);
    LittleEndian(0);
  }

  lemma ExpiringBytes(compress: bool)
    ensures var m: Fields := map[A := B];
            var e: Expires := map[A := 1000];
            && |m| == 1 && PairsWritable([A], m, compress) && InExpires([A], e)
            && EncLength(1) + EncPairsValkey([A], m, e, compress) == ValkeyHash()
            && EncHashEx([A], m, [A], e, compress) == RedisHash()
  {
    hide EncString, Writable, LE;
    var m: Fields := map[A := B];
    var e: Expires := map[A := 1000];
    OneLetter(97, compress);
    OneLetter(98, compress);
    Thousand();
    assert [A][1..] == [] && [A][..0] == [] && m.Keys == {A} && |m| == 1;
    assert MinOver([], e) == EB_EXPIRE_TIME_INVALID;
    assert MinExpire([A], e) == 1000;
    assert EncPairsValkey([A], m, e, compress) == [1, 97] + ([1, 98] + (LE(1000, 8) + []));
    assert EncExPairs([A], m, e, 1000, compress) == [1] + ([1, 97] + ([1, 98] + []));
  }

  /** A plain list, which is only read. */
  lemma PlainListRead(values: Values, compress: bool, t: seq<byte>, valkey: bool)
    requires AllWritable(values, compress) && |values| < TWO_63
    ensures PObject(1, EncLength(|values|) + EncStrings(values, compress) + t, valkey) == Got(ListV(values), t)
    ensures PObject(1, [2, 1, 97, 1, 98] + t, valkey) == Got(ListV([A, B]), t)
  {
    hide PSet, EncLength, EncStrings, AllWritable;
    SetRoundTrip(values, compress, t);
    SetExample(Plain(valkey, false), t);
  }

  // ----- a file

  /** A Redis file with an auxiliary field, one database and one string that expires at 1000, without its
      checksum. */
  function SmallBytes(): seq<byte>
  {
    [82, 69, 68, 73, 83, 48, 48, 49, 49, 250, 1, 97, 1, 98, 254, 0, 251, 1, 0,
     252, 232, 3, 0, 0, 0, 0, 0, 0, 0, 1, 97, 1, 98, 255]
  }

  function SmallCalls(): seq<Call>
  {
    [Header, Aux(A, B), DBHeader(0, 1, 0), Write(A, StringObj(B), [1000]), End]
  }

  lemma SmallPieces(cfg: Config)
    ensures Writable(A, cfg.compress) && Writable(B, cfg.compress)
    ensures EncAux(A, B, cfg) == [250, 1, 97, 1, 98]
    ensures EncDBHeader(0, 1, 0) == [254, 0, 251, 1, 0]
    ensures EncTTL(1000) == [252, 232, 3, 0, 0, 0, 0, 0, 0]
    ensures ObjWritable(StringObj(B), cfg) && EncObject(A, StringObj(B), cfg) == [0, 1, 97, 1, 98]
  {
    hide EncString, Writable, LE;
    OneLetter(97, cfg.compress);
    OneLetter(98, cfg.compress);
    Thousand();
  }

  lemma SmallJoined()
    ensures HEADER_REDIS + [250, 1, 97, 1, 98] + [254, 0, 251, 1, 0] +
            ([252, 232, 3, 0, 0, 0, 0, 0, 0] + [0, 1, 97, 1, 98]) + [255] == SmallBytes()
  {
  }

  lemma SmallTyped(cfg: Config)
    ensures forall i :: 0 <= i < |SmallCalls()| ==>
                          CallTyped(SmallCalls()[i], cfg) && CallWritable(SmallCalls()[i], cfg)
  {
    hide ObjWritable, Writable;
    SmallPieces(cfg);
  }

  lemma SmallWrite(e: Enc, cfg: Config, poly: Crc64.Word)
    requires e.phase == WrittenDBHeader && CallWritable(Write(A, StringObj(B), [1000]), cfg)
    ensures Apply(e, Write(A, StringObj(B), [1000]), cfg, poly) ==
            Reply(Enc(WrittenObject, e.dbs, e.out + ([252, 232, 3, 0, 0, 0, 0, 0, 0] + [0, 1, 97, 1, 98])), true)
  {
    hide EncTTL, EncObject, ObjWritable, Writable, Apply;
    SmallPieces(cfg);
    WriteApplies(e, Write(A, StringObj(B), [1000]), cfg, poly);
  }

  lemma SmallRun(cfg: Config, poly: Crc64.Word)
    requires !cfg.valkey
    ensures (forall i :: 0 <= i < |SmallCalls()| ==>
                           CallTyped(SmallCalls()[i], cfg) && CallWritable(SmallCalls()[i], cfg))
    ensures Run(Initial, SmallCalls(), cfg, poly) ==
            Some(Enc(WrittenEnd, {0}, SmallBytes() + Crc64.WordBytes(Crc64.Fold(0, SmallBytes(), poly), 8)))
  {
    hide EncAux, EncDBHeader, EncTTL, EncObject, ObjWritable, Writable, Crc64.WordBytes, Crc64.Fold, Run, CallTyped,
      SmallBytes;
    SmallTyped(cfg);
    var calls := SmallCalls();
    SmallHead(cfg, poly);
    var e := SmallOpen();
    hide SmallOpen;
    SmallRest(e, cfg, poly);
    SmallJoined();
  }

  /** Where the encoder stands before the object. */
  function SmallOpen(): Enc
  {
    Enc(WrittenDBHeader, {0}, HEADER_REDIS + [250, 1, 97, 1, 98] + [254, 0, 251, 1, 0])
  }

  lemma SmallHead(cfg: Config, poly: Crc64.Word)
    requires !cfg.valkey
    requires forall i :: 0 <= i < |SmallCalls()| ==> CallWritable(SmallCalls()[i], cfg)
    ensures Run(Initial, SmallCalls(), cfg, poly) == Run(SmallOpen(), SmallCalls()[3..], cfg, poly)
  {
    hide EncAux, EncDBHeader, EncTTL, EncObject, ObjWritable, Writable, Run;
    SmallPieces(cfg);
    var calls := SmallCalls();
    var e1 := Enc(WrittenHeader, {}, HEADER_REDIS);
    var e2 := Enc(WrittenAux, {}, e1.out + [250, 1, 97, 1, 98]);
    SmallStart(cfg, poly);
    RunStep(Initial, calls, cfg, poly, e1);
    RunStep(e1, calls[1..], cfg, poly, e2);
    assert {} + {0} == {0};
    RunStep(e2, calls[2..], cfg, poly, SmallOpen());
  }

  lemma SmallRest(e: Enc, cfg: Config, poly: Crc64.Word)
    requires e.phase == WrittenDBHeader
    requires forall i :: 0 <= i < |SmallCalls()| ==> CallWritable(SmallCalls()[i], cfg)
    ensures var out := e.out + ([252, 232, 3, 0, 0, 0, 0, 0, 0] + [0, 1, 97, 1, 98]) + [255];
            Run(e, SmallCalls()[3..], cfg, poly) ==
            Some(Enc(WrittenEnd, e.dbs, out + Crc64.WordBytes(Crc64.Fold(0, out, poly), 8)))
  {
    hide EncAux, EncDBHeader, EncTTL, EncObject, ObjWritable, Writable, Crc64.WordBytes, Crc64.Fold, Run, Apply;
    var calls := SmallCalls();
    var e4 := Enc(WrittenObject, e.dbs, e.out + ([252, 232, 3, 0, 0, 0, 0, 0, 0] + [0, 1, 97, 1, 98]));
    assert calls[3] == Write(A, StringObj(B), [1000]) && calls[4] == End;
    SmallWrite(e, cfg, poly);
    RunStep(e, calls[3..], cfg, poly, e4);
    SmallEnd(e4, cfg, poly);
    var out := e4.out + [255];
    var e5 := Enc(WrittenEnd, e.dbs, out + Crc64.WordBytes(Crc64.Fold(0, out, poly), 8));
    assert calls[3..][1..] == calls[4..] && calls[4..][0] == End;
    RunStep(e4, calls[4..], cfg, poly, e5);
    assert |calls[4..][1..]| == 0;
    RunOver(e5, cfg, poly);
  }

  lemma SmallEnd(e: Enc, cfg: Config, poly: Crc64.Word)
    requires e.phase == WrittenObject
    ensures var out := e.out + [255];
            Apply(e, End, cfg, poly) ==
            Reply(Enc(WrittenEnd, e.dbs, out + Crc64.WordBytes(Crc64.Fold(0, out, poly), 8)), true)
  {
    hide EncAux, EncDBHeader, EncTTL, EncObject, ObjWritable, Crc64.WordBytes, Crc64.Fold;
  }

  lemma SmallStart(cfg: Config, poly: Crc64.Word)
    requires !cfg.valkey
    ensures Apply(Initial, Header, cfg, poly) == Reply(Enc(WrittenHeader, {}, HEADER_REDIS), true)
  {
    hide EncAux, EncDBHeader, EncTTL, EncObject, ObjWritable;
    assert [] + HEADER_REDIS == HEADER_REDIS;
  }

  lemma RunOver(e: Enc, cfg: Config, poly: Crc64.Word)
    ensures Run(e, [], cfg, poly) == Some(e)
  {
  }

  lemma RunStep(e: Enc, calls: seq<Call>, cfg: Config, poly: Crc64.Word, next: Enc)
    requires (forall i :: 0 <= i < |calls| ==> CallWritable(calls[i], cfg)) && calls != []
    requires Apply(e, calls[0], cfg, poly) == Reply(next, true)
    ensures Run(e, calls, cfg, poly) == Run(next, calls[1..], cfg, poly)
  {
    hide Apply, CallWritable;
  }

  /** The calls write these bytes and the checksum of them, and that reads as what the calls wrote. */
  lemma SmallFile(cfg: Config, poly: Crc64.Word)
    requires !cfg.valkey
    ensures forall i :: 0 <= i < |SmallCalls()| ==> CallWritable(SmallCalls()[i], cfg)
    ensures Run(Initial, SmallCalls(), cfg, poly) ==
            Some(Enc(WrittenEnd, {0}, SmallBytes() + Crc64.WordBytes(Crc64.Fold(0, SmallBytes(), poly), 8)))
    ensures ParseFile(SmallBytes() + Crc64.WordBytes(Crc64.Fold(0, SmallBytes(), poly), 8), true) ==
            Outcome([AuxEvent(A, B), SizeEvent(0, 1, 0), ObjectEvent(0, A, Some(1000), None, None, StringV(B))], true)
    ensures ParseFile(SmallBytes() + Crc64.WordBytes(Crc64.Fold(0, SmallBytes(), poly), 8), false) ==
            Outcome([ObjectEvent(0, A, Some(1000), None, None, StringV(B))], true)
  {
    hide ParseFile, Run, Crc64.WordBytes, Crc64.Fold, CallTyped, CallWritable, SmallBytes, Expected, AllRead;
    SmallRun(cfg, poly);
    FileRoundTripIff(SmallCalls(), cfg, poly, true);
    FileRoundTripIff(SmallCalls(), cfg, poly, false);
    SmallEvents(cfg);
  }

  lemma SmallEvents(cfg: Config)
    ensures Expected(SmallCalls(), 0, true) ==
            [AuxEvent(A, B), SizeEvent(0, 1, 0), ObjectEvent(0, A, Some(1000), None, None, StringV(B))]
    ensures Expected(SmallCalls(), 0, false) == [ObjectEvent(0, A, Some(1000), None, None, StringV(B))]
    ensures AllRead(SmallCalls(), cfg)
  {
    hide Expected;
    EventsOf(true);
    EventsOf(false);
  }

  lemma EventsOf(special: bool)
    ensures Expected(SmallCalls(), 0, special) ==
            (if special then [AuxEvent(A, B)] else []) + ((if special then [SizeEvent(0, 1, 0)] else []) +
              [ObjectEvent(0, A, Some(1000), None, None, StringV(B))])
  {
    hide Expected;
    var calls := SmallCalls();
    ExpectedStep(calls, 0, special);
    ExpectedStep(calls[1..], 0, special);
    ExpectedStep(calls[2..], 0, special);
    ExpectedStep(calls[3..], 0, special);
    ExpectedStep(calls[4..], 0, special);
    assert calls[1..][1..] == calls[2..] && calls[2..][1..] == calls[3..] && calls[3..][1..] == calls[4..];
    assert calls[4..][1..] == [];
    NothingExpected(special);
  }

  lemma NothingExpected(special: bool)
    ensures Expected([], 0, special) == []
  {
  }

  /** A Valkey file has the other header, and the two end with 255 and eight more bytes. */
  lemma Headers(cfg: Config)
    ensures MagicOf(cfg) == if cfg.valkey then [86, 65, 76, 75, 69, 89, 48, 56, 48]
                            else [82, 69, 68, 73, 83, 48, 48, 49, 49]
  {
  }

  // ----- a command

  /** SET k "" and a nil argument. */
  lemma CommandExample()
    ensures Resp.EncCmd([Some([83, 69, 84]), Some([107]), Some([]), None]) ==
            [42, 52, 13, 10, 36, 51, 13, 10, 83, 69, 84, 13, 10, 36, 49, 13, 10, 107, 13, 10,
             36, 48, 13, 10, 13, 10, 36, 45, 49, 13, 10]
  {
    hide NatText, Resp.EncArgs, Resp.EncArg;
    SmallNumbers();
    CommandArgs();
    assert Resp.NumberLine(Resp.STAR, 4) == [42, 52, 13, 10];
    Pieces([42, 52, 13, 10], [36, 51, 13, 10, 83, 69, 84, 13, 10], [36, 49, 13, 10, 107, 13, 10],
           [36, 48, 13, 10, 13, 10], [36, 45, 49, 13, 10]);
    CommandBytes();
  }

  lemma Pieces(a: seq<byte>, b: seq<byte>, c: seq<byte>, d: seq<byte>, e: seq<byte>)
    ensures a + (b + (c + (d + (e + [])))) == a + b + c + d + e
  {
  }

  lemma CommandBytes()
    ensures [42, 52, 13, 10] + [36, 51, 13, 10, 83, 69, 84, 13, 10] + [36, 49, 13, 10, 107, 13, 10] +
            [36, 48, 13, 10, 13, 10] + [36, 45, 49, 13, 10] ==
            [42, 52, 13, 10, 36, 51, 13, 10, 83, 69, 84, 13, 10, 36, 49, 13, 10, 107, 13, 10,
             36, 48, 13, 10, 13, 10, 36, 45, 49, 13, 10]
  {
  }

  lemma CommandArgs()
    ensures Resp.EncArgs([Some([83, 69, 84]), Some([107]), Some([]), None]) ==
            [36, 51, 13, 10, 83, 69, 84, 13, 10] + ([36, 49, 13, 10, 107, 13, 10] +
              ([36, 48, 13, 10, 13, 10] + ([36, 45, 49, 13, 10] + [])))
  {
    hide Resp.EncArgs, Resp.EncArg;
    ArgExamples();
    var args: Resp.CmdLine := [Some([83, 69, 84]), Some([107]), Some([]), None];
    ArgsStep(args);
    ArgsStep(args[1..]);
    ArgsStep(args[2..]);
    ArgsStep(args[3..]);
    assert args[1..][1..] == args[2..] && args[2..][1..] == args[3..] && args[3..][1..] == args[4..] == [];
  }

  lemma SmallNumbers()
    ensures NatText(4) == [52] && NatText(3) == [51] && NatText(1) == [49] && NatText(0) == [48]
  {
  }

  lemma ArgExamples()
    ensures Resp.EncArg(Some([83, 69, 84])) == [36, 51, 13, 10, 83, 69, 84, 13, 10]
    ensures Resp.EncArg(Some([107])) == [36, 49, 13, 10, 107, 13, 10]
    ensures Resp.EncArg(Some([])) == [36, 48, 13, 10, 13, 10] && Resp.EncArg(None) == [36, 45, 49, 13, 10]
  {
    hide NatText;
    SmallNumbers();
  }

  lemma ArgsStep(args: Resp.CmdLine)
    requires args != []
    ensures Resp.EncArgs(args) == Resp.EncArg(args[0]) + Resp.EncArgs(args[1..]) && Resp.EncArgs([]) == []
  {
    hide Resp.EncArg;
  }

  // ----- a compressed text

  /** The letters a and b in turn, a hundred bytes in all. */
  lemma CompressedExample(s: seq<byte>, t: seq<byte>)
    requires |s| == 100 && forall i :: 0 <= i < 100 ==> s[i] == if i % 2 == 0 then 97 else 98
    ensures Writable(s, true)
    ensures EncNanString(s, true) == [195, 10, 64, 100] + [2, 97, 98, 97, 224, 86, 1, 1, 97, 98]
    ensures PString([195, 10, 64, 100] + [2, 97, 98, 97, 224, 86, 1, 1, 97, 98] + t) == Got(s, t)
  {
    hide Lzf.Compressed, EncNanString, PString;
    LzfRepeats.TwoBytesCompressedIff(97, 98, s);
    assert s[98..] == [97, 98];
    var c: seq<byte> := [2, 97, 98, 97, 224, 86, 1, 1, 97, 98];
    assert [2, 97, 98, 97, 224, 86, 1, 1] + s[98..] == c;
    CompressedForm(s, c);
    NanStringRoundTrip(s, true, t);
  }

  lemma CompressedForm(s: seq<byte>, c: seq<byte>)
    requires |s| == 100 && |c| == 10 && Lzf.Compressed(s) == Lzf.Ok(c)
    ensures EncNanString(s, true) == [195, 10, 64, 100] + c
  {
    hide Lzf.Compressed;
    LengthForms(10);
    LengthForms(100);
    Lzf.RoundTrip(s, 100);
    hide EncLength;
    assert [195] + ([10] + ([64, 100] + c)) == [195, 10, 64, 100] + c;
  }
}
