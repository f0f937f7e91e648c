/** Decoding what the encoder wrote: an accepted run of encoder calls decodes to exactly the objects
    written, in order, with their database, key and expiration, if and only if each object comes back
    by itself; and without an error exactly when the run has ended the file. */
module RdbFile {
  import opened Bytes
  import opened Parsing
  import opened RdbString
  import opened Hashes
  import opened Objects
  import opened EncoderModel
  import opened DecoderModel
  import Crc64

  /** Arguments of the Go types. */
  ghost predicate CallTyped(c: Call, cfg: Config)
  {
    CallWritable(c, cfg) && (c.Write? ==> ObjTyped(c.obj))
  }

  /** The object of the call, if there is one, comes back. */
  ghost predicate CallReads(c: Call, cfg: Config)
  {
    c.Write? ==> ReadsBack(c.obj, cfg)
  }

  /** Arguments that survive the trip in whatever order maps are ranged over. */
  ghost predicate CallSurvives(c: Call, cfg: Config)
  {
    CallWritable(c, cfg) && (c.Write? ==> Survives(c.obj, cfg))
  }

  lemma SurvivorReads(c: Call, cfg: Config)
    requires CallSurvives(c, cfg)
    ensures CallTyped(c, cfg) && CallReads(c, cfg)
  {
    hide ReadsBack, ObjWritable, ObjTyped, Writable;
    if c.Write? {
      SurvivesReads(c.obj, cfg);
    }
  }

  /** The expiration delivered for a TTL option: milliseconds, when they are positive as an int64. */
  function ExpireOfTTLs(ttls: seq<nat>): Option<int>
  {
    if ttls != [] && 1 <= ttls[0] < TWO_63 then Some(ttls[0]) else None
  }

  /** The events a run of calls should produce, given the database currently open. Database indices are
      unsigned when written and signed when read. */
  function Expected(calls: seq<Call>, db: int, special: bool): seq<Event>
    decreases |calls|
  {
    if calls == [] then []
    else
      var rest := calls[1..];
      match calls[0]
      case Header => Expected(rest, db, special)
      case Aux(k, v) => (if special then [AuxEvent(k, v)] else []) + Expected(rest, db, special)
      case DBHeader(i, k, t) =>
        (if special then [SizeEvent(ToInt64(i), k, t)] else []) + Expected(rest, ToInt64(i), special)
      case Write(key, obj, ttls) =>
        [ObjectEvent(db, key, ExpireOfTTLs(ttls), None, None, AsRead(obj))] + Expected(rest, db, special)
      case End => Expected(rest, db, special)
  }

  /** The bytes one accepted call adds, for calls with at most one TTL. */
  ghost function CallBytes(c: Call, cfg: Config): seq<byte>
    requires CallWritable(c, cfg)
  {
    match c
    case Header => MagicOf(cfg)
    case Aux(k, v) => EncAux(k, v, cfg)
    case DBHeader(i, k, t) => EncDBHeader(i, k, t)
    case Write(key, obj, ttls) => (if ttls == [] then [] else EncTTL(ttls[0])) + EncObject(key, obj, cfg)
    case End => [OP_EOF]
  }

  /** Contexts between calls: no expiration is pending. */
  predicate Settled(ctx: Context)
  {
    ctx.expireMs <= 0 && ctx.lru == None && ctx.lfu == None
  }

  // ----- one call at a time

  lemma AuxTurn(k: seq<byte>, v: seq<byte>, cfg: Config, t: seq<byte>, ctx: Context, special: bool)
    requires Writable(k, cfg.compress) && Writable(v, cfg.compress)
    ensures TakeTurn(EncAux(k, v, cfg) + t, ctx, cfg.valkey, special) ==
            Next(t, ctx, if special then [AuxEvent(k, v)] else [])
  {
    hide EncString, PString, Writable;
    var ek, ev := EncString(k, cfg.compress), EncString(v, cfg.compress);
    assert (EncAux(k, v, cfg) + t)[1..] == ek + (ev + t);
    StringRoundTrip(k, cfg.compress, ev + t);
    StringRoundTrip(v, cfg.compress, t);
  }

  lemma SelectTurn(i: nat, t: seq<byte>, ctx: Context, valkey: bool, special: bool)
    requires i < TWO_64
    ensures TakeTurn([OP_SELECT_DB] + (EncLength(i) + t), ctx, valkey, special) == Next(t, ctx.(db := ToInt64(i)), [])
  {
    hide EncLength, PLength, ToInt64;
    LengthRoundTrip(i, t);
    assert ([OP_SELECT_DB] + (EncLength(i) + t))[1..] == EncLength(i) + t;
  }

  lemma ResizeTurn(k: nat, n: nat, t: seq<byte>, ctx: Context, valkey: bool, special: bool)
    requires k < TWO_64 && n < TWO_64
    ensures TakeTurn([OP_RESIZE_DB] + (EncLength(k) + (EncLength(n) + t)), ctx, valkey, special) ==
            Next(t, ctx, if special then [SizeEvent(ctx.db, k, n)] else [])
  {
    hide EncLength, PLength;
    LengthRoundTrip(k, EncLength(n) + t);
    LengthRoundTrip(n, t);
    var s := [OP_RESIZE_DB] + (EncLength(k) + (EncLength(n) + t));
    assert s[1..] == EncLength(k) + (EncLength(n) + t);
  }

  lemma TTLTurn(ttl: nat, t: seq<byte>, ctx: Context, valkey: bool, special: bool)
    requires ttl < TWO_64
    ensures TakeTurn(EncTTL(ttl) + t, ctx, valkey, special) == Next(t, ctx.(expireMs := ToInt64(ttl)), [])
  {
    hide LE, PInt64;
    assert (EncTTL(ttl) + t)[1..] == LE(ttl, 8) + t;
    UInt64AsInt64(ttl, t);
  }

  lemma UInt64AsInt64(v: nat, t: seq<byte>)
    requires v < TWO_64
    ensures PInt64(LE(v, 8) + t) == Got(ToInt64(v), t)
  {
    Pow256Values();
    hide LE, UnLE, Pow256;
    PBytesOf(LE(v, 8), t);
    UnsignedRoundTrip(v, 8);
  }

  /** The context behind an object: its expiration, idle time and frequency are used up. */
  function After(ctx: Context): Context
  {
    Context(ctx.db, if ctx.expireMs > 0 then 0 else ctx.expireMs, None, None)
  }

  function EventOf(ctx: Context, key: seq<byte>, value: Value): Event
  {
    ObjectEvent(ctx.db, key, if ctx.expireMs > 0 then Some(ctx.expireMs) else None, ctx.lru, ctx.lfu, value)
  }

  lemma ObjectRead(flag: byte, key: seq<byte>, p: Parsed<Value>, body: seq<byte>, compress: bool, t: seq<byte>,
                   ctx: Context, valkey: bool)
    requires Writable(key, compress) && PObject(flag, body + t, valkey) == p
    ensures TurnObject(flag, EncString(key, compress) + body + t, ctx, valkey) ==
            if p.Got? then Next(p.rest, After(ctx), [EventOf(ctx, key, p.value)]) else Fail
  {
    hide EncString, PString, Writable, PObject;
    Assoc(EncString(key, compress), body, t);
    StringRoundTrip(key, compress, body + t);
  }

  /** One turn of the loop over an object: it fails, or delivers some value, which is the one written
      exactly when the object comes back. */
  lemma ObjectTurn(key: seq<byte>, obj: Object, cfg: Config, t: seq<byte>, ctx: Context, special: bool)
    returns (read: Option<Value>)
    requires Writable(key, cfg.compress) && ObjWritable(obj, cfg) && ObjTyped(obj)
    ensures read == Some(AsRead(obj)) <==> ReadsBack(obj, cfg)
    ensures TakeTurn(EncObject(key, obj, cfg) + t, ctx, cfg.valkey, special) ==
            if read.Some? then Next(t, After(ctx), [EventOf(ctx, key, read.value)]) else Fail
  {
    FlagIsType(obj, cfg);
    hide EncString, Writable, ReadsBack, ObjWritable, ObjTyped, Layout, PObject, AsRead, TurnObject, TakeTurn, After,
      EventOf;
    var (flag, body) := Layout(obj, cfg);
    var rest := EncString(key, cfg.compress) + body;
    Assoc([flag], rest, t);
    ObjectFlag(flag, rest + t, ctx, cfg.valkey, special);
    ObjectRoundTripIff(obj, cfg, t);
    var p := PObject(flag, body + t, cfg.valkey);
    ObjectRead(flag, key, p, body, cfg.compress, t, ctx, cfg.valkey);
    read := if p.Got? then Some(p.value) else None;
  }

  lemma FlagIsType(obj: Object, cfg: Config)
    requires ObjWritable(obj, cfg)
    ensures Layout(obj, cfg).0 <= TYPE_HASH_HFE
  {
    hide EncString, EncLength;
  }

  lemma HeaderRead(cfg: Config, t: seq<byte>)
    ensures PHeader(MagicOf(cfg) + t) == Got(if cfg.valkey then Valkey(80) else Redis(11), t)
  {
    var h := MagicOf(cfg);
    PBytesOf(h, t);
    hide PBytes;
    if cfg.valkey {
      assert h[6..] == [48, 56, 48];
      assert TextNat([48, 56, 48]) == 80 by {
        assert [48, 56, 48][..2] == [48, 56] && [48, 56][..1] == [48] && [48][..0] == [];
      }
      assert h[0] == 86;
    } else {
      assert h[5..] == [48, 48, 49, 49];
      assert TextNat([48, 48, 49, 49]) == 11 by {
        assert [48, 48, 49, 49][..3] == [48, 48, 49] && [48, 48, 49][..2] == [48, 48];
        assert [48, 48][..1] == [48] && [48][..0] == [];
      }
      assert h[..5] == REDIS;
    }
  }

  // ----- one call

  /** What a call of a run contributes: its events, and the database open after it. */
  function CallEvents(c: Call, db: int, special: bool): seq<Event>
  {
    match c
    case Header => []
    case Aux(k, v) => if special then [AuxEvent(k, v)] else []
    case DBHeader(i, k, t) => if special then [SizeEvent(ToInt64(i), k, t)] else []
    case Write(key, obj, ttls) => [ObjectEvent(db, key, ExpireOfTTLs(ttls), None, None, AsRead(obj))]
    case End => []
  }

  function DBAfter(c: Call, db: int): int
  {
    if c.DBHeader? then ToInt64(c.index) else db
  }

  /** What decoding makes of the bytes of one call and what follows: the events of the call and then those
      of the rest, if its object comes back, and otherwise not even its own. */
  ghost predicate Decodes(o: Outcome, rest: Outcome, events: seq<Event>, kept: bool)
  {
    && (kept ==> o == Outcome(events + rest.events, rest.ok))
    && (!kept ==> !(events <= o.events))
  }

  /** Decoding goes through the bytes of one call, delivers its events exactly when its object comes back,
      and is settled again. */
  lemma DecodesCall(c: Call, cfg: Config, t: seq<byte>, ctx: Context, special: bool) returns (ctx': Context)
    requires CallTyped(c, cfg) && (c.Aux? || c.DBHeader? || c.Write?) && (c.Write? ==> |c.ttls| <= 1) && Settled(ctx)
    ensures Settled(ctx') && ctx'.db == DBAfter(c, ctx.db)
    ensures Decodes(ParseFrom(CallBytes(c, cfg) + t, ctx, cfg.valkey, special), ParseFrom(t, ctx', cfg.valkey, special),
                    CallEvents(c, ctx.db, special), CallReads(c, cfg))
  {
    match c
    case Aux(k, v) =>
      hide TakeTurn, ParseFrom, EncAux, Writable;
      ctx' := ctx;
      AuxTurn(k, v, cfg, t, ctx, special);
      ParseStep(CallBytes(c, cfg) + t, ctx, cfg.valkey, special);
    case DBHeader(i, k, n) => ctx' := DecodesDBHeader(i, k, n, cfg, t, ctx, special);
    case Write(key, obj, ttls) => ctx' := DecodesWrite(key, obj, ttls, cfg, t, ctx, special);
  }

  lemma DecodesDBHeader(i: nat, k: nat, n: nat, cfg: Config, t: seq<byte>, ctx: Context, special: bool)
    returns (ctx': Context)
    requires i < TWO_64 && k < TWO_64 && n < TWO_64 && Settled(ctx)
    ensures Settled(ctx') && ctx'.db == ToInt64(i)
    ensures ParseFrom(EncDBHeader(i, k, n) + t, ctx, cfg.valkey, special) ==
            Outcome((if special then [SizeEvent(ToInt64(i), k, n)] else []) +
                      ParseFrom(t, ctx', cfg.valkey, special).events,
                    ParseFrom(t, ctx', cfg.valkey, special).ok)
  {
    hide TakeTurn, ParseFrom, EncLength, ToInt64;
    ctx' := ctx.(db := ToInt64(i));
    var s1 := [OP_RESIZE_DB] + (EncLength(k) + (EncLength(n) + t));
    assert EncDBHeader(i, k, n) + t == [OP_SELECT_DB] + (EncLength(i) + s1);
    SelectTurn(i, s1, ctx, cfg.valkey, special);
    ParseStep(EncDBHeader(i, k, n) + t, ctx, cfg.valkey, special);
    ResizeTurn(k, n, t, ctx', cfg.valkey, special);
    ParseStep(s1, ctx', cfg.valkey, special);
  }

  lemma DecodesWrite(key: seq<byte>, obj: Object, ttls: seq<nat>, cfg: Config, t: seq<byte>, ctx: Context,
                     special: bool)
    returns (ctx': Context)
    requires CallTyped(Write(key, obj, ttls), cfg) && |ttls| <= 1 && Settled(ctx)
    ensures Settled(ctx') && ctx'.db == ctx.db
    ensures Decodes(ParseFrom(CallBytes(Write(key, obj, ttls), cfg) + t, ctx, cfg.valkey, special),
                    ParseFrom(t, ctx', cfg.valkey, special),
                    [ObjectEvent(ctx.db, key, ExpireOfTTLs(ttls), None, None, AsRead(obj))], ReadsBack(obj, cfg))
  {
    hide TakeTurn, ParseFrom, EncObject, EncTTL, ReadsBack, ObjWritable, ObjTyped, Writable, AsRead;
    var s1 := EncObject(key, obj, cfg) + t;
    var ctx1 := ctx;
    if ttls == [] {
      assert CallBytes(Write(key, obj, ttls), cfg) + t == s1;
    } else {
      ctx1 := ctx.(expireMs := ToInt64(ttls[0]));
      Assoc(EncTTL(ttls[0]), EncObject(key, obj, cfg), t);
      TTLTurn(ttls[0], s1, ctx, cfg.valkey, special);
      ParseStep(EncTTL(ttls[0]) + s1, ctx, cfg.valkey, special);
    }
    ctx' := After(ctx1);
    var read := ObjectTurn(key, obj, cfg, t, ctx1, special);
    ParseStep(s1, ctx1, cfg.valkey, special);
    if read.Some? {
      FirstEvent(EventOf(ctx1, key, AsRead(obj)), EventOf(ctx1, key, read.value),
                 ParseFrom(t, ctx', cfg.valkey, special).events);
    }
  }

  lemma FirstEvent(a: Event, b: Event, rest: seq<Event>)
    ensures [a] <= [b] + rest <==> a == b
  {
    if [a] <= [b] + rest {
      assert [a][0] == ([b] + rest)[0];
    }
  }

  // ----- whole runs

  lemma ApplyAppends(e: Enc, c: Call, cfg: Config, poly: Crc64.Word)
    requires CallWritable(c, cfg) && (c.Write? ==> |c.ttls| <= 1) && Reachable(e) && Apply(e, c, cfg, poly).ok
    ensures Reachable(Apply(e, c, cfg, poly).enc)
    ensures !c.End? ==> Apply(e, c, cfg, poly).enc.out == e.out + CallBytes(c, cfg)
    ensures c.End? ==>
              Apply(e, c, cfg, poly).enc.phase == WrittenEnd && e.out + [OP_EOF] <= Apply(e, c, cfg, poly).enc.out
    ensures c.Header? <==> e.phase == AtStart
  {
    if c.Write? {
      WriteApplies(e, c, cfg, poly);
    }
    hide EncObject, EncTTL, EncAux, EncDBHeader, Crc64.Fold, Crc64.WordBytes, ApplyTTLs;
  }

  /** An accepted call has at most one TTL. */
  lemma OneTTL(e: Enc, c: Call, cfg: Config, poly: Crc64.Word)
    requires CallWritable(c, cfg) && Apply(e, c, cfg, poly).ok
    ensures c.Write? ==> |c.ttls| <= 1
  {
    hide EncObject, EncTTL, EncAux, EncDBHeader, CallWritable, ApplyTTLs;
    if c.Write? && |c.ttls| >= 2 {
      SecondRefused(e, c.ttls);
    }
  }

  lemma SecondRefused(e: Enc, ttls: seq<nat>)
    requires |ttls| >= 2
    ensures !ApplyTTLs(e, ttls).ok
  {
    if Allowed(e.phase, WrittenTTL) {
      var e1 := e.(phase := WrittenTTL, out := e.out + EncTTL(ttls[0]));
      assert ApplyTTLs(e1, ttls[1..]) == Reply(e1, false);
    }
  }

  lemma {:induction false} RunExtends(e: Enc, calls: seq<Call>, cfg: Config, poly: Crc64.Word)
    requires forall i :: 0 <= i < |calls| ==> CallWritable(calls[i], cfg)
    requires Reachable(e) && Run(e, calls, cfg, poly).Some?
    ensures e.out <= Run(e, calls, cfg, poly).value.out
    decreases |calls|
  {
    hide CallWritable, CallBytes, Apply, Reachable;
    if calls != [] {
      OneTTL(e, calls[0], cfg, poly);
      ApplyAppends(e, calls[0], cfg, poly);
      RunExtends(Apply(e, calls[0], cfg, poly).enc, calls[1..], cfg, poly);
    }
  }

  ghost predicate AllRead(calls: seq<Call>, cfg: Config)
  {
    forall i :: 0 <= i < |calls| ==> CallReads(calls[i], cfg)
  }

  lemma AllReadStep(calls: seq<Call>, cfg: Config)
    requires calls != []
    ensures AllRead(calls, cfg) <==> CallReads(calls[0], cfg) && AllRead(calls[1..], cfg)
  {
    hide CallReads;
    assert forall i :: 0 < i < |calls| ==> calls[i] == calls[1..][i - 1];
  }

  /** Bytes in which the loop finds no object before the input ends. */
  ghost predicate Exhausts(tail: seq<byte>, valkey: bool, special: bool)
  {
    forall ctx :: ParseFrom(tail, ctx, valkey, special) == Outcome([], false)
  }

  lemma NothingLeft(valkey: bool, special: bool)
    ensures Exhausts([], valkey, special)
  {
    forall ctx ensures ParseFrom([], ctx, valkey, special) == Outcome([], false) {
      ParseStep([], ctx, valkey, special);
    }
  }

  /** From any point of an accepted run, whether it ends the file or not: the rest decodes to the expected
      events exactly when all its objects come back, and without an error exactly when the file is ended.
      One lost object cannot be made up for by another. */
  lemma {:induction false} DecodesRun(e: Enc, calls: seq<Call>, cfg: Config, poly: Crc64.Word, ctx: Context,
                                      special: bool, tail: seq<byte>)
    requires forall i :: 0 <= i < |calls| ==> CallTyped(calls[i], cfg) && CallWritable(calls[i], cfg)
    requires Reachable(e) && e.phase != AtStart && e.phase != WrittenEnd && Settled(ctx)
    requires Run(e, calls, cfg, poly).Some? && Exhausts(tail, cfg.valkey, special)
    ensures var end := Run(e, calls, cfg, poly).value;
            && e.out <= end.out
            && ((ParseFrom(end.out[|e.out|..] + tail, ctx, cfg.valkey, special) ==
                 Outcome(Expected(calls, ctx.db, special), end.phase == WrittenEnd)) <==> AllRead(calls, cfg))
    decreases |calls|
  {
    hide TakeTurn, CallTyped, CallReads, CallWritable, CallBytes, Apply, ParseFrom, Reachable, AllRead, Expected,
      CallEvents, Settled, Exhausts;
    if calls == [] {
      RunOfNothing(e, cfg, poly, ctx, special, tail);
    } else {
      var c := calls[0];
      var end := Run(e, calls, cfg, poly).value;
      assert CallTyped(c, cfg) && CallWritable(c, cfg);
      OneTTL(e, c, cfg, poly);
      ApplyAppends(e, c, cfg, poly);
      var e1 := Apply(e, c, cfg, poly).enc;
      assert forall i :: 0 <= i < |calls| - 1 ==> calls[1..][i] == calls[i + 1];
      ExpectedStep(calls, ctx.db, special);
      AllReadStep(calls, cfg);
      if c.End? {
        NothingAfterEnd(e1, calls[1..], cfg, poly);
        EndTurn(end.out[|e.out|..] + tail, ctx, cfg.valkey, special);
        EndReads(cfg, ctx.db, special);
      } else {
        NotEnded(e, c, cfg, poly);
        RunExtends(e1, calls[1..], cfg, poly);
        var w := end.out[|e1.out|..] + tail;
        var ctx' := DecodesCall(c, cfg, w, ctx, special);
        DecodesRun(e1, calls[1..], cfg, poly, ctx', special, tail);
        Behind(e.out, CallBytes(c, cfg), end.out, tail);
        DecodesIff(ParseFrom(CallBytes(c, cfg) + w, ctx, cfg.valkey, special), ParseFrom(w, ctx', cfg.valkey, special),
                   CallEvents(c, ctx.db, special), CallReads(c, cfg), Expected(calls[1..], ctx'.db, special),
                   end.phase == WrittenEnd);
      }
    }
  }

  lemma RunOfNothing(e: Enc, cfg: Config, poly: Crc64.Word, ctx: Context, special: bool, tail: seq<byte>)
    requires Exhausts(tail, cfg.valkey, special)
    ensures Run(e, [], cfg, poly) == Some(e) && AllRead([], cfg) && Expected([], ctx.db, special) == []
    ensures ParseFrom(e.out[|e.out|..] + tail, ctx, cfg.valkey, special) == Outcome([], false)
  {
    hide ParseFrom;
    assert e.out[|e.out|..] + tail == tail;
  }

  lemma Behind(start: seq<byte>, piece: seq<byte>, out: seq<byte>, tail: seq<byte>)
    requires start + piece <= out
    ensures out[|start|..] + tail == piece + (out[|start + piece|..] + tail)
  {
    assert out == start + piece + out[|start + piece|..];
  }

  lemma EndReads(cfg: Config, db: int, special: bool)
    ensures CallReads(End, cfg) && AllRead([], cfg)
    ensures CallEvents(End, db, special) == [] && Expected([], db, special) == []
  {
  }

  lemma DecodesIff(o: Outcome, rest: Outcome, events: seq<Event>, kept: bool, later: seq<Event>, ok: bool)
    requires Decodes(o, rest, events, kept)
    ensures o == Outcome(events + later, ok) <==> kept && rest == Outcome(later, ok)
  {
    if o == Outcome(events + later, ok) && kept {
      assert rest.events == (events + rest.events)[|events|..] == (events + later)[|events|..] == later;
    }
  }

  lemma NotEnded(e: Enc, c: Call, cfg: Config, poly: Crc64.Word)
    requires CallWritable(c, cfg) && !c.End? && e.phase != WrittenEnd && Apply(e, c, cfg, poly).ok
    ensures Apply(e, c, cfg, poly).enc.phase != WrittenEnd && Apply(e, c, cfg, poly).enc.phase != AtStart
  {
    hide EncObject, EncTTL, EncAux, EncDBHeader, CallWritable, ApplyTTLs;
  }

  lemma NothingAfterEnd(e: Enc, calls: seq<Call>, cfg: Config, poly: Crc64.Word)
    requires e.phase == WrittenEnd && forall i :: 0 <= i < |calls| ==> CallWritable(calls[i], cfg)
    requires Run(e, calls, cfg, poly).Some?
    ensures calls == [] && Run(e, calls, cfg, poly).value == e
  {
    hide EncObject, EncTTL, EncAux, EncDBHeader, CallWritable, ApplyTTLs;
  }

  lemma EndTurn(s: seq<byte>, ctx: Context, valkey: bool, special: bool)
    requires s != [] && s[0] == OP_EOF
    ensures ParseFrom(s, ctx, valkey, special) == Outcome([], true)
  {
    ParseStep(s, ctx, valkey, special);
    hide ParseFrom;
  }

  lemma ExpectedStep(calls: seq<Call>, db: int, special: bool)
    requires calls != []
    ensures Expected(calls, db, special) ==
            CallEvents(calls[0], db, special) + Expected(calls[1..], DBAfter(calls[0], db), special)
  {
    hide AsRead;
    assert [] + Expected(calls[1..], db, special) == Expected(calls[1..], db, special);
  }

  lemma FileWithTail(calls: seq<Call>, cfg: Config, poly: Crc64.Word, special: bool, tail: seq<byte>)
    requires forall i :: 0 <= i < |calls| ==> CallTyped(calls[i], cfg) && CallWritable(calls[i], cfg)
    requires Run(Initial, calls, cfg, poly).Some? && Exhausts(tail, cfg.valkey, special)
    requires calls == [] ==> tail == []
    ensures var end := Run(Initial, calls, cfg, poly).value;
            (ParseFile(end.out + tail, special) == Outcome(Expected(calls, 0, special), end.phase == WrittenEnd))
            <==> AllRead(calls, cfg)
  {
    hide CallTyped, CallWritable, ParseFrom, PHeader, Expected, AllRead, Exhausts;
    var end := Run(Initial, calls, cfg, poly).value;
    if calls == [] {
      NoFile(cfg, special);
    } else {
      var c := calls[0];
      assert CallTyped(c, cfg);
      OneTTL(Initial, c, cfg, poly);
      ApplyAppends(Initial, c, cfg, poly);
      var e1 := Apply(Initial, c, cfg, poly).enc;
      assert e1.phase == WrittenHeader && e1.out == MagicOf(cfg);
      assert forall i :: 0 <= i < |calls| - 1 ==> calls[1..][i] == calls[i + 1];
      DecodesRun(e1, calls[1..], cfg, poly, Fresh, special, tail);
      Behind([], MagicOf(cfg), end.out, tail);
      assert end.out[0..] == end.out;
      HeaderRead(cfg, end.out[9..] + tail);
      ExpectedStep(calls, 0, special);
      AllReadStep(calls, cfg);
      assert [] + Expected(calls[1..], 0, special) == Expected(calls[1..], 0, special);
    }
  }

  lemma NoFile(cfg: Config, special: bool)
    ensures ParseFile([] + [], special) == Outcome([], false) && Expected([], 0, special) == [] && AllRead([], cfg)
  {
  }

  /** Decode after encode: any accepted run, with compression on or off, for Redis or Valkey, decodes to
      exactly the objects written, in order, under the database opened last, with their keys, and with
      their TTL when it is positive as an int64, if and only if each of the objects comes back by itself;
      intset members come back sorted. With special opcodes requested, the aux fields and database sizes
      come back in place too. The decoder reports no error exactly when the run has ended the file. */
  lemma FileRoundTripIff(calls: seq<Call>, cfg: Config, poly: Crc64.Word, special: bool)
    requires forall i :: 0 <= i < |calls| ==> CallTyped(calls[i], cfg) && CallWritable(calls[i], cfg)
    requires Run(Initial, calls, cfg, poly).Some?
    ensures var end := Run(Initial, calls, cfg, poly).value;
            (ParseFile(end.out, special) == Outcome(Expected(calls, 0, special), end.phase == WrittenEnd))
            <==> AllRead(calls, cfg)
  {
    hide Run, ParseFile, Expected, AllRead, CallTyped, CallWritable;
    NothingLeft(cfg.valkey, special);
    FileWithTail(calls, cfg, poly, special, []);
    assert Run(Initial, calls, cfg, poly).value.out + [] == Run(Initial, calls, cfg, poly).value.out;
  }

  /** In particular when all arguments survive, by conditions that do not depend on the order in which
      maps are ranged over. */
  lemma FileRoundTrip(calls: seq<Call>, cfg: Config, poly: Crc64.Word, special: bool)
    requires forall i :: 0 <= i < |calls| ==> CallSurvives(calls[i], cfg)
    ensures forall i :: 0 <= i < |calls| ==> CallWritable(calls[i], cfg)
    ensures Run(Initial, calls, cfg, poly).Some? ==>
              var end := Run(Initial, calls, cfg, poly).value;
              ParseFile(end.out, special) == Outcome(Expected(calls, 0, special), end.phase == WrittenEnd)
  {
    hide Run, ParseFile, Expected, CallReads, CallTyped;
    forall i | 0 <= i < |calls|
      ensures CallWritable(calls[i], cfg) && CallTyped(calls[i], cfg) && CallReads(calls[i], cfg)
    {
      SurvivorReads(calls[i], cfg);
    }
    hide CallSurvives, CallWritable;
    if Run(Initial, calls, cfg, poly).Some? {
      FileRoundTripIff(calls, cfg, poly, special);
    }
  }
}
