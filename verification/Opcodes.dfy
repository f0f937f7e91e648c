/**
 Opcodes by their bytes. The encoder writes few of the decoder's opcodes; what the others do to the events that
 follow is said here in bytes and numbers, and so is which inputs end the loop, with an error or without.
 */
module Opcodes {
  import opened Bytes
  import opened Parsing
  import opened RdbString
  import opened Hashes
  import opened Objects
  import opened EncoderModel
  import opened DecoderModel
  import opened RdbFile

  // ----- opcodes that change what is delivered with the next object

  lemma SkipsTo(s: seq<byte>, ctx: Context, valkey: bool, special: bool, rest: seq<byte>, next: Context)
    requires TakeTurn(s, ctx, valkey, special) == Next(rest, next, [])
    ensures ParseFrom(s, ctx, valkey, special) == ParseFrom(rest, next, valkey, special)
  {
    hide ParseFrom, TakeTurn;
    ParseStep(s, ctx, valkey, special);
    assert [] + ParseFrom(rest, next, valkey, special).events == ParseFrom(rest, next, valkey, special).events;
  }

  /** 253 and four bytes, low byte first: an expiration in seconds. */
  lemma Seconds(sec: nat, t: seq<byte>, ctx: Context, valkey: bool, special: bool)
    requires sec < 0x1_0000_0000
    ensures ParseFrom([253] + (LE(sec, 4) + t), ctx, valkey, special) ==
            ParseFrom(t, ctx.(expireMs := 1000 * sec), valkey, special)
  {
    hide LE, UnLE, ParseFrom, Pow256;
    var s: seq<byte> := [253] + (LE(sec, 4) + t);
    assert s[1..] == LE(sec, 4) + t;
    Pow256Values();
    PBytesOf(LE(sec, 4), t);
    UnsignedRoundTrip(sec, 4);
    SkipsTo(s, ctx, valkey, special, t, ctx.(expireMs := 1000 * sec));
  }

  /** 252 and eight bytes, low byte first: one in milliseconds. */
  lemma Milliseconds(ms: int, t: seq<byte>, ctx: Context, valkey: bool, special: bool)
    requires -0x8000_0000_0000_0000 <= ms < 0x8000_0000_0000_0000
    ensures ParseFrom([252] + (LE(ms, 8) + t), ctx, valkey, special) ==
            ParseFrom(t, ctx.(expireMs := ms), valkey, special)
  {
    hide LE, PInt64, ParseFrom;
    var s: seq<byte> := [252] + (LE(ms, 8) + t);
    assert s[1..] == LE(ms, 8) + t;
    Int64RoundTrip(ms, t);
    SkipsTo(s, ctx, valkey, special, t, ctx.(expireMs := ms));
  }

  /** 249 and a byte: the access frequency. */
  lemma Frequency(freq: byte, t: seq<byte>, ctx: Context, valkey: bool, special: bool)
    ensures ParseFrom([249] + ([freq] + t), ctx, valkey, special) ==
            ParseFrom(t, ctx.(lfu := Some(freq)), valkey, special)
  {
    hide ParseFrom;
    var s: seq<byte> := [249] + ([freq] + t);
    assert s[1..] == [freq] + t;
    PByteOf(freq, t);
    SkipsTo(s, ctx, valkey, special, t, ctx.(lfu := Some(freq)));
  }

  /** 248 and a length: the idle time. */
  lemma IdleTime(idle: nat, t: seq<byte>, ctx: Context, valkey: bool, special: bool)
    requires idle < 0x8000_0000_0000_0000
    ensures ParseFrom([248] + (EncLength(idle) + t), ctx, valkey, special) ==
            ParseFrom(t, ctx.(lru := Some(idle)), valkey, special)
  {
    hide ParseFrom, EncLength, PLength;
    var s: seq<byte> := [248] + (EncLength(idle) + t);
    assert s[1..] == EncLength(idle) + t;
    LengthRoundTrip(idle, t);
    SkipsTo(s, ctx, valkey, special, t, ctx.(lru := Some(idle)));
  }

  /** An object that comes back is delivered with what was said before it, and uses that up; a database stays
      selected, and an expiration that is not positive is none. */
  lemma ObjectNext(key: seq<byte>, obj: Object, cfg: Config, t: seq<byte>, ctx: Context, special: bool)
    requires Writable(key, cfg.compress) && ObjWritable(obj, cfg) && ObjTyped(obj) && ReadsBack(obj, cfg)
    ensures var rest := ParseFrom(t, Context(ctx.db, if ctx.expireMs > 0 then 0 else ctx.expireMs, None, None),
                                  cfg.valkey, special);
            ParseFrom(EncObject(key, obj, cfg) + t, ctx, cfg.valkey, special) ==
            Outcome([ObjectEvent(ctx.db, key, if ctx.expireMs > 0 then Some(ctx.expireMs) else None, ctx.lru, ctx.lfu,
                                 AsRead(obj))] + rest.events, rest.ok)
  {
    hide ParseFrom, TakeTurn, EncObject, ObjWritable, ReadsBack, ObjTyped, AsRead, Writable;
    var read := ObjectTurn(key, obj, cfg, t, ctx, special);
    ParseStep(EncObject(key, obj, cfg) + t, ctx, cfg.valkey, special);
  }

  /** Seconds, frequency and idle time in front of an object: delivered with it, in milliseconds the first, and gone
      behind it. */
  lemma ObjectWithAll(sec: nat, freq: byte, idle: nat, key: seq<byte>, obj: Object, cfg: Config, t: seq<byte>,
                      ctx: Context, special: bool)
    requires 0 < sec < 0x1_0000_0000 && idle < 0x8000_0000_0000_0000
    requires Writable(key, cfg.compress) && ObjWritable(obj, cfg) && ObjTyped(obj) && ReadsBack(obj, cfg)
    ensures var s := [253] + (LE(sec, 4) + ([249] + ([freq] + ([248] + (EncLength(idle) +
                                                                        (EncObject(key, obj, cfg) + t))))));
            var rest := ParseFrom(t, Context(ctx.db, 0, None, None), cfg.valkey, special);
            ParseFrom(s, ctx, cfg.valkey, special) ==
            Outcome([ObjectEvent(ctx.db, key, Some(1000 * sec), Some(idle), Some(freq), AsRead(obj))] + rest.events,
                    rest.ok)
  {
    hide ParseFrom, EncObject, EncLength, LE, ObjWritable, ReadsBack, ObjTyped, AsRead, Writable;
    var s3 := EncObject(key, obj, cfg) + t;
    var s2 := [248] + (EncLength(idle) + s3);
    var s1 := [249] + ([freq] + s2);
    var c1 := ctx.(expireMs := 1000 * sec);
    var c2 := c1.(lfu := Some(freq));
    Seconds(sec, s1, ctx, cfg.valkey, special);
    Frequency(freq, s2, c1, cfg.valkey, special);
    IdleTime(idle, s3, c2, cfg.valkey, special);
    ObjectNext(key, obj, cfg, t, c2.(lru := Some(idle)), special);
  }

  /** Each of them alone. */
  lemma ObjectWithSeconds(sec: nat, key: seq<byte>, obj: Object, cfg: Config, t: seq<byte>, ctx: Context,
                          special: bool)
    requires 0 < sec < 0x1_0000_0000
    requires Writable(key, cfg.compress) && ObjWritable(obj, cfg) && ObjTyped(obj) && ReadsBack(obj, cfg)
    ensures var rest := ParseFrom(t, Context(ctx.db, 0, None, None), cfg.valkey, special);
            ParseFrom([253] + (LE(sec, 4) + (EncObject(key, obj, cfg) + t)), ctx, cfg.valkey, special) ==
            Outcome([ObjectEvent(ctx.db, key, Some(1000 * sec), ctx.lru, ctx.lfu, AsRead(obj))] + rest.events, rest.ok)
  {
    hide ParseFrom, EncObject, LE, ObjWritable, ReadsBack, ObjTyped, AsRead, Writable;
    Seconds(sec, EncObject(key, obj, cfg) + t, ctx, cfg.valkey, special);
    ObjectNext(key, obj, cfg, t, ctx.(expireMs := 1000 * sec), special);
  }

  // ----- opcodes that are passed over

  function Lengths(values: seq<nat>): seq<byte>
    requires forall i :: 0 <= i < |values| ==> values[i] < TWO_64
  {
    if values == [] then [] else EncLength(values[0]) + Lengths(values[1..])
  }

  lemma {:induction false} LengthsSkipped(values: seq<nat>, t: seq<byte>)
    requires forall i :: 0 <= i < |values| ==> values[i] < TWO_64
    ensures PSkipLengths(Lengths(values) + t, |values|) == Got((), t)
  {
    hide EncLength, PLength;
    if values == [] {
      assert Lengths(values) + t == t;
    } else {
      Assoc(EncLength(values[0]), Lengths(values[1..]), t);
      LengthRoundTrip(values[0], Lengths(values[1..]) + t);
      LengthsSkipped(values[1..], t);
    }
  }

  /** 244 and three lengths: nothing to a Valkey file, an error in a Redis one. */
  lemma SlotInfo(values: seq<nat>, t: seq<byte>, ctx: Context, special: bool)
    requires |values| == 3 && forall i :: 0 <= i < |values| ==> values[i] < TWO_64
    ensures ParseFrom([244] + (Lengths(values) + t), ctx, true, special) == ParseFrom(t, ctx, true, special)
    ensures ParseFrom([244] + t, ctx, false, special) == Outcome([], false)
  {
    hide ParseFrom, Lengths, PSkipLengths;
    var s: seq<byte> := [244] + (Lengths(values) + t);
    assert s[1..] == Lengths(values) + t;
    LengthsSkipped(values, t);
    SkipsTo(s, ctx, true, special, t, ctx);
    ParseStep([244] + t, ctx, false, special);
  }

  /** 243, a string, a number and twice as many lengths: the same. */
  lemma SlotImport(job: seq<byte>, values: seq<nat>, compress: bool, t: seq<byte>, ctx: Context, special: bool)
    requires Writable(job, compress) && |values| % 2 == 0 && |values| / 2 < TWO_63
    requires forall i :: 0 <= i < |values| ==> values[i] < TWO_64
    ensures ParseFrom([243] + (EncString(job, compress) + (EncLength(|values| / 2) + (Lengths(values) + t))), ctx, true,
                      special) == ParseFrom(t, ctx, true, special)
    ensures ParseFrom([243] + t, ctx, false, special) == Outcome([], false)
  {
    hide ParseFrom, Lengths, PSkipLengths, EncLength, PLength, EncString, PString, Writable;
    var s2 := Lengths(values) + t;
    var s1 := EncLength(|values| / 2) + s2;
    var s: seq<byte> := [243] + (EncString(job, compress) + s1);
    assert s[1..] == EncString(job, compress) + s1;
    StringRoundTrip(job, compress, s1);
    LengthRoundTrip(|values| / 2, s2);
    LengthsSkipped(values, t);
    assert 2 * (|values| / 2) == |values|;
    SkipsTo(s, ctx, true, special, t, ctx);
    ParseStep([243] + t, ctx, false, special);
  }

  /** 245 and a string: a function library, delivered if special opcodes are asked for. */
  lemma Functions(lua: seq<byte>, compress: bool, t: seq<byte>, ctx: Context, valkey: bool, special: bool)
    requires Writable(lua, compress)
    ensures var rest := ParseFrom(t, ctx, valkey, special);
            ParseFrom([245] + (EncString(lua, compress) + t), ctx, valkey, special) ==
            Outcome((if special then [FunctionsEvent(lua)] else []) + rest.events, rest.ok)
  {
    hide ParseFrom, EncString, PString, Writable;
    var s: seq<byte> := [245] + (EncString(lua, compress) + t);
    assert s[1..] == EncString(lua, compress) + t;
    StringRoundTrip(lua, compress, t);
    ParseStep(s, ctx, valkey, special);
  }

  // ----- where the loop ends

  /** 255 ends it without an error, whatever follows, and the end of the input with one. */
  lemma Ends(t: seq<byte>, ctx: Context, valkey: bool, special: bool)
    ensures ParseFrom([255] + t, ctx, valkey, special) == Outcome([], true)
    ensures ParseFrom([], ctx, valkey, special) == Outcome([], false)
  {
    hide ParseFrom;
    ParseStep([255] + t, ctx, valkey, special);
    ParseStep([], ctx, valkey, special);
  }

  /** What cannot be read is an error, but for two that are swallowed: the value of an auxiliary field, 250, and
      the second size of 251. */
  lemma Unreadable(key: seq<byte>, size: nat, compress: bool, t: seq<byte>, ctx: Context, valkey: bool, special: bool)
    requires Writable(key, compress) && size < TWO_64
    ensures PString(t).Bad? ==>
              && ParseFrom([250] + t, ctx, valkey, special) == Outcome([], false)
              && ParseFrom([245] + t, ctx, valkey, special) == Outcome([], false)
              && ParseFrom([250] + (EncString(key, compress) + t), ctx, valkey, special) == Outcome([], true)
    ensures PLength(t).Bad? ==>
              && ParseFrom([254] + t, ctx, valkey, special) == Outcome([], false)
              && ParseFrom([251] + t, ctx, valkey, special) == Outcome([], false)
              && ParseFrom([248] + t, ctx, valkey, special) == Outcome([], false)
              && ParseFrom([251] + (EncLength(size) + t), ctx, valkey, special) == Outcome([], true)
    ensures |t| < 8 ==> ParseFrom([252] + t, ctx, valkey, special) == Outcome([], false)
    ensures |t| < 4 ==> ParseFrom([253] + t, ctx, valkey, special) == Outcome([], false)
    ensures t == [] ==> ParseFrom([249] + t, ctx, valkey, special) == Outcome([], false)
  {
    hide ParseFrom, EncString, PString, EncLength, PLength, Writable, UnLE;
    UnreadableString(key, compress, t, ctx, valkey, special);
    UnreadableLength(size, t, ctx, valkey, special);
    assert ([252] + t)[1..] == t && ([253] + t)[1..] == t && ([249] + t)[1..] == t;
    ParseStep([252] + t, ctx, valkey, special);
    ParseStep([253] + t, ctx, valkey, special);
    ParseStep([249] + t, ctx, valkey, special);
  }

  lemma UnreadableString(key: seq<byte>, compress: bool, t: seq<byte>, ctx: Context, valkey: bool, special: bool)
    requires Writable(key, compress)
    ensures PString(t).Bad? ==>
              && ParseFrom([250] + t, ctx, valkey, special) == Outcome([], false)
              && ParseFrom([245] + t, ctx, valkey, special) == Outcome([], false)
              && ParseFrom([250] + (EncString(key, compress) + t), ctx, valkey, special) == Outcome([], true)
  {
    hide ParseFrom, EncString, PString, Writable;
    assert ([250] + t)[1..] == t && ([245] + t)[1..] == t;
    assert ([250] + (EncString(key, compress) + t))[1..] == EncString(key, compress) + t;
    StringRoundTrip(key, compress, t);
    ParseStep([250] + t, ctx, valkey, special);
    ParseStep([245] + t, ctx, valkey, special);
    ParseStep([250] + (EncString(key, compress) + t), ctx, valkey, special);
  }

  lemma UnreadableLength(size: nat, t: seq<byte>, ctx: Context, valkey: bool, special: bool)
    requires size < TWO_64
    ensures PLength(t).Bad? ==>
              && ParseFrom([254] + t, ctx, valkey, special) == Outcome([], false)
              && ParseFrom([251] + t, ctx, valkey, special) == Outcome([], false)
              && ParseFrom([248] + t, ctx, valkey, special) == Outcome([], false)
              && ParseFrom([251] + (EncLength(size) + t), ctx, valkey, special) == Outcome([], true)
  {
    hide ParseFrom, EncLength, PLength;
    assert ([254] + t)[1..] == t && ([251] + t)[1..] == t && ([248] + t)[1..] == t;
    assert ([251] + (EncLength(size) + t))[1..] == EncLength(size) + t;
    LengthRoundTrip(size, t);
    ParseStep([254] + t, ctx, valkey, special);
    ParseStep([251] + t, ctx, valkey, special);
    ParseStep([248] + t, ctx, valkey, special);
    ParseStep([251] + (EncLength(size) + t), ctx, valkey, special);
  }

  /** A type byte that the format does not have is an error, and so is an object that cannot be read. */
  lemma UnreadableObject(flag: byte, key: seq<byte>, compress: bool, t: seq<byte>, ctx: Context, valkey: bool,
                         special: bool)
    requires flag < 243 && Writable(key, compress)
    ensures flag > 25 || PObject(flag, t, valkey).Bad? ==>
              ParseFrom([flag] + (EncString(key, compress) + t), ctx, valkey, special) == Outcome([], false)
  {
    hide ParseFrom, EncString, PString, Writable, TakeTurn;
    var s := EncString(key, compress) + t;
    StringRoundTrip(key, compress, t);
    ObjectFlag(flag, s, ctx, valkey, special);
    ParseStep([flag] + s, ctx, valkey, special);
  }
}
