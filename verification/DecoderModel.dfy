/**
 The decoder's main loop as a function: the header check, the opcodes, and the objects delivered to
 the callback. `ParseFile` is what a callback that always asks for more is given, and `Until` what is
 left of that when it asks for no more at some point; together they are the specification of the
 Decoder class.
 */
module DecoderModel {
  import opened Bytes
  import opened Parsing
  import opened RdbString
  import opened Hashes
  import opened Objects
  import opened EncoderModel

  const OP_SLOT_IMPORT := 243
  const OP_SLOT_INFO := 244
  const OP_FUNCTION := 245
  const OP_MODULE_AUX := 247
  const OP_IDLE := 248
  const OP_FREQ := 249
  const OP_EXPIRE_SEC := 253

  const REDIS: seq<byte> := [82, 69, 68, 73, 83]
  const VALKEY: seq<byte> := [86, 65, 76, 75, 69, 89]

  datatype Event =
    | AuxEvent(auxKey: seq<byte>, auxValue: seq<byte>)
    | SizeEvent(sizeDB: int, keyCount: nat, ttlCount: nat)
    | FunctionsEvent(lua: seq<byte>)
    | ObjectEvent(db: int, key: seq<byte>, expireMs: Option<int>, idle: Option<int>, freq: Option<int>, value: Value)

  /** The variables of the parse loop. */
  datatype Context = Context(db: int, expireMs: int, lru: Option<int>, lfu: Option<int>)

  const Fresh := Context(0, 0, None, None)

  /** What one turn of the loop does: go on with the rest, leave the loop without an error, or return an
      error. */
  datatype Turn = Next(rest: seq<byte>, ctx: Context, events: seq<Event>) | Leave | Fail

  datatype Outcome = Outcome(events: seq<Event>, ok: bool)

  // ----- the header

  /** strconv.Atoi on at most four bytes. */
  function Atoi(s: seq<byte>): Option<int>
  {
    if s != [] && (s[0] == 43 || s[0] == 45) && |s| > 1 && AllDigits(s[1..]) then
      Some(if s[0] == 45 then 0 - TextNat(s[1..]) else TextNat(s[1..]))
    else if s != [] && AllDigits(s) then Some(TextNat(s))
    else None
  }

  datatype Kind = Redis(version: int) | Valkey(version: int)

  /** checkHeader: the file's kind and version, and the bytes after the nine of the header. */
  function PHeader(s: seq<byte>): (p: Parsed<Kind>)
    ensures p.Got? ==> |p.rest| <= |s|
  {
    var (h, t) :- PBytes(s, 9);
    if REDIS <= h then
      match Atoi(h[5..])
      case Some(v) => if 1 <= v <= 12 then Got(Redis(v), t) else Bad
      case None => Bad
    else if VALKEY <= h then
      match Atoi(h[6..])
      case Some(v) => if v == 80 then Got(Valkey(v), t) else Bad
      case None => Bad
    else Bad
  }

  // ----- one turn of the loop

  function TurnSelectDB(s: seq<byte>, ctx: Context): Turn
  {
    match PLength(s)
    case Bad => Fail
    case Got(len, t) => Next(t, ctx.(db := ToInt64(len.value)), [])
  }

  function TurnExpireSec(s: seq<byte>, ctx: Context): Turn
  {
    match PBytes(s, 4)
    case Bad => Fail
    case Got(bs, t) => Next(t, ctx.(expireMs := UnLE(bs) * 1000), [])
  }

  function TurnExpireMs(s: seq<byte>, ctx: Context): Turn
  {
    match PInt64(s)
    case Bad => Fail
    case Got(v, t) => Next(t, ctx.(expireMs := v), [])
  }

  /** A failed second length leaves the loop silently: the error is overwritten by the break. */
  function TurnResizeDB(s: seq<byte>, ctx: Context, special: bool): Turn
  {
    match PLength(s)
    case Bad => Fail
    case Got(k, t) =>
      match PLength(t)
      case Bad => Leave
      case Got(n, u) => Next(u, ctx, if special then [SizeEvent(ctx.db, k.value, n.value)] else [])
  }

  /** A failed value leaves the loop silently, as above. */
  function TurnAux(s: seq<byte>, ctx: Context, special: bool): Turn
  {
    match PString(s)
    case Bad => Fail
    case Got(k, t) =>
      match PString(t)
      case Bad => Leave
      case Got(v, u) => Next(u, ctx, if special then [AuxEvent(k, v)] else [])
  }

  function TurnFreq(s: seq<byte>, ctx: Context): Turn
  {
    match PByte(s)
    case Bad => Fail
    case Got(b, t) => Next(t, ctx.(lfu := Some(b)), [])
  }

  function TurnIdle(s: seq<byte>, ctx: Context): Turn
  {
    match PLength(s)
    case Bad => Fail
    case Got(len, t) => Next(t, ctx.(lru := Some(ToInt64(len.value))), [])
  }

  function TurnFunction(s: seq<byte>, ctx: Context, special: bool): Turn
  {
    match PString(s)
    case Bad => Fail
    case Got(lua, t) => Next(t, ctx, if special then [FunctionsEvent(lua)] else [])
  }

  /** Skips n lengths. */
  function PSkipLengths(s: seq<byte>, n: nat): (p: Parsed<()>)
    ensures p.Got? ==> |p.rest| <= |s|
    decreases n
  {
    if n == 0 then Got((), s)
    else
      var (_, t) :- PLength(s);
      PSkipLengths(t, n - 1)
  }

  function TurnSlotInfo(s: seq<byte>, ctx: Context, valkey: bool): Turn
  {
    if !valkey then Fail
    else
      match PSkipLengths(s, 3)
      case Bad => Fail
      case Got(_, t) => Next(t, ctx, [])
  }

  /** Slot ranges are pairs of lengths; their number is a slice size, which panics when negative. */
  function TurnSlotImport(s: seq<byte>, ctx: Context, valkey: bool): Turn
  {
    if !valkey then Fail
    else
      match PString(s)
      case Bad => Fail
      case Got(_, t) =>
        match PLength(t)
        case Bad => Fail
        case Got(n, u) =>
          if n.value >= TWO_63 then Fail
          else
            match PSkipLengths(u, 2 * n.value)
            case Bad => Fail
            case Got(_, w) => Next(w, ctx, [])
  }

  /** A key and its object; a positive expiration is used up by it, and so are idle time and frequency. */
  function TurnObject(flag: byte, s: seq<byte>, ctx: Context, valkey: bool): Turn
  {
    match PString(s)
    case Bad => Fail
    case Got(key, t) =>
      match PObject(flag, t, valkey)
      case Bad => Fail
      case Got(value, u) =>
        var expire := if ctx.expireMs > 0 then Some(ctx.expireMs) else None;
        Next(u, Context(ctx.db, if ctx.expireMs > 0 then 0 else ctx.expireMs, None, None),
             [ObjectEvent(ctx.db, key, expire, ctx.lru, ctx.lfu, value)])
  }

  function TakeTurn(s: seq<byte>, ctx: Context, valkey: bool, special: bool): (r: Turn)
    ensures r.Next? ==> |r.rest| < |s|
  {
    if s == [] then Fail
    else
      var b, t := s[0], s[1..];
      if b == OP_EOF then Leave
      else if b == OP_SELECT_DB then TurnSelectDB(t, ctx)
      else if b == OP_EXPIRE_SEC then TurnExpireSec(t, ctx)
      else if b == OP_EXPIRE_MS then TurnExpireMs(t, ctx)
      else if b == OP_RESIZE_DB then TurnResizeDB(t, ctx, special)
      else if b == OP_AUX then TurnAux(t, ctx, special)
      else if b == OP_FREQ then TurnFreq(t, ctx)
      else if b == OP_IDLE then TurnIdle(t, ctx)
      else if b == OP_MODULE_AUX then Fail  // modules are not modelled
      else if b == OP_FUNCTION then TurnFunction(t, ctx, special)
      else if b == OP_SLOT_INFO then TurnSlotInfo(t, ctx, valkey)
      else if b == OP_SLOT_IMPORT then TurnSlotImport(t, ctx, valkey)
      else TurnObject(b, t, ctx, valkey)
  }

  /** The parse loop. */
  function ParseFrom(s: seq<byte>, ctx: Context, valkey: bool, special: bool): Outcome
    decreases |s|
  {
    match TakeTurn(s, ctx, valkey, special)
    case Fail => Outcome([], false)
    case Leave => Outcome([], true)
    case Next(rest, ctx', events) =>
      var o := ParseFrom(rest, ctx', valkey, special);
      Outcome(events + o.events, o.ok)
  }

  function ParseFile(s: seq<byte>, special: bool): Outcome
  {
    match PHeader(s)
    case Bad => Outcome([], false)
    case Got(kind, t) => ParseFrom(t, Fresh, kind.Valkey?, special)
  }

  /** The callback is asked about all it has been given so far, so that its answer may depend on anything it
      remembers; n events have been answered yes. The loop is left without an error when it says no. */
  function Until(o: Outcome, cb: seq<Event> -> bool, n: nat): Outcome
    decreases |o.events| - n
  {
    if n >= |o.events| then o
    else if !cb(o.events[..n + 1]) then Outcome(o.events[..n + 1], true)
    else Until(o, cb, n + 1)
  }

  /** Nothing is delivered after the first no, and nothing is left out before it. */
  lemma {:induction false} UntilStops(o: Outcome, cb: seq<Event> -> bool, n: nat)
    requires n <= |o.events| && forall k :: 0 < k <= n ==> cb(o.events[..k])
    ensures var r := Until(o, cb, n);
            && r.events <= o.events && (forall k :: 0 < k < |r.events| ==> cb(r.events[..k]))
            && (r == o || (r.ok && r.events != [] && !cb(r.events)))
            && ((forall k :: 0 < k <= |o.events| ==> cb(o.events[..k])) ==> r == o)
    decreases |o.events| - n
  {
    if n < |o.events| {
      if cb(o.events[..n + 1]) {
        UntilStops(o, cb, n + 1);
      } else {
        var r := Outcome(o.events[..n + 1], true);
        assert forall k :: 0 < k < n + 1 ==> r.events[..k] == o.events[..k];
      }
    }
  }

  /** A turn delivers one event at most. */
  lemma OneEvent(s: seq<byte>, ctx: Context, valkey: bool, special: bool)
    ensures TakeTurn(s, ctx, valkey, special).Next? ==> |TakeTurn(s, ctx, valkey, special).events| <= 1
  {
    hide PLength, PString, PBytes, PInt64, PObject, PSkipLengths, ToInt64;
  }

  /** Every byte that is no opcode is an object type. */
  lemma ObjectFlag(flag: byte, s: seq<byte>, ctx: Context, valkey: bool, special: bool)
    requires flag < OP_SLOT_IMPORT
    ensures TakeTurn([flag] + s, ctx, valkey, special) == TurnObject(flag, s, ctx, valkey)
  {
    hide TurnObject;
    assert ([flag] + s)[1..] == s;
  }

  lemma ParseStep(s: seq<byte>, ctx: Context, valkey: bool, special: bool)
    ensures var turn := TakeTurn(s, ctx, valkey, special);
            turn.Next? ==> ParseFrom(s, ctx, valkey, special) ==
                           Outcome(turn.events + ParseFrom(turn.rest, turn.ctx, valkey, special).events,
                                   ParseFrom(turn.rest, turn.ctx, valkey, special).ok)
    ensures TakeTurn(s, ctx, valkey, special).Leave? ==> ParseFrom(s, ctx, valkey, special) == Outcome([], true)
    ensures TakeTurn(s, ctx, valkey, special).Fail? ==> ParseFrom(s, ctx, valkey, special) == Outcome([], false)
  {
    hide TakeTurn;
  }
}
