/**
 Sessions: encoder calls made one after the other, some of them refused. The only refused call that leaves
 something behind is an object with two TTLs or more, and what it leaves is the TTL of the next object.
 So every session writes what some run of accepted calls does, up to a TTL at the very end.
 */
module Sessions {
  import opened Bytes
  import opened Parsing
  import opened Objects
  import opened EncoderModel
  import opened DecoderModel
  import opened RdbFile
  import Crc64

  /** The state after all the calls, whether they were accepted or not. */
  ghost function Session(e: Enc, calls: seq<Call>, cfg: Config, poly: Crc64.Word): Enc
    requires forall i :: 0 <= i < |calls| ==> CallWritable(calls[i], cfg)
    decreases |calls|
  {
    if calls == [] then e else Session(Apply(e, calls[0], cfg, poly).enc, calls[1..], cfg, poly)
  }

  /** A refused call whose first TTL is written nevertheless. */
  predicate LeavesTTL(e: Enc, c: Call)
  {
    c.Write? && |c.ttls| >= 2 && Allowed(e.phase, WrittenObject) && Allowed(e.phase, WrittenTTL)
  }

  /** The calls that take effect, and the TTL, if any, that waits for an object in the end. */
  datatype Effect = Effect(calls: seq<Call>, waiting: seq<nat>)

  /** An accepted call as it takes effect: an object gets the TTL that was waiting. */
  function Completed(c: Call, waiting: seq<nat>): Call
  {
    if c.Write? then c.(ttls := waiting + c.ttls) else c
  }

  ghost function Effects(e: Enc, waiting: seq<nat>, calls: seq<Call>, cfg: Config, poly: Crc64.Word): Effect
    requires forall i :: 0 <= i < |calls| ==> CallWritable(calls[i], cfg)
    decreases |calls|
  {
    if calls == [] then Effect([], waiting)
    else
      var c := calls[0];
      var r := Apply(e, c, cfg, poly);
      if r.ok then
        var rest := Effects(r.enc, [], calls[1..], cfg, poly);
        Effect([Completed(c, waiting)] + rest.calls, rest.waiting)
      else Effects(r.enc, if LeavesTTL(e, c) then [c.ttls[0]] else waiting, calls[1..], cfg, poly)
  }

  /** A state between calls of a run, with a TTL waiting behind it. */
  function Held(e: Enc, waiting: seq<nat>): Enc
  {
    if waiting == [] then e else e.(phase := WrittenTTL, out := e.out + EncTTL(waiting[0]))
  }

  predicate CanHold(e: Enc, waiting: seq<nat>)
  {
    Reachable(e) && |waiting| <= 1 && (forall i :: 0 <= i < |waiting| ==> waiting[i] < TWO_64) &&
    (waiting != [] ==> e.phase.WrittenDBHeader? || e.phase.WrittenObject?)
  }

  // ----- one call

  /** Accepted with a TTL waiting, a call does what the completed call would have done without. */
  lemma AcceptedHeld(e: Enc, waiting: seq<nat>, c: Call, cfg: Config, poly: Crc64.Word)
    requires CanHold(e, waiting) && CallWritable(c, cfg) && Apply(Held(e, waiting), c, cfg, poly).ok
    ensures CallWritable(Completed(c, waiting), cfg)
    ensures Apply(e, Completed(c, waiting), cfg, poly) == Reply(Apply(Held(e, waiting), c, cfg, poly).enc, true)
    ensures Reachable(Apply(Held(e, waiting), c, cfg, poly).enc)
  {
    hide EncObject, EncTTL, EncAux, EncDBHeader, Crc64.Fold, Crc64.WordBytes, ObjWritable;
    OneTTL(Held(e, waiting), c, cfg, poly);
    if waiting == [] {
      assert c.Write? ==> [] + c.ttls == c.ttls;
      ApplyAppends(e, c, cfg, poly);
    } else {
      HeldTakesObject(e, waiting, c, cfg, poly);
    }
  }

  lemma HeldTakesObject(e: Enc, waiting: seq<nat>, c: Call, cfg: Config, poly: Crc64.Word)
    requires CanHold(e, waiting) && waiting != [] && CallWritable(c, cfg) && Apply(Held(e, waiting), c, cfg, poly).ok
    ensures c.Write? && c.ttls == [] && CallWritable(Completed(c, waiting), cfg)
    ensures Apply(e, Completed(c, waiting), cfg, poly) == Reply(Apply(Held(e, waiting), c, cfg, poly).enc, true)
    ensures Reachable(Apply(Held(e, waiting), c, cfg, poly).enc)
  {
    hide EncObject, EncTTL, EncAux, EncDBHeader, Crc64.Fold, Crc64.WordBytes, ObjWritable;
    assert c.Write? && c.ttls == [];
    var d := Completed(c, waiting);
    assert d.ttls == waiting == [waiting[0]];
    WriteApplies(e, d, cfg, poly);
    Assoc(e.out, EncTTL(waiting[0]), EncObject(c.key, c.obj, cfg));
  }

  /** Refused, it changes nothing but for the TTL it may leave. */
  lemma RefusedHeld(e: Enc, waiting: seq<nat>, c: Call, cfg: Config, poly: Crc64.Word)
    requires CanHold(e, waiting) && CallWritable(c, cfg) && !Apply(Held(e, waiting), c, cfg, poly).ok
    ensures var waiting' := if LeavesTTL(Held(e, waiting), c) then [c.ttls[0]] else waiting;
            CanHold(e, waiting') && Apply(Held(e, waiting), c, cfg, poly).enc == Held(e, waiting')
  {
    hide EncObject, EncTTL, EncAux, EncDBHeader, Crc64.Fold, Crc64.WordBytes, ObjWritable;
    RefusedUnchangedIff(Held(e, waiting), c, cfg, poly);
    if LeavesTTL(Held(e, waiting), c) {
      assert waiting == [];
      FirstTTLStays(e, c.ttls);
    }
  }

  lemma FirstTTLStays(e: Enc, ttls: seq<nat>)
    requires |ttls| >= 2 && Allowed(e.phase, WrittenTTL)
    ensures ApplyTTLs(e, ttls) == Reply(Held(e, [ttls[0]]), false)
  {
    hide EncTTL;
    var e1 := Held(e, [ttls[0]]);
    assert ApplyTTLs(e1, ttls[1..]) == Reply(e1, false);
  }

  // ----- sessions

  /** Any session writes what the run of the calls that take effect writes, and the waiting TTL behind it. */
  lemma {:induction false} SessionIsRun(e: Enc, waiting: seq<nat>, calls: seq<Call>, cfg: Config, poly: Crc64.Word)
    requires forall i :: 0 <= i < |calls| ==> CallWritable(calls[i], cfg)
    requires CanHold(e, waiting)
    ensures var f := Effects(Held(e, waiting), waiting, calls, cfg, poly);
            && (forall i :: 0 <= i < |f.calls| ==> CallWritable(f.calls[i], cfg))
            && Run(e, f.calls, cfg, poly).Some? && CanHold(Run(e, f.calls, cfg, poly).value, f.waiting)
            && Session(Held(e, waiting), calls, cfg, poly) == Held(Run(e, f.calls, cfg, poly).value, f.waiting)
    decreases |calls|
  {
    hide Apply, CallWritable, CanHold, Held, Completed;
    if calls != [] {
      var c := calls[0];
      if Apply(Held(e, waiting), c, cfg, poly).ok {
        AcceptedHeld(e, waiting, c, cfg, poly);
        var e1 := Apply(Held(e, waiting), c, cfg, poly).enc;
        NothingHeld(e1);
        SessionIsRun(e1, [], calls[1..], cfg, poly);
        var d, rest := Completed(c, waiting), Effects(e1, [], calls[1..], cfg, poly).calls;
        assert ([d] + rest)[0] == d && ([d] + rest)[1..] == rest;
      } else {
        RefusedHeld(e, waiting, c, cfg, poly);
        SessionIsRun(e, if LeavesTTL(Held(e, waiting), c) then [c.ttls[0]] else waiting, calls[1..], cfg, poly);
      }
    }
  }

  lemma NothingHeld(e: Enc)
    requires Reachable(e)
    ensures Held(e, []) == e && CanHold(e, [])
  {
  }

  /** The calls that are accepted, as they come. */
  ghost function AcceptedCalls(e: Enc, calls: seq<Call>, cfg: Config, poly: Crc64.Word): seq<Call>
    requires forall i :: 0 <= i < |calls| ==> CallWritable(calls[i], cfg)
    decreases |calls|
  {
    if calls == [] then []
    else
      var r := Apply(e, calls[0], cfg, poly);
      (if r.ok then [calls[0]] else []) + AcceptedCalls(r.enc, calls[1..], cfg, poly)
  }

  lemma {:induction false} AcceptedTakeEffect(e: Enc, calls: seq<Call>, cfg: Config, poly: Crc64.Word)
    requires forall i :: 0 <= i < |calls| ==> CallWritable(calls[i], cfg)
    requires AtMostOneTTL(calls)
    ensures Effects(e, [], calls, cfg, poly) == Effect(AcceptedCalls(e, calls, cfg, poly), [])
    decreases |calls|
  {
    hide Apply, CallWritable;
    if calls != [] {
      AcceptedTakeEffect(Apply(e, calls[0], cfg, poly).enc, calls[1..], cfg, poly);
      assert Completed(calls[0], []) == calls[0] by {
        assert calls[0].Write? ==> [] + calls[0].ttls == calls[0].ttls;
      }
    }
  }

  /** With at most one TTL per object refused calls leave no trace: bytes and state are those of the accepted
      calls alone. */
  lemma RefusedLeaveNothing(e: Enc, calls: seq<Call>, cfg: Config, poly: Crc64.Word)
    requires forall i :: 0 <= i < |calls| ==> CallWritable(calls[i], cfg)
    requires AtMostOneTTL(calls) && Reachable(e)
    ensures var accepted := AcceptedCalls(e, calls, cfg, poly);
            && (forall i :: 0 <= i < |accepted| ==> CallWritable(accepted[i], cfg))
            && Run(e, accepted, cfg, poly) == Some(Session(e, calls, cfg, poly))
  {
    hide Apply, CallWritable, Session, Run, Effects, AcceptedCalls;
    NothingHeld(e);
    AcceptedTakeEffect(e, calls, cfg, poly);
    SessionIsRun(e, [], calls, cfg, poly);
    NothingHeld(Run(e, AcceptedCalls(e, calls, cfg, poly), cfg, poly).value);
  }

  /** The TTL left by a refused object goes to the next object that has none of its own; one that has is
      refused until then. */
  lemma LeftTTL(e: Enc, refused: Call, own: Call, next: Call, cfg: Config, poly: Crc64.Word)
    requires e.phase.WrittenDBHeader? || e.phase.WrittenObject?
    requires CallWritable(refused, cfg) && CallWritable(own, cfg) && CallWritable(next, cfg)
    requires refused.Write? && |refused.ttls| >= 2 && own.Write? && own.ttls != [] && next.Write? && next.ttls == []
    ensures Effects(e, [], [refused, own, next], cfg, poly) == Effect([next.(ttls := [refused.ttls[0]])], [])
  {
    hide EncObject, EncTTL, ObjWritable, CallWritable, Effects;
    var waiting := [refused.ttls[0]];
    var e1 := Held(e, waiting);
    FirstTTLStays(e, refused.ttls);
    EffectsStep(e, [], [refused, own, next], cfg, poly);
    assert [refused, own, next][1..] == [own, next] && [own, next][1..] == [next] && [next][1..] == [];
    assert Apply(e, refused, cfg, poly) == Reply(e1, false);
    EffectsStep(e1, waiting, [own, next], cfg, poly);
    assert Apply(e1, own, cfg, poly) == Reply(e1, false);
    EffectsStep(e1, waiting, [next], cfg, poly);
    assert Apply(e1, next, cfg, poly).ok;
    EffectsStep(Apply(e1, next, cfg, poly).enc, [], [], cfg, poly);
    assert waiting + [] == waiting;
  }

  lemma EffectsStep(e: Enc, waiting: seq<nat>, calls: seq<Call>, cfg: Config, poly: Crc64.Word)
    requires forall i :: 0 <= i < |calls| ==> CallWritable(calls[i], cfg)
    ensures calls == [] ==> Effects(e, waiting, calls, cfg, poly) == Effect([], waiting)
    ensures calls != [] ==>
              var c, r := calls[0], Apply(e, calls[0], cfg, poly);
              Effects(e, waiting, calls, cfg, poly) ==
              if r.ok then
                var rest := Effects(r.enc, [], calls[1..], cfg, poly);
                Effect([Completed(c, waiting)] + rest.calls, rest.waiting)
              else Effects(r.enc, if LeavesTTL(e, c) then [c.ttls[0]] else waiting, calls[1..], cfg, poly)
  {
  }

  // ----- decoding a session

  lemma WaitingExhausts(waiting: seq<nat>, valkey: bool, special: bool)
    requires |waiting| <= 1 && forall i :: 0 <= i < |waiting| ==> waiting[i] < TWO_64
    ensures Exhausts(if waiting == [] then [] else EncTTL(waiting[0]), valkey, special)
  {
    hide ParseFrom, TakeTurn, EncTTL;
    NothingLeft(valkey, special);
    if waiting != [] {
      var tail := EncTTL(waiting[0]);
      forall ctx ensures ParseFrom(tail, ctx, valkey, special) == Outcome([], false) {
        assert tail + [] == tail;
        TTLTurn(waiting[0], [], ctx, valkey, special);
        ParseStep(tail, ctx, valkey, special);
        assert ParseFrom([], TakeTurn(tail, ctx, valkey, special).ctx, valkey, special) == Outcome([], false);
        assert [] + ParseFrom([], TakeTurn(tail, ctx, valkey, special).ctx, valkey, special).events == [];
      }
    }
  }

  ghost predicate AllTyped(calls: seq<Call>)
  {
    forall c :: c in calls ==> c.Write? ==> ObjTyped(c.obj)
  }

  lemma {:induction false} EffectsTyped(e: Enc, waiting: seq<nat>, calls: seq<Call>, cfg: Config, poly: Crc64.Word)
    requires (forall i :: 0 <= i < |calls| ==> CallWritable(calls[i], cfg)) && AllTyped(calls)
    ensures AllTyped(Effects(e, waiting, calls, cfg, poly).calls)
    decreases |calls|
  {
    hide Apply, CallWritable, ObjTyped;
    if calls != [] {
      var c, r := calls[0], Apply(e, calls[0], cfg, poly);
      if r.ok {
        EffectsTyped(r.enc, [], calls[1..], cfg, poly);
      } else {
        EffectsTyped(r.enc, if LeavesTTL(e, c) then [c.ttls[0]] else waiting, calls[1..], cfg, poly);
      }
    }
  }

  /** Before the header nothing can wait. */
  lemma StartHoldsNothing(waiting: seq<nat>)
    requires CanHold(Initial, waiting)
    ensures waiting == []
  {
  }

  /** Decode after encode for any session of calls whatsoever, from the start: the decoder delivers exactly what
      the calls that take effect have written, if and only if each of their objects comes back by itself; and
      reports no error exactly when the file was ended. */
  lemma SessionRoundTripIff(calls: seq<Call>, cfg: Config, poly: Crc64.Word, special: bool)
    requires forall i :: 0 <= i < |calls| ==> CallWritable(calls[i], cfg) && CallTyped(calls[i], cfg)
    ensures var (end, f) := (Session(Initial, calls, cfg, poly), Effects(Initial, [], calls, cfg, poly));
            (ParseFile(end.out, special) == Outcome(Expected(f.calls, 0, special), end.phase == WrittenEnd))
            <==> AllRead(f.calls, cfg)
  {
    hide ParseFile, Expected, AllRead, CallWritable, ObjTyped, Session, Effects, Exhausts, EncTTL;
    NothingHeld(Initial);
    SessionIsRun(Initial, [], calls, cfg, poly);
    assert AllTyped(calls);
    EffectsTyped(Initial, [], calls, cfg, poly);
    var f := Effects(Initial, [], calls, cfg, poly);
    var run := Run(Initial, f.calls, cfg, poly).value;
    WaitingExhausts(f.waiting, cfg.valkey, special);
    var tail := if f.waiting == [] then [] else EncTTL(f.waiting[0]);
    if f.calls == [] {
      StartHoldsNothing(f.waiting);
    }
    FileWithTail(f.calls, cfg, poly, special, tail);
    assert run.out + [] == run.out;
  }
}
