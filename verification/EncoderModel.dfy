/**
 The encoder's protocol: which calls are accepted in which state, and the bytes each call emits.
 `Apply` is the specification of the Encoder class; the grammar and checksum theorems are about runs
 of it.
 */
module EncoderModel {
  import opened Bytes
  import opened Parsing
  import opened RdbString
  import opened Objects
  import Crc64

  const OP_AUX := 250
  const OP_RESIZE_DB := 251
  const OP_EXPIRE_MS := 252
  const OP_SELECT_DB := 254
  const OP_EOF := 255

  const HEADER_REDIS: seq<byte> := [82, 69, 68, 73, 83, 48, 48, 49, 49]    // REDIS0011
  const HEADER_VALKEY: seq<byte> := [86, 65, 76, 75, 69, 89, 48, 56, 48]   // VALKEY080

  datatype Phase = AtStart | WrittenHeader | WrittenAux | WrittenDBHeader | WrittenTTL | WrittenObject | WrittenEnd

  /** stateChanges */
  predicate Allowed(from: Phase, to: Phase)
  {
    match from
    case AtStart => to == WrittenHeader
    case WrittenHeader => to == WrittenAux || to == WrittenDBHeader || to == WrittenEnd
    case WrittenAux => to == WrittenAux || to == WrittenDBHeader || to == WrittenEnd
    case WrittenDBHeader => to == WrittenTTL || to == WrittenObject
    case WrittenTTL => to == WrittenObject
    case WrittenObject => to == WrittenTTL || to == WrittenObject || to == WrittenDBHeader || to == WrittenEnd
    case WrittenEnd => false
  }

  datatype Call =
    | Header
    | Aux(auxKey: seq<byte>, auxValue: seq<byte>)
    | DBHeader(index: nat, keyCount: nat, ttlCount: nat)
    | Write(key: seq<byte>, obj: Object, ttls: seq<nat>)  // one TTL option after the other
    | End

  /** The arguments are of the Go types and the strings in range. */
  ghost predicate CallWritable(c: Call, cfg: Config)
  {
    match c
    case Header => true
    case Aux(k, v) => Writable(k, cfg.compress) && Writable(v, cfg.compress)
    case DBHeader(i, k, t) => i < TWO_64 && k < TWO_64 && t < TWO_64
    case Write(key, obj, ttls) =>
      Writable(key, cfg.compress) && ObjWritable(obj, cfg) && forall i :: 0 <= i < |ttls| ==> ttls[i] < TWO_64
    case End => true
  }

  function MagicOf(cfg: Config): (s: seq<byte>)
    ensures |s| == 9
  {
    if cfg.valkey then HEADER_VALKEY else HEADER_REDIS
  }

  function EncAux(k: seq<byte>, v: seq<byte>, cfg: Config): seq<byte>
    requires Writable(k, cfg.compress) && Writable(v, cfg.compress)
  {
    [OP_AUX] + (EncString(k, cfg.compress) + EncString(v, cfg.compress))
  }

  function EncDBHeader(index: nat, keyCount: nat, ttlCount: nat): seq<byte>
    requires index < TWO_64 && keyCount < TWO_64 && ttlCount < TWO_64
  {
    [OP_SELECT_DB] + (EncLength(index) + ([OP_RESIZE_DB] + (EncLength(keyCount) + EncLength(ttlCount))))
  }

  function EncTTL(ttl: nat): seq<byte>
  {
    [OP_EXPIRE_MS] + LE(ttl, 8)
  }

  /** The encoder between calls: phase, databases already opened, and everything written. */
  datatype Enc = Enc(phase: Phase, dbs: set<nat>, out: seq<byte>)

  const Initial := Enc(AtStart, {}, [])

  datatype Reply = Reply(enc: Enc, ok: bool)

  /** The TTL loop of beforeWriteObject: stops at the first option that is refused, keeping what was
      written before it. */
  function ApplyTTLs(e: Enc, ttls: seq<nat>): Reply
    decreases |ttls|
  {
    if ttls == [] then Reply(e, true)
    else if !Allowed(e.phase, WrittenTTL) then Reply(e, false)
    else ApplyTTLs(e.(phase := WrittenTTL, out := e.out + EncTTL(ttls[0])), ttls[1..])
  }

  /** One call. A refused call reports an error. */
  ghost function Apply(e: Enc, c: Call, cfg: Config, poly: Crc64.Word): Reply
    requires CallWritable(c, cfg)
  {
    match c
    case Header =>
      if !Allowed(e.phase, WrittenHeader) then Reply(e, false)
      else Reply(e.(phase := WrittenHeader, out := e.out + MagicOf(cfg)), true)
    case Aux(k, v) =>
      if !Allowed(e.phase, WrittenAux) then Reply(e, false)
      else Reply(e.(phase := WrittenAux, out := e.out + EncAux(k, v, cfg)), true)
    case DBHeader(i, k, t) =>
      if !Allowed(e.phase, WrittenDBHeader) || i in e.dbs then Reply(e, false)
      else Reply(Enc(WrittenDBHeader, e.dbs + {i}, e.out + EncDBHeader(i, k, t)), true)
    case Write(key, obj, ttls) =>
      if !Allowed(e.phase, WrittenObject) then Reply(e, false)
      else
        var r := ApplyTTLs(e, ttls);
        if !r.ok then r
        else Reply(r.enc.(phase := WrittenObject, out := r.enc.out + EncObject(key, obj, cfg)), true)
    case End =>
      if !Allowed(e.phase, WrittenEnd) then Reply(e, false)
      else
        var body := e.out + [OP_EOF];
        Reply(e.(phase := WrittenEnd, out := body + Crc64.WordBytes(Crc64.Fold(0, body, poly), 8)), true)
  }

  // ----- refused calls

  /** A refused call leaves bytes and state alone, except for an object with two or more TTL options in
      a state that takes a TTL: then the first TTL has already been written. */
  lemma RefusedUnchangedIff(e: Enc, c: Call, cfg: Config, poly: Crc64.Word)
    requires CallWritable(c, cfg) && !Apply(e, c, cfg, poly).ok
    ensures (Apply(e, c, cfg, poly).enc == e) <==>
            !(c.Write? && |c.ttls| >= 2 && Allowed(e.phase, WrittenObject) && Allowed(e.phase, WrittenTTL))
  {
    hide CallWritable, EncObject, Crc64.Fold, Crc64.WordBytes, EncTTL;
    if c.Write? && c.ttls != [] && Allowed(e.phase, WrittenTTL) {
      var e1 := e.(phase := WrittenTTL, out := e.out + EncTTL(c.ttls[0]));
      assert ApplyTTLs(e, c.ttls) == ApplyTTLs(e1, c.ttls[1..]);
      if |c.ttls| >= 2 {
        assert ApplyTTLs(e1, c.ttls[1..]) == Reply(e1, false);
        assert e1 != e;
      }
    }
  }

  /** Such a call, with the two TTLs 1 and 2: nine bytes stay behind, and the next object will carry the
      first TTL. */
  lemma SecondTTLRefused(e: Enc, cfg: Config, poly: Crc64.Word)
    requires e.phase == WrittenDBHeader
    ensures var c := Write([97], StringObj([98]), [1, 2]);
            && CallWritable(c, cfg)
            && Apply(e, c, cfg, poly) == Reply(e.(phase := WrittenTTL, out := e.out + EncTTL(1)), false)
  {
    hide EncObject, EncTTL, Crc64.Fold;
    assert [1, 2][1..] == [2];
  }

  // ----- runs

  /** All calls of the run are accepted; the state they end in. */
  ghost function Run(e: Enc, calls: seq<Call>, cfg: Config, poly: Crc64.Word): Option<Enc>
    requires forall i :: 0 <= i < |calls| ==> CallWritable(calls[i], cfg)
    decreases |calls|
  {
    if calls == [] then Some(e)
    else
      var r := Apply(e, calls[0], cfg, poly);
      if r.ok then Run(r.enc, calls[1..], cfg, poly) else None
  }

  predicate AtMostOneTTL(calls: seq<Call>)
  {
    forall i :: 0 <= i < |calls| ==> calls[i].Write? ==> |calls[i].ttls| <= 1
  }

  // The file grammar, as a prefix of Header Aux* (DBHeader Object+)* End with distinct databases.

  predicate IsFile(calls: seq<Call>)
  {
    calls == [] || (calls[0].Header? && IsAuxs(calls[1..]))
  }

  predicate IsAuxs(calls: seq<Call>)
    decreases |calls|, 1
  {
    (calls != [] && calls[0].Aux? && IsAuxs(calls[1..])) || IsDBs(calls, {})
  }

  predicate IsDBs(calls: seq<Call>, seen: set<nat>)
    decreases |calls|, 0
  {
    calls == [] || (calls[0].End? && |calls| == 1) ||
    (calls[0].DBHeader? && calls[0].index !in seen && IsObjects(calls[1..], seen + {calls[0].index}))
  }

  /** At least one object of the database just opened. */
  predicate IsObjects(calls: seq<Call>, seen: set<nat>)
    decreases |calls|, 0
  {
    calls == [] || (calls[0].Write? && IsMoreObjects(calls[1..], seen))
  }

  predicate IsMoreObjects(calls: seq<Call>, seen: set<nat>)
    decreases |calls|, 1
  {
    (calls != [] && calls[0].Write? && IsMoreObjects(calls[1..], seen)) || IsDBs(calls, seen)
  }

  /** What the grammar expects of the rest of a run, by phase. */
  predicate Continues(calls: seq<Call>, phase: Phase, dbs: set<nat>)
  {
    match phase
    case AtStart => dbs == {} && IsFile(calls)
    case WrittenHeader => dbs == {} && IsAuxs(calls)
    case WrittenAux => dbs == {} && IsAuxs(calls)
    case WrittenDBHeader => IsObjects(calls, dbs)
    case WrittenTTL => false
    case WrittenObject => IsMoreObjects(calls, dbs)
    case WrittenEnd => calls == []
  }

  predicate Reachable(e: Enc)
  {
    !e.phase.WrittenTTL? && (e.phase.AtStart? || e.phase.WrittenHeader? || e.phase.WrittenAux? ==> e.dbs == {})
  }

  lemma WriteApplies(e: Enc, c: Call, cfg: Config, poly: Crc64.Word)
    requires CallWritable(c, cfg) && c.Write? && |c.ttls| <= 1 && Reachable(e)
    ensures Apply(e, c, cfg, poly).ok <==> e.phase.WrittenDBHeader? || e.phase.WrittenObject?
    ensures Apply(e, c, cfg, poly).ok ==>
              Apply(e, c, cfg, poly).enc ==
              Enc(WrittenObject, e.dbs,
                  e.out + ((if c.ttls == [] then [] else EncTTL(c.ttls[0])) + EncObject(c.key, c.obj, cfg)))
  {
    hide EncObject, EncTTL, ObjWritable, Writable;
    var body := EncObject(c.key, c.obj, cfg);
    if c.ttls == [] {
      assert [] + body == body;
    } else {
      assert c.ttls[1..] == [];
      var e1 := e.(phase := WrittenTTL, out := e.out + EncTTL(c.ttls[0]));
      assert ApplyTTLs(e1, c.ttls[1..]) == Reply(e1, true);
      Assoc(e.out, EncTTL(c.ttls[0]), body);
    }
  }

  /** With at most one TTL per object, a run is accepted exactly when it is a prefix of
      Header Aux* (DBHeader Object+)* End with pairwise distinct database indices. */
  lemma {:induction false} AcceptedIffGrammar(e: Enc, calls: seq<Call>, cfg: Config, poly: Crc64.Word)
    requires forall i :: 0 <= i < |calls| ==> CallWritable(calls[i], cfg)
    requires AtMostOneTTL(calls) && Reachable(e)
    ensures Run(e, calls, cfg, poly).Some? <==> Continues(calls, e.phase, e.dbs)
    decreases |calls|
  {
    hide CallWritable, EncObject, Crc64.Fold, Crc64.WordBytes, EncAux, EncDBHeader, ApplyTTLs;
    if calls != [] {
      var c := calls[0];
      if c.Write? {
        WriteApplies(e, c, cfg, poly);
      }
      var r := Apply(e, c, cfg, poly);
      assert IsDBs(calls, e.dbs) <==>
          (c.End? && |calls| == 1) || (c.DBHeader? && c.index !in e.dbs && IsObjects(calls[1..], e.dbs + {c.index}));
      if r.ok {
        AcceptedIffGrammar(r.enc, calls[1..], cfg, poly);
      }
    } else {
      assert IsDBs(calls, e.dbs) && IsDBs(calls, {});
    }
  }

  // ----- checksums

  /** The finished file, with its own little-endian checksum at the end, has checksum zero. */
  lemma FileCheckSum(e: Enc, cfg: Config, poly: Crc64.Word)
    requires Apply(e, End, cfg, poly).ok
    ensures Crc64.Fold(0, Apply(e, End, cfg, poly).enc.out, poly) == 0
  {
    hide Crc64.Fold, Crc64.WordBytes;
    Crc64.SelfCheck(e.out + [OP_EOF], poly);
  }
}
