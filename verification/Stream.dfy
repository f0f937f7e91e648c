/**
 Stream entries: nodes of messages packed into one listpack each. Message IDs are stored as 64-bit
 differences from the first ID, and a message with exactly the master entry's field names stores its
 values only. The main lemma says exactly which nodes read back as themselves.
 */
module Streams {
  import opened Bytes
  import opened Parsing
  import opened RdbString
  import opened Lists
  import opened Hashes
  import opened ListPack

  // ----- entities

  datatype StreamId = StreamId(ms: nat, sequence: nat) {
    predicate Is64() {
      ms < TWO_64 && sequence < TWO_64
    }
  }

  datatype Message = Message(id: StreamId, fields: Fields, deleted: bool)

  datatype StreamEntry = StreamEntry(firstMsgId: StreamId, fields: Values, msgs: seq<Message>)

  // ----- writing

  function IntItem(v: int): LpEntry {
    LpEntry(v, [])
  }

  function StrItem(text: seq<byte>): LpEntry {
    LpEntry(0, text)
  }

  /** The test for the same-fields flag. */
  predicate SameFields(m: Fields, master: Values)
  {
    |m| == |master| && forall i :: 0 <= i < |master| ==> master[i] in m
  }

  function FlagOf(deleted: bool, same: bool): int
  {
    (if deleted then 1 else 0) + (if same then 2 else 0)
  }

  /** int64(a) - int64(b) */
  function Diff(a: nat, b: nat): int
  {
    ToInt64(a - b)
  }

  function StrItems(texts: Values): seq<LpEntry>
  {
    if texts == [] then [] else [StrItem(texts[0])] + StrItems(texts[1..])
  }

  function ValueItems(master: Values, m: Fields): seq<LpEntry>
    requires InMap(master, m)
  {
    if master == [] then [] else [StrItem(m[master[0]])] + ValueItems(master[1..], m)
  }

  function PairItems(order: Values, m: Fields): seq<LpEntry>
    requires InMap(order, m)
  {
    if order == [] then []
    else [StrItem(order[0])] + ([StrItem(m[order[0]])] + PairItems(order[1..], m))
  }

  /** The fields of a message: values only, or a count and then names with values, in map order. */
  function FieldItems(m: Fields, master: Values, order: Values): seq<LpEntry>
    requires InMap(order, m)
  {
    if SameFields(m, master) then ValueItems(master, m) else [IntItem(|m|)] + PairItems(order, m)
  }

  function MsgItems(msg: Message, first: StreamId, master: Values, order: Values): seq<LpEntry>
    requires InMap(order, msg.fields)
  {
    [IntItem(FlagOf(msg.deleted, SameFields(msg.fields, master)))] +
    ([IntItem(Diff(msg.id.ms, first.ms))] +
     ([IntItem(Diff(msg.id.sequence, first.sequence))] +
      (FieldItems(msg.fields, master, order) + [StrItem(NatText(|msg.fields|))])))
  }

  /** One map order for each message. */
  ghost predicate Orders(msgs: seq<Message>, orders: seq<Values>)
  {
    |orders| == |msgs| &&
    forall i :: 0 <= i < |msgs| ==> Enumerates(orders[i], msgs[i].fields.Keys) && InMap(orders[i], msgs[i].fields)
  }

  ghost function MsgsItems(msgs: seq<Message>, first: StreamId, master: Values, orders: seq<Values>): seq<LpEntry>
    requires Orders(msgs, orders)
  {
    if msgs == [] then []
    else MsgItems(msgs[0], first, master, orders[0]) + MsgsItems(msgs[1..], first, master, orders[1..])
  }

  function DeletedCount(msgs: seq<Message>): (n: nat)
    ensures n <= |msgs|
  {
    if msgs == [] then 0
    else DeletedCount(msgs[..|msgs| - 1]) + if msgs[|msgs| - 1].deleted then 1 else 0
  }

  function HeadItems(e: StreamEntry): seq<LpEntry>
  {
    [IntItem(|e.msgs| - DeletedCount(e.msgs))] +
    ([IntItem(DeletedCount(e.msgs))] +
     ([IntItem(|e.fields|)] + (StrItems(e.fields) + [StrItem(NatText(|e.fields|))])))
  }

  /** Everything writeStreamEntryContent packs. */
  ghost function EntryItems(e: StreamEntry, orders: seq<Values>): seq<LpEntry>
    requires Orders(e.msgs, orders)
  {
    HeadItems(e) + MsgsItems(e.msgs, e.firstMsgId, e.fields, orders)
  }

  // ----- reading

  function PNames(s: seq<byte>, n: nat): (p: Parsed<Values>)
    ensures p.Got? ==> |p.rest| <= |s|
    decreases n
  {
    if n == 0 then Got([], s)
    else
      var (name, t) :- PAsString(s);
      var (names, u) :- PNames(t, n - 1);
      Got([name] + names, u)
  }

  function PSame(s: seq<byte>, master: Values, m: Fields): (p: Parsed<Fields>)
    ensures p.Got? ==> |p.rest| <= |s|
    decreases |master|
  {
    if master == [] then Got(m, s)
    else
      var (v, t) :- PAsString(s);
      PSame(t, master[1..], m[master[0] := v])
  }

  function PNamed(s: seq<byte>, n: nat, m: Fields): (p: Parsed<Fields>)
    ensures p.Got? ==> |p.rest| <= |s|
    decreases n
  {
    if n == 0 then Got(m, s)
    else
      var (f, t) :- PAsString(s);
      var (v, u) :- PAsString(t);
      PNamed(u, n - 1, m[f := v])
  }

  /** A negative number of fields is none. */
  function PFields(s: seq<byte>, same: bool, master: Values): (p: Parsed<Fields>)
    ensures p.Got? ==> |p.rest| <= |s|
  {
    if same then PSame(s, master, map[])
    else
      var (n, t) :- PAsInt(s);
      PNamed(t, if n < 0 then 0 else n, map[])
  }

  function PMsg(s: seq<byte>, first: StreamId, master: Values): (p: Parsed<Message>)
    ensures p.Got? ==> |p.rest| < |s|
  {
    var (flag, s1) :- PAsInt(s);
    var (ms, s2) :- PAsInt(s1);
    var (seq_, s3) :- PAsInt(s2);
    var (fields, s4) :- PFields(s3, flag / 2 % 2 == 1, master);
    var (_, s5) :- PAsString(s4);
    Got(Message(StreamId(Wrap64(ms + first.ms), Wrap64(seq_ + first.sequence)), fields, flag % 2 == 1), s5)
  }

  function PMsgs(s: seq<byte>, n: nat, first: StreamId, master: Values): (p: Parsed<seq<Message>>)
    ensures p.Got? ==> |p.value| == n
    decreases n
  {
    if n == 0 then Got([], s)
    else
      var (m, t) :- PMsg(s, first, master);
      var (ms, u) :- PMsgs(t, n - 1, first, master);
      Got([m] + ms, u)
  }

  /** The counts and the master entry; negative counts are slice sizes that panic. */
  function PHead(s: seq<byte>): (p: Parsed<(nat, Values)>)
  {
    var (count, s1) :- PAsInt(s);
    var (deleted, s2) :- PAsInt(s1);
    var (fieldNum, s3) :- PAsInt(s2);
    if fieldNum < 0 then Bad
    else
      var (master, s4) :- PNames(s3, fieldNum);
      var (_, s5) :- PAsString(s4);
      var total := ToInt64(count + deleted);
      if total < 0 then Bad else Got((total, master), s5)
  }

  /** readStreamEntryContent */
  function PContent(s: seq<byte>, first: StreamId): Option<StreamEntry>
  {
    match PHead(s)
    case Bad => None
    case Got((total, master), t) =>
      match PMsgs(t, total, first, master)
      case Bad => None
      case Got(msgs, _) => Some(StreamEntry(first, master, msgs))
  }

  /** The six header bytes are skipped unread; a shorter buffer is not skipped at all. */
  function PPack(buf: seq<byte>, first: StreamId): Option<StreamEntry>
  {
    PContent(if |buf| < 6 then buf else buf[6..], first)
  }

  // ----- which nodes survive

  /** Every string is short enough for a 32-bit length. */
  predicate ShortText(text: seq<byte>)
  {
    |text| + 5 < TWO_32
  }

  predicate ShortTexts(texts: Values)
  {
    forall i :: 0 <= i < |texts| ==> ShortText(texts[i])
  }

  ghost predicate ShortFields(m: Fields)
  {
    |m| < TWO_63 && forall f :: f in m ==> ShortText(f) && ShortText(m[f])
  }

  ghost predicate MsgWritable(msg: Message, order: Values)
  {
    Enumerates(order, msg.fields.Keys) && InMap(order, msg.fields) && ShortFields(msg.fields) && msg.id.Is64()
  }

  ghost predicate EntryWritable(e: StreamEntry, orders: seq<Values>)
  {
    && Orders(e.msgs, orders) && ShortTexts(e.fields) && |e.fields| < TWO_63 && |e.msgs| < TWO_63 && e.firstMsgId.Is64()
    && forall i :: 0 <= i < |e.msgs| ==> MsgWritable(e.msgs[i], orders[i])
  }

  ghost predicate AllNonEmpty(m: Fields)
  {
    forall f :: f in m ==> m[f] != []
  }

  /** No empty value, and either the names are the master's, counted without repetition, or the message
      brings its own names, none of them empty, in a number that is not lost. */
  ghost predicate FieldsOk(m: Fields, master: Values)
  {
    AllNonEmpty(m) &&
    if SameFields(m, master) then forall f :: f in m ==> f in master else [] !in m && LpIntOk(|m|)
  }

  /** What a message needs to come back: ID differences outside the ranges that integers lose, and
      fields as above. */
  ghost predicate MsgOk(msg: Message, first: StreamId, master: Values)
  {
    && LpIntOk(Diff(msg.id.ms, first.ms)) && LpIntOk(Diff(msg.id.sequence, first.sequence))
    && FieldsOk(msg.fields, master)
  }

  ghost predicate EntryOk(e: StreamEntry)
  {
    && LpIntOk(|e.msgs| - DeletedCount(e.msgs)) && LpIntOk(DeletedCount(e.msgs))
    && LpIntOk(|e.fields|) && NonEmptyValues(e.fields)
    && AllMsgsOk(e.msgs, e.firstMsgId, e.fields)
  }

  // ----- items one by one

  lemma {:induction false} StrItemsOk(texts: Values)
    requires ShortTexts(texts)
    ensures AllLpWritable(StrItems(texts))
  {
    if texts != [] {
      StrItemsOk(texts[1..]);
    }
  }

  lemma {:induction false} ValueItemsOk(master: Values, m: Fields)
    requires InMap(master, m) && ShortFields(m)
    ensures AllLpWritable(ValueItems(master, m))
  {
    if master != [] {
      ValueItemsOk(master[1..], m);
    }
  }

  lemma {:induction false} PairItemsOk(order: Values, m: Fields)
    requires InMap(order, m) && ShortFields(m)
    ensures AllLpWritable(PairItems(order, m))
  {
    if order != [] {
      PairItemsOk(order[1..], m);
      AllLpConcat([StrItem(m[order[0]])], PairItems(order[1..], m));
    }
  }

  lemma AllLpConcat(a: seq<LpEntry>, b: seq<LpEntry>)
    requires AllLpWritable(a) && AllLpWritable(b)
    ensures AllLpWritable(a + b)
  {
  }

  lemma {:induction false} NatTextLength(n: nat, k: nat)
    requires k >= 1 && n < Pow10(k)
    ensures |NatText(n)| <= k
    decreases k
  {
    if n >= 10 {
      NatTextLength(n / 10, k - 1);
    }
  }

  function Pow10(k: nat): nat
  {
    if k == 0 then 1 else 10 * Pow10(k - 1)
  }

  lemma CountShort(n: nat)
    requires n < TWO_63
    ensures ShortText(NatText(n)) && NatText(n) != []
  {
    hide NatText;
    assert Pow10(2) == 100;
    assert Pow10(4) == 100 * Pow10(2);
    assert Pow10(6) == 100 * Pow10(4);
    assert Pow10(8) == 100 * Pow10(6);
    assert Pow10(10) == 100 * Pow10(8);
    assert Pow10(12) == 100 * Pow10(10);
    assert Pow10(14) == 100 * Pow10(12);
    assert Pow10(16) == 100 * Pow10(14);
    assert Pow10(18) == 100 * Pow10(16);
    assert Pow10(20) == 100 * Pow10(18);
    NatTextLength(n, 20);
  }

  lemma FieldItemsOk(m: Fields, master: Values, order: Values)
    requires InMap(order, m) && ShortFields(m)
    ensures AllLpWritable(FieldItems(m, master, order))
  {
    hide LpWritable, ValueItems, PairItems;
    if SameFields(m, master) {
      ValueItemsOk(master, m);
    } else {
      IntItemOk(|m|);
      PairItemsOk(order, m);
      AllLpConcat([IntItem(|m|)], PairItems(order, m));
    }
  }

  lemma IntItemOk(v: int)
    requires IsInt64(v)
    ensures LpWritable(IntItem(v)) && AllLpWritable([IntItem(v)])
  {
  }

  lemma StrItemOk(text: seq<byte>)
    requires ShortText(text)
    ensures LpWritable(StrItem(text)) && AllLpWritable([StrItem(text)])
  {
  }

  // ----- one item off the front

  lemma IntFirst(v: int, rest: seq<LpEntry>, t: seq<byte>)
    requires IsInt64(v) && AllLpWritable(rest)
    ensures AllLpWritable([IntItem(v)] + rest)
    ensures var p := PAsInt(Frames([IntItem(v)] + rest) + t);
            && (LpIntOk(v) ==> p == Got(v, Frames(rest) + t))
            && (!LpIntOk(v) ==> p.Got? ==> p.value != v)
            && (4096 <= v <= 8191 ==> p == Got(v - 8192, Frames(rest) + t))
  {
    hide Framed, PAsInt;
    IntItemOk(v);
    AllLpConcat([IntItem(v)], rest);
    assert ([IntItem(v)] + rest)[1..] == rest;
    Assoc(Framed(IntItem(v)), Frames(rest), t);
    IntRoundTripIff(v, Frames(rest) + t);
  }

  lemma StrFirst(text: seq<byte>, rest: seq<LpEntry>, t: seq<byte>)
    requires ShortText(text) && AllLpWritable(rest)
    ensures AllLpWritable([StrItem(text)] + rest)
    ensures PAsString(Frames([StrItem(text)] + rest) + t) == Got(Shown(text), Frames(rest) + t)
  {
    hide Framed, PAsString;
    StrItemOk(text);
    AllLpConcat([StrItem(text)], rest);
    assert ([StrItem(text)] + rest)[1..] == rest;
    Assoc(Framed(StrItem(text)), Frames(rest), t);
    ListPack.StringRoundTrip(text, Frames(rest) + t);
  }

  // ----- field maps

  function ShownAll(texts: Values): (r: Values)
    ensures |r| == |texts| && forall i :: 0 <= i < |texts| ==> r[i] == Shown(texts[i])
  {
    seq(|texts|, i requires 0 <= i < |texts| => Shown(texts[i]))
  }

  lemma ShownAllIff(texts: Values)
    ensures (ShownAll(texts) == texts) <==> NonEmptyValues(texts)
  {
    if ShownAll(texts) == texts {
      forall i | 0 <= i < |texts| ensures texts[i] != [] {
        assert ShownAll(texts)[i] == Shown(texts[i]);
      }
    }
  }

  lemma {:induction false} NamesDecode(texts: Values, t: seq<byte>)
    requires ShortTexts(texts)
    ensures AllLpWritable(StrItems(texts))
    ensures PNames(Frames(StrItems(texts)) + t, |texts|) == Got(ShownAll(texts), t)
  {
    hide Frames, PAsString, LpWritable, Shown, StrItem;
    StrItemsOk(texts);
    if texts == [] {
      NoFrames(t);
    } else {
      NamesDecode(texts[1..], t);
      StrFirst(texts[0], StrItems(texts[1..]), t);
      assert ShownAll(texts) == [Shown(texts[0])] + ShownAll(texts[1..]);
    }
  }

  lemma NoFrames(t: seq<byte>)
    ensures Frames([]) + t == t
  {
  }

  /** The map read for a message with the master's names. */
  function SameOver(master: Values, m: Fields, acc: Fields): Fields
    requires InMap(master, m)
    decreases |master|
  {
    if master == [] then acc else SameOver(master[1..], m, acc[master[0] := Shown(m[master[0]])])
  }

  lemma {:induction false} SameDecode(master: Values, m: Fields, acc: Fields, t: seq<byte>)
    requires InMap(master, m) && ShortFields(m)
    ensures AllLpWritable(ValueItems(master, m))
    ensures PSame(Frames(ValueItems(master, m)) + t, master, acc) == Got(SameOver(master, m, acc), t)
    decreases |master|
  {
    hide Frames, PAsString, LpWritable, Shown, StrItem;
    ValueItemsOk(master, m);
    if master == [] {
      NoFrames(t);
    } else {
      SameDecode(master[1..], m, acc[master[0] := Shown(m[master[0]])], t);
      StrFirst(m[master[0]], ValueItems(master[1..], m), t);
    }
  }

  function ShownMap(order: Values, m: Fields): Fields
    requires InMap(order, m)
  {
    map f | f in order :: Shown(m[f])
  }

  lemma ShownStep(order: Values, m: Fields, acc: Fields)
    requires InMap(order, m)
    ensures order == [] ==> acc + ShownMap(order, m) == acc
    ensures order != [] ==>
              InMap(order[1..], m) &&
              acc[order[0] := Shown(m[order[0]])] + ShownMap(order[1..], m) == acc + ShownMap(order, m)
  {
    hide Shown;
    if order != [] {
      assert forall f :: f in order <==> f == order[0] || f in order[1..];
    }
  }

  lemma {:induction false} SameOverIs(master: Values, m: Fields, acc: Fields)
    requires InMap(master, m)
    ensures SameOver(master, m, acc) == acc + ShownMap(master, m)
    decreases |master|
  {
    hide Shown, ShownMap;
    ShownStep(master, m, acc);
    if master != [] {
      SameOverIs(master[1..], m, acc[master[0] := Shown(m[master[0]])]);
    }
  }

  /** The map read differs from the map written exactly by empty values and missing names. */
  lemma ShownMapIff(order: Values, m: Fields)
    requires InMap(order, m)
    ensures (map[] + ShownMap(order, m) == m) <==> AllNonEmpty(m) && forall f :: f in m ==> f in order
  {
    var r := ShownMap(order, m);
    assert map[] + r == r;
    if r == m {
      forall f | f in m ensures m[f] != [] {
        assert r[f] == Shown(m[f]);
      }
    } else if forall f :: f in m ==> f in order {
      assert r.Keys == m.Keys;
      var f :| f in m && r[f] != m[f];
      assert r[f] == Shown(m[f]);
    }
  }

  /** The map read for a message with names of its own. */
  function NamedOver(order: Values, m: Fields, acc: Fields): Fields
    requires InMap(order, m)
    decreases |order|
  {
    if order == [] then acc else NamedOver(order[1..], m, acc[Shown(order[0]) := Shown(m[order[0]])])
  }

  lemma {:induction false} NamedDecode(order: Values, m: Fields, acc: Fields, t: seq<byte>)
    requires InMap(order, m) && ShortFields(m)
    ensures AllLpWritable(PairItems(order, m))
    ensures PNamed(Frames(PairItems(order, m)) + t, |order|, acc) == Got(NamedOver(order, m, acc), t)
    decreases |order|
  {
    hide Frames, PAsString, LpWritable, Shown, StrItem;
    PairItemsOk(order, m);
    if order == [] {
      NoFrames(t);
    } else {
      var (f, rest) := (order[0], PairItems(order[1..], m));
      NamedDecode(order[1..], m, acc[Shown(f) := Shown(m[f])], t);
      StrFirst(m[f], rest, t);
      StrFirst(f, [StrItem(m[f])] + rest, t);
    }
  }

  lemma {:induction false} NamedOverNames(order: Values, m: Fields, acc: Fields)
    requires InMap(order, m) && [] !in acc
    ensures [] !in NamedOver(order, m, acc)
    decreases |order|
  {
    if order != [] {
      NamedOverNames(order[1..], m, acc[Shown(order[0]) := Shown(m[order[0]])]);
    }
  }

  lemma {:induction false} NamedIsSame(order: Values, m: Fields, acc: Fields)
    requires InMap(order, m) && [] !in order
    ensures NamedOver(order, m, acc) == SameOver(order, m, acc)
    decreases |order|
  {
    if order != [] {
      assert Shown(order[0]) == order[0];
      NamedIsSame(order[1..], m, acc[order[0] := Shown(m[order[0]])]);
    }
  }

  lemma NamedIff(m: Fields, order: Values)
    requires Enumerates(order, m.Keys) && InMap(order, m)
    ensures (NamedOver(order, m, map[]) == m) <==> AllNonEmpty(m) && [] !in m
  {
    hide NamedOver, SameOver, ShownMap, AllNonEmpty;
    assert forall f :: f in order <==> f in m;
    if [] in m {
      NamedOverNames(order, m, map[]);
    } else {
      NamedIsSame(order, m, map[]);
      SameOverIs(order, m, map[]);
      ShownMapIff(order, m);
    }
  }

  /** The fields of one message. A count that is lost comes back negative and reads no field at all. */
  lemma FieldsIff(m: Fields, master: Values, order: Values, t: seq<byte>)
    requires Enumerates(order, m.Keys) && InMap(order, m) && ShortFields(m)
    ensures AllLpWritable(FieldItems(m, master, order))
    ensures var p := PFields(Frames(FieldItems(m, master, order)) + t, SameFields(m, master), master);
            && (FieldsOk(m, master) ==> p == Got(m, t))
            && (!FieldsOk(m, master) ==> p.Got? ==> p.value != m)
  {
    hide Frames, PAsInt, PSame, PNamed, ValueItems, PairItems, SameOver, NamedOver, ShownMap, AllNonEmpty, ShortFields,
         LpWritable, IntItem;
    FieldItemsOk(m, master, order);
    if SameFields(m, master) {
      SameDecode(master, m, map[], t);
      SameOverIs(master, m, map[]);
      ShownMapIff(master, m);
    } else {
      PairItemsOk(order, m);
      FieldCount(m);
      IntFirst(|m|, PairItems(order, m), t);
      NamedDecode(order, m, map[], t);
      NamedIff(m, order);
      if !LpIntOk(|m|) {
        NoFields(Frames(PairItems(order, m)) + t);
      }
    }
  }

  lemma FieldCount(m: Fields)
    requires ShortFields(m)
    ensures IsInt64(|m|) && (!LpIntOk(|m|) <==> 4096 <= |m| <= 8191)
  {
  }

  lemma NoFields(t: seq<byte>)
    ensures PNamed(t, 0, map[]) == Got(map[], t)
  {
  }

  // ----- messages

  /** Adding the first ID back undoes the difference, modulo 2^64. */
  lemma DiffRoundTrip(a: nat, b: nat)
    requires a < TWO_64 && b < TWO_64
    ensures Wrap64(Diff(a, b) + b) == a
  {
  }

  lemma DiffInjective(x: int, a: nat, b: nat)
    requires IsInt64(x) && a < TWO_64 && b < TWO_64 && Wrap64(x + b) == a
    ensures x == Diff(a, b)
  {
  }

  lemma MsgItemsOk(msg: Message, first: StreamId, master: Values, order: Values)
    requires MsgWritable(msg, order) && first.Is64()
    ensures AllLpWritable(MsgItems(msg, first, master, order))
    ensures AllLpWritable(TailItems(msg.fields, master, order))
  {
    hide LpWritable, FieldItems, IntItem, StrItem, NatText;
    var m := msg.fields;
    FieldItemsOk(m, master, order);
    CountShort(|m|);
    StrItemOk(NatText(|m|));
    AllLpConcat(FieldItems(m, master, order), [StrItem(NatText(|m|))]);
    var tail := FieldItems(m, master, order) + [StrItem(NatText(|m|))];
    IntItemOk(Diff(msg.id.sequence, first.sequence));
    AllLpConcat([IntItem(Diff(msg.id.sequence, first.sequence))], tail);
    IntItemOk(Diff(msg.id.ms, first.ms));
    AllLpConcat([IntItem(Diff(msg.id.ms, first.ms))], [IntItem(Diff(msg.id.sequence, first.sequence))] + tail);
    IntItemOk(FlagOf(msg.deleted, SameFields(m, master)));
  }

  /** The items of a message after its ID. */
  function TailItems(m: Fields, master: Values, order: Values): seq<LpEntry>
    requires InMap(order, m)
  {
    FieldItems(m, master, order) + [StrItem(NatText(|m|))]
  }

  lemma TailIff(msg: Message, first: StreamId, master: Values, order: Values, t: seq<byte>)
    requires MsgWritable(msg, order) && first.Is64()
    ensures AllLpWritable(TailItems(msg.fields, master, order))
    ensures var s := Frames(TailItems(msg.fields, master, order)) + t;
            var p := PFields(s, SameFields(msg.fields, master), master);
            && (FieldsOk(msg.fields, master) ==>
                  p.Got? && p.value == msg.fields && PAsString(p.rest).Got? && PAsString(p.rest).rest == t)
            && (!FieldsOk(msg.fields, master) ==> p.Got? ==> p.value != msg.fields)
  {
    hide Frames, FieldItems, PFields, PAsString, FieldsOk, LpWritable, ShortFields, NatText, StrItem;
    MsgItemsOk(msg, first, master, order);
    var m := msg.fields;
    var count := [StrItem(NatText(|m|))];
    FieldItemsOk(m, master, order);
    FieldCount(m);
    CountShort(|m|);
    StrItemOk(NatText(|m|));
    FramesConcat(FieldItems(m, master, order), count);
    Assoc(Frames(FieldItems(m, master, order)), Frames(count), t);
    FieldsIff(m, master, order, Frames(count) + t);
    assert count + [] == count;
    StrFirst(NatText(|m|), [], t);
    NoFrames(t);
  }

  /** One message comes back as itself, and reading stops at its end, exactly when MsgOk holds. */
  lemma MsgIff(msg: Message, first: StreamId, master: Values, order: Values, t: seq<byte>)
    requires MsgWritable(msg, order) && first.Is64()
    ensures AllLpWritable(MsgItems(msg, first, master, order))
    ensures var p := PMsg(Frames(MsgItems(msg, first, master, order)) + t, first, master);
            && (MsgOk(msg, first, master) ==> p == Got(msg, t))
            && (!MsgOk(msg, first, master) ==> p.Got? ==> p.value != msg)
  {
    hide Frames, PAsInt, PAsString, PFields, FieldItems, FieldsOk, LpWritable, LpIntOk, IntItem, StrItem, ShortFields,
      NatText,
         SameFields, Enumerates, InMap, Diff, Wrap64;
    MsgItemsOk(msg, first, master, order);
    var (ms, sq) := (Diff(msg.id.ms, first.ms), Diff(msg.id.sequence, first.sequence));
    var same := SameFields(msg.fields, master);
    var tail := TailItems(msg.fields, master, order);
    DiffIs64(msg.id.ms, first.ms);
    DiffIs64(msg.id.sequence, first.sequence);
    IntItemOk(sq);
    AllLpConcat([IntItem(sq)], tail);
    IntItemOk(ms);
    AllLpConcat([IntItem(ms)], [IntItem(sq)] + tail);
    FlagFirst(msg.deleted, same, [IntItem(ms)] + ([IntItem(sq)] + tail), t);
    IntFirst(ms, [IntItem(sq)] + tail, t);
    IntFirst(sq, tail, t);
    TailIff(msg, first, master, order, t);
    var s1 := Frames([IntItem(ms)] + ([IntItem(sq)] + tail)) + t;
    IdIff(s1, msg.id.ms, first.ms);
    if LpIntOk(ms) {
      IdIff(PAsInt(s1).rest, msg.id.sequence, first.sequence);
    }
  }

  lemma DiffIs64(a: nat, b: nat)
    ensures IsInt64(Diff(a, b))
  {
  }

  lemma FlagFirst(deleted: bool, same: bool, rest: seq<LpEntry>, t: seq<byte>)
    requires AllLpWritable(rest)
    ensures AllLpWritable([IntItem(FlagOf(deleted, same))] + rest)
    ensures var p := PAsInt(Frames([IntItem(FlagOf(deleted, same))] + rest) + t);
            && p == Got(FlagOf(deleted, same), Frames(rest) + t)
            && (p.value / 2 % 2 == 1 <==> same) && (p.value % 2 == 1 <==> deleted)
  {
    hide Frames, PAsInt, IntItem, AllLpWritable;
    IntFirst(FlagOf(deleted, same), rest, t);
  }

  /** A read difference gives back the ID exactly when it is the difference written. */
  lemma IdIff(s: seq<byte>, a: nat, b: nat)
    requires a < TWO_64 && b < TWO_64
    ensures PAsInt(s).Got? ==> (Wrap64(PAsInt(s).value + b) == a <==> PAsInt(s).value == Diff(a, b))
  {
    hide PAsInt, Diff, Wrap64;
    IntIs64(s);
    DiffRoundTrip(a, b);
    if PAsInt(s).Got? && Wrap64(PAsInt(s).value + b) == a {
      DiffInjective(PAsInt(s).value, a, b);
    }
  }

  lemma {:induction false} MsgsItemsOk(msgs: seq<Message>, first: StreamId, master: Values, orders: seq<Values>)
    requires Orders(msgs, orders) && first.Is64()
    requires forall i :: 0 <= i < |msgs| ==> MsgWritable(msgs[i], orders[i])
    ensures AllLpWritable(MsgsItems(msgs, first, master, orders))
  {
    hide LpWritable, MsgItems, MsgWritable, Enumerates, InMap;
    if msgs != [] {
      MsgItemsOk(msgs[0], first, master, orders[0]);
      MsgsItemsOk(msgs[1..], first, master, orders[1..]);
      AllLpConcat(MsgItems(msgs[0], first, master, orders[0]), MsgsItems(msgs[1..], first, master, orders[1..]));
    }
  }

  ghost predicate AllMsgsOk(msgs: seq<Message>, first: StreamId, master: Values)
  {
    forall i :: 0 <= i < |msgs| ==> MsgOk(msgs[i], first, master)
  }

  lemma {:induction false} MsgsIff(msgs: seq<Message>, first: StreamId, master: Values, orders: seq<Values>,
                                   t: seq<byte>)
    requires Orders(msgs, orders) && first.Is64()
    requires forall i :: 0 <= i < |msgs| ==> MsgWritable(msgs[i], orders[i])
    ensures AllLpWritable(MsgsItems(msgs, first, master, orders))
    ensures var p := PMsgs(Frames(MsgsItems(msgs, first, master, orders)) + t, |msgs|, first, master);
            && (AllMsgsOk(msgs, first, master) ==> p == Got(msgs, t))
            && (!AllMsgsOk(msgs, first, master) ==> p.Got? ==> p.value != msgs)
  {
    hide Frames, PMsg, LpWritable, MsgItems, MsgWritable, MsgOk, Enumerates, InMap;
    MsgsItemsOk(msgs, first, master, orders);
    if msgs == [] {
      NoFrames(t);
    } else {
      var (a, b) := (MsgItems(msgs[0], first, master, orders[0]), MsgsItems(msgs[1..], first, master, orders[1..]));
      MsgItemsOk(msgs[0], first, master, orders[0]);
      MsgsItemsOk(msgs[1..], first, master, orders[1..]);
      FramesConcat(a, b);
      Assoc(Frames(a), Frames(b), t);
      MsgIff(msgs[0], first, master, orders[0], Frames(b) + t);
      if MsgOk(msgs[0], first, master) {
        MsgsIff(msgs[1..], first, master, orders[1..], t);
        assert msgs == [msgs[0]] + msgs[1..];
        assert AllMsgsOk(msgs, first, master) <==> AllMsgsOk(msgs[1..], first, master) by {
          MsgsOkStep(msgs, first, master);
        }
      }
    }
  }

  lemma MsgsOkStep(msgs: seq<Message>, first: StreamId, master: Values)
    requires msgs != []
    ensures AllMsgsOk(msgs, first, master) <==> MsgOk(msgs[0], first, master) && AllMsgsOk(msgs[1..], first, master)
  {
    hide MsgOk;
    if MsgOk(msgs[0], first, master) && AllMsgsOk(msgs[1..], first, master) {
      forall i | 0 <= i < |msgs| ensures MsgOk(msgs[i], first, master) {
        if i > 0 {
          assert msgs[i] == msgs[1..][i - 1];
        }
      }
    }
  }

  // ----- the head

  /** What a count reads as. */
  function ReadCount(n: nat): int
  {
    if 4096 <= n <= 8191 then n - 8192 else n
  }

  lemma CountFirst(n: nat, rest: seq<LpEntry>, t: seq<byte>)
    requires n < TWO_63 && AllLpWritable(rest)
    ensures AllLpWritable([IntItem(n)] + rest)
    ensures PAsInt(Frames([IntItem(n)] + rest) + t) == Got(ReadCount(n), Frames(rest) + t)
  {
    hide Frames, PAsInt, IntItem, AllLpWritable;
    IntFirst(n, rest, t);
  }

  /** The items of the head after the two message counts. */
  function NameItems(fields: Values): seq<LpEntry>
  {
    [IntItem(|fields|)] + (StrItems(fields) + [StrItem(NatText(|fields|))])
  }

  lemma NamesFirst(fields: Values, t: seq<byte>)
    requires ShortTexts(fields) && |fields| < TWO_63
    ensures AllLpWritable(NameItems(fields))
    ensures var p := PAsInt(Frames(NameItems(fields)) + t);
            && p.Got? && p.value == ReadCount(|fields|)
            && (p.value == |fields| ==>
                  var q := PNames(p.rest, |fields|);
                  q.Got? && q.value == ShownAll(fields) && PAsString(q.rest).Got? && PAsString(q.rest).rest == t)
  {
    hide Frames, PAsInt, PAsString, PNames, StrItems, IntItem, StrItem, LpWritable, NatText, ShownAll;
    var count := [StrItem(NatText(|fields|))];
    StrItemsOk(fields);
    CountShort(|fields|);
    StrItemOk(NatText(|fields|));
    AllLpConcat(StrItems(fields), count);
    CountFirst(|fields|, StrItems(fields) + count, t);
    FramesConcat(StrItems(fields), count);
    Assoc(Frames(StrItems(fields)), Frames(count), t);
    NamesDecode(fields, Frames(count) + t);
    assert count + [] == count;
    StrFirst(NatText(|fields|), [], t);
    NoFrames(t);
  }

  lemma HeadItemsOk(e: StreamEntry)
    requires ShortTexts(e.fields) && |e.fields| < TWO_63 && |e.msgs| < TWO_63
    ensures AllLpWritable(HeadItems(e))
  {
    hide NameItems, IntItem, LpWritable, Frames, PAsInt, PAsString, PNames, ShownAll, DeletedCount;
    var (valid, deleted) := (|e.msgs| - DeletedCount(e.msgs), DeletedCount(e.msgs));
    NamesFirst(e.fields, []);
    CountFirst(deleted, NameItems(e.fields), []);
    CountFirst(valid, [IntItem(deleted)] + NameItems(e.fields), []);
    HeadIs(e);
  }

  lemma HeadIs(e: StreamEntry)
    ensures HeadItems(e) == [IntItem(|e.msgs| - DeletedCount(e.msgs))] +
                            ([IntItem(DeletedCount(e.msgs))] + NameItems(e.fields))
  {
  }

  /** A number of fields that is lost fails; lost message counts give a total short by 8192 each. */
  lemma HeadDecode(e: StreamEntry, t: seq<byte>)
    requires ShortTexts(e.fields) && |e.fields| < TWO_63 && |e.msgs| < TWO_63
    ensures AllLpWritable(HeadItems(e))
    ensures var p := PHead(Frames(HeadItems(e)) + t);
            var total := ReadCount(|e.msgs| - DeletedCount(e.msgs)) + ReadCount(DeletedCount(e.msgs));
            if LpIntOk(|e.fields|) && total >= 0 then p == Got((total, ShownAll(e.fields)), t) else p == Bad
  {
    hide Frames, NameItems, IntItem, LpWritable, PAsInt, PAsString, PNames, ShownAll, DeletedCount, ToInt64;
    var (valid, deleted) := (|e.msgs| - DeletedCount(e.msgs), DeletedCount(e.msgs));
    HeadItemsOk(e);
    HeadIs(e);
    NamesFirst(e.fields, t);
    CountFirst(deleted, NameItems(e.fields), t);
    CountFirst(valid, [IntItem(deleted)] + NameItems(e.fields), t);
    SmallSum(ReadCount(valid) + ReadCount(deleted));
  }

  lemma SmallSum(v: int)
    requires IsInt64(v)
    ensures ToInt64(v) == v
  {
  }

  // ----- whole nodes

  lemma EntryItemsOk(e: StreamEntry, orders: seq<Values>)
    requires EntryWritable(e, orders)
    ensures AllLpWritable(EntryItems(e, orders)) && AllLpWritable(HeadItems(e))
    ensures AllLpWritable(MsgsItems(e.msgs, e.firstMsgId, e.fields, orders))
    ensures Frames(EntryItems(e, orders)) ==
            Frames(HeadItems(e)) + Frames(MsgsItems(e.msgs, e.firstMsgId, e.fields, orders))
  {
    hide HeadItems, MsgsItems, LpWritable, MsgWritable, Orders, ShortTexts, Frames;
    HeadItemsOk(e);
    MsgsItemsOk(e.msgs, e.firstMsgId, e.fields, orders);
    AllLpConcat(HeadItems(e), MsgsItems(e.msgs, e.firstMsgId, e.fields, orders));
    FramesConcat(HeadItems(e), MsgsItems(e.msgs, e.firstMsgId, e.fields, orders));
  }

  /** A node comes back as itself exactly when EntryOk holds. */
  lemma ContentIff(e: StreamEntry, orders: seq<Values>)
    requires EntryWritable(e, orders)
    ensures AllLpWritable(EntryItems(e, orders))
    ensures (PContent(Frames(EntryItems(e, orders)), e.firstMsgId) == Some(e)) <==> EntryOk(e)
  {
    hide HeadItems, MsgsItems, EntryItems, LpWritable, MsgWritable, Orders, ShortTexts, Frames, PHead, PMsgs, ShownAll,
         AllMsgsOk, DeletedCount, NonEmptyValues;
    EntryItemsOk(e, orders);
    var rest := Frames(MsgsItems(e.msgs, e.firstMsgId, e.fields, orders));
    HeadDecode(e, rest);
    ShownAllIff(e.fields);
    MsgsIff(e.msgs, e.firstMsgId, e.fields, orders, []);
    assert rest + [] == rest;
  }

  /** What writeStreamEntryContent hands to writeString reads back exactly when EntryOk holds. */
  lemma PackIff(e: StreamEntry, orders: seq<Values>)
    requires EntryWritable(e, orders)
    ensures AllLpWritable(EntryItems(e, orders))
    ensures (PPack(EncPack(EntryItems(e, orders)), e.firstMsgId) == Some(e)) <==> EntryOk(e)
  {
    hide EntryItems, EntryWritable, PContent, Frames, LpWritable, EntryOk;
    ContentIff(e, orders);
  }

  // ----- the list of nodes

  function EncId(id: StreamId): (s: seq<byte>)
    ensures |s| == 16
  {
    BE(id.ms, 8) + BE(id.sequence, 8)
  }

  function PId(header: seq<byte>): Option<StreamId>
  {
    if |header| < 16 then None else Some(StreamId(UnBE(header[..8]), UnBE(header[8..16])))
  }

  lemma IdRoundTrip(id: StreamId)
    requires id.Is64()
    ensures PId(EncId(id)) == Some(id)
  {
    hide BE, UnBE;
    Pow256Values();
    UnsignedRoundTrip(id.ms, 8);
    UnsignedRoundTrip(id.sequence, 8);
    assert EncId(id)[..8] == BE(id.ms, 8) && EncId(id)[8..16] == BE(id.sequence, 8);
  }

  /** A node with the map orders of its messages. */
  type Ordered = (StreamEntry, seq<Values>)

  ghost predicate NodeWritable(node: Ordered, compress: bool)
  {
    && EntryWritable(node.0, node.1)
    && (EntryItemsOk(node.0, node.1); Writable(EncPack(EntryItems(node.0, node.1)), compress))
  }

  ghost predicate NodesWritable(nodes: seq<Ordered>, compress: bool)
  {
    forall i :: 0 <= i < |nodes| ==> NodeWritable(nodes[i], compress)
  }

  ghost function EncNode(node: Ordered, compress: bool): seq<byte>
    requires NodeWritable(node, compress)
  {
    EntryItemsOk(node.0, node.1);
    EncString(EncId(node.0.firstMsgId), compress) + EncString(EncPack(EntryItems(node.0, node.1)), compress)
  }

  ghost function EncNodes(nodes: seq<Ordered>, compress: bool): seq<byte>
    requires NodesWritable(nodes, compress)
  {
    if nodes == [] then [] else EncNode(nodes[0], compress) + EncNodes(nodes[1..], compress)
  }

  function PNode(s: seq<byte>): (p: Parsed<StreamEntry>)
  {
    var (header, t) :- PString(s);
    match PId(header)
    case None => Bad
    case Some(id) =>
      var (buf, u) :- PString(t);
      match PPack(buf, id)
      case None => Bad
      case Some(e) => Got(e, u)
  }

  function PNodes(s: seq<byte>, n: nat): (p: Parsed<seq<StreamEntry>>)
    decreases n
  {
    if n == 0 then Got([], s)
    else
      var (e, t) :- PNode(s);
      var (es, u) :- PNodes(t, n - 1);
      Got([e] + es, u)
  }

  /** readStreamEntries */
  function PStreamEntries(s: seq<byte>): (p: Parsed<seq<StreamEntry>>)
  {
    var (len, t) :- PLength(s);
    PNodes(t, len.value)
  }

  function Entries(nodes: seq<Ordered>): (r: seq<StreamEntry>)
    ensures |r| == |nodes| && forall i :: 0 <= i < |nodes| ==> r[i] == nodes[i].0
  {
    seq(|nodes|, i requires 0 <= i < |nodes| => nodes[i].0)
  }

  ghost predicate AllEntriesOk(nodes: seq<Ordered>)
  {
    forall i :: 0 <= i < |nodes| ==> EntryOk(nodes[i].0)
  }

  lemma NodeIff(node: Ordered, compress: bool, t: seq<byte>)
    requires NodeWritable(node, compress)
    ensures var p := PNode(EncNode(node, compress) + t);
            && (EntryOk(node.0) ==> p == Got(node.0, t))
            && (!EntryOk(node.0) ==> p.Got? ==> p.value != node.0)
  {
    hide EntryItems, EncPack, PPack, PId, EncId, EncString, PString, EntryWritable, EntryOk, LpWritable,
      AllLpWritable, Orders;
    NodeFacts(node);
    EntryItemsOk(node.0, node.1);
    var (id, pack) := (EncId(node.0.firstMsgId), EncPack(EntryItems(node.0, node.1)));
    Assoc(EncString(id, compress), EncString(pack, compress), t);
    RdbString.StringRoundTrip(id, compress, EncString(pack, compress) + t);
    RdbString.StringRoundTrip(pack, compress, t);
    IdRoundTrip(node.0.firstMsgId);
    PackIff(node.0, node.1);
  }

  lemma NodeFacts(node: Ordered)
    requires EntryWritable(node.0, node.1)
    ensures Orders(node.0.msgs, node.1) && node.0.firstMsgId.Is64()
  {
  }

  lemma {:induction false} NodesIff(nodes: seq<Ordered>, compress: bool, t: seq<byte>)
    requires NodesWritable(nodes, compress)
    ensures var p := PNodes(EncNodes(nodes, compress) + t, |nodes|);
            && (AllEntriesOk(nodes) ==> p == Got(Entries(nodes), t))
            && (!AllEntriesOk(nodes) ==> p.Got? ==> p.value != Entries(nodes))
  {
    hide NodeWritable, EncNode, PNode, EntryOk;
    if nodes == [] {
      assert EncNodes(nodes, compress) + t == t;
    } else {
      Assoc(EncNode(nodes[0], compress), EncNodes(nodes[1..], compress), t);
      NodeIff(nodes[0], compress, EncNodes(nodes[1..], compress) + t);
      NodesIff(nodes[1..], compress, t);
      assert Entries(nodes) == [nodes[0].0] + Entries(nodes[1..]);
      EntriesOkStep(nodes);
    }
  }

  lemma EntriesOkStep(nodes: seq<Ordered>)
    requires nodes != []
    ensures AllEntriesOk(nodes) <==> EntryOk(nodes[0].0) && AllEntriesOk(nodes[1..])
  {
    hide EntryOk;
    if EntryOk(nodes[0].0) && AllEntriesOk(nodes[1..]) {
      forall i | 0 <= i < |nodes| ensures EntryOk(nodes[i].0) {
        if i > 0 {
          assert nodes[i] == nodes[1..][i - 1];
        }
      }
    }
  }

  /** writeStreamEntries then readStreamEntries is the identity exactly on lists of nodes all of which
      satisfy EntryOk. */
  lemma StreamEntriesRoundTripIff(nodes: seq<Ordered>, compress: bool, t: seq<byte>)
    requires NodesWritable(nodes, compress) && |nodes| < TWO_64
    ensures (PStreamEntries(EncLength(|nodes|) + EncNodes(nodes, compress) + t) == Got(Entries(nodes), t))
            <==> AllEntriesOk(nodes)
  {
    hide EncLength, PLength, EncNodes, PNodes, AllEntriesOk, NodesWritable;
    Assoc(EncLength(|nodes|), EncNodes(nodes, compress), t);
    LengthRoundTrip(|nodes|, EncNodes(nodes, compress) + t);
    NodesIff(nodes, compress, t);
  }

  /** Written under the master entry's names, a message keeps the fields named there and no others. */
  lemma NamedFieldsKept(m: Fields, master: Values, order: Values, t: seq<byte>)
    requires Enumerates(order, m.Keys) && InMap(order, m) && ShortFields(m) && SameFields(m, master)
    ensures AllLpWritable(FieldItems(m, master, order))
    ensures PFields(Frames(FieldItems(m, master, order)) + t, true, master) == Got(ShownMap(master, m), t)
  {
    hide Frames, PAsInt, PSame, PNamed, ValueItems, PairItems, SameOver, ShownMap, ShortFields, LpWritable, IntItem;
    FieldItemsOk(m, master, order);
    SameDecode(master, m, map[], t);
    SameOverIs(master, m, map[]);
    assert map[] + ShownMap(master, m) == ShownMap(master, m);
  }

  /** A master entry that lists a name twice loses the second field of a message with two fields. */
  lemma RepeatedName(first: StreamId, t: seq<byte>)
    requires first.Is64()
    ensures var (a, b) := ([97], [98]);
            var msg := Message(first, map[a := [49], b := [50]], false);
            && MsgWritable(msg, [a, b]) && !MsgOk(msg, first, [a, a])
            && AllLpWritable(FieldItems(msg.fields, [a, a], [a, b]))
            && PFields(Frames(FieldItems(msg.fields, [a, a], [a, b])) + t, true, [a, a]) == Got(map[a := [49]], t)
  {
    hide Frames, PFields, FieldItems, LpWritable;
    var (a, b) := ([97], [98]);
    var m: Fields := map[a := [49], b := [50]];
    assert a != b by {
      assert a[0] != b[0];
    }
    assert m.Keys == {a, b} && |m| == 2;
    assert SameFields(m, [a, a]);
    assert b in m && b !in [a, a];
    NamedFieldsKept(m, [a, a], [a, b], t);
    assert ShownMap([a, a], m) == map[a := [49]];
  }
}
