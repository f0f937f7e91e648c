/**
 How far ziplist hashes survive. The original ranges over its map in an order of its own choosing, and
 where a long string puts the reader out of step it depends on that order whether the map comes back.
 Here is exactly which maps come back whatever the order.
 */
module ZipHashes {
  import opened Bytes
  import opened Parsing
  import opened ZipList
  import opened Lists
  import opened Hashes

  const MAX_PAIRS := 32767

  predicate ShortFields(m: Fields)
  {
    forall f :: f in m ==> |f| < TWO_32 && |m[f]| < TWO_32
  }

  predicate GoodPair(f: seq<byte>, m: Fields)
    requires f in m
  {
    ZipOk(f) && ZipOk(m[f])
  }

  /** Written in this order, the map is read back. */
  predicate ComesBack(order: Values, m: Fields)
  {
    InMap(order, m) && AllShort(Flatten(order, m)) && PZipHashBuf(EncZipList(Flatten(order, m))) == Some(m)
  }

  /** The map is read back in whatever order it is written. */
  ghost predicate AlwaysBack(m: Fields)
  {
    forall order :: Enumerates(order, m.Keys) ==> ComesBack(order, m)
  }

  /** The pair of f can be read, and beside it there is at most the empty field with an empty value. */
  ghost predicate AloneOk(f: seq<byte>, m: Fields)
  {
    f in m && ListOk([f, m[f]]) && forall g :: g in m ==> g == f || (g == [] && m[g] == [])
  }

  /** What a caller can check of a map: not too many pairs, and every string an integer or at most 16383
      bytes long, or else one readable pair that is as good as alone. */
  ghost predicate HashSafe(m: Fields)
  {
    |m| <= MAX_PAIRS && ((forall f :: f in m ==> GoodPair(f, m)) || exists f :: AloneOk(f, m))
  }

  // ----- the entries of an order

  lemma {:induction false} FlattenAt(order: Values, m: Fields, i: nat)
    requires InMap(order, m) && i < |order|
    ensures Flatten(order, m)[2 * i] == order[i] && Flatten(order, m)[2 * i + 1] == m[order[i]]
  {
    if i > 0 {
      FlattenAt(order[1..], m, i - 1);
    }
  }

  lemma {:induction false} FlattenShort(order: Values, m: Fields)
    requires InMap(order, m) && ShortFields(m)
    ensures AllShort(Flatten(order, m))
  {
    forall k | 0 <= k < 2 * |order| ensures |Flatten(order, m)[k]| < TWO_32 {
      FlattenAt(order, m, k / 2);
    }
  }

  lemma FlattenGood(order: Values, m: Fields)
    requires InMap(order, m) && ShortFields(m)
    requires forall i :: 0 <= i < |order| ==> GoodPair(order[i], m)
    ensures AllZipOk(Flatten(order, m))
  {
    hide ZipOk;
    FlattenShort(order, m);
    forall k | 0 <= k < 2 * |order| ensures ZipOk(Flatten(order, m)[k]) {
      FlattenAt(order, m, k / 2);
      assert GoodPair(order[k / 2], m);
    }
  }

  lemma {:induction false} FlattenJoin(a: Values, b: Values, m: Fields)
    requires InMap(a, m) && InMap(b, m)
    ensures InMap(a + b, m) && Flatten(a + b, m) == Flatten(a, m) + Flatten(b, m)
  {
    if a == [] {
      assert a + b == b;
    } else {
      FlattenJoin(a[1..], b, m);
      assert a + b == [a[0]] + (a[1..] + b) && (a + b)[1..] == a[1..] + b;
      PairFirst(a[0], m[a[0]], Flatten(a[1..], m), Flatten(b, m));
    }
  }

  lemma PairFirst(f: seq<byte>, v: seq<byte>, a: Values, b: Values)
    ensures ([f, v] + a) + b == [f, v] + (a + b)
  {
  }

  /** One of the orders of a set of fields. */
  ghost function Listing(keys: set<seq<byte>>): (r: Values)
    ensures Enumerates(r, keys)
  {
    if keys == {} then []
    else
      var f :| f in keys;
      [f] + Listing(keys - {f})
  }

  lemma EnumeratesJoin(a: Values, left: set<seq<byte>>, b: Values, right: set<seq<byte>>)
    requires Enumerates(a, left) && Enumerates(b, right) && left !! right
    ensures Enumerates(a + b, left + right)
  {
    assert |left + right| == |left| + |right|;
  }

  lemma EnumeratesOne(f: seq<byte>)
    ensures Enumerates([f], {f})
  {
  }

  lemma OrderInMap(order: Values, keys: set<seq<byte>>, m: Fields)
    requires Enumerates(order, keys) && keys <= m.Keys
    ensures InMap(order, m)
  {
    forall i | 0 <= i < |order| ensures order[i] in m {
      assert order[i] in order;
    }
  }

  // ----- pairing up entries

  lemma {:induction false} FieldsSize(entries: Values, m: Fields)
    ensures |FieldsOf(entries, m)| <= |m| + |entries| / 2
    decreases |entries|
  {
    if |entries| >= 2 {
      FieldsSize(entries[2..], m[entries[0] := entries[1]]);
      OneMore(m, entries[0], entries[1]);
    }
  }

  lemma OneMore(m: Fields, f: seq<byte>, v: seq<byte>)
    ensures |m[f := v]| == |m| + if f in m then 0 else 1
  {
    assert m[f := v].Keys == m.Keys + {f};
    assert |m| == |m.Keys| && |m[f := v]| == |m[f := v].Keys|;
  }

  /** So many entries as it takes to make a map of this size: none may repeat a field. */
  ghost predicate Fills(entries: Values, acc: Fields, m: Fields)
  {
    FieldsOf(entries, acc) == m && |m| == |acc| + |entries| / 2
  }

  lemma FillsStep(entries: Values, acc: Fields, m: Fields)
    requires Fills(entries, acc, m) && |entries| >= 2
    ensures entries[0] !in acc && Fills(entries[2..], acc[entries[0] := entries[1]], m)
  {
    var acc' := acc[entries[0] := entries[1]];
    OneMore(acc, entries[0], entries[1]);
    FieldsSize(entries[2..], acc');
  }

  lemma {:induction false} FillsKeeps(entries: Values, acc: Fields, m: Fields, f: seq<byte>)
    requires Fills(entries, acc, m) && f in acc
    ensures f in m && m[f] == acc[f]
    decreases |entries|
  {
    if |entries| >= 2 {
      FillsStep(entries, acc, m);
      FillsKeeps(entries[2..], acc[entries[0] := entries[1]], m, f);
    }
  }

  /** The pair at the front is a new field with its own value. */
  lemma FillsHead(entries: Values, acc: Fields, m: Fields)
    requires Fills(entries, acc, m) && |entries| >= 2
    ensures entries[0] !in acc && entries[0] in m && m[entries[0]] == entries[1]
    ensures Fills(entries[2..], acc[entries[0] := entries[1]], m)
  {
    hide Fills;
    FillsStep(entries, acc, m);
    FillsKeeps(entries[2..], acc[entries[0] := entries[1]], m, entries[0]);
  }

  lemma {:induction false} FieldsPrefix(order: Values, m: Fields, rest: Values, acc: Fields)
    requires InMap(order, m)
    ensures FieldsOf(Flatten(order, m) + rest, acc) == FieldsOf(rest, acc + Restrict(m, order))
    decreases |order|
  {
    hide FieldsOf, Restrict;
    RestrictStep(m, order, acc);
    if order == [] {
      assert Flatten(order, m) + rest == rest;
    } else {
      var f := order[0];
      FlattenStep(order, m);
      assert Flatten(order, m) + rest == [f] + ([m[f]] + (Flatten(order[1..], m) + rest));
      PairUp(f, m[f], Flatten(order[1..], m) + rest, acc);
      FieldsPrefix(order[1..], m, rest, acc[f := m[f]]);
    }
  }

  // ----- how many pairs

  /** More than 32767 pairs never come back, whatever their strings. */
  lemma TooManyPairs(order: Values, m: Fields)
    requires Enumerates(order, m.Keys) && InMap(order, m) && AllShort(Flatten(order, m)) && |order| > MAX_PAIRS
    ensures PZipHashBuf(EncZipList(Flatten(order, m))) != Some(m)
  {
    hide PZipHashBuf, EncZipList, PEntries, Body, FieldsOf, Flatten, AllShort, InMap;
    ZipHashRead(order, m);
    var p := PEntries(Body(Flatten(order, m), 0) + [0xff], 2 * (|order| % 32768));
    if p.Got? {
      FieldsSize(p.value, map[]);
    }
  }

  /** Where every string is an integer or short enough, the count alone decides. */
  lemma ZipHashCountIff(order: Values, m: Fields)
    requires Enumerates(order, m.Keys) && InMap(order, m) && AllZipOk(Flatten(order, m))
    ensures (PZipHashBuf(EncZipList(Flatten(order, m))) == Some(m)) <==> |order| <= MAX_PAIRS
  {
    hide PZipHashBuf, EncZipList, Flatten, ZipOk, AllShort, InMap;
    if |order| <= MAX_PAIRS {
      assert ZipHashOk(order, m);
      ZipHashBufRoundTrip(order, m);
    } else {
      TooManyPairs(order, m);
    }
  }

  // ----- safe maps come back

  lemma SafeOk(order: Values, m: Fields)
    requires Enumerates(order, m.Keys) && ShortFields(m) && HashSafe(m)
    ensures ZipHashOk(order, m)
  {
    hide ListOk, AllZipOk, AllShort, ZipOk, Flatten;
    OrderInMap(order, m.Keys, m);
    FlattenShort(order, m);
    if forall f :: f in m ==> GoodPair(f, m) {
      FlattenGood(order, m);
      GoodList(Flatten(order, m));
    } else {
      var f :| AloneOk(f, m);
      AloneList(order, m, f);
    }
  }

  lemma GoodList(values: Values)
    requires AllZipOk(values)
    ensures ListOk(values)
  {
  }

  lemma AloneList(order: Values, m: Fields, f: seq<byte>)
    requires Enumerates(order, m.Keys) && InMap(order, m) && AloneOk(f, m)
    ensures ListOk(Flatten(order, m))
  {
    hide ListOk;
    AloneOrder(order, m, f);
    if order == [f] {
      assert Flatten(order, m) == [f, m[f]];
    } else {
      assert order[1..][1..] == [];
      assert Flatten(order, m) == [order[0], m[order[0]], order[1], m[order[1]]];
      BesideEmpty(f, m[f]);
    }
  }

  lemma AloneOrder(order: Values, m: Fields, f: seq<byte>)
    requires Enumerates(order, m.Keys) && AloneOk(f, m)
    ensures order == [f] || (m.Keys == {f, []} && m[[]] == [] && (order == [f, []] || order == [[], f]))
  {
    hide ListOk;
    assert |m.Keys| == |order|;
    if [] in m && f != [] {
      assert m.Keys == {f, []};
      assert order[0] in order && order[1] in order && f in order && [] in order;
    } else {
      assert m.Keys == {f};
      assert order[0] in order;
    }
  }

  lemma BesideEmpty(f: seq<byte>, v: seq<byte>)
    requires ListOk([f, v])
    ensures ListOk([f, v, [], []]) && ListOk([[], [], f, v])
  {
    hide ZeroRun;
    EmptyOk();
    assert [f, v][1..] == [v] && [v][1..] == [];
    forall i | 0 <= i < 4
      ensures var s := [f, v, [], []]; ZipOk(s[i]) || (ZeroRun(s[i]) && AllEmpty(s[i + 1..]))
    {
      var s := [f, v, [], []];
      assert s[1..] == [v, [], []] && s[2..] == [[], []];
      assert [f, v][0] == f && [f, v][1] == v;
      if i == 0 && AllEmpty([v]) {
        assert [v][0] == [];
      }
    }
    forall i | 0 <= i < 4
      ensures var s := [[], [], f, v]; ZipOk(s[i]) || (ZeroRun(s[i]) && AllEmpty(s[i + 1..]))
    {
      var s := [[], [], f, v];
      assert s[3..] == [v] && s[4..] == [];
      assert [f, v][0] == f && [f, v][1] == v;
    }
  }

  // ----- reading past the good pairs

  /** The back link that follows the entries. */
  function LinkAfter(values: Values, prevLen: nat): nat
    requires AllShort(values)
    decreases |values|
  {
    if values == [] then prevLen else LinkAfter(values[1..], |EncEntry(prevLen, values[0])| % TWO_32)
  }

  lemma ShortJoin(a: Values, b: Values)
    requires AllShort(a) && AllShort(b)
    ensures AllShort(a + b)
  {
  }

  lemma EntriesStep(s: seq<byte>, n: nat)
    requires PEntry(s).Got?
    ensures var q := PEntries(PEntry(s).rest, n);
            if q.Got? then PEntries(s, n + 1).Got? && PEntries(s, n + 1).value == [PEntry(s).value] + q.value
            else PEntries(s, n + 1).Bad?
  {
    hide PEntry;
  }

  lemma {:induction false} GoodPrefix(a: Values, b: Values, prevLen: nat, t: seq<byte>, n: nat)
    requires AllZipOk(a) && AllShort(b) && AllShort(a + b)
    ensures var p := PEntries(Body(a + b, prevLen) + t, |a| + n);
            var q := PEntries(Body(b, LinkAfter(a, prevLen)) + t, n);
            p.Got? == q.Got? && (q.Got? ==> p.value == a + q.value)
    decreases |a|
  {
    hide PEntry, PEntries, EncEntry, ZipOk;
    if a == [] {
      assert a + b == b;
    } else {
      var e := EncEntry(prevLen, a[0]);
      assert (a + b)[1..] == a[1..] + b;
      var rest := Body(a[1..] + b, |e| % TWO_32);
      GoodPrefix(a[1..], b, |e| % TWO_32, t, n);
      Assoc(e, rest, t);
      EntryRoundTripIff(prevLen, a[0], rest + t);
      EntriesStep(e + (rest + t), |a| - 1 + n);
    }
  }

  /** What is read of an order that comes back. */
  lemma AllRead(order: Values, m: Fields)
    requires ComesBack(order, m) && |order| <= MAX_PAIRS
    ensures var p := PEntries(Body(Flatten(order, m), 0) + [0xff], 2 * |order|); p.Got? && FieldsOf(p.value, map[]) == m
  {
    hide PZipHashBuf, EncZipList, PEntries, Body, FieldsOf, Flatten, AllShort, InMap;
    ZipHashRead(order, m);
  }

  /** What is read behind the good pairs fills the map up. */
  lemma AfterGoods(goods: Values, left: set<seq<byte>>, order: Values, m: Fields)
    requires Enumerates(goods, left) && InMap(goods, m) && AllZipOk(Flatten(goods, m))
    requires InMap(order, m) && AllShort(Flatten(order, m)) && |goods + order| <= MAX_PAIRS
    requires ComesBack(goods + order, m) && |m| == |goods + order|
    ensures var p := PEntries(Body(Flatten(order, m), LinkAfter(Flatten(goods, m), 0)) + [0xff], 2 * |order|);
            p.Got? && Fills(p.value, Restrict(m, goods), m)
  {
    hide PZipHashBuf, EncZipList, PEntries, Body, FieldsOf, Flatten, AllShort, ZipOk, LinkAfter, InMap, Enumerates,
      Restrict, AllZipOk;
    AllRead(goods + order, m);
    FlattenJoin(goods, order, m);
    GoodShort(Flatten(goods, m));
    ShortJoin(Flatten(goods, m), Flatten(order, m));
    GoodPrefix(Flatten(goods, m), Flatten(order, m), 0, [0xff], 2 * |order|);
    var prevLen := LinkAfter(Flatten(goods, m), 0);
    FieldsPrefix(goods, m, PEntries(Body(Flatten(order, m), prevLen) + [0xff], 2 * |order|).value, map[]);
    RestrictSize(goods, left, m);
    FromNothing(Restrict(m, goods));
  }

  lemma GoodShort(values: Values)
    requires AllZipOk(values)
    ensures AllShort(values)
  {
  }

  lemma FromNothing(m: Fields)
    ensures map[] + m == m
  {
  }

  lemma RestrictSize(goods: Values, left: set<seq<byte>>, m: Fields)
    requires Enumerates(goods, left) && InMap(goods, m)
    ensures |Restrict(m, goods)| == |goods|
  {
    assert Restrict(m, goods).Keys == left;
    assert |Restrict(m, goods)| == |Restrict(m, goods).Keys|;
  }

  // ----- a run behind which everything is empty

  /** How a list is read on from its first value, if that comes out right. */
  lemma ReadFirst(val: seq<byte>, values: Values, prevLen: nat, t: seq<byte>, n: nat)
    requires |val| < TWO_32 && AllShort(values) && AllShort([val] + values)
    requires var p := PEntries(Body([val] + values, prevLen) + t, n + 1);
             p.Got? && (ZipOk(val) || ZeroRun(val) || p.value[0] == val)
    ensures var p := PEntries(Body([val] + values, prevLen) + t, n + 1);
            var s := Body(values, |EncEntry(prevLen, val)| % TWO_32) + t;
            var q := PEntries(if ZipOk(val) then s else FOUR_ZEROS + s, n);
            (ZipOk(val) || ZeroRun(val)) && q.Got? && p.value == [val] + q.value
  {
    hide PEntry, EncEntry, ZipOk, ZeroRun;
    var e := EncEntry(prevLen, val);
    assert ([val] + values)[1..] == values;
    var rest := Body(values, |e| % TWO_32);
    Assoc(e, rest, t);
    FirstRead(prevLen, val, rest + t);
    EntriesStep(e + (rest + t), n);
  }

  /** An empty first value always comes out right. */
  lemma ReadEmpty(values: Values, prevLen: nat, t: seq<byte>, n: nat)
    requires values != [] && values[0] == [] && AllShort(values)
    requires PEntries(Body(values, prevLen) + t, n + 1).Got?
    ensures var p := PEntries(Body(values, prevLen) + t, n + 1);
            var q := PEntries(Body(values[1..], |EncEntry(prevLen, [])| % TWO_32) + t, n);
            q.Got? && p.value == [[]] + q.value
  {
    hide PEntry, EncEntry, ZipOk, ZeroRun;
    var e := EncEntry(prevLen, []);
    var rest := Body(values[1..], |e| % TWO_32);
    Assoc(e, rest, t);
    EmptyOk();
    FirstRead(prevLen, [], rest + t);
    EntriesStep(e + (rest + t), n);
  }

  lemma NotTwice(entries: Values, acc: Fields, m: Fields)
    requires Fills(entries, acc, m) && |entries| >= 4
    ensures entries[0] != entries[2]
  {
    hide Fills;
    FillsHead(entries, acc, m);
    FillsHead(entries[2..], acc[entries[0] := entries[1]], m);
  }

  /** The order begins with f, then has the empty field if there is one. */
  predicate RunOrder(f: seq<byte>, rest: Values, m: Fields)
  {
    && ShortFields(m) && ComesBack([f] + rest, m) && f in m && InMap(rest, m) && |m| == 1 + |rest| <= MAX_PAIRS
    && ([] in m && f != [] && rest != [] ==> rest[0] == [])
  }

  /** What the run leaves room for. */
  predicate RunResult(f: seq<byte>, rest: Values, m: Fields)
    requires f in m
  {
    && ListOk([f, m[f]]) && |rest| <= 1
    && (|rest| == 1 ==> rest[0] == [] && [] in m && m[[]] == [])
  }

  lemma OrderRead(f: seq<byte>, rest: Values, m: Fields) returns (entries: Values)
    requires RunOrder(f, rest, m)
    ensures AllShort(Flatten(rest, m)) && AllShort([m[f]] + Flatten(rest, m))
    ensures AllShort([f] + ([m[f]] + Flatten(rest, m)))
    ensures var p := PEntries(Body([f] + ([m[f]] + Flatten(rest, m)), 0) + [0xff], 2 * |m|);
            p.Got? && p.value == entries
    ensures |entries| == 2 * |m| && Fills(entries, map[], m)
    ensures entries[0] in m && m[entries[0]] == entries[1]
  {
    hide PEntries, Body, FieldsOf, ComesBack;
    AllRead([f] + rest, m);
    FlattenShort(rest, m);
    FlattenStep([f] + rest, m);
    assert ([f] + rest)[1..] == rest;
    entries := PEntries(Body(Flatten([f] + rest, m), 0) + [0xff], 2 * |m|).value;
    FillsHead(entries, map[], m);
  }

  lemma RunPair(f: seq<byte>, v: seq<byte>)
    requires (ZipOk(f) && (ZipOk(v) || ZeroRun(v))) || (ZeroRun(f) && v == [])
    ensures ListOk([f, v])
  {
    hide ZipOk, ZeroRun;
    EmptyOk();
    assert [f, v][1..] == [v] && [f, v][2..] == [];
  }

  lemma RunBehindKey(f: seq<byte>, rest: Values, m: Fields)
    requires RunOrder(f, rest, m) && ZipOk(f) && !ZipOk(m[f])
    ensures RunResult(f, rest, m)
  {
    hide PEntries, Body, EncEntry, ZipOk, ZeroRun, ListOk, Fills, Flatten, ComesBack, AllShort;
    var v, flat, n := m[f], Flatten(rest, m), |m|;
    var entries := OrderRead(f, rest, m);
    ReadFirst(f, [v] + flat, 0, [0xff], 2 * n - 1);
    var prevLen := |EncEntry(0, f)| % TWO_32;
    ReadFirst(v, flat, prevLen, [0xff], 2 * n - 2);
    RunPair(f, v);
    prevLen := |EncEntry(prevLen, v)| % TWO_32;
    if rest != [] {
      var behind := PEntries(FOUR_ZEROS + (Body(flat, prevLen) + [0xff]), 2 * n - 2).value;
      assert entries[2..] == behind;
      FourZerosRead(Body(flat, prevLen) + [0xff], 2 * n - 2);
      FillsHead(entries, map[], m);
      FillsHead(behind, map[f := v], m);
      FlattenAt(rest, m, 0);
      if |rest| > 1 {
        ReadEmpty(flat, prevLen, [0xff], 2 * n - 5);
        NotTwice(behind, map[f := v], m);
      }
    }
  }

  lemma RunInKey(f: seq<byte>, rest: Values, m: Fields)
    requires RunOrder(f, rest, m) && !ZipOk(f) && ZeroRun(f)
    ensures RunResult(f, rest, m)
  {
    hide PEntries, Body, EncEntry, ZipOk, ZeroRun, ListOk, Fills, Flatten, ComesBack, AllShort;
    var v, flat, n := m[f], Flatten(rest, m), |m|;
    var entries := OrderRead(f, rest, m);
    EmptyOk();
    ReadFirst(f, [v] + flat, 0, [0xff], 2 * n - 1);
    var prevLen := |EncEntry(0, f)| % TWO_32;
    FourZerosRead(Body([v] + flat, prevLen) + [0xff], 2 * n - 1);
    RunPair(f, v);
    if rest != [] {
      ReadEmpty([v] + flat, prevLen, [0xff], 2 * n - 4);
      assert ([v] + flat)[1..] == flat;
      prevLen := |EncEntry(prevLen, [])| % TWO_32;
      FillsHead(entries, map[], m);
      FillsHead(entries[2..], map[f := v], m);
      FlattenAt(rest, m, 0);
      if |rest| > 1 {
        ReadEmpty(flat, prevLen, [0xff], 2 * n - 5);
        NotTwice(entries[2..], map[f := v], m);
      }
    }
  }

  /** A pair the reader gets over puts all others out of step: at most the empty one may be there. */
  lemma RunAlone(f: seq<byte>, m: Fields)
    requires ShortFields(m) && AlwaysBack(m) && |m| <= MAX_PAIRS
    requires f in m && !GoodPair(f, m) && (ZipOk(f) || ZeroRun(f))
    ensures AloneOk(f, m)
  {
    hide ZipOk, ZeroRun, ListOk, ComesBack;
    var rest := RestOf(f, m);
    assert ComesBack([f] + rest, m);
    if ZipOk(f) {
      RunBehindKey(f, rest, m);
    } else {
      RunInKey(f, rest, m);
    }
    forall g | g in m ensures g == f || (g == [] && m[g] == []) {
      assert g in [f] + rest;
    }
  }

  /** The other fields, the empty one first. */
  lemma RestOf(f: seq<byte>, m: Fields) returns (rest: Values)
    requires f in m
    ensures Enumerates([f] + rest, m.Keys) && InMap(rest, m) && |m| == 1 + |rest|
    ensures [] in m && f != [] ==> rest != [] && rest[0] == []
  {
    hide Enumerates, InMap;
    var others := m.Keys - {f};
    if [] in others {
      rest := [[]] + Listing(others - {[]});
      WithFirst([], Listing(others - {[]}), others);
    } else {
      rest := Listing(others);
    }
    OrderInMap(rest, others, m);
    WithFirst(f, rest, m.Keys);
  }

  lemma WithFirst(f: seq<byte>, rest: Values, keys: set<seq<byte>>)
    requires f in keys && Enumerates(rest, keys - {f})
    ensures Enumerates([f] + rest, keys) && |keys| == 1 + |rest|
  {
    EnumeratesOne(f);
    EnumeratesJoin([f], {f}, rest, keys - {f});
    assert {f} + (keys - {f}) == keys;
  }

  // ----- long fields that are not zero runs

  /** The length the reader makes of a long string's length. */
  function MisreadLength(n: nat): nat
  {
    UnBE(LE(n, 4))
  }

  lemma Mirror(v: nat, i: nat)
    requires i < 4
    ensures LE(v, 4)[i] == BE(v, 4)[3 - i]
  {
    var a, b, c := v / 256, v / 256 / 256, v / 256 / 256 / 256;
    assert LE(v, 4) == [v % 256] + ([a % 256] + ([b % 256] + ([c % 256] + LE(c / 256, 0))));
    assert BE(v, 4) == (((BE(c / 256, 0) + [c % 256]) + [b % 256]) + [a % 256]) + [v % 256];
  }

  /** Misreading a length twice gives it back. */
  lemma MisreadTwice(n: nat)
    requires n < TWO_32
    ensures MisreadLength(n) < TWO_32 && MisreadLength(MisreadLength(n)) == n
  {
    hide LE, BE, UnBE;
    Pow256Values();
    var v := MisreadLength(n);
    UnBEBound(LE(n, 4));
    BEUnBE(LE(n, 4));
    forall i | 0 <= i < 4 ensures LE(v, 4)[i] == BE(n, 4)[i] {
      Mirror(v, i);
      Mirror(n, 3 - i);
    }
    assert LE(v, 4) == BE(n, 4);
    UnsignedRoundTrip(n, 4);
  }

  /** Neither read right nor over: the reader takes another length, from four bytes too early. */
  predicate Stray(f: seq<byte>)
  {
    MAX_STRING < |f| < TWO_32 && !ZipOk(f) && !ZeroRun(f)
  }

  ghost predicate OnlyStray(m: Fields)
  {
    forall f :: f in m ==> GoodPair(f, m) || Stray(f)
  }

  lemma StrayRead(f: seq<byte>, prevLen: nat, t: seq<byte>, n: nat)
    requires Stray(f) && PEntries(EncEntry(prevLen, f) + t, n + 1).Got?
    ensures var p := PEntries(EncEntry(prevLen, f) + t, n + 1);
            var u, k := FOUR_ZEROS + (f + t), MisreadLength(|f|);
            k <= |u| && PEntries(u[k..], n).Got? && p.value == [u[..k]] + PEntries(u[k..], n).value
  {
    hide PContent, EncPrevLen, PPrevLen, EncStrHeader, PEntries, LE, UnBE;
    Assoc(EncPrevLen(prevLen), EncContent(f), t);
    PrevLenSkips(prevLen, EncContent(f) + t);
    LongStrRead(f, t);
    if PEntry(EncEntry(prevLen, f) + t).Got? {
      EntriesStep(EncEntry(prevLen, f) + t, n);
    } else {
      BadEntry(EncEntry(prevLen, f) + t, n);
    }
  }

  lemma BadEntry(s: seq<byte>, n: nat)
    requires PEntry(s).Bad?
    ensures PEntries(s, n + 1).Bad?
  {
  }

  /** An order with the good pairs first, then f. */
  lemma StrayOrder(m: Fields, f: seq<byte>) returns (good: set<seq<byte>>, goods: Values, others: Values)
    requires ShortFields(m) && f in m && Stray(f)
    ensures Enumerates(goods + ([f] + others), m.Keys) && Enumerates(goods, good)
    ensures InMap(goods, m) && InMap(others, m) && |m| == |goods + ([f] + others)|
    ensures forall g :: g in good <==> g in m && GoodPair(g, m)
    ensures forall g :: g in m && g !in good && g != f ==> g in others
    ensures AllZipOk(Flatten(goods, m))
  {
    hide ZipOk, ZeroRun, InMap, AllZipOk, Flatten;
    good := set g | g in m && GoodPair(g, m);
    goods, others := Listing(good), Listing(m.Keys - good - {f});
    OrderInMap(goods, good, m);
    OrderInMap(others, m.Keys - good - {f}, m);
    WithFirst(f, others, m.Keys - good);
    EnumeratesJoin(goods, good, [f] + others, m.Keys - good);
    assert good + (m.Keys - good) == m.Keys;
    AllGood(goods, good, m);
    FlattenGood(goods, m);
  }

  lemma AllGood(goods: Values, good: set<seq<byte>>, m: Fields)
    requires Enumerates(goods, good) && forall g :: g in good <==> g in m && GoodPair(g, m)
    requires InMap(goods, m)
    ensures forall i :: 0 <= i < |goods| ==> GoodPair(goods[i], m)
  {
    hide GoodPair;
    forall i | 0 <= i < |goods| ensures GoodPair(goods[i], m) {
      assert goods[i] in goods;
    }
  }

  /** What is read for a stray field is never that field. */
  lemma NeverItself(f: seq<byte>, t: seq<byte>)
    requires Stray(f) && MisreadLength(|f|) <= |FOUR_ZEROS + (f + t)|
    ensures (FOUR_ZEROS + (f + t))[..MisreadLength(|f|)] != f
  {
    hide LE, BE, UnBE, ZipOk;
    var u, k := FOUR_ZEROS + (f + t), MisreadLength(|f|);
    if u[..k] == f {
      LengthMirrored(|f|);
      forall i | 0 <= i < |f| ensures f[i] == 0 {
        ZerosEcho(f, t, i);
      }
      assert false;
    }
  }

  /** What is read behind the good pairs when f comes next. */
  lemma StrayFirst(m: Fields, f: seq<byte>, good: set<seq<byte>>, goods: Values, others: Values)
    returns (entries: Values, t: seq<byte>)
    requires ShortFields(m) && |m| <= MAX_PAIRS && f in m && Stray(f)
    requires ComesBack(goods + ([f] + others), m) && Enumerates(goods, good) && |m| == |goods + ([f] + others)|
    requires InMap(goods, m) && InMap(others, m) && AllZipOk(Flatten(goods, m))
    ensures Fills(entries, Restrict(m, goods), m) && |entries| == 2 + 2 * |others|
    ensures var u, k := FOUR_ZEROS + (f + t), MisreadLength(|f|);
            && k <= |u| && PEntries(u[k..], 1 + 2 * |others|).Got?
            && entries == [u[..k]] + PEntries(u[k..], 1 + 2 * |others|).value
  {
    hide Body, EncEntry, ZipOk, ZeroRun, Fills, Flatten, ComesBack, AllShort, AllZipOk, LinkAfter, Restrict, PEntries,
      UnBE, LE, Enumerates;
    var order := [f] + others;
    assert order[1..] == others;
    FlattenShort(order, m);
    AfterGoods(goods, good, order, m);
    GoodShort(Flatten(goods, m));
    var prevLen := LinkAfter(Flatten(goods, m), 0);
    FlattenStep(order, m);
    t := BodyFirst(Flatten(order, m), prevLen, [0xff]);
    entries := PEntries(Body(Flatten(order, m), prevLen) + [0xff], 2 * |order|).value;
    StrayRead(f, prevLen, t, 1 + 2 * |others|);
  }

  lemma BodyFirst(values: Values, prevLen: nat, t: seq<byte>) returns (rest: seq<byte>)
    requires AllShort(values) && values != []
    ensures Body(values, prevLen) + t == EncEntry(prevLen, values[0]) + rest
  {
    hide EncEntry;
    var e := EncEntry(prevLen, values[0]);
    rest := Body(values[1..], |e| % TWO_32) + t;
    Assoc(e, Body(values[1..], |e| % TWO_32), t);
  }

  /** Where every order comes back, each stray field is read as another one, of the misread length. */
  lemma Partner(m: Fields, f: seq<byte>) returns (h: seq<byte>, t: seq<byte>)
    requires ShortFields(m) && AlwaysBack(m) && |m| <= MAX_PAIRS && OnlyStray(m) && f in m && Stray(f)
    ensures h in m && Stray(h) && |h| == MisreadLength(|f|) <= |FOUR_ZEROS + (f + t)|
    ensures h == (FOUR_ZEROS + (f + t))[..|h|]
    ensures !(FOUR_ZEROS <= (FOUR_ZEROS + (f + t))[|h|..])
  {
    hide Body, ZipOk, ZeroRun, Fills, ComesBack, Flatten, AllZipOk, PEntries, UnBE, LE, Enumerates;
    var good, goods, others := StrayOrder(m, f);
    var entries: Values;
    entries, t := StrayFirst(m, f, good, goods, others);
    h := entries[0];
    NeverItself(f, t);
    var acc := Restrict(m, goods);
    FillsHead(entries, acc, m);
    NotGood(h, m, good, goods);
    assert h in others;
    var u := FOUR_ZEROS + (f + t);
    if FOUR_ZEROS <= u[|h|..] {
      assert u[|h|..] == FOUR_ZEROS + u[|h|..][4..];
      FourZerosRead(u[|h|..][4..], 1 + 2 * |others|);
      assert entries[2] == [];
      FillsHead(entries[2..], acc[h := entries[1]], m);
      NotGood([], m, good, goods);
      assert false;
    }
  }

  lemma NotGood(h: seq<byte>, m: Fields, good: set<seq<byte>>, goods: Values)
    requires h in m && InMap(goods, m) && h !in Restrict(m, goods) && OnlyStray(m)
    requires Enumerates(goods, good) && forall g :: g in good <==> g in m && GoodPair(g, m)
    ensures h !in good && Stray(h)
  {
    hide ZipOk, ZeroRun;
  }

  predicate ZerosTo(f: seq<byte>, k: nat)
  {
    k <= |f| && forall i :: 0 <= i < k ==> f[i] == 0
  }

  /** The partner starts with four zeros, and then with those of the field. */
  lemma ZerosGrow(f: seq<byte>, t: seq<byte>, h: seq<byte>, k: nat)
    requires ZerosTo(f, k) && |h| <= |FOUR_ZEROS + (f + t)| && h == (FOUR_ZEROS + (f + t))[..|h|]
    ensures ZerosTo(h, if |h| < k + 4 then |h| else k + 4)
  {
    var u := FOUR_ZEROS + (f + t);
    forall i | 0 <= i < |h| && i < k + 4 ensures h[i] == 0 {
      assert h[i] == u[i];
      if i >= 4 {
        assert u[i] == (f + t)[i - 4] == f[i - 4];
      }
    }
  }

  /** From partner to partner the zeros in front grow, until one is a zero run or zeros are left behind it. */
  lemma {:induction false} Climb(m: Fields, f: seq<byte>, k: nat)
    requires ShortFields(m) && AlwaysBack(m) && |m| <= MAX_PAIRS && OnlyStray(m) && f in m && Stray(f)
    requires MisreadLength(|f|) <= |f| && ZerosTo(f, k)
    ensures false
    decreases |f| - k
  {
    hide ZipOk, ShortFields, AlwaysBack, OnlyStray, MisreadLength;
    var h, t := Partner(m, f);
    MisreadTwice(|f|);
    ZerosGrow(f, t, h, k);
    if k < |h| {
      var f', t' := Partner(m, h);
      var k' := if |h| < k + 4 then |h| else k + 4;
      ZerosGrow(h, t', f', k');
      Climb(m, f', k');
    } else if |h| == |f| {
      Mirrored(h);
    } else {
      ZerosLeft(f, t, |h|, k);
    }
  }

  lemma Mirrored(h: seq<byte>)
    requires |h| < TWO_32 && MisreadLength(|h|) == |h| && ZerosTo(h, |h|)
    ensures ZeroRun(h)
  {
    hide LE, BE, UnBE, ZipOk;
    LengthMirrored(|h|);
  }

  lemma ZerosLeft(f: seq<byte>, t: seq<byte>, n: nat, k: nat)
    requires 4 <= n <= k && n < |f| && ZerosTo(f, k)
    ensures FOUR_ZEROS <= (FOUR_ZEROS + (f + t))[n..]
  {
    var u := FOUR_ZEROS + (f + t);
    assert forall i :: 0 <= i < 4 ==> u[n..][i] == u[n + i] == (f + t)[n - 4 + i] == f[n - 4 + i];
  }

  lemma NotOnlyStray(m: Fields, f: seq<byte>)
    requires ShortFields(m) && AlwaysBack(m) && |m| <= MAX_PAIRS && OnlyStray(m) && f in m && Stray(f)
    ensures false
  {
    hide ZipOk, ZeroRun, ShortFields, AlwaysBack, OnlyStray, MisreadLength;
    MisreadTwice(|f|);
    if MisreadLength(|f|) <= |f| {
      Climb(m, f, 0);
    } else {
      var h, t := Partner(m, f);
      Climb(m, h, 0);
    }
  }

  lemma AlwaysBackSafe(m: Fields)
    requires ShortFields(m) && AlwaysBack(m)
    ensures HashSafe(m)
  {
    hide ZipOk, ZeroRun, ShortFields, ListOk, ComesBack, Enumerates;
    NotTooMany(m);
    if f :| f in m && !GoodPair(f, m) && (ZipOk(f) || ZeroRun(f)) {
      RunAlone(f, m);
    } else if f :| f in m && !GoodPair(f, m) {
      StrayAll(m);
      NotOnlyStray(m, f);
    }
  }

  lemma NotTooMany(m: Fields)
    requires AlwaysBack(m)
    ensures |m| <= MAX_PAIRS
  {
    hide AllShort, Flatten;
    var order := Listing(m.Keys);
    assert ComesBack(order, m);
    if |m| > MAX_PAIRS {
      TooManyPairs(order, m);
    }
  }

  lemma StrayAll(m: Fields)
    requires ShortFields(m) && forall f :: f in m ==> GoodPair(f, m) || !(ZipOk(f) || ZeroRun(f))
    ensures OnlyStray(m)
  {
    hide ZeroRun;
  }

  /** A hash written as a ziplist is read back in every order of its fields exactly when it has at most
      32767 pairs and either all its strings are integers or at most 16383 bytes long, or the one pair
      that is not can be read and has at most the empty field with an empty value beside it. */
  lemma EveryOrderIff(m: Fields)
    requires ShortFields(m)
    ensures AlwaysBack(m) <==> HashSafe(m)
  {
    hide ShortFields, HashSafe, PZipHashBuf, EncZipList, Flatten, ListOk, AllShort;
    if AlwaysBack(m) {
      AlwaysBackSafe(m);
    }
    if HashSafe(m) {
      forall order | Enumerates(order, m.Keys) ensures ComesBack(order, m) {
        SafeOk(order, m);
        ZipHashBufRoundTrip(order, m);
      }
    }
  }

  /** A map with a stray field, whatever else is in it, comes to grief in some order. */
  lemma NoStray(m: Fields, f: seq<byte>)
    requires ShortFields(m) && f in m && Stray(f)
    ensures exists order :: Enumerates(order, m.Keys) && !ComesBack(order, m)
  {
    hide ZipOk, ZeroRun, ShortFields, ComesBack, Enumerates;
    EveryOrderIff(m);
    forall h ensures !AloneOk(h, m) {
      if h == f {
        StrayUnread(f, m[f]);
      }
    }
  }

  lemma StrayUnread(f: seq<byte>, v: seq<byte>)
    requires Stray(f)
    ensures !ListOk([f, v])
  {
    hide ZipOk, ZeroRun;
    assert [f, v][0] == f;
  }

  // ----- two maps that do not always come back

  lemma FlattenOne(f: seq<byte>, m: Fields)
    requires f in m
    ensures InMap([f], m) && Flatten([f], m) == [f, m[f]]
  {
    assert [f][1..] == [];
  }

  /** A text of 16384 bytes at the front: the reader takes its length for four million and runs off the end. */
  lemma LongFirst(f: seq<byte>, rest: Values)
    requires |f| == 16384 && f[0] == 97 && AllZipOk(rest) && |rest| <= 200
    ensures AllShort([f] + rest) && PEntries(Body([f] + rest, 0) + [0xff], 1 + |rest|).Bad?
    ensures |EncZipList([f] + rest)| < TWO_32
  {
    hide Body, PEntries, EncEntry, UnBE, LE, ZipOk;
    GoodShort(rest);
    assert ([f] + rest)[1..] == rest;
    var prevLen := |EncEntry(0, f)| % TWO_32;
    var t := Body(rest, prevLen) + [0xff];
    BodySize(rest, prevLen);
    LongTextStray(f);
    LongEntry(f);
    BodyCons([f] + rest, 0, [0xff]);
    if PEntries(EncEntry(0, f) + t, 1 + |rest|).Got? {
      StrayRead(f, 0, t, |rest|);
      Misread16384();
      assert false;
    }
  }

  /** As a value it is a list that is not read at all. */
  lemma LongValueLost(f: seq<byte>)
    requires |f| == 16384 && f[0] == 97
    ensures AllShort([f]) && |EncZipList([f])| < TWO_32 && PZipListBuf(EncZipList([f])) == None
  {
    hide Body, EncZipList, PEntries, UnLE;
    assert [f] + [] == [f];
    LongFirst(f, []);
    ReaderHeader([f]);
  }

  /** The writer's tests look at values only, so nothing keeps such a field out of a ziplist. */
  lemma LongFieldLost(f: seq<byte>, v: seq<byte>)
    requires |f| == 16384 && f[0] == 97 && |v| <= MAX_STRING
    ensures var m: Fields := map[f := v];
            && Enumerates([f], m.Keys) && InMap([f], m) && AllShort(Flatten([f], m))
            && |EncZipList(Flatten([f], m))| < TWO_32 && PZipHashBuf(EncZipList(Flatten([f], m))) == None
  {
    hide Body, PZipHashBuf, EncZipList, PEntries, FieldsOf, Flatten;
    var m: Fields := map[f := v];
    FlattenOne(f, m);
    assert AllZipOk([v]) && [f] + [v] == [f, v];
    LongFirst(f, [v]);
    ZipHashRead([f], m);
  }

  lemma LongEntry(f: seq<byte>)
    requires |f| == 16384 && !ZipOk(f)
    ensures |EncEntry(0, f)| == 16394
  {
  }

  lemma BodyCons(values: Values, prevLen: nat, t: seq<byte>)
    requires AllShort(values) && values != []
    ensures var e := EncEntry(prevLen, values[0]);
            && |Body(values, prevLen)| == |e| + |Body(values[1..], |e| % TWO_32)|
            && Body(values, prevLen) + t == e + (Body(values[1..], |e| % TWO_32) + t)
  {
    hide EncEntry;
    var e := EncEntry(prevLen, values[0]);
    Assoc(e, Body(values[1..], |e| % TWO_32), t);
  }

  lemma LongTextStray(f: seq<byte>)
    requires |f| == 16384 && f[0] == 97
    ensures Stray(f)
  {
    assert !IsDigit(f[0]);
  }

  lemma Misread16384()
    ensures MisreadLength(16384) == 4194304
  {
    assert LE(16384, 4) == [0, 64, 0, 0];
    assert UnBE([0]) == 0 && UnBE([0, 64]) == 64 && UnBE([0, 64, 0]) == 16384 by {
      assert [0, 64][..1] == [0] && [0, 64, 0][..2] == [0, 64];
    }
    assert [0, 64, 0, 0][..3] == [0, 64, 0];
  }

  /** The entries the reader makes of [f, run, g, v, [], []] with a run it is put out of step by. */
  lemma SavedEntries(f: seq<byte>, run: seq<byte>, g: seq<byte>, v: seq<byte>)
    requires ZipOk(f) && !ZipOk(run) && ZeroRun(run) && ZipOk(g) && ZipOk(v)
    requires |f| < TWO_32 && |run| < TWO_32 && |g| < TWO_32 && |v| < TWO_32
    ensures AllShort([f, run, g, v, [], []])
    ensures var p := PEntries(Body([f, run, g, v, [], []], 0) + [0xff], 6);
            p.Got? && p.value == [f, run, [], [], g, v]
  {
    hide Body, PEntries, PEntry, EncEntry, ZipOk, ZeroRun;
    var t: seq<byte> := [0xff];
    var flat, rest: Values := [f, run, g, v, [], []], [g, v, [], []];
    var e := EncEntry(0, f);
    var b1 := |e| % TWO_32;
    BodyCons(flat, 0, t);
    assert flat[1..] == [run] + rest && ([run] + rest)[1..] == rest;
    BodyCons([run] + rest, b1, t);
    var b2 := |EncEntry(b1, run)| % TWO_32;
    var s1, s2 := Body([run] + rest, b1) + t, Body(rest, b2) + t;
    FirstRead(0, f, s1);
    EntriesStep(EncEntry(0, f) + s1, 5);
    FirstRead(b1, run, s2);
    EntriesStep(EncEntry(b1, run) + s2, 4);
    FourZerosRead(s2, 4);
    EmptyOk();
    EntriesRoundTrip(rest, b2, 2, t);
    assert rest[..2] == [g, v];
  }

  lemma SavedByOrder(f: seq<byte>, run: seq<byte>, g: seq<byte>, v: seq<byte>)
    requires ZipOk(f) && !ZipOk(run) && ZeroRun(run) && ZipOk(g) && ZipOk(v) && f != g && f != [] && g != []
    requires |f| < TWO_32 && |run| < TWO_32 && |g| < TWO_32 && |v| < TWO_32
    ensures ComesBack([f, g, []], map[f := run, g := v, [] := []])
  {
    hide Body, PEntries, ZipOk, ZeroRun, EncZipList, PZipHashBuf, Flatten, FieldsOf;
    var m: Fields := map[f := run, g := v, [] := []];
    var order: Values := [f, g, []];
    FlattenOne(f, m);
    FlattenOne(g, m);
    FlattenOne([], m);
    FlattenJoin([g], [[]], m);
    FlattenJoin([f], [g] + [[]], m);
    assert order == [f] + ([g] + [[]]);
    assert [f, run] + ([g, v] + [[], []]) == [f, run, g, v, [], []];
    SavedEntries(f, run, g, v);
    ZipHashRead(order, m);
    Pairs3(f, run, [], [], g, v);
    assert map[f := run][[] := []][g := v] == m;
  }

  lemma Pairs3(a: seq<byte>, b: seq<byte>, c: seq<byte>, d: seq<byte>, e: seq<byte>, f: seq<byte>)
    ensures FieldsOf([a, b, c, d, e, f], map[]) == map[a := b][c := d][e := f]
  {
    hide FieldsOf;
    assert [a, b, c, d, e, f] == [a] + ([b] + ([c] + ([d] + ([e] + ([f] + [])))));
    PairUp(a, b, [c] + ([d] + ([e] + ([f] + []))), map[]);
    PairUp(c, d, [e] + ([f] + []), map[a := b]);
    PairUp(e, f, [], map[a := b][c := d]);
    NoEntries(map[a := b][c := d][e := f]);
  }

  /** It can depend on the order alone: a zero run puts the reader out of step, but what it reads twice
      and what it leaves out is the same empty pair. In some other order the same map is lost. */
  lemma OneOrderSaves(f: seq<byte>, run: seq<byte>, g: seq<byte>, v: seq<byte>)
    requires ZipOk(f) && !ZipOk(run) && ZeroRun(run) && ZipOk(g) && ZipOk(v) && f != g && f != [] && g != []
    requires |f| < TWO_32 && |run| < TWO_32 && |g| < TWO_32 && |v| < TWO_32
    ensures var m: Fields := map[f := run, g := v, [] := []];
            && Enumerates([f, g, []], m.Keys) && ComesBack([f, g, []], m)
            && exists order :: Enumerates(order, m.Keys) && !ComesBack(order, m)
  {
    hide ZipOk, ListOk, ComesBack, ZeroRun, HashSafe;
    var m: Fields := map[f := run, g := v, [] := []];
    SavedByOrder(f, run, g, v);
    assert m.Keys == {f, g, []} == {f, g} + {[]};
    EmptyOk();
    EveryOrderIff(m);
    ThreeUnsafe(f, g, m);
  }

  lemma ThreeUnsafe(f: seq<byte>, g: seq<byte>, m: Fields)
    requires f in m && !GoodPair(f, m) && g in m && GoodPair(g, m) && [] in m && m[[]] == [] && g != f && g != []
    ensures !HashSafe(m)
  {
    hide ZipOk, ListOk;
    EmptyOk();
    assert f != [];
    forall h ensures !AloneOk(h, m) {
      if h == f {
        assert g in m && g != h && g != [];
      } else {
        assert f in m && f != h && f != [];
      }
    }
  }
}
