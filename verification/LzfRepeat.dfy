/** What the compressor finds: one turn of its main loop in plain numbers, and texts that repeat a word, which
    it always shortens. */
module LzfRepeats {
  import opened Bytes
  import opened Lzf

  // ----- the rolling hash and the table

  /** The table slot of three bytes. */
  function SlotOf(b0: byte, b1: byte, b2: byte): (h: nat)
    ensures h < 16384
  {
    var h := b0 as int * 65536 + b1 as int * 256 + b2;
    (h / 1024 - h * 5) % 16384
  }

  function SlotAt(input: seq<byte>, i: nat): (h: nat)
    requires i + 2 < |input|
    ensures h < 16384
  {
    SlotOf(input[i], input[i + 1], input[i + 2])
  }

  /** The hash ends in the two bytes at the current position. */
  predicate Rolling(input: seq<byte>, st: State)
  {
    st.pos + 2 < |input| ==> Hash2(input, st.pos) == st.hval % 65536
  }

  lemma SlotDrops(q: nat, r: nat)
    requires r < 0x100_0000
    ensures Slot(q * 0x100_0000 + r) == (r / 1024 - r * 5) % 16384
  {
    var h := q * 0x100_0000 + r;
    assert h / 1024 == q * 16384 + r / 1024;
    assert h / 1024 - h * 5 == (r / 1024 - r * 5) + 16384 * (q - 5 * 1024 * q);
    Multiples(r / 1024 - r * 5, q - 5 * 1024 * q);
  }

  lemma Wraps(q: nat, r: nat)
    requires r < TWO_32
    ensures (q * TWO_32 + r) % TWO_32 == r
  {
  }

  lemma HalfWraps(q: nat, r: nat)
    requires r < 65536
    ensures (q * 65536 + r) % 65536 == r
  {
  }

  lemma PushLow(hval: nat, two: nat, b: byte)
    requires two < 65536 && hval % 65536 == two
    ensures Push(hval, b) == hval / 65536 % 256 * 0x100_0000 + (two * 256 + b)
    ensures Push(hval, b) % 65536 == two % 256 * 256 + b
  {
    var q := hval / 65536;
    var low := q % 256 * 0x100_0000 + (two * 256 + b);
    assert hval == q * 65536 + two && q == q / 256 * 256 + q % 256;
    Wraps(q / 256, low);
    assert hval * 256 + b == q / 256 * TWO_32 + low;
    HalfWraps(q % 256 * 256 + two / 256, two % 256 * 256 + b);
    assert two == two / 256 * 256 + two % 256;
  }

  lemma Multiples(a: int, k: int)
    ensures (a + 16384 * k) % 16384 == a % 16384
  {
  }

  /** Only the last three bytes shifted into the hash decide the slot. */
  lemma SlotOfPush(hval: nat, b0: byte, b1: byte, b2: byte)
    requires hval % 65536 == b0 as int * 256 + b1
    ensures Slot(Push(hval, b2)) == SlotOf(b0, b1, b2)
    ensures Push(hval, b2) % 65536 == b1 as int * 256 + b2
  {
    hide Slot;
    var low := b0 as int * 65536 + b1 as int * 256 + b2;
    PushLow(hval, b0 as int * 256 + b1, b2);
    SlotDrops(hval / 65536 % 256, low);
  }

  lemma StartRolls(input: seq<byte>)
    requires |input| >= 2
    ensures Rolling(input, Start(input)) && OutIndex(Start(input)) == 1 && Start(input).pos == 0
    ensures Start(input).tokens == [] && Start(input).lits == [] && |Start(input).htab| == 16384
    ensures forall k :: 0 <= k < 16384 ==> Start(input).htab[k] == 0
  {
  }

  /** The candidate is the position last entered for the slot of the next three bytes. */
  lemma ProbeFinds(input: seq<byte>, st: State)
    requires Inv(input, st) && Rolling(input, st) && st.pos + 2 < |input|
    ensures |st.htab| == 16384
    ensures var at := SlotAt(input, st.pos);
            Probe(input, st) == (st.(hval := Push(st.hval, input[st.pos + 2]), htab := st.htab[at := st.pos]),
                                 st.htab[at])
    ensures Push(st.hval, input[st.pos + 2]) % 65536 == Hash2(input, st.pos + 1)
  {
    hide Slot, SlotOf, Push, Spells;
    SlotOfPush(st.hval, input[st.pos], input[st.pos + 1], input[st.pos + 2]);
  }

  /** The two entries made behind a match. */
  lemma RehashEnters(input: seq<byte>, htab: seq<nat>, end: nat)
    requires 2 <= end < |input| - 2 && |htab| == HTAB_SIZE
    ensures |htab| == 16384
    ensures Rehash(input, htab, end).1 == htab[SlotAt(input, end - 2) := end - 2][SlotAt(input, end - 1) := end - 1]
    ensures Rehash(input, htab, end).0 % 65536 == Hash2(input, end)
  {
    hide Slot, SlotOf, Push;
    var h1 := Push(Hash2(input, end - 2), input[end]);
    SlotOfPush(Hash2(input, end - 2), input[end - 2], input[end - 1], input[end]);
    SlotOfPush(h1, input[end - 1], input[end], input[end + 1]);
  }

  // ----- one turn of the main loop

  /** A match ends only at its greatest length or at a byte that differs. */
  lemma {:induction false} MatchLenStops(input: seq<byte>, ref: nat, pos: nat, len: nat, maxLen: nat)
    requires ref < pos && pos + maxLen <= |input| && len >= 2
    ensures var l := MatchLen(input, ref, pos, len, maxLen);
            l >= maxLen || input[ref + l] != input[pos + l]
    decreases maxLen - len
  {
    if len + 1 >= maxLen || input[ref + len + 1] != input[pos + len + 1] {
    } else {
      MatchLenStops(input, ref, pos, len + 1, maxLen);
    }
  }

  lemma MatchEnds(input: seq<byte>, ref: nat, pos: nat)
    requires 0 < ref < pos && pos + 2 < |input| && input[ref..ref + 3] == input[pos..pos + 3]
    ensures var l := MatchEnd(input, ref, pos) - pos;
            && 3 <= l <= 264 && pos + l <= |input| && input[ref..ref + l] == input[pos..pos + l]
            && (l == 3 || pos + l + 2 <= |input|)
            && (l == 264 || pos + l + 2 >= |input| || input[ref + l] != input[pos + l])
  {
    hide MatchLen;
    MatchLenAgrees(input, ref, pos, 2, MaxLen(|input|, pos));
    MatchLenStops(input, ref, pos, 2, MaxLen(|input|, pos));
  }

  lemma AgreeMeans(input: seq<byte>, ref: nat, pos: nat)
    requires ref < pos && pos + 2 < |input|
    ensures Agree3(input, ref, pos) <==> input[ref..ref + 3] == input[pos..pos + 3]
  {
    var a, b := input[ref..ref + 3], input[pos..pos + 3];
    assert a == [input[ref], input[ref + 1], input[ref + 2]];
    assert b == [input[pos], input[pos + 1], input[pos + 2]];
    assert a == b ==> a[0] == b[0] && a[1] == b[1] && a[2] == b[2];
  }

  /** A candidate at most 8192 back that agrees on three bytes is taken, as long as there is room for it, at its
      full length. */
  lemma MatchTurn(input: seq<byte>, st: State, ref: nat) returns (r: State)
    requires Inv(input, st) && Rolling(input, st) && st.pos + 2 < |input|
    requires |st.htab| == 16384 && ref == st.htab[SlotAt(input, st.pos)]
    requires 0 < ref < st.pos && st.pos - ref <= 8192
    requires input[ref..ref + 3] == input[st.pos..st.pos + 3]
    ensures 3 <= r.pos - st.pos <= 264 && r.pos <= |input|
    ensures var l := r.pos - st.pos;
            && input[ref..ref + l] == input[st.pos..r.pos]
            && (l == 3 || r.pos + 2 <= |input|)
            && (l == 264 || r.pos + 2 >= |input| || input[ref + l] != input[r.pos])
            && r.lits == []
            && r.tokens == (if st.lits == [] then st.tokens else st.tokens + [Literal(st.lits)]) +
                           [Ref(st.pos - ref - 1, l)]
            && |Flat(r.tokens)| == |Flat(st.tokens)| + (if st.lits == [] then 0 else 1 + |st.lits|) +
                                   (if l < 9 then 2 else 3)
    ensures |r.htab| == 16384 && Rolling(input, r) && Inv(input, r)
    ensures var now := st.htab[SlotAt(input, st.pos) := st.pos];
            r.htab == if r.pos + 2 >= |input| then now
                      else now[SlotAt(input, r.pos - 2) := r.pos - 2][SlotAt(input, r.pos - 1) := r.pos - 1]
    ensures var room := |Flat(st.tokens)| + (if st.lits == [] then 0 else 1 + |st.lits|) + 4 < |input|;
            CompressFrom(input, st) == if room then CompressFrom(input, r) else Err(InsufficientBuffer)
  {
    hide Slot, SlotOf, Push, Play, Flat, Tracks, Spells, MatchLen, MatchEnd, TakeMatch, CompressFrom, Rehash, Probe,
      SlotAt;
    ProbeFinds(input, st);
    AgreeMeans(input, ref, st.pos);
    MatchEnds(input, ref, st.pos);
    var st1 := Probe(input, st).0;
    TakeMatchInv(input, st1, ref);
    CompressStep(input, st);
    r := TakeMatch(input, st1, ref);
    if r.pos + 2 < |input| {
      RehashEnters(input, st1.htab, r.pos);
    }
  }

  /** Any other candidate is passed over: the byte joins the open run, which is closed at 32 bytes. */
  lemma LiteralTurn(input: seq<byte>, st: State, ref: nat) returns (r: State)
    requires Inv(input, st) && Rolling(input, st) && st.pos + 2 < |input|
    requires |st.htab| == 16384 && ref == st.htab[SlotAt(input, st.pos)]
    requires ref == 0 || ref >= st.pos || st.pos - ref > 8192 || input[ref..ref + 3] != input[st.pos..st.pos + 3]
    ensures r.pos == st.pos + 1
    ensures var lits := st.lits + [input[st.pos]];
            (r.tokens, r.lits) == if |lits| == 32 then (st.tokens + [Literal(lits)], []) else (st.tokens, lits)
    ensures |r.htab| == 16384 && r.htab == st.htab[SlotAt(input, st.pos) := st.pos]
    ensures Rolling(input, r) && Inv(input, r)
    ensures var room := |Flat(st.tokens)| + 1 + |st.lits| < |input|;
            CompressFrom(input, st) == if room then CompressFrom(input, r) else Err(InsufficientBuffer)
  {
    hide Slot, SlotOf, Push, Play, Flat, MatchLen, MatchEnd, TakeMatch, CompressFrom, Rehash, Probe, SlotAt;
    ProbeFinds(input, st);
    if 0 < ref {
      AgreeMeans(input, ref, st.pos);
    }
    CompressStep(input, st);
    AddLiteralSpells(input, Probe(input, st).0);
    r := AddLiteral(Probe(input, st).0, input[st.pos]);
  }

  /** Behind the main loop the last bytes join the open run. */
  lemma LastBytes(input: seq<byte>, st: State)
    requires Inv(input, st) && st.pos + 2 >= |input|
    ensures var lits := st.lits + input[st.pos..];
            var tokens := if lits == [] then st.tokens
                          else if |lits| <= 32 then st.tokens + [Literal(lits)]
                          else st.tokens + [Literal(lits[..32])] + [Literal(lits[32..])];
            CompressFrom(input, st) == if |Flat(st.tokens)| + 1 + |st.lits| + 3 < |input| then Ok(Flat(tokens))
                                       else Err(InsufficientBuffer)
  {
    hide Flat, Play, Tracks, Tail;
    TailTokens(input, st);
  }

  lemma {:induction false} TailTokens(input: seq<byte>, st: State)
    requires Spells(input, st) && st.pos + 2 >= |input|
    ensures var lits := st.lits + input[st.pos..];
            Tail(input, st) == Flat(if lits == [] then st.tokens
                                    else if |lits| <= 32 then st.tokens + [Literal(lits)]
                                    else st.tokens + [Literal(lits[..32])] + [Literal(lits[32..])])
    decreases |input| - st.pos
  {
    hide Flat, Play;
    var lits := st.lits + input[st.pos..];
    if st.pos == |input| {
      assert lits == st.lits;
    } else {
      AddLiteralSpells(input, st);
      var r := AddLiteral(st, input[st.pos]);
      TailTokens(input, r);
      assert input[st.pos..] == [input[st.pos]] + input[r.pos..];
      assert lits == st.lits + [input[st.pos]] + input[r.pos..];
      if |st.lits| == 31 {
        assert lits[..32] == st.lits + [input[st.pos]] && lits[32..] == [] + input[r.pos..];
        assert |lits| == 32 ==> lits == lits[..32];
      } else {
        assert r.lits + input[r.pos..] == lits;
      }
    }
  }

  // ----- texts that repeat a word

  type Word = w: seq<byte> | w != [] witness [0]

  /** The slot of the three bytes from position i on of a word repeated without end. */
  function WordSlot(w: Word, i: nat): (h: nat)
    ensures h < 16384
  {
    SlotOf(w[i % |w|], w[(i + 1) % |w|], w[(i + 2) % |w|])
  }

  /** No two places of the repeated word share a slot of the table. */
  predicate OwnSlots(w: Word)
  {
    forall i, j :: 0 <= i < j < |w| ==> WordSlot(w, i) != WordSlot(w, j)
  }

  predicate Repeats(input: seq<byte>, w: Word)
  {
    forall i :: 0 <= i < |input| ==> input[i] == w[i % |w|]
  }

  lemma ModPlus(i: nat, j: nat, k: nat, p: nat)
    requires p > 0 && i % p == j % p
    ensures (i + k) % p == (j + k) % p
  {
    var q := i / p - j / p;
    assert i + k == j + k + q * p;
    ModTimes(j + k, q, p);
  }

  lemma ModTimes(a: int, q: int, p: nat)
    requires p > 0
    ensures (a + q * p) % p == a % p
  {
    var b := a + q * p;
    assert b == (a / p + q) * p + a % p;
    ModUnique(b, a / p + q, a % p, p);
  }

  lemma ModUnique(b: int, q: int, r: nat, p: nat)
    requires r < p && b == q * p + r
    ensures b % p == r
  {
    var d := b / p - q;
    assert b == (b / p) * p + b % p;
    assert d * p == r - b % p;
  }

  /** Places share a slot exactly when they are whole words apart. */
  lemma SlotClass(w: Word, i: nat, j: nat)
    requires OwnSlots(w)
    ensures WordSlot(w, i) == WordSlot(w, j) <==> i % |w| == j % |w|
  {
    hide SlotOf;
    var p := |w|;
    if i % p == j % p {
      ModPlus(i, j, 1, p);
      ModPlus(i, j, 2, p);
    } else {
      SlotReduced(w, i);
      SlotReduced(w, j);
    }
  }

  lemma SlotReduced(w: Word, i: nat)
    ensures WordSlot(w, i % |w|) == WordSlot(w, i)
  {
    hide SlotOf;
    var p := |w|;
    assert i % p % p == i % p;
    ModPlus(i, i % p, 1, p);
    ModPlus(i, i % p, 2, p);
  }

  lemma SlotInText(input: seq<byte>, w: Word, i: nat)
    requires Repeats(input, w) && i + 2 < |input|
    ensures SlotAt(input, i) == WordSlot(w, i)
  {
    hide SlotOf;
  }

  lemma SameText(input: seq<byte>, w: Word, i: nat, j: nat, n: nat)
    requires Repeats(input, w) && i % |w| == j % |w| && i + n <= |input| && j + n <= |input|
    ensures input[i..i + n] == input[j..j + n]
  {
    var a, b := input[i..i + n], input[j..j + n];
    forall k | 0 <= k < n ensures a[k] == b[k] {
      ModPlus(i, j, k, |w|);
    }
  }

  /** What the table holds for a place of the word is 0 or such a place. */
  ghost predicate Classed(w: Word, htab: seq<nat>)
  {
    |htab| == 16384 &&
    forall i: nat :: htab[WordSlot(w, i)] == 0 || htab[WordSlot(w, i)] % |w| == i % |w|
  }

  lemma EnterClassed(w: Word, htab: seq<nat>, i: nat)
    requires OwnSlots(w) && Classed(w, htab)
    ensures Classed(w, htab[WordSlot(w, i) := i])
  {
    hide WordSlot, OwnSlots;
    var now := htab[WordSlot(w, i) := i];
    forall j: nat ensures now[WordSlot(w, j)] == 0 || now[WordSlot(w, j)] % |w| == j % |w| {
      SlotClass(w, i, j);
    }
  }

  /** The first word and the byte behind it are read as literals: after k bytes, the tokens and the open run. */
  predicate Plain(input: seq<byte>, st: State)
  {
    && st.pos <= 32 && st.pos <= |input|
    && (st.tokens, st.lits) == if st.pos < 32 then ([], input[..st.pos]) else ([Literal(input[..32])], [])
  }

  ghost predicate Filled(w: Word, htab: seq<nat>, pos: nat)
    requires |htab| == 16384
  {
    forall i :: 1 <= i < pos ==> htab[WordSlot(w, i)] >= 1
  }

  ghost predicate Warm(w: Word, input: seq<byte>, st: State)
  {
    && Inv(input, st) && Rolling(input, st) && Plain(input, st) && st.pos <= |w| + 1
    && Classed(w, st.htab) && Filled(w, st.htab, st.pos)
  }

  /** The first time round there is nothing to find. */
  lemma NothingYet(w: Word, htab: seq<nat>, pos: nat)
    requires Classed(w, htab) && pos <= |w| && Tracks(htab, pos)
    ensures htab[WordSlot(w, pos)] == 0
  {
    hide WordSlot;
    var e := htab[WordSlot(w, pos)];
    assert e == 0 || e < pos;
  }

  lemma FillOne(w: Word, htab: seq<nat>, pos: nat)
    requires OwnSlots(w) && |htab| == 16384 && Filled(w, htab, pos)
    ensures Filled(w, htab[WordSlot(w, pos) := pos], pos + 1)
  {
    hide WordSlot, OwnSlots;
  }

  lemma PlainStep(input: seq<byte>, st: State, r: State)
    requires Plain(input, st) && st.pos < |input| && r.pos == st.pos + 1 <= 32 && |st.lits| < MAX_LIT
    requires var lits := st.lits + [input[st.pos]];
             (r.tokens, r.lits) == if |lits| == 32 then (st.tokens + [Literal(lits)], []) else (st.tokens, lits)
    ensures Plain(input, r)
  {
    assert input[..st.pos + 1] == input[..st.pos] + [input[st.pos]];
    assert [] + [Literal(input[..st.pos + 1])] == [Literal(input[..st.pos + 1])];
  }

  lemma PlainSize(input: seq<byte>, st: State)
    requires Plain(input, st)
    ensures |Flat(st.tokens)| + 1 + |st.lits| == st.pos + 1 + (if st.pos == 32 then 1 else 0)
    ensures st.pos > 0 ==> |Flat(st.tokens)| + (if st.lits == [] then 0 else 1 + |st.lits|) == st.pos + 1
  {
    if st.pos == 32 {
      PushToken([], Literal(input[..32]));
      assert [] + [Literal(input[..32])] == [Literal(input[..32])];
    }
  }

  lemma WarmStep(w: Word, input: seq<byte>, st: State) returns (r: State)
    requires OwnSlots(w) && Repeats(input, w) && |w| <= 31 && Warm(w, input, st)
    requires st.pos <= |w| && st.pos + 2 < |input|
    ensures Warm(w, input, r) && r.pos == st.pos + 1 && CompressFrom(input, st) == CompressFrom(input, r)
  {
    hide WordSlot, OwnSlots, Repeats, Flat, Play, CompressFrom, SlotAt, Classed, Filled, Rolling, Plain;
    SlotInText(input, w, st.pos);
    assert |st.htab| == 16384;
    NothingYet(w, st.htab, st.pos);
    PlainSize(input, st);
    r := LiteralTurn(input, st, 0);
    PlainStep(input, st, r);
    EnterClassed(w, st.htab, st.pos);
    FillOne(w, st.htab, st.pos);
  }

  lemma {:induction false} WarmUp(w: Word, input: seq<byte>, st: State) returns (r: State)
    requires OwnSlots(w) && Repeats(input, w) && |w| <= 31 && Warm(w, input, st) && st.pos + 2 <= |input|
    ensures Warm(w, input, r) && CompressFrom(input, st) == CompressFrom(input, r)
    ensures r.pos == if |w| + 1 <= |input| - 2 then |w| + 1 else |input| - 2
    decreases |input| - st.pos
  {
    hide OwnSlots, Repeats, CompressFrom, Classed, Filled, Rolling, Plain, Tracks, Spells;
    r := st;
    if st.pos <= |w| && st.pos + 2 < |input| {
      r := WarmStep(w, input, st);
      r := WarmUp(w, input, r);
    }
  }

  /** The place reached by m longest matches has an entry, at most |w| such matches back. */
  predicate Near(w: Word, htab: seq<nat>, pos: nat, m: nat)
    requires |htab| == 16384
  {
    var e := htab[WordSlot(w, pos + 264 * m)];
    e >= 1 && pos + 264 * m <= e + 264 * |w|
  }

  predicate Recent(w: Word, htab: seq<nat>, pos: nat)
    requires |htab| == 16384
  {
    forall m :: 0 <= m < |w| ==> Near(w, htab, pos, m)
  }

  lemma FirstPlace(j: nat, p: nat) returns (i: nat)
    requires p > 0
    ensures 1 <= i <= p && i % p == (j + 1) % p
  {
    i := j % p + 1;
    assert j % p % p == j % p;
    ModPlus(j, j % p, 1, p);
  }

  lemma RecentAtFirst(w: Word, htab: seq<nat>)
    requires OwnSlots(w) && |w| <= 31 && |htab| == 16384 && Filled(w, htab, |w| + 1)
    ensures Recent(w, htab, |w| + 1)
  {
    hide WordSlot, OwnSlots;
    var p := |w|;
    var pos := p + 1;
    forall m | 0 <= m < p ensures Near(w, htab, pos, m) {
      var i := FirstPlace(p + 264 * m, p);
      SlotClass(w, pos + 264 * m, i);
    }
  }

  /** The table behind a longest match at pos. */
  function Entered(w: Word, htab: seq<nat>, pos: nat): seq<nat>
    requires |htab| == 16384
  {
    htab[WordSlot(w, pos) := pos][WordSlot(w, pos + 262) := pos + 262][WordSlot(w, pos + 263) := pos + 263]
  }

  lemma EntryKept(w: Word, htab: seq<nat>, pos: nat, s: nat)
    requires |htab| == 16384 && s < 16384
    ensures var e := Entered(w, htab, pos)[s];
            if s == WordSlot(w, pos) then e >= pos else e == htab[s] || e >= pos
  {
    hide WordSlot;
  }

  lemma RecentKept(w: Word, htab: seq<nat>, pos: nat)
    requires OwnSlots(w) && |htab| == 16384 && pos >= 1 && Recent(w, htab, pos)
    ensures |Entered(w, htab, pos)| == 16384 && Recent(w, Entered(w, htab, pos), pos + 264)
  {
    hide WordSlot, OwnSlots;
    var p := |w|;
    var now := Entered(w, htab, pos);
    assert |now| == 16384;
    hide Entered;
    var end := pos + 264;
    forall m | 0 <= m < p ensures Near(w, now, end, m) {
      assert end + 264 * m == pos + 264 * (m + 1);
      EntryKept(w, htab, pos, WordSlot(w, end + 264 * m));
      if m + 1 == p {
        ModTimes(pos, 264, p);
        SlotClass(w, pos, pos + 264 * p);
      } else {
        assert Near(w, htab, pos, m + 1);
      }
    }
  }

  ghost predicate Cycling(w: Word, input: seq<byte>, st: State)
  {
    && OwnSlots(w) && Repeats(input, w) && |w| <= 31
    && Inv(input, st) && Rolling(input, st) && st.pos > |w|
    && Classed(w, st.htab) && Recent(w, st.htab, st.pos)
  }

  /** The candidate for the current position is the same place of the word, and near enough. */
  lemma CycleFinds(w: Word, input: seq<byte>, st: State) returns (ref: nat)
    requires Cycling(w, input, st) && st.pos + 2 < |input|
    ensures |st.htab| == 16384 && ref == st.htab[SlotAt(input, st.pos)]
    ensures 0 < ref < st.pos && st.pos - ref <= 8192 && ref % |w| == st.pos % |w|
    ensures input[ref..ref + 3] == input[st.pos..st.pos + 3]
  {
    hide WordSlot, OwnSlots, Repeats, Spells, Rolling, SlotAt;
    SlotInText(input, w, st.pos);
    ref := st.htab[WordSlot(w, st.pos)];
    assert Near(w, st.htab, st.pos, 0);
    assert st.pos + 264 * 0 == st.pos;
    SameText(input, w, ref, st.pos, 3);
  }

  /** One turn within the repetition takes the longest match there can be. */
  lemma CycleTurn(w: Word, input: seq<byte>, st: State) returns (r: State, ref: nat)
    requires Cycling(w, input, st) && st.pos + 2 < |input|
    ensures Inv(input, r) && 0 < ref < st.pos && ref % |w| == st.pos % |w| && st.pos - ref <= 8192
    ensures var n, pos := |input|, st.pos;
            && r.pos == (if n - pos >= 266 then pos + 264 else if n - pos >= 5 then n - 2 else pos + 3)
            && r.lits == []
            && r.tokens == (if st.lits == [] then st.tokens else st.tokens + [Literal(st.lits)]) +
                           [Ref(pos - ref - 1, r.pos - pos)]
            && |Flat(r.tokens)| == |Flat(st.tokens)| + (if st.lits == [] then 0 else 1 + |st.lits|) +
                                   (if r.pos - pos < 9 then 2 else 3)
    ensures r.pos + 2 < |input| ==> Cycling(w, input, r)
    ensures var room := |Flat(st.tokens)| + (if st.lits == [] then 0 else 1 + |st.lits|) + 4 < |input|;
            CompressFrom(input, st) == if room then CompressFrom(input, r) else Err(InsufficientBuffer)
  {
    hide WordSlot, OwnSlots, Repeats, Spells, Tracks, Rolling, SlotAt, Classed, Recent, CompressFrom, Flat;
    ref := CycleFinds(w, input, st);
    r := MatchTurn(input, st, ref);
    if r.pos + 2 < |input| {
      SameText(input, w, ref, st.pos, r.pos - st.pos + 1);
      assert input[ref..ref + (r.pos - st.pos + 1)][r.pos - st.pos] == input[ref + (r.pos - st.pos)];
      assert input[st.pos..r.pos + 1][r.pos - st.pos] == input[r.pos];
      CycleTable(w, input, st, r);
    }
  }

  lemma CycleTable(w: Word, input: seq<byte>, st: State, r: State)
    requires Cycling(w, input, st) && r.pos == st.pos + 264 && r.pos + 2 < |input| && |st.htab| == 16384
    requires r.htab == st.htab[SlotAt(input, st.pos) := st.pos][SlotAt(input, r.pos - 2) := r.pos - 2]
                              [SlotAt(input, r.pos - 1) := r.pos - 1]
    ensures |r.htab| == 16384 && Classed(w, r.htab) && Recent(w, r.htab, r.pos)
  {
    hide WordSlot, OwnSlots, Repeats, Inv, Rolling, SlotAt, Classed, Recent;
    SlotInText(input, w, st.pos);
    SlotInText(input, w, r.pos - 2);
    SlotInText(input, w, r.pos - 1);
    RecentKept(w, st.htab, st.pos);
    var h1 := st.htab[WordSlot(w, st.pos) := st.pos];
    var h2 := h1[WordSlot(w, r.pos - 2) := r.pos - 2];
    EnterClassed(w, st.htab, st.pos);
    EnterClassed(w, h1, r.pos - 2);
    EnterClassed(w, h2, r.pos - 1);
  }

  lemma InText(input: seq<byte>, st: State)
    requires Inv(input, st)
    ensures st.pos <= |input| && |st.htab| == 16384
  {
  }

  /** What is left behind the last match. */
  lemma EndsWith(input: seq<byte>, st: State)
    requires Inv(input, st) && st.pos + 2 >= |input| && st.lits == []
    ensures |Flat(st.tokens)| + 4 >= |input| ==> CompressFrom(input, st) == Err(InsufficientBuffer)
    ensures |Flat(st.tokens)| + 4 < |input| ==>
              var last := input[st.pos..];
              && CompressFrom(input, st).Ok?
              && CompressFrom(input, st).bytes ==
                 Flat(st.tokens) + (if last == [] then [] else [|last| - 1] + last)
  {
    hide Flat, CompressFrom, Inv;
    InText(input, st);
    LastFew(input, st);
    var last := input[st.pos..];
    if last != [] {
      LastToken(st.tokens, last);
    }
  }

  lemma LastToken(tokens: seq<Token>, last: seq<byte>)
    requires 1 <= |last| <= 32
    ensures Flat(tokens + [Literal(last)]) == Flat(tokens) + ([|last| - 1] + last)
  {
    hide Flat, Play;
    PushToken(tokens, Literal(last));
  }

  lemma LastFew(input: seq<byte>, st: State)
    requires Inv(input, st) && st.pos + 2 >= |input| && st.lits == [] && st.pos <= |input|
    ensures var last := input[st.pos..];
            CompressFrom(input, st) ==
            if |Flat(st.tokens)| + 4 >= |input| then Err(InsufficientBuffer)
            else Ok(Flat(if last == [] then st.tokens else st.tokens + [Literal(last)]))
  {
    hide Flat, CompressFrom, Inv;
    LastBytes(input, st);
    assert [] + input[st.pos..] == input[st.pos..];
  }

  /** From a position inside the repetition on, with c bytes written for what is before it. */
  lemma {:induction false} Repetition(w: Word, input: seq<byte>, st: State, c: nat)
    requires Cycling(w, input, st) && st.pos + 2 < |input|
    requires c == |Flat(st.tokens)| + (if st.lits == [] then 0 else 1 + |st.lits|)
    requires c <= st.pos + 1 && (st.pos + 8 <= |input| || c + 8 <= st.pos)
    ensures CompressFrom(input, st).Ok?
    ensures |CompressFrom(input, st).bytes| <= c + 3 * ((|input| - st.pos - 3) / 264) + 6
    decreases |input| - st.pos
  {
    hide Cycling, Inv, CompressFrom, Flat;
    var r, _ := CycleTurn(w, input, st);
    if r.pos + 2 < |input| {
      Repetition(w, input, r, c + 3);
    } else {
      EndsWith(input, r);
    }
  }

  /** The beginning: the first word and one more byte are literals. */
  lemma FirstWord(w: Word, input: seq<byte>) returns (st: State)
    requires OwnSlots(w) && Repeats(input, w) && |w| <= 31 && |input| >= 2
    ensures st.pos == if |w| + 1 <= |input| - 2 then |w| + 1 else |input| - 2
    ensures Warm(w, input, st) && CompressFrom(input, Start(input)) == CompressFrom(input, st)
  {
    hide WordSlot, OwnSlots, Repeats, CompressFrom;
    var first := Start(input);
    StartRolls(input);
    assert input[..0] == [];
    st := WarmUp(w, input, first);
  }

  lemma CycleBegins(w: Word, input: seq<byte>, st: State)
    requires OwnSlots(w) && Repeats(input, w) && |w| <= 31 && Warm(w, input, st) && st.pos == |w| + 1
    ensures Cycling(w, input, st)
    ensures |Flat(st.tokens)| + (if st.lits == [] then 0 else 1 + |st.lits|) == |w| + 2
  {
    hide OwnSlots, Repeats, Inv, Rolling, Plain, Flat, Filled, Recent, WordSlot;
    RecentAtFirst(w, st.htab);
    PlainSize(input, st);
  }

  /** A text that repeats a word of at most 31 bytes, no two places of which share a slot, is compressed as soon as
      it is nine bytes longer than the word: to the first word, three bytes for each 264, and little else. */
  lemma RepetitionCompressedIff(w: Word, input: seq<byte>)
    requires OwnSlots(w) && Repeats(input, w) && |w| <= 31 && 2 <= |input| < TWO_32
    ensures Compressed(input).Ok? <==> |input| >= |w| + 9
    ensures Compressed(input).Ok? ==> |Compressed(input).bytes| <= |w| + 8 + 3 * ((|input| - |w| - 4) / 264)
  {
    hide OwnSlots, Repeats, CompressFrom, Cycling, Flat, Inv, Rolling, Plain, Classed, Filled;
    var st := FirstWord(w, input);
    if |input| <= |w| + 3 {
      ShortText(w, input, st);
    } else {
      CycleBegins(w, input, st);
      if |input| < |w| + 9 {
        var r, _ := CycleTurn(w, input, st);
        if r.pos + 2 >= |input| {
          EndsWith(input, r);
        }
      } else {
        Repetition(w, input, st, |w| + 2);
      }
    }
  }

  /** Nothing was found: the literals leave no room to spare. */
  lemma ShortText(w: Word, input: seq<byte>, st: State)
    requires Warm(w, input, st) && st.pos + 2 == |input|
    ensures CompressFrom(input, st) == Err(InsufficientBuffer)
  {
    hide Flat, Play, Classed, Filled, Tracks;
    PlainSize(input, st);
    LastBytes(input, st);
  }

  /** Up to the first match that covers everything, byte for byte. */
  lemma OneMatch(w: Word, input: seq<byte>)
    requires OwnSlots(w) && Repeats(input, w) && |w| <= 31 && |w| + 12 <= |input| <= |w| + 267
    ensures Compressed(input) == Ok([|w|] + input[..|w| + 1] + [224, |input| - |w| - 12, |w| - 1] +
                                    [1] + input[|input| - 2..])
  {
    hide OwnSlots, Repeats, CompressFrom, Cycling, Flat, Inv, Rolling, Classed, Filled, Recent;
    var st := FirstWord(w, input);
    CycleBegins(w, input, st);
    var r, ref := CycleTurn(w, input, st);
    FirstRef(|w|, ref);
    EndsWith(input, r);
    PlainSize(input, st);
    FirstBytes(input, st, r, |w|);
  }

  lemma FirstRef(p: nat, ref: nat)
    requires 0 < ref <= p && ref % p == (p + 1) % p
    ensures ref == 1
  {
  }

  lemma FirstBytes(input: seq<byte>, st: State, r: State, p: nat)
    requires Plain(input, st) && 1 <= p <= 31 && st.pos == p + 1 && p + 12 <= |input| <= p + 267
    requires r.tokens == (if st.lits == [] then st.tokens else st.tokens + [Literal(st.lits)]) +
                         [Ref(p - 1, |input| - p - 3)]
    ensures Flat(r.tokens) == [p] + input[..p + 1] + [224, |input| - p - 12, p - 1]
  {
    hide Flat;
    var run := input[..p + 1];
    assert [] + [Literal(run)] == [Literal(run)];
    assert r.tokens == [Literal(run)] + [Ref(p - 1, |input| - p - 3)];
    TwoTokens(run, p - 1, |input| - p - 3);
  }

  lemma TwoTokens(run: seq<byte>, off: nat, len: nat)
    requires 1 <= |run| <= 32 && off < 256 && 9 <= len <= 264
    ensures Flat([Literal(run)] + [Ref(off, len)]) == [|run| - 1] + run + [224, len - 9, off]
  {
    hide Flat;
    var first: Token, second: Token := Literal(run), Ref(off, len);
    OneToken(first);
    PushToken([first], second);
  }

  lemma OneToken(t: Token)
    ensures Flat([t]) == TokenBytes(t)
  {
    hide TokenBytes;
    assert [t][..0] == [];
    assert Flat([]) + TokenBytes(t) == TokenBytes(t);
  }

  // ----- words

  lemma SlotOfWords(a: byte, b: byte)
    ensures SlotOf(a, b, a) == (59 * a - 1280 * b + b / 4) % 16384
  {
    var h := a as int * 65536 + b as int * 256 + a;
    assert h / 1024 == 64 * a + b / 4;
    assert h / 1024 - h * 5 == (59 * a - 1280 * b + b / 4) + 16384 * (-20 * a);
    Multiples(59 * a - 1280 * b + b / 4, -20 * a);
  }

  lemma NoMultiple(d: nat, e: nat, k: int)
    requires 1 <= d <= 255 && 4 * e <= d + 3 && d <= 4 * e + 3
    ensures 1339 * d - e != 16384 * k
  {
    NotNear(d, k);
    assert 4 * (1339 * d - e - 16384 * k) == 5355 * d - 65536 * k + (d - 4 * e);
  }

  lemma NotNear(d: nat, k: int)
    requires 1 <= d <= 255
    ensures 5355 * d - 65536 * k < -3 || 5355 * d - 65536 * k > 3
  {
    assert 5355 * d - 65536 * k == 5355 * (d - 12 * k) - 1276 * k;
  }

  lemma Apart(a: byte, b: byte)
    requires a > b
    ensures (59 * a - 1280 * b + b / 4) % 16384 != (59 * b - 1280 * a + a / 4) % 16384
  {
    var x, y := 59 * a - 1280 * b + b / 4, 59 * b - 1280 * a + a / 4;
    NoMultiple(a - b, a / 4 - b / 4, x / 16384 - y / 16384);
  }

  /** The two places of two different bytes never share a slot. */
  lemma TwoBytes(a: byte, b: byte)
    requires a != b
    ensures OwnSlots([a, b])
  {
    SlotOfWords(a, b);
    SlotOfWords(b, a);
    if a > b {
      Apart(a, b);
    } else {
      Apart(b, a);
    }
    hide SlotOf;
    var w: Word := [a, b];
    assert WordSlot(w, 0) == SlotOf(a, b, a) && WordSlot(w, 1) == SlotOf(b, a, b);
  }

  /** Two different bytes in turn are compressed from eleven bytes on. */
  lemma TwoBytesCompressedIff(a: byte, b: byte, input: seq<byte>)
    requires a != b && 2 <= |input| < TWO_32
    requires forall i :: 0 <= i < |input| ==> input[i] == if i % 2 == 0 then a else b
    ensures Compressed(input).Ok? <==> |input| >= 11
    ensures Compressed(input).Ok? ==> |Compressed(input).bytes| <= 10 + 3 * ((|input| - 6) / 264)
    ensures 14 <= |input| <= 269 ==>
              Compressed(input) == Ok([2, a, b, a, 224, |input| - 14, 1, 1] + input[|input| - 2..])
  {
    hide Compressed, OwnSlots;
    var w: Word := [a, b];
    TwoBytes(a, b);
    RepetitionCompressedIff(w, input);
    if 14 <= |input| <= 269 {
      OneMatch(w, input);
      assert input[..3] == [a, b, a];
    }
  }

  /** One byte over and over is compressed from ten bytes on. */
  lemma OneByteCompressedIff(a: byte, input: seq<byte>)
    requires 2 <= |input| < TWO_32 && forall i :: 0 <= i < |input| ==> input[i] == a
    ensures Compressed(input).Ok? <==> |input| >= 10
    ensures Compressed(input).Ok? ==> |Compressed(input).bytes| <= 9 + 3 * ((|input| - 5) / 264)
  {
    hide Compressed;
    RepetitionCompressedIff([a], input);
  }

  /** The digits from 0 to 9 over and over are compressed from nineteen bytes on. */
  lemma DigitsCompressedIff(input: seq<byte>)
    requires 2 <= |input| < TWO_32 && forall i :: 0 <= i < |input| ==> input[i] == 48 + i % 10
    ensures Compressed(input).Ok? <==> |input| >= 19
    ensures Compressed(input).Ok? ==> |Compressed(input).bytes| <= 18 + 3 * ((|input| - 14) / 264)
  {
    hide Compressed, OwnSlots;
    var w: Word := Digits();
    DigitSlots();
    forall i | 0 <= i < |input| ensures input[i] == w[i % |w|] {
      DigitAt(i % 10);
    }
    RepetitionCompressedIff(w, input);
  }

  function Digits(): (w: Word)
    ensures |w| == 10
  {
    [48, 49, 50, 51, 52, 53, 54, 55, 56, 57]
  }

  lemma DigitAt(i: nat)
    requires i < 10
    ensures Digits()[i] == 48 + i
  {
  }

  lemma DigitSlot(i: nat)
    requires i < 10
    ensures WordSlot(Digits(), i) == [5650, 4429, 3208, 1988, 767, 15930, 14709, 13489, 12318, 7511][i]
  {
    hide Digits, SlotOf;
    DigitAt(i);
    DigitAt((i + 1) % 10);
    DigitAt((i + 2) % 10);
    RisingSlots();
    TurningSlots();
  }

  lemma RisingSlots()
    ensures SlotOf(48, 49, 50) == 5650 && SlotOf(49, 50, 51) == 4429 && SlotOf(50, 51, 52) == 3208
    ensures SlotOf(51, 52, 53) == 1988 && SlotOf(52, 53, 54) == 767 && SlotOf(53, 54, 55) == 15930
    ensures SlotOf(54, 55, 56) == 14709 && SlotOf(55, 56, 57) == 13489
  {
  }

  lemma TurningSlots()
    ensures SlotOf(56, 57, 48) == 12318 && SlotOf(57, 48, 49) == 7511
  {
  }

  lemma DigitSlots()
    ensures OwnSlots(Digits())
  {
    hide Digits, WordSlot;
    forall i, j | 0 <= i < j < 10 ensures WordSlot(Digits(), i) != WordSlot(Digits(), j) {
      DigitSlot(i);
      DigitSlot(j);
    }
  }

  // ----- one token of the decompressor

  /** A literal run is copied, unless it does not fit or is cut off. */
  lemma ExpandRun(s: seq<byte>, out: seq<byte>, cap: nat)
    requires s != [] && s[0] < 32
    ensures Expand(s, out, cap) ==
            if |out| + s[0] + 1 > cap then Err(InsufficientBuffer)
            else if |s| < s[0] + 2 then Err(DataCorruption)
            else Expand(s[s[0] + 2..], out + s[1..s[0] + 2], cap)
  {
    hide Expand;
    ExpandMore(s, out, cap);
  }

  /** From some index on, each byte is the one dist before it. */
  predicate Echoes(s: seq<byte>, from: nat, dist: nat)
    requires dist <= from
  {
    forall i :: from <= i < |s| ==> s[i] == s[i - dist]
  }

  lemma {:induction false} CopyRepeats(out: seq<byte>, ref: nat, n: nat)
    requires ref < |out|
    ensures Echoes(CopyBack(out, ref, n), |out|, |out| - ref)
    decreases n
  {
    if n > 0 {
      var more := out + [out[ref]];
      CopyRepeats(more, ref + 1, n - 1);
      var r := CopyBack(more, ref + 1, n - 1);
      assert more <= r && r[|out|] == more[|out|] && r[ref] == more[ref];
      assert r == CopyBack(out, ref, n);
      hide CopyBack;
      forall i | |out| <= i < |r| ensures r[i] == r[i - (|out| - ref)] {
        assert i > |out| ==> r[i] == r[i - (|more| - (ref + 1))];
      }
    }
  }

  /** A back reference makes each new byte equal to the one dist before it, unless it is cut off, does not fit or
      reaches back too far. */
  lemma ExpandReference(s: seq<byte>, out: seq<byte>, cap: nat) returns (next: seq<byte>)
    requires s != [] && s[0] >= 32
    ensures var used := if s[0] >= 224 then 3 else 2;
            && (|s| < used ==> Expand(s, out, cap) == Err(DataCorruption))
            && (|s| >= used ==>
                  var len := if s[0] >= 224 then s[1] as int + 9 else s[0] / 32 + 2;
                  var dist := s[0] as int % 32 * 256 + s[used - 1] + 1;
                  if |out| + len > cap || dist > |out| then Expand(s, out, cap) == Err(DataCorruption)
                  else
                    && |next| == |out| + len && out <= next
                    && Echoes(next, |out|, dist)
                    && Expand(s, out, cap) == Expand(s[used..], next, cap))
  {
    hide Expand, CopyBack, Echoes;
    ExpandMore(s, out, cap);
    next := out;
    if ReadToken(s, out, cap).More? {
      next := ReadToken(s, out, cap).out;
      var used := if s[0] >= 224 then 3 else 2;
      var dist := s[0] as int % 32 * 256 + s[used - 1] + 1;
      var len := if s[0] >= 224 then s[1] as int + 9 else s[0] / 32 + 2;
      CopyRepeats(out, |out| - dist, len);
    }
  }
}
