/**
 The LZF coder. A compressed stream is a run of tokens: literal runs of 1..32 bytes and back
 references of 3..264 bytes that may overlap the text they produce.

 `Expand` is the decompressor and `CompressFrom` the compressor as functions over values; the methods
 `Decompress` and `Compress` are the in-place loops, proved to compute those functions. The round trip
 and the size bound are then lemmas about the functions.
 */
module Lzf {
  import opened Bytes

  const HTAB_SIZE := 16384
  const MAX_LIT := 32
  const MAX_OFF := 8192
  const MAX_REF := 264

  datatype Error = InsufficientBuffer | DataCorruption
  datatype Result = Ok(bytes: seq<byte>) | Err(error: Error)

  // ----- tokens and what they mean

  datatype RawToken =
    | Literal(bytes: seq<byte>)
    | Ref(off: nat, len: nat)  // copy len bytes starting off + 1 bytes back

  type Token = t: RawToken | match t
                             case Literal(bytes) => 1 <= |bytes| <= MAX_LIT
                             case Ref(off, len) => off < MAX_OFF && 3 <= len <= MAX_REF
    witness Literal([0])

  /** Appends n bytes to out, each read from the growing text itself, starting at ref. */
  function CopyBack(out: seq<byte>, ref: nat, n: nat): (r: seq<byte>)
    requires ref < |out|
    ensures |r| == |out| + n && out <= r
    decreases n
  {
    if n == 0 then out else CopyBack(out + [out[ref]], ref + 1, n - 1)
  }

  function PlayToken(out: seq<byte>, t: Token): (r: Result)
    ensures r.Ok? ==> out <= r.bytes
  {
    match t
    case Literal(bytes) => Ok(out + bytes)
    case Ref(off, len) => if off < |out| then Ok(CopyBack(out, |out| - off - 1, len)) else Err(DataCorruption)
  }

  /** The text a token sequence stands for. */
  function Play(ts: seq<Token>): Result
  {
    if ts == [] then Ok([])
    else
      var init := Play(ts[..|ts| - 1]);
      if init.Ok? then PlayToken(init.bytes, ts[|ts| - 1]) else init
  }

  function TokenBytes(t: Token): (s: seq<byte>)
  {
    match t
    case Literal(bytes) => [|bytes| - 1] + bytes
    case Ref(off, len) => RefBytes(off, len)
  }

  /** A back reference: 3 bits of length, 13 bits of offset, one more length byte for long matches. */
  function RefBytes(off: nat, len: nat): (s: seq<byte>)
    requires off < MAX_OFF && 3 <= len <= MAX_REF
    ensures |s| == if len < 9 then 2 else 3
    ensures s[0] >= 32 && s[0] / 32 == (if len < 9 then len - 2 else 7)
    ensures s[0] as int % 32 * 256 + s[|s| - 1] == off
    ensures len >= 9 ==> 9 + s[1] as int == len
  {
    if len - 2 < 7 then [off / 256 + (len - 2) * 32, off % 256]
    else [off / 256 + 224, len - 9, off % 256]
  }

  function Flat(ts: seq<Token>): (s: seq<byte>)
  {
    if ts == [] then [] else Flat(ts[..|ts| - 1]) + TokenBytes(ts[|ts| - 1])
  }

  lemma PushToken(ts: seq<Token>, t: Token)
    ensures Play(ts).Ok? ==> Play(ts + [t]) == PlayToken(Play(ts).bytes, t)
    ensures Flat(ts + [t]) == Flat(ts) + TokenBytes(t)
  {
    assert (ts + [t])[..|ts|] == ts;
  }

  // ----- decompression

  datatype Step = More(used: nat, out: seq<byte>) | Stop(error: Error)

  /** Reads one token off the front of s, with out already produced and room for cap bytes in all. */
  function ReadToken(s: seq<byte>, out: seq<byte>, cap: nat): (r: Step)
    requires s != []
    ensures r.More? ==> 1 <= r.used <= |s|
  {
    if s[0] < 32 then
      var n := s[0] + 1;
      if |out| + n > cap then Stop(InsufficientBuffer)
      else if 1 + n > |s| then Stop(DataCorruption)
      else More(1 + n, out + s[1..1 + n])
    else if |s| < 2 then Stop(DataCorruption)
    else if s[0] < 224 then ReadRef(s, s[0] / 32, 2, out, cap)
    else if |s| < 3 then Stop(DataCorruption)
    else ReadRef(s, 7 + s[1] as int, 3, out, cap)
  }

  /** A back reference of length + 2 bytes whose header takes `used` bytes. */
  function ReadRef(s: seq<byte>, length: nat, used: nat, out: seq<byte>, cap: nat): Step
    requires 2 <= used <= |s|
  {
    var ref := |out| - (s[0] as int % 32) * 256 - 1 - s[used - 1];
    if |out| + length + 2 > cap then Stop(DataCorruption)
    else if ref < 0 then Stop(DataCorruption)
    else More(used, CopyBack(out, ref, length + 2))
  }

  /** The decompressor: input s still to read, out already produced, at most cap bytes of output. */
  function Expand(s: seq<byte>, out: seq<byte>, cap: nat): Result
    decreases |s|
  {
    if s == [] then Ok(out)
    else
      match ReadToken(s, out, cap)
      case Stop(error) => Err(error)
      case More(used, out') => Expand(s[used..], out', cap)
  }

  lemma ExpandMore(s: seq<byte>, out: seq<byte>, cap: nat)
    requires s != []
    ensures ReadToken(s, out, cap).Stop? ==> Expand(s, out, cap) == Err(ReadToken(s, out, cap).error)
    ensures ReadToken(s, out, cap).More? ==>
              Expand(s, out, cap) == Expand(s[ReadToken(s, out, cap).used..], ReadToken(s, out, cap).out, cap)
  {
  }

  lemma ReadRefBytes(off: nat, len: nat, rest: seq<byte>, out: seq<byte>, cap: nat)
    requires off < MAX_OFF && 3 <= len <= MAX_REF && off < |out| && |out| + len <= cap
    ensures var h := RefBytes(off, len);
            ReadToken(h + rest, out, cap) == More(|h|, CopyBack(out, |out| - off - 1, len))
  {
    hide CopyBack, RefBytes;
    var h := RefBytes(off, len);
    assert (h + rest)[0] == h[0] && (h + rest)[|h| - 1] == h[|h| - 1];
  }

  lemma ReadTokenBytes(t: Token, rest: seq<byte>, out: seq<byte>, cap: nat)
    requires PlayToken(out, t).Ok? && |PlayToken(out, t).bytes| <= cap
    ensures TokenBytes(t) != []
    ensures ReadToken(TokenBytes(t) + rest, out, cap) == More(|TokenBytes(t)|, PlayToken(out, t).bytes)
  {
    match t
    case Literal(bytes) =>
      assert (TokenBytes(t) + rest)[1..1 + |bytes|] == bytes;
    case Ref(off, len) => ReadRefBytes(off, len, rest, out, cap);
  }

  lemma ExpandToken(t: Token, rest: seq<byte>, out: seq<byte>, cap: nat)
    requires PlayToken(out, t).Ok? && |PlayToken(out, t).bytes| <= cap
    ensures Expand(TokenBytes(t) + rest, out, cap) == Expand(rest, PlayToken(out, t).bytes, cap)
  {
    hide *;
    var s := TokenBytes(t) + rest;
    ReadTokenBytes(t, rest, out, cap);
    ExpandMore(s, out, cap);
    assert s[|TokenBytes(t)|..] == rest;
  }

  /** Decompressing the bytes of any token sequence that makes sense plays it. */
  lemma {:induction false} ExpandFlat(ts: seq<Token>, rest: seq<byte>, cap: nat)
    requires Play(ts).Ok? && |Play(ts).bytes| <= cap
    ensures Expand(Flat(ts) + rest, [], cap) == Expand(rest, Play(ts).bytes, cap)
  {
    hide Expand;
    if ts == [] {
      assert Flat(ts) + rest == rest;
    } else {
      var init, last := ts[..|ts| - 1], ts[|ts| - 1];
      var out := Play(init).bytes;
      assert out <= Play(ts).bytes;
      ExpandFlat(init, TokenBytes(last) + rest, cap);
      assert Flat(ts) + rest == Flat(init) + (TokenBytes(last) + rest);
      ExpandToken(last, rest, out, cap);
    }
  }

  /** The byte-by-byte copy of a back reference, whose source may overlap its destination. */
  method CopyOverlapping(output: array<byte>, outputIndex: nat, ref: nat, n: nat)
    requires ref < outputIndex && outputIndex + n <= output.Length
    modifies output
    ensures output[..outputIndex + n] == CopyBack(old(output[..outputIndex]), ref, n)
    ensures output[outputIndex + n..] == old(output[outputIndex + n..])
  {
    ghost var out := output[..outputIndex];
    for i := 0 to n
      invariant output[outputIndex + n..] == old(output[outputIndex + n..])
      invariant CopyBack(output[..outputIndex + i], ref + i, n - i) == CopyBack(out, ref, n)
    {
      output[outputIndex + i] := output[ref + i];
      assert output[..outputIndex + i + 1] == output[..outputIndex + i] + [output[ref + i]];
    }
  }

  /** The loop body's outcome: the indices after one token, or the error it returns. */
  datatype Advance = Next(inputIndex: nat, outputIndex: nat) | Fail(error: Error)

  method CopyLiteral(src: seq<byte>, inputIndex: nat, output: array<byte>, outputIndex: nat, n: nat)
    returns (a: Advance)
    requires inputIndex < |src| && src[inputIndex] < 32 && n == src[inputIndex] + 1 && outputIndex <= output.Length
    modifies output
    ensures a.Next? ==> inputIndex < a.inputIndex <= |src| && a.outputIndex <= output.Length
    ensures ReadToken(src[inputIndex..], old(output[..outputIndex]), output.Length) ==
            if a.Next? then More(a.inputIndex - inputIndex, output[..a.outputIndex]) else Stop(a.error)
  {
    var from := inputIndex + 1;
    if outputIndex + n > output.Length {
      return Fail(InsufficientBuffer);
    }
    if from + n > |src| {
      return Fail(DataCorruption);
    }
    forall i | 0 <= i < n {
      output[outputIndex + i] := src[from + i];
    }
    assert src[inputIndex..][1..1 + n] == src[from..from + n];
    assert output[..outputIndex + n] == old(output[..outputIndex]) + src[from..from + n];
    a := Next(from + n, outputIndex + n);
  }

  method CopyReference(src: seq<byte>, inputIndex: nat, output: array<byte>, outputIndex: nat) returns (a: Advance)
    requires inputIndex < |src| && src[inputIndex] >= 32 && outputIndex <= output.Length
    modifies output
    ensures a.Next? ==> inputIndex < a.inputIndex <= |src| && a.outputIndex <= output.Length
    ensures ReadToken(src[inputIndex..], old(output[..outputIndex]), output.Length) ==
            if a.Next? then More(a.inputIndex - inputIndex, output[..a.outputIndex]) else Stop(a.error)
  {
    hide CopyBack;
    var ctrl: int := src[inputIndex];
    var at := inputIndex + 1;
    var length := ctrl / 32;
    var ref := outputIndex - ctrl % 32 * 256 - 1;
    if at >= |src| {
      return Fail(DataCorruption);
    }
    if length == 7 {
      length := length + src[at];
      at := at + 1;
      if at >= |src| {
        return Fail(DataCorruption);
      }
    }
    ref := ref - src[at];
    at := at + 1;
    if outputIndex + length + 2 > output.Length || ref < 0 {
      return Fail(DataCorruption);
    }
    CopyOverlapping(output, outputIndex, ref, length + 2);
    a := Next(at, outputIndex + length + 2);
  }

  /** The loop body: one token. */
  method CopyToken(src: seq<byte>, inputIndex: nat, output: array<byte>, outputIndex: nat) returns (a: Advance)
    requires inputIndex < |src| && outputIndex <= output.Length
    modifies output
    ensures a.Next? ==> inputIndex < a.inputIndex <= |src| && a.outputIndex <= output.Length
    ensures Expand(src[inputIndex..], old(output[..outputIndex]), output.Length) ==
            if a.Next? then Expand(src[a.inputIndex..], output[..a.outputIndex], output.Length) else Err(a.error)
  {
    hide Expand, ReadToken;
    ghost var s, out := src[inputIndex..], output[..outputIndex];
    if src[inputIndex] < 32 {
      a := CopyLiteral(src, inputIndex, output, outputIndex, src[inputIndex] + 1);
    } else {
      a := CopyReference(src, inputIndex, output, outputIndex);
    }
    ExpandMore(s, out, output.Length);
    assert a.Next? ==> s[a.inputIndex - inputIndex..] == src[a.inputIndex..];
  }

  /** The in-place decompressor, on arbitrary bytes: every index is in range and the result,
      error kind included, is that of Expand. */
  method Decompress(input: seq<byte>, inLen: nat, outLen: nat) returns (r: Result)
    requires inLen <= |input|
    ensures r == Expand(input[..inLen], [], outLen)
  {
    var src := input[..inLen];
    var output := new byte[outLen](_ => 0);
    var inputIndex: nat, outputIndex: nat := 0, 0;
    if |src| == 0 {
      return Ok([]);
    }
    assert src[0..] == src && output[..0] == [];
    while inputIndex < |src|
      invariant inputIndex <= |src| && outputIndex <= output.Length
      invariant Expand(src[inputIndex..], output[..outputIndex], outLen) == Expand(src, [], outLen)
    {
      hide Expand;
      var a := CopyToken(src, inputIndex, output, outputIndex);
      match a
      case Fail(error) => return Err(error);
      case Next(i, o) => inputIndex, outputIndex := i, o;
    }
    assert src[inputIndex..] == [];
    r := Ok(output[..outputIndex]);
  }

  // ----- compression

  /** Where the compressor stands: tokens closed so far, the open literal run, the hash table of recent
      positions, the rolling hash and the next input position. */
  datatype State = State(tokens: seq<Token>, lits: seq<byte>, htab: seq<nat>, hval: nat, pos: nat)

  function Push(hval: nat, b: byte): nat
  {
    (hval * 256 + b) % TWO_32
  }

  /** ((hval >> 10) - hval * 5) & (htabSize - 1) in 32-bit arithmetic. */
  function Slot(hval: nat): (h: nat)
    ensures h < HTAB_SIZE
  {
    (hval / 1024 - hval * 5) % HTAB_SIZE
  }

  function Hash2(input: seq<byte>, i: nat): nat
    requires i + 1 < |input|
  {
    input[i] as int * 256 + input[i + 1]
  }

  predicate Agree3(input: seq<byte>, ref: nat, pos: nat)
    requires ref + 2 < |input| && pos + 2 < |input|
  {
    input[ref] == input[pos] && input[ref + 1] == input[pos + 1] && input[ref + 2] == input[pos + 2]
  }

  function MaxLen(n: nat, pos: nat): nat
    requires pos + 2 < n
  {
    if n - pos - 2 > MAX_REF then MAX_REF else n - pos - 2
  }

  /** The match-extension loop: the matched length, having found len bytes so far. */
  function MatchLen(input: seq<byte>, ref: nat, pos: nat, len: nat, maxLen: nat): (l: nat)
    requires ref < pos && pos + maxLen <= |input| && len >= 2
    ensures l > len && (l == len + 1 || l <= maxLen)
    decreases maxLen - len
  {
    if len + 1 >= maxLen || input[ref + len + 1] != input[pos + len + 1] then len + 1
    else MatchLen(input, ref, pos, len + 1, maxLen)
  }

  /** Closes the open literal run, if any. */
  function CloseRun(tokens: seq<Token>, lits: seq<byte>): seq<Token>
    requires |lits| <= MAX_LIT
  {
    if lits == [] then tokens else tokens + [Literal(lits)]
  }

  /** One more literal byte; a full run of 32 is closed at once. */
  function AddLiteral(st: State, b: byte): State
    requires |st.lits| < MAX_LIT
  {
    var lits := st.lits + [b];
    if |lits| == MAX_LIT then st.(tokens := st.tokens + [Literal(lits)], lits := [], pos := st.pos + 1)
    else st.(lits := lits, pos := st.pos + 1)
  }

  /** The table and hash after a match, which re-enters the last two positions it covered. */
  function Rehash(input: seq<byte>, htab: seq<nat>, end: nat): (nat, seq<nat>)
    requires 2 <= end < |input| - 2 && |htab| == HTAB_SIZE
  {
    var h1 := Push(Hash2(input, end - 2), input[end]);
    var h2 := Push(h1, input[end + 1]);
    (h2, htab[Slot(h1) := end - 2][Slot(h2) := end - 1])
  }

  predicate Tracks(htab: seq<nat>, pos: nat)
  {
    |htab| == HTAB_SIZE && forall k :: 0 <= k < HTAB_SIZE ==> htab[k] == 0 || htab[k] < pos
  }

  /** The tokens and the open run spell the input read so far. */
  predicate Spells(input: seq<byte>, st: State)
  {
    && st.pos <= |input|
    && Play(st.tokens).Ok?
    && Play(st.tokens).bytes + st.lits == input[..st.pos]
    && |st.lits| < MAX_LIT
  }

  /** What holds whenever the main loop is entered. */
  predicate Inv(input: seq<byte>, st: State)
  {
    Spells(input, st) && Tracks(st.htab, st.pos)
  }

  /** ... and after the current position has been entered in the table. */
  predicate Probed(input: seq<byte>, st: State)
  {
    Spells(input, st) && Tracks(st.htab, st.pos + 1)
  }

  /** The output index of the in-place compressor: one byte is reserved for the open run's header. */
  function OutIndex(st: State): nat
  {
    |Flat(st.tokens)| + 1 + |st.lits|
  }

  lemma AddLiteralSpells(input: seq<byte>, st: State)
    requires Spells(input, st) && st.pos < |input|
    ensures Spells(input, AddLiteral(st, input[st.pos]))
    ensures OutIndex(AddLiteral(st, input[st.pos])) == OutIndex(st) + 1 + (if |st.lits| == 31 then 1 else 0)
  {
    var lits := st.lits + [input[st.pos]];
    assert input[..st.pos + 1] == input[..st.pos] + [input[st.pos]];
    assert Play(st.tokens).bytes + lits == input[..st.pos + 1];
    if |lits| == MAX_LIT {
      PushToken(st.tokens, Literal(lits));
    }
  }

  lemma {:induction false} MatchLenAgrees(input: seq<byte>, ref: nat, pos: nat, len: nat, maxLen: nat)
    requires ref < pos && pos + maxLen <= |input| && len >= 2 && pos + len < |input|
    requires input[ref..ref + len + 1] == input[pos..pos + len + 1]
    ensures var l := MatchLen(input, ref, pos, len, maxLen);
            pos + l <= |input| && input[ref..ref + l] == input[pos..pos + l]
    decreases maxLen - len
  {
    if len + 1 >= maxLen || input[ref + len + 1] != input[pos + len + 1] {
    } else {
      assert input[ref..ref + len + 2] == input[ref..ref + len + 1] + [input[ref + len + 1]];
      assert input[pos..pos + len + 2] == input[pos..pos + len + 1] + [input[pos + len + 1]];
      MatchLenAgrees(input, ref, pos, len + 1, maxLen);
    }
  }

  /** An overlapping copy of agreeing text extends the prefix already produced. */
  lemma {:induction false} CopyBackAgrees(input: seq<byte>, ref: nat, pos: nat, n: nat)
    requires ref < pos && pos + n <= |input|
    requires input[ref..ref + n] == input[pos..pos + n]
    ensures CopyBack(input[..pos], ref, n) == input[..pos + n]
    decreases n
  {
    if n > 0 {
      assert input[ref..ref + n][0] == input[pos..pos + n][0];
      assert input[..pos] + [input[..pos][ref]] == input[..pos + 1];
      assert input[ref + 1..ref + n] == input[ref..ref + n][1..];
      assert input[pos + 1..pos + n] == input[pos..pos + n][1..];
      CopyBackAgrees(input, ref + 1, pos + 1, n - 1);
    }
  }

  lemma CloseRunPlays(tokens: seq<Token>, lits: seq<byte>)
    requires Play(tokens).Ok? && |lits| <= MAX_LIT
    ensures Play(CloseRun(tokens, lits)) == Ok(Play(tokens).bytes + lits)
    ensures |Flat(CloseRun(tokens, lits))| == |Flat(tokens)| + (if lits == [] then 0 else 1 + |lits|)
  {
    if lits != [] {
      PushToken(tokens, Literal(lits));
    }
  }

  /** Whether the table's candidate for this position is a usable match. */
  predicate IsMatch(input: seq<byte>, ref: nat, pos: nat)
    requires pos + 2 < |input| && (ref == 0 || ref < pos)
  {
    ref > 0 && pos - ref <= MAX_OFF && Agree3(input, ref, pos)
  }

  function MatchEnd(input: seq<byte>, ref: nat, pos: nat): nat
    requires ref < pos && pos + 2 < |input|
  {
    pos + MatchLen(input, ref, pos, 2, MaxLen(|input|, pos))
  }

  lemma MatchText(input: seq<byte>, ref: nat, pos: nat)
    requires 0 < ref < pos && pos + 2 < |input| && Agree3(input, ref, pos)
    ensures var l := MatchEnd(input, ref, pos) - pos;
            && 3 <= l <= MAX_REF && pos + l <= |input|
            && CopyBack(input[..pos], ref, l) == input[..pos + l]
  {
    assert input[ref..ref + 3] == input[pos..pos + 3];
    MatchLenAgrees(input, ref, pos, 2, MaxLen(|input|, pos));
    CopyBackAgrees(input, ref, pos, MatchEnd(input, ref, pos) - pos);
  }

  /** The state after taking the match at ref. */
  function TakeMatch(input: seq<byte>, st: State, ref: nat): (r: State)
    requires Probed(input, st) && st.pos + 2 < |input| && ref < st.pos && IsMatch(input, ref, st.pos)
    ensures r.pos == MatchEnd(input, ref, st.pos)
    ensures 3 <= r.pos - st.pos <= MAX_REF
    ensures r.tokens == CloseRun(st.tokens, st.lits) + [Ref(st.pos - ref - 1, r.pos - st.pos)]
    ensures r.lits == [] && Tracks(r.htab, r.pos)
    ensures (r.hval, r.htab) == if r.pos + 2 < |input| then Rehash(input, st.htab, r.pos) else (st.hval, st.htab)
  {
    MatchText(input, ref, st.pos);
    var end := MatchEnd(input, ref, st.pos);
    var tokens := CloseRun(st.tokens, st.lits) + [Ref(st.pos - ref - 1, end - st.pos)];
    if end + 2 >= |input| then State(tokens, [], st.htab, st.hval, end)
    else
      var (hval, htab) := Rehash(input, st.htab, end);
      State(tokens, [], htab, hval, end)
  }

  lemma CloseAndRefer(tokens: seq<Token>, lits: seq<byte>, token: Token)
    requires Play(tokens).Ok? && |lits| <= MAX_LIT
    ensures Play(CloseRun(tokens, lits) + [token]) == PlayToken(Play(tokens).bytes + lits, token)
    ensures |Flat(CloseRun(tokens, lits) + [token])| ==
            |Flat(tokens)| + (if lits == [] then 0 else 1 + |lits|) + |TokenBytes(token)|
  {
    CloseRunPlays(tokens, lits);
    PushToken(CloseRun(tokens, lits), token);
    hide Play, Flat, PlayToken, TokenBytes;
  }

  lemma TakeMatchInv(input: seq<byte>, st: State, ref: nat)
    requires Probed(input, st) && st.pos + 2 < |input| && ref < st.pos && IsMatch(input, ref, st.pos)
    ensures Inv(input, TakeMatch(input, st, ref))
    ensures |Flat(TakeMatch(input, st, ref).tokens)| ==
            OutIndex(st) - (if st.lits == [] then 1 else 0) +
            (if TakeMatch(input, st, ref).pos - st.pos < 9 then 2 else 3)
  {
    hide Play, Flat, CopyBack, TakeMatch, CloseRun;
    var st' := TakeMatch(input, st, ref);
    var off := st.pos - ref - 1;
    MatchText(input, ref, st.pos);
    CloseAndRefer(st.tokens, st.lits, Ref(off, st'.pos - st.pos));
    assert |input[..st.pos]| - off - 1 == ref;
  }

  /** The closing phase copies what is left as literals. */
  function Tail(input: seq<byte>, st: State): (r: seq<byte>)
    requires Spells(input, st)
    decreases |input| - st.pos
  {
    if st.pos == |input| then Flat(CloseRun(st.tokens, st.lits))
    else
      AddLiteralSpells(input, st);
      Tail(input, AddLiteral(st, input[st.pos]))
  }

  /** Enters the current position in the table and returns the candidate found there. */
  function Probe(input: seq<byte>, st: State): (r: (State, nat))
    requires Inv(input, st) && st.pos + 2 < |input|
    ensures r.1 == 0 || r.1 < st.pos
    ensures Probed(input, r.0) && r.0.pos == st.pos
  {
    var hval := Push(st.hval, input[st.pos + 2]);
    (st.(hval := hval, htab := st.htab[Slot(hval) := st.pos]), st.htab[Slot(hval)])
  }

  /** The main loop from a given state. */
  function CompressFrom(input: seq<byte>, st: State): (r: Result)
    requires Inv(input, st)
    decreases |input| - st.pos
  {
    if st.pos + 2 >= |input| then
      if OutIndex(st) + 3 >= |input| then Err(InsufficientBuffer) else Ok(Tail(input, st))
    else
      var (st1, ref) := Probe(input, st);
      if IsMatch(input, ref, st.pos) then
        if OutIndex(st) - (if st.lits == [] then 1 else 0) + 4 >= |input| then Err(InsufficientBuffer)
        else
          TakeMatchInv(input, st1, ref);
          CompressFrom(input, TakeMatch(input, st1, ref))
      else if OutIndex(st) >= |input| then Err(InsufficientBuffer)
      else
        AddLiteralSpells(input, st1);
        CompressFrom(input, AddLiteral(st1, input[st.pos]))
  }

  lemma CompressStep(input: seq<byte>, st: State)
    requires Inv(input, st) && st.pos + 2 < |input|
    ensures var (st1, ref) := Probe(input, st);
            var room := OutIndex(st) - (if st.lits == [] then 1 else 0) + 4 < |input|;
            if IsMatch(input, ref, st.pos) && room then
              && Inv(input, TakeMatch(input, st1, ref))
              && CompressFrom(input, st) == CompressFrom(input, TakeMatch(input, st1, ref))
            else if !IsMatch(input, ref, st.pos) && OutIndex(st) < |input| then
              && Inv(input, AddLiteral(st1, input[st.pos]))
              && CompressFrom(input, st) == CompressFrom(input, AddLiteral(st1, input[st.pos]))
            else CompressFrom(input, st) == Err(InsufficientBuffer)
  {
    var (st1, ref) := Probe(input, st);
    if IsMatch(input, ref, st.pos) {
      TakeMatchInv(input, st1, ref);
    } else {
      AddLiteralSpells(input, st1);
    }
  }

  function Start(input: seq<byte>): (st: State)
    requires |input| >= 2
    ensures Inv(input, st)
  {
    State([], [], seq(HTAB_SIZE, _ => 0), Hash2(input, 0), 0)
  }

  /** What Compress computes. */
  function Compressed(input: seq<byte>): Result
    requires |input| != 1 && |input| < TWO_32
  {
    if input == [] then Ok([]) else CompressFrom(input, Start(input))
  }


  // ----- the in-place compressor

  /** The output array holds the closed tokens, one byte reserved for the open run's header, and the
      open run. The index may stand one past the end right after a full run was closed. */
  ghost predicate Holds(output: array<byte>, outputIndex: nat, lit: nat, st: State)
    reads output
  {
    && lit == |st.lits| && outputIndex == OutIndex(st)
    && outputIndex - lit - 1 <= output.Length && (lit > 0 ==> outputIndex <= output.Length)
    && output[..outputIndex - lit - 1] == Flat(st.tokens)
    && (lit > 0 ==> output[outputIndex - lit..outputIndex] == st.lits)
  }

  /** Writes a finished run's header over the byte reserved for it. */
  method StoreHeader(output: array<byte>, outputIndex: nat, lit: nat, ghost before: seq<byte>)
    requires 1 <= lit <= MAX_LIT && lit < outputIndex <= output.Length
    requires output[..outputIndex - lit - 1] == before
    modifies output
    ensures output[..outputIndex] == before + ([lit - 1] + old(output[outputIndex - lit..outputIndex]))
  {
    output[outputIndex - lit - 1] := lit - 1;
  }

  /** Stores one literal byte; a run that reaches 32 bytes gets its header written back and is closed. */
  method PutLiteral(output: array<byte>, outputIndex: nat, lit: nat, b: byte, ghost st: State)
    returns (outputIndex': nat, lit': nat)
    requires Holds(output, outputIndex, lit, st) && lit < MAX_LIT && outputIndex < output.Length
    modifies output
    ensures Holds(output, outputIndex', lit', AddLiteral(st, b))
  {
    lit' := lit + 1;
    output[outputIndex] := b;
    outputIndex' := outputIndex + 1;
    assert output[outputIndex - lit..outputIndex + 1] == st.lits + [b] by {
      assert lit > 0 ==> output[outputIndex - lit..outputIndex] == st.lits;
    }
    if lit' == MAX_LIT {
      StoreHeader(output, outputIndex', lit', Flat(st.tokens));
      PushToken(st.tokens, Literal(st.lits + [b]));
      lit' := 0;
      outputIndex' := outputIndex' + 1;
    }
  }

  /** Writes the header of the open run over its reserved byte; an empty run gives the byte back. */
  method StopRun(output: array<byte>, outputIndex: nat, lit: nat, ghost st: State) returns (outputIndex': nat)
    requires Holds(output, outputIndex, lit, st) && lit < MAX_LIT && outputIndex <= output.Length
    modifies output
    ensures outputIndex' == (if lit == 0 then outputIndex - 1 else outputIndex)
    ensures output[..outputIndex'] == Flat(CloseRun(st.tokens, st.lits))
  {
    hide Flat, Play;
    outputIndex' := outputIndex;
    if lit == 0 {
      ghost var before := output[..outputIndex - 1];
      output[outputIndex - 1] := 255;  // byte(lit - 1), then given back
      outputIndex' := outputIndex' - 1;
      assert output[..outputIndex'] == before;
    } else {
      assert output[outputIndex - lit..outputIndex] == st.lits;
      StoreHeader(output, outputIndex, lit, Flat(st.tokens));
      PushToken(st.tokens, Literal(st.lits));
    }
  }

  /** Writes a back reference and reserves the next run's header. */
  method PutRef(output: array<byte>, outputIndex: nat, off: nat, len: nat) returns (outputIndex': nat)
    requires outputIndex + 3 <= output.Length && off < MAX_OFF && 1 <= len <= MAX_REF - 2
    modifies output
    ensures outputIndex' == outputIndex + |RefBytes(off, len + 2)| + 1
    ensures output[..outputIndex' - 1] == old(output[..outputIndex]) + RefBytes(off, len + 2)
  {
    outputIndex' := outputIndex;
    if len < 7 {
      output[outputIndex'] := (off / 256 + len * 32) % 256;
      outputIndex' := outputIndex' + 1;
    } else {
      output[outputIndex'] := (off / 256 + 224) % 256;
      output[outputIndex' + 1] := (len - 7) % 256;
      outputIndex' := outputIndex' + 2;
    }
    output[outputIndex'] := off % 256;
    outputIndex' := outputIndex' + 2;
  }

  /** The match-extension loop, with the length counting the bytes known to agree. */
  method ExtendMatch(input: seq<byte>, ref: nat, pos: nat) returns (len: nat)
    requires ref < pos && pos + 2 < |input|
    ensures len == MatchLen(input, ref, pos, 2, MaxLen(|input|, pos))
  {
    len := 2;
    var maxLen := |input| - pos - len;
    if maxLen > MAX_REF {
      maxLen := MAX_REF;
    }
    while true
      invariant len >= 2 && MatchLen(input, ref, pos, len, maxLen) == MatchLen(input, ref, pos, 2, maxLen)
      decreases maxLen - len
    {
      len := len + 1;
      if len >= maxLen || input[ref + len] != input[pos + len] {
        break;
      }
    }
  }

  /** Looks the next three bytes up in the hash table and enters the current position. */
  method LookUp(input: seq<byte>, htab: array<nat>, hval: nat, inputIndex: nat, ghost st: State)
    returns (hval': nat, ref: nat, off: nat)
    requires Inv(input, st) && st.pos == inputIndex && inputIndex + 2 < |input| < TWO_32
    requires st.hval == hval && st.htab == htab[..]
    modifies htab
    ensures Probe(input, st) == (st.(hval := hval', htab := htab[..]), ref)
    ensures off == (inputIndex - ref - 1) % TWO_32
    ensures ref > 0 ==> off == inputIndex - ref - 1
  {
    hval' := Push(hval, input[inputIndex + 2]);
    var hslot := Slot(hval');
    ref := htab[hslot];
    htab[hslot] := inputIndex % TWO_32;
    off := (inputIndex - ref - 1) % TWO_32;
  }

  /** Re-enters the last two positions of a match. */
  method Reenter(input: seq<byte>, htab: array<nat>, end: nat) returns (hval: nat)
    requires 2 <= end < |input| - 2 && |input| < TWO_32 && htab.Length == HTAB_SIZE
    modifies htab
    ensures (hval, htab[..]) == Rehash(input, old(htab[..]), end)
  {
    hide Push, Slot;
    var inputIndex := end - 2;
    hval := Hash2(input, inputIndex);
    hval := Push(hval, input[inputIndex + 2]);
    htab[Slot(hval)] := inputIndex % TWO_32;
    inputIndex := inputIndex + 1;
    hval := Push(hval, input[inputIndex + 2]);
    htab[Slot(hval)] := inputIndex % TWO_32;
  }

  /** Closes the open run, measures the match and writes its back reference. */
  method PutMatch(input: seq<byte>, pos: nat, ref: nat, off: nat, output: array<byte>, outputIndex: nat, lit: nat,
                  ghost st: State)
    returns (pos': nat, outputIndex': nat)
    requires Probed(input, st) && st.pos == pos && pos + 2 < |input| && ref < pos && IsMatch(input, ref, pos)
    requires off == pos - ref - 1 && output.Length == |input|
    requires Holds(output, outputIndex, lit, st) && outputIndex - (if lit == 0 then 1 else 0) + 4 < |input|
    modifies output
    ensures pos' == TakeMatch(input, st, ref).pos && Holds(output, outputIndex', 0, TakeMatch(input, st, ref))
  {
    hide Play, Flat, Tracks, MatchLen, TakeMatch, PlayToken, RefBytes, CloseRun;
    MatchText(input, ref, pos);
    outputIndex' := StopRun(output, outputIndex, lit, st);
    var len := ExtendMatch(input, ref, pos);
    outputIndex' := PutRef(output, outputIndex', off, len - 2);
    pos' := pos + len;
    PushToken(CloseRun(st.tokens, st.lits), Ref(off, len));
  }

  /** Copies the last bytes as literals and closes the last run. */
  method PutTail(input: seq<byte>, pos: nat, output: array<byte>, outputIndex: nat, lit: nat, ghost st: State)
    returns (end: nat)
    requires Spells(input, st) && st.pos == pos && output.Length == |input| <= pos + 2
    requires Holds(output, outputIndex, lit, st) && outputIndex + 3 < |input|
    modifies output
    ensures end <= output.Length && output[..end] == Tail(input, st)
  {
    hide Play, Flat;
    var inputIndex: nat, lit': nat := pos, lit;
    end := outputIndex;
    ghost var now := st;
    while inputIndex < |input|
      invariant Spells(input, now) && now.pos == inputIndex && Holds(output, end, lit', now)
      invariant Tail(input, now) == Tail(input, st)
      invariant end + (|input| - inputIndex) + (if lit' + |input| - inputIndex >= MAX_LIT then 1 else 0) <= |input|
    {
      end, lit' := PutLiteral(output, end, lit', input[inputIndex], now);
      inputIndex := inputIndex + 1;
      AddLiteralSpells(input, now);
      now := AddLiteral(now, input[now.pos]);
    }
    end := StopRun(output, end, lit', now);
  }

  /** The loop variables of the compressor stand for the state st. */
  ghost predicate Mirrors(input: seq<byte>, output: array<byte>, htab: array<nat>, hval: nat,
                          inputIndex: nat, outputIndex: nat, lit: nat, st: State)
    reads output, htab
  {
    && Inv(input, st) && st.pos == inputIndex && st.hval == hval && st.htab == htab[..]
    && output.Length == |input| && Holds(output, outputIndex, lit, st)
  }

  /** One pass of the main loop: a match or a literal. */
  method CompressOne(input: seq<byte>, output: array<byte>, htab: array<nat>, hval: nat,
                     inputIndex: nat, outputIndex: nat, lit: nat, ghost st: State)
    returns (ok: bool, hval': nat, inputIndex': nat, outputIndex': nat, lit': nat, ghost st': State)
    requires Mirrors(input, output, htab, hval, inputIndex, outputIndex, lit, st)
    requires inputIndex + 2 < |input| < TWO_32
    modifies output, htab
    ensures !ok ==> CompressFrom(input, st) == Err(InsufficientBuffer)
    ensures ok ==> inputIndex' > inputIndex && Mirrors(input, output, htab, hval', inputIndex', outputIndex', lit', st')
    ensures ok ==> CompressFrom(input, st) == CompressFrom(input, st')
  {
    hide Play, Flat, MatchLen, Tail, Probe, TakeMatch, CompressFrom, Rehash;
    CompressStep(input, st);
    ghost var st1 := Probe(input, st).0;
    var ref, off;
    ok, inputIndex', outputIndex', lit', st' := true, inputIndex, outputIndex, lit, st1;
    hval', ref, off := LookUp(input, htab, hval, inputIndex, st);
    if off < MAX_OFF && ref > 0 && Agree3(input, ref, inputIndex) {
      if outputIndex + 4 >= |input| {
        var nlit := if lit == 0 then 1 else 0;
        if outputIndex - nlit + 4 >= |input| {
          ok := false;
          return;
        }
      }
      st' := TakeMatch(input, st1, ref);
      inputIndex', outputIndex' := PutMatch(input, inputIndex, ref, off, output, outputIndex, lit, st1);
      lit' := 0;
      if inputIndex' < |input| - 2 {
        hval' := Reenter(input, htab, inputIndex');
      }
    } else {
      if outputIndex >= |input| {
        ok := false;
        return;
      }
      st' := AddLiteral(st1, input[st.pos]);
      outputIndex', lit' := PutLiteral(output, outputIndex, lit, input[inputIndex], st1);
      inputIndex' := inputIndex + 1;
    }
  }

  /** The in-place compressor: every index is in range, and the result is that of Compressed. */
  method Compress(input: seq<byte>) returns (r: Result)
    requires |input| != 1 && |input| < TWO_32
    ensures r == Compressed(input)
  {
    if |input| == 0 {
      return Ok([]);
    }
    var output := new byte[|input|](_ => 0);
    var htab := new nat[HTAB_SIZE](_ => 0);
    var inputIndex: nat, outputIndex: nat, lit: nat := 0, 1, 0;
    var hval := Hash2(input, inputIndex);
    ghost var st := Start(input);
    assert htab[..] == st.htab;
    while inputIndex < |input| - 2
      invariant Mirrors(input, output, htab, hval, inputIndex, outputIndex, lit, st)
      invariant CompressFrom(input, st) == Compressed(input)
    {
      hide Mirrors, CompressFrom, Inv;
      var ok;
      ok, hval, inputIndex, outputIndex, lit, st :=
        CompressOne(input, output, htab, hval, inputIndex, outputIndex, lit, st);
      if !ok {
        return Err(InsufficientBuffer);
      }
    }
    if outputIndex + 3 >= |input| {
      return Err(InsufficientBuffer);
    }
    outputIndex := PutTail(input, inputIndex, output, outputIndex, lit, st);
    r := Ok(output[..outputIndex]);
  }

  // ----- round trip

  lemma {:induction false} TailPlays(input: seq<byte>, st: State, cap: nat)
    requires Spells(input, st) && |input| <= cap
    requires OutIndex(st) + |input| - st.pos + (if |st.lits| + |input| - st.pos >= MAX_LIT then 1 else 0) < |input|
    requires |input| - st.pos <= 2
    ensures |Tail(input, st)| < |input|
    ensures Expand(Tail(input, st), [], cap) == Ok(input)
    decreases |input| - st.pos
  {
    if st.pos == |input| {
      var tokens := CloseRun(st.tokens, st.lits);
      CloseRunPlays(st.tokens, st.lits);
      ExpandFlat(tokens, [], cap);
      assert Flat(tokens) + [] == Flat(tokens) && input[..st.pos] == input;
    } else {
      AddLiteralSpells(input, st);
      TailPlays(input, AddLiteral(st, input[st.pos]), cap);
    }
  }

  lemma {:induction false} CompressFromRoundTrip(input: seq<byte>, st: State, cap: nat)
    requires Inv(input, st) && |input| <= cap && CompressFrom(input, st).Ok?
    ensures |CompressFrom(input, st).bytes| < |input|
    ensures Expand(CompressFrom(input, st).bytes, [], cap) == Ok(input)
    decreases |input| - st.pos
  {
    if st.pos + 2 >= |input| {
      TailPlays(input, st, cap);
    } else {
      hide Play, Flat, CompressFrom;
      CompressStep(input, st);
      var (st1, ref) := Probe(input, st);
      if IsMatch(input, ref, st.pos) {
        CompressFromRoundTrip(input, TakeMatch(input, st1, ref), cap);
      } else {
        CompressFromRoundTrip(input, AddLiteral(st1, input[st.pos]), cap);
      }
    }
  }

  /** Whatever the compressor accepts, the decompressor restores, for any output limit that fits; and
      the compressed form is strictly shorter. */
  lemma RoundTrip(input: seq<byte>, cap: nat)
    requires |input| >= 2 && |input| < TWO_32 && |input| <= cap && Compressed(input).Ok?
    ensures |Compressed(input).bytes| < |input|
    ensures Expand(Compressed(input).bytes, [], cap) == Ok(input)
  {
    CompressFromRoundTrip(input, Start(input), cap);
  }
}
