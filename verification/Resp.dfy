/**
 Command lines in the Redis serialization protocol: the writer's bytes, and a reader that follows the
 lengths. What is written reads back as the same commands, absent arguments included, whatever bytes
 the arguments hold.
 */
module Resp {
  import opened Bytes
  import opened Parsing

  /** None is a nil slice. */
  type Arg = Option<seq<byte>>
  type CmdLine = seq<Arg>

  const STAR: byte := 42
  const DOLLAR: byte := 36
  const CRLF: seq<byte> := [13, 10]
  const NIL_BULK: seq<byte> := [36, 45, 49, 13, 10]  // "$-1\r\n"

  // ----- writing

  function NumberLine(mark: byte, n: nat): seq<byte>
  {
    [mark] + (NatText(n) + CRLF)
  }

  function EncArg(arg: Arg): seq<byte>
  {
    match arg
    case None => NIL_BULK
    case Some(s) => NumberLine(DOLLAR, |s|) + (s + CRLF)
  }

  function EncArgs(args: CmdLine): seq<byte>
  {
    if args == [] then [] else EncArg(args[0]) + EncArgs(args[1..])
  }

  /** makeMultiBulkResp */
  function EncCmd(args: CmdLine): seq<byte>
  {
    NumberLine(STAR, |args|) + EncArgs(args)
  }

  /** CmdLinesToResp */
  function EncCmds(cmds: seq<CmdLine>): seq<byte>
  {
    if cmds == [] then [] else EncCmd(cmds[0]) + EncCmds(cmds[1..])
  }

  method MakeMultiBulkResp(args: CmdLine) returns (buf: seq<byte>)
    ensures buf == EncCmd(args)
  {
    hide NatText, EncArg;
    buf := [STAR] + (NatText(|args|) + CRLF);
    assert args[0..] == args;
    for i := 0 to |args|
      invariant buf + EncArgs(args[i..]) == EncCmd(args)
    {
      assert args[i..][1..] == args[i + 1..];
      var piece := BulkOf(args[i]);
      Assoc(buf, piece, EncArgs(args[i + 1..]));
      buf := buf + piece;
    }
    assert buf + [] == buf;
  }

  method BulkOf(arg: Arg) returns (piece: seq<byte>)
    ensures piece == EncArg(arg)
  {
    hide NatText;
    if arg == None {
      piece := [DOLLAR, 45, 49] + CRLF;
    } else {
      piece := [DOLLAR] + NatText(|arg.value|) + CRLF + arg.value + CRLF;
    }
  }

  method CmdLinesToResp(cmds: seq<CmdLine>) returns (buf: seq<byte>)
    ensures buf == EncCmds(cmds)
  {
    hide EncCmd;
    buf := [];
    assert cmds[0..] == cmds;
    for i := 0 to |cmds|
      invariant buf + EncCmds(cmds[i..]) == EncCmds(cmds)
    {
      assert cmds[i..][1..] == cmds[i + 1..];
      var resp := MakeMultiBulkResp(cmds[i]);
      Assoc(buf, resp, EncCmds(cmds[i + 1..]));
      buf := buf + resp;
    }
    assert buf + [] == buf;
  }

  /** The loop of WriteObjectToResp for one command: every line, argument and line end is a piece of its
      own, and then the pieces are written one by one. */
  method WriteCommand(args: CmdLine, w: seq<byte>) returns (written: seq<byte>)
    ensures written == w + EncCmd(args)
  {
    hide NatText, EncArg;
    var respBytes := [NumberLine(STAR, |args|)];
    ghost var pieces := NumberLine(STAR, |args|);
    assert args[0..] == args;
    OnePiece(pieces);
    for i := 0 to |args|
      invariant Joined(respBytes) == pieces && pieces + EncArgs(args[i..]) == EncCmd(args)
    {
      assert args[i..][1..] == args[i + 1..];
      var more := PiecesOf(args[i]);
      JoinedConcat(respBytes, more);
      Assoc(pieces, EncArg(args[i]), EncArgs(args[i + 1..]));
      respBytes, pieces := respBytes + more, pieces + EncArg(args[i]);
    }
    assert pieces + [] == pieces;
    written := w;
    assert respBytes[0..] == respBytes;
    for i := 0 to |respBytes|
      invariant written + Joined(respBytes[i..]) == w + Joined(respBytes)
    {
      assert respBytes[i..][1..] == respBytes[i + 1..];
      Assoc(written, respBytes[i], Joined(respBytes[i + 1..]));
      written := written + respBytes[i];
    }
    assert written + [] == written;
  }

  function Joined(pieces: seq<seq<byte>>): seq<byte>
  {
    if pieces == [] then [] else pieces[0] + Joined(pieces[1..])
  }

  lemma OnePiece(piece: seq<byte>)
    ensures Joined([piece]) == piece
  {
    assert piece + [] == piece;
  }

  lemma {:induction false} JoinedConcat(a: seq<seq<byte>>, b: seq<seq<byte>>)
    ensures Joined(a + b) == Joined(a) + Joined(b)
  {
    if a == [] {
      assert a + b == b;
    } else {
      assert (a + b)[1..] == a[1..] + b;
      JoinedConcat(a[1..], b);
      Assoc(a[0], Joined(a[1..]), Joined(b));
    }
  }

  method PiecesOf(arg: Arg) returns (pieces: seq<seq<byte>>)
    ensures Joined(pieces) == EncArg(arg)
  {
    hide NatText;
    if arg == None {
      pieces := [[DOLLAR, 45, 49] + CRLF];
      OnePiece([DOLLAR, 45, 49] + CRLF);
    } else {
      pieces := [NumberLine(DOLLAR, |arg.value|), arg.value, CRLF];
      OnePiece(CRLF);
      assert pieces[1..] == [arg.value, CRLF] && pieces[1..][1..] == [CRLF];
    }
  }

  // ----- reading

  function DigitRun(s: seq<byte>): (n: nat)
    ensures n <= |s| && AllDigits(s[..n])
  {
    if s != [] && IsDigit(s[0]) then
      var n := 1 + DigitRun(s[1..]);
      assert forall i :: 1 <= i < n ==> s[..n][i] == s[1..][i - 1];
      n
    else 0
  }

  function PEnd(s: seq<byte>): (p: Parsed<()>)
    ensures p.Got? ==> |p.rest| < |s|
  {
    if CRLF <= s then Got((), s[2..]) else Bad
  }

  /** A mark, a number and a line end. */
  function PNumber(mark: byte, s: seq<byte>): (p: Parsed<nat>)
    ensures p.Got? ==> |p.rest| < |s|
  {
    var (b, t) :- PByte(s);
    var n := DigitRun(t);
    if b != mark || n == 0 then Bad
    else
      var (_, u) :- PEnd(t[n..]);
      Got(TextNat(t[..n]), u)
  }

  function PArg(s: seq<byte>): (p: Parsed<Arg>)
    ensures p.Got? ==> |p.rest| < |s|
  {
    if NIL_BULK <= s then Got(None, s[5..])
    else
      var (n, t) :- PNumber(DOLLAR, s);
      var (text, u) :- PBytes(t, n);
      var (_, w) :- PEnd(u);
      Got(Some(text), w)
  }

  function PArgs(s: seq<byte>, n: nat): (p: Parsed<CmdLine>)
    ensures p.Got? ==> |p.rest| <= |s|
    decreases n
  {
    if n == 0 then Got([], s)
    else
      var (arg, t) :- PArg(s);
      var (args, u) :- PArgs(t, n - 1);
      Got([arg] + args, u)
  }

  function PCmd(s: seq<byte>): (p: Parsed<CmdLine>)
    ensures p.Got? ==> |p.rest| < |s|
  {
    var (n, t) :- PNumber(STAR, s);
    PArgs(t, n)
  }

  /** All commands, to the end of the input. */
  function PCmds(s: seq<byte>): Option<seq<CmdLine>>
    decreases |s|
  {
    if s == [] then Some([])
    else
      match PCmd(s)
      case Bad => None
      case Got(cmd, t) =>
        match PCmds(t)
        case None => None
        case Some(cmds) => Some([cmd] + cmds)
  }

  // ----- round trip

  lemma {:induction false} RunEnds(a: seq<byte>, t: seq<byte>)
    requires AllDigits(a) && t != [] && !IsDigit(t[0])
    ensures DigitRun(a + t) == |a|
  {
    if a == [] {
      assert a + t == t;
    } else {
      assert (a + t)[1..] == a[1..] + t;
      RunEnds(a[1..], t);
    }
  }

  lemma EndRead(t: seq<byte>)
    ensures PEnd(CRLF + t) == Got((), t)
  {
    assert (CRLF + t)[2..] == t && (CRLF + t)[..2] == CRLF;
  }

  lemma NumberRoundTrip(mark: byte, n: nat, t: seq<byte>)
    ensures PNumber(mark, NumberLine(mark, n) + t) == Got(n, t)
  {
    hide NatText, PEnd, DigitRun;
    NatTextCanonical(n);
    var (digits, rest) := (NatText(n), CRLF + t);
    Assoc3([mark], digits, CRLF, t);
    PByteOf(mark, digits + rest);
    RunEnds(digits, rest);
    assert (digits + rest)[..|digits|] == digits && (digits + rest)[|digits|..] == rest;
    EndRead(t);
  }

  lemma ArgRoundTrip(arg: Arg, t: seq<byte>)
    ensures PArg(EncArg(arg) + t) == Got(arg, t)
  {
    hide NatText, PNumber, PEnd;
    match arg
    case None => assert (NIL_BULK + t)[5..] == t && (NIL_BULK + t)[..5] == NIL_BULK;
    case Some(s) =>
      Assoc3(NumberLine(DOLLAR, |s|), s, CRLF, t);
      NumberRoundTrip(DOLLAR, |s|, s + (CRLF + t));
      PBytesOf(s, CRLF + t);
      EndRead(t);
      NotNil(|s|, s + CRLF + t);
      Assoc(s, CRLF, t);
  }

  /** A length starts with a digit, not with a minus. */
  lemma NotNil(n: nat, t: seq<byte>)
    ensures !(NIL_BULK <= NumberLine(DOLLAR, n) + t)
  {
    hide NatText;
    NatTextCanonical(n);
    assert (NumberLine(DOLLAR, n) + t)[1] == NatText(n)[0];
  }

  lemma {:induction false} ArgsRoundTrip(args: CmdLine, t: seq<byte>)
    ensures PArgs(EncArgs(args) + t, |args|) == Got(args, t)
  {
    hide EncArg, PArg;
    if args == [] {
      assert EncArgs(args) + t == t;
    } else {
      Assoc(EncArg(args[0]), EncArgs(args[1..]), t);
      ArgRoundTrip(args[0], EncArgs(args[1..]) + t);
      ArgsRoundTrip(args[1..], t);
      assert args == [args[0]] + args[1..];
    }
  }

  lemma CmdRoundTrip(args: CmdLine, t: seq<byte>)
    ensures PCmd(EncCmd(args) + t) == Got(args, t)
  {
    hide NumberLine, PNumber, EncArgs, PArgs;
    Assoc(NumberLine(STAR, |args|), EncArgs(args), t);
    NumberRoundTrip(STAR, |args|, EncArgs(args) + t);
    ArgsRoundTrip(args, t);
  }

  /** Any commands, written one after the other, read back as the same commands. */
  lemma {:induction false} CmdsRoundTrip(cmds: seq<CmdLine>)
    ensures PCmds(EncCmds(cmds)) == Some(cmds)
  {
    hide EncCmd, PCmd;
    if cmds != [] {
      CmdRoundTrip(cmds[0], EncCmds(cmds[1..]));
      CmdsRoundTrip(cmds[1..]);
      assert cmds == [cmds[0]] + cmds[1..];
      NonEmptyCmd(cmds[0], EncCmds(cmds[1..]));
    }
  }

  lemma NonEmptyCmd(args: CmdLine, t: seq<byte>)
    ensures EncCmd(args) + t != []
  {
    hide NatText, EncArgs;
  }
}
