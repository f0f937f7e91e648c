/** A stream node in literal bytes, as it is packed and as it is read. */
module StreamExamples {
  import opened Bytes
  import opened Parsing
  import opened Hashes
  import opened Lists
  import opened ListPack
  import opened Streams

  /** A small integer, a byte followed by its length. */
  lemma FrameInt(v: nat, rest: seq<LpEntry>)
    requires v <= 127 && AllLpWritable(rest)
    ensures AllLpWritable([IntItem(v)] + rest) && Frames([IntItem(v)] + rest) == [v, 1] + Frames(rest)
  {
    assert ([IntItem(v)] + rest)[1..] == rest;
    FramedInt(v);
    hide Framed, Frames;
    FramesAre(IntItem(v), rest);
  }

  lemma FramedInt(v: nat)
    requires v <= 127
    ensures LpWritable(IntItem(v)) && Framed(IntItem(v)) == [v, 1]
  {
  }

  lemma FramedLetter(c: byte)
    ensures LpWritable(StrItem([c])) && Framed(StrItem([c])) == [129, c, 2]
  {
  }

  lemma FramesAre(e: LpEntry, rest: seq<LpEntry>)
    requires LpWritable(e) && AllLpWritable(rest)
    ensures AllLpWritable([e] + rest) && Frames([e] + rest) == Framed(e) + Frames(rest)
  {
    hide Framed, LpWritable;
    assert ([e] + rest)[1..] == rest;
  }

  lemma FrameLetter(c: byte, rest: seq<LpEntry>)
    requires AllLpWritable(rest)
    ensures AllLpWritable([StrItem([c])] + rest) && Frames([StrItem([c])] + rest) == [129, c, 2] + Frames(rest)
  {
    FramedLetter(c);
    hide Framed, Frames;
    FramesAre(StrItem([c]), rest);
  }

  lemma OneDigit()
    ensures NatText(1) == [49]
  {
  }

  // ----- the node

  /** Two deleted messages with one field each: the first has the master's field name, the second brings its own. */
  function Node(): StreamEntry
  {
    StreamEntry(StreamId(5, 0), [[97]],
                [Message(StreamId(5, 0), map[[97] := [98]], true), Message(StreamId(7, 3), map[[99] := [100]], true)])
  }

  function NodeOrders(): seq<Values>
  {
    [[[97]], [[99]]]
  }

  function HeadBytes(): seq<byte>
  {
    [0, 1, 2, 1, 1, 1, 129, 97, 2, 129, 49, 2]
  }

  function FirstBytes(): seq<byte>
  {
    [3, 1, 0, 1, 0, 1, 129, 98, 2, 129, 49, 2]
  }

  function SecondBytes(): seq<byte>
  {
    [1, 1, 2, 1, 3, 1, 1, 1, 129, 99, 2, 129, 100, 2, 129, 49, 2]
  }

  lemma HeadFrames(rest: seq<LpEntry>)
    requires AllLpWritable(rest)
    ensures AllLpWritable(HeadItems(Node()) + rest)
    ensures Frames(HeadItems(Node()) + rest) == HeadBytes() + Frames(rest)
  {
    hide Frames, LpWritable;
    OneDigit();
    DeletedTwo();
    var i5 := [StrItem([49])] + rest;
    FrameLetter(49, rest);
    var i4 := [StrItem([97])] + i5;
    FrameLetter(97, i5);
    var i3 := [IntItem(1)] + i4;
    FrameInt(1, i4);
    var i2 := [IntItem(2)] + i3;
    FrameInt(2, i3);
    FrameInt(0, i2);
    assert HeadItems(Node()) + rest == [IntItem(0)] + i2;
    assert Frames([IntItem(0)] + i2) == HeadBytes() + Frames(rest);
  }

  lemma DeletedTwo()
    ensures DeletedCount(Node().msgs) == 2 && |Node().fields| == 1 && |Node().msgs| == 2
    ensures StrItems(Node().fields) == [StrItem([97])]
  {
    var msgs := Node().msgs;
    assert msgs[..2][..1] == [msgs[0]] && msgs[..1][..0] == [];
    assert [[97]][1..] == [];
  }

  lemma FirstFrames(rest: seq<LpEntry>)
    requires AllLpWritable(rest)
    ensures var msg := Node().msgs[0];
            && InMap([[97]], msg.fields)
            && AllLpWritable(MsgItems(msg, StreamId(5, 0), [[97]], [[97]]) + rest)
            && Frames(MsgItems(msg, StreamId(5, 0), [[97]], [[97]]) + rest) == FirstBytes() + Frames(rest)
            && |MsgItems(msg, StreamId(5, 0), [[97]], [[97]])| == 5
  {
    hide Frames, LpWritable;
    OneDigit();
    var m: Fields := map[[97] := [98]];
    assert m.Keys == {[97]} && |m| == 1;
    assert SameFields(m, [[97]]);
    assert ValueItems([[97]], m) == [StrItem([98])] + [];
    var i4 := [StrItem([49])] + rest;
    FrameLetter(49, rest);
    var i3 := [StrItem([98])] + i4;
    FrameLetter(98, i4);
    var i2 := [IntItem(0)] + i3;
    FrameInt(0, i3);
    var i1 := [IntItem(0)] + i2;
    FrameInt(0, i2);
    FrameInt(3, i1);
    var msg := Node().msgs[0];
    assert MsgItems(msg, StreamId(5, 0), [[97]], [[97]]) + rest == [IntItem(3)] + i1;
    assert Frames([IntItem(3)] + i1) == FirstBytes() + Frames(rest);
  }

  lemma SecondFields()
    ensures var m: Fields := map[[99] := [100]];
            |m| == 1 && !SameFields(m, [[97]]) && InMap([[99]], m)
            && FieldItems(m, [[97]], [[99]]) == [IntItem(1), StrItem([99]), StrItem([100])]
  {
    var m: Fields := map[[99] := [100]];
    assert m.Keys == {[99]} && |m| == 1;
    assert [97][0] != [99][0];
    assert [97] !in m && [[97]][0] == [97];
    assert [[99]][1..] == [];
    assert PairItems([[99]], m) == [StrItem([99])] + ([StrItem([100])] + []);
  }

  lemma SecondFrames(rest: seq<LpEntry>)
    requires AllLpWritable(rest)
    ensures var msg := Node().msgs[1];
            && InMap([[99]], msg.fields)
            && AllLpWritable(MsgItems(msg, StreamId(5, 0), [[97]], [[99]]) + rest)
            && Frames(MsgItems(msg, StreamId(5, 0), [[97]], [[99]]) + rest) == SecondBytes() + Frames(rest)
            && |MsgItems(msg, StreamId(5, 0), [[97]], [[99]])| == 7
  {
    hide Frames, LpWritable, FieldItems, SameFields;
    OneDigit();
    SecondFields();
    var i6 := [StrItem([49])] + rest;
    FrameLetter(49, rest);
    var i5 := [StrItem([100])] + i6;
    FrameLetter(100, i6);
    var i4 := [StrItem([99])] + i5;
    FrameLetter(99, i5);
    var i3 := [IntItem(1)] + i4;
    FrameInt(1, i4);
    var i2 := [IntItem(3)] + i3;
    FrameInt(3, i3);
    var i1 := [IntItem(2)] + i2;
    FrameInt(2, i2);
    FrameInt(1, i1);
    var msg := Node().msgs[1];
    assert MsgItems(msg, StreamId(5, 0), [[97]], [[99]]) + rest == [IntItem(1)] + i1;
    assert Frames([IntItem(1)] + i1) == SecondBytes() + Frames(rest);
  }

  lemma NodeFits()
    ensures EntryWritable(Node(), NodeOrders()) && EntryOk(Node())
  {
    hide MsgWritable, MsgOk;
    DeletedTwo();
    FirstFits();
    SecondFits();
  }

  lemma FirstFits()
    ensures MsgWritable(Node().msgs[0], [[97]]) && MsgOk(Node().msgs[0], StreamId(5, 0), [[97]])
  {
    var m: Fields := map[[97] := [98]];
    assert m.Keys == {[97]} && |m| == 1;
    assert [97] == [[97]][0];
  }

  lemma SecondFits()
    ensures MsgWritable(Node().msgs[1], [[99]]) && MsgOk(Node().msgs[1], StreamId(5, 0), [[97]])
  {
    var m: Fields := map[[99] := [100]];
    assert m.Keys == {[99]};
    SecondFields();
  }

  lemma NodeFrames()
    ensures Orders(Node().msgs, NodeOrders()) && AllLpWritable(EntryItems(Node(), NodeOrders()))
    ensures |EntryItems(Node(), NodeOrders())| == 17
    ensures Frames(EntryItems(Node(), NodeOrders())) == HeadBytes() + FirstBytes() + SecondBytes()
  {
    hide Frames, LpWritable, MsgItems, HeadItems, FieldItems, EntryOk, HeadBytes, FirstBytes, SecondBytes;
    NodeFits();
    NoneLeft();
    SecondFrames([]);
    var e, orders := Node(), NodeOrders();
    var second := MsgItems(e.msgs[1], StreamId(5, 0), [[97]], [[99]]);
    assert second + [] == second;
    FirstFrames(second);
    var first := MsgItems(e.msgs[0], StreamId(5, 0), [[97]], [[97]]);
    HeadFrames(first + second);
    MsgsTwo();
    HeadFive();
  }

  lemma NoneLeft()
    ensures AllLpWritable([]) && Frames([]) == []
  {
  }

  lemma HeadFive()
    ensures |HeadItems(Node())| == 5
  {
    DeletedTwo();
  }

  lemma MsgsTwo()
    ensures Orders(Node().msgs, NodeOrders())
    ensures var (e, orders) := (Node(), NodeOrders());
            MsgsItems(e.msgs, e.firstMsgId, e.fields, orders) ==
            MsgItems(e.msgs[0], StreamId(5, 0), [[97]], [[97]]) + MsgItems(e.msgs[1], StreamId(5, 0), [[97]], [[99]])
  {
    hide MsgItems, FieldItems, EntryOk;
    NodeFits();
    var e, orders := Node(), NodeOrders();
    assert e.msgs[1..] == [e.msgs[1]] && orders[1..] == [orders[1]];
    assert e.msgs[1..][1..] == [];
    var second := MsgItems(e.msgs[1], StreamId(5, 0), [[97]], [[99]]);
    assert MsgsItems(e.msgs[1..], e.firstMsgId, e.fields, orders[1..]) == second + [];
  }

  /** The node as it is packed, and what these bytes read as. */
  lemma NodeExample()
    ensures Orders(Node().msgs, NodeOrders()) && AllLpWritable(EntryItems(Node(), NodeOrders()))
    ensures EncPack(EntryItems(Node(), NodeOrders())) == NodeBytes()
    ensures PPack(NodeBytes(), StreamId(5, 0)) == Some(Node())
  {
    hide EntryItems, Frames, LpWritable, EntryOk, EntryWritable, PPack, HeadBytes, FirstBytes, SecondBytes, LE,
      NodeBytes, EncPack, Orders;
    NodeFits();
    NodeFrames();
    PackIff(Node(), NodeOrders());
    SizeBytes();
    Joined();
    PackIs(EntryItems(Node(), NodeOrders()));
  }

  lemma PackIs(entries: seq<LpEntry>)
    requires AllLpWritable(entries)
    ensures EncPack(entries) == LE(6 + |Frames(entries)|, 4) + LE(|entries|, 2) + Frames(entries)
  {
    hide LE, Frames, LpWritable;
  }

  function NodeBytes(): seq<byte>
  {
    [47, 0, 0, 0, 17, 0] + (HeadBytes() + FirstBytes() + SecondBytes())
  }

  lemma Joined()
    ensures |HeadBytes() + FirstBytes() + SecondBytes()| == 41
    ensures [47, 0, 0, 0] + [17, 0] + (HeadBytes() + FirstBytes() + SecondBytes()) == NodeBytes()
  {
    assert [47, 0, 0, 0] + [17, 0] == [47, 0, 0, 0, 17, 0];
  }

  lemma SizeBytes()
    ensures LE(47, 4) == [47, 0, 0, 0] && LE(17, 2) == [17, 0]
  {
  }

  /** An ID is its milliseconds and then its sequence number, high bytes first. */
  lemma IdBytes()
    ensures EncId(StreamId(258, 7)) == [0, 0, 0, 0, 0, 0, 1, 2, 0, 0, 0, 0, 0, 0, 0, 7]
    ensures PId([0, 0, 0, 0, 0, 0, 1, 2, 0, 0, 0, 0, 0, 0, 0, 7]) == Some(StreamId(258, 7))
  {
    hide BE, PId;
    BigHalves(258);
    BigHalves(7);
    IdRoundTrip(StreamId(258, 7));
  }

  lemma BigHalves(v: nat)
    requires v < 65536
    ensures BE(v, 8) == [0, 0, 0, 0, 0, 0, v / 256, v % 256]
  {
    ZeroBytes();
    assert BE(v, 8) == BE(v / 256, 7) + [v % 256];
    assert BE(v / 256, 7) == BE(0, 6) + [v / 256];
  }

  lemma ZeroBytes()
    ensures BE(0, 6) == [0, 0, 0, 0, 0, 0]
  {
    assert BE(0, 3) == [0, 0, 0];
  }
}
