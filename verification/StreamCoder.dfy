/** Writing and reading stream entries step by step, against the functions of Streams. */
module StreamCoder {
  import opened Bytes
  import opened Parsing
  import opened RdbString
  import opened Lists
  import opened Hashes
  import opened ListPack
  import opened Streams
  import opened EncoderModel
  import RdbEncoder
  import RdbDecoder

  // ----- writing

  method BuildHead(e: StreamEntry) returns (entries: seq<LpEntry>)
    ensures entries == HeadItems(e)
  {
    hide IntItem, StrItem, NatText;
    var deletedCount: nat := 0;
    for i := 0 to |e.msgs|
      invariant deletedCount == DeletedCount(e.msgs[..i])
    {
      assert e.msgs[..i + 1][..i] == e.msgs[..i];
      if e.msgs[i].deleted {
        deletedCount := deletedCount + 1;
      }
    }
    assert e.msgs[..|e.msgs|] == e.msgs;
    var validCount := |e.msgs| - deletedCount;
    var counts := [IntItem(validCount), IntItem(deletedCount), IntItem(|e.fields|)];
    var names := [];
    assert e.fields[0..] == e.fields;
    for i := 0 to |e.fields|
      invariant names + StrItems(e.fields[i..]) == StrItems(e.fields)
    {
      assert e.fields[i..][1..] == e.fields[i + 1..];
      PushItem(names, StrItem(e.fields[i]), StrItems(e.fields[i + 1..]));
      names := names + [StrItem(e.fields[i])];
    }
    assert names + [] == names;
    entries := counts + names + [StrItem(NatText(|e.fields|))];
    NestItems(IntItem(validCount), IntItem(deletedCount), IntItem(|e.fields|), names, StrItem(NatText(|e.fields|)));
  }

  lemma PushItem(items: seq<LpEntry>, x: LpEntry, rest: seq<LpEntry>)
    ensures items + ([x] + rest) == (items + [x]) + rest
  {
  }

  lemma NestItems(a: LpEntry, b: LpEntry, c: LpEntry, items: seq<LpEntry>, d: LpEntry)
    ensures [a, b, c] + items + [d] == [a] + ([b] + ([c] + (items + [d])))
  {
  }

  method HasSameFields(m: Fields, master: Values) returns (sameFields: bool)
    ensures sameFields == SameFields(m, master)
  {
    if |m| != |master| {
      return false;
    }
    for i := 0 to |master|
      invariant forall j :: 0 <= j < i ==> master[j] in m
    {
      if master[i] !in m {
        return false;
      }
    }
    sameFields := true;
  }

  method BuildFields(m: Fields, master: Values, order: Values, sameFields: bool) returns (entries: seq<LpEntry>)
    requires InMap(order, m) && sameFields == SameFields(m, master)
    ensures entries == FieldItems(m, master, order)
  {
    hide IntItem, StrItem;
    assert master[0..] == master && order[0..] == order;
    if sameFields {
      entries := [];
      for i := 0 to |master|
        invariant entries + ValueItems(master[i..], m) == ValueItems(master, m)
      {
        assert master[i..][1..] == master[i + 1..];
        PushItem(entries, StrItem(m[master[i]]), ValueItems(master[i + 1..], m));
        entries := entries + [StrItem(m[master[i]])];
      }
    } else {
      entries := [IntItem(|m|)];
      for i := 0 to |order|
        invariant entries + PairItems(order[i..], m) == [IntItem(|m|)] + PairItems(order, m)
      {
        var rest := PairItems(order[i + 1..], m);
        assert order[i..][1..] == order[i + 1..];
        PushItem(entries, StrItem(order[i]), [StrItem(m[order[i]])] + rest);
        entries := entries + [StrItem(order[i])];
        PushItem(entries, StrItem(m[order[i]]), rest);
        entries := entries + [StrItem(m[order[i]])];
      }
    }
    assert entries + [] == entries;
  }

  method BuildMessage(msg: Message, first: StreamId, master: Values, order: Values) returns (entries: seq<LpEntry>)
    requires InMap(order, msg.fields)
    ensures entries == MsgItems(msg, first, master, order)
  {
    hide IntItem, StrItem, FieldItems, SameFields, NatText, InMap, Diff;
    var flag := 0;
    if msg.deleted {
      flag := flag + 1;
    }
    var sameFields := HasSameFields(msg.fields, master);
    if sameFields {
      flag := flag + 2;
    }
    var msDiff := Diff(msg.id.ms, first.ms);
    var seqDiff := Diff(msg.id.sequence, first.sequence);
    var fields := BuildFields(msg.fields, master, order, sameFields);
    entries := [IntItem(flag), IntItem(msDiff), IntItem(seqDiff)] + fields + [StrItem(NatText(|msg.fields|))];
    NestItems(IntItem(flag), IntItem(msDiff), IntItem(seqDiff), fields, StrItem(NatText(|msg.fields|)));
  }

  method BuildEntries(e: StreamEntry, orders: seq<Values>) returns (entries: seq<LpEntry>)
    requires Orders(e.msgs, orders)
    ensures entries == EntryItems(e, orders)
  {
    hide HeadItems, MsgItems, Enumerates, InMap;
    entries := BuildHead(e);
    ghost var head := entries;
    assert e.msgs[0..] == e.msgs && orders[0..] == orders;
    for i := 0 to |e.msgs|
      invariant Orders(e.msgs[i..], orders[i..])
      invariant entries + MsgsItems(e.msgs[i..], e.firstMsgId, e.fields, orders[i..]) == EntryItems(e, orders)
    {
      assert e.msgs[i..][1..] == e.msgs[i + 1..] && orders[i..][1..] == orders[i + 1..];
      var items := BuildMessage(e.msgs[i], e.firstMsgId, e.fields, orders[i]);
      PushItems(entries, items, MsgsItems(e.msgs[i + 1..], e.firstMsgId, e.fields, orders[i + 1..]));
      entries := entries + items;
    }
    assert entries + [] == entries;
  }

  lemma PushItems(a: seq<LpEntry>, b: seq<LpEntry>, c: seq<LpEntry>)
    ensures a + (b + c) == (a + b) + c
  {
  }

  /** One turn of writeStreamEntries: the first ID as 16 bytes, then the listpack. */
  method WriteNode(enc: RdbEncoder.Encoder, node: Ordered, spare: nat)
    requires enc.Valid() && enc.state != WrittenEnd && NodeWritable(node, enc.cfg.compress)
    modifies enc, enc.crc, enc.buffer
    ensures enc.Valid() && enc.Wrote(EncNode(node, enc.cfg.compress))
  {
    hide EncString, EntryItems, EncPack, BE, EntryWritable, LpWritable, AllLpWritable, Orders, Writable;
    hide RdbEncoder.Encoder.Valid;
    NodeFacts(node);
    EntryItemsOk(node.0, node.1);
    IdWritable(node.0.firstMsgId, enc.cfg.compress);
    ghost var start := enc.out;
    var header := BE(node.0.firstMsgId.ms, 8) + BE(node.0.firstMsgId.sequence, 8);
    enc.WriteString(header);
    var entries := BuildEntries(node.0, node.1);
    var listpackData := BuildListpackWithBacklen(entries, spare);
    enc.WriteString(listpackData);
    Assoc(start, EncString(header, enc.cfg.compress), EncString(listpackData, enc.cfg.compress));
  }

  lemma IdWritable(id: StreamId, compress: bool)
    ensures Writable(EncId(id), compress)
  {
  }

  /** writeStreamEntries */
  method WriteStreamEntries(enc: RdbEncoder.Encoder, nodes: seq<Ordered>, spare: seq<nat>)
    requires enc.Valid() && enc.state != WrittenEnd && NodesWritable(nodes, enc.cfg.compress)
    requires |nodes| < TWO_64 && |spare| == |nodes|
    modifies enc, enc.crc, enc.buffer
    ensures enc.Valid() && enc.Wrote(EncLength(|nodes|) + EncNodes(nodes, enc.cfg.compress))
  {
    hide EncLength, EncNode, EncNodes, NodeWritable, NodesWritable;
    hide RdbEncoder.Encoder.Valid;
    ghost var start := enc.out;
    enc.WriteLength(|nodes|);
    Assoc(start, EncLength(|nodes|), EncNodes(nodes, enc.cfg.compress));
    NodesStep(nodes, 0, enc.cfg.compress);
    for i := 0 to |nodes|
      invariant enc.Valid() && enc.state == old(enc.state) && enc.existDB == old(enc.existDB)
      invariant NodesWritable(nodes[i..], enc.cfg.compress)
      invariant enc.out + EncNodes(nodes[i..], enc.cfg.compress) ==
                start + (EncLength(|nodes|) + EncNodes(nodes, enc.cfg.compress))
    {
      NodesStep(nodes, i, enc.cfg.compress);
      Assoc(enc.out, EncNode(nodes[i], enc.cfg.compress), EncNodes(nodes[i + 1..], enc.cfg.compress));
      WriteNode(enc, nodes[i], spare[i]);
    }
    NodesStep(nodes, |nodes|, enc.cfg.compress);
    assert enc.out + [] == enc.out;
  }

  lemma NodesStep(nodes: seq<Ordered>, i: nat, compress: bool)
    requires i <= |nodes| && NodesWritable(nodes, compress)
    ensures nodes[0..] == nodes && NodesWritable(nodes[i..], compress)
    ensures i == |nodes| ==> EncNodes(nodes[i..], compress) == []
    ensures i < |nodes| ==>
              && NodeWritable(nodes[i], compress) && NodesWritable(nodes[i + 1..], compress)
              && EncNodes(nodes[i..], compress) == EncNode(nodes[i], compress) + EncNodes(nodes[i + 1..], compress)
  {
    hide NodeWritable, EncNode;
    if i < |nodes| {
      assert nodes[i..][0] == nodes[i] && nodes[i..][1..] == nodes[i + 1..];
    }
  }

  // ----- reading

  /** A read at a cursor that may have been moved past the end. */
  ghost predicate ReadsAt<T>(r: Option<T>, p: Parsed<T>, buf: seq<byte>, cursor: nat)
  {
    RdbDecoder.Agrees(r, p, Skip(buf, cursor))
  }

  lemma SkipSkip(buf: seq<byte>, cursor: nat, n: nat)
    requires cursor <= |buf|
    ensures Skip(buf[cursor..], n) == Skip(buf, cursor + n) && Skip(buf, cursor) == buf[cursor..]
  {
    if cursor + n <= |buf| {
      assert buf[cursor..][n..] == buf[cursor + n..];
    }
  }

  method ReadLpBytes(buf: seq<byte>, cursor: nat, n: nat, headerLen: nat) returns (r: Option<LpValue>, cursor': nat)
    requires cursor <= |buf|
    ensures ReadsAt(r, PLpBytes(buf[cursor..], n, headerLen), buf, cursor')
  {
    hide Skip, BackLen;
    var text;
    text, cursor' := RdbDecoder.ReadBytesAt(buf, cursor, n);
    if text.None? {
      return None, cursor';
    }
    var backlen := BackLen((headerLen + n) % TWO_32);
    SkipSkip(buf, cursor', backlen);
    cursor' := cursor' + backlen;
    r := Some(Str(text.value));
  }

  method ReadLpNum(buf: seq<byte>, cursor: nat, n: nat) returns (r: Option<LpValue>, cursor': nat)
    requires cursor <= |buf|
    ensures ReadsAt(r, PLpNum(buf[cursor..], n), buf, cursor')
  {
    hide Skip, BackLen, UnLE, Pow256;
    var bs;
    bs, cursor' := RdbDecoder.ReadBytesAt(buf, cursor, n);
    if bs.None? {
      return None, cursor';
    }
    var value := Signed(UnLE(bs.value), Pow256(n));
    if n == 3 {
      RdbDecoder.Int24(bs.value);
      value := Signed(UnLE([0] + bs.value), TWO_32) / 256;
    }
    SkipSkip(buf, cursor', BackLen(1 + n));
    cursor' := cursor' + BackLen(1 + n);
    r := Some(Num(value));
  }

  /** The forms with a first byte from 192 up. */
  method ReadLongEntry(buf: seq<byte>, cursor: nat, header: byte) returns (r: Option<LpValue>, cursor': nat)
    requires cursor <= |buf| && header >= 192
    ensures ReadsAt(r, PLp([header] + buf[cursor..]), buf, cursor')
  {
    hide PLpBytes, PLpNum, UnLE, Skip, BackLen;
    PByteOf(header, buf[cursor..]);
    r, cursor' := None, cursor;
    if header < 240 {
      var next, cursor1 := RdbDecoder.ReadByteAt(buf, cursor);
      if next.None? {
        return None, cursor;
      }
      if header < 224 {
        SkipSkip(buf, cursor1, BackLen(2));
        return Some(Num(Int13((header as int - 192) * 256 + next.value))), cursor1 + BackLen(2);
      }
      r, cursor' := ReadLpBytes(buf, cursor1, (header as int - 224) * 256 + next.value, 2);
    } else if header == 240 {
      var lenBytes, cursor1 := RdbDecoder.ReadBytesAt(buf, cursor, 4);
      if lenBytes.None? {
        return None, cursor;
      }
      r, cursor' := ReadLpBytes(buf, cursor1, UnLE(lenBytes.value), 5);
    } else if header == 241 {
      r, cursor' := ReadLpNum(buf, cursor, 2);
    } else if header == 242 {
      r, cursor' := ReadLpNum(buf, cursor, 3);
    } else if header == 243 {
      r, cursor' := ReadLpNum(buf, cursor, 4);
    } else if header == 244 {
      r, cursor' := ReadLpNum(buf, cursor, 8);
    }
  }

  /** readListPackEntry */
  method ReadListPackEntry(buf: seq<byte>, cursor: nat) returns (r: Option<LpValue>, cursor': nat)
    ensures ReadsAt(r, PLp(Skip(buf, cursor)), buf, cursor')
  {
    hide PLpBytes, BackLen, PLpNum;
    if cursor >= |buf| {
      return None, cursor;
    }
    var header := buf[cursor];
    assert Skip(buf, cursor) == [header] + buf[cursor + 1..];
    PByteOf(header, buf[cursor + 1..]);
    if header < 128 {
      SkipSkip(buf, cursor + 1, BackLen(1));
      r, cursor' := Some(Num(header)), cursor + 1 + BackLen(1);
    } else if header < 192 {
      r, cursor' := ReadLpBytes(buf, cursor + 1, header - 128, 1);
    } else {
      r, cursor' := ReadLongEntry(buf, cursor + 1, header);
    }
  }

  method ReadAsInt(buf: seq<byte>, cursor: nat) returns (r: Option<int>, cursor': nat)
    ensures ReadsAt(r, PAsInt(Skip(buf, cursor)), buf, cursor')
  {
    hide PLp, Skip;
    var v;
    v, cursor' := ReadListPackEntry(buf, cursor);
    r := if v.Some? && v.value.Num? then Some(v.value.value) else None;
  }

  method ReadAsString(buf: seq<byte>, cursor: nat) returns (r: Option<seq<byte>>, cursor': nat)
    ensures ReadsAt(r, PAsString(Skip(buf, cursor)), buf, cursor')
  {
    hide PLp, Skip, IntText;
    var v;
    v, cursor' := ReadListPackEntry(buf, cursor);
    if v.None? {
      return None, cursor';
    }
    match v.value
    case Str(text) => r := Some(text);
    case Num(n) => r := Some(IntText(n));
  }

  method ReadNames(buf: seq<byte>, cursor: nat, n: nat) returns (r: Option<Values>, cursor': nat)
    ensures ReadsAt(r, PNames(Skip(buf, cursor), n), buf, cursor')
  {
    hide PAsString, Skip;
    cursor' := cursor;
    var names: Values := [];
    RdbDecoder.PrependNone(PNames(Skip(buf, cursor), n));
    for i := 0 to n
      invariant PNames(Skip(buf, cursor), n) == RdbDecoder.Prepend(names, PNames(Skip(buf, cursor'), n - i))
    {
      var name;
      name, cursor' := ReadAsString(buf, cursor');
      if name.None? {
        return None, cursor';
      }
      RdbDecoder.PrependPush(names, name.value, PNames(Skip(buf, cursor'), n - i - 1));
      names := names + [name.value];
    }
    RdbDecoder.PrependEnd(names, Skip(buf, cursor'));
    r := Some(names);
  }

  /** The loop over the fields of a message, with the same-fields flag tested inside. */
  method ReadFields(buf: seq<byte>, cursor: nat, same: bool, master: Values) returns (r: Option<Fields>, cursor': nat)
    ensures ReadsAt(r, PFields(Skip(buf, cursor), same, master), buf, cursor')
  {
    hide PAsString, PAsInt, Skip;
    cursor' := cursor;
    var fieldNum := |master|;
    if !same {
      var n;
      n, cursor' := ReadAsInt(buf, cursor);
      if n.None? {
        return None, cursor';
      }
      fieldNum := n.value;
    }
    if same {
      r, cursor' := ReadValues(buf, cursor', master);
    } else {
      r, cursor' := ReadPairs(buf, cursor', if fieldNum < 0 then 0 else fieldNum);
    }
  }

  method ReadValues(buf: seq<byte>, cursor: nat, master: Values) returns (r: Option<Fields>, cursor': nat)
    ensures ReadsAt(r, PSame(Skip(buf, cursor), master, map[]), buf, cursor')
  {
    hide PAsString, Skip;
    cursor' := cursor;
    var fields: Fields := map[];
    assert master[0..] == master;
    for i := 0 to |master|
      invariant PSame(Skip(buf, cursor), master, map[]) == PSame(Skip(buf, cursor'), master[i..], fields)
    {
      assert master[i..][0] == master[i] && master[i..][1..] == master[i + 1..];
      var value;
      value, cursor' := ReadAsString(buf, cursor');
      if value.None? {
        return None, cursor';
      }
      fields := fields[master[i] := value.value];
    }
    r := Some(fields);
  }

  method ReadPairs(buf: seq<byte>, cursor: nat, n: nat) returns (r: Option<Fields>, cursor': nat)
    ensures ReadsAt(r, PNamed(Skip(buf, cursor), n, map[]), buf, cursor')
  {
    hide PAsString, Skip;
    cursor' := cursor;
    var fields: Fields := map[];
    for i := 0 to n
      invariant PNamed(Skip(buf, cursor), n, map[]) == PNamed(Skip(buf, cursor'), n - i, fields)
    {
      var name, value;
      name, cursor' := ReadAsString(buf, cursor');
      if name.None? {
        return None, cursor';
      }
      value, cursor' := ReadAsString(buf, cursor');
      if value.None? {
        return None, cursor';
      }
      fields := fields[name.value := value.value];
    }
    r := Some(fields);
  }

  method ReadMessage(buf: seq<byte>, cursor: nat, firstId: StreamId, master: Values)
    returns (r: Option<Message>, cursor': nat)
    ensures ReadsAt(r, PMsg(Skip(buf, cursor), firstId, master), buf, cursor')
  {
    hide PAsString, PAsInt, PFields, Skip, Wrap64;
    var flag, ms, sq, fields, count;
    flag, cursor' := ReadAsInt(buf, cursor);
    if flag.None? {
      return None, cursor';
    }
    ms, cursor' := ReadAsInt(buf, cursor');
    if ms.None? {
      return None, cursor';
    }
    sq, cursor' := ReadAsInt(buf, cursor');
    if sq.None? {
      return None, cursor';
    }
    var msgId := StreamId(Wrap64(ms.value + firstId.ms), Wrap64(sq.value + firstId.sequence));
    fields, cursor' := ReadFields(buf, cursor', flag.value / 2 % 2 == 1, master);
    if fields.None? {
      return None, cursor';
    }
    count, cursor' := ReadAsString(buf, cursor');
    if count.None? {
      return None, cursor';
    }
    r := Some(Message(msgId, fields.value, flag.value % 2 == 1));
  }

  method ReadHead(buf: seq<byte>, cursor: nat) returns (r: Option<(nat, Values)>, cursor': nat)
    ensures ReadsAt(r, PHead(Skip(buf, cursor)), buf, cursor')
  {
    hide PAsString, PAsInt, PNames, Skip, ToInt64;
    var count, deleted, fieldNum, names, end;
    count, cursor' := ReadAsInt(buf, cursor);
    if count.None? {
      return None, cursor';
    }
    deleted, cursor' := ReadAsInt(buf, cursor');
    if deleted.None? {
      return None, cursor';
    }
    fieldNum, cursor' := ReadAsInt(buf, cursor');
    if fieldNum.None? || fieldNum.value < 0 {
      return None, cursor';
    }
    names, cursor' := ReadNames(buf, cursor', fieldNum.value);
    if names.None? {
      return None, cursor';
    }
    end, cursor' := ReadAsString(buf, cursor');
    var total := ToInt64(count.value + deleted.value);
    if end.None? || total < 0 {
      return None, cursor';
    }
    r := Some((total, names.value));
  }

  /** readStreamEntryContent */
  method ReadStreamEntryContent(buf: seq<byte>, cursor: nat, firstId: StreamId) returns (r: Option<StreamEntry>)
    ensures r == PContent(Skip(buf, cursor), firstId)
  {
    hide PHead, PMsg, Skip;
    var head, cursor1 := ReadHead(buf, cursor);
    if head.None? {
      return None;
    }
    var (total, master) := head.value;
    var msgs: seq<Message> := [];
    ghost var all := PMsgs(Skip(buf, cursor1), total, firstId, master);
    RdbDecoder.PrependNone(all);
    for i := 0 to total
      invariant all == RdbDecoder.Prepend(msgs, PMsgs(Skip(buf, cursor1), total - i, firstId, master))
    {
      var msg;
      msg, cursor1 := ReadMessage(buf, cursor1, firstId, master);
      if msg.None? {
        return None;
      }
      RdbDecoder.PrependPush(msgs, msg.value, PMsgs(Skip(buf, cursor1), total - i - 1, firstId, master));
      msgs := msgs + [msg.value];
    }
    RdbDecoder.PrependEnd(msgs, Skip(buf, cursor1));
    r := Some(StreamEntry(firstId, master, msgs));
  }

  /** One turn of readStreamEntries. */
  method ReadNode(dec: RdbDecoder.Decoder) returns (r: Option<StreamEntry>)
    requires dec.Valid()
    modifies dec`readCount, dec.buffer
    ensures dec.Valid() && RdbDecoder.Agrees(r, PNode(old(dec.Rest())), dec.Rest())
  {
    hide PString, PContent, UnBE;
    var header := dec.ReadString();
    if header.None? {
      return None;
    }
    var msBin, cursor := RdbDecoder.ReadBytesAt(header.value, 0, 8);
    if msBin.None? {
      return None;
    }
    var seqBin, cursor' := RdbDecoder.ReadBytesAt(header.value, cursor, 8);
    if seqBin.None? {
      return None;
    }
    HeaderHalves(header.value, msBin.value, seqBin.value);
    var firstId := StreamId(UnBE(msBin.value), UnBE(seqBin.value));
    var buf := dec.ReadString();
    if buf.None? {
      return None;
    }
    var head, start := RdbDecoder.ReadBytesAt(buf.value, 0, 6);
    r := ReadStreamEntryContent(buf.value, start, firstId);
    SkipHead(buf.value, start);
  }

  lemma HeaderHalves(header: seq<byte>, ms: seq<byte>, sq: seq<byte>)
    requires |header| >= 16 && ms == header[..8] && sq == header[8..][..8]
    ensures sq == header[8..16]
  {
  }

  lemma SkipHead(buf: seq<byte>, start: nat)
    requires start == if |buf| < 6 then 0 else 6
    ensures Skip(buf, start) == if |buf| < 6 then buf else buf[6..]
  {
  }

  /** readStreamEntries */
  method ReadStreamEntries(dec: RdbDecoder.Decoder) returns (r: Option<seq<StreamEntry>>)
    requires dec.Valid()
    modifies dec`readCount, dec.buffer
    ensures dec.Valid() && RdbDecoder.Agrees(r, PStreamEntries(old(dec.Rest())), dec.Rest())
  {
    hide PLength, PNode;
    var length := dec.ReadLength();
    if length.None? {
      return None;
    }
    var n := length.value.value;
    var result: seq<StreamEntry> := [];
    ghost var all := PNodes(dec.Rest(), n);
    RdbDecoder.PrependNone(all);
    for i := 0 to n
      invariant dec.Valid() && all == RdbDecoder.Prepend(result, PNodes(dec.Rest(), n - i))
    {
      var entry := ReadNode(dec);
      if entry.None? {
        return None;
      }
      RdbDecoder.PrependPush(result, entry.value, PNodes(dec.Rest(), n - i - 1));
      result := result + [entry.value];
    }
    RdbDecoder.PrependEnd(result, dec.Rest());
    r := Some(result);
  }
}
