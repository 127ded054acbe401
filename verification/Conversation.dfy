/** Well-formed conversations: command lines, each followed by its binary block when the line
    starts with `b`. Which blocks a line allows is fixed by what its handler returns. */
module Conversation {
  import opened Bytes
  import opened Protocol
  import opened Tokeniser
  import opened Automaton

  /** A command line without its newline, and the block sent behind it. */
  datatype Item = Item(line: bytes, block: Option<bytes>)

  function EncodeBlock(data: bytes): bytes
    requires |data| < 0x1_0000_0000
  {
    [0] + BigEndian(|data|) + data
  }

  function Encode(item: Item): bytes
    requires item.block.Some? ==> |item.block.value| < 0x1_0000_0000
  {
    item.line + [NEWLINE] + (if item.block.Some? then EncodeBlock(item.block.value) else [])
  }

  /** The block size the server waits for behind this line; zero means any. */
  function Announced(cfg: Config, line: bytes): uint32 {
    ExpectedSize(Execute(cfg, Name(line + [NEWLINE]), Arguments(line + [NEWLINE])).size)
  }

  predicate WellFormedLine(line: bytes) {
    line != [] && IsCommandStart(line[0]) && NEWLINE !in line
  }

  predicate WellFormed(cfg: Config, item: Item) {
    && WellFormedLine(item.line)
    && (item.block.Some? <==> item.line[0] == LOWER_B)
    && (item.block.Some? ==>
          && |item.block.value| < 0x1_0000_0000
          && (Announced(cfg, item.line) == 0 || |item.block.value| == Announced(cfg, item.line)))
  }

  predicate AllWellFormed(cfg: Config, items: seq<Item>) {
    forall i :: 0 <= i < |items| ==> WellFormed(cfg, items[i])
  }

  function EncodeAll(cfg: Config, items: seq<Item>): bytes
    requires AllWellFormed(cfg, items)
  {
    if items == [] then [] else Encode(items[0]) + EncodeAll(cfg, items[1..])
  }

  lemma {:induction false} EncodeAllAppend(cfg: Config, items: seq<Item>, item: Item)
    requires AllWellFormed(cfg, items) && WellFormed(cfg, item)
    ensures AllWellFormed(cfg, items + [item])
    ensures EncodeAll(cfg, items + [item]) == EncodeAll(cfg, items) + Encode(item)
  {
    if items == [] {
      assert [item][1..] == [] && items + [item] == [item];
    } else {
      assert (items + [item])[1..] == items[1..] + [item];
      EncodeAllAppend(cfg, items[1..], item);
    }
  }

  // ---- what the automaton does on the parts of an item ----

  lemma {:induction false} RunText(cfg: Config, m: Machine, text: bytes)
    requires m.state.GettingCommand? && NEWLINE !in text
    requires |m.state.line| + |text| <= LINE_CAPACITY
    ensures Run(cfg, m, text) == m.(state := GettingCommand(m.state.line + text))
    decreases |text|
  {
    if text == [] {
      assert m.state.line + text == m.state.line;
    } else {
      var line := m.state.line + [text[0]];
      assert text[0] != NEWLINE;
      assert Step(cfg, m, text[0]) == m.(state := GettingCommand(line));
      RunText(cfg, m.(state := GettingCommand(line)), text[1..]);
      assert line + text[1..] == m.state.line + text;
    }
  }

  /** The start of a line read from a machine that is between items. */
  lemma RunLineStart(cfg: Config, m: Machine, text: bytes)
    requires m.state.WaitingForCommand? && WellFormedLine(text)
    ensures |text| <= LINE_CAPACITY ==> Run(cfg, m, text) == m.(state := GettingCommand(text))
    ensures |text| > LINE_CAPACITY ==> Run(cfg, m, text) == Break(m, LineTooLong)
  {
    var first := m.(state := GettingCommand([text[0]]));
    assert [] + [text[0]] == [text[0]];
    assert Step(cfg, m, text[0]) == first;
    if |text| <= LINE_CAPACITY {
      RunText(cfg, first, text[1..]);
      assert [text[0]] + text[1..] == text;
    } else {
      var fits, rest := text[1..LINE_CAPACITY], text[LINE_CAPACITY..];
      assert text[1..] == fits + rest;
      RunText(cfg, first, fits);
      RunAppend(cfg, first, fits, rest);
      DeadIsFinal(cfg, Break(m, LineTooLong), rest[1..]);
    }
  }

  /** A whole line, newline included. */
  function AfterItemLine(cfg: Config, m: Machine, line: bytes): Machine {
    if |line| + 1 > LINE_CAPACITY then Break(m, LineTooLong) else EndLine(cfg, m, line + [NEWLINE])
  }

  lemma RunLine(cfg: Config, m: Machine, line: bytes)
    requires m.state.WaitingForCommand? && WellFormedLine(line)
    ensures Run(cfg, m, line + [NEWLINE]) == AfterItemLine(cfg, m, line)
  {
    RunLineStart(cfg, m, line);
    RunAppend(cfg, m, line, [NEWLINE]);
    RunOne(cfg, Run(cfg, m, line), NEWLINE);
  }

  function HeaderSoFar(state: State): bytes {
    if state.GettingHeader? then state.header else []
  }

  /** Header bytes are only collected; nothing but the lead byte and the size is looked at. */
  lemma {:induction false} RunHeaderPart(cfg: Config, m: Machine, part: bytes)
    requires m.state.ExpectingBinaryData? || (m.state.GettingHeader? && m.state.header != [])
    requires part != [] && |HeaderSoFar(m.state)| + |part| <= HEADER_SIZE
    requires m.state.ExpectingBinaryData? ==> part[0] == 0
    ensures Run(cfg, m, part) == WithHeader(m, HeaderSoFar(m.state) + part, m.state.expected, m.state.swallow)
    decreases |part|
  {
    RunLast(cfg, m, part);
    var front, h := part[..|part| - 1], HeaderSoFar(m.state);
    if front == [] {
      assert h + part == h + [part[0]] && [] + [part[0]] == [part[0]];
    } else {
      RunHeaderPart(cfg, m, front);
      assert h + front + [part[|part| - 1]] == h + part;
    }
  }

  lemma RunHeader(cfg: Config, m: Machine, size: uint32)
    requires m.state.ExpectingBinaryData?
    requires m.state.expected == 0 || m.state.expected == size
    ensures Run(cfg, m, [0] + BigEndian(size)) == m.(state := GettingPayload(size, [], m.state.swallow))
  {
    var header := [0] + BigEndian(size);
    RunHeaderPart(cfg, m, header);
    assert [] + header == header && header[1..] == BigEndian(size);
    SizeFieldRoundTrip(size, header[1..]);
  }

  /** Payload bytes may be anything: none of them is looked at. */
  lemma {:induction false} RunPayload(cfg: Config, m: Machine, data: bytes)
    requires m.state.GettingPayload? && data != []
    requires |m.state.payload| + |data| <= m.state.size
    ensures var p := m.state.payload + data;
            Run(cfg, m, data) ==
            if |p| < m.state.size then m.(state := GettingPayload(m.state.size, p, m.state.swallow))
            else CompleteBlock(m, p, m.state.swallow)
    decreases |data|
  {
    RunLast(cfg, m, data);
    var front := data[..|data| - 1];
    if front != [] {
      RunPayload(cfg, m, front);
    } else {
      assert m.state.payload + front == m.state.payload;
    }
    assert Run(cfg, m, front).state == GettingPayload(m.state.size, m.state.payload + front, m.state.swallow);
    assert m.state.payload + front + [data[|data| - 1]] == m.state.payload + data;
  }

  // ---- one item ----

  /** The machine after an item, once a block of size zero is settled. */
  function AfterItem(cfg: Config, m: Machine, item: Item): Machine
    requires WellFormed(cfg, item)
  {
    var n := AfterItemLine(cfg, m, item.line);
    if n.state.ExpectingBinaryData? && item.block.Some? then CompleteBlock(n, item.block.value, n.state.swallow) else n
  }

  lemma LineOutcome(cfg: Config, m: Machine, item: Item)
    requires WellFormed(cfg, item)
    ensures var n := AfterItemLine(cfg, m, item.line);
      || n.state.Broken?
      || (n.state.WaitingForCommand? && item.block.None?)
      || (n.state.ExpectingBinaryData? && item.block.Some? && n.state.expected == Announced(cfg, item.line))
  {
    assert (item.line + [NEWLINE])[0] == item.line[0];
  }

  lemma RunBlock(cfg: Config, m: Machine, data: bytes)
    requires m.state.ExpectingBinaryData? && |data| < 0x1_0000_0000
    requires m.state.expected == 0 || m.state.expected == |data|
    ensures Settle(Run(cfg, m, EncodeBlock(data))) == CompleteBlock(m, data, m.state.swallow)
  {
    RunHeader(cfg, m, |data|);
    RunAppend(cfg, m, [0] + BigEndian(|data|), data);
    if data != [] {
      RunPayload(cfg, Run(cfg, m, [0] + BigEndian(|data|)), data);
      assert [] + data == data;
    }
  }

  lemma RunItem(cfg: Config, m: Machine, item: Item)
    requires m.state.WaitingForCommand? && WellFormed(cfg, item)
    ensures Settle(Run(cfg, m, Encode(item))) == AfterItem(cfg, m, item)
  {
    var n := AfterItemLine(cfg, m, item.line);
    RunLine(cfg, m, item.line);
    LineOutcome(cfg, m, item);
    if item.block.Some? {
      var block := EncodeBlock(item.block.value);
      RunAppend(cfg, m, item.line + [NEWLINE], block);
      if n.state.Broken? {
        DeadIsFinal(cfg, n, block);
      } else {
        RunBlock(cfg, n, item.block.value);
      }
    } else {
      assert item.line + [NEWLINE] + [] == item.line + [NEWLINE];
    }
  }

  // ---- exact acceptance ----

  /** Between two items: waiting, holding a full block, or broken; in no case closed. */
  ghost predicate Between(m: Machine) {
    var n := Settle(m);
    n.state.WaitingForCommand? || n.state.Broken? || BlockIsFull(n.state)
  }

  lemma ItemLeadsBetween(cfg: Config, m: Machine, item: Item)
    requires Between(m) && WellFormed(cfg, item)
    ensures Between(Run(cfg, m, Encode(item)))
  {
    var s := Encode(item);
    if Settle(m).state.WaitingForCommand? {
      RunItem(cfg, Settle(m), item);
      LineOutcome(cfg, Settle(m), item);
      SettleIsInvisible(cfg, m, s);
    } else {
      DeadIsFinal(cfg, Step(cfg, m, s[0]), s[1..]);
    }
  }

  lemma {:induction false} ConversationLeadsBetween(cfg: Config, m: Machine, items: seq<Item>)
    requires Between(m) && AllWellFormed(cfg, items)
    ensures Between(Run(cfg, m, EncodeAll(cfg, items)))
    decreases |items|
  {
    if items == [] {
    } else {
      ItemLeadsBetween(cfg, m, items[0]);
      ConversationLeadsBetween(cfg, Run(cfg, m, Encode(items[0])), items[1..]);
      RunAppend(cfg, m, Encode(items[0]), EncodeAll(cfg, items[1..]));
    }
  }

  /** A prefix of some well-formed conversation. */
  ghost predicate Viable(cfg: Config, s: bytes) {
    exists items :: AllWellFormed(cfg, items) && s <= EncodeAll(cfg, items)
  }

  /** The size bytes received so far can still become the expected size. */
  predicate HeaderAgrees(s: State) {
    s.GettingHeader? && s.header != [] && s.expected != 0 ==> s.header[1..] <= BigEndian(s.expected)
  }

  /** A header that disagrees stays a header until its fifth byte, and then the client is closed. */
  lemma {:induction false} DisagreeingHeaderIsDoomed(cfg: Config, m: Machine, s: bytes)
    requires StateInvariant(m) && m.state.GettingHeader? && !HeaderAgrees(m.state)
    ensures var after := Run(cfg, m, s).state;
            if |m.state.header| + |s| < HEADER_SIZE then after.GettingHeader? else after.Closed?
    decreases |s|
  {
    if s == [] {
    } else {
      var h := m.state.header + [s[0]];
      assert h[1..] == m.state.header[1..] + [s[0]];
      var next := Step(cfg, m, s[0]);
      if |h| < HEADER_SIZE {
        DisagreeingHeaderIsDoomed(cfg, next, s[1..]);
      } else {
        SizeFieldRoundTrip(m.state.expected, h[1..]);
        DeadIsFinal(cfg, next, s[1..]);
      }
    }
  }

  lemma ViableIsNotRejected(cfg: Config, command: nat, s: bytes)
    requires Viable(cfg, s)
    ensures var after := Run(cfg, Fresh(command), s).state; !after.Closed? && HeaderAgrees(after)
  {
    var items :| AllWellFormed(cfg, items) && s <= EncodeAll(cfg, items);
    var all := EncodeAll(cfg, items);
    var m := Run(cfg, Fresh(command), s);
    ConversationLeadsBetween(cfg, Fresh(command), items);
    assert all == s + all[|s|..];
    RunAppend(cfg, Fresh(command), s, all[|s|..]);
    InvariantAlways(cfg, Fresh(command), s);
    if m.state.Closed? {
      DeadIsFinal(cfg, m, all[|s|..]);
    } else if !HeaderAgrees(m.state) {
      DisagreeingHeaderIsDoomed(cfg, m, all[|s|..]);
    }
  }

  /** Reading of a stream the automaton is still alive on: the complete items, and the line whose
      block is under way. */
  ghost predicate Explains(cfg: Config, s: bytes, items: seq<Item>, line: bytes, state: State) {
    && AllWellFormed(cfg, items)
    && var done := EncodeAll(cfg, items);
    match state
    case WaitingForCommand => s == done
    case GettingCommand(text) => s == done + text
    case ExpectingBinaryData(expected, _) =>
      WellFormedLine(line) && line[0] == LOWER_B && expected == Announced(cfg, line)
      && s == done + (line + [NEWLINE])
    case GettingHeader(header, expected, _) =>
      WellFormedLine(line) && line[0] == LOWER_B && expected == Announced(cfg, line)
      && s == done + (line + [NEWLINE] + header)
    case GettingPayload(size, payload, _) =>
      WellFormedLine(line) && line[0] == LOWER_B && (Announced(cfg, line) == 0 || Announced(cfg, line) == size)
      && s == done + (line + [NEWLINE] + ([0] + BigEndian(size) + payload))
    case _ => false
  }

  /** A settled block of size zero is an item like any other. */
  lemma ExplainSettled(cfg: Config, s: bytes, items: seq<Item>, line: bytes, m: Machine)
    returns (items': seq<Item>, line': bytes)
    requires StateInvariant(m) && Explains(cfg, s, items, line, m.state)
    ensures Explains(cfg, s, items', line', Settle(m).state)
  {
    items', line' := items, line;
    if m.state.GettingPayload? && Settle(m).state.WaitingForCommand? {
      items' := items + [Item(line, Some([]))];
      EncodeAllAppend(cfg, items, Item(line, Some([])));
    }
  }

  /** The complete items and the line under way after one more byte. */
  lemma ExplainStep(cfg: Config, s: bytes, items: seq<Item>, line: bytes, m: Machine, b: byte)
    returns (items': seq<Item>, line': bytes)
    requires StateInvariant(m) && Settle(m) == m && Explains(cfg, s, items, line, m.state)
    requires Step(cfg, m, b).Alive()
    ensures Explains(cfg, s + [b], items', line', Step(cfg, m, b).state)
  {
    items', line' := items, line;
    var done := EncodeAll(cfg, items);
    match m.state {
      case WaitingForCommand =>
        assert [] + [b] == [b];
      case GettingCommand(text) =>
        items', line' := ExplainLineByte(cfg, s, items, line, m, b);
      case ExpectingBinaryData(expected, _) =>
        assert [] + [b] == [b];
        assert done + (line + [NEWLINE]) + [b] == done + (line + [NEWLINE] + [b]);
      case GettingHeader(_, _, _) =>
        ExplainHeaderByte(cfg, s, items, line, m, b);
      case GettingPayload(size, payload, _) =>
        items', line' := ExplainPayloadByte(cfg, s, items, line, m, b);
      case _ =>
    }
  }

  lemma ExplainNext(cfg: Config, s: bytes, items: seq<Item>, line: bytes, m: Machine, b: byte)
    returns (items': seq<Item>, line': bytes)
    requires StateInvariant(m) && Explains(cfg, s, items, line, m.state)
    requires Step(cfg, m, b).Alive()
    ensures Explains(cfg, s + [b], items', line', Step(cfg, m, b).state)
  {
    SettledStep(cfg, m, b);
    items', line' := ExplainSettled(cfg, s, items, line, m);
    items', line' := ExplainStep(cfg, s, items', line', Settle(m), b);
  }

  lemma ExplainLineByte(cfg: Config, s: bytes, items: seq<Item>, line: bytes, m: Machine, b: byte)
    returns (items': seq<Item>, line': bytes)
    requires StateInvariant(m) && m.state.GettingCommand? && Explains(cfg, s, items, line, m.state)
    requires Step(cfg, m, b).Alive()
    ensures Explains(cfg, s + [b], items', line', Step(cfg, m, b).state)
  {
    items', line' := items, line;
    var text := m.state.line;
    assert s + [b] == EncodeAll(cfg, items) + (text + [b]);
    if b == NEWLINE {
      assert (text + [b])[0] == text[0];
      if text[0] == LOWER_B {
        line' := text;
      } else {
        items' := items + [Item(text, None)];
        EncodeAllAppend(cfg, items, Item(text, None));
        assert Encode(Item(text, None)) == text + [NEWLINE];
      }
    }
  }

  lemma ExplainHeaderByte(cfg: Config, s: bytes, items: seq<Item>, line: bytes, m: Machine, b: byte)
    requires StateInvariant(m) && m.state.GettingHeader? && Explains(cfg, s, items, line, m.state)
    requires Step(cfg, m, b).Alive()
    ensures Explains(cfg, s + [b], items, line, Step(cfg, m, b).state)
  {
    var h := m.state.header + [b];
    assert s + [b] == EncodeAll(cfg, items) + (line + [NEWLINE] + h);
    if |h| == HEADER_SIZE {
      SizeFieldRoundTrip(0, h[1..]);
      assert h == [0] + BigEndian(NetworkOrder(h[1..])) + [];
    }
  }

  lemma ExplainPayloadByte(cfg: Config, s: bytes, items: seq<Item>, line: bytes, m: Machine, b: byte)
    returns (items': seq<Item>, line': bytes)
    requires StateInvariant(m) && m.state.GettingPayload? && Settle(m) == m && Explains(cfg, s, items, line, m.state)
    requires Step(cfg, m, b).Alive()
    ensures Explains(cfg, s + [b], items', line', Step(cfg, m, b).state)
  {
    items', line' := items, line;
    var size, p := m.state.size, m.state.payload + [b];
    assert s + [b] == EncodeAll(cfg, items) + (line + [NEWLINE] + ([0] + BigEndian(size) + p));
    if Step(cfg, m, b).state.WaitingForCommand? {
      items' := items + [Item(line, Some(p))];
      EncodeAllAppend(cfg, items, Item(line, Some(p)));
    }
  }

  lemma {:induction false} Explain(cfg: Config, command: nat, s: bytes) returns (items: seq<Item>, line: bytes)
    requires Run(cfg, Fresh(command), s).Alive()
    ensures Explains(cfg, s, items, line, Run(cfg, Fresh(command), s).state)
    decreases |s|
  {
    if s == [] {
      items, line := [], [];
    } else {
      var front, b := s[..|s| - 1], s[|s| - 1];
      assert front + [b] == s;
      var m := Run(cfg, Fresh(command), front);
      RunLast(cfg, Fresh(command), s);
      InvariantAlways(cfg, Fresh(command), front);
      items, line := Explain(cfg, command, front);
      items, line := ExplainNext(cfg, front, items, line, m, b);
    }
  }

  /** A size whose network-order bytes start with these. */
  lemma SizeStartingWith(start: bytes) returns (size: uint32)
    requires |start| <= 4
    ensures start <= BigEndian(size)
  {
    var h := start + seq(4 - |start|, _ => 0 as byte);
    size := NetworkOrder(h);
    SizeFieldRoundTrip(0, h);
  }

  /** A line, and whatever part of a header of this size has arrived behind it. */
  lemma CompleteLine(cfg: Config, line: bytes, size: uint32, header: bytes) returns (item: Item)
    requires WellFormedLine(line)
    requires if line[0] == LOWER_B then Announced(cfg, line) == 0 || Announced(cfg, line) == size else header == []
    requires header <= [0] + BigEndian(size)
    ensures WellFormed(cfg, item) && line + [NEWLINE] + header <= Encode(item)
  {
    if line[0] == LOWER_B {
      var data: bytes := seq(size, _ => 0);
      item := Item(line, Some(data));
      assert EncodeBlock(data) == [0] + BigEndian(size) + data;
      PrefixBehind(line + [NEWLINE], header, EncodeBlock(data));
    } else {
      item := Item(line, None);
    }
  }

  lemma CompletePayload(cfg: Config, line: bytes, size: uint32, payload: bytes) returns (item: Item)
    requires WellFormedLine(line) && line[0] == LOWER_B && |payload| <= size
    requires Announced(cfg, line) == 0 || Announced(cfg, line) == size
    ensures WellFormed(cfg, item) && line + [NEWLINE] + ([0] + BigEndian(size) + payload) <= Encode(item)
  {
    var filler: bytes := seq(size - |payload|, _ => 0);
    var data := payload + filler;
    item := Item(line, Some(data));
    var header := [0] + BigEndian(size);
    assert EncodeBlock(data) == header + data;
    ConcatIsAssociative(header, payload, filler);
    PrefixBehind(line + [NEWLINE], header + payload, header + data);
  }

  lemma CompleteHeader(cfg: Config, line: bytes, m: Machine) returns (item: Item)
    requires StateInvariant(m) && m.state.GettingHeader? && HeaderAgrees(m.state)
    requires WellFormedLine(line) && line[0] == LOWER_B && m.state.expected == Announced(cfg, line)
    ensures WellFormed(cfg, item) && line + [NEWLINE] + m.state.header <= Encode(item)
  {
    var header, size := m.state.header, m.state.expected;
    if size == 0 {
      size := SizeStartingWith(header[1..]);
    }
    assert header == [0] + header[1..];
    PrefixBehind([0], header[1..], BigEndian(size));
    item := CompleteLine(cfg, line, size, header);
  }

  /** The unfinished item can be finished. */
  lemma CompleteItem(cfg: Config, s: bytes, items: seq<Item>, line: bytes, m: Machine) returns (item: Item)
    requires StateInvariant(m) && !m.state.WaitingForCommand? && HeaderAgrees(m.state)
    requires Explains(cfg, s, items, line, m.state)
    ensures WellFormed(cfg, item) && s <= EncodeAll(cfg, items) + Encode(item)
  {
    var done := EncodeAll(cfg, items);
    var tail := s[|done|..];
    assert s == done + tail;
    match m.state {
      case GettingCommand(text) =>
        item := CompleteLine(cfg, text, Announced(cfg, text), []);
        assert tail == text;
      case ExpectingBinaryData(expected, _) =>
        item := CompleteLine(cfg, line, expected, []);
        assert tail == line + [NEWLINE] + [];
      case GettingHeader(_, _, _) =>
        item := CompleteHeader(cfg, line, m);
      case GettingPayload(size, payload, _) =>
        item := CompletePayload(cfg, line, size, payload);
    }
    PrefixBehind(done, tail, Encode(item));
  }

  lemma AliveIsViable(cfg: Config, command: nat, s: bytes)
    requires Run(cfg, Fresh(command), s).Alive()
    requires HeaderAgrees(Run(cfg, Fresh(command), s).state)
    ensures Viable(cfg, s)
  {
    var m := Run(cfg, Fresh(command), s);
    var items, line := Explain(cfg, command, s);
    InvariantAlways(cfg, Fresh(command), s);
    if !m.state.WaitingForCommand? {
      var item := CompleteItem(cfg, s, items, line, m);
      EncodeAllAppend(cfg, items, item);
    }
  }
}
