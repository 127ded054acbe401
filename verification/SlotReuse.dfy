/** A slot keeps `current_command` when it is given to a new client. When does that show? */
module SlotReuse {
  import opened Bytes
  import opened Protocol
  import opened Automaton
  import opened Conversation
  import opened Faults
  import opened Requests

  predicate SameToClient(a: Machine, b: Machine) {
    a.state == b.state && a.log == b.log
  }

  /** A block to be written became full although no command has been recognised on this
      connection; zero stands for "not set yet", it is no command's number. */
  predicate AsksSlotForCommand(m: Machine) {
    && m.command == 0
    && ((BlockIsFull(m.state) && m.state.size > 0)
        || m.state == Broken(EndlessLoop) || m.state == Broken(BlockNeverReleased))
  }

  /** The same connection in a slot that held nothing and in one that held command c. */
  ghost predicate Twins(m: Machine, n: Machine, c: nat) {
    SameToClient(m, n) && n.command == if m.command == 0 then c else m.command
  }

  lemma TwinLine(cfg: Config, m: Machine, n: Machine, c: nat, line: bytes, b: byte)
    requires Twins(m, n, c)
    ensures Twins(AddToLine(cfg, m, line, b), AddToLine(cfg, n, line, b), c)
  {
  }

  lemma TwinsStep(cfg: Config, m: Machine, n: Machine, c: nat, b: byte)
    requires Twins(m, n, c) && StateInvariant(m)
    requires !AsksSlotForCommand(m) && !AsksSlotForCommand(Step(cfg, m, b))
    ensures Twins(Step(cfg, m, b), Step(cfg, n, b), c)
  {
    var s := Settle(m);
    assert Twins(s, Settle(n), c);
    match s.state {
      case WaitingForCommand => TwinLine(cfg, s, Settle(n), c, [], b);
      case GettingCommand(line) => TwinLine(cfg, s, Settle(n), c, line, b);
      case ExpectingBinaryData(_, _) =>
      case GettingHeader(_, _, _) =>
      case _ =>
    }
  }

  lemma AskingStays(cfg: Config, m: Machine, b: byte)
    requires AsksSlotForCommand(m)
    ensures AsksSlotForCommand(Step(cfg, m, b)) && Step(cfg, m, b).log == m.log
  {
  }

  lemma LineDoesNotAsk(cfg: Config, m: Machine, line: bytes, b: byte)
    ensures !AsksSlotForCommand(AddToLine(cfg, m, line, b))
  {
  }

  /** Only a byte of a payload, or behind an empty one, can bring a block to its end. */
  lemma OnlyPayloadAsks(cfg: Config, m: Machine, b: byte)
    requires StateInvariant(m) && !AsksSlotForCommand(m) && AsksSlotForCommand(Step(cfg, m, b))
    ensures m.state.GettingPayload? && !m.state.swallow && m.command == 0
    ensures if m.state.size == 0 then m.state.payload == [] && Settle(m) == m
            else |m.state.payload| == m.state.size - 1
  {
    var n := Settle(m);
    match n.state {
      case WaitingForCommand => LineDoesNotAsk(cfg, n, [], b);
      case GettingCommand(line) => LineDoesNotAsk(cfg, n, line, b);
      case ExpectingBinaryData(_, _) =>
      case GettingHeader(_, _, _) =>
      case _ =>
    }
  }

  /** The byte at which the twins part: the one that held bCORE_WRITE writes a block. */
  lemma TwinsPart(cfg: Config, m: Machine, n: Machine, b: byte)
    requires Twins(m, n, BCORE_WRITE) && StateInvariant(m) && !AsksSlotForCommand(m)
    requires AsksSlotForCommand(Step(cfg, m, b))
    ensures |Step(cfg, n, b).log| > |Step(cfg, m, b).log|
  {
    OnlyPayloadAsks(cfg, m, b);
    if m.state.size == 0 {
      assert Settle(n).log == n.log + [Written([])];
      LogGrows(cfg, Settle(n), [b]);
      RunOne(cfg, Settle(n), b);
      SettledStep(cfg, n, b);
    }
  }

  lemma {:induction false} AskingIsSilent(cfg: Config, m: Machine, s: bytes)
    requires AsksSlotForCommand(m)
    ensures AsksSlotForCommand(Run(cfg, m, s)) && Run(cfg, m, s).log == m.log
    decreases |s|
  {
    if s == [] {
    } else {
      AskingStays(cfg, m, s[0]);
      AskingIsSilent(cfg, Step(cfg, m, s[0]), s[1..]);
    }
  }

  lemma {:induction false} TwinsRun(cfg: Config, m: Machine, n: Machine, c: nat, s: bytes)
    requires Twins(m, n, c) && StateInvariant(m) && !AsksSlotForCommand(m)
    ensures !AsksSlotForCommand(Run(cfg, m, s)) ==> Twins(Run(cfg, m, s), Run(cfg, n, s), c)
    ensures AsksSlotForCommand(Run(cfg, m, s)) && c == BCORE_WRITE ==>
            |Run(cfg, n, s).log| > |Run(cfg, m, s).log|
    decreases |s|
  {
    if s == [] {
    } else {
      var m', n' := Step(cfg, m, s[0]), Step(cfg, n, s[0]);
      StepKeepsInvariant(cfg, m, s[0]);
      if AsksSlotForCommand(m') {
        AskingIsSilent(cfg, m', s[1..]);
        LogGrows(cfg, n', s[1..]);
        if c == BCORE_WRITE {
          TwinsPart(cfg, m, n, s[0]);
        }
      } else {
        TwinsStep(cfg, m, n, c, s[0]);
        TwinsRun(cfg, m', n', c, s[1..]);
      }
    }
  }

  // ---- which streams ask ----

  /** A block of any size, complete; one of size zero only with a byte behind it. */
  predicate StartsWithBlock(s: bytes) {
    && |s| >= HEADER_SIZE && s[0] == 0
    && var size := NetworkOrder(s[1..HEADER_SIZE]);
       HEADER_SIZE + size <= |s| && (size == 0 ==> HEADER_SIZE < |s|)
  }

  /** The bytes of a connection, from a line start on, that hand a block to the previous client's
      command: lines that no table knows, the first of them that starts with `b`, and its block. */
  predicate BlockBeforeCommand(cfg: Config, s: bytes)
    decreases |s|
  {
    var n := LineEnd(s);
    && n < |s| && Unrecognised(cfg, s[..n])
    && if s[0] == LOWER_B then StartsWithBlock(s[n + 1..]) else BlockBeforeCommand(cfg, s[n + 1..])
  }

  function Lines(lines: seq<bytes>): bytes {
    if lines == [] then [] else lines[0] + [NEWLINE] + Lines(lines[1..])
  }

  lemma BlockStarts(data: bytes, more: bytes)
    requires |data| < 0x1_0000_0000 && (data != [] || more != [])
    ensures StartsWithBlock(EncodeBlock(data) + more)
  {
    var s := EncodeBlock(data) + more;
    assert s[1..HEADER_SIZE] == BigEndian(|data|);
    SizeFieldRoundTrip(|data|, s[1..HEADER_SIZE]);
  }

  lemma BlockAtStart(s: bytes) returns (data: bytes, more: bytes)
    requires StartsWithBlock(s)
    ensures |data| < 0x1_0000_0000 && s == EncodeBlock(data) + more && (data != [] || more != [])
  {
    var size := NetworkOrder(s[1..HEADER_SIZE]);
    data, more := s[HEADER_SIZE..HEADER_SIZE + size], s[HEADER_SIZE + size..];
    SizeFieldRoundTrip(0, s[1..HEADER_SIZE]);
    assert s == [s[0]] + s[1..HEADER_SIZE] + data + more;
  }

  /** Unknown lines, an unknown `b` line, its block, and what follows. */
  ghost predicate IsAsking(cfg: Config, s: bytes, lines: seq<bytes>, line: bytes, data: bytes, more: bytes) {
    && (forall i :: 0 <= i < |lines| ==> Unrecognised(cfg, lines[i]) && lines[i][0] != LOWER_B)
    && Unrecognised(cfg, line) && line[0] == LOWER_B
    && |data| < 0x1_0000_0000 && (data != [] || more != [])
    && s == Lines(lines) + (line + [NEWLINE] + (EncodeBlock(data) + more))
  }

  lemma {:induction false} AskingIsBlockBeforeCommand(cfg: Config, s: bytes, lines: seq<bytes>, line: bytes,
                                                       data: bytes, more: bytes)
    requires IsAsking(cfg, s, lines, line, data, more)
    ensures BlockBeforeCommand(cfg, s)
    decreases |lines|
  {
    var last := line + [NEWLINE] + (EncodeBlock(data) + more);
    if lines == [] {
      assert s == Lines([]) + last == last;
      LineEndOf(line, EncodeBlock(data) + more);
      BlockStarts(data, more);
    } else {
      var rest := Lines(lines[1..]) + last;
      ConcatIsAssociative(lines[0] + [NEWLINE], Lines(lines[1..]), last);
      assert IsAsking(cfg, rest, lines[1..], line, data, more);
      LineEndOf(lines[0], rest);
      AskingIsBlockBeforeCommand(cfg, rest, lines[1..], line, data, more);
    }
  }

  lemma NoLineBefore(cfg: Config, s: bytes, line: bytes, data: bytes, more: bytes)
    requires Unrecognised(cfg, line) && line[0] == LOWER_B
    requires |data| < 0x1_0000_0000 && (data != [] || more != [])
    requires s == line + [NEWLINE] + (EncodeBlock(data) + more)
    ensures IsAsking(cfg, s, [], line, data, more)
  {
    assert Lines([]) + s == s;
  }

  lemma OneMoreLine(cfg: Config, first: bytes, s: bytes, lines: seq<bytes>, line: bytes, data: bytes, more: bytes)
    requires Unrecognised(cfg, first) && first[0] != LOWER_B && IsAsking(cfg, s, lines, line, data, more)
    ensures IsAsking(cfg, first + [NEWLINE] + s, [first] + lines, line, data, more)
  {
    var last := line + [NEWLINE] + (EncodeBlock(data) + more);
    assert ([first] + lines)[1..] == lines;
    ConcatIsAssociative(first + [NEWLINE], Lines(lines), last);
  }

  lemma FirstLineAsks(cfg: Config, s: bytes) returns (line: bytes, data: bytes, more: bytes)
    requires BlockBeforeCommand(cfg, s) && s[0] == LOWER_B
    ensures IsAsking(cfg, s, [], line, data, more)
  {
    line := s[..LineEnd(s)];
    var rest := s[LineEnd(s) + 1..];
    data, more := BlockAtStart(rest);
    CutLine(s, LineEnd(s));
    assert line[0] == s[0];
    NoLineBefore(cfg, s, line, data, more);
  }

  lemma FirstLineIsQuiet(cfg: Config, s: bytes) returns (first: bytes, rest: bytes)
    requires BlockBeforeCommand(cfg, s) && s[0] != LOWER_B
    ensures s == first + [NEWLINE] + rest && BlockBeforeCommand(cfg, rest)
    ensures Unrecognised(cfg, first) && first[0] != LOWER_B
  {
    first, rest := s[..LineEnd(s)], s[LineEnd(s) + 1..];
    CutLine(s, LineEnd(s));
    assert first[0] == s[0];
  }

  lemma {:induction false} BlockBeforeCommandIsAsking(cfg: Config, s: bytes)
    returns (lines: seq<bytes>, line: bytes, data: bytes, more: bytes)
    requires BlockBeforeCommand(cfg, s)
    ensures IsAsking(cfg, s, lines, line, data, more)
    decreases |s|
  {
    if s[0] == LOWER_B {
      lines := [];
      line, data, more := FirstLineAsks(cfg, s);
    } else {
      var first, rest := FirstLineIsQuiet(cfg, s);
      lines, line, data, more := BlockBeforeCommandIsAsking(cfg, rest);
      OneMoreLine(cfg, first, rest, lines, line, data, more);
      lines := [first] + lines;
    }
  }

  /** The same said without the search: such a stream is any number of lines that no table knows,
      one more that starts with `b`, and its block. */
  lemma BlockBeforeCommandMeans(cfg: Config, s: bytes)
    ensures BlockBeforeCommand(cfg, s) <==>
            exists lines, line, data, more :: IsAsking(cfg, s, lines, line, data, more)
  {
    if BlockBeforeCommand(cfg, s) {
      var lines, line, data, more := BlockBeforeCommandIsAsking(cfg, s);
    }
    if lines, line, data, more :| IsAsking(cfg, s, lines, line, data, more) {
      AskingIsBlockBeforeCommand(cfg, s, lines, line, data, more);
    }
  }

  lemma {:induction false} CommandStaysKnown(cfg: Config, m: Machine, s: bytes)
    requires m.command != 0
    ensures Run(cfg, m, s).command != 0
    decreases |s|
  {
    if s == [] {
    } else {
      StepKeepsKnown(cfg, m, s[0]);
      CommandStaysKnown(cfg, Step(cfg, m, s[0]), s[1..]);
    }
  }

  lemma LineKeepsKnown(cfg: Config, m: Machine, line: bytes, b: byte)
    requires m.command != 0
    ensures AddToLine(cfg, m, line, b).command != 0
  {
  }

  lemma StepKeepsKnown(cfg: Config, m: Machine, b: byte)
    requires m.command != 0
    ensures Step(cfg, m, b).command != 0
  {
    var n := Settle(m);
    match n.state {
      case WaitingForCommand => LineKeepsKnown(cfg, n, [], b);
      case GettingCommand(line) => LineKeepsKnown(cfg, n, line, b);
      case ExpectingBinaryData(_, _) =>
      case GettingHeader(_, _, _) =>
      case _ =>
    }
  }

  /** Behind a complete header of an unknown command's block. */
  lemma PayloadAsks(cfg: Config, m: Machine, s: bytes)
    requires m.state.GettingPayload? && m.state.payload == [] && !m.state.swallow && m.command == 0
    ensures AsksSlotForCommand(Run(cfg, m, s)) <==> m.state.size <= |s| && s != []
  {
    var size := m.state.size;
    if s == [] {
    } else if size == 0 {
      AskingIsSilent(cfg, Step(cfg, m, s[0]), s[1..]);
    } else if |s| < size {
      RunPayload(cfg, m, s);
    } else {
      RunPayload(cfg, m, s[..size]);
      assert s == s[..size] + s[size..];
      RunAppend(cfg, m, s[..size], s[size..]);
      AskingIsSilent(cfg, Run(cfg, m, s[..size]), s[size..]);
    }
  }

  /** Behind an unknown `b` line. */
  lemma BlockAsks(cfg: Config, m: Machine, s: bytes)
    requires m.state == ExpectingBinaryData(0, false) && m.command == 0
    ensures AsksSlotForCommand(Run(cfg, m, s)) <==> StartsWithBlock(s)
  {
    if s == [] {
    } else if s[0] != 0 {
      DeadIsFinal(cfg, Reject(m, BAD_LEAD), s[1..]);
    } else if |s| < HEADER_SIZE {
      RunHeaderPart(cfg, m, s);
    } else {
      var header, rest := s[..HEADER_SIZE], s[HEADER_SIZE..];
      assert s == header + rest && header[1..] == s[1..HEADER_SIZE] && [] + header == header;
      RunHeaderPart(cfg, m, header);
      RunAppend(cfg, m, header, rest);
      PayloadAsks(cfg, Run(cfg, m, header), rest);
    }
  }

  /** A stream that is no complete line. */
  lemma OpenLineDoesNotAsk(cfg: Config, m: Machine, s: bytes)
    requires m.state.WaitingForCommand? && NEWLINE !in s
    ensures !AsksSlotForCommand(Run(cfg, m, s))
  {
    if s == [] {
    } else if IsCommandStart(s[0]) {
      RunLineStart(cfg, m, s);
    } else {
      DeadIsFinal(cfg, Reject(m, BAD_START), s[1..]);
    }
  }

  /** A line that is not an unknown one ends the matter. */
  lemma KnownLineDoesNotAsk(cfg: Config, m: Machine, line: bytes, rest: bytes)
    requires m.state.WaitingForCommand? && NEWLINE !in line && !Unrecognised(cfg, line)
    ensures !AsksSlotForCommand(Run(cfg, m, line + [NEWLINE] + rest))
  {
    var s := line + [NEWLINE] + rest;
    if WellFormedLine(line) {
      var n := AfterItemLine(cfg, m, line);
      RunLine(cfg, m, line);
      RunAppend(cfg, m, line + [NEWLINE], rest);
      if n.state.Broken? {
        DeadIsFinal(cfg, n, rest);
      } else {
        CommandStaysKnown(cfg, n, rest);
      }
    } else {
      assert !IsCommandStart(s[0]);
      DeadIsFinal(cfg, Reject(m, BAD_START), s[1..]);
    }
  }

  /** The condition on the machine is a condition on the bytes received. */
  lemma {:induction false} AskingStreams(cfg: Config, m: Machine, s: bytes)
    requires m.state.WaitingForCommand? && m.command == 0
    ensures AsksSlotForCommand(Run(cfg, m, s)) <==> BlockBeforeCommand(cfg, s)
    decreases |s|
  {
    var n := LineEnd(s);
    if n == |s| {
      assert s[..n] == s;
      OpenLineDoesNotAsk(cfg, m, s);
    } else {
      var line, rest := s[..n], s[n + 1..];
      CutLine(s, n);
      if Unrecognised(cfg, line) {
        var after := AfterItemLine(cfg, m, line);
        assert (line + [NEWLINE])[0] == line[0] == s[0];
        RunLine(cfg, m, line);
        RunAppend(cfg, m, line + [NEWLINE], rest);
        if s[0] == LOWER_B {
          BlockAsks(cfg, after, rest);
        } else {
          AskingStreams(cfg, after, rest);
        }
      } else {
        KnownLineDoesNotAsk(cfg, m, line, rest);
      }
    }
  }

  /** What the previous client of a slot left behind is invisible to the next one if and only if its
      bytes do not bring a block before the first command that a table knows. */
  lemma StaleCommandInvisible(cfg: Config, s: bytes)
    ensures (forall c: nat :: SameToClient(Run(cfg, Fresh(c), s), Run(cfg, Fresh(0), s)))
            <==> !BlockBeforeCommand(cfg, s)
  {
    AskingStreams(cfg, Fresh(0), s);
    if BlockBeforeCommand(cfg, s) {
      TwinsRun(cfg, Fresh(0), Fresh(BCORE_WRITE), BCORE_WRITE, s);
      assert !SameToClient(Run(cfg, Fresh(BCORE_WRITE), s), Run(cfg, Fresh(0), s));
    } else {
      forall c: nat ensures SameToClient(Run(cfg, Fresh(c), s), Run(cfg, Fresh(0), s)) {
        TwinsRun(cfg, Fresh(0), Fresh(c), c, s);
      }
    }
  }

  /** Where it shows: the block behind an unknown `b` line is written when the slot's previous client
      last wrote a block, and is not when the slot is new. */
  lemma PreviousCommandGetsBlock(cfg: Config, line: bytes, data: bytes)
    requires Unrecognised(cfg, line) && line[0] == LOWER_B && 0 < |data| < 0x1_0000_0000
    ensures var s := line + [NEWLINE] + EncodeBlock(data);
      && BlockBeforeCommand(cfg, s)
      && Run(cfg, Fresh(0), s).log == [ErrorSent(InvalidCommand, "Invalid command")]
      && Run(cfg, Fresh(17), s).log == [ErrorSent(InvalidCommand, "Invalid command"), Written(data)]
  {
    var s := line + [NEWLINE] + EncodeBlock(data);
    BlockAfterUnknownLine(cfg, 0, line, data);
    BlockAfterUnknownLine(cfg, BCORE_WRITE, line, data);
    assert BlockBeforeCommand(cfg, s) by {
      assert EncodeBlock(data) + [] == EncodeBlock(data);
      NoLineBefore(cfg, s, line, data, []);
      AskingIsBlockBeforeCommand(cfg, s, [], line, data, []);
    }
  }

  lemma BlockAfterUnknownLine(cfg: Config, command: nat, line: bytes, data: bytes)
    requires Unrecognised(cfg, line) && line[0] == LOWER_B && 0 < |data| < 0x1_0000_0000
    ensures Run(cfg, Fresh(command), line + [NEWLINE] + EncodeBlock(data)).log
            == [ErrorSent(InvalidCommand, UNKNOWN_COMMAND)] + if command == BCORE_WRITE then [Written(data)] else []
  {
    var m := Fresh(command);
    var n := AfterItemLine(cfg, m, line);
    assert (line + [NEWLINE])[0] == line[0];
    assert [] + [ErrorSent(InvalidCommand, UNKNOWN_COMMAND)] == [ErrorSent(InvalidCommand, UNKNOWN_COMMAND)];
    RunLine(cfg, m, line);
    RunAppend(cfg, m, line + [NEWLINE], EncodeBlock(data));
    RunBlock(cfg, n, data);
    var after := Run(cfg, n, EncodeBlock(data));
    assert Settle(after).log[|Settle(after).log| - 1] != Written([]);
    assert n.log + [Written(data)] == [ErrorSent(InvalidCommand, UNKNOWN_COMMAND)] + [Written(data)];
    assert n.log + [] == n.log;
  }

  /** A concrete case: a server without custom commands, and a client that sends `bX` and a block of
      one byte. */
  lemma UnknownBlockIsWritten(cfg: Config)
    requires cfg.customNames == []
    ensures var s := Ascii("bX") + [NEWLINE] + [0, 0, 0, 0, 1, 7];
      && Written([7]) in Run(cfg, Fresh(BCORE_WRITE), s).log
      && Written([7]) !in Run(cfg, Fresh(0), s).log
  {
    UnknownLine(cfg);
    PreviousCommandGetsBlock(cfg, Ascii("bX"), [7]);
    assert EncodeBlock([7]) == [0, 0, 0, 0, 1, 7];
    assert [ErrorSent(InvalidCommand, UNKNOWN_COMMAND), Written([7])][1] == Written([7]);
  }

  // ---- a client that keeps to its requests ----

  /** Nothing that a client sends of acceptable requests, cut anywhere, lets the previous client of
      the slot show. */
  lemma RequestsDoNotAsk(cfg: Config, rs: seq<Request>, s: bytes)
    requires AllAcceptable(cfg, rs) && s <= PrintAll(cfg, rs)
    ensures !BlockBeforeCommand(cfg, s)
  {
    var all := PrintAll(cfg, rs);
    AskingStreams(cfg, Fresh(0), s);
    if BlockBeforeCommand(cfg, s) {
      assert all == s + all[|s|..];
      RunAppend(cfg, Fresh(0), s, all[|s|..]);
      AskingIsSilent(cfg, Run(cfg, Fresh(0), s), all[|s|..]);
      ServedFresh(cfg, 0, rs);
    }
  }
}
