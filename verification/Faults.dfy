/** Which streams take the server out of defined behaviour: a search along the bytes, line by line and
    block by block, proved to find exactly the faults that the parser runs into. */
module Faults {
  import opened Bytes
  import opened Protocol
  import opened Tokeniser
  import opened Automaton
  import opened Conversation

  /** Bytes before the first newline. */
  function LineEnd(s: bytes): (n: nat)
    ensures n <= |s| && NEWLINE !in s[..n]
    ensures n < |s| ==> s[n] == NEWLINE
  {
    if s == [] || s[0] == NEWLINE then 0 else 1 + LineEnd(s[1..])
  }

  lemma CutLine(s: bytes, n: nat)
    requires n < |s| && s[n] == NEWLINE
    ensures s == s[..n] + [NEWLINE] + s[n + 1..]
    ensures s[..n + 1] == s[..n] + [NEWLINE]
  {
  }

  lemma {:induction false} LineEndOf(line: bytes, rest: bytes)
    requires NEWLINE !in line
    ensures LineEnd(line + [NEWLINE] + rest) == |line|
    ensures (line + [NEWLINE] + rest)[..|line|] == line && (line + [NEWLINE] + rest)[|line| + 1..] == rest
  {
    var s := line + [NEWLINE] + rest;
    if line == [] {
      assert s[0] == NEWLINE;
    } else {
      assert s[0] == line[0] && s[1..] == line[1..] + [NEWLINE] + rest;
      LineEndOf(line[1..], rest);
    }
  }

  /** What a stream comes to: a fault, an end strictly inside the data of a block, or neither. */
  datatype Finding = Clean | CutData(missing: nat) | Faulty(fault: Fault)

  /** The search from a line start on, when this is the current command. A line must end within the
      buffer and have at most twenty arguments; a complete block must be swallowed or be for
      bCORE_WRITE, unless nothing follows it; and nothing is wrong with what the server refuses. */
  function Search(cfg: Config, command: nat, s: bytes): Finding
    decreases |s|
  {
    var n := LineEnd(s);
    if s == [] || !IsCommandStart(s[0]) then Clean
    else if n >= LINE_CAPACITY && |s| > LINE_CAPACITY then Faulty(LineTooLong)
    else if n == |s| then Clean
    else if |Arguments(s[..n + 1])| > MAX_ARGUMENTS then Faulty(TooManyArguments)
    else
      var x := Execute(cfg, Name(s[..n + 1]), Arguments(s[..n + 1]));
      var current, rest := x.command.GetOr(command), s[n + 1..];
      if s[0] == LOWER_B then SearchBlock(cfg, current, ExpectedSize(x.size), x.size < 0, rest)
      else Search(cfg, current, rest)
  }

  function SearchBlock(cfg: Config, command: nat, expected: uint32, swallow: bool, s: bytes): Finding
    decreases |s|
  {
    if |s| < HEADER_SIZE || s[0] != 0 then Clean
    else
      var size, data := NetworkOrder(s[1..HEADER_SIZE]), s[HEADER_SIZE..];
      if expected != 0 && expected != size then Clean
      else if |data| < size then if data == [] then Clean else CutData(size - |data|)
      else if swallow || command == BCORE_WRITE then Search(cfg, command, data[size..])
      else if |data| == size then Clean
      else Faulty(if size == 0 then EndlessLoop else BlockNeverReleased)
  }

  /** The fault that a connection's bytes lead to, when its slot holds this command. */
  function FaultOf(cfg: Config, command: nat, s: bytes): Option<Fault> {
    var finding := Search(cfg, command, s);
    if finding.Faulty? then Some(finding.fault) else None
  }

  /** The same read off a parser's state. */
  function FindingIn(state: State): Finding {
    match state
    case Broken(fault) => Faulty(fault)
    case GettingPayload(size, payload, _) => if 0 < |payload| < size then CutData(size - |payload|) else Clean
    case _ => Clean
  }

  /** A stream without a complete line. */
  lemma SearchOpenLine(cfg: Config, m: Machine, s: bytes)
    requires m.state.WaitingForCommand? && s != [] && IsCommandStart(s[0]) && LineEnd(s) == |s|
    ensures FindingIn(Run(cfg, m, s).state) == Search(cfg, m.command, s)
  {
    assert s[..LineEnd(s)] == s;
    RunLineStart(cfg, m, s);
  }

  /** A line with its newline, and what follows. */
  lemma SearchWholeLine(cfg: Config, m: Machine, line: bytes, rest: bytes)
    requires m.state.WaitingForCommand? && WellFormedLine(line)
    ensures Run(cfg, m, line + [NEWLINE] + rest) == Run(cfg, AfterItemLine(cfg, m, line), rest)
    ensures AfterItemLine(cfg, m, line).state.Broken? ==>
              Run(cfg, m, line + [NEWLINE] + rest) == AfterItemLine(cfg, m, line)
  {
    RunLine(cfg, m, line);
    RunAppend(cfg, m, line + [NEWLINE], rest);
    if AfterItemLine(cfg, m, line).state.Broken? {
      DeadIsFinal(cfg, AfterItemLine(cfg, m, line), rest);
    }
  }

  /** A complete header, and what follows. */
  lemma SearchHeader(cfg: Config, m: Machine, s: bytes)
    requires m.state.ExpectingBinaryData? && |s| >= HEADER_SIZE && s[0] == 0
    ensures var size := NetworkOrder(s[1..HEADER_SIZE]);
      Run(cfg, m, s) == if m.state.expected != 0 && m.state.expected != size then Reject(m, BAD_SIZE)
                        else Run(cfg, m.(state := GettingPayload(size, [], m.state.swallow)), s[HEADER_SIZE..])
  {
    var header, data := s[..HEADER_SIZE], s[HEADER_SIZE..];
    assert s == header + data && header[1..] == s[1..HEADER_SIZE] && [] + header == header;
    RunHeaderPart(cfg, m, header);
    RunAppend(cfg, m, header, data);
    if Run(cfg, m, header).state.Closed? {
      DeadIsFinal(cfg, Run(cfg, m, header), data);
    }
  }

  /** Data that do not fill their block. */
  lemma SearchPartOfData(cfg: Config, m: Machine, data: bytes)
    requires m.state.GettingPayload? && m.state.payload == [] && |data| < m.state.size
    ensures FindingIn(Run(cfg, m, data).state) == if data == [] then Clean else CutData(m.state.size - |data|)
  {
    if data == [] {
    } else {
      RunPayload(cfg, m, data);
    }
  }

  /** A full block, and what follows. */
  lemma SearchWholeData(cfg: Config, m: Machine, data: bytes, rest: bytes)
    requires m.state.GettingPayload? && m.state.payload == [] && |data| == m.state.size
    ensures var after := CompleteBlock(m, data, m.state.swallow);
      FindingIn(Run(cfg, m, data + rest).state) ==
      if after.state.WaitingForCommand? then FindingIn(Run(cfg, after, rest).state)
      else if rest == [] then Clean
      else Faulty(if data == [] then EndlessLoop else BlockNeverReleased)
  {
    var after := CompleteBlock(m, data, m.state.swallow);
    if data == [] {
      assert data + rest == rest;
      if rest != [] {
        SettleIsInvisible(cfg, m, rest);
      }
    } else {
      RunPayload(cfg, m, data);
      assert [] + data == data;
      RunAppend(cfg, m, data, rest);
    }
    if rest != [] && !after.state.WaitingForCommand? {
      DeadIsFinal(cfg, Step(cfg, after, rest[0]), rest[1..]);
    }
  }

  lemma {:induction false} SearchBlockIsRun(cfg: Config, m: Machine, s: bytes)
    requires m.state.ExpectingBinaryData?
    ensures FindingIn(Run(cfg, m, s).state) == SearchBlock(cfg, m.command, m.state.expected, m.state.swallow, s)
    decreases |s|
  {
    if s == [] {
    } else if s[0] != 0 {
      DeadIsFinal(cfg, Reject(m, BAD_LEAD), s[1..]);
    } else if |s| < HEADER_SIZE {
      RunHeaderPart(cfg, m, s);
    } else {
      SearchHeader(cfg, m, s);
      var size, data := NetworkOrder(s[1..HEADER_SIZE]), s[HEADER_SIZE..];
      var n := m.(state := GettingPayload(size, [], m.state.swallow));
      if m.state.expected != 0 && m.state.expected != size {
      } else if |data| < size {
        SearchPartOfData(cfg, n, data);
      } else {
        SearchWholeData(cfg, n, data[..size], data[size..]);
        assert data == data[..size] + data[size..];
        var after := CompleteBlock(n, data[..size], m.state.swallow);
        if after.state.WaitingForCommand? {
          SearchIsRun(cfg, after, data[size..]);
        }
      }
    }
  }

  /** The search finds what the parser finds: its fault, or the data it still lacks. */
  lemma {:induction false} SearchIsRun(cfg: Config, m: Machine, s: bytes)
    requires m.state.WaitingForCommand?
    ensures FindingIn(Run(cfg, m, s).state) == Search(cfg, m.command, s)
    decreases |s|
  {
    var n := LineEnd(s);
    if s == [] {
    } else if !IsCommandStart(s[0]) {
      DeadIsFinal(cfg, Reject(m, BAD_START), s[1..]);
    } else if n == |s| {
      SearchOpenLine(cfg, m, s);
    } else {
      var line, rest := s[..n], s[n + 1..];
      CutLine(s, n);
      SearchWholeLine(cfg, m, line, rest);
      var after := AfterItemLine(cfg, m, line);
      assert (line + [NEWLINE])[0] == s[0];
      if after.state.WaitingForCommand? {
        SearchIsRun(cfg, after, rest);
      } else if after.state.ExpectingBinaryData? {
        SearchBlockIsRun(cfg, after, rest);
      }
    }
  }

  /** Exactly which bytes take the parser of a new connection out of defined behaviour, and how. */
  lemma FaultsAreExact(cfg: Config, command: nat, s: bytes, fault: Fault)
    ensures Run(cfg, Fresh(command), s).state == Broken(fault) <==> FaultOf(cfg, command, s) == Some(fault)
    ensures Run(cfg, Fresh(command), s).state.Broken? <==> FaultOf(cfg, command, s).Some?
  {
    SearchIsRun(cfg, Fresh(command), s);
  }

  // ---- streams that meet each of them ----

  /** A command line within the server's limits whose name no table knows. */
  predicate Unrecognised(cfg: Config, line: bytes) {
    && WellFormedLine(line) && |line| + 1 <= LINE_CAPACITY
    && |Arguments(line + [NEWLINE])| <= MAX_ARGUMENTS
    && Lookup(cfg, Name(line + [NEWLINE])).None?
  }

  lemma ShortNameIsUnknown(cfg: Config, name: bytes)
    requires cfg.customNames == [] && |name| < 8
    ensures Lookup(cfg, name).None?
  {
    FoundName(COMMAND_NAMES, name, 0);
    forall k | 0 <= k < |COMMAND_NAMES| ensures name != Ascii(COMMAND_NAMES[k]) {
      assert |COMMAND_NAMES[k]| >= 8;
    }
  }

  lemma UnknownLine(cfg: Config)
    requires cfg.customNames == []
    ensures Unrecognised(cfg, Ascii("bX"))
  {
    var line := Ascii("bX");
    assert PrintLine(line, None) == line + [NEWLINE];
    TokenisePrinted(line, None);
    ShortNameIsUnknown(cfg, line);
  }

  lemma SearchBlockNobodyTakes(cfg: Config, command: nat, data: bytes, more: bytes)
    requires command != BCORE_WRITE && |data| < 0x1_0000_0000 && more != []
    ensures SearchBlock(cfg, command, 0, false, EncodeBlock(data) + more)
            == Faulty(if data == [] then EndlessLoop else BlockNeverReleased)
  {
    var s := EncodeBlock(data) + more;
    assert s[1..HEADER_SIZE] == BigEndian(|data|) && s[HEADER_SIZE..] == data + more;
    SizeFieldRoundTrip(|data|, s[1..HEADER_SIZE]);
  }

  /** Any byte behind the block of an unknown `b` line: the block is full and nobody takes it. When its
      size is zero nothing is consumed, and the loop turns for ever. */
  lemma BlockNobodyTakes(cfg: Config, command: nat, line: bytes, data: bytes, more: bytes)
    requires Unrecognised(cfg, line) && line[0] == LOWER_B && command != BCORE_WRITE
    requires |data| < 0x1_0000_0000 && more != []
    ensures FaultOf(cfg, command, line + [NEWLINE] + (EncodeBlock(data) + more))
            == Some(if data == [] then EndlessLoop else BlockNeverReleased)
  {
    var rest := EncodeBlock(data) + more;
    var s := line + [NEWLINE] + rest;
    LineEndOf(line, rest);
    CutLine(s, |line|);
    assert s[0] == line[0];
    SearchBlockNobodyTakes(cfg, command, data, more);
  }

  /** A concrete endless loop, on a server without custom commands: `bX`, an empty block, and a `!`. */
  lemma EndlessLoopExists(cfg: Config)
    requires cfg.customNames == []
    ensures Run(cfg, Fresh(0), Ascii("bX") + [NEWLINE] + [0, 0, 0, 0, 0, BANG]).state == Broken(EndlessLoop)
  {
    UnknownLine(cfg);
    BlockNobodyTakes(cfg, 0, Ascii("bX"), [], [BANG]);
    assert EncodeBlock([]) + [BANG] == [0, 0, 0, 0, 0, BANG];
    FaultsAreExact(cfg, 0, Ascii("bX") + [NEWLINE] + [0, 0, 0, 0, 0, BANG], EndlessLoop);
  }

  /** Any printed command with more than twenty arguments. */
  lemma TooManyArgumentsBreak(cfg: Config, command: nat, name: bytes, args: seq<bytes>)
    requires name != [] && IsCommandStart(name[0]) && SPACE !in name && NEWLINE !in name && NUL !in name
    requires |args| > 20 && (args[0] == [] || args[0][0] != SPACE)
    requires forall i :: 0 <= i < |args| ==> SEMICOLON !in args[i] && NEWLINE !in args[i] && NUL !in args[i]
    requires |PrintLine(name, Some(Join(args, SEMICOLON)))| <= 2048
    ensures FaultOf(cfg, command, PrintLine(name, Some(Join(args, SEMICOLON)))) == Some(TooManyArguments)
  {
    var s := PrintLine(name, Some(Join(args, SEMICOLON)));
    var line := name + ([SPACE] + Join(args, SEMICOLON));
    JoinedIsNewlineFree(args);
    assert s == line + [NEWLINE] + [];
    LineEndOf(line, []);
    assert s[..|line| + 1] == s;
    TokeniserInvertsPrinter(name, args);
  }

  /** Any command text of more than 2048 bytes, whatever follows. */
  lemma LongLineBreaks(cfg: Config, command: nat, text: bytes, more: bytes)
    requires WellFormedLine(text) && |text| > 2048
    ensures FaultOf(cfg, command, text + more) == Some(LineTooLong)
  {
    var m, s := Fresh(command), text + more;
    RunLineStart(cfg, m, text);
    RunAppend(cfg, m, text, more);
    DeadIsFinal(cfg, Break(m, LineTooLong), more);
    SearchIsRun(cfg, m, s);
  }
}
