/** The request parser as an automaton that takes one byte at a time. It is the specification the
    buffered engine in RequestParser.dfy is proved against. */
module Automaton {
  import opened Bytes
  import opened Protocol
  import opened Tokeniser

  const LINE_CAPACITY: nat := 2048
  const HEADER_SIZE: nat := 5

  /** Where the C code leaves defined behaviour or loops for ever. */
  datatype Fault =
    | LineTooLong          // a 2049th byte is stored in the command buffer
    | TooManyArguments     // a 21st argument is stored in the argument array
    | BlockNeverReleased   // payload arrives behind a full block that no command took
    | EndlessLoop          // a full block of size zero that no command takes is processed again and again
    | CopyPastBlock        // one read runs past the end of a part-filled block

  datatype State =
    | WaitingForCommand
    | GettingCommand(line: bytes)
    | ExpectingBinaryData(expected: uint32, swallow: bool)
    | GettingHeader(header: bytes, expected: uint32, swallow: bool)
    | GettingPayload(size: uint32, payload: bytes, swallow: bool)
    | Closed
    | Broken(fault: Fault)

  /** One client's parser: its state, the last command executed for it, and its event log. */
  datatype Machine = Machine(state: State, command: nat, log: seq<Event>) {
    predicate Alive() {
      !state.Closed? && !state.Broken?
    }
  }

  /** A connection just accepted; `command` is whatever the slot still holds. */
  function Fresh(command: nat): Machine {
    Machine(WaitingForCommand, command, [])
  }

  predicate IsCommandStart(b: byte) {
    b == BANG || IsAlnum(b)
  }

  function Reject(m: Machine, reason: string): Machine {
    m.(state := Closed, log := m.log + [ErrorSent(ProtocolError, reason)])
  }

  function Break(m: Machine, fault: Fault): Machine {
    m.(state := Broken(fault))
  }

  /** The state after a complete line whose command returned this size. */
  function AfterLine(line: bytes, size: int64): State
    requires line != []
  {
    if line[0] == LOWER_B then ExpectingBinaryData(ExpectedSize(size), size < 0) else WaitingForCommand
  }

  function AfterExecution(m: Machine, line: bytes, x: Execution): Machine
    requires line != []
  {
    Machine(AfterLine(line, x.size), x.command.GetOr(m.command), m.log + [x.event])
  }

  /** `process_command` on a complete line, newline included. */
  function EndLine(cfg: Config, m: Machine, line: bytes): Machine
    requires line != []
  {
    var args := Arguments(line);
    if |args| > MAX_ARGUMENTS then Break(m, TooManyArguments)
    else
      AfterExecution(m, line, Execute(cfg, Name(line), args))
  }

  /** One more byte of a command line. */
  function AddToLine(cfg: Config, m: Machine, line: bytes, b: byte): Machine {
    if |line| >= LINE_CAPACITY then Break(m, LineTooLong)
    else if b == NEWLINE then EndLine(cfg, m, line + [b])
    else m.(state := GettingCommand(line + [b]))
  }

  function StartLine(cfg: Config, m: Machine, b: byte): Machine {
    if IsCommandStart(b) then AddToLine(cfg, m, [], b) else Reject(m, BAD_START)
  }

  /** With these header bytes stored; the fifth fixes the size. */
  function WithHeader(m: Machine, header: bytes, expected: uint32, swallow: bool): Machine
    requires |header| <= HEADER_SIZE
  {
    if |header| < HEADER_SIZE then m.(state := GettingHeader(header, expected, swallow))
    else
      var size := NetworkOrder(header[1..]);
      if expected == 0 || expected == size then m.(state := GettingPayload(size, [], swallow))
      else Reject(m, BAD_SIZE)
  }

  /** A full block: dropped when it is to be swallowed, given to the write function when the
      current command is bCORE_WRITE, and otherwise left where it is. */
  function CompleteBlock(m: Machine, payload: bytes, swallow: bool): Machine
    requires |payload| < 0x1_0000_0000
  {
    if swallow then m.(state := WaitingForCommand)
    else if m.command == BCORE_WRITE then m.(state := WaitingForCommand, log := m.log + [Written(payload)])
    else m.(state := GettingPayload(|payload|, payload, false))
  }

  function AddToPayload(m: Machine, size: uint32, payload: bytes, swallow: bool, b: byte): Machine
    requires |payload| < size
  {
    var p := payload + [b];
    if |p| == size then CompleteBlock(m, p, swallow) else m.(state := GettingPayload(size, p, swallow))
  }

  /** A block of size zero is completed only when the next byte arrives; the machine as it is then. */
  function Settle(m: Machine): Machine {
    if m.state.GettingPayload? && m.state.size == 0 && m.state.payload == [] then
      CompleteBlock(m, [], m.state.swallow)
    else m
  }

  predicate BlockIsFull(s: State) {
    s.GettingPayload? && |s.payload| >= s.size
  }

  function Step(cfg: Config, m0: Machine, b: byte): Machine {
    var m := Settle(m0);
    match m.state
    case WaitingForCommand => StartLine(cfg, m, b)
    case GettingCommand(line) => AddToLine(cfg, m, line, b)
    case ExpectingBinaryData(expected, swallow) =>
      if b != 0 then Reject(m, BAD_LEAD) else WithHeader(m, [b], expected, swallow)
    case GettingHeader(header, expected, swallow) =>
      if |header| < HEADER_SIZE then WithHeader(m, header + [b], expected, swallow) else m
    case GettingPayload(size, payload, swallow) =>
      if |payload| < size then AddToPayload(m, size, payload, swallow, b)
      else Break(m, if size == 0 then EndlessLoop else BlockNeverReleased)
    case Closed => m
    case Broken(_) => m
  }

  function Run(cfg: Config, m: Machine, s: bytes): Machine
    decreases |s|
  {
    if s == [] then m else Run(cfg, Step(cfg, m, s[0]), s[1..])
  }

  lemma {:induction false} RunAppend(cfg: Config, m: Machine, a: bytes, b: bytes)
    ensures Run(cfg, m, a + b) == Run(cfg, Run(cfg, m, a), b)
    decreases |a|
  {
    if a == [] {
      assert a + b == b;
    } else {
      assert (a + b)[0] == a[0] && (a + b)[1..] == a[1..] + b;
      RunAppend(cfg, Step(cfg, m, a[0]), a[1..], b);
    }
  }

  lemma RunOne(cfg: Config, m: Machine, b: byte)
    ensures Run(cfg, m, [b]) == Step(cfg, m, b)
  {
    assert [b][1..] == [];
  }

  lemma RunLast(cfg: Config, m: Machine, s: bytes)
    requires s != []
    ensures Run(cfg, m, s) == Step(cfg, Run(cfg, m, s[..|s| - 1]), s[|s| - 1])
  {
    var p := s[..|s| - 1];
    assert s == p + [s[|s| - 1]];
    RunAppend(cfg, m, p, [s[|s| - 1]]);
    RunOne(cfg, Run(cfg, m, p), s[|s| - 1]);
  }

  /** Rejecting or breaking is final: nothing is logged and nothing changes afterwards. */
  lemma {:induction false} DeadIsFinal(cfg: Config, m: Machine, s: bytes)
    requires !m.Alive()
    ensures Run(cfg, m, s) == m
    decreases |s|
  {
    if s == [] {
    } else {
      DeadIsFinal(cfg, m, s[1..]);
    }
  }

  lemma SettledStep(cfg: Config, m: Machine, b: byte)
    ensures Settle(Settle(m)) == Settle(m)
    ensures Step(cfg, Settle(m), b) == Step(cfg, m, b)
    ensures StateInvariant(m) ==> StateInvariant(Settle(m))
  {
  }

  lemma {:induction false} SettleIsInvisible(cfg: Config, m: Machine, s: bytes)
    requires s != []
    ensures Run(cfg, Settle(m), s) == Run(cfg, m, s)
  {
    assert Settle(Settle(m)) == Settle(m);
  }

  /** The log only grows. */
  lemma {:induction false} LogGrows(cfg: Config, m: Machine, s: bytes)
    ensures m.log <= Run(cfg, m, s).log
    decreases |s|
  {
    if s == [] {
    } else {
      LogGrows(cfg, Step(cfg, m, s[0]), s[1..]);
    }
  }

  // ---- what holds in every reachable state ----

  /** A command buffer holding the newline-free start of a line. */
  ghost predicate LineInvariant(line: bytes) {
    && 1 <= |line| <= LINE_CAPACITY
    && IsCommandStart(line[0])
    && NEWLINE !in line
  }

  /** A full block stays in its buffer only while the current command does not take it. */
  ghost predicate StateInvariant(m: Machine) {
    match m.state
    case GettingCommand(line) => LineInvariant(line)
    case GettingHeader(header, expected, swallow) => 1 <= |header| < HEADER_SIZE && header[0] == 0
    case GettingPayload(size, payload, swallow) =>
      && |payload| <= size
      && (|payload| == size && size > 0 ==> !swallow && m.command != BCORE_WRITE)
    case _ => true
  }

  lemma LineByteKeepsInvariant(cfg: Config, m: Machine, line: bytes, b: byte)
    requires if line == [] then IsCommandStart(b) else LineInvariant(line)
    ensures StateInvariant(AddToLine(cfg, m, line, b))
  {
    if b != NEWLINE {
      assert NEWLINE !in line + [b];
    }
  }

  lemma StepKeepsInvariant(cfg: Config, m: Machine, b: byte)
    requires StateInvariant(m)
    ensures StateInvariant(Step(cfg, m, b))
  {
    var n := Settle(m);
    match n.state {
      case WaitingForCommand => if IsCommandStart(b) { LineByteKeepsInvariant(cfg, n, [], b); }
      case GettingCommand(line) => LineByteKeepsInvariant(cfg, n, line, b);
      case ExpectingBinaryData(_, _) =>
      case GettingHeader(_, _, _) =>
      case _ =>
    }
  }

  lemma {:induction false} InvariantAlways(cfg: Config, m: Machine, s: bytes)
    requires StateInvariant(m)
    ensures StateInvariant(Run(cfg, m, s))
    decreases |s|
  {
    if s == [] {
    } else {
      StepKeepsInvariant(cfg, m, s[0]);
      InvariantAlways(cfg, Step(cfg, m, s[0]), s[1..]);
    }
  }

  /** The reason sent when a byte is refused in this state. */
  function RefusalReason(s: State): string {
    if s.WaitingForCommand? then BAD_START else if s.ExpectingBinaryData? then BAD_LEAD else BAD_SIZE
  }

  /** The three bytes that are refused: a line start that is neither `!` nor alphanumeric, a
      non-zero block lead, and the fifth header byte when it completes a size other than a
      non-zero expected one. A refusal logs one protocol error. */
  lemma RefusedBytes(cfg: Config, m: Machine, b: byte)
    requires StateInvariant(m) && m.Alive()
    ensures var n := Settle(m);
      && (Step(cfg, m, b).state.Closed? <==>
            || (n.state.WaitingForCommand?
                && !(b == 33 || 48 <= b <= 57 || 65 <= b <= 90 || 97 <= b <= 122))
            || (n.state.ExpectingBinaryData? && b != 0)
            || (n.state.GettingHeader? && |n.state.header| == 4 && n.state.expected != 0
                && n.state.expected != NetworkOrder(n.state.header[1..] + [b])))
      && (Step(cfg, m, b).state.Closed? ==>
            Step(cfg, m, b).log == n.log + [ErrorSent(ProtocolError, RefusalReason(n.state))])
  {
    var n := Settle(m);
    if n.state.GettingHeader? {
      assert (n.state.header + [b])[1..] == n.state.header[1..] + [b];
    }
  }
}
