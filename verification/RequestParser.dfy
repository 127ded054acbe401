/** The buffered request parser of one client: fixed arrays, cursors and a block allocated when its
    header is complete. Every method is proved against the automaton. */
module RequestParser {
  import opened Bytes
  import opened Protocol
  import opened Tokeniser
  import opened Automaton
  import opened Conversation
  import opened Reads

  const READ_CAPACITY: nat := 2048
  const ARGUMENT_CAPACITY: nat := 2056

  datatype ClientState = WAITING_FOR_COMMAND | GETTING_COMMAND | EXPECTING_BINARY_DATA | GETTING_BINARY_DATA

  /** What `preprocess_data` comes back with. */
  datatype Outcome = Keep | Close | Undefined(fault: Fault)

  function OutcomeOf(state: State): Outcome {
    match state
    case Closed => Close
    case Broken(fault) => Undefined(fault)
    case _ => Keep
  }

  class Client {
    var socketFd: int
    const readedData: array<byte>
    const commandData: array<byte>
    const binaryHeader: array<byte>
    var readedSize: nat
    var commandDataSize: nat
    var commandDataPos: nat
    var shallowBinaryBlock: bool
    var state: ClientState
    var currentCommand: nat
    var binaryHeaderSize: nat
    var binaryBlock: array?<byte>
    var binaryBlockDefinedSize: uint32
    var binaryBlockSize: nat
    var expectedBlockSize: uint32
    ghost var log: seq<Event>

    /** The objects the parser writes; the read buffer is not among them. */
    ghost function Footprint(): set<object>
      reads this
    {
      {this, commandData, binaryHeader} + if binaryBlock == null then {} else {binaryBlock}
    }

    ghost function Objects(): set<object>
      reads this
    {
      Footprint() + {readedData}
    }

    ghost predicate Shape()
      reads this
    {
      && readedData.Length == READ_CAPACITY && commandData.Length == LINE_CAPACITY
      && binaryHeader.Length == HEADER_SIZE
      && readedData != commandData && readedData != binaryHeader && commandData != binaryHeader
      && binaryBlock != readedData && binaryBlock != commandData && binaryBlock != binaryHeader
      && commandDataPos <= LINE_CAPACITY && readedSize <= READ_CAPACITY
      && binaryHeaderSize <= HEADER_SIZE
      && (binaryBlock != null ==> binaryBlockSize <= binaryBlock.Length)
    }

    /** The automaton state these fields stand for. */
    ghost function View(): State
      requires Shape()
      reads this, Footprint()
    {
      match state
      case WAITING_FOR_COMMAND => WaitingForCommand
      case GETTING_COMMAND => GettingCommand(commandData[..commandDataPos])
      case EXPECTING_BINARY_DATA => ExpectingBinaryData(expectedBlockSize, shallowBinaryBlock)
      case GETTING_BINARY_DATA =>
        if binaryBlock == null then
          GettingHeader(binaryHeader[..binaryHeaderSize], expectedBlockSize, shallowBinaryBlock)
        else
          GettingPayload(binaryBlockDefinedSize, binaryBlock[..binaryBlockSize], shallowBinaryBlock)
    }

    ghost function Now(): Machine
      requires Shape()
      reads this, Footprint()
    {
      Machine(View(), currentCommand, log)
    }

    /** Between two reads: a block buffer exists exactly when the header is complete and has the
        declared size, a declared size agrees with a non-zero expected size, the swallow flag is set
        only while a block is expected or under way, and the automaton's own invariant holds. */
    ghost predicate Valid()
      reads this, Footprint()
    {
      && Shape()
      && StateInvariant(Now())
      && (binaryBlock != null <==> state == GETTING_BINARY_DATA && binaryHeaderSize == HEADER_SIZE)
      && (binaryBlock != null ==>
            && binaryBlock.Length == binaryBlockDefinedSize
            && (expectedBlockSize == 0 || expectedBlockSize == binaryBlockDefinedSize))
      && (shallowBinaryBlock ==> state == EXPECTING_BINARY_DATA || state == GETTING_BINARY_DATA)
      && (state != GETTING_COMMAND ==> commandDataPos == 0)
    }

    /** The part of the current read not yet consumed. */
    ghost function Rest(pos: nat): bytes
      requires pos <= readedSize <= readedData.Length
      reads this, readedData
    {
      readedData[pos..readedSize]
    }

    lemma RestSplits(pos: nat, next: nat)
      requires pos <= next <= readedSize <= readedData.Length
      ensures Rest(pos) == readedData[pos..next] + Rest(next)
    {
    }

    ghost function Line(): bytes
      requires commandDataSize <= commandData.Length
      reads this, commandData
    {
      commandData[..commandDataSize]
    }

    constructor ()
      ensures Shape() && socketFd == 0 && currentCommand == 0 && fresh(Footprint()) && fresh(readedData)
    {
      readedData := new byte[READ_CAPACITY];
      commandData := new byte[LINE_CAPACITY];
      binaryHeader := new byte[HEADER_SIZE];
      socketFd, readedSize, commandDataSize, commandDataPos := 0, 0, 0, 0;
      shallowBinaryBlock, state, currentCommand := false, WAITING_FOR_COMMAND, 0;
      binaryHeaderSize, binaryBlock, binaryBlockDefinedSize, binaryBlockSize := 0, null, 0, 0;
      expectedBlockSize := 0;
      log := [];
    }

    /** The slot part of `add_to_clients`. The last command and the expected size stay as they are. */
    method Occupy(fd: int)
      requires Shape()
      modifies this, commandData
      ensures Valid() && socketFd == fd && Now() == Fresh(old(currentCommand))
      ensures readedSize == old(readedSize) && Footprint() <= old(Footprint())
    {
      socketFd := fd;
      commandData[0] := 0;
      commandDataSize, commandDataPos := 0, 0;
      state := WAITING_FOR_COMMAND;
      binaryBlockSize, binaryBlock, binaryHeaderSize := 0, null, 0;
      shallowBinaryBlock := false;
      log := [];
    }

    /** The slot part of `remove_client`. */
    method Vacate()
      requires Shape()
      modifies this
      ensures Shape() && socketFd == 0 && currentCommand == old(currentCommand)
      ensures Footprint() <= old(Footprint())
    {
      binaryBlock := null;
      socketFd := 0;
    }

    method SendError(kind: ErrorType, reason: string)
      modifies this`log
      ensures log == old(log) + [ErrorSent(kind, reason)]
    {
      log := log + [ErrorSent(kind, reason)];
    }

    /** `execute_command`: the standard table, then the custom table over it, then the handler. */
    method ExecuteCommand(cfg: Config, cmd: bytes, args: seq<bytes>) returns (size: int64)
      modifies this`currentCommand, this`log
      ensures var x := Execute(cfg, cmd, CStrings(args));
              && size == x.size
              && log == old(log) + [x.event]
              && currentCommand == x.command.GetOr(old(currentCommand))
    {
      var found := SearchStandard(COMMAND_NAMES, cmd);
      var custom := SearchCustom(cfg, cmd);
      if custom.Some? {
        found := Some(CUSTOM + custom.value);
      }
      if found.None? {
        SendError(InvalidCommand, UNKNOWN_COMMAND);
        return 0;
      }
      var command := found.value;
      currentCommand := command;
      if command >= CUSTOM || command in cfg.implemented {
        log := log + [Called(command, CStrings(args))];
        return cfg.handler(command, CStrings(args));
      }
      SendError(InvalidCommand, NOT_IMPLEMENTED);
      return -1;
    }

    /** The size a `b` command returned: a negative one is negated, and the block to be swallowed. */
    method ExpectBlock(size: int64)
      requires !shallowBinaryBlock
      modifies this`shallowBinaryBlock, this`expectedBlockSize, this`binaryBlock, this`binaryBlockSize,
               this`binaryHeaderSize
      ensures expectedBlockSize == ExpectedSize(size) && shallowBinaryBlock == (size < 0)
      ensures binaryBlock == null && binaryBlockSize == 0 && binaryHeaderSize == 0
    {
      var magnitude: int := size;
      if magnitude < 0 {
        shallowBinaryBlock := true;
        magnitude := magnitude * -1;
      }
      expectedBlockSize := magnitude % 0x1_0000_0000;
      binaryBlock, binaryBlockSize, binaryHeaderSize := null, 0, 0;
    }

    /** `process_command` on the complete line in the command buffer; `m` is the machine before. */
    method ProcessCommand(cfg: Config, ghost m: Machine, ghost line: bytes) returns (ok: bool)
      requires Shape() && 0 < commandDataSize <= LINE_CAPACITY && line == Line() && IsLine(line)
      requires m.command == currentCommand && m.log == log
      requires state == if line[0] == LOWER_B then EXPECTING_BINARY_DATA else GETTING_COMMAND
      requires !shallowBinaryBlock && binaryBlock == null
      modifies this`currentCommand, this`log, this`shallowBinaryBlock, this`expectedBlockSize, this`state,
               this`binaryBlock, this`binaryBlockSize, this`binaryHeaderSize
      ensures Shape() && binaryBlock == null
      ensures if ok then Now() == EndLine(cfg, m, line)
              else EndLine(cfg, m, line) == Break(m, TooManyArguments) && log == m.log && currentCommand == m.command
      ensures ok ==> state == WAITING_FOR_COMMAND || state == EXPECTING_BINARY_DATA
      ensures ok && shallowBinaryBlock ==> state == EXPECTING_BINARY_DATA
    {
      var cmd, args, overflow := ParseLine(commandData[..commandDataSize]);
      if overflow {
        return false;
      }
      ghost var x := Execute(cfg, cmd, CStrings(args));
      assert EndLine(cfg, m, line) == AfterExecution(m, line, x);
      var expected := ExecuteCommand(cfg, cmd, args);
      if state == EXPECTING_BINARY_DATA {
        ExpectBlock(expected);
      } else {
        state := WAITING_FOR_COMMAND;
      }
      assert Now() == AfterExecution(m, line, x);
      return true;
    }

    /** At the end of a line: nothing in the command buffer and no block under way. */
    ghost predicate Idle()
      reads this
    {
      && Shape() && commandDataPos == 0 && binaryBlock == null
      && (state == WAITING_FOR_COMMAND || state == EXPECTING_BINARY_DATA)
      && (shallowBinaryBlock ==> state == EXPECTING_BINARY_DATA)
    }

    lemma IdleIsValid()
      requires Idle()
      ensures Valid() && !View().GettingPayload?
    {
    }

    /** What the read loop does when it has stored a newline. */
    method FinishLine(cfg: Config, ghost m: Machine, ghost line: bytes) returns (ok: bool)
      requires Shape() && m.command == currentCommand && m.log == log
      requires 0 < commandDataPos && line == commandData[..commandDataPos] && IsLine(line)
      requires state == GETTING_COMMAND && !shallowBinaryBlock && binaryBlock == null
      modifies this`state, this`commandDataPos, this`commandDataSize, this`currentCommand, this`log,
               this`shallowBinaryBlock, this`expectedBlockSize,
               this`binaryBlock, this`binaryBlockSize, this`binaryHeaderSize
      ensures Shape() && binaryBlock == null
      ensures if ok then Idle() && Now() == EndLine(cfg, m, line)
              else EndLine(cfg, m, line) == Break(m, TooManyArguments) && log == m.log && currentCommand == m.command
    {
      commandDataSize := commandDataPos;
      assert line[0] == commandData[0];
      if commandData[0] == LOWER_B {
        state := EXPECTING_BINARY_DATA;
      }
      ok := ProcessCommand(cfg, m, line);
      commandDataPos, commandDataSize := 0, 0;
    }

    // ---- preprocess_data: one method for each phase of its loop ----

    /** Inside a command line: the buffer holds a newline-free start of it, or nothing yet. */
    ghost predicate Collecting()
      reads this, commandData
    {
      && Shape() && state == GETTING_COMMAND && binaryBlock == null && !shallowBinaryBlock
      && NEWLINE !in commandData[..commandDataPos]
      && (commandDataPos > 0 ==> IsCommandStart(commandData[0]))
    }

    /** The store of one command byte; `line` is what the buffer held. */
    method StoreCommandByte(cfg: Config, b: byte, ghost m: Machine, ghost line: bytes) returns (outcome: Outcome)
      requires Collecting() && (commandDataPos == 0 ==> IsCommandStart(b))
      requires m == Now() && line == commandData[..commandDataPos]
      modifies this`state, this`commandDataPos, this`commandDataSize, this`currentCommand, this`log,
               this`shallowBinaryBlock, this`expectedBlockSize,
               this`binaryBlock, this`binaryBlockSize, this`binaryHeaderSize, commandData
      ensures Shape() && binaryBlock == null
      ensures !outcome.Keep? ==> log == m.log && currentCommand == m.command
      ensures if |line| == LINE_CAPACITY then outcome == Undefined(LineTooLong)
        else if b != NEWLINE then
          outcome.Keep? && Collecting() && commandDataPos > 0 && Now() == m.(state := GettingCommand(line + [b]))
        else if outcome.Keep? then Idle() && Now() == EndLine(cfg, m, line + [b])
        else outcome == Undefined(TooManyArguments) && EndLine(cfg, m, line + [b]) == Break(m, TooManyArguments)
    {
      if commandDataPos == LINE_CAPACITY {
        // the store into command_data would be behind its last element
        return Undefined(LineTooLong);
      }
      commandData[commandDataPos] := b;
      commandDataPos := commandDataPos + 1;
      assert commandData[..commandDataPos] == line + [b];
      assert (line + [b])[..|line|] == line;
      if b == NEWLINE {
        var ok := FinishLine(cfg, m, line + [b]);
        return if ok then Keep else Undefined(TooManyArguments);
      }
      return Keep;
    }

    /** One turn of the command loop. */
    method TakeCommandByte(cfg: Config, pos: nat) returns (outcome: Outcome)
      requires Collecting() && pos < readedSize
      requires commandDataPos == 0 ==> IsCommandStart(readedData[pos])
      modifies this`state, this`commandDataPos, this`commandDataSize, this`currentCommand, this`log,
               this`shallowBinaryBlock, this`expectedBlockSize,
               this`binaryBlock, this`binaryBlockSize, this`binaryHeaderSize, commandData
      ensures Shape() && binaryBlock == null
      ensures var goal := old(Run(cfg, Now(), Rest(pos)));
        if outcome.Keep? then
          && (if readedData[pos] == NEWLINE then Idle() else Collecting() && commandDataPos > 0)
          && Run(cfg, Now(), Rest(pos + 1)) == goal
        else log == goal.log && currentCommand == goal.command && outcome == OutcomeOf(goal.state)
    {
      ghost var m, line, rest := Now(), commandData[..commandDataPos], Rest(pos);
      RunCommandByte(cfg, m, rest);
      outcome := StoreCommandByte(cfg, readedData[pos], m, line);
      assert rest[0] == readedData[pos] && rest[1..] == Rest(pos + 1);
    }

    /** The command loop: up to the newline or the end of the read. */
    method TakeLine(cfg: Config, pos: nat) returns (next: nat, outcome: Outcome)
      requires Collecting() && pos < readedSize
      requires commandDataPos == 0 ==> IsCommandStart(readedData[pos])
      modifies this`state, this`commandDataPos, this`commandDataSize, this`currentCommand, this`log,
               this`shallowBinaryBlock, this`expectedBlockSize,
               this`binaryBlock, this`binaryBlockSize, this`binaryHeaderSize, commandData
      ensures Shape() && binaryBlock == null
      ensures var goal := old(Run(cfg, Now(), Rest(pos)));
        if outcome.Keep? then
          && Valid() && pos < next <= readedSize && !View().GettingPayload?
          && Run(cfg, Now(), Rest(next)) == goal
        else log == goal.log && currentCommand == goal.command && outcome == OutcomeOf(goal.state)
    {
      ghost var goal := Run(cfg, Now(), Rest(pos));
      next, outcome := pos, Keep;
      while next < readedSize
        invariant Collecting()
        invariant pos <= next <= readedSize
        invariant commandDataPos == 0 ==> next == pos && IsCommandStart(readedData[pos])
        invariant next > pos ==> commandDataPos > 0
        invariant Run(cfg, Now(), Rest(next)) == goal
        invariant outcome.Keep?
      {
        var b := readedData[next];
        outcome := TakeCommandByte(cfg, next);
        next := next + 1;
        if !outcome.Keep? {
          return;
        }
        if b == NEWLINE {
          IdleIsValid();
          return;
        }
      }
      CollectingIsValid();
    }

    lemma CollectingIsValid()
      requires Collecting() && commandDataPos > 0
      ensures Valid() && View().GettingCommand?
    {
      assert commandData[..commandDataPos][0] == commandData[0];
    }

    /** Command bytes: the check of the first one, then the loop. */
    method TakeCommandBytes(cfg: Config, pos: nat) returns (next: nat, outcome: Outcome)
      requires Valid() && pos < readedSize
      requires state == WAITING_FOR_COMMAND || state == GETTING_COMMAND
      modifies this, commandData
      ensures Shape() && Footprint() == old(Footprint())
      ensures socketFd == old(socketFd) && readedSize == old(readedSize)
      ensures var goal := old(Run(cfg, Now(), Rest(pos)));
        if outcome.Keep? then
          && Valid() && pos < next <= readedSize && !View().GettingPayload?
          && Run(cfg, Now(), Rest(next)) == goal
        else log == goal.log && currentCommand == goal.command && outcome == OutcomeOf(goal.state)
    {
      if state == WAITING_FOR_COMMAND {
        RunFirstByte(cfg, Now(), Rest(pos));
        if readedData[pos] == BANG || IsAlnum(readedData[pos]) {
          state := GETTING_COMMAND;
          assert commandData[..0] == [];
        } else {
          SendError(ProtocolError, BAD_START);
          return pos, Close;
        }
      }
      next, outcome := TakeLine(cfg, pos);
    }

    /** A block header under way, or just begun. */
    ghost predicate InHeader()
      reads this, binaryHeader
    {
      && Shape() && state == GETTING_BINARY_DATA && binaryBlock == null && commandDataPos == 0
      && (binaryHeaderSize > 0 ==> binaryHeader[0] == 0)
    }

    ghost function Header(): bytes
      requires binaryHeaderSize <= binaryHeader.Length
      reads this, binaryHeader
    {
      binaryHeader[..binaryHeaderSize]
    }

    /** The lead byte of a block. */
    method BeginBlock(pos: nat) returns (ok: bool)
      requires Valid() && pos < readedSize && state == EXPECTING_BINARY_DATA
      modifies this`state, this`binaryHeaderSize, this`log, binaryHeader
      ensures ok <==> readedData[pos] == 0
      ensures if ok then InHeader() && binaryHeaderSize == 0 && log == old(log)
              else Shape() && log == old(log) + [ErrorSent(ProtocolError, BAD_LEAD)]
    {
      state := GETTING_BINARY_DATA;
      binaryHeaderSize := 0;
      forall i | 0 <= i < HEADER_SIZE {
        binaryHeader[i] := 0;
      }
      if readedData[pos] != 0 {
        SendError(ProtocolError, BAD_LEAD);
        return false;
      }
      return true;
    }

    /** Header bytes from the read, at most five in all. */
    method CopyHeader(pos: nat, ghost m: Machine) returns (next: nat)
      requires InHeader() && pos < readedSize && binaryHeaderSize < HEADER_SIZE
      requires m.command == currentCommand && m.log == log
      requires binaryHeaderSize == 0 ==> readedData[pos] == 0
      modifies this`binaryHeaderSize, binaryHeader
      ensures InHeader() && pos < next <= readedSize && 0 < binaryHeaderSize
      ensures binaryHeaderSize < HEADER_SIZE ==>
        next == readedSize && Valid() && Now() == WithHeader(m, Header(), expectedBlockSize, shallowBinaryBlock)
      ensures Header() == old(Header()) + readedData[pos..next]
    {
      ghost var header := Header();
      next := pos;
      while next < readedSize && binaryHeaderSize < HEADER_SIZE
        invariant pos <= next <= readedSize && |header| <= binaryHeaderSize <= HEADER_SIZE
        invariant binaryHeaderSize - |header| == next - pos
        invariant Header() == header + readedData[pos..next]
      {
        binaryHeader[binaryHeaderSize] := readedData[next];
        next := next + 1;
        binaryHeaderSize := binaryHeaderSize + 1;
      }
      assert Header()[0] == binaryHeader[0];
    }

    /** With the header complete: the declared size, the buffer, and the check against the
        expected size. */
    method AllocateBlock(ghost m: Machine) returns (ok: bool)
      requires InHeader() && binaryHeaderSize == HEADER_SIZE
      requires m.command == currentCommand && m.log == log
      modifies this`binaryBlockDefinedSize, this`binaryBlock, this`binaryBlockSize, this`log
      ensures Shape() && binaryBlock != null && fresh(binaryBlock) && binaryBlockSize == 0
      ensures var after := WithHeader(m, Header(), expectedBlockSize, shallowBinaryBlock);
              if ok then Now() == after && Valid()
              else after.state.Closed? && log == after.log && currentCommand == after.command
    {
      assert Header()[1..] == binaryHeader[1..];
      binaryBlockDefinedSize := NetworkOrder(binaryHeader[1..]);
      binaryBlock := new byte[binaryBlockDefinedSize];
      binaryBlockSize := 0;
      if !(binaryBlockDefinedSize == expectedBlockSize || expectedBlockSize == 0) {
        SendError(ProtocolError, BAD_SIZE);
        return false;
      }
      assert binaryBlock[..0] == [];
      return true;
    }

    /** The bytes of a header, and with the fifth the allocation of the block and the check of its
        size. */
    method StoreHeader(pos: nat, ghost m: Machine) returns (next: nat, refused: bool)
      requires InHeader() && pos < readedSize && binaryHeaderSize < HEADER_SIZE
      requires binaryHeaderSize == 0 ==> readedData[pos] == 0
      requires m.command == currentCommand && m.log == log
      modifies this, binaryHeader
      ensures Shape() && fresh(Footprint() - old(Footprint()))
      ensures socketFd == old(socketFd) && readedSize == old(readedSize) && pos < next <= readedSize
      ensures var header := old(Header()) + readedData[pos..next];
        && |header| <= HEADER_SIZE
        && var after := WithHeader(m, header, old(expectedBlockSize), old(shallowBinaryBlock));
        && log == after.log && currentCommand == after.command && (refused <==> after.state.Closed?)
        && (!refused ==> Valid() && Now() == after && state == GETTING_BINARY_DATA)
        && (!refused && |header| < HEADER_SIZE ==> next == readedSize)
    {
      next := CopyHeader(pos, m);
      refused := false;
      if binaryHeaderSize == HEADER_SIZE {
        var ok := AllocateBlock(m);
        refused := !ok;
      }
    }

    /** A block header: the check of its lead byte, then its bytes. */
    method TakeHeader(cfg: Config, pos: nat) returns (next: nat, refused: bool)
      requires Valid() && pos < readedSize && binaryBlock == null
      requires state == EXPECTING_BINARY_DATA || state == GETTING_BINARY_DATA
      modifies this, binaryHeader
      ensures Shape() && fresh(Footprint() - old(Footprint()))
      ensures socketFd == old(socketFd) && readedSize == old(readedSize)
      ensures var goal := old(Run(cfg, Now(), Rest(pos)));
        if refused then goal.state.Closed? && log == goal.log && currentCommand == goal.command
        else
          && Valid() && pos < next <= readedSize && state == GETTING_BINARY_DATA
          && !Overruns(View(), Rest(next))
          && Run(cfg, Now(), Rest(next)) == goal
    {
      ghost var m, rest := Now(), Rest(pos);
      if state == EXPECTING_BINARY_DATA {
        var ok := BeginBlock(pos);
        if !ok {
          RunBadLead(cfg, m, rest);
          return pos, true;
        }
      }
      assert Header() == HeaderSoFar(m.state);
      next, refused := StoreHeader(pos, m);
      RestSplits(pos, next);
      RunHeaderBytes(cfg, m, readedData[pos..next], Rest(next));
    }

    /** `process_binary_block`: only bCORE_WRITE takes a block. */
    method ProcessBinaryBlock()
      requires Shape() && state == GETTING_BINARY_DATA && binaryBlock != null
      requires binaryBlockSize == binaryBlockDefinedSize == binaryBlock.Length
      modifies this
      ensures Shape() && Footprint() <= old(Footprint())
      ensures socketFd == old(socketFd) && readedSize == old(readedSize) && commandDataPos == old(commandDataPos)
      ensures shallowBinaryBlock == old(shallowBinaryBlock) && currentCommand == old(currentCommand)
      ensures if currentCommand == BCORE_WRITE
        then state == WAITING_FOR_COMMAND && binaryBlock == null && log == old(log) + [Written(old(binaryBlock[..]))]
        else unchanged(this)
    {
      if currentCommand == BCORE_WRITE {
        log := log + [Written(binaryBlock[..binaryBlockSize])];
        assert binaryBlock[..binaryBlockSize] == binaryBlock[..];
        binaryBlock := null;
        binaryBlockSize, binaryHeaderSize, expectedBlockSize := 0, 0, 0;
        state := WAITING_FOR_COMMAND;
      }
    }

    /** A block that has just become full. */
    method FinishBlock()
      requires Shape() && state == GETTING_BINARY_DATA && binaryBlock != null && commandDataPos == 0
      requires binaryBlockSize == binaryBlockDefinedSize == binaryBlock.Length && binaryHeaderSize == HEADER_SIZE
      requires expectedBlockSize == 0 || expectedBlockSize == binaryBlockDefinedSize
      modifies this
      ensures Valid() && Footprint() <= old(Footprint())
      ensures socketFd == old(socketFd) && readedSize == old(readedSize)
      ensures Now() == old(CompleteBlock(Now(), binaryBlock[..binaryBlockSize], shallowBinaryBlock))
      ensures state != WAITING_FOR_COMMAND ==>
        && Now() == old(Now()) && binaryBlock == old(binaryBlock)
        && !old(shallowBinaryBlock) && currentCommand != BCORE_WRITE
    {
      assert binaryBlock[..binaryBlockSize] == binaryBlock[..];
      if !shallowBinaryBlock {
        ProcessBinaryBlock();
      } else {
        binaryBlock := null;
        binaryBlockSize, binaryBlockDefinedSize := 0, 0;
        state := WAITING_FOR_COMMAND;
      }
      shallowBinaryBlock := false;
    }

    /** The copy into a block that has room for it. */
    method StorePayload(pos: nat, copySize: nat)
      requires Valid() && state == GETTING_BINARY_DATA && binaryBlock != null
      requires pos + copySize <= readedSize && binaryBlockSize + copySize <= binaryBlockDefinedSize
      modifies this`binaryBlockSize, binaryBlock
      ensures Shape() && binaryBlockSize == old(binaryBlockSize) + copySize
      ensures var payload := old(binaryBlock[..binaryBlockSize]) + readedData[pos..pos + copySize];
              View() == GettingPayload(binaryBlockDefinedSize, payload, shallowBinaryBlock)
    {
      ghost var stored := binaryBlock[..binaryBlockSize];
      forall i | 0 <= i < copySize {
        binaryBlock[binaryBlockSize + i] := readedData[pos + i];
      }
      assert binaryBlock[..binaryBlockSize] == stored;
      binaryBlockSize := binaryBlockSize + copySize;
      assert binaryBlock[..binaryBlockSize] == stored + readedData[pos..pos + copySize];
    }

    /** Payload bytes. The copy is bounded by the whole block, not by what is left of it. */
    method StoreBlock(pos: nat) returns (next: nat, fault: Option<Fault>)
      requires Valid() && pos < readedSize && state == GETTING_BINARY_DATA && binaryBlock != null
      modifies this, binaryBlock
      ensures Shape() && Footprint() <= old(Footprint())
      ensures socketFd == old(socketFd) && readedSize == old(readedSize) && pos <= next <= readedSize
      ensures fault.Some? ==> log == old(log) && currentCommand == old(currentCommand)
      ensures var s := old(View());
        match fault
        case Some(CopyPastBlock) => Overruns(s, Rest(pos))
        case Some(BlockNeverReleased) => BlockIsFull(s) && s.size > 0
        case Some(EndlessLoop) => BlockIsFull(s) && s.size == 0 && BlockIsFull(Settle(old(Now())).state)
        case Some(_) => false
        case None =>
          && !Overruns(s, Rest(pos))
          && Valid() && |s.payload| + next - pos <= s.size
          && (next == pos ==> s.size == 0 && state == WAITING_FOR_COMMAND)
          && var p := s.payload + readedData[pos..next];
          && Now() == (if |p| < s.size then old(Now()).(state := GettingPayload(s.size, p, s.swallow))
                       else CompleteBlock(old(Now()), p, s.swallow))
          && (|p| < s.size ==> next == readedSize)
    {
      var copySize := if readedSize - pos < binaryBlockDefinedSize then readedSize - pos else binaryBlockDefinedSize;
      if binaryBlockSize + copySize > binaryBlockDefinedSize {
        // the copy would be behind the end of the block
        return pos, Some(if binaryBlockSize < binaryBlockDefinedSize then CopyPastBlock else BlockNeverReleased);
      }
      StorePayload(pos, copySize);
      next := pos + copySize;
      if binaryBlockSize == binaryBlockDefinedSize {
        FinishBlock();
        if copySize == 0 && state != WAITING_FOR_COMMAND {
          // nothing was consumed and nothing has changed: the loop would run for ever
          return next, Some(EndlessLoop);
        }
      }
      fault := None;
    }

    method TakePayload(cfg: Config, pos: nat) returns (next: nat, fault: Option<Fault>)
      requires Valid() && pos < readedSize && state == GETTING_BINARY_DATA && binaryBlock != null
      modifies this, binaryBlock
      ensures Shape() && Footprint() <= old(Footprint())
      ensures socketFd == old(socketFd) && readedSize == old(readedSize)
      ensures fault.Some? ==> log == old(log) && currentCommand == old(currentCommand)
                              && old(TakeRead(cfg, Now(), Rest(pos))) == Break(old(Now()), fault.value)
      ensures fault.None? ==>
        && Valid() && pos <= next <= readedSize && (next == pos ==> state == WAITING_FOR_COMMAND)
        && !old(Overruns(View(), Rest(pos))) && !Overruns(View(), Rest(next))
        && Run(cfg, Now(), Rest(next)) == old(Run(cfg, Now(), Rest(pos)))
    {
      ghost var m, rest := Now(), Rest(pos);
      next, fault := StoreBlock(pos);
      if fault.None? {
        RestSplits(pos, next);
        RunPayloadBytes(cfg, m, readedData[pos..next], Rest(next));
      } else if fault != Some(CopyPastBlock) {
        RunBehindFullBlock(cfg, m, rest);
      }
    }

    /** One turn of the loop of `preprocess_data`. */
    method Turn(cfg: Config, pos: nat) returns (next: nat, outcome: Outcome)
      requires Valid() && pos < readedSize
      modifies Footprint()
      ensures Shape() && fresh(Footprint() - old(Footprint()))
      ensures socketFd == old(socketFd) && readedSize == old(readedSize)
      ensures var goal := old(TakeRead(cfg, Now(), Rest(pos)));
        if outcome.Keep? then
          && Valid() && pos <= next <= readedSize
          && (next == pos ==> state == WAITING_FOR_COMMAND && old(state) == GETTING_BINARY_DATA)
          && !old(Overruns(View(), Rest(pos))) && !Overruns(View(), Rest(next))
          && Run(cfg, Now(), Rest(next)) == goal
        else log == goal.log && currentCommand == goal.command && outcome == OutcomeOf(goal.state)
    {
      if state == WAITING_FOR_COMMAND || state == GETTING_COMMAND {
        next, outcome := TakeCommandBytes(cfg, pos);
        return;
      }
      next, outcome := pos, Keep;
      if binaryBlock == null {
        var refused;
        next, refused := TakeHeader(cfg, pos);
        if refused {
          return next, Close;
        }
      }
      if binaryHeaderSize == HEADER_SIZE && next < readedSize {
        var fault;
        next, fault := TakePayload(cfg, next);
        if fault.Some? {
          outcome := Undefined(fault.value);
        }
      }
    }

    /** `preprocess_data` on the read in the read buffer. */
    method PreprocessData(cfg: Config) returns (outcome: Outcome)
      requires Valid() && 0 < readedSize
      modifies Footprint()
      ensures Shape() && fresh(Footprint() - old(Footprint()))
      ensures socketFd == old(socketFd)
      ensures var after := TakeRead(cfg, old(Now()), old(readedData[..readedSize]));
        && log == after.log && currentCommand == after.command && outcome == OutcomeOf(after.state)
        && (outcome.Keep? ==> Valid() && Now() == after)
    {
      ghost var goal := TakeRead(cfg, Now(), readedData[..readedSize]);
      assert Rest(0) == readedData[..readedSize];
      var readPos := 0;
      while readPos == 0 || readPos < readedSize
        invariant Valid() && fresh(Footprint() - old(Footprint()))
        invariant readPos <= readedSize && readedSize == old(readedSize) && socketFd == old(socketFd)
        invariant TakeRead(cfg, Now(), Rest(readPos)) == goal
        decreases readedSize - readPos, if state == GETTING_BINARY_DATA then 1 else 0
      {
        readPos, outcome := Turn(cfg, readPos);
        if !outcome.Keep? {
          return;
        }
      }
      return Keep;
    }

    /** `read_client_data` behind the look-up: what `read` delivered (None: an error) is put into
        the read buffer and parsed. */
    method ReadClientData(cfg: Config, data: Option<bytes>) returns (outcome: Outcome)
      requires Valid() && (data.Some? ==> |data.value| <= 2048)
      modifies Objects()
      ensures Shape() && fresh(Objects() - old(Objects())) && socketFd == old(socketFd)
      ensures if data.None? || data.value == [] then
          outcome.Close? && log == old(log) && currentCommand == old(currentCommand)
        else
          && var after := TakeRead(cfg, old(Now()), data.value);
          && log == after.log && currentCommand == after.command && outcome == OutcomeOf(after.state)
          && (outcome.Keep? ==> Valid() && Now() == after)
    {
      if data.None? || data.value == [] {
        return Close;
      }
      ghost var m := Now();
      readedSize := |data.value|;
      forall i | 0 <= i < readedSize {
        readedData[i] := data.value[i];
      }
      assert readedData[..readedSize] == data.value;
      assert Valid() && Now() == m;
      outcome := PreprocessData(cfg);
    }
  }

  lemma RunBadLead(cfg: Config, m: Machine, s: bytes)
    requires m.state.ExpectingBinaryData? && s != [] && s[0] != 0
    ensures Run(cfg, m, s) == Reject(m, BAD_LEAD)
  {
    DeadIsFinal(cfg, Reject(m, BAD_LEAD), s[1..]);
  }

  lemma RunHeaderBytes(cfg: Config, m: Machine, part: bytes, rest: bytes)
    requires m.state.ExpectingBinaryData? || (m.state.GettingHeader? && m.state.header != [])
    requires part != [] && |HeaderSoFar(m.state)| + |part| <= HEADER_SIZE
    requires m.state.ExpectingBinaryData? ==> part[0] == 0
    ensures var after := WithHeader(m, HeaderSoFar(m.state) + part, m.state.expected, m.state.swallow);
            && Run(cfg, m, part + rest) == Run(cfg, after, rest)
            && (!after.Alive() ==> Run(cfg, m, part + rest) == after)
  {
    var after := WithHeader(m, HeaderSoFar(m.state) + part, m.state.expected, m.state.swallow);
    RunHeaderPart(cfg, m, part);
    RunAppend(cfg, m, part, rest);
    if !after.Alive() {
      DeadIsFinal(cfg, after, rest);
    }
  }

  lemma RunPayloadBytes(cfg: Config, m: Machine, part: bytes, rest: bytes)
    requires m.state.GettingPayload? && |m.state.payload| + |part| <= m.state.size
    requires part == [] ==> m.state.size == 0 && rest != []
    ensures var p := m.state.payload + part;
            Run(cfg, m, part + rest) ==
            Run(cfg, if |p| < m.state.size then m.(state := GettingPayload(m.state.size, p, m.state.swallow))
                     else CompleteBlock(m, p, m.state.swallow), rest)
  {
    if part == [] {
      assert part + rest == rest && m.state.payload + part == [];
      SettleIsInvisible(cfg, m, rest);
    } else {
      RunPayload(cfg, m, part);
      RunAppend(cfg, m, part, rest);
    }
  }

  /** Bytes behind a full block that stays where it is. */
  lemma RunBehindFullBlock(cfg: Config, m: Machine, s: bytes)
    requires BlockIsFull(m.state) && BlockIsFull(Settle(m).state) && s != []
    ensures Run(cfg, m, s) == Break(Settle(m), if m.state.size == 0 then EndlessLoop else BlockNeverReleased)
  {
    DeadIsFinal(cfg, Step(cfg, m, s[0]), s[1..]);
  }

  lemma RunFirstByte(cfg: Config, m: Machine, s: bytes)
    requires m.state.WaitingForCommand? && s != []
    ensures Run(cfg, m, s) ==
            if IsCommandStart(s[0]) then Run(cfg, m.(state := GettingCommand([])), s) else Reject(m, BAD_START)
  {
    if !IsCommandStart(s[0]) {
      DeadIsFinal(cfg, Reject(m, BAD_START), s[1..]);
    }
  }

  lemma RunCommandByte(cfg: Config, m: Machine, s: bytes)
    requires m.state.GettingCommand? && s != []
    ensures var after := AddToLine(cfg, m, m.state.line, s[0]);
            && Run(cfg, m, s) == Run(cfg, after, s[1..])
            && (!after.Alive() ==> Run(cfg, m, s) == after)
  {
    var after := AddToLine(cfg, m, m.state.line, s[0]);
    if !after.Alive() {
      DeadIsFinal(cfg, after, s[1..]);
    }
  }

  // ---- the searches of execute_command ----

  /** The standard command table. */
  method SearchStandard(names: seq<string>, cmd: bytes) returns (r: Option<nat>)
    ensures r == FindName(names, cmd, 0)
  {
    var i := 0;
    while i < |names|
      invariant i <= |names| && FindName(names, cmd, i) == FindName(names, cmd, 0)
    {
      if cmd == Ascii(names[i]) {
        return Some(i + 1);
      }
      i := i + 1;
    }
    return None;
  }

  /** The custom command table. */
  method SearchCustom(cfg: Config, cmd: bytes) returns (r: Option<nat>)
    ensures r == FindCustom(cfg.customNames, cmd, 0)
  {
    var i := 0;
    while i < |cfg.customNames|
      invariant i <= |cfg.customNames|
      invariant FindCustom(cfg.customNames, cmd, i) == FindCustom(cfg.customNames, cmd, 0)
    {
      if cfg.customNames[i] <= cmd {
        return Some(i);
      }
      i := i + 1;
    }
    return None;
  }

  // ---- the loops of process_command, which only read the command block ----

  predicate IsLine(line: bytes) {
    line != [] && line[|line| - 1] == NEWLINE && NEWLINE !in line[..|line| - 1]
  }

  /** First loop: up to the first space or newline. */
  method ScanName(line: bytes) returns (cmd: bytes, cmdHasArg: bool)
    requires IsLine(line)
    ensures cmd == line[..NameEnd(line)]
    ensures cmdHasArg <==> HasArguments(line)
  {
    cmd, cmdHasArg := [], true;
    NameEndsBeforeNewline(line);
    NameEndStops(line);
    var i := 0;
    while i < |line|
      invariant i <= NameEnd(line) && cmd == line[..i]
    {
      if line[i] == SPACE || line[i] == NEWLINE {
        cmdHasArg := line[i] != NEWLINE;
        return;
      }
      cmd := cmd + [line[i]];
      i := i + 1;
    }
  }

  /** Second loop: skip the spaces before the first argument. */
  method SkipSpaces(line: bytes, start: nat) returns (i: nat)
    requires IsLine(line) && start < |line|
    ensures start <= i < |line|
    ensures var body := line[..|line| - 1]; body[i..] == DropSpaces(body[start..])
  {
    ghost var body := line[..|line| - 1];
    i := start;
    while line[i] == SPACE
      invariant start <= i < |line|
      invariant DropSpaces(body[i..]) == DropSpaces(body[start..])
      decreases |line| - i
    {
      CutByte(body, i);
      i := i + 1;
    }
    if i < |body| {
      CutByte(body, i);
    }
  }

  /** Third loop: cut at `;` up to the newline. The result is what the argument buffers hold;
      `overflow` says that a 21st buffer would be needed. */
  method CutArguments(line: bytes, start: nat) returns (args: seq<bytes>, overflow: bool)
    requires IsLine(line) && start < |line| <= LINE_CAPACITY
    ensures var parts := Split(line[..|line| - 1][start..], SEMICOLON);
            if overflow then |parts| > MAX_ARGUMENTS else args == parts && |parts| <= MAX_ARGUMENTS
  {
    ghost var body := line[..|line| - 1];
    ghost var parts := Split(body[start..], SEMICOLON);
    var i, last := start, 0;
    args, overflow := [[]], false;
    GlueStart(body[start..]);
    while line[i] != NEWLINE
      invariant start <= i < |line|
      invariant last == |args| - 1 < MAX_ARGUMENTS
      invariant |args[last]| <= i - start
      invariant Glue(args, body[i..]) == parts
      decreases |line| - i
    {
      CutByte(body, i);
      if line[i] == SEMICOLON {
        GlueSeparator(args, body[i..]);
        if last + 1 == MAX_ARGUMENTS {
          overflow := true;
          return;
        }
        args, last := args + [[]], last + 1;
      } else {
        GlueByte(args, last, body[i..]);
        assert |args[last]| < ARGUMENT_CAPACITY - 1;
        args := args[last := args[last] + [line[i]]];
      }
      i := i + 1;
    }
    assert body[i..] == [];
    GlueEnd(args);
  }

  /** All three loops. */
  method ParseLine(line: bytes) returns (cmd: bytes, args: seq<bytes>, overflow: bool)
    requires IsLine(line) && |line| <= LINE_CAPACITY
    ensures cmd == Name(line)
    ensures if overflow then |RawArguments(line)| > MAX_ARGUMENTS
            else args == RawArguments(line) && |args| <= MAX_ARGUMENTS
  {
    var block, cmdHasArg := ScanName(line);
    cmd, args, overflow := CString(block), [], false;
    NameEndsBeforeNewline(line);
    CStringIsPrefix(block);
    if cmdHasArg {
      var i := SkipSpaces(line, |cmd|);
      args, overflow := CutArguments(line, i);
    }
  }

  /** The parts cut so far, the last of them still open, continued by the rest of the text. */
  ghost function Glue(done: seq<bytes>, rest: bytes): (r: seq<bytes>)
    requires done != []
    ensures |r| >= |done|
  {
    if |done| == 1 then [done[0] + Split(rest, SEMICOLON)[0]] + Split(rest, SEMICOLON)[1..]
    else [done[0]] + Glue(done[1..], rest)
  }

  lemma GlueStart(text: bytes)
    ensures Glue([[]], text) == Split(text, SEMICOLON)
  {
    assert [] + Split(text, SEMICOLON)[0] == Split(text, SEMICOLON)[0];
  }

  lemma {:induction false} GlueEnd(args: seq<bytes>)
    requires args != []
    ensures Glue(args, []) == args
  {
    if |args| == 1 {
      assert args[0] + [] == args[0];
    } else {
      GlueEnd(args[1..]);
    }
  }

  lemma {:induction false} GlueSeparator(args: seq<bytes>, rest: bytes)
    requires args != [] && rest != [] && rest[0] == SEMICOLON
    ensures Glue(args + [[]], rest[1..]) == Glue(args, rest)
    ensures |Glue(args, rest)| > |args|
  {
    assert (args + [[]])[0] == args[0] && (args + [[]])[1..] == args[1..] + [[]];
    if |args| == 1 {
      GlueStart(rest[1..]);
      assert args[0] + [] == args[0];
    } else {
      GlueSeparator(args[1..], rest);
    }
  }

  lemma {:induction false} GlueByte(args: seq<bytes>, last: nat, rest: bytes)
    requires last == |args| - 1 && rest != [] && rest[0] != SEMICOLON
    ensures Glue(args[last := args[last] + [rest[0]]], rest[1..]) == Glue(args, rest)
  {
    var longer := args[last := args[last] + [rest[0]]];
    if last == 0 {
      var tail := Split(rest[1..], SEMICOLON);
      assert args[0] + [rest[0]] + tail[0] == args[0] + ([rest[0]] + tail[0]);
    } else {
      assert longer[1..] == args[1..][last - 1 := args[last] + [rest[0]]];
      GlueByte(args[1..], last - 1, rest);
    }
  }

  lemma CutByte(body: bytes, i: nat)
    requires i < |body|
    ensures body[i..] != [] && body[i..][0] == body[i] && body[i..][1..] == body[i + 1..]
  {
  }
}
