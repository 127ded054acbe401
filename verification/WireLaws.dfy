/** What the server does with one command and its block, said in the bytes of the wire and in the number
    that the handler returns, apart from the functions the parser is made of. */
module WireLaws {
  import opened Bytes
  import opened Protocol
  import opened CommandTable
  import opened Tokeniser
  import opened Automaton
  import opened Conversation
  import opened Faults
  import opened Requests

  // ---- the wire ----

  /** Name, a space and the arguments with semicolons between them, and a newline. */
  function WireLine(name: bytes, args: seq<bytes>): (line: bytes)
    ensures line != []
  {
    name + (if args == [] then [] else [32] + Join(args, 59)) + [10]
  }

  /** Zero, the length in four bytes with the highest first, and the data. */
  function WireBlock(data: bytes): bytes
    requires |data| < 0x1_0000_0000
  {
    [0, |data| / 16777216 % 256, |data| / 65536 % 256, |data| / 256 % 256, |data| % 256] + data
  }

  /** A command that can be told apart on the wire and stays inside the server's buffers. */
  predicate Sendable(name: bytes, args: seq<bytes>) {
    && name != [] && 32 !in name && 10 !in name && 0 !in name
    && (name[0] == 33 || 48 <= name[0] <= 57 || 65 <= name[0] <= 90 || 97 <= name[0] <= 122)
    && |args| <= 20
    && (forall i :: 0 <= i < |args| ==> 59 !in args[i] && 10 !in args[i] && 0 !in args[i])
    && (args != [] ==> args[0] == [] || args[0][0] != 32)
    && |WireLine(name, args)| <= 2048
  }

  /** Command c has a handler and is what this name selects. */
  predicate Handles(cfg: Config, name: bytes, c: nat) {
    Lookup(cfg, name) == Some(c) && (c >= 128 || c in cfg.implemented)
  }

  lemma WireLineIsPrinted(name: bytes, args: seq<bytes>)
    ensures WireLine(name, args) == PrintLine(name, if args == [] then None else Some(Join(args, SEMICOLON)))
  {
  }

  lemma WireBlockIsEncoded(data: bytes)
    requires |data| < 0x1_0000_0000
    ensures WireBlock(data) == EncodeBlock(data)
  {
  }

  /** Any sendable line from a waiting machine. */
  lemma LineIsExecuted(cfg: Config, m: Machine, name: bytes, args: seq<bytes>)
    requires m.state == WaitingForCommand && Sendable(name, args)
    ensures Run(cfg, m, WireLine(name, args))
            == AfterExecution(m, WireLine(name, args), Execute(cfg, name, args))
    ensures WireLine(name, args)[0] == name[0]
  {
    var line := name + (if args == [] then [] else [SPACE] + Join(args, SEMICOLON));
    WireLineIsPrinted(name, args);
    TokeniserInvertsPrinter(name, args);
    JoinedIsNewlineFree(args);
    assert line[0] == name[0];
    assert WireLine(name, args) == line + [NEWLINE];
    RunLine(cfg, m, line);
  }

  // ---- a command without a block ----

  /** A name that does not start with `b`: its handler is called once with its arguments, and whatever
      number it returns, the server waits for the next command. */
  lemma PlainCommandIsCalled(cfg: Config, m: Machine, name: bytes, args: seq<bytes>, c: nat)
    requires m.state == WaitingForCommand && Sendable(name, args) && name[0] != 98 && Handles(cfg, name, c)
    ensures Run(cfg, m, WireLine(name, args)) == Machine(WaitingForCommand, c, m.log + [Called(c, args)])
  {
    LineIsExecuted(cfg, m, name, args);
  }

  /** A name that no table knows, or a command without a handler, is answered with an error. */
  lemma PlainCommandIsRefused(cfg: Config, m: Machine, name: bytes, args: seq<bytes>)
    requires m.state == WaitingForCommand && Sendable(name, args) && name[0] != 98
    requires Lookup(cfg, name).Some? ==> Lookup(cfg, name).value < 128 && Lookup(cfg, name).value !in cfg.implemented
    ensures Run(cfg, m, WireLine(name, args))
            == Machine(WaitingForCommand, Lookup(cfg, name).GetOr(m.command),
                       m.log + [ErrorSent(InvalidCommand, if Lookup(cfg, name).None? then "Invalid command"
                                                          else "Invalid command or not implemented")])
  {
    LineIsExecuted(cfg, m, name, args);
  }

  // ---- a command with a block ----

  lemma LowBitsOf(size: int, n: nat, q: nat)
    requires n < 0x1_0000_0000 && size == n + q * 0x1_0000_0000
    ensures size % 0x1_0000_0000 == n
  {
  }

  /** The state behind the line: a handler that returns n makes the server wait for n bytes, and one that
      returns -n as well, but to be swallowed. */
  lemma BlockIsAwaited(cfg: Config, m: Machine, name: bytes, args: seq<bytes>, c: nat, n: nat, q: nat, swallow: bool)
    requires m.state == WaitingForCommand && Sendable(name, args) && name[0] == 98 && Handles(cfg, name, c)
    requires n < 0x1_0000_0000
    requires var size := cfg.handler(c, args) as int; (if swallow then -size else size) == n + q * 0x1_0000_0000
    requires swallow ==> cfg.handler(c, args) < 0
    ensures Run(cfg, m, WireLine(name, args))
            == Machine(ExpectingBinaryData(n, swallow), c, m.log + [Called(c, args)])
  {
    LineIsExecuted(cfg, m, name, args);
    LowBitsOf(n + q * 0x1_0000_0000, n, q);
  }

  lemma BlockIsRead(cfg: Config, m: Machine, data: bytes)
    requires m.state.ExpectingBinaryData? && |data| < 0x1_0000_0000
    ensures if m.state.expected == 0 || m.state.expected == |data|
      then Settle(Run(cfg, m, WireBlock(data))) == CompleteBlock(m, data, m.state.swallow)
      else Run(cfg, m, WireBlock(data)) == Reject(m, BAD_SIZE)
  {
    WireBlockIsEncoded(data);
    if m.state.expected == 0 || m.state.expected == |data| {
      RunBlock(cfg, m, data);
    } else {
      var s := EncodeBlock(data);
      assert s[1..HEADER_SIZE] == BigEndian(|data|);
      SizeFieldRoundTrip(|data|, s[1..HEADER_SIZE]);
      SearchHeader(cfg, m, s);
    }
  }

  /** The handler returns -n, for an n that is not zero in 32 bits: a block of exactly n bytes is swallowed,
      and the server waits. */
  lemma RefusedBlockIsSwallowed(cfg: Config, m: Machine, name: bytes, args: seq<bytes>, c: nat, n: nat, q: nat,
                                data: bytes)
    requires m.state == WaitingForCommand && Sendable(name, args) && name[0] == 98 && Handles(cfg, name, c)
    requires 0 < n < 0x1_0000_0000 && cfg.handler(c, args) as int == -(n + q * 0x1_0000_0000)
    requires |data| == n
    ensures Settle(Run(cfg, m, WireLine(name, args) + WireBlock(data)))
            == Machine(WaitingForCommand, c, m.log + [Called(c, args)])
  {
    BlockIsAwaited(cfg, m, name, args, c, n, q, true);
    RunAppend(cfg, m, WireLine(name, args), WireBlock(data));
    BlockIsRead(cfg, Run(cfg, m, WireLine(name, args)), data);
  }

  /** The handler of bCORE_WRITE returns n: a block of exactly n bytes is written, once; when n is zero, a
      block of any length. */
  lemma AcceptedBlockIsWritten(cfg: Config, m: Machine, name: bytes, args: seq<bytes>, n: nat, q: nat, data: bytes)
    requires m.state == WaitingForCommand && Sendable(name, args) && name[0] == 98 && Handles(cfg, name, 17)
    requires n < 0x1_0000_0000 && cfg.handler(17, args) as int == n + q * 0x1_0000_0000
    requires |data| < 0x1_0000_0000 && (n == 0 || |data| == n)
    ensures Settle(Run(cfg, m, WireLine(name, args) + WireBlock(data)))
            == Machine(WaitingForCommand, 17, m.log + [Called(17, args), Written(data)])
  {
    BlockIsAwaited(cfg, m, name, args, 17, n, q, false);
    RunAppend(cfg, m, WireLine(name, args), WireBlock(data));
    BlockIsRead(cfg, Run(cfg, m, WireLine(name, args)), data);
    assert m.log + [Called(17, args)] + [Written(data)] == m.log + [Called(17, args), Written(data)];
  }

  /** A block of any other length than n closes the connection, whether the handler returned n or -n. */
  lemma OtherSizeIsRefused(cfg: Config, m: Machine, name: bytes, args: seq<bytes>, c: nat, n: nat, q: nat, data: bytes)
    requires m.state == WaitingForCommand && Sendable(name, args) && name[0] == 98 && Handles(cfg, name, c)
    requires 0 < n < 0x1_0000_0000
    requires var size := cfg.handler(c, args) as int;
             size == n + q * 0x1_0000_0000 || -size == n + q * 0x1_0000_0000
    requires |data| < 0x1_0000_0000 && |data| != n
    ensures Run(cfg, m, WireLine(name, args) + WireBlock(data))
            == Machine(Closed, c, m.log + [
                 Called(c, args), ErrorSent(ProtocolError, "Binary block size does " + "not match expected size")])
  {
    BlockIsAwaited(cfg, m, name, args, c, n, q, cfg.handler(c, args) < 0);
    RunAppend(cfg, m, WireLine(name, args), WireBlock(data));
    BlockIsRead(cfg, Run(cfg, m, WireLine(name, args)), data);
    assert m.log + [Called(c, args)] + [ErrorSent(ProtocolError, BAD_SIZE)]
           == m.log + [Called(c, args), ErrorSent(ProtocolError, BAD_SIZE)];
  }

  /** A standard `b` command without a handler: one error, and a block of exactly one byte is swallowed; any
      other length closes the connection. */
  lemma UnimplementedSwallowsOneByte(cfg: Config, m: Machine, name: bytes, args: seq<bytes>, c: nat, data: bytes)
    requires m.state == WaitingForCommand && Sendable(name, args) && name[0] == 98
    requires Lookup(cfg, name) == Some(c) && c < 128 && c !in cfg.implemented && |data| < 0x1_0000_0000
    ensures var after := Settle(Run(cfg, m, WireLine(name, args) + WireBlock(data)));
            var answer := ErrorSent(InvalidCommand, "Invalid command or not implemented");
      after == if |data| == 1 then Machine(WaitingForCommand, c, m.log + [answer])
               else Machine(Closed, c, m.log + [
                 answer, ErrorSent(ProtocolError, "Binary block size does " + "not match expected size")])
  {
    LineIsExecuted(cfg, m, name, args);
    RunAppend(cfg, m, WireLine(name, args), WireBlock(data));
    var n := Run(cfg, m, WireLine(name, args));
    assert n.state == ExpectingBinaryData(1, true);
    BlockIsRead(cfg, n, data);
    assert n.log + [ErrorSent(ProtocolError, BAD_SIZE)]
           == m.log + [ErrorSent(InvalidCommand, NOT_IMPLEMENTED), ErrorSent(ProtocolError, BAD_SIZE)];
  }

  /** Behind a `b` line anything but a zero byte closes the connection. */
  lemma BadLeadIsRefused(cfg: Config, m: Machine, name: bytes, args: seq<bytes>, c: nat, x: byte, more: bytes)
    requires m.state == WaitingForCommand && Sendable(name, args) && name[0] == 98 && Handles(cfg, name, c) && x != 0
    ensures Run(cfg, m, WireLine(name, args) + [x] + more)
            == Machine(Closed, c, m.log + [
                 Called(c, args), ErrorSent(ProtocolError, "Sending invalid binary data block")])
  {
    LineIsExecuted(cfg, m, name, args);
    ConcatIsAssociative(WireLine(name, args), [x], more);
    RunAppend(cfg, m, WireLine(name, args), [x] + more);
    var n := Run(cfg, m, WireLine(name, args));
    assert ([x] + more)[0] == x && ([x] + more)[1..] == more;
    DeadIsFinal(cfg, Reject(n, BAD_LEAD), more);
    assert n.log + [ErrorSent(ProtocolError, BAD_LEAD)]
           == m.log + [Called(c, args), ErrorSent(ProtocolError, BAD_LEAD)];
  }

  /** Between commands anything but `!`, a digit or a letter closes the connection. */
  lemma BadStartIsRefused(cfg: Config, m: Machine, x: byte, more: bytes)
    requires m.state == WaitingForCommand
    requires !(x == 33 || 48 <= x <= 57 || 65 <= x <= 90 || 97 <= x <= 122)
    ensures Run(cfg, m, [x] + more)
            == Machine(Closed, m.command, m.log + [
                 ErrorSent(ProtocolError, "Expecting a command or a signal registration")])
  {
    assert ([x] + more)[0] == x && ([x] + more)[1..] == more;
    DeadIsFinal(cfg, Reject(m, BAD_START), more);
  }

  // ---- bCORE_WRITE ----

  /** Such a command and its block are a request that the client may send. */
  lemma WriteIsAcceptable(cfg: Config, name: bytes, args: seq<bytes>, data: bytes)
    requires Sendable(name, args) && name[0] == 98 && Handles(cfg, name, 17) && |data| < 0x1_0000_0000
    requires cfg.handler(17, args) == |data| || cfg.handler(17, args) == -|data|
    ensures var r := Request(name, args, Some(data));
      Acceptable(cfg, r) && Print(cfg, r) == WireLine(name, args) + WireBlock(data)
  {
    WireLineIsPrinted(name, args);
    WireBlockIsEncoded(data);
    LowBitsOf(|data|, |data|, 0);
  }

  /** A server that knows bCORE_WRITE, and has no custom command in its place. */
  ghost predicate TakesWrites(cfg: Config) {
    17 in cfg.implemented && forall j :: 0 <= j < |cfg.customNames| ==> !(cfg.customNames[j] <= Ascii("bCORE_WRITE"))
  }

  lemma WriteIsHandled(cfg: Config)
    requires TakesWrites(cfg)
    ensures Handles(cfg, Ascii("bCORE_WRITE"), 17) && Ascii("bCORE_WRITE")[0] == 98
  {
    assert Lookup(cfg, Ascii("bCORE_WRITE")) == Some(17) by {
      assert COMMAND_NAMES[16] == "bCORE_WRITE";
      NameSelects(cfg, 16);
    }
    WriteName();
  }

  lemma WriteName()
    ensures Ascii("bCORE_WRITE")[0] == 98
  {
  }

  lemma FromStart(events: seq<Event>)
    ensures [] + events == events
  {
  }

  /** A write as a client sends it, when the handler asks for as many bytes as are sent: the request is
      acceptable, the handler is called, and the data are written. */
  lemma WriteIsServed(cfg: Config, command: nat, args: seq<bytes>, data: bytes)
    requires TakesWrites(cfg) && Sendable(Ascii("bCORE_WRITE"), args)
    requires cfg.handler(17, args) == |data| < 0x1_0000_0000
    ensures var r := Request(Ascii("bCORE_WRITE"), args, Some(data));
      && Acceptable(cfg, r)
      && Settle(Run(cfg, Fresh(command), Print(cfg, r)))
         == Machine(WaitingForCommand, 17, [Called(17, args), Written(data)])
  {
    var name := Ascii("bCORE_WRITE");
    WriteIsHandled(cfg);
    WriteIsAcceptable(cfg, name, args, data);
    AcceptedBlockIsWritten(cfg, Fresh(command), name, args, |data|, 0, data);
    FromStart([Called(17, args), Written(data)]);
  }

  /** When it refuses as many, they are swallowed. */
  lemma WriteIsSwallowed(cfg: Config, command: nat, args: seq<bytes>, data: bytes)
    requires TakesWrites(cfg) && Sendable(Ascii("bCORE_WRITE"), args)
    requires cfg.handler(17, args) == -|data| && 0 < |data| < 0x1_0000_0000
    ensures var r := Request(Ascii("bCORE_WRITE"), args, Some(data));
      && Acceptable(cfg, r)
      && Settle(Run(cfg, Fresh(command), Print(cfg, r))) == Machine(WaitingForCommand, 17, [Called(17, args)])
  {
    var name := Ascii("bCORE_WRITE");
    WriteIsHandled(cfg);
    WriteIsAcceptable(cfg, name, args, data);
    RefusedBlockIsSwallowed(cfg, Fresh(command), name, args, 17, |data|, 0, data);
    FromStart([Called(17, args)]);
  }
}
