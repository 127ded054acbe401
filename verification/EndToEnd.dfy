/** One memory read from end to end: the client prints CORE_READ, the server parses it and calls the
    handler of the dummy emulator, and the client decodes the reply. */
module EndToEnd {
  import opened Bytes
  import opened Protocol
  import opened CommandTable
  import opened Tokeniser
  import opened Automaton
  import opened Conversation
  import opened Requests
  import opened Reads
  import opened Numbers
  import opened MemoryArgument
  import opened Replies
  import opened ReplyPrinter

  /** The three memories of the dummy emulator. */
  datatype Memories = Memories(wram: bytes, sram: bytes, rom: bytes)

  lemma NamesDiffer()
    ensures Ascii("WRAM") != Ascii("SRAM") && Ascii("WRAM") != Ascii("CARTROM") && Ascii("SRAM") != Ascii("CARTROM")
  {
    assert Ascii("WRAM")[0] != Ascii("SRAM")[0] && |Ascii("CARTROM")| == 7;
  }

  function MemoryNamed(memories: Memories, name: bytes): (r: Option<bytes>)
    ensures name == Ascii("WRAM") ==> r == Some(memories.wram)
    ensures name == Ascii("SRAM") ==> r == Some(memories.sram)
    ensures name == Ascii("CARTROM") ==> r == Some(memories.rom)
  {
    NamesDiffer();
    if name == Ascii("CARTROM") then Some(memories.rom)
    else if name == Ascii("SRAM") then Some(memories.sram)
    else if name == Ascii("WRAM") then Some(memories.wram)
    else None
  }

  /** The handler reads three arguments, of a memory it knows, inside that memory. */
  predicate Readable(memories: Memories, args: seq<bytes>) {
    && |args| >= 3
    && MemoryNamed(memories, args[0]).Some?
    && GetOffset(args[1]) + GetSize(args[2]) <= |MemoryNamed(memories, args[0]).value|
  }

  /** The block with the range of this memory that the arguments name. */
  function ReadReply(memory: bytes, args: seq<bytes>): bytes
    requires |args| >= 3 && GetOffset(args[1]) + GetSize(args[2]) <= |memory|
  {
    var offset, size := GetOffset(args[1]), GetSize(args[2]);
    EncodeBlock(memory[offset..offset + size])
  }

  /** `dummy_core_memory_read`. */
  method CoreMemoryRead(socket: Socket, memories: Memories, args: seq<bytes>)
    requires Readable(memories, args)
    modifies socket
    ensures args[0] == Ascii("WRAM") ==> socket.sent == old(socket.sent) + ReadReply(memories.wram, args)
    ensures args[0] == Ascii("SRAM") ==> socket.sent == old(socket.sent) + ReadReply(memories.sram, args)
    ensures args[0] == Ascii("CARTROM") ==> socket.sent == old(socket.sent) + ReadReply(memories.rom, args)
  {
    var ptr: bytes := [];
    var offset := GetOffset(args[1]);
    var size := GetSize(args[2]);
    if args[0] == Ascii("WRAM") {
      ptr := memories.wram;
    }
    if args[0] == Ascii("SRAM") {
      ptr := memories.sram;
    }
    if args[0] == Ascii("CARTROM") {
      ptr := memories.rom;
    }
    NamesDiffer();
    socket.SendBinaryBlock(size, ptr[offset..]);
    assert ptr[offset..][..size] == ptr[offset..offset + size];
  }

  // ---- the request is one the server accepts ----

  /** A number below the k-th power of ten has at most k digits, in either base. */
  lemma {:induction false} RenderIsShort(n: nat, base: nat, k: nat)
    requires (base == 10 || base == 16) && 1 <= k && n < PowerOfTen(k)
    ensures |Render(n, base)| <= k
    decreases n
  {
    if n < base {
    } else {
      DivisionAndRest(n, base);
      assert n / base <= n / 10 < PowerOfTen(k - 1);
      assert k > 1 by { assert PowerOfTen(0) == 1 && PowerOfTen(1) == 10; }
      RenderIsShort(n / base, base, k - 1);
    }
  }

  lemma OffsetIsShort(n: nat, style: Style)
    requires n < 0x1_0000_0000_0000_0000
    ensures |RenderAs(n, style)| <= 21
  {
    assert PowerOfTen(2) == 100;
    assert PowerOfTen(4) == 10_000;
    assert PowerOfTen(6) == 1_000_000;
    assert PowerOfTen(8) == 100_000_000;
    assert PowerOfTen(10) == 10_000_000_000;
    assert PowerOfTen(12) == 1_000_000_000_000;
    assert PowerOfTen(14) == 100_000_000_000_000;
    assert PowerOfTen(16) == 10_000_000_000_000_000;
    assert PowerOfTen(18) == 1_000_000_000_000_000_000;
    assert PowerOfTen(20) == 100_000_000_000_000_000_000;
    RenderIsShort(n, 10, 20);
    RenderIsShort(n, 16, 20);
  }

  lemma RenderedIsClean(n: nat, style: Style)
    ensures CleanArgument(RenderAs(n, style))
  {
    var text := RenderAs(n, style);
    forall i | 0 <= i < |text| ensures text[i] == DOLLAR || 48 <= text[i] <= 57 || 65 <= text[i] <= 102 {
    }
  }

  predicate KnownName(name: bytes) {
    name == Ascii("WRAM") || name == Ascii("SRAM") || name == Ascii("CARTROM")
  }

  function ReadArguments(name: bytes, offset: nat, style: Style, size: nat, sizeStyle: Style): seq<bytes> {
    [name, RenderAs(offset, style), RenderAs(size, sizeStyle)]
  }

  function ReadRequest(name: bytes, offset: nat, style: Style, size: nat, sizeStyle: Style): Request {
    Request(Ascii("CORE_READ"), ReadArguments(name, offset, style, size, sizeStyle), None)
  }

  lemma NameIsClean(name: bytes)
    requires KnownName(name)
    ensures CleanArgument(name) && 1 <= |name| <= 7 && name[0] != SPACE
  {
  }

  lemma CommandIsClean()
    ensures var c := Ascii("CORE_READ");
            |c| == 9 && SPACE !in c && NEWLINE !in c && NUL !in c && IsCommandStart(c[0]) && c[0] != LOWER_B
  {
  }

  lemma JoinThree(a: bytes, b: bytes, c: bytes)
    ensures |Join([a, b, c], SEMICOLON)| == |a| + |b| + |c| + 2
  {
    var two, one := [b, c], [c];
    assert [a, b, c][1..] == two && two[1..] == one;
    assert Join(one, SEMICOLON) == c && Join(two, SEMICOLON) == b + [SEMICOLON] + c;
  }

  lemma ReadRequestIsAcceptable(cfg: Config, name: bytes, offset: nat, style: Style, size: nat, sizeStyle: Style)
    requires KnownName(name) && offset < 0x1_0000_0000_0000_0000 && size < 0x1_0000_0000_0000_0000
    ensures Acceptable(cfg, ReadRequest(name, offset, style, size, sizeStyle))
  {
    var r := ReadRequest(name, offset, style, size, sizeStyle);
    NameIsClean(name);
    CommandIsClean();
    RenderedIsClean(offset, style);
    RenderedIsClean(size, sizeStyle);
    OffsetIsShort(offset, style);
    OffsetIsShort(size, sizeStyle);
    JoinThree(r.args[0], r.args[1], r.args[2]);
  }

  lemma CoreReadIsFound(cfg: Config)
    requires FindCustom(cfg.customNames, Ascii("CORE_READ"), 0).None?
    ensures Lookup(cfg, Ascii("CORE_READ")) == Some(16)
  {
    assert COMMAND_NAMES[15] == "CORE_READ";
    NameIsFound(15);
  }

  // ---- the whole trip ----

  /** The request arrives as one call of the read handler with the printed arguments. */
  lemma RequestArrives(cfg: Config, r: Request, command: nat, chunks: seq<bytes>)
    requires 16 in cfg.implemented && FindCustom(cfg.customNames, Ascii("CORE_READ"), 0).None?
    requires r.name == Ascii("CORE_READ") && r.data.None? && Acceptable(cfg, r) && Flatten(chunks) == Print(cfg, r)
    ensures Settle(TakeReads(cfg, Fresh(command), chunks)).log == [Called(16, r.args)]
  {
    CoreReadIsFound(cfg);
    var rs, deliveries := [r], [chunks];
    assert rs[1..] == [] && deliveries[1..] == [];
    assert Concat(deliveries) == chunks by { assert chunks + [] == chunks; }
    assert AllEventsOf(cfg, rs) == EventsOf(cfg, r) + [] == [Called(16, r.args)];
    LockstepConversation(cfg, command, rs, deliveries);
  }

  /** The size the handler reads: it knows no `$`, and takes a hexadecimal size for zero. */
  function SizeUnderstood(size: uint32, sizeStyle: Style): uint32 {
    if sizeStyle.InHex? then 0 else size
  }

  lemma NumbersArrive(offset: nat, style: Style, size: uint32, sizeStyle: Style)
    requires OffsetInRange(offset, style) && size < 0x8000_0000
    ensures GetOffset(RenderAs(offset, style)) == offset
    ensures GetSize(RenderAs(size, sizeStyle)) == SizeUnderstood(size, sizeStyle)
  {
    RenderedIsRead(offset, style);
    RenderedSize(size);
    if sizeStyle.InHex? {
      var text := DollarHex(size, sizeStyle.lower);
      assert SkipBlanks(text) == text;
    }
  }

  /** The reply to those arguments decodes to exactly the range. */
  lemma ReplyDecodes(memory: bytes, args: seq<bytes>, offset: nat, size: nat, rest: bytes)
    requires |args| >= 3 && GetOffset(args[1]) == offset && GetSize(args[2]) == size && offset + size <= |memory|
    ensures Decode(ReadReply(memory, args) + rest) == Got(Binary(memory[offset..offset + size]), rest)
  {
    var data := memory[offset..offset + size];
    assert ReadReply(memory, args) == EncodeBlock(data);
    BinaryRoundTrip(data, rest);
  }

  /** This name denotes this memory. */
  predicate Denotes(memories: Memories, name: bytes, memory: bytes) {
    || (name == Ascii("WRAM") && memory == memories.wram)
    || (name == Ascii("SRAM") && memory == memories.sram)
    || (name == Ascii("CARTROM") && memory == memories.rom)
  }

  lemma DenotedIsReadable(memories: Memories, memory: bytes, args: seq<bytes>)
    requires |args| >= 3 && GetOffset(args[1]) + GetSize(args[2]) <= |memory|
    requires Denotes(memories, args[0], memory)
    ensures KnownName(args[0]) && Readable(memories, args)
  {
  }

  lemma ReadRequestArrives(cfg: Config, name: bytes, offset: nat, style: Style, size: uint32, sizeStyle: Style,
                           command: nat, chunks: seq<bytes>)
    requires 16 in cfg.implemented && FindCustom(cfg.customNames, Ascii("CORE_READ"), 0).None?
    requires KnownName(name) && OffsetInRange(offset, style)
    requires Flatten(chunks) == RequestLine(ReadRequest(name, offset, style, size, sizeStyle))
    ensures Settle(TakeReads(cfg, Fresh(command), chunks)).log
            == [Called(16, ReadArguments(name, offset, style, size, sizeStyle))]
  {
    var r := ReadRequest(name, offset, style, size, sizeStyle);
    ReadRequestIsAcceptable(cfg, name, offset, style, size, sizeStyle);
    assert Print(cfg, r) == RequestLine(r) + [] == RequestLine(r);
    RequestArrives(cfg, r, command, chunks);
  }

  lemma ArgumentsAreRead(name: bytes, offset: nat, style: Style, size: uint32, sizeStyle: Style)
    requires OffsetInRange(offset, style) && size < 0x8000_0000
    ensures var args := ReadArguments(name, offset, style, size, sizeStyle);
      && |args| == 3 && args[0] == name
      && GetOffset(args[1]) == offset && GetSize(args[2]) == SizeUnderstood(size, sizeStyle)
  {
    NumbersArrive(offset, style, size, sizeStyle);
  }

  lemma RangeIsReturned(name: bytes, memory: bytes, offset: nat, style: Style, size: uint32, sizeStyle: Style,
                        rest: bytes)
    requires OffsetInRange(offset, style) && size < 0x8000_0000 && offset + size <= |memory|
    ensures var args := ReadArguments(name, offset, style, size, sizeStyle);
      && |args| == 3 && args[0] == name
      && GetOffset(args[1]) + GetSize(args[2]) <= |memory|
      && Decode(ReadReply(memory, args) + rest)
         == Got(Binary(memory[offset..offset + if sizeStyle.InHex? then 0 else size]), rest)
  {
    ArgumentsAreRead(name, offset, style, size, sizeStyle);
    var args := ReadArguments(name, offset, style, size, sizeStyle);
    ReplyDecodes(memory, args, offset, SizeUnderstood(size, sizeStyle), rest);
  }

  /** For a memory and a range inside it, the request delivered in any reads makes the server call the
      read handler once, with arguments for which the reply decodes to exactly that range of that memory;
      but to an empty one when the size is printed in hexadecimal. */
  lemma EndToEndRead(cfg: Config, memories: Memories, name: bytes, memory: bytes, offset: nat, style: Style,
                     size: uint32, sizeStyle: Style, command: nat, chunks: seq<bytes>, rest: bytes)
    requires 16 in cfg.implemented && FindCustom(cfg.customNames, Ascii("CORE_READ"), 0).None?
    requires Denotes(memories, name, memory) && offset + size <= |memory|
    requires OffsetInRange(offset, style) && size < 0x8000_0000
    requires Flatten(chunks) == RequestLine(ReadRequest(name, offset, style, size, sizeStyle))
    ensures var args := ReadArguments(name, offset, style, size, sizeStyle);
      && Settle(TakeReads(cfg, Fresh(command), chunks)).log == [Called(16, args)]
      && Readable(memories, args)
      && Decode(ReadReply(memory, args) + rest)
         == Got(Binary(memory[offset..offset + if sizeStyle.InHex? then 0 else size]), rest)
  {
    RangeIsReturned(name, memory, offset, style, size, sizeStyle, rest);
    DenotedIsReadable(memories, memory, ReadArguments(name, offset, style, size, sizeStyle));
    ReadRequestArrives(cfg, name, offset, style, size, sizeStyle, command, chunks);
  }

  /** A concrete case: five bytes asked for as `$5`, as the validator does, come back as none. */
  lemma HexSizeReadsNothing(memories: Memories, rest: bytes)
    requires |memories.wram| >= 5
    ensures var args := [Ascii("WRAM"), Ascii("$0"), Ascii("$5")];
            Readable(memories, args) && Decode(ReadReply(memories.wram, args) + rest) == Got(Binary([]), rest)
  {
    var args := [Ascii("WRAM"), Ascii("$0"), Ascii("$5")];
    assert Ascii("$0") == DollarHex(0, []) && Ascii("$5") == DollarHex(5, []);
    NumbersArrive(0, InHex([]), 5, InHex([]));
    assert RenderAs(0, InHex([])) == DollarHex(0, []) && RenderAs(5, InHex([])) == DollarHex(5, []);
    ReplyDecodes(memories.wram, args, 0, 0, rest);
  }

  // ---- errors reach the client ----

  predicate PlainText(s: string) {
    forall i :: 0 <= i < |s| ==> 32 <= s[i] as int < 127
  }

  lemma StartReasonIsPlain()
    ensures PlainText(BAD_START)
  {
  }

  lemma LeadReasonIsPlain()
    ensures PlainText(BAD_LEAD)
  {
  }

  lemma SizeReasonIsPlain()
    ensures PlainText(BAD_SIZE)
  {
    assert PlainText("Binary block size does ") && PlainText("not match expected size");
  }

  lemma PlainTextIsClean(s: string)
    requires PlainText(s)
    ensures NEWLINE !in Ascii(s)
  {
    assert forall i :: 0 <= i < |s| ==> Ascii(s)[i] == s[i] as int;
  }

  /** Whatever byte the parser refuses, the client reads a protocol error with the server's reason. */
  lemma RefusalReachesClient(state: State, rest: bytes)
    ensures var reason := Ascii(RefusalReason(state));
            Decode(PrintError(ProtocolError, reason) + rest) == Got(Error(KindProtocolError, reason), rest)
  {
    var reason := RefusalReason(state);
    StartReasonIsPlain();
    LeadReasonIsPlain();
    SizeReasonIsPlain();
    PlainTextIsClean(reason);
    ErrorRoundTrip(ProtocolError, Ascii(reason), rest);
  }

  /** A block that no command announced is refused at its first byte: one error, and the connection
      is closed. */
  lemma UnexpectedBlockIsRefused(cfg: Config, command: nat, data: bytes)
    requires |data| < 0x1_0000_0000
    ensures var after := Run(cfg, Fresh(command), EncodeBlock(data));
      && after.state.Closed?
      && after.log == [ErrorSent(ProtocolError, "Expecting a command or a signal registration")]
  {
    var s := EncodeBlock(data);
    assert s[0] == 0;
    DeadIsFinal(cfg, Step(cfg, Fresh(command), s[0]), s[1..]);
  }
}
