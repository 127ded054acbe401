/** Commands, errors and the events through which the server is observed. */
module Protocol {
  import opened Bytes

  type int64 = x: int | -0x8000_0000_0000_0000 <= x < 0x8000_0000_0000_0000

  const BCORE_WRITE: nat := 17
  const CUSTOM: nat := 128

  /** Names of the standard commands; command number n is entry n - 1. */
  const COMMAND_NAMES: seq<string> := [
    "EMULATOR_INFO", "EMULATION_STATUS", "EMULATION_PAUSE", "EMULATION_STOP", "EMULATION_RESET",
    "EMULATION_RESUME", "EMULATION_RELOAD", "MY_NAME_IS", "LOAD_GAME", "GAME_INFO", "CORES_LIST",
    "CORE_INFO", "CORE_CURRENT_INFO", "LOAD_CORE", "CORE_MEMORIES", "CORE_READ", "bCORE_WRITE",
    "DEBUG_BREAK", "DEBUG_CONTINUE", "LOAD_STATE", "SAVE_STATE"
  ]

  datatype ErrorType = ProtocolError | InvalidCommand | InvalidArgument | CommandError | NotAllowed

  const BAD_START := "Expecting a command or a signal registration"
  const BAD_LEAD := "Sending invalid binary data block"
  // in two parts, because the verifier unfolds only so much of one literal
  const BAD_SIZE := "Binary block size does " + "not match expected size"
  const UNKNOWN_COMMAND := "Invalid command"
  const NOT_IMPLEMENTED := "Invalid command or not implemented"

  /** One observable act of the server on behalf of one client. Handlers are named by the number
      the server stores in `current_command`: a standard command, or CUSTOM plus a table index. */
  datatype Event =
    | Called(command: nat, args: seq<bytes>)
    | Written(payload: bytes)
    | ErrorSent(kind: ErrorType, reason: string)

  /** What the emulator supplies: the custom command table, the set of standard commands in its
      handler map, and what each handler returns. */
  datatype Config = Config(customNames: seq<bytes>, implemented: set<nat>, handler: (nat, seq<bytes>) -> int64)

  /** First of these names, at or after index i, that is the given one; as a command number. */
  function FindName(names: seq<string>, name: bytes, i: nat): (r: Option<nat>)
    ensures r.Some? ==> r.value > i
    decreases |name|, |names| - i
  {
    if i >= |names| then None
    else if name == Ascii(names[i]) then Some(i + 1)
    else FindName(names, name, i + 1)
  }

  /** First custom entry at or after index i whose string is a prefix of the name. */
  function FindCustom(customNames: seq<bytes>, name: bytes, i: nat): (r: Option<nat>)
    decreases |name|, |customNames| - i
  {
    if i >= |customNames| then None
    else if customNames[i] <= name then Some(i)
    else FindCustom(customNames, name, i + 1)
  }

  lemma {:induction false} FoundName(names: seq<string>, name: bytes, i: nat)
    ensures match FindName(names, name, i)
      case Some(c) =>
        && i < c <= |names| && name == Ascii(names[c - 1])
        && forall k :: i <= k < c - 1 ==> name != Ascii(names[k])
      case None => forall k :: i <= k < |names| ==> name != Ascii(names[k])
    decreases |names| - i
  {
    if i >= |names| || name == Ascii(names[i]) {
    } else {
      FoundName(names, name, i + 1);
    }
  }

  lemma {:induction false} FoundCustom(customNames: seq<bytes>, name: bytes, i: nat)
    ensures match FindCustom(customNames, name, i)
      case Some(k) =>
        && i <= k < |customNames| && customNames[k] <= name
        && forall j :: i <= j < k ==> !(customNames[j] <= name)
      case None => forall k :: i <= k < |customNames| ==> !(customNames[k] <= name)
    decreases |customNames| - i
  {
    if i >= |customNames| || customNames[i] <= name {
    } else {
      FoundCustom(customNames, name, i + 1);
    }
  }

  /** The command a name selects: a custom prefix match wins over a standard exact match. */
  function Lookup(cfg: Config, name: bytes): (r: Option<nat>)
    ensures r.Some? ==> r.value != 0
  {
    var custom := FindCustom(cfg.customNames, name, 0);
    if custom.Some? then Some(CUSTOM + custom.value) else FindName(COMMAND_NAMES, name, 0)
  }

  /** The new `current_command` (None: left as it was), the event, and the returned size. */
  datatype Execution = Execution(command: Option<nat>, event: Event, size: int64)

  function Execute(cfg: Config, name: bytes, args: seq<bytes>): Execution {
    match Lookup(cfg, name)
    case None =>
      Execution(None, ErrorSent(InvalidCommand, UNKNOWN_COMMAND), 0)
    case Some(c) =>
      if c >= CUSTOM || c in cfg.implemented then
        Execution(Some(c), Called(c, args), cfg.handler(c, args))
      else
        Execution(Some(c), ErrorSent(InvalidCommand, NOT_IMPLEMENTED), -1)
  }

  /** `expected_block_size`: the magnitude of the returned size, stored in 32 bits. */
  function ExpectedSize(size: int64): uint32 {
    (if size < 0 then -(size as int) else size as int) % 0x1_0000_0000
  }

  /** The choice of a command, said without the searches: the first custom string that is a prefix of
      the name, else the standard command of exactly that name, else none. */
  lemma LookupChooses(cfg: Config, name: bytes)
    ensures match Lookup(cfg, name)
      case Some(c) =>
        if c >= 128 then
          && c - 128 < |cfg.customNames| && cfg.customNames[c - 128] <= name
          && forall j :: 0 <= j < c - 128 ==> !(cfg.customNames[j] <= name)
        else
          && 0 < c <= |COMMAND_NAMES| && name == Ascii(COMMAND_NAMES[c - 1])
          && forall j :: 0 <= j < |cfg.customNames| ==> !(cfg.customNames[j] <= name)
      case None =>
        && (forall j :: 0 <= j < |cfg.customNames| ==> !(cfg.customNames[j] <= name))
        && forall k :: 0 <= k < |COMMAND_NAMES| ==> name != Ascii(COMMAND_NAMES[k])
  {
    FoundCustom(cfg.customNames, name, 0);
    FoundName(COMMAND_NAMES, name, 0);
  }
}
