/** The standard commands by name and number, said literally and apart from the table that is searched. */
module CommandTable {
  import opened Bytes
  import opened Protocol

  /** The names are told apart by their length and the characters at 0, 5 and 12. */
  lemma StringsDiffer(j: nat, k: nat)
    requires j < k < |COMMAND_NAMES|
    ensures var s, t := COMMAND_NAMES[j], COMMAND_NAMES[k];
      && |s| > 5 && |t| > 5
      && (|s| != |t| || s[0] != t[0] || s[5] != t[5] || (|s| == |t| > 12 && s[12] != t[12]))
  {
  }

  predicate IsAscii(s: string) {
    forall i :: 0 <= i < |s| ==> s[i] as int < 0x80
  }

  lemma NamesAreAscii(k: nat)
    requires k < |COMMAND_NAMES|
    ensures IsAscii(COMMAND_NAMES[k])
  {
  }

  lemma AsciiDiffers(s: string, t: string, i: nat)
    requires IsAscii(s) && IsAscii(t)
    requires |s| != |t| || (i < |s| && s[i] != t[i])
    ensures Ascii(s) != Ascii(t)
  {
    if |s| == |t| {
      assert Ascii(s)[i] == s[i] as int && Ascii(t)[i] == t[i] as int;
    }
  }

  lemma NamesDiffer(j: nat, k: nat)
    requires j < k < |COMMAND_NAMES|
    ensures Ascii(COMMAND_NAMES[j]) != Ascii(COMMAND_NAMES[k])
  {
    var s, t := COMMAND_NAMES[j], COMMAND_NAMES[k];
    StringsDiffer(j, k);
    NamesAreAscii(j);
    NamesAreAscii(k);
    AsciiDiffers(s, t, if s[0] != t[0] then 0 else if s[5] != t[5] then 5 else 12);
  }

  lemma NameIsFound(k: nat)
    requires k < |COMMAND_NAMES|
    ensures FindName(COMMAND_NAMES, Ascii(COMMAND_NAMES[k]), 0) == Some(k + 1)
  {
    FoundName(COMMAND_NAMES, Ascii(COMMAND_NAMES[k]), 0);
    match FindName(COMMAND_NAMES, Ascii(COMMAND_NAMES[k]), 0) {
      case Some(c) =>
        if c - 1 < k {
          NamesDiffer(c - 1, k);
        }
      case None =>
    }
  }

  /** Unless a custom string is a prefix of it, this name is the command of this number. */
  ghost predicate Selects(cfg: Config, name: string, number: nat) {
    (forall j :: 0 <= j < |cfg.customNames| ==> !(cfg.customNames[j] <= Ascii(name))) ==>
      Lookup(cfg, Ascii(name)) == Some(number)
  }

  lemma NameSelects(cfg: Config, k: nat)
    requires k < |COMMAND_NAMES|
    ensures Selects(cfg, COMMAND_NAMES[k], k + 1)
  {
    FoundCustom(cfg.customNames, Ascii(COMMAND_NAMES[k]), 0);
    NameIsFound(k);
  }

  lemma Numbered(cfg: Config, k: nat, name: string)
    requires k < |COMMAND_NAMES| && COMMAND_NAMES[k] == name
    ensures Selects(cfg, name, k + 1)
  {
    NameSelects(cfg, k);
  }

  lemma StatusNames()
    ensures COMMAND_NAMES[0] == "EMULATOR_INFO"
    ensures COMMAND_NAMES[1] == "EMULATION_STATUS"
    ensures COMMAND_NAMES[2] == "EMULATION_PAUSE"
    ensures COMMAND_NAMES[3] == "EMULATION_STOP"
  {
  }

  /** The numbers of the protocol: the emulator and its status. */
  lemma StatusNumbers(cfg: Config)
    ensures Selects(cfg, "EMULATOR_INFO", 1)
    ensures Selects(cfg, "EMULATION_STATUS", 2)
    ensures Selects(cfg, "EMULATION_PAUSE", 3)
    ensures Selects(cfg, "EMULATION_STOP", 4)
  {
    StatusNames();
    Numbered(cfg, 0, "EMULATOR_INFO");
    Numbered(cfg, 1, "EMULATION_STATUS");
    Numbered(cfg, 2, "EMULATION_PAUSE");
    Numbered(cfg, 3, "EMULATION_STOP");
  }

  lemma EmulationNames()
    ensures COMMAND_NAMES[4] == "EMULATION_RESET"
    ensures COMMAND_NAMES[5] == "EMULATION_RESUME"
    ensures COMMAND_NAMES[6] == "EMULATION_RELOAD"
    ensures COMMAND_NAMES[7] == "MY_NAME_IS"
  {
  }

  /** The emulation, and the name of the client. */
  lemma EmulationNumbers(cfg: Config)
    ensures Selects(cfg, "EMULATION_RESET", 5)
    ensures Selects(cfg, "EMULATION_RESUME", 6)
    ensures Selects(cfg, "EMULATION_RELOAD", 7)
    ensures Selects(cfg, "MY_NAME_IS", 8)
  {
    EmulationNames();
    Numbered(cfg, 4, "EMULATION_RESET");
    Numbered(cfg, 5, "EMULATION_RESUME");
    Numbered(cfg, 6, "EMULATION_RELOAD");
    Numbered(cfg, 7, "MY_NAME_IS");
  }

  lemma CoreNames()
    ensures COMMAND_NAMES[8] == "LOAD_GAME"
    ensures COMMAND_NAMES[9] == "GAME_INFO"
    ensures COMMAND_NAMES[10] == "CORES_LIST"
    ensures COMMAND_NAMES[11] == "CORE_INFO"
    ensures COMMAND_NAMES[12] == "CORE_CURRENT_INFO"
    ensures COMMAND_NAMES[13] == "LOAD_CORE"
    ensures COMMAND_NAMES[14] == "CORE_MEMORIES"
    ensures COMMAND_NAMES[15] == "CORE_READ"
    ensures COMMAND_NAMES[16] == "bCORE_WRITE"
  {
  }

  /** Games and cores. */
  lemma CoreNumbers(cfg: Config)
    ensures Selects(cfg, "LOAD_GAME", 9)
    ensures Selects(cfg, "GAME_INFO", 10)
    ensures Selects(cfg, "CORES_LIST", 11)
    ensures Selects(cfg, "CORE_INFO", 12)
    ensures Selects(cfg, "CORE_CURRENT_INFO", 13)
    ensures Selects(cfg, "LOAD_CORE", 14)
    ensures Selects(cfg, "CORE_MEMORIES", 15)
    ensures Selects(cfg, "CORE_READ", 16)
    ensures Selects(cfg, "bCORE_WRITE", 17)
  {
    CoreNames();
    Numbered(cfg, 8, "LOAD_GAME");
    Numbered(cfg, 9, "GAME_INFO");
    Numbered(cfg, 10, "CORES_LIST");
    Numbered(cfg, 11, "CORE_INFO");
    Numbered(cfg, 12, "CORE_CURRENT_INFO");
    Numbered(cfg, 13, "LOAD_CORE");
    Numbered(cfg, 14, "CORE_MEMORIES");
    Numbered(cfg, 15, "CORE_READ");
    Numbered(cfg, 16, "bCORE_WRITE");
  }

  lemma DebugNames()
    ensures COMMAND_NAMES[17] == "DEBUG_BREAK"
    ensures COMMAND_NAMES[18] == "DEBUG_CONTINUE"
    ensures COMMAND_NAMES[19] == "LOAD_STATE"
    ensures COMMAND_NAMES[20] == "SAVE_STATE"
  {
  }

  /** Debugging and states. */
  lemma DebugNumbers(cfg: Config)
    ensures Selects(cfg, "DEBUG_BREAK", 18)
    ensures Selects(cfg, "DEBUG_CONTINUE", 19)
    ensures Selects(cfg, "LOAD_STATE", 20)
    ensures Selects(cfg, "SAVE_STATE", 21)
  {
    DebugNames();
    Numbered(cfg, 17, "DEBUG_BREAK");
    Numbered(cfg, 18, "DEBUG_CONTINUE");
    Numbered(cfg, 19, "LOAD_STATE");
    Numbered(cfg, 20, "SAVE_STATE");
  }
}
