/** The general laws on bytes that can be compared with a capture of the wire. */
module Sessions {
  import opened Bytes
  import opened Protocol
  import opened CommandTable
  import opened Tokeniser
  import opened Automaton
  import opened Numbers
  import opened Replies
  import opened WireLaws

  lemma Punctuation()
    ensures Ascii(" ") == [32] && Ascii("\n") == [10] && Ascii(";") == [59] && Ascii(":") == [58] && Ascii("$") == [36]
    ensures Ascii("!") == [33] && Ascii("b") == [98] && Ascii("0") == [48] && Ascii("-") == [45] && Ascii("x") == [120]
  {
  }

  lemma ThreeArguments(a: bytes, b: bytes, c: bytes)
    ensures Join([a, b, c], 59) == a + [59] + (b + [59] + c)
  {
    var two, one := [b, c], [c];
    assert [a, b, c][1..] == two && two[1..] == one;
    assert Join(one, 59) == c;
    assert Join(two, 59) == b + [59] + c;
  }

  /** The bytes of a line with three arguments, from the text of it. */
  lemma LineOfText(name: string, a: string, b: string, c: string)
    ensures WireLine(Ascii(name), [Ascii(a), Ascii(b), Ascii(c)])
            == Ascii(name + (" " + (a + (";" + (b + (";" + (c + "\n")))))))
  {
    ThreeArguments(Ascii(a), Ascii(b), Ascii(c));
    Punctuation();
    AsciiAppend(c, "\n");
    AsciiAppend(";", c + "\n");
    AsciiAppend(b, ";" + (c + "\n"));
    AsciiAppend(";", b + (";" + (c + "\n")));
    AsciiAppend(a, ";" + (b + (";" + (c + "\n"))));
    AsciiAppend(" ", a + (";" + (b + (";" + (c + "\n")))));
    AsciiAppend(name, " " + (a + (";" + (b + (";" + (c + "\n"))))));
    SevenPieces(Ascii(name), Ascii(a), Ascii(b), Ascii(c));
  }

  lemma SevenPieces(n: bytes, a: bytes, b: bytes, c: bytes)
    ensures n + ([32] + (a + [59] + (b + [59] + c))) + [10]
            == n + ([32] + (a + ([59] + (b + ([59] + (c + [10]))))))
  {
  }

  lemma PlainArguments()
    ensures forall s :: s in {"WRAM", "$7e", "5", "0", "3"} ==>
      Ascii(s) != [] && 59 !in Ascii(s) && 10 !in Ascii(s) && 0 !in Ascii(s) && Ascii(s)[0] != 32 && |Ascii(s)| <= 4
  {
  }

  lemma PlainNames()
    ensures forall s :: s in {"CORE_READ", "bCORE_WRITE"} ==>
      32 !in Ascii(s) && 10 !in Ascii(s) && 0 !in Ascii(s) && |Ascii(s)| <= 11
    ensures Ascii("CORE_READ") != [] && Ascii("CORE_READ")[0] == 67
    ensures Ascii("bCORE_WRITE") != [] && Ascii("bCORE_WRITE")[0] == 98
  {
  }

  lemma ThreeAreSendable(name: bytes, a: bytes, b: bytes, c: bytes)
    requires name != [] && 32 !in name && 10 !in name && 0 !in name && |name| <= 11 && (name[0] == 67 || name[0] == 98)
    requires forall s :: s in [a, b, c] ==> 59 !in s && 10 !in s && 0 !in s && |s| <= 4
    requires a != [] && a[0] != 32
    ensures Sendable(name, [a, b, c])
  {
    ThreeArguments(a, b, c);
    assert a in [a, b, c] && b in [a, b, c] && c in [a, b, c];
  }

  lemma ReadText()
    ensures "CORE_READ" + (" " + ("WRAM" + (";" + ("$7e" + (";" + ("5" + "\n")))))) == "CORE_READ WRAM;$7e;5\n"
    ensures "bCORE_WRITE" + (" " + ("WRAM" + (";" + ("0" + (";" + ("3" + "\n")))))) == "bCORE_WRITE WRAM;0;3\n"
  {
  }

  lemma ReadIsSent()
    ensures Sendable(Ascii("CORE_READ"), [Ascii("WRAM"), Ascii("$7e"), Ascii("5")]) && Ascii("CORE_READ")[0] != 98
    ensures WireLine(Ascii("CORE_READ"), [Ascii("WRAM"), Ascii("$7e"), Ascii("5")]) == Ascii("CORE_READ WRAM;$7e;5\n")
  {
    PlainArguments();
    PlainNames();
    ThreeAreSendable(Ascii("CORE_READ"), Ascii("WRAM"), Ascii("$7e"), Ascii("5"));
    LineOfText("CORE_READ", "WRAM", "$7e", "5");
    ReadText();
  }

  lemma WriteIsSent()
    ensures Sendable(Ascii("bCORE_WRITE"), [Ascii("WRAM"), Ascii("0"), Ascii("3")])
    ensures WireLine(Ascii("bCORE_WRITE"), [Ascii("WRAM"), Ascii("0"), Ascii("3")]) == Ascii("bCORE_WRITE WRAM;0;3\n")
  {
    PlainArguments();
    PlainNames();
    ThreeAreSendable(Ascii("bCORE_WRITE"), Ascii("WRAM"), Ascii("0"), Ascii("3"));
    LineOfText("bCORE_WRITE", "WRAM", "0", "3");
    ReadText();
  }

  /** A read on a server without custom commands. */
  lemma ReadSession(cfg: Config, command: nat)
    requires cfg.customNames == [] && 16 in cfg.implemented
    ensures Run(cfg, Fresh(command), Ascii("CORE_READ WRAM;$7e;5\n"))
            == Machine(WaitingForCommand, 16, [Called(16, [Ascii("WRAM"), Ascii("$7e"), Ascii("5")])])
  {
    var name, args := Ascii("CORE_READ"), [Ascii("WRAM"), Ascii("$7e"), Ascii("5")];
    ReadIsSent();
    assert Lookup(cfg, name) == Some(16) by {
      assert COMMAND_NAMES[15] == "CORE_READ";
      NameSelects(cfg, 15);
    }
    PlainCommandIsCalled(cfg, Fresh(command), name, args, 16);
    FromStart([Called(16, args)]);
  }

  /** A write whose data would be a newline, a command start and a block lead. */
  lemma WriteSession(cfg: Config, command: nat)
    requires cfg.customNames == [] && 17 in cfg.implemented
    requires cfg.handler(17, [Ascii("WRAM"), Ascii("0"), Ascii("3")]) == 3
    ensures Settle(Run(cfg, Fresh(command), Ascii("bCORE_WRITE WRAM;0;3\n") + [0, 0, 0, 0, 3, 10, 33, 0]))
            == Machine(WaitingForCommand, 17,
                       [Called(17, [Ascii("WRAM"), Ascii("0"), Ascii("3")]), Written([10, 33, 0])])
  {
    var name, args := Ascii("bCORE_WRITE"), [Ascii("WRAM"), Ascii("0"), Ascii("3")];
    WriteIsSent();
    WriteIsHandled(cfg);
    assert WireBlock([10, 33, 0]) == [0, 0, 0, 0, 3, 10, 33, 0];
    WriteOf(cfg, command, name, args, [10, 33, 0]);
  }

  lemma WriteOf(cfg: Config, command: nat, name: bytes, args: seq<bytes>, data: bytes)
    requires Sendable(name, args) && name[0] == 98 && Handles(cfg, name, 17)
    requires cfg.handler(17, args) == |data| < 0x1_0000_0000
    ensures Settle(Run(cfg, Fresh(command), WireLine(name, args) + WireBlock(data)))
            == Machine(WaitingForCommand, 17, [Called(17, args), Written(data)])
  {
    AcceptedBlockIsWritten(cfg, Fresh(command), name, args, |data|, 0, data);
    FromStart([Called(17, args), Written(data)]);
  }

  // ---- numbers ----

  lemma Digits()
    ensures Render(126, 16) == [55, 69] && Render(126, 10) == [49, 50, 54]
  {
    assert Render(7, 16) == [55] && Render(126, 16) == Render(7, 16) + [69];
    assert Render(1, 10) == [49] && Render(12, 10) == Render(1, 10) + [50];
    assert Render(126, 10) == Render(12, 10) + [54];
  }

  lemma TextsOfOffset()
    ensures Ascii("$7e") == [36] + [55, 101] && Ascii("$7E") == [36] + [55, 69] && Ascii("126") == [49, 50, 54]
  {
  }

  lemma LowerCaseOffset()
    ensures GetOffset(Ascii("$7e")) == 126 == GetOffset(Ascii("$7E")) == GetOffset(Ascii("126"))
  {
    Digits();
    TextsOfOffset();
    HexOffset(126, [55, 101]);
    HexOffset(126, [55, 69]);
    DecimalOffset(126);
  }

  // ---- replies ----

  lemma PairText(key: string, value: string)
    ensures PrintPair(Pair(Ascii(key), Ascii(value))) == Ascii(key + (":" + (value + "\n")))
  {
    Punctuation();
    AsciiAppend(value, "\n");
    AsciiAppend(":", value + "\n");
    AsciiAppend(key, ":" + (value + "\n"));
    PairPieces(Ascii(key), Ascii(value));
  }

  lemma PairPieces(a: bytes, b: bytes)
    ensures a + [58] + b + [10] == a + ([58] + (b + [10]))
  {
  }

  lemma HashText(p: Pair, q: Pair, s: string, t: string)
    requires PrintPair(p) == Ascii(s) && PrintPair(q) == Ascii(t)
    ensures PrintHash([p, q]) + [] == Ascii("\n" + (s + (t + "\n")))
  {
    Punctuation();
    TwoPairs(p, q, map[]);
    AsciiAppend(t, "\n");
    AsciiAppend(s, t + "\n");
    AsciiAppend("\n", s + (t + "\n"));
    HashPieces(Ascii(s), Ascii(t));
  }

  lemma HashPieces(a: bytes, b: bytes)
    ensures [10] + (a + b) + [10] + [] == [10] + (a + (b + [10]))
  {
  }

  lemma CleanTexts()
    ensures 58 !in Ascii("id") && 10 !in Ascii("id") && 10 !in Ascii("1") && 10 !in Ascii("a:b")
    ensures |Ascii("id")| == 2 && |Ascii("1")| == 1 && |Ascii("a:b")| == 3 && |Ascii("error")| == 5
  {
  }

  lemma HashReplyText()
    ensures PrintHash([Pair(Ascii("id"), Ascii("1")), Pair(Ascii("id"), Ascii("a:b"))]) + []
            == Ascii("\nid:1\nid:a:b\n\n")
  {
    var s, t := "id" + (":" + ("1" + "\n")), "id" + (":" + ("a:b" + "\n"));
    PairText("id", "1");
    PairText("id", "a:b");
    HashText(Pair(Ascii("id"), Ascii("1")), Pair(Ascii("id"), Ascii("a:b")), s, t);
    assert "\n" + (s + (t + "\n")) == "\nid:1\nid:a:b\n\n";
  }

  lemma SameKeyTwice(key: bytes, a: bytes, b: bytes)
    requires CleanPair(Pair(key, a)) && CleanPair(Pair(key, b)) && Fits(Pair(key, a)) && Fits(Pair(key, b))
    requires key != Ascii("error")
    ensures Decode(PrintHash([Pair(key, a), Pair(key, b)]) + []) == Got(Hash(map[key := b]), [])
  {
    TwoPairs(Pair(key, a), Pair(key, b), map[]);
    HashRoundTrip([Pair(key, a), Pair(key, b)], []);
    assert map[key := a][key := b] == map[key := b];
    assert !HasKey([Pair(key, a), Pair(key, b)], Ascii("error"));
  }

  /** A key may be repeated, and a value may hold a colon. */
  lemma HashReply()
    ensures Decode(Ascii("\nid:1\nid:a:b\n\n")) == Got(Hash(map[Ascii("id") := Ascii("a:b")]), [])
  {
    CleanTexts();
    SameKeyTwice(Ascii("id"), Ascii("1"), Ascii("a:b"));
    HashReplyText();
  }

  lemma ErrorReplyOf(kind: ErrorType, name: string, text: string, reason: bytes)
    requires name == ErrorName(kind) && text == "\n" + ("error:" + (name + ("\n" + "reason:")))
    requires 10 !in reason && |reason| <= 1024
    ensures Decode(Ascii(text) + reason + [10, 10]) == Got(Error(KindOf(kind), reason), [])
  {
    ErrorText(name, kind, reason);
    ErrorRoundTrip(kind, reason, []);
  }

  lemma NotAllowedReply(reason: bytes)
    requires 10 !in reason && |reason| <= 1024
    ensures Decode(Ascii("\nerror:not_allowed\nreason:") + reason + [10, 10]) == Got(Error(KindNotAllowed, reason), [])
  {
    var text := "\nerror:not_allowed\nreason:";
    assert "\n" + ("error:" + ("not_allowed" + ("\n" + "reason:"))) == text;
    ErrorReplyOf(NotAllowed, "not_allowed", text, reason);
  }

  /** `command_error` has no kind of its own. */
  lemma CommandErrorReply(reason: bytes)
    requires 10 !in reason && |reason| <= 1024
    ensures Decode(Ascii("\nerror:command_error\nreason:") + reason + [10, 10])
            == Got(Error(KindInvalidError, reason), [])
  {
    var text := "\nerror:command_error\nreason:";
    assert "\n" + ("error:" + ("command_error" + ("\n" + "reason:"))) == text;
    ErrorReplyOf(CommandError, "command_error", text, reason);
  }

  lemma ErrorText(name: string, kind: ErrorType, reason: bytes)
    requires name == ErrorName(kind)
    ensures PrintError(kind, reason) + []
            == Ascii("\n" + ("error:" + (name + ("\n" + "reason:")))) + reason + [10, 10]
  {
    Punctuation();
    AsciiAppend("\n", "reason:");
    AsciiAppend(name, "\n" + "reason:");
    AsciiAppend("error:", name + ("\n" + "reason:"));
    AsciiAppend("\n", "error:" + (name + ("\n" + "reason:")));
    ErrorPieces(Ascii("error:"), Ascii(name), Ascii("reason:"), reason);
  }

  lemma ErrorPieces(a: bytes, b: bytes, c: bytes, d: bytes)
    ensures [NEWLINE] + a + b + [NEWLINE] + c + d + [NEWLINE, NEWLINE] + []
            == [10] + (a + (b + ([10] + c))) + d + [10, 10]
  {
  }

  lemma BlockReply()
    ensures Decode([0, 0, 0, 1, 0] + seq(256, _ => 7)) == Got(Binary(seq(256, _ => 7)), [])
  {
    var data: bytes := seq(256, _ => 7);
    WireBlockIsEncoded(data);
    assert WireBlock(data) + [] == [0, 0, 0, 1, 0] + data;
    BinaryRoundTrip(data, []);
  }
}
