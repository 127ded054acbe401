/** Which streams the parser accepts: those that can be completed to a well-formed conversation. */
module Acceptance {
  import opened Bytes
  import opened Protocol
  import opened Tokeniser
  import opened Automaton
  import opened Conversation
  import opened Faults

  /** Exact acceptance. A stream that is refused is no prefix of a well-formed conversation; and on every
      stream without a fault, being one is the same as not being refused with a header that can still
      reach the expected size; a header that cannot is closed at its fifth byte. */
  lemma ExactAcceptance(cfg: Config, command: nat, s: bytes)
    ensures var after := Run(cfg, Fresh(command), s).state;
      && (after.Closed? ==> !Viable(cfg, s))
      && (FaultOf(cfg, command, s).None? ==> (Viable(cfg, s) <==> !after.Closed? && HeaderAgrees(after)))
  {
    SearchIsRun(cfg, Fresh(command), s);
    if Viable(cfg, s) {
      ViableIsNotRejected(cfg, command, s);
    } else if Run(cfg, Fresh(command), s).Alive() && HeaderAgrees(Run(cfg, Fresh(command), s).state) {
      AliveIsViable(cfg, command, s);
    }
  }

  /** Where being refused and not being a prefix differ: behind the line of a command that announces a
      size, a size byte that cannot start that size has been read, is not refused yet, and no
      conversation starts so. */
  lemma WrongSizeByteIsNotRefusedYet(cfg: Config, command: nat, line: bytes, x: byte)
    requires WellFormedLine(line) && line[0] == LOWER_B && |line| + 1 <= LINE_CAPACITY
    requires |Arguments(line + [NEWLINE])| <= MAX_ARGUMENTS
    requires Announced(cfg, line) != 0 && x != BigEndian(Announced(cfg, line))[0]
    ensures var s := line + [NEWLINE] + [0, x];
            Run(cfg, Fresh(command), s).state.GettingHeader? && !Viable(cfg, s)
  {
    var m, s := AfterItemLine(cfg, Fresh(command), line), line + [NEWLINE] + [0, x];
    assert (line + [NEWLINE])[0] == line[0];
    RunLine(cfg, Fresh(command), line);
    RunAppend(cfg, Fresh(command), line + [NEWLINE], [0, x]);
    RunHeaderPart(cfg, m, [0, x]);
    assert [] + [0, x] == [0, x] && [0, x][1..] == [x];
    SearchIsRun(cfg, Fresh(command), s);
    ExactAcceptance(cfg, command, s);
  }

  /** Whatever follows, in three more bytes. */
  ghost predicate RefusedSoon(cfg: Config, m: Machine) {
    forall more: bytes :: |more| >= HEADER_SIZE - 2 ==> Run(cfg, m, more).state.Closed?
  }

  lemma DoomedIsRefusedSoon(cfg: Config, m: Machine)
    requires StateInvariant(m)
    requires m.state.Closed? || (m.state.GettingHeader? && !HeaderAgrees(m.state))
    ensures RefusedSoon(cfg, m)
  {
    forall more: bytes | |more| >= HEADER_SIZE - 2 ensures Run(cfg, m, more).state.Closed? {
      if m.state.Closed? {
        DeadIsFinal(cfg, m, more);
      } else {
        assert |m.state.header| >= 2;
        DisagreeingHeaderIsDoomed(cfg, m, more);
      }
    }
  }

  /** A conversation can always go on, by a line of two bytes. */
  lemma ConversationGoesOn(cfg: Config, s: bytes) returns (longer: bytes)
    requires Viable(cfg, s)
    ensures s <= longer && |longer| >= |s| + 3 && Viable(cfg, longer)
  {
    var items :| AllWellFormed(cfg, items) && s <= EncodeAll(cfg, items);
    var item := Item([BANG, BANG], None);
    EncodeAllAppend(cfg, items, item);
    longer := EncodeAll(cfg, items) + Encode(item);
    assert |Encode(item)| == 3;
    assert longer <= EncodeAll(cfg, items + [item]);
  }

  lemma GoesOn(cfg: Config, m: Machine, more: bytes)
    requires |more| >= HEADER_SIZE - 2 && !Run(cfg, m, more).state.Closed?
    ensures !RefusedSoon(cfg, m)
  {
  }

  lemma ViableIsNotRefusedSoon(cfg: Config, command: nat, s: bytes)
    requires Viable(cfg, s)
    ensures !RefusedSoon(cfg, Run(cfg, Fresh(command), s))
  {
    var longer := ConversationGoesOn(cfg, s);
    var more := longer[|s|..];
    assert longer == s + more;
    ViableIsNotRejected(cfg, command, longer);
    RunAppend(cfg, Fresh(command), s, more);
    GoesOn(cfg, Run(cfg, Fresh(command), s), more);
  }

  /** Exact refusal. A stream without a fault is no prefix of a conversation if and only if it is refused,
      at once or within three more bytes, whatever they are. */
  lemma ExactRefusal(cfg: Config, command: nat, s: bytes)
    requires FaultOf(cfg, command, s).None?
    ensures !Viable(cfg, s) <==> RefusedSoon(cfg, Run(cfg, Fresh(command), s))
  {
    SearchIsRun(cfg, Fresh(command), s);
    ExactAcceptance(cfg, command, s);
    InvariantAlways(cfg, Fresh(command), s);
    if Viable(cfg, s) {
      ViableIsNotRefusedSoon(cfg, command, s);
    } else {
      DoomedIsRefusedSoon(cfg, Run(cfg, Fresh(command), s));
    }
  }
}
