/** The client's requests and what the server does for them: the automaton run on the printed
    requests performs exactly the calls and writes the requests stand for. */
module Requests {
  import opened Bytes
  import opened Protocol
  import opened Tokeniser
  import opened Automaton
  import opened Conversation

  /** One request of the client: a command, its argument list, and the data sent behind it. */
  datatype Request = Request(name: bytes, args: seq<bytes>, data: Option<bytes>)

  predicate CleanArgument(arg: bytes) {
    SEMICOLON !in arg && NEWLINE !in arg && NUL !in arg
  }

  /** What the client must respect: a command name, arguments that can be told apart, a line that
      fits, data exactly behind a `b` command, of the size the handler announces, and a `b` command
      that takes its data or asks for it to be swallowed. */
  predicate Acceptable(cfg: Config, r: Request) {
    && r.name != [] && IsCommandStart(r.name[0])
    && SPACE !in r.name && NEWLINE !in r.name && NUL !in r.name
    && |r.args| <= MAX_ARGUMENTS
    && (forall i :: 0 <= i < |r.args| ==> CleanArgument(r.args[i]))
    && (r.args != [] ==> r.args[0] == [] || r.args[0][0] != SPACE)
    && |RequestLine(r)| <= LINE_CAPACITY
    && (r.data.Some? <==> r.name[0] == LOWER_B)
    && (r.data.Some? ==>
          && |r.data.value| < 0x1_0000_0000
          && var x := Execute(cfg, r.name, r.args);
          && (ExpectedSize(x.size) == 0 || |r.data.value| == ExpectedSize(x.size))
          && (x.size < 0 || x.command == Some(BCORE_WRITE)))
  }

  /** `execute_command`: the name, then a space and the arguments when there are any. */
  function RequestLine(r: Request): (line: bytes)
    ensures line != []
  {
    PrintLine(r.name, if r.args == [] then None else Some(Join(r.args, SEMICOLON)))
  }

  function Print(cfg: Config, r: Request): bytes
    requires Acceptable(cfg, r)
  {
    RequestLine(r) + (if r.data.Some? then EncodeBlock(r.data.value) else [])
  }

  predicate AllAcceptable(cfg: Config, rs: seq<Request>) {
    forall i :: 0 <= i < |rs| ==> Acceptable(cfg, rs[i])
  }

  function PrintAll(cfg: Config, rs: seq<Request>): bytes
    requires AllAcceptable(cfg, rs)
  {
    if rs == [] then [] else Print(cfg, rs[0]) + PrintAll(cfg, rs[1..])
  }

  /** What one request stands for, said without the parser: its handler is called (or an error is
      sent), and the write function gets the data unless the handler refused the request. */
  function EventsOf(cfg: Config, r: Request): seq<Event> {
    var x := Execute(cfg, r.name, r.args);
    [x.event] + (if r.data.Some? && x.size >= 0 then [Written(r.data.value)] else [])
  }

  function AllEventsOf(cfg: Config, rs: seq<Request>): seq<Event> {
    if rs == [] then [] else EventsOf(cfg, rs[0]) + AllEventsOf(cfg, rs[1..])
  }

  function CommandAfter(cfg: Config, command: nat, r: Request): nat {
    Execute(cfg, r.name, r.args).command.GetOr(command)
  }

  function CommandAfterAll(cfg: Config, command: nat, rs: seq<Request>): nat
    decreases |rs|
  {
    if rs == [] then command else CommandAfterAll(cfg, CommandAfter(cfg, command, rs[0]), rs[1..])
  }

  function ItemOf(r: Request): Item {
    Item(RequestLine(r)[..|RequestLine(r)| - 1], r.data)
  }

  /** A request is a well-formed item of a conversation, and its tokens are the request's own. */
  lemma RequestIsItem(cfg: Config, r: Request)
    requires Acceptable(cfg, r)
    ensures ItemOf(r).line + [NEWLINE] == RequestLine(r)
    ensures Name(RequestLine(r)) == r.name && Arguments(RequestLine(r)) == r.args
    ensures WellFormed(cfg, ItemOf(r)) && Encode(ItemOf(r)) == Print(cfg, r)
  {
    var arg := Join(r.args, SEMICOLON);
    var line := ItemOf(r).line;
    assert line == r.name + (if r.args == [] then [] else [SPACE] + arg);
    TokeniserInvertsPrinter(r.name, r.args);
    JoinedIsNewlineFree(r.args);
  }

  /** The machine that has performed these events and waits for the next command. */
  function Served(m: Machine, command: nat, events: seq<Event>): Machine {
    Machine(WaitingForCommand, command, m.log + events)
  }

  lemma LineOfRequest(cfg: Config, m: Machine, r: Request)
    requires Acceptable(cfg, r)
    ensures var x := Execute(cfg, r.name, r.args);
            AfterItemLine(cfg, m, ItemOf(r).line) ==
            Machine(if r.data.Some? then ExpectingBinaryData(ExpectedSize(x.size), x.size < 0) else WaitingForCommand,
                    CommandAfter(cfg, m.command, r), m.log + [x.event])
  {
    RequestIsItem(cfg, r);
    assert RequestLine(r)[0] == r.name[0];
  }

  lemma AfterRequest(cfg: Config, m: Machine, r: Request)
    requires Acceptable(cfg, r) && WellFormed(cfg, ItemOf(r))
    ensures AfterItem(cfg, m, ItemOf(r)) == Served(m, CommandAfter(cfg, m.command, r), EventsOf(cfg, r))
  {
    var x := Execute(cfg, r.name, r.args);
    var n := AfterItemLine(cfg, m, ItemOf(r).line);
    LineOfRequest(cfg, m, r);
    if r.data.Some? {
      assert AfterItem(cfg, m, ItemOf(r)) == CompleteBlock(n, r.data.value, x.size < 0);
      assert m.log + [x.event] + [Written(r.data.value)] == m.log + ([x.event] + [Written(r.data.value)]);
    }
    assert [x.event] + [] == [x.event];
  }

  /** One request, from a machine that waits: its events, in order, and the machine waits again. */
  lemma RequestRoundTrip(cfg: Config, m: Machine, r: Request)
    requires m.state.WaitingForCommand? && Acceptable(cfg, r)
    ensures Settle(Run(cfg, m, Print(cfg, r))) == Served(m, CommandAfter(cfg, m.command, r), EventsOf(cfg, r))
  {
    RequestIsItem(cfg, r);
    RunItem(cfg, m, ItemOf(r));
    AfterRequest(cfg, m, r);
  }

  lemma FirstRequest(cfg: Config, m: Machine, r: Request)
    requires Settle(m).state.WaitingForCommand? && Acceptable(cfg, r)
    ensures Settle(Run(cfg, m, Print(cfg, r))) ==
            Served(Settle(m), CommandAfter(cfg, Settle(m).command, r), EventsOf(cfg, r))
  {
    RequestRoundTrip(cfg, Settle(m), r);
    SettleIsInvisible(cfg, m, Print(cfg, r));
  }

  lemma ServedTwice(m: Machine, c1: nat, e1: seq<Event>, c2: nat, e2: seq<Event>)
    ensures Served(Served(m, c1, e1), c2, e2) == Served(m, c2, e1 + e2)
  {
    assert m.log + e1 + e2 == m.log + (e1 + e2);
  }

  /** Any list of requests, printed and parsed: exactly those handler calls with those arguments and
      one write per accepted block with the same payload, in order. The last block, when it has size
      zero, is settled by the next byte. */
  lemma {:induction false} ConversationRoundTrip(cfg: Config, m: Machine, rs: seq<Request>)
    requires Settle(m).state.WaitingForCommand? && AllAcceptable(cfg, rs)
    ensures Settle(Run(cfg, m, PrintAll(cfg, rs))) ==
            Served(Settle(m), CommandAfterAll(cfg, Settle(m).command, rs), AllEventsOf(cfg, rs))
    decreases |rs|
  {
    if rs == [] {
      assert Settle(m).log + [] == Settle(m).log;
    } else {
      var first, rest := Print(cfg, rs[0]), PrintAll(cfg, rs[1..]);
      var next := Run(cfg, m, first);
      FirstRequest(cfg, m, rs[0]);
      var c := CommandAfter(cfg, Settle(m).command, rs[0]);
      assert Settle(next) == Served(Settle(m), c, EventsOf(cfg, rs[0]));
      ConversationRoundTrip(cfg, next, rs[1..]);
      ServedTwice(Settle(m), c, EventsOf(cfg, rs[0]), CommandAfterAll(cfg, c, rs[1..]), AllEventsOf(cfg, rs[1..]));
      RunAppend(cfg, m, first, rest);
    }
  }

  lemma {:induction false} EventsAppend(cfg: Config, a: seq<Request>, b: seq<Request>)
    ensures AllEventsOf(cfg, a + b) == AllEventsOf(cfg, a) + AllEventsOf(cfg, b)
  {
    if a == [] {
      assert a + b == b;
    } else {
      assert (a + b)[0] == a[0] && (a + b)[1..] == a[1..] + b;
      EventsAppend(cfg, a[1..], b);
    }
  }

  lemma PartsAcceptable(cfg: Config, a: seq<Request>, r: Request, b: seq<Request>)
    requires AllAcceptable(cfg, a + [r] + b)
    ensures AllAcceptable(cfg, a) && Acceptable(cfg, r) && AllAcceptable(cfg, b)
  {
    var all := a + [r] + b;
    assert all[|a|] == r;
    forall i | 0 <= i < |a| ensures Acceptable(cfg, a[i]) {
      assert a[i] == all[i];
    }
    forall i | 0 <= i < |b| ensures Acceptable(cfg, b[i]) {
      assert b[i] == all[|a| + 1 + i];
    }
  }

  lemma EventsAround(cfg: Config, a: seq<Request>, r: Request, b: seq<Request>)
    ensures AllEventsOf(cfg, a + [r] + b) == AllEventsOf(cfg, a) + EventsOf(cfg, r) + AllEventsOf(cfg, b)
  {
    EventsAppend(cfg, a + [r], b);
    EventsAppend(cfg, a, [r]);
    assert [r][1..] == [];
    assert AllEventsOf(cfg, [r]) == EventsOf(cfg, r) + [] == EventsOf(cfg, r);
  }

  /** The round trip from a connection just accepted. */
  lemma ServedFresh(cfg: Config, command: nat, rs: seq<Request>)
    requires AllAcceptable(cfg, rs)
    ensures var served := Settle(Run(cfg, Fresh(command), PrintAll(cfg, rs)));
            served.state == WaitingForCommand && served.log == AllEventsOf(cfg, rs)
  {
    ConversationRoundTrip(cfg, Fresh(command), rs);
    assert [] + AllEventsOf(cfg, rs) == AllEventsOf(cfg, rs);
  }

  lemma RefusedEvents(cfg: Config, r: Request)
    requires Execute(cfg, r.name, r.args).size < 0
    ensures EventsOf(cfg, r) == [Execute(cfg, r.name, r.args).event]
  {
  }

  lemma RefusedSize(cfg: Config, r: Request)
    requires Acceptable(cfg, r) && r.data.Some? && Execute(cfg, r.name, r.args).size < 0
    ensures var n := -(Execute(cfg, r.name, r.args).size as int);
            n < 0x1_0000_0000 ==> |r.data.value| == n
  {
    var size := Execute(cfg, r.name, r.args).size;
    assert -(size as int) < 0x1_0000_0000 ==> ExpectedSize(size) == -(size as int);
  }

  /** Swallow and resynchronise. When the handler of a `b` request returns -n, its n-byte block is
      consumed without a write and every other request is served as if the refused one were not
      there: only its own handler call stands between their events. */
  lemma RefusedRequestLeavesNoTrace(cfg: Config, command: nat, before: seq<Request>, refused: Request,
                                    after: seq<Request>)
    requires AllAcceptable(cfg, before + [refused] + after)
    requires refused.data.Some? && Execute(cfg, refused.name, refused.args).size < 0
    ensures AllAcceptable(cfg, before) && AllAcceptable(cfg, after)
    ensures var n := -(Execute(cfg, refused.name, refused.args).size as int);
            n < 0x1_0000_0000 ==> |refused.data.value| == n
    ensures var served := Settle(Run(cfg, Fresh(command), PrintAll(cfg, before + [refused] + after)));
            && served.state == WaitingForCommand
            && served.log == AllEventsOf(cfg, before)
                             + [Execute(cfg, refused.name, refused.args).event] + AllEventsOf(cfg, after)
  {
    var all := before + [refused] + after;
    PartsAcceptable(cfg, before, refused, after);
    ServedFresh(cfg, command, all);
    EventsAround(cfg, before, refused, after);
    RefusedEvents(cfg, refused);
    RefusedSize(cfg, refused);
  }
}
