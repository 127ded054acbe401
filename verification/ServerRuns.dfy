/** What holds of the server over whole runs. */
module ServerRuns {
  import opened Bytes
  import opened Protocol
  import opened Automaton
  import opened Requests
  import opened Reads
  import opened SlotReuse
  import opened ServerModel

  // ---- one pass ----

  /** The fate of a slot, when its client is polled with these events. */
  function SlotFate(cfg: Config, slot: Slot, revents: int -> Revents, received: int -> Option<bytes>): Fate
    requires slot.Taken?
  {
    FateOf(cfg, slot.machine, revents(slot.fd), received(slot.fd))
  }

  function SlotAfter(cfg: Config, slot: Slot, revents: int -> Revents, received: int -> Option<bytes>): Slot {
    if slot.Free? then slot
    else
      match SlotFate(cfg, slot, revents, received)
      case Stays(m) => Taken(slot.fd, m)
      case Leaves(m) => Free(m.command)
      case Breaks => slot
  }

  /** Slot k holds a client that the loop still has to look at from entry i on. */
  predicate Pending(s: Server, i: nat, k: int) {
    0 <= k < |s.slots| && s.slots[k].Taken? && Polls(s.polled, i, s.slots[k].fd)
  }

  ghost predicate Flagged(polled: seq<PollFd>, i: nat, revents: int -> Revents) {
    forall j :: i <= j < |polled| ==> polled[j].revents == revents(polled[j].fd)
  }

  /** The machines that clients on this descriptor left behind, in the order of the callbacks. */
  function Removals(calls: seq<Callback>, fd: int): seq<Machine> {
    if calls == [] then []
    else (if calls[0].Removed? && calls[0].fd == fd then [calls[0].last] else []) + Removals(calls[1..], fd)
  }

  function RemovedBetween(before: seq<Callback>, after: seq<Callback>, fd: int): seq<Machine>
    requires before <= after
  {
    Removals(after[|before|..], fd)
  }

  lemma {:induction false} RemovalsAppend(a: seq<Callback>, b: seq<Callback>, fd: int)
    ensures Removals(a + b, fd) == Removals(a, fd) + Removals(b, fd)
  {
    if a == [] {
      assert a + b == b;
    } else {
      assert (a + b)[0] == a[0] && (a + b)[1..] == a[1..] + b;
      RemovalsAppend(a[1..], b, fd);
    }
  }

  lemma RemovedOnTheWay(a: seq<Callback>, b: seq<Callback>, c: seq<Callback>, fd: int)
    requires a <= b <= c
    ensures RemovedBetween(a, c, fd) == RemovedBetween(a, b, fd) + RemovedBetween(b, c, fd)
  {
    assert c[|a|..] == b[|a|..] + c[|b|..];
    RemovalsAppend(b[|a|..], c[|b|..], fd);
  }

  lemma RemovedByOne(calls: seq<Callback>, c: Callback, fd: int)
    ensures RemovedBetween(calls, calls + [c], fd) == if c.Removed? && c.fd == fd then [c.last] else []
  {
    var since := (calls + [c])[|calls|..];
    assert since == [c] && since[1..] == [];
    assert Removals(since[1..], fd) == [];
  }

  /** What a client that met this fate has left behind. */
  function LeftBehind(fate: Fate): seq<Machine> {
    if fate.Leaves? then [fate.machine] else []
  }

  /** Nobody pending breaks; every pending slot gets its own fate, once, and every other slot stays. */
  ghost predicate PassedAs(cfg: Config, s: Server, i: nat, revents: int -> Revents,
                           received: int -> Option<bytes>, t: Server) {
    && |t.slots| == |s.slots| && s.calls <= t.calls
    && (forall k :: 0 <= k < |s.slots| ==>
          t.slots[k] == if Pending(s, i, k) then SlotAfter(cfg, s.slots[k], revents, received) else s.slots[k])
    && (forall k :: Pending(s, i, k) ==>
          var fate := SlotFate(cfg, s.slots[k], revents, received);
          !fate.Breaks? && RemovedBetween(s.calls, t.calls, s.slots[k].fd) == LeftBehind(fate))
    && (forall fd :: !Polls(s.polled, i, fd) ==> RemovedBetween(s.calls, t.calls, fd) == [])
  }

  ghost predicate SomebodyBreaks(cfg: Config, s: Server, i: nat, revents: int -> Revents,
                                 received: int -> Option<bytes>) {
    exists k :: Pending(s, i, k) && SlotFate(cfg, s.slots[k], revents, received).Breaks?
  }

  /** After entry i is kept, the pending slots are those behind it. */
  lemma PendingAfterUpdate(s: Server, i: nat, k: nat, m: Machine)
    requires Agree(s) && 1 <= i < |s.polled| && k < |s.slots|
    requires s.slots[k].Taken? && s.slots[k].fd == s.polled[i].fd
    ensures var t := Update(s, k, s.polled[i].fd, m);
            forall l :: Pending(t, i + 1, l) <==> Pending(s, i, l) && l != k
  {
    var fd, t := s.polled[i].fd, Update(s, k, s.polled[i].fd, m);
    forall l ensures Pending(t, i + 1, l) <==> Pending(s, i, l) && l != k {
      if l != k && Pending(s, i, l) {
        var j :| i <= j < |s.polled| && s.polled[j].fd == s.slots[l].fd;
        assert s.slots[l].fd != fd && j != i;
      }
    }
  }

  lemma PendingAfterDrop(s: Server, i: nat, k: nat, last: Machine)
    requires Agree(s) && 1 <= i < |s.polled| && k < |s.slots|
    requires s.slots[k].Taken? && s.slots[k].fd == s.polled[i].fd
    ensures var t := Drop(s, k, i, last);
            forall l :: Pending(t, i, l) <==> Pending(s, i, l) && l != k
  {
    SwapRemoveMembers(s.polled, i, i);
    var t := Drop(s, k, i, last);
    forall l ensures Pending(t, i, l) <==> Pending(s, i, l) && l != k {
      if l != k && 0 <= l < |s.slots| {
        assert t.slots[l] == s.slots[l];
        assert s.slots[l].Taken? ==> s.slots[l].fd != s.polled[i].fd;
      }
    }
  }

  lemma FlaggedAfterDrop(polled: seq<PollFd>, i: nat, revents: int -> Revents)
    requires DistinctPolled(polled) && 1 <= i < |polled| && Flagged(polled, i, revents)
    ensures Flagged(SwapRemove(polled, i), i, revents)
  {
    SwapRemoveMembers(polled, i, i);
    var r := SwapRemove(polled, i);
    forall j | i <= j < |r| ensures r[j].revents == revents(r[j].fd) {
      assert r[j] in polled[i..];
      var l :| 0 <= l < |polled[i..]| && polled[i..][l] == r[j];
      assert polled[i + l] == r[j];
    }
  }

  /** What a pass from entry i on must come to. */
  ghost predicate PassResult(cfg: Config, s: Server, i: nat, revents: int -> Revents,
                             received: int -> Option<bytes>, r: Status) {
    match r
    case Crashed => SomebodyBreaks(cfg, s, i, revents, received)
    case Running(t) => Agree(t) && PassedAs(cfg, s, i, revents, received, t)
  }

  /** If entry i leaves, the rest of the pass is the pass over the shortened array. */
  lemma AfterLeaving(cfg: Config, s: Server, i: nat, revents: int -> Revents, received: int -> Option<bytes>,
                     k: nat, last: Machine, r: Status)
    requires Agree(s) && 1 <= i < |s.polled| && k < |s.slots|
    requires s.slots[k].Taken? && s.slots[k].fd == s.polled[i].fd
    requires SlotFate(cfg, s.slots[k], revents, received) == Leaves(last)
    requires PassResult(cfg, Drop(s, k, i, last), i, revents, received, r)
    ensures PassResult(cfg, s, i, revents, received, r)
  {
    var t, gone := Drop(s, k, i, last), s.polled[i].fd;
    PendingAfterDrop(s, i, k, last);
    SwapRemoveMembers(s.polled, i, i);
    assert Polls(s.polled, i, gone);
    if r.Crashed? {
      var l :| Pending(t, i, l) && SlotFate(cfg, t.slots[l], revents, received).Breaks?;
      assert Pending(s, i, l) && s.slots[l] == t.slots[l];
    } else {
      var after := r.server.calls;
      forall fd
        ensures RemovedBetween(s.calls, after, fd)
                == (if fd == gone then [last] else []) + RemovedBetween(t.calls, after, fd)
      {
        RemovedByOne(s.calls, Removed(gone, last), fd);
        RemovedOnTheWay(s.calls, t.calls, after, fd);
      }
      forall l | Pending(s, i, l) && l != k
        ensures Pending(t, i, l) && s.slots[l] == t.slots[l] && s.slots[l].fd != gone
      {
      }
      assert Pending(s, i, k);
    }
  }

  /** If entry i stays, the rest of the pass starts behind it. */
  lemma AfterStaying(cfg: Config, s: Server, i: nat, revents: int -> Revents, received: int -> Option<bytes>,
                     k: nat, m: Machine, r: Status)
    requires Agree(s) && 1 <= i < |s.polled| && k < |s.slots|
    requires s.slots[k].Taken? && s.slots[k].fd == s.polled[i].fd
    requires SlotFate(cfg, s.slots[k], revents, received) == Stays(m)
    requires PassResult(cfg, Update(s, k, s.slots[k].fd, m), i + 1, revents, received, r)
    ensures PassResult(cfg, s, i, revents, received, r)
  {
    var t := Update(s, k, s.slots[k].fd, m);
    PendingAfterUpdate(s, i, k, m);
    if r.Crashed? {
      var l :| Pending(t, i + 1, l) && SlotFate(cfg, t.slots[l], revents, received).Breaks?;
      assert Pending(s, i, l) && s.slots[l] == t.slots[l];
    } else {
      forall l | Pending(s, i, l) && l != k ensures Pending(t, i + 1, l) && s.slots[l] == t.slots[l] {
      }
      assert Pending(s, i, k) && !Polls(t.polled, i + 1, s.slots[k].fd);
    }
  }

  lemma FlaggedNext(cfg: Config, s: Server, i: nat, revents: int -> Revents, received: int -> Option<bytes>)
    requires Agree(s) && 1 <= i < |s.polled| && Flagged(s.polled, i, revents)
    ensures match EntryTurn(cfg, s, i, received)
      case Halts => true
      case Goes(t, next) => Flagged(t.polled, next, revents)
  {
    FlaggedAfterDrop(s.polled, i, revents);
  }

  /** What one turn leaves to be done is what the whole pass had to do, less entry i. */
  lemma TurnCarries(cfg: Config, s: Server, i: nat, revents: int -> Revents, received: int -> Option<bytes>, r: Status)
    requires Agree(s) && 1 <= i < |s.polled| && Flagged(s.polled, i, revents)
    requires match EntryTurn(cfg, s, i, received)
      case Halts => r == Crashed
      case Goes(t, next) => PassResult(cfg, t, next, revents, received, r)
    ensures PassResult(cfg, s, i, revents, received, r)
  {
    var fd := s.polled[i].fd;
    var k := FindTaken(s.slots, fd);
    PolledIsFound(s, i);
    assert Polls(s.polled, i, fd);
    match SlotFate(cfg, s.slots[k], revents, received) {
      case Breaks => assert Pending(s, i, k);
      case Leaves(last) => AfterLeaving(cfg, s, i, revents, received, k, last, r);
      case Stays(m) => AfterStaying(cfg, s, i, revents, received, k, m, r);
    }
  }

  /** The swap-removing loop is the same as giving every polled client its own fate, once and
      independently; and the table stays in agreement. */
  lemma {:induction false} PassIsPointwise(cfg: Config, s: Server, i: nat, revents: int -> Revents,
                                           received: int -> Option<bytes>)
    requires Agree(s) && 1 <= i && Flagged(s.polled, i, revents)
    ensures PassResult(cfg, s, i, revents, received, Pass(cfg, s, i, received))
    decreases |s.polled| - i
  {
    if i >= |s.polled| {
    } else {
      EntryTurnAgrees(cfg, s, i, received);
      FlaggedNext(cfg, s, i, revents, received);
      match EntryTurn(cfg, s, i, received) {
        case Halts =>
        case Goes(t, next) => PassIsPointwise(cfg, t, next, revents, received);
      }
      TurnCarries(cfg, s, i, revents, received, Pass(cfg, s, i, received));
    }
  }

  // ---- one round ----

  /** The events the pass sees: a connection accepted in this turn has none yet. */
  function Seen(input: Input): int -> Revents {
    fd => if input.incoming == Some(fd) then QUIET else input.revents(fd)
  }

  function Greeted(s: Server, input: Input): Server {
    Greet(s.(polled := Poll(s.polled, input.revents)), input.incoming)
  }

  lemma PollAgrees(s: Server, revents: int -> Revents)
    requires Agree(s)
    ensures Agree(s.(polled := Poll(s.polled, revents)))
  {
    var polled := Poll(s.polled, revents);
    forall fd ensures Polls(polled, 1, fd) <==> Polls(s.polled, 1, fd) {
      if Polls(s.polled, 1, fd) {
        var j :| 1 <= j < |s.polled| && s.polled[j].fd == fd;
        assert polled[j].fd == fd;
      }
    }
  }

  lemma GreetedAgrees(s: Server, input: Input)
    requires Agree(s) && Possible(s, input)
    ensures Agree(Greeted(s, input)) && Flagged(Greeted(s, input).polled, 1, Seen(input))
    ensures |Greeted(s, input).polled| <= POLL_CAPACITY
  {
    var polled := s.(polled := Poll(s.polled, input.revents));
    PollAgrees(s, input.revents);
    CountBound(s.slots);
    if input.incoming.Some? {
      AcceptAgrees(polled, input.incoming.value);
    }
    forall j | 1 <= j < |s.polled| ensures input.incoming != Some(s.polled[j].fd) {
      assert Polls(s.polled, 1, s.polled[j].fd);
    }
  }

  /** What a turn makes of slot k. */
  ghost predicate SlotRounded(cfg: Config, s: Server, input: Input, r: Status, k: nat)
    requires Agree(s) && k < SLOTS
  {
    r.Running? ==>
      && |r.server.slots| == SLOTS
      && r.server.slots[k] == (
           if s.slots[k].Taken? then SlotAfter(cfg, s.slots[k], input.revents, input.received)
           else if input.incoming.Some? && k == FindFree(s.slots)
           then Taken(input.incoming.value, Fresh(s.slots[k].stale))
           else s.slots[k])
      && (s.slots[k].Taken? ==>
            var fate := SlotFate(cfg, s.slots[k], input.revents, input.received);
            && !fate.Breaks? && s.calls <= r.server.calls
            && RemovedBetween(s.calls, r.server.calls, s.slots[k].fd) == LeftBehind(fate))
  }

  lemma AllPending(s: Server, k: nat)
    requires Agree(s) && k < |s.slots|
    ensures Pending(s, 1, k) <==> s.slots[k].Taken?
  {
    if s.slots[k].Taken? {
      TableMembers(s.slots, s.slots[k].fd);
    }
  }

  /** Accepting touches no client that is there, and its callback hands nobody over. */
  lemma GreetedSlots(cfg: Config, s: Server, input: Input, k: nat)
    requires Agree(s) && Possible(s, input) && Agree(Greeted(s, input)) && k < SLOTS
    ensures var slot := Greeted(s, input).slots[k];
      && s.calls <= Greeted(s, input).calls
      && (s.slots[k].Taken? ==> RemovedBetween(s.calls, Greeted(s, input).calls, slot.fd) == [])
      && (Pending(Greeted(s, input), 1, k) <==> slot.Taken?)
      && (s.slots[k].Taken? ==> slot == s.slots[k] && Seen(input)(slot.fd) == input.revents(slot.fd))
      && (s.slots[k].Free? ==>
            slot == if input.incoming.Some? && k == FindFree(s.slots)
                    then Taken(input.incoming.value, Fresh(s.slots[k].stale)) else s.slots[k])
      && (s.slots[k].Free? ==> SlotAfter(cfg, slot, Seen(input), input.received) == slot)
  {
    AllPending(Greeted(s, input), k);
    if s.slots[k].Taken? {
      TableMembers(s.slots, s.slots[k].fd);
      if input.incoming.Some? {
        RemovedByOne(s.calls, Added(input.incoming.value), s.slots[k].fd);
      }
    }
  }

  /** The pass behind a greeting, for one slot. */
  lemma PassRoundsSlot(cfg: Config, s: Server, input: Input, r: Status, k: nat)
    requires Agree(s) && Possible(s, input) && Agree(Greeted(s, input)) && k < SLOTS
    requires PassResult(cfg, Greeted(s, input), 1, Seen(input), input.received, r)
    ensures SlotRounded(cfg, s, input, r, k)
  {
    GreetedSlots(cfg, s, input, k);
    if s.slots[k].Taken? && r.Running? {
      RemovedOnTheWay(s.calls, Greeted(s, input).calls, r.server.calls, s.slots[k].fd);
    }
  }

  /** One turn of the loop: every slot that was taken gets the fate of its own client, whatever the
      others do; a free slot stays free, but the first one takes the new connection with a fresh
      parser; and the table, the polled descriptors and the callbacks agree again. */
  lemma RoundIsPointwise(cfg: Config, s: Server, input: Input)
    requires Agree(s) && Possible(s, input)
    ensures match Round(cfg, s, input)
      case Crashed =>
        exists k :: 0 <= k < SLOTS && s.slots[k].Taken?
                    && SlotFate(cfg, s.slots[k], input.revents, input.received).Breaks?
      case Running(t) =>
        && Agree(t) && s.calls <= t.calls
        && forall k :: 0 <= k < SLOTS ==> SlotRounded(cfg, s, input, Running(t), k)
  {
    var g := Greeted(s, input);
    GreetedAgrees(s, input);
    PassIsPointwise(cfg, g, 1, Seen(input), input.received);
    forall k | 0 <= k < SLOTS ensures SlotRounded(cfg, s, input, Round(cfg, s, input), k) {
      PassRoundsSlot(cfg, s, input, Round(cfg, s, input), k);
    }
    if Round(cfg, s, input).Crashed? {
      var k :| Pending(g, 1, k) && SlotFate(cfg, g.slots[k], Seen(input), input.received).Breaks?;
      GreetedSlots(cfg, s, input, k);
    }
    GreetedSlots(cfg, s, input, 0);
  }

  // ---- runs ----

  /** Table agreement in every reachable state. The polled descriptors are exactly those of the
      taken slots, without duplicates and within the array; no polled descriptor misses its client;
      and add callbacks minus remove callbacks is 1 for a connected descriptor and 0 for any other. */
  lemma {:induction false} TableAgreesAlways(cfg: Config, s: Server, inputs: seq<Input>)
    requires Agree(s) && AllPossible(cfg, s, inputs)
    ensures match Exec(cfg, s, inputs)
      case Running(t) => Agree(t) && |t.slots| == 5 && |t.polled| <= 6 && s.calls <= t.calls
      case Crashed => true
    decreases |inputs|
  {
    CountBound(s.slots);
    if inputs != [] {
      RoundIsPointwise(cfg, s, inputs[0]);
      if Round(cfg, s, inputs[0]).Running? {
        TableAgreesAlways(cfg, Round(cfg, s, inputs[0]).server, inputs[1..]);
      }
    }
  }

  /** In particular in every state that the server reaches from its start. */
  lemma StartedServerAgrees(cfg: Config, listening: int, inputs: seq<Input>)
    requires AllPossible(cfg, Start(listening), inputs)
    ensures match Exec(cfg, Start(listening), inputs)
      case Running(t) => Agree(t) && |t.slots| == 5 && |t.polled| <= 6
      case Crashed => true
  {
    StartAgrees(listening);
    TableAgreesAlways(cfg, Start(listening), inputs);
  }

  // ---- isolation ----

  /** One connection on its own. `Lost`: its bytes broke the server. */
  datatype Connection = Open(machine: Machine) | Gone(machine: Machine) | Lost

  /** The life of one connection when nobody else is there. */
  function Alone(cfg: Config, c: Connection, fd: int, inputs: seq<Input>): Connection
    decreases |inputs|
  {
    if inputs == [] || !c.Open? then c
    else
      var next := match FateOf(cfg, c.machine, inputs[0].revents(fd), inputs[0].received(fd))
                  case Stays(m) => Open(m)
                  case Leaves(m) => Gone(m)
                  case Breaks => Lost;
      Alone(cfg, next, fd, inputs[1..])
  }

  /** How the connection in slot k of s has ended, or stands, in the later state t: open, its machine is
      in its slot and nobody on its descriptor has been removed; gone, its machine was the first to be
      handed over. */
  ghost predicate EndsAs(s: Server, t: Server, k: nat, end: Connection)
    requires k < |s.slots| && s.slots[k].Taken?
  {
    && s.calls <= t.calls
    && var gone := RemovedBetween(s.calls, t.calls, s.slots[k].fd);
    match end
    case Open(m) => gone == [] && k < |t.slots| && t.slots[k] == Taken(s.slots[k].fd, m)
    case Gone(m) => gone != [] && gone[0] == m
    case Lost => false
  }

  /** In any interleaving with other clients, a connection goes through exactly the life it would
      have alone. */
  lemma {:induction false} ClientsAreIsolated(cfg: Config, s: Server, k: nat, inputs: seq<Input>)
    requires Agree(s) && k < SLOTS && s.slots[k].Taken?
    requires AllPossible(cfg, s, inputs) && Exec(cfg, s, inputs).Running?
    ensures EndsAs(s, Exec(cfg, s, inputs).server, k, Alone(cfg, Open(s.slots[k].machine), s.slots[k].fd, inputs))
    decreases |inputs|
  {
    if inputs == [] {
      assert s.calls[|s.calls|..] == [];
    } else {
      var fd, next := s.slots[k].fd, Round(cfg, s, inputs[0]).server;
      RoundIsPointwise(cfg, s, inputs[0]);
      assert SlotRounded(cfg, s, inputs[0], Running(next), k);
      TableAgreesAlways(cfg, next, inputs[1..]);
      RemovedOnTheWay(s.calls, next.calls, Exec(cfg, s, inputs).server.calls, fd);
      match SlotFate(cfg, s.slots[k], inputs[0].revents, inputs[0].received) {
        case Stays(m) => ClientsAreIsolated(cfg, next, k, inputs[1..]);
        case Leaves(m) => assert Alone(cfg, Gone(m), fd, inputs[1..]) == Gone(m);
        case Breaks =>
      }
    }
  }

  /** The reads a connection gets: up to the turn in which it hangs up or its read fails. */
  function Delivered(fd: int, inputs: seq<Input>): seq<bytes>
    decreases |inputs|
  {
    if inputs == [] then []
    else
      var revents, data := inputs[0].revents(fd), inputs[0].received(fd);
      if revents.err || revents.hup then []
      else if !revents.readable then Delivered(fd, inputs[1..])
      else if data.None? || data.value == [] then []
      else [data.value] + Delivered(fd, inputs[1..])
  }

  lemma {:induction false} ClosedTakesNothing(cfg: Config, m: Machine, chunks: seq<bytes>)
    requires m.state.Closed?
    ensures TakeReads(cfg, m, chunks) == m
    decreases |chunks|
  {
    if chunks == [] {
    } else {
      DeadIsFinal(cfg, m, chunks[0]);
      ClosedTakesNothing(cfg, m, chunks[1..]);
    }
  }

  /** A life alone is the parser run on the delivered reads. */
  lemma {:induction false} AloneIsItsReads(cfg: Config, m: Machine, fd: int, inputs: seq<Input>)
    requires !m.state.Broken? && !Alone(cfg, Open(m), fd, inputs).Lost?
    ensures Alone(cfg, Open(m), fd, inputs).machine == TakeReads(cfg, m, Delivered(fd, inputs))
    ensures !TakeReads(cfg, m, Delivered(fd, inputs)).state.Broken?
    decreases |inputs|
  {
    if inputs == [] {
    } else {
      var revents, data := inputs[0].revents(fd), inputs[0].received(fd);
      match FateOf(cfg, m, revents, data) {
        case Stays(after) =>
          AloneIsItsReads(cfg, after, fd, inputs[1..]);
        case Leaves(after) =>
          if revents.readable && !revents.err && !revents.hup && data.Some? && data.value != [] {
            ClosedTakesNothing(cfg, after, Delivered(fd, inputs[1..]));
          }
        case Breaks =>
      }
    }
  }

  lemma EndsAsItsReads(cfg: Config, s: Server, k: nat, inputs: seq<Input>)
    requires Agree(s) && k < SLOTS && s.slots[k].Taken? && !s.slots[k].machine.state.Broken?
    requires AllPossible(cfg, s, inputs) && Exec(cfg, s, inputs).Running?
    ensures var end := Alone(cfg, Open(s.slots[k].machine), s.slots[k].fd, inputs);
      && EndsAs(s, Exec(cfg, s, inputs).server, k, end)
      && end.machine == TakeReads(cfg, s.slots[k].machine, Delivered(s.slots[k].fd, inputs))
      && !end.machine.state.Broken?
  {
    ClientsAreIsolated(cfg, s, k, inputs);
    AloneIsItsReads(cfg, s.slots[k].machine, s.slots[k].fd, inputs);
  }

  /** Isolation and slot reuse together. Whoever else is connected, and whatever command the slot
      still held, the machine of a connection accepted into a slot has seen exactly its own bytes,
      one at a time, on a fresh parser, unless these bytes bring a block before the first command that
      a table knows. */
  lemma ConnectionSeesOnlyItsBytes(cfg: Config, s: Server, k: nat, inputs: seq<Input>)
    requires Agree(s) && k < SLOTS && s.slots[k].Taken?
    requires s.slots[k].machine == Fresh(s.slots[k].machine.command)
    requires AllPossible(cfg, s, inputs) && Exec(cfg, s, inputs).Running?
    ensures var end := Alone(cfg, Open(s.slots[k].machine), s.slots[k].fd, inputs);
      var received := Flatten(Delivered(s.slots[k].fd, inputs));
      && EndsAs(s, Exec(cfg, s, inputs).server, k, end)
      && (!BlockBeforeCommand(cfg, received) ==> SameToClient(end.machine, Run(cfg, Fresh(0), received)))
  {
    var m, chunks := s.slots[k].machine, Delivered(s.slots[k].fd, inputs);
    EndsAsItsReads(cfg, s, k, inputs);
    ChunkInvariance(cfg, m, chunks);
    StaleCommandInvisible(cfg, Flatten(chunks));
  }

  /** A client that keeps to acceptable requests needs no such condition, however far it has come. */
  lemma CarefulClientSeesOnlyItsBytes(cfg: Config, s: Server, k: nat, inputs: seq<Input>, rs: seq<Request>)
    requires Agree(s) && k < SLOTS && s.slots[k].Taken?
    requires s.slots[k].machine == Fresh(s.slots[k].machine.command)
    requires AllPossible(cfg, s, inputs) && Exec(cfg, s, inputs).Running?
    requires AllAcceptable(cfg, rs) && Flatten(Delivered(s.slots[k].fd, inputs)) <= PrintAll(cfg, rs)
    ensures var end := Alone(cfg, Open(s.slots[k].machine), s.slots[k].fd, inputs);
      && EndsAs(s, Exec(cfg, s, inputs).server, k, end)
      && SameToClient(end.machine, Run(cfg, Fresh(0), Flatten(Delivered(s.slots[k].fd, inputs))))
  {
    RequestsDoNotAsk(cfg, rs, Flatten(Delivered(s.slots[k].fd, inputs)));
    ConnectionSeesOnlyItsBytes(cfg, s, k, inputs);
  }

  /** Within a run that stays defined, a client that sends its requests one at a time, in any reads, is
      served exactly these requests, in order. */
  lemma ServedInRun(cfg: Config, s: Server, k: nat, inputs: seq<Input>, rs: seq<Request>,
                    deliveries: seq<seq<bytes>>)
    requires Agree(s) && k < SLOTS && s.slots[k].Taken?
    requires s.slots[k].machine == Fresh(s.slots[k].machine.command)
    requires AllPossible(cfg, s, inputs) && Exec(cfg, s, inputs).Running?
    requires AllAcceptable(cfg, rs) && OneAtATime(cfg, rs, deliveries)
    requires Delivered(s.slots[k].fd, inputs) == Concat(deliveries)
    ensures var end := Alone(cfg, Open(s.slots[k].machine), s.slots[k].fd, inputs);
      && EndsAs(s, Exec(cfg, s, inputs).server, k, end)
      && Settle(end.machine).state == WaitingForCommand && Settle(end.machine).log == AllEventsOf(cfg, rs)
  {
    EndsAsItsReads(cfg, s, k, inputs);
    LockstepConversation(cfg, s.slots[k].machine.command, rs, deliveries);
  }
}
