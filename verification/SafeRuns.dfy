/** Which runs stay in defined behaviour, judged by the bytes that each client will be read. */
module SafeRuns {
  import opened Bytes
  import opened Protocol
  import opened Automaton
  import opened Requests
  import opened Reads
  import opened Deliveries
  import opened ServerModel
  import opened ServerRuns

  /** The reads do not take this client's parser out of defined behaviour. */
  predicate Harmless(cfg: Config, m: Machine, chunks: seq<bytes>) {
    !TakeReads(cfg, m, chunks).state.Broken?
  }

  lemma {:induction false} AloneIsLost(cfg: Config, m: Machine, fd: int, inputs: seq<Input>)
    requires !m.state.Broken?
    ensures Alone(cfg, Open(m), fd, inputs).Lost? <==> !Harmless(cfg, m, Delivered(fd, inputs))
    decreases |inputs|
  {
    if inputs == [] {
    } else {
      var revents, data := inputs[0].revents(fd), inputs[0].received(fd);
      match FateOf(cfg, m, revents, data) {
        case Stays(after) =>
          AloneIsLost(cfg, after, fd, inputs[1..]);
        case Leaves(after) =>
          if revents.readable && !HungUp(revents) && data.Some? && data.value != [] {
            ClosedTakesNothing(cfg, after, Delivered(fd, inputs[1..]));
          }
        case Breaks =>
          BrokenTakesNothing(cfg, TakeRead(cfg, m, data.value), Delivered(fd, inputs[1..]));
      }
    }
  }

  /** What the connection offered in turn j will be read. */
  function ReadsOfNewcomer(inputs: seq<Input>, j: nat): seq<bytes>
    requires j < |inputs|
  {
    if inputs[j].incoming.Some? then Delivered(inputs[j].incoming.value, inputs[j + 1..]) else []
  }

  /** Whatever command its slot holds, no connection still to come meets a fault with its reads. */
  ghost predicate NewcomersAreHarmless(cfg: Config, inputs: seq<Input>) {
    forall j, c: nat :: 0 <= j < |inputs| ==> FaultOfReads(cfg, c, ReadsOfNewcomer(inputs, j)).None?
  }

  ghost predicate EverybodyIsHarmless(cfg: Config, s: Server, inputs: seq<Input>) {
    && NewcomersAreHarmless(cfg, inputs)
    && forall k :: 0 <= k < |s.slots| && s.slots[k].Taken? ==>
         Harmless(cfg, s.slots[k].machine, Delivered(s.slots[k].fd, inputs))
  }

  lemma NewcomerIsHarmless(cfg: Config, inputs: seq<Input>, c: nat)
    requires NewcomersAreHarmless(cfg, inputs) && inputs != [] && inputs[0].incoming.Some?
    ensures Harmless(cfg, Fresh(c), Delivered(inputs[0].incoming.value, inputs[1..]))
  {
    var chunks := ReadsOfNewcomer(inputs, 0);
    assert FaultOfReads(cfg, c, chunks).None?;
    DeliveryFaultsAreExact(cfg, c, chunks, CopyPastBlock);
  }

  lemma LaterNewcomersAreHarmless(cfg: Config, inputs: seq<Input>)
    requires NewcomersAreHarmless(cfg, inputs) && inputs != []
    ensures NewcomersAreHarmless(cfg, inputs[1..])
  {
    forall j, c: nat | 0 <= j < |inputs[1..]| ensures FaultOfReads(cfg, c, ReadsOfNewcomer(inputs[1..], j)).None? {
      assert inputs[1..][j + 1..] == inputs[j + 2..];
      assert ReadsOfNewcomer(inputs[1..], j) == ReadsOfNewcomer(inputs, j + 1);
    }
  }

  /** A client that is read without harm is not what breaks this turn, and stays harmless. */
  lemma HarmlessFate(cfg: Config, m: Machine, fd: int, inputs: seq<Input>)
    requires inputs != [] && Harmless(cfg, m, Delivered(fd, inputs))
    ensures match FateOf(cfg, m, inputs[0].revents(fd), inputs[0].received(fd))
      case Stays(after) => Harmless(cfg, after, Delivered(fd, inputs[1..]))
      case Leaves(_) => true
      case Breaks => false
  {
    var revents, data := inputs[0].revents(fd), inputs[0].received(fd);
    if FateOf(cfg, m, revents, data).Breaks? {
      BrokenTakesNothing(cfg, TakeRead(cfg, m, data.value), Delivered(fd, inputs[1..]));
    }
  }

  lemma HarmlessTurn(cfg: Config, s: Server, inputs: seq<Input>)
    requires Agree(s) && inputs != [] && Possible(s, inputs[0]) && EverybodyIsHarmless(cfg, s, inputs)
    ensures match Round(cfg, s, inputs[0])
      case Crashed => false
      case Running(t) => EverybodyIsHarmless(cfg, t, inputs[1..])
  {
    RoundIsPointwise(cfg, s, inputs[0]);
    LaterNewcomersAreHarmless(cfg, inputs);
    forall k | 0 <= k < SLOTS
      ensures s.slots[k].Taken? ==> !SlotFate(cfg, s.slots[k], inputs[0].revents, inputs[0].received).Breaks?
      ensures Round(cfg, s, inputs[0]).Running? ==>
        var slot := Round(cfg, s, inputs[0]).server.slots[k];
        slot.Taken? ==> Harmless(cfg, slot.machine, Delivered(slot.fd, inputs[1..]))
    {
      if s.slots[k].Taken? {
        HarmlessFate(cfg, s.slots[k].machine, s.slots[k].fd, inputs);
      } else if inputs[0].incoming.Some? {
        NewcomerIsHarmless(cfg, inputs, s.slots[k].stale);
      }
      assert Round(cfg, s, inputs[0]).Running? ==> SlotRounded(cfg, s, inputs[0], Round(cfg, s, inputs[0]), k);
    }
  }

  /** A run stays in defined behaviour when each client's own reads do, whoever it shares the server
      with. */
  lemma {:induction false} HarmlessRun(cfg: Config, s: Server, inputs: seq<Input>)
    requires Agree(s) && AllPossible(cfg, s, inputs) && EverybodyIsHarmless(cfg, s, inputs)
    ensures Exec(cfg, s, inputs).Running?
    decreases |inputs|
  {
    if inputs == [] {
    } else {
      HarmlessTurn(cfg, s, inputs);
      RoundIsPointwise(cfg, s, inputs[0]);
      HarmlessRun(cfg, Round(cfg, s, inputs[0]).server, inputs[1..]);
    }
  }

  /** And conversely a client that is connected and does not survive its own reads ends the run. */
  lemma HarmEndsRun(cfg: Config, s: Server, k: nat, inputs: seq<Input>)
    requires Agree(s) && AllPossible(cfg, s, inputs) && k < SLOTS && s.slots[k].Taken?
    requires !s.slots[k].machine.state.Broken? && !Harmless(cfg, s.slots[k].machine, Delivered(s.slots[k].fd, inputs))
    ensures Exec(cfg, s, inputs).Crashed?
  {
    if Exec(cfg, s, inputs).Running? {
      ClientsAreIsolated(cfg, s, k, inputs);
      AloneIsLost(cfg, s.slots[k].machine, s.slots[k].fd, inputs);
    }
  }

  lemma {:induction false} TakeReadsAppend(cfg: Config, m: Machine, a: seq<bytes>, b: seq<bytes>)
    ensures TakeReads(cfg, m, a + b) == TakeReads(cfg, TakeReads(cfg, m, a), b)
    decreases |a|
  {
    if a == [] {
      assert a + b == b;
    } else {
      assert (a + b)[0] == a[0] && (a + b)[1..] == a[1..] + b;
      TakeReadsAppend(cfg, TakeRead(cfg, m, a[0]), a[1..], b);
    }
  }

  /** The reads of a client that sends acceptable requests one at a time, as far as it has come. */
  ghost predicate Careful(cfg: Config, chunks: seq<bytes>) {
    exists rs, deliveries ::
      AllAcceptable(cfg, rs) && OneAtATime(cfg, rs, deliveries) && chunks <= Concat(deliveries)
  }

  lemma CarefulIsHarmless(cfg: Config, command: nat, chunks: seq<bytes>)
    requires Careful(cfg, chunks)
    ensures Harmless(cfg, Fresh(command), chunks) && FaultOfReads(cfg, command, chunks).None?
  {
    var rs, deliveries :|
      AllAcceptable(cfg, rs) && OneAtATime(cfg, rs, deliveries) && chunks <= Concat(deliveries);
    var all := Concat(deliveries);
    LockstepConversation(cfg, command, rs, deliveries);
    assert all == chunks + all[|chunks|..];
    TakeReadsAppend(cfg, Fresh(command), chunks, all[|chunks|..]);
    if TakeReads(cfg, Fresh(command), chunks).state.Broken? {
      BrokenTakesNothing(cfg, TakeReads(cfg, Fresh(command), chunks), all[|chunks|..]);
    }
    DeliveryFaultsAreExact(cfg, command, chunks, CopyPastBlock);
  }

  /** A server that only ever meets careful clients, in any number and interleaving, runs on, and its
      table, descriptors and callbacks agree. */
  lemma CarefulClientsAreSafe(cfg: Config, listening: int, inputs: seq<Input>)
    requires AllPossible(cfg, Start(listening), inputs)
    requires forall j :: 0 <= j < |inputs| ==> Careful(cfg, ReadsOfNewcomer(inputs, j))
    ensures Exec(cfg, Start(listening), inputs).Running? && Agree(Exec(cfg, Start(listening), inputs).server)
  {
    forall j, c: nat | 0 <= j < |inputs| ensures FaultOfReads(cfg, c, ReadsOfNewcomer(inputs, j)).None? {
      CarefulIsHarmless(cfg, c, ReadsOfNewcomer(inputs, j));
    }
    StartAgrees(listening);
    HarmlessRun(cfg, Start(listening), inputs);
    StartedServerAgrees(cfg, listening, inputs);
  }

  /** The whole server, seen by one client. Among any others whose own reads do no harm, in any slot, a
      client that sends its requests one at a time, in any reads, is served exactly these, in order. */
  lemma ClientIsServed(cfg: Config, s: Server, k: nat, inputs: seq<Input>, rs: seq<Request>,
                       deliveries: seq<seq<bytes>>)
    requires Agree(s) && k < SLOTS && s.slots[k].Taken?
    requires s.slots[k].machine == Fresh(s.slots[k].machine.command)
    requires AllPossible(cfg, s, inputs) && NewcomersAreHarmless(cfg, inputs)
    requires forall l :: 0 <= l < SLOTS && l != k && s.slots[l].Taken? ==>
      Harmless(cfg, s.slots[l].machine, Delivered(s.slots[l].fd, inputs))
    requires AllAcceptable(cfg, rs) && OneAtATime(cfg, rs, deliveries)
    requires Delivered(s.slots[k].fd, inputs) == Concat(deliveries)
    ensures Exec(cfg, s, inputs).Running?
    ensures var end := Alone(cfg, Open(s.slots[k].machine), s.slots[k].fd, inputs);
      && EndsAs(s, Exec(cfg, s, inputs).server, k, end)
      && Settle(end.machine).state == WaitingForCommand && Settle(end.machine).log == AllEventsOf(cfg, rs)
  {
    assert Careful(cfg, Delivered(s.slots[k].fd, inputs));
    CarefulIsHarmless(cfg, s.slots[k].machine.command, Delivered(s.slots[k].fd, inputs));
    HarmlessRun(cfg, s, inputs);
    ServedInRun(cfg, s, k, inputs, rs, deliveries);
  }
}
