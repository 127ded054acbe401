/** The poll server on its own storage: five client slots, six poll entries and a count. Its
    methods are proved to advance the state machine of ServerModel. */
module PollServer {
  import opened Bytes
  import opened Protocol
  import opened Automaton
  import opened RequestParser
  import opened ServerModel
  import opened ServerRuns

  /** The slot of the model that a client object stands for. */
  ghost predicate Matches(c: Client, slot: Slot)
    reads c, c.Objects()
  {
    && c.Shape()
    && match slot
       case Free(stale) => c.socketFd == 0 && c.currentCommand == stale
       case Taken(fd, m) => fd != 0 && c.socketFd == fd && c.Valid() && c.Now() == m
  }

  /** What the client has logged, and its command, are those of this machine. */
  ghost predicate LeftWith(c: Client, last: Machine)
    reads c
  {
    c.log == last.log && c.currentCommand == last.command
  }

  /** Separate clients with no connection and no command. */
  ghost predicate EmptyTable(table: seq<Client>, objects: set<object>)
    reads table
  {
    && (forall k :: 0 <= k < |table| ==>
          table[k].Shape() && table[k].socketFd == 0 && table[k].currentCommand == 0 && table[k].Objects() <= objects)
    && (forall j, k :: 0 <= j < k < |table| ==> table[j].Objects() !! table[k].Objects())
  }

  /** The static table of the program, before any client. */
  method NewTable() returns (table: seq<Client>, ghost objects: set<object>)
    ensures |table| == SLOTS == 5 && EmptyTable(table, objects) && fresh(objects)
  {
    table, objects := [], {};
    while |table| < SLOTS
      invariant |table| <= SLOTS && EmptyTable(table, objects) && fresh(objects)
      invariant forall k :: 0 <= k < |table| ==> table[k] in objects
    {
      var c := new Client();
      objects := objects + c.Objects();
      table := table + [c];
    }
  }

  method OccupyClient(c: Client, fd: int, ghost stale: nat)
    requires Matches(c, Free(stale)) && fd != 0
    modifies c.Objects()
    ensures Matches(c, Taken(fd, Fresh(stale))) && fresh(c.Objects() - old(c.Objects()))
  {
    c.Occupy(fd);
  }

  method VacateClient(c: Client)
    requires c.Shape()
    modifies c.Objects()
    ensures Matches(c, Free(old(c.currentCommand))) && fresh(c.Objects() - old(c.Objects()))
  {
    c.Vacate();
  }

  /** `read_client_data`, as the fate of the client's machine m. */
  method ReadClient(cfg: Config, c: Client, revents: Revents, data: Option<bytes>, ghost fd: int, ghost m: Machine)
    returns (outcome: Outcome)
    requires Matches(c, Taken(fd, m))
    requires revents.readable && !HungUp(revents) && (data.Some? ==> |data.value| <= READ_CAPACITY)
    modifies c.Objects()
    ensures c.Shape() && c.socketFd == fd && fresh(c.Objects() - old(c.Objects()))
    ensures match FateOf(cfg, m, revents, data)
      case Breaks => outcome.Undefined?
      case Leaves(last) => outcome.Close? && LeftWith(c, last)
      case Stays(after) => outcome.Keep? && Matches(c, Taken(fd, after))
  {
    outcome := c.ReadClientData(cfg, data);
  }

  class PollServer {
    const clients: seq<Client>
    const pollFds: array<PollFd>
    var pollFdsCount: nat
    ghost var model: Server

    ghost var repr: set<object>  // the objects of the clients

    /** Five separate clients, apart from the array of six entries. */
    ghost predicate Layout()
      reads this`repr, clients
    {
      && |clients| == SLOTS && pollFds.Length == POLL_CAPACITY
      && this !in repr && pollFds !in repr
      && (forall k :: 0 <= k < SLOTS ==> clients[k].Objects() <= repr)
      && (forall j, k :: 0 <= j < k < SLOTS ==> clients[j].Objects() !! clients[k].Objects())
    }

    /** The client objects hold these slots. */
    ghost predicate Holds(slots: seq<Slot>)
      reads this`repr, repr, clients
    {
      Layout() && |slots| == SLOTS && forall k :: 0 <= k < SLOTS ==> Matches(clients[k], slots[k])
    }

    /** Storage and model say the same, apart from whether the model's parts agree. */
    ghost predicate Stores(s: Server)
      reads this`repr, this`pollFdsCount, pollFds, repr, clients
    {
      Holds(s.slots) && pollFdsCount <= POLL_CAPACITY && s.polled == pollFds[..pollFdsCount]
    }

    ghost predicate Valid()
      reads this, pollFds, repr, clients
    {
      Stores(model) && Agree(model)
    }

    /** All clients but k hold their slots, in objects apart from one another. */
    ghost predicate OthersHold(objects: set<object>, k: nat, slots: seq<Slot>)
      reads objects
    {
      && |clients| == |slots| == SLOTS
      && (forall j :: 0 <= j < SLOTS && j != k ==>
            clients[j] in objects && clients[j].Objects() <= objects && Matches(clients[j], slots[j]))
      && (forall i, j :: 0 <= i < j < SLOTS && i != k && j != k ==> clients[i].Objects() !! clients[j].Objects())
    }

    /** As `Holds`, but client k may be anywhere in its parsing. */
    ghost predicate HoldsBut(k: nat, slots: seq<Slot>)
      requires k < SLOTS
      reads this`repr, repr, clients
    {
      && |clients| == SLOTS && pollFds.Length == POLL_CAPACITY && this !in repr && pollFds !in repr
      && clients[k].Objects() <= repr && OthersHold(repr - clients[k].Objects(), k, slots)
      && slots[k].Taken? && slots[k].fd != 0
      && clients[k].Shape() && clients[k].socketFd == slots[k].fd
    }

    lemma Disassemble(k: nat, slots: seq<Slot>)
      requires Holds(slots) && k < SLOTS
      ensures Matches(clients[k], slots[k]) && clients[k].Objects() <= repr
      ensures OthersHold(repr - clients[k].Objects(), k, slots)
    {
    }

    lemma Assemble(k: nat, slots: seq<Slot>, slot: Slot)
      requires |clients| == SLOTS && pollFds.Length == POLL_CAPACITY && this !in repr && pollFds !in repr
      requires k < SLOTS && Matches(clients[k], slot) && clients[k].Objects() <= repr
      requires OthersHold(repr - clients[k].Objects(), k, slots)
      ensures Holds(slots[k := slot])
    {
    }

    ghost predicate Numbered(slots: seq<Slot>)
      reads clients
    {
      && |clients| == |slots| == SLOTS
      && forall k :: 0 <= k < SLOTS ==> clients[k].socketFd == if slots[k].Taken? then slots[k].fd else 0
    }

    /** The server at its start, on an empty client table: only the listening socket is polled. */
    constructor (listening: int, table: seq<Client>, ghost objects: set<object>)
      requires EmptyTable(table, objects) && |table| == SLOTS
      ensures Valid() && model == Start(listening)
      ensures repr == objects && fresh(pollFds) && |clients| == 5 && pollFds.Length == 6
    {
      clients := table;
      pollFds := new PollFd[POLL_CAPACITY](_ => PollFd(listening, QUIET));
      pollFdsCount := 1;
      model := Start(listening);
      repr := objects;
      new;
      assert Stores(model) by {
        EmptyTableHolds(listening);
        assert model.polled == pollFds[..1];
      }
      assert Agree(model) by { StartAgrees(listening); }
    }

    lemma EmptyTableHolds(listening: int)
      requires EmptyTable(clients, repr) && |clients| == SLOTS && pollFds.Length == POLL_CAPACITY
      requires this !in repr && pollFds !in repr
      ensures Holds(Start(listening).slots)
    {
    }

    /** The search of `get_client` and `remove_client`; SLOTS stands for not found. */
    method FindClient(fd: int, ghost slots: seq<Slot>) returns (k: nat)
      requires Numbered(slots) && fd != 0
      ensures k == FindTaken(slots, fd)
    {
      k := 0;
      while k < SLOTS
        invariant k <= SLOTS && k + FindTaken(slots[k..], fd) == FindTaken(slots, fd)
      {
        assert slots[k..][0] == slots[k] && slots[k..][1..] == slots[k + 1..];
        if clients[k].socketFd == fd {
          return;
        }
        k := k + 1;
      }
    }

    /** The search of `add_to_clients`. */
    method FindFreeSlot(ghost slots: seq<Slot>) returns (k: nat)
      requires Holds(slots)
      ensures k == FindFree(slots)
    {
      k := 0;
      while k < SLOTS
        invariant k <= SLOTS && k + FindFree(slots[k..]) == FindFree(slots)
      {
        assert Matches(clients[k], slots[k]);
        assert slots[k..][0] == slots[k] && slots[k..][1..] == slots[k + 1..];
        if clients[k].socketFd == 0 {
          return;
        }
        k := k + 1;
      }
    }

    method OccupySlot(k: nat, fd: int, ghost slots: seq<Slot>)
      requires Holds(slots) && k < SLOTS && slots[k].Free? && fd != 0
      modifies this`repr, clients[k].Objects()
      ensures Holds(slots[k := Taken(fd, Fresh(slots[k].stale))])
      ensures fresh(repr - old(repr))
    {
      Disassemble(k, slots);
      ghost var others := repr - clients[k].Objects();
      OccupyClient(clients[k], fd, slots[k].stale);
      repr := others + clients[k].Objects();
      assert repr - clients[k].Objects() == others;
      Assemble(k, slots, Taken(fd, Fresh(slots[k].stale)));
    }

    method VacateSlot(k: nat, ghost slots: seq<Slot>)
      requires k < SLOTS && HoldsBut(k, slots)
      modifies this`repr, clients[k].Objects()
      ensures Holds(slots[k := Free(old(clients[k].currentCommand))])
      ensures fresh(repr - old(repr))
    {
      ghost var others := repr - clients[k].Objects();
      VacateClient(clients[k]);
      repr := others + clients[k].Objects();
      assert repr - clients[k].Objects() == others;
      Assemble(k, slots, Free(clients[k].currentCommand));
    }

    /** One read for the client in slot k. */
    method ReadSlot(cfg: Config, k: nat, revents: Revents, data: Option<bytes>, ghost slots: seq<Slot>)
      returns (outcome: Outcome)
      requires Holds(slots) && k < SLOTS && slots[k].Taken?
      requires revents.readable && !HungUp(revents) && (data.Some? ==> |data.value| <= READ_CAPACITY)
      modifies this`repr, clients[k].Objects()
      ensures HoldsBut(k, slots) && fresh(repr - old(repr))
      ensures match FateOf(cfg, slots[k].machine, revents, data)
        case Breaks => outcome.Undefined?
        case Leaves(last) => outcome.Close? && LeftWith(clients[k], last)
        case Stays(m) => outcome.Keep? && Holds(slots[k := Taken(slots[k].fd, m)])
    {
      Disassemble(k, slots);
      ghost var others := repr - clients[k].Objects();
      ghost var fate := FateOf(cfg, slots[k].machine, revents, data);
      outcome := ReadClient(cfg, clients[k], revents, data, slots[k].fd, slots[k].machine);
      repr := others + clients[k].Objects();
      assert repr - clients[k].Objects() == others;
      if fate.Stays? {
        Assemble(k, slots, Taken(slots[k].fd, fate.machine));
      }
    }

    method PushEntry(fd: int)
      requires pollFds.Length == POLL_CAPACITY && pollFdsCount < POLL_CAPACITY
      modifies this`pollFdsCount, pollFds
      ensures pollFdsCount == old(pollFdsCount) + 1
      ensures pollFds[..pollFdsCount] == old(pollFds[..pollFdsCount]) + [PollFd(fd, QUIET)]
    {
      pollFds[pollFdsCount] := PollFd(fd, QUIET);
      pollFdsCount := pollFdsCount + 1;
    }

    method SwapOut(i: nat)
      requires i < pollFdsCount <= pollFds.Length
      modifies this`pollFdsCount, pollFds
      ensures pollFdsCount == old(pollFdsCount) - 1
      ensures pollFds[..pollFdsCount] == SwapRemove(old(pollFds[..pollFdsCount]), i)
    {
      if i != pollFdsCount - 1 {
        pollFds[i] := pollFds[pollFdsCount - 1];
      }
      pollFdsCount := pollFdsCount - 1;
    }

    /** Storing the poll array does not touch the clients; `t` is the model to come. */
    method StoreAccepted(k: nat, fd: int, ghost s: Server, ghost t: Server)
      requires Stores(s) && k < SLOTS && s.slots[k].Free? && fd != 0 && pollFdsCount < POLL_CAPACITY
      requires t.slots == s.slots[k := Taken(fd, Fresh(s.slots[k].stale))] && t.polled == s.polled + [PollFd(fd, QUIET)]
      modifies this`repr, this`pollFdsCount, pollFds, repr
      ensures fresh(repr - old(repr)) && Stores(t)
    {
      assert clients[k].Objects() <= repr;
      OccupySlot(k, fd, s.slots);
      PushEntry(fd);
    }

    method StoreDropped(k: nat, i: nat, ghost s: Server, ghost t: Server)
      requires k < SLOTS && HoldsBut(k, s.slots)
      requires i < pollFdsCount <= POLL_CAPACITY && s.polled == pollFds[..pollFdsCount]
      requires t.slots == s.slots[k := Free(clients[k].currentCommand)] && t.polled == SwapRemove(s.polled, i)
      modifies this`repr, this`pollFdsCount, pollFds, repr
      ensures fresh(repr - old(repr)) && Stores(t)
    {
      assert clients[k].Objects() <= repr;
      VacateSlot(k, s.slots);
      SwapOut(i);
    }

    /** A new connection: `add_to_clients`, and when a slot is free the new poll entry. */
    method AcceptClient(fd: int)
      requires Stores(model) && fd != 0
      requires FindFree(model.slots) < SLOTS ==> pollFdsCount < POLL_CAPACITY
      modifies this`model, this`repr, this`pollFdsCount, pollFds, repr
      ensures Stores(model) && fresh(repr - old(repr)) && model == Accept(old(model), fd)
    {
      var k := FindFreeSlot(model.slots);
      if k < SLOTS {
        StoreAccepted(k, fd, model, Accept(model, fd));
        model := Accept(model, fd);
      }
    }

    /** `remove_client`, and the last poll entry moved into the gap. */
    method DropEntry(i: nat, ghost k: nat, ghost last: Machine)
      requires k < SLOTS && HoldsBut(k, model.slots) && Numbered(model.slots)
      requires i < pollFdsCount <= POLL_CAPACITY && model.polled == pollFds[..pollFdsCount]
      requires k == FindTaken(model.slots, pollFds[i].fd) && LeftWith(clients[k], last)
      modifies this`model, this`repr, this`pollFdsCount, pollFds, repr
      ensures Stores(model) && fresh(repr - old(repr)) && model == Drop(old(model), k, i, last)
    {
      var found := FindClient(pollFds[i].fd, model.slots);
      StoreDropped(found, i, model, Drop(model, k, i, last));
      model := Drop(model, k, i, last);
    }

    /** The read of entry i: `get_client`, the read, and the parsing. */
    method ReadEntry(cfg: Config, i: nat, ghost k: nat, data: Option<bytes>) returns (outcome: Outcome)
      requires Stores(model) && i < pollFdsCount && pollFds[i].fd != 0
      requires k == FindTaken(model.slots, pollFds[i].fd) < SLOTS
      requires pollFds[i].revents.readable && !HungUp(pollFds[i].revents)
      requires data.Some? ==> |data.value| <= READ_CAPACITY
      modifies this`repr, repr
      ensures fresh(repr - old(repr)) && HoldsBut(k, model.slots) && Numbered(model.slots)
      ensures match FateOf(cfg, model.slots[k].machine, pollFds[i].revents, data)
        case Breaks => outcome.Undefined?
        case Leaves(last) => outcome.Close? && LeftWith(clients[k], last)
        case Stays(m) => outcome.Keep? && Stores(Update(model, k, pollFds[i].fd, m))
    {
      var found := FindClient(pollFds[i].fd, model.slots);
      assert clients[found].Objects() <= repr;
      outcome := ReadSlot(cfg, found, pollFds[i].revents, data, model.slots);
    }

    /** The body of the loop over the polled clients, for the client in slot k. */
    method HandleEntry(cfg: Config, i: nat, received: int -> Option<bytes>, ghost k: nat)
      returns (next: nat, ok: bool)
      requires Stores(model) && i < pollFdsCount
      requires pollFds[i].fd != 0 && k == FindTaken(model.slots, pollFds[i].fd) < SLOTS
      requires forall fd :: received(fd).Some? ==> |received(fd).value| <= READ_CAPACITY
      modifies this`model, this`repr, this`pollFdsCount, pollFds, repr
      ensures fresh(repr - old(repr))
      ensures match FateOf(cfg, old(model).slots[k].machine, old(pollFds[i].revents), received(old(pollFds[i].fd)))
        case Breaks => !ok
        case Leaves(last) => ok && next == i && Stores(model) && model == Drop(old(model), k, i, last)
        case Stays(m) => ok && next == i + 1 && Stores(model) && model == Update(old(model), k, old(pollFds[i].fd), m)
    {
      ghost var fate := FateOf(cfg, model.slots[k].machine, pollFds[i].revents, received(pollFds[i].fd));
      assert Matches(clients[k], model.slots[k]);
      next, ok := i, true;
      if HungUp(pollFds[i].revents) {
        DropEntry(i, k, fate.machine);
      } else if pollFds[i].revents.readable {
        var outcome := ReadEntry(cfg, i, k, received(pollFds[i].fd));
        if outcome.Undefined? {
          ok := false;
        } else if outcome.Close? {
          DropEntry(i, k, fate.machine);
        } else {
          model := Update(model, k, pollFds[i].fd, fate.machine);
          next := i + 1;
        }
      } else {
        assert Update(model, k, pollFds[i].fd, fate.machine) == model;
        next := i + 1;
      }
    }

    /** One turn of the loop over the polled clients. */
    method TurnEntry(cfg: Config, i: nat, received: int -> Option<bytes>) returns (next: nat, ok: bool)
      requires Valid() && 1 <= i < pollFdsCount
      requires forall fd :: received(fd).Some? ==> |received(fd).value| <= READ_CAPACITY
      modifies this`model, this`repr, this`pollFdsCount, pollFds, repr
      ensures fresh(repr - old(repr))
      ensures match EntryTurn(cfg, old(model), i, received)
        case Halts => !ok
        case Goes(t, n) => ok && Valid() && model == t && next == n
      ensures ok ==> next >= i && pollFdsCount - next < old(pollFdsCount) - i
      ensures Pass(cfg, old(model), i, received) == if ok then Pass(cfg, model, next, received) else Crashed
    {
      ghost var s, k := model, FindTaken(model.slots, pollFds[i].fd);
      assert pollFds[i] == s.polled[i];
      assert pollFds[i].fd != 0 && k < SLOTS by { PolledIsFound(s, i); }
      next, ok := HandleEntry(cfg, i, received, k);
      if ok {
        assert Agree(model) by { EntryTurnAgrees(cfg, s, i, received); }
      }
    }

    /** The loop over the polled clients. */
    method PassClients(cfg: Config, received: int -> Option<bytes>) returns (ok: bool)
      requires Valid()
      requires forall fd :: received(fd).Some? ==> |received(fd).value| <= READ_CAPACITY
      modifies this`model, this`repr, this`pollFdsCount, pollFds, repr
      ensures fresh(repr - old(repr))
      ensures match Pass(cfg, old(model), 1, received)
        case Crashed => !ok
        case Running(t) => ok && Valid() && model == t
    {
      var i := 1;
      while i < pollFdsCount
        invariant Valid() && 1 <= i && fresh(repr - old(repr))
        invariant Pass(cfg, model, i, received) == Pass(cfg, old(model), 1, received)
        decreases pollFdsCount - i
      {
        i, ok := TurnEntry(cfg, i, received);
        if !ok {
          return;
        }
      }
      ok := true;
    }

    /** `poll` fills in the events of every entry. */
    method PollEvents(revents: int -> Revents)
      requires Stores(model)
      modifies this`model, pollFds
      ensures Stores(model) && model == old(model).(polled := Poll(old(model).polled, revents))
    {
      forall j | 0 <= j < pollFdsCount {
        pollFds[j] := PollFd(pollFds[j].fd, revents(pollFds[j].fd));
      }
      model := model.(polled := Poll(model.polled, revents));
      assert model.polled == pollFds[..pollFdsCount];
    }

    /** `poll` and the accept of one turn of the server's loop. */
    method GreetClients(input: Input)
      requires Stores(model) && (input.incoming.Some? ==> input.incoming.value != 0)
      requires FindFree(model.slots) < SLOTS ==> pollFdsCount < POLL_CAPACITY
      modifies this`model, this`repr, this`pollFdsCount, pollFds, repr
      ensures Stores(model) && fresh(repr - old(repr)) && model == Greeted(old(model), input)
    {
      PollEvents(input.revents);
      if input.incoming.Some? {
        AcceptClient(input.incoming.value);
      }
    }

    /** One turn of the server's loop. */
    method ServeRound(cfg: Config, input: Input) returns (ok: bool)
      requires Valid() && Possible(model, input)
      requires forall fd :: input.received(fd).Some? ==> |input.received(fd).value| <= 2048
      modifies this`model, this`repr, this`pollFdsCount, pollFds, repr
      ensures fresh(repr - old(repr))
      ensures match Round(cfg, old(model), input)
        case Crashed => !ok
        case Running(t) => ok && Valid() && model == t
    {
      RoomForOne(model);
      GreetedAgrees(model, input);
      GreetClients(input);
      ok := PassClients(cfg, input.received);
    }

    /** The server's loop, over what the system answers turn by turn. */
    method Serve(cfg: Config, inputs: seq<Input>) returns (ok: bool)
      requires Valid() && AllPossible(cfg, model, inputs)
      requires forall i, fd :: 0 <= i < |inputs| && inputs[i].received(fd).Some? ==>
        |inputs[i].received(fd).value| <= 2048
      modifies this`model, this`repr, this`pollFdsCount, pollFds, repr
      ensures fresh(repr - old(repr))
      ensures match Exec(cfg, old(model), inputs)
        case Crashed => !ok
        case Running(t) => ok && Valid() && model == t
    {
      var i := 0;
      while i < |inputs|
        invariant i <= |inputs| && Valid() && fresh(repr - old(repr))
        invariant AllPossible(cfg, model, inputs[i..])
        invariant Exec(cfg, model, inputs[i..]) == Exec(cfg, old(model), inputs)
      {
        assert inputs[i..][0] == inputs[i] && inputs[i..][1..] == inputs[i + 1..];
        ok := ServeRound(cfg, inputs[i]);
        if !ok {
          return;
        }
        i := i + 1;
      }
      ok := true;
    }
  }
}
