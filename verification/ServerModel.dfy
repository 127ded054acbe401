/** The server as a state machine on values: the five-slot client table, the polled descriptors and
    the callbacks, advanced by one turn of the poll loop at a time. */
module ServerModel {
  import opened Bytes
  import opened Protocol
  import opened Automaton
  import opened Reads

  const SLOTS: nat := 5
  const POLL_CAPACITY: nat := 6

  /** A table slot; a free one still holds the last command of its previous client. */
  datatype Slot = Free(stale: nat) | Taken(fd: int, machine: Machine)

  /** POLLERR, POLLHUP and POLLIN as `poll` reports them. */
  datatype Revents = Revents(err: bool, hup: bool, readable: bool)

  const QUIET := Revents(false, false, false)

  datatype PollFd = PollFd(fd: int, revents: Revents)

  /** A callback, and for the record the machine that a removed client leaves behind. */
  datatype Callback = Added(fd: int) | Removed(fd: int, last: Machine)

  /** `polled[0]` is the listening socket. */
  datatype Server = Server(slots: seq<Slot>, polled: seq<PollFd>, calls: seq<Callback>)

  /** `Crashed`: some client's bytes took the server out of defined behaviour. */
  datatype Status = Running(server: Server) | Crashed

  /** What the system answers in one turn: events per descriptor, the new connection if one was
      accepted, and for each descriptor what `read` delivers (None: an error). */
  datatype Input = Input(revents: int -> Revents, incoming: Option<int>, received: int -> Option<bytes>)

  /** What one turn does to one client. */
  datatype Fate = Stays(machine: Machine) | Leaves(machine: Machine) | Breaks

  // ---- the table ----

  /** `get_client`: the first slot with this descriptor. */
  function FindTaken(slots: seq<Slot>, fd: int): (k: nat)
    ensures k <= |slots|
    ensures k < |slots| ==> slots[k].Taken? && slots[k].fd == fd
    ensures forall j :: 0 <= j < k ==> !(slots[j].Taken? && slots[j].fd == fd)
  {
    if slots == [] || (slots[0].Taken? && slots[0].fd == fd) then 0 else 1 + FindTaken(slots[1..], fd)
  }

  predicate InTable(slots: seq<Slot>, fd: int) {
    FindTaken(slots, fd) < |slots|
  }

  function FindFree(slots: seq<Slot>): (k: nat)
    ensures k <= |slots|
    ensures k < |slots| ==> slots[k].Free?
    ensures forall j :: 0 <= j < k ==> slots[j].Taken?
  {
    if slots == [] || slots[0].Free? then 0 else 1 + FindFree(slots[1..])
  }

  /** `add_to_clients`, the new entry of `poll_fds`, and the callback; a full table refuses. */
  function Accept(s: Server, fd: int): Server {
    var k := FindFree(s.slots);
    if k == |s.slots| then s
    else Server(s.slots[k := Taken(fd, Fresh(s.slots[k].stale))], s.polled + [PollFd(fd, QUIET)], s.calls + [Added(fd)])
  }

  /** The last entry takes the place of entry i, and the array gets shorter. */
  function SwapRemove(polled: seq<PollFd>, i: nat): (r: seq<PollFd>)
    requires i < |polled|
    ensures |r| == |polled| - 1
  {
    var last := |polled| - 1;
    if i == last then polled[..last] else polled[..last][i := polled[last]]
  }

  /** `remove_client` for slot k, and the removal of entry i from `poll_fds`. */
  function Drop(s: Server, k: nat, i: nat, last: Machine): Server
    requires k < |s.slots| && i < |s.polled|
  {
    Server(s.slots[k := Free(last.command)], SwapRemove(s.polled, i), s.calls + [Removed(s.polled[i].fd, last)])
  }

  function Update(s: Server, k: nat, fd: int, m: Machine): Server
    requires k < |s.slots|
  {
    s.(slots := s.slots[k := Taken(fd, m)])
  }

  function CommandHeld(slot: Slot): nat {
    if slot.Free? then slot.stale else slot.machine.command
  }

  // ---- one turn of the poll loop ----

  predicate HungUp(revents: Revents) {
    revents.err || revents.hup
  }

  /** Hung-up clients leave unread; readable ones are read once and leave when the read fails, is
      empty, or is rejected. */
  function FateOf(cfg: Config, m: Machine, revents: Revents, data: Option<bytes>): Fate {
    if HungUp(revents) then Leaves(m)
    else if !revents.readable then Stays(m)
    else if data.None? || data.value == [] then Leaves(m)
    else
      var after := TakeRead(cfg, m, data.value);
      if after.state.Broken? then Breaks else if after.state.Closed? then Leaves(after) else Stays(after)
  }

  datatype Turn = Halts | Goes(server: Server, next: nat)

  /** One turn of the loop over the polled clients, as the code runs it: an entry that leaves is
      overwritten by the last one, and the same index is looked at again. */
  function EntryTurn(cfg: Config, s: Server, i: nat, received: int -> Option<bytes>): (r: Turn)
    requires i < |s.polled|
    ensures r.Goes? ==> |r.server.polled| - r.next < |s.polled| - i && r.next >= i
  {
    var fd := s.polled[i].fd;
    var k := FindTaken(s.slots, fd);
    if k == |s.slots| then Halts
    else
      match FateOf(cfg, s.slots[k].machine, s.polled[i].revents, received(fd))
      case Breaks => Halts
      case Leaves(last) => Goes(Drop(s, k, i, last), i)
      case Stays(m) => Goes(Update(s, k, fd, m), i + 1)
  }

  /** The loop from entry i on. */
  function Pass(cfg: Config, s: Server, i: nat, received: int -> Option<bytes>): Status
    decreases |s.polled| - i
  {
    if i >= |s.polled| then Running(s)
    else
      match EntryTurn(cfg, s, i, received)
      case Halts => Crashed
      case Goes(t, next) => Pass(cfg, t, next, received)
  }

  /** `poll` fills in the events. */
  function Poll(polled: seq<PollFd>, revents: int -> Revents): (r: seq<PollFd>)
    ensures |r| == |polled|
    ensures forall j :: 0 <= j < |r| ==> r[j] == PollFd(polled[j].fd, revents(polled[j].fd))
  {
    seq(|polled|, j requires 0 <= j < |polled| => PollFd(polled[j].fd, revents(polled[j].fd)))
  }

  function Greet(s: Server, incoming: Option<int>): Server {
    if incoming.Some? then Accept(s, incoming.value) else s
  }

  /** One turn: poll, accept, and the pass over the clients. */
  function Round(cfg: Config, s: Server, input: Input): Status {
    Pass(cfg, Greet(s.(polled := Poll(s.polled, input.revents)), input.incoming), 1, input.received)
  }

  function Exec(cfg: Config, s: Server, inputs: seq<Input>): Status
    decreases |inputs|
  {
    if inputs == [] then Running(s)
    else
      match Round(cfg, s, inputs[0])
      case Crashed => Crashed
      case Running(t) => Exec(cfg, t, inputs[1..])
  }

  /** `accept` returns a descriptor that is not zero and not in use. */
  predicate Possible(s: Server, input: Input) {
    input.incoming.Some? ==> input.incoming.value != 0 && !InTable(s.slots, input.incoming.value)
  }

  predicate AllPossible(cfg: Config, s: Server, inputs: seq<Input>)
    decreases |inputs|
  {
    inputs != [] ==>
      && Possible(s, inputs[0])
      && (Round(cfg, s, inputs[0]).Running? ==> AllPossible(cfg, Round(cfg, s, inputs[0]).server, inputs[1..]))
  }

  function Start(listening: int): Server {
    Server([Free(0), Free(0), Free(0), Free(0), Free(0)], [PollFd(listening, QUIET)], [])
  }

  // ---- the table, the polled descriptors and the callbacks agree ----

  function CountTaken(slots: seq<Slot>): nat {
    if slots == [] then 0 else (if slots[0].Taken? then 1 else 0) + CountTaken(slots[1..])
  }

  /** Add callbacks minus remove callbacks for one descriptor. */
  function Balance(calls: seq<Callback>, fd: int): int {
    if calls == [] then 0
    else
      var c := calls[|calls| - 1];
      Balance(calls[..|calls| - 1], fd) + (if c.fd != fd then 0 else if c.Added? then 1 else -1)
  }

  predicate Polls(polled: seq<PollFd>, i: nat, fd: int) {
    exists j :: i <= j < |polled| && polled[j].fd == fd
  }

  ghost predicate DistinctSlots(slots: seq<Slot>) {
    forall k, l :: 0 <= k < l < |slots| && slots[k].Taken? && slots[l].Taken? ==> slots[k].fd != slots[l].fd
  }

  ghost predicate DistinctPolled(polled: seq<PollFd>) {
    forall i, j :: 1 <= i < j < |polled| ==> polled[i].fd != polled[j].fd
  }

  ghost predicate Agree(s: Server) {
    && |s.slots| == SLOTS && 1 <= |s.polled| == 1 + CountTaken(s.slots)
    && DistinctSlots(s.slots) && DistinctPolled(s.polled)
    && (forall fd :: InTable(s.slots, fd) ==> fd != 0)
    && (forall fd :: InTable(s.slots, fd) <==> Polls(s.polled, 1, fd))
    && (forall fd :: Balance(s.calls, fd) == if InTable(s.slots, fd) then 1 else 0)
  }

  lemma {:induction false} CountUpdate(slots: seq<Slot>, k: nat, slot: Slot)
    requires k < |slots|
    ensures CountTaken(slots[k := slot])
            == CountTaken(slots) - (if slots[k].Taken? then 1 else 0) + (if slot.Taken? then 1 else 0)
  {
    if k == 0 {
      assert slots[k := slot][1..] == slots[1..];
    } else {
      assert slots[k := slot][1..] == slots[1..][k - 1 := slot];
      CountUpdate(slots[1..], k - 1, slot);
    }
  }

  lemma {:induction false} CountBound(slots: seq<Slot>)
    ensures CountTaken(slots) <= |slots|
    ensures FindFree(slots) < |slots| ==> CountTaken(slots) < |slots|
  {
    if slots == [] {
    } else {
      CountBound(slots[1..]);
      if slots[0].Taken? && FindFree(slots) < |slots| {
        assert FindFree(slots[1..]) < |slots[1..]|;
      }
    }
  }

  /** A slot is in the table under its own descriptor, and under no other. */
  lemma TableMembers(slots: seq<Slot>, fd: int)
    ensures InTable(slots, fd) <==> exists k :: 0 <= k < |slots| && slots[k].Taken? && slots[k].fd == fd
  {
    if InTable(slots, fd) {
      assert slots[FindTaken(slots, fd)].Taken?;
    }
  }

  lemma TableUpdate(slots: seq<Slot>, k: nat, slot: Slot, fd: int)
    requires k < |slots| && DistinctSlots(slots)
    ensures var r := slots[k := slot];
      InTable(r, fd) <==>
        if slot.Taken? && slot.fd == fd then true
        else if slots[k].Taken? && slots[k].fd == fd then false
        else InTable(slots, fd)
  {
    var r := slots[k := slot];
    TableMembers(slots, fd);
    TableMembers(r, fd);
    if slot.Taken? && slot.fd == fd {
      assert r[k].Taken? && r[k].fd == fd;
    } else if InTable(slots, fd) && !(slots[k].Taken? && slots[k].fd == fd) {
      var l := FindTaken(slots, fd);
      assert r[l] == slots[l];
    }
  }

  lemma BalanceSnoc(calls: seq<Callback>, c: Callback, fd: int)
    ensures Balance(calls + [c], fd) == Balance(calls, fd) + (if c.fd != fd then 0 else if c.Added? then 1 else -1)
  {
    assert (calls + [c])[..|calls|] == calls;
  }

  lemma SwapRemoveMembers(polled: seq<PollFd>, i: nat, from: nat)
    requires 1 <= from <= i < |polled| && DistinctPolled(polled)
    ensures DistinctPolled(SwapRemove(polled, i))
    ensures forall fd :: Polls(SwapRemove(polled, i), from, fd) <==> Polls(polled, from, fd) && fd != polled[i].fd
    ensures forall j :: from <= j < |polled| - 1 ==> SwapRemove(polled, i)[j] in polled[from..]
  {
    var last, r := |polled| - 1, SwapRemove(polled, i);
    assert forall j :: 0 <= j < last ==> r[j] == if j == i then polled[last] else polled[j];
    forall fd ensures Polls(r, from, fd) <==> Polls(polled, from, fd) && fd != polled[i].fd {
      if Polls(polled, from, fd) && fd != polled[i].fd {
        var j :| from <= j < |polled| && polled[j].fd == fd;
        assert r[if j == last then i else j].fd == fd;
      }
      if Polls(r, from, fd) {
        var j :| from <= j < |r| && r[j].fd == fd;
        assert polled[if j == i then last else j].fd == fd;
      }
    }
    forall j | from <= j < last ensures r[j] in polled[from..] {
      assert r[j] == polled[from..][(if j == i then last else j) - from];
    }
  }

  lemma StartAgrees(listening: int)
    ensures Agree(Start(listening))
  {
  }

  lemma AppendMembers(polled: seq<PollFd>, p: PollFd)
    requires |polled| >= 1
    ensures forall fd :: Polls(polled + [p], 1, fd) <==> fd == p.fd || Polls(polled, 1, fd)
  {
    var r := polled + [p];
    assert r[|polled|] == p;
    forall fd ensures Polls(r, 1, fd) <==> fd == p.fd || Polls(polled, 1, fd) {
      if Polls(polled, 1, fd) {
        var j :| 1 <= j < |polled| && polled[j].fd == fd;
        assert r[j].fd == fd;
      }
    }
  }

  /** A new descriptor is distinct from every other, in the table and among the polled ones. */
  lemma NewIsDistinct(s: Server, fd: int, k: nat)
    requires Agree(s) && k < |s.slots| && !InTable(s.slots, fd)
    ensures DistinctSlots(s.slots[k := Taken(fd, Fresh(CommandHeld(s.slots[k])))])
    ensures DistinctPolled(s.polled + [PollFd(fd, QUIET)])
  {
    forall l | 0 <= l < |s.slots| && s.slots[l].Taken? ensures s.slots[l].fd != fd {
      TableMembers(s.slots, s.slots[l].fd);
    }
    forall j | 1 <= j < |s.polled| ensures s.polled[j].fd != fd {
      assert Polls(s.polled, 1, s.polled[j].fd);
    }
  }

  lemma AcceptAgrees(s: Server, fd: int)
    requires Agree(s) && fd != 0 && !InTable(s.slots, fd)
    ensures Agree(Accept(s, fd)) && |Accept(s, fd).polled| <= POLL_CAPACITY
  {
    var k := FindFree(s.slots);
    CountBound(s.slots);
    if k < |s.slots| {
      var t := Accept(s, fd);
      CountUpdate(s.slots, k, t.slots[k]);
      NewIsDistinct(s, fd, k);
      AppendMembers(s.polled, PollFd(fd, QUIET));
      forall g ensures InTable(t.slots, g) <==> g == fd || InTable(s.slots, g)
        ensures Balance(t.calls, g) == if InTable(t.slots, g) then 1 else 0 {
        TableUpdate(s.slots, k, t.slots[k], g);
        BalanceSnoc(s.calls, Added(fd), g);
      }
    }
  }

  lemma UpdateAgrees(s: Server, k: nat, m: Machine)
    requires Agree(s) && k < |s.slots| && s.slots[k].Taken?
    ensures Agree(Update(s, k, s.slots[k].fd, m))
  {
    var t := Update(s, k, s.slots[k].fd, m);
    CountUpdate(s.slots, k, t.slots[k]);
    forall g ensures InTable(t.slots, g) <==> InTable(s.slots, g) {
      TableUpdate(s.slots, k, t.slots[k], g);
      TableMembers(s.slots, s.slots[k].fd);
    }
  }

  lemma DropAgrees(s: Server, k: nat, i: nat, last: Machine)
    requires Agree(s) && k < |s.slots| && 1 <= i < |s.polled|
    requires s.slots[k].Taken? && s.slots[k].fd == s.polled[i].fd
    ensures Agree(Drop(s, k, i, last))
  {
    var fd, t := s.polled[i].fd, Drop(s, k, i, last);
    CountUpdate(s.slots, k, t.slots[k]);
    SwapRemoveMembers(s.polled, i, 1);
    forall g ensures InTable(t.slots, g) <==> g != fd && InTable(s.slots, g)
      ensures Balance(t.calls, g) == if InTable(t.slots, g) then 1 else 0 {
      TableUpdate(s.slots, k, t.slots[k], g);
      TableMembers(s.slots, g);
      BalanceSnoc(s.calls, Removed(fd, last), g);
    }
  }

  /** `get_client` never misses for a polled descriptor. */
  lemma PolledIsFound(s: Server, i: nat)
    requires Agree(s) && 1 <= i < |s.polled|
    ensures var k := FindTaken(s.slots, s.polled[i].fd);
            k < SLOTS && s.slots[k].Taken? && s.slots[k].fd == s.polled[i].fd != 0
  {
    assert Polls(s.polled, 1, s.polled[i].fd);
    assert InTable(s.slots, s.polled[i].fd);
  }

  lemma EntryTurnAgrees(cfg: Config, s: Server, i: nat, received: int -> Option<bytes>)
    requires Agree(s) && 1 <= i < |s.polled|
    ensures match EntryTurn(cfg, s, i, received)
      case Halts => true
      case Goes(t, next) => Agree(t)
  {
    var k := FindTaken(s.slots, s.polled[i].fd);
    PolledIsFound(s, i);
    match FateOf(cfg, s.slots[k].machine, s.polled[i].revents, received(s.polled[i].fd)) {
      case Breaks =>
      case Leaves(last) => DropAgrees(s, k, i, last);
      case Stays(m) => UpdateAgrees(s, k, m);
    }
  }

  /** A free slot means room for one more poll entry. */
  lemma RoomForOne(s: Server)
    requires Agree(s)
    ensures 1 <= |s.polled| <= POLL_CAPACITY
    ensures FindFree(s.slots) < SLOTS ==> |s.polled| < POLL_CAPACITY
  {
    CountBound(s.slots);
  }
}
