/** Delivery in reads: what the buffered engine does with one read, and when a sequence of reads is
    the same as the bytes they carry. */
module Reads {
  import opened Bytes
  import opened Protocol
  import opened Automaton
  import opened Conversation
  import opened Requests

  /** The read starts inside a part-filled block and runs past its end. Payload is copied under the
      bound of the whole block instead of what is left of it, so such a read leaves the block. */
  predicate Overruns(state: State, read: bytes) {
    && state.GettingPayload?
    && 0 < |state.payload| < state.size
    && state.size - |state.payload| < |read|
  }

  /** What `preprocess_data` does with one read. */
  function TakeRead(cfg: Config, m: Machine, read: bytes): Machine {
    if Overruns(m.state, read) then Break(m, CopyPastBlock) else Run(cfg, m, read)
  }

  function TakeReads(cfg: Config, m: Machine, chunks: seq<bytes>): Machine
    decreases |chunks|
  {
    if chunks == [] then m else TakeReads(cfg, TakeRead(cfg, m, chunks[0]), chunks[1..])
  }

  predicate NoneOverruns(cfg: Config, m: Machine, chunks: seq<bytes>)
    decreases |chunks|
  {
    chunks != [] ==> !Overruns(m.state, chunks[0]) && NoneOverruns(cfg, Run(cfg, m, chunks[0]), chunks[1..])
  }

  lemma {:induction false} CopyPastBlockIsTheEngines(cfg: Config, m: Machine, s: bytes)
    requires m.state != Broken(CopyPastBlock)
    ensures Run(cfg, m, s).state != Broken(CopyPastBlock)
    decreases |s|
  {
    if s == [] {
    } else {
      CopyPastBlockIsTheEngines(cfg, Step(cfg, m, s[0]), s[1..]);
    }
  }

  lemma {:induction false} BrokenTakesNothing(cfg: Config, m: Machine, chunks: seq<bytes>)
    requires m.state.Broken?
    ensures TakeReads(cfg, m, chunks) == m
    decreases |chunks|
  {
    if chunks == [] {
    } else {
      DeadIsFinal(cfg, m, chunks[0]);
      BrokenTakesNothing(cfg, m, chunks[1..]);
    }
  }

  /** Chunk invariance, exactly: reading chunk by chunk gives the state and the event log of the
      byte-at-a-time automaton if and only if no read overruns a part-filled block; and nothing else
      makes a copy leave its block. */
  lemma {:induction false} ChunkInvariance(cfg: Config, m: Machine, chunks: seq<bytes>)
    requires m.state != Broken(CopyPastBlock)
    ensures TakeReads(cfg, m, chunks) == Run(cfg, m, Flatten(chunks)) <==> NoneOverruns(cfg, m, chunks)
    ensures TakeReads(cfg, m, chunks).state == Broken(CopyPastBlock) <==> !NoneOverruns(cfg, m, chunks)
    decreases |chunks|
  {
    if chunks == [] {
    } else {
      var rest := Flatten(chunks[1..]);
      RunAppend(cfg, m, chunks[0], rest);
      CopyPastBlockIsTheEngines(cfg, m, chunks[0] + rest);
      if Overruns(m.state, chunks[0]) {
        BrokenTakesNothing(cfg, Break(m, CopyPastBlock), chunks[1..]);
      } else {
        CopyPastBlockIsTheEngines(cfg, m, chunks[0]);
        ChunkInvariance(cfg, Run(cfg, m, chunks[0]), chunks[1..]);
      }
    }
  }

  lemma RunBlockStart(cfg: Config, m: Machine, data: bytes, k: nat)
    requires m.state.ExpectingBinaryData? && 0 < k < |data| < 0x1_0000_0000
    requires m.state.expected == 0 || m.state.expected == |data|
    ensures Run(cfg, m, EncodeBlock(data)[..HEADER_SIZE + k]).state
            == GettingPayload(|data|, data[..k], m.state.swallow)
  {
    var header := [0] + BigEndian(|data|);
    assert EncodeBlock(data)[..HEADER_SIZE + k] == header + data[..k];
    RunHeader(cfg, m, |data|);
    RunAppend(cfg, m, header, data[..k]);
    RunPayload(cfg, Run(cfg, m, header), data[..k]);
    assert [] + data[..k] == data[..k];
  }

  lemma RunToPayload(cfg: Config, m: Machine, r: Request, k: nat)
    requires m.state.WaitingForCommand? && Acceptable(cfg, r) && r.data.Some? && 0 < k < |r.data.value|
    ensures var state := Run(cfg, m, RequestLine(r) + EncodeBlock(r.data.value)[..HEADER_SIZE + k]).state;
            state.GettingPayload? && state.size == |r.data.value| && state.payload == r.data.value[..k]
  {
    var n := AfterItemLine(cfg, m, ItemOf(r).line);
    RequestIsItem(cfg, r);
    RunLine(cfg, m, ItemOf(r).line);
    LineOfRequest(cfg, m, r);
    RunBlockStart(cfg, n, r.data.value, k);
    RunAppend(cfg, m, RequestLine(r), EncodeBlock(r.data.value)[..HEADER_SIZE + k]);
  }

  /** Where chunk invariance fails: any request whose data is cut by a read boundary, when the next
      bytes arrive together with the rest of the data. */
  lemma CutDataWithMoreBehindItBreaks(cfg: Config, command: nat, r: Request, k: nat, more: bytes)
    requires Acceptable(cfg, r) && r.data.Some? && 0 < k < |r.data.value| && more != []
    ensures var sent := Print(cfg, r);
            var cut := |sent| - (|r.data.value| - k);
            var chunks := [sent[..cut], sent[cut..] + more];
            && TakeReads(cfg, Fresh(command), chunks).state == Broken(CopyPastBlock)
            && TakeReads(cfg, Fresh(command), chunks) != Run(cfg, Fresh(command), Flatten(chunks))
  {
    var sent := Print(cfg, r);
    var cut := |sent| - (|r.data.value| - k);
    var chunks := [sent[..cut], sent[cut..] + more];
    RunToPayload(cfg, Fresh(command), r, k);
    assert sent[..cut] == RequestLine(r) + EncodeBlock(r.data.value)[..HEADER_SIZE + k];
    var m := Run(cfg, Fresh(command), sent[..cut]);
    assert chunks[1..] == [sent[cut..] + more];
    assert Overruns(m.state, chunks[1]);
    BrokenTakesNothing(cfg, Break(m, CopyPastBlock), chunks[1..][1..]);
    assert !NoneOverruns(cfg, m, chunks[1..]);
    ChunkInvariance(cfg, Fresh(command), chunks);
  }

  // ---- a client that sends one request at a time never overruns ----

  /** Bytes of an item already received when it stands inside its block. */
  lemma InsideBlock(cfg: Config, m: Machine, item: Item, k: nat)
    requires Between(m) && WellFormed(cfg, item) && k <= |Encode(item)|
    ensures var state := Run(cfg, m, Encode(item)[..k]).state;
            state.GettingPayload? && 0 < |state.payload| < state.size
            ==> state.size - |state.payload| == |Encode(item)| - k
  {
    var s := Encode(item)[..k];
    var n := Settle(m);
    if k == 0 {
    } else if !n.state.WaitingForCommand? {
      assert s[0] == Encode(item)[0];
      DeadIsFinal(cfg, Step(cfg, m, s[0]), s[1..]);
    } else {
      SettleIsInvisible(cfg, m, s);
      if k <= |item.line| {
        assert s == item.line[..k];
        InsideLine(cfg, n, item.line, k);
      } else {
        InsideOrBehindBlock(cfg, n, item, k);
      }
    }
  }

  lemma InsideLine(cfg: Config, m: Machine, line: bytes, k: nat)
    requires m.state.WaitingForCommand? && WellFormedLine(line) && 1 <= k <= |line|
    ensures !Run(cfg, m, line[..k]).state.GettingPayload?
  {
    assert NEWLINE !in line[..k];
    RunLineStart(cfg, m, line[..k]);
  }

  lemma InsideOrBehindBlock(cfg: Config, m: Machine, item: Item, k: nat)
    requires m.state.WaitingForCommand? && WellFormed(cfg, item)
    requires |item.line| < k <= |Encode(item)|
    ensures var state := Run(cfg, m, Encode(item)[..k]).state;
            state.GettingPayload? && 0 < |state.payload| < state.size
            ==> state.size - |state.payload| == |Encode(item)| - k
  {
    var front := item.line + [NEWLINE];
    var n := AfterItemLine(cfg, m, item.line);
    RunLine(cfg, m, item.line);
    LineOutcome(cfg, m, item);
    if item.block.None? {
      assert Encode(item)[..k] == front;
    } else {
      var data := item.block.value;
      var part := EncodeBlock(data)[..k - |front|];
      assert Encode(item)[..k] == front + part;
      RunAppend(cfg, m, front, part);
      if n.state.Broken? {
        DeadIsFinal(cfg, n, part);
      } else {
        InsideBlockBytes(cfg, n, data, |part|);
      }
    }
  }

  lemma InsideBlockBytes(cfg: Config, m: Machine, data: bytes, k: nat)
    requires m.state.ExpectingBinaryData? && |data| < 0x1_0000_0000 && k <= |EncodeBlock(data)|
    requires m.state.expected == 0 || m.state.expected == |data|
    ensures var state := Run(cfg, m, EncodeBlock(data)[..k]).state;
            state.GettingPayload? && 0 < |state.payload| < state.size
            ==> state.size - |state.payload| == |EncodeBlock(data)| - k
  {
    var s := EncodeBlock(data)[..k];
    var header := [0] + BigEndian(|data|);
    if k == 0 {
    } else if k < HEADER_SIZE {
      RunHeaderPart(cfg, m, s);
    } else {
      assert s == header + data[..k - HEADER_SIZE];
      RunHeader(cfg, m, |data|);
      RunAppend(cfg, m, header, data[..k - HEADER_SIZE]);
      if k > HEADER_SIZE {
        RunPayload(cfg, Run(cfg, m, header), data[..k - HEADER_SIZE]);
      }
    }
  }

  lemma CutTail(s: bytes, k: nat, a: bytes, b: bytes)
    requires k <= |s| && s[k..] == a + b
    ensures k + |a| <= |s| && s[..k + |a|] == s[..k] + a && s[k + |a|..] == b
  {
    assert s == s[..k] + s[k..] == s[..k] + a + b;
  }

  /** Any split of what is left of one item. */
  lemma {:induction false} OneItemNeverOverruns(cfg: Config, m: Machine, item: Item, k: nat, chunks: seq<bytes>)
    requires Between(m) && WellFormed(cfg, item) && k <= |Encode(item)|
    requires Flatten(chunks) == Encode(item)[k..]
    ensures NoneOverruns(cfg, Run(cfg, m, Encode(item)[..k]), chunks)
    decreases |chunks|
  {
    if chunks == [] {
    } else {
      var s := Encode(item);
      CutTail(s, k, chunks[0], Flatten(chunks[1..]));
      InsideBlock(cfg, m, item, k);
      RunAppend(cfg, m, s[..k], chunks[0]);
      OneItemNeverOverruns(cfg, m, item, k + |chunks[0]|, chunks[1..]);
    }
  }

  lemma {:induction false} NoneOverrunsAppend(cfg: Config, m: Machine, a: seq<bytes>, b: seq<bytes>)
    requires NoneOverruns(cfg, m, a) && NoneOverruns(cfg, Run(cfg, m, Flatten(a)), b)
    ensures NoneOverruns(cfg, m, a + b)
    decreases |a|
  {
    if a == [] {
      assert a + b == b;
    } else {
      assert (a + b)[0] == a[0] && (a + b)[1..] == a[1..] + b;
      RunAppend(cfg, m, a[0], Flatten(a[1..]));
      NoneOverrunsAppend(cfg, Run(cfg, m, a[0]), a[1..], b);
    }
  }

  function Concat(deliveries: seq<seq<bytes>>): seq<bytes> {
    if deliveries == [] then [] else deliveries[0] + Concat(deliveries[1..])
  }

  /** Each request arrives in reads of its own, in any number and with any boundaries, as for a
      client that waits for a reply before it sends the next request. */
  predicate OneAtATime(cfg: Config, rs: seq<Request>, deliveries: seq<seq<bytes>>)
    requires AllAcceptable(cfg, rs)
  {
    && |deliveries| == |rs|
    && forall i :: 0 <= i < |rs| ==> Flatten(deliveries[i]) == Print(cfg, rs[i])
  }

  lemma {:induction false} LockstepNeverOverruns(cfg: Config, m: Machine, rs: seq<Request>, deliveries: seq<seq<bytes>>)
    requires Settle(m).state.WaitingForCommand? && AllAcceptable(cfg, rs) && OneAtATime(cfg, rs, deliveries)
    ensures Flatten(Concat(deliveries)) == PrintAll(cfg, rs)
    ensures NoneOverruns(cfg, m, Concat(deliveries))
    decreases |rs|
  {
    if rs == [] {
    } else {
      var item := ItemOf(rs[0]);
      RequestIsItem(cfg, rs[0]);
      var s := Encode(item);
      assert s[..0] == [] && s[0..] == s;
      OneItemNeverOverruns(cfg, m, item, 0, deliveries[0]);
      FlattenAppend(deliveries[0], Concat(deliveries[1..]));
      ConversationRoundTrip(cfg, m, rs[..1]);
      assert rs[..1][1..] == [] && PrintAll(cfg, rs[..1]) == Print(cfg, rs[0]) + [] == s;
      LockstepNeverOverruns(cfg, Run(cfg, m, s), rs[1..], deliveries[1..]);
      NoneOverrunsAppend(cfg, m, deliveries[0], Concat(deliveries[1..]));
    }
  }

  /** The conversation round trip over the wire: whatever reads the printed requests arrive in,
      if none overruns (and none does when the client sends one request at a time), the server
      performs exactly the requests. */
  lemma DeliveredConversation(cfg: Config, command: nat, rs: seq<Request>, chunks: seq<bytes>)
    requires AllAcceptable(cfg, rs) && Flatten(chunks) == PrintAll(cfg, rs)
    requires NoneOverruns(cfg, Fresh(command), chunks)
    ensures var served := Settle(TakeReads(cfg, Fresh(command), chunks));
            served.state == WaitingForCommand && served.log == AllEventsOf(cfg, rs)
  {
    ChunkInvariance(cfg, Fresh(command), chunks);
    ServedFresh(cfg, command, rs);
  }

  lemma LockstepConversation(cfg: Config, command: nat, rs: seq<Request>, deliveries: seq<seq<bytes>>)
    requires AllAcceptable(cfg, rs) && OneAtATime(cfg, rs, deliveries)
    ensures var served := Settle(TakeReads(cfg, Fresh(command), Concat(deliveries)));
            served.state == WaitingForCommand && served.log == AllEventsOf(cfg, rs)
  {
    LockstepNeverOverruns(cfg, Fresh(command), rs, deliveries);
    DeliveredConversation(cfg, command, rs, Concat(deliveries));
  }
}
