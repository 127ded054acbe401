/** Deliveries judged by their bytes: which reads run past a block, and what a whole delivery to a new
    connection comes to, said without the parser. */
module Deliveries {
  import opened Bytes
  import opened Protocol
  import opened Automaton
  import opened Conversation
  import opened Faults
  import opened Requests
  import opened Reads

  // ---- any bytes ----

  /** The bytes before this read end inside the data of a block, and the read goes on behind it. */
  predicate RunsPast(cfg: Config, command: nat, before: bytes, read: bytes) {
    var finding := Search(cfg, command, before);
    finding.CutData? && finding.missing < |read|
  }

  ghost predicate ReadsFit(cfg: Config, command: nat, chunks: seq<bytes>) {
    forall i :: 0 <= i < |chunks| ==> !RunsPast(cfg, command, Flatten(chunks[..i]), chunks[i])
  }

  lemma FlattenFrom(chunks: seq<bytes>, i: nat)
    requires 0 < i <= |chunks|
    ensures Flatten(chunks[..i]) == chunks[0] + Flatten(chunks[1..][..i - 1])
  {
    assert chunks[..i][1..] == chunks[1..][..i - 1];
  }

  /** Overrunning is a matter of the bytes before a read and its length. */
  lemma {:induction false} OverrunsAreSeen(cfg: Config, command: nat, before: bytes, chunks: seq<bytes>)
    ensures NoneOverruns(cfg, Run(cfg, Fresh(command), before), chunks) <==>
            forall i :: 0 <= i < |chunks| ==> !RunsPast(cfg, command, before + Flatten(chunks[..i]), chunks[i])
    decreases |chunks|
  {
    if chunks == [] {
    } else {
      var m, next := Run(cfg, Fresh(command), before), before + chunks[0];
      SearchIsRun(cfg, Fresh(command), before);
      assert chunks[..0] == [] && before + Flatten(chunks[..0]) == before;
      assert Overruns(m.state, chunks[0]) <==> RunsPast(cfg, command, before + Flatten(chunks[..0]), chunks[0]);
      RunAppend(cfg, Fresh(command), before, chunks[0]);
      OverrunsAreSeen(cfg, command, next, chunks[1..]);
      forall i | 0 < i < |chunks|
        ensures before + Flatten(chunks[..i]) == next + Flatten(chunks[1..][..i - 1]) && chunks[i] == chunks[1..][i - 1]
      {
        FlattenFrom(chunks, i);
        ConcatIsAssociative(before, chunks[0], Flatten(chunks[1..][..i - 1]));
      }
    }
  }

  lemma FitIsNoneOverruns(cfg: Config, command: nat, chunks: seq<bytes>)
    ensures NoneOverruns(cfg, Fresh(command), chunks) <==> ReadsFit(cfg, command, chunks)
  {
    OverrunsAreSeen(cfg, command, [], chunks);
    forall i | 0 <= i < |chunks| ensures [] + Flatten(chunks[..i]) == Flatten(chunks[..i]) {
    }
  }

  /** The fault that a delivery leads to, when the slot of the connection holds this command. */
  ghost function FaultOfReads(cfg: Config, command: nat, chunks: seq<bytes>): Option<Fault> {
    if ReadsFit(cfg, command, chunks) then FaultOf(cfg, command, Flatten(chunks)) else Some(CopyPastBlock)
  }

  /** Exactly which deliveries take the server out of defined behaviour, or into an endless loop, and
      which of the five faults each meets; for all others its loop comes to an end with every read. */
  lemma DeliveryFaultsAreExact(cfg: Config, command: nat, chunks: seq<bytes>, fault: Fault)
    ensures var state := TakeReads(cfg, Fresh(command), chunks).state;
      && (state == Broken(fault) <==> FaultOfReads(cfg, command, chunks) == Some(fault))
      && (state.Broken? <==> FaultOfReads(cfg, command, chunks).Some?)
  {
    ChunkInvariance(cfg, Fresh(command), chunks);
    FitIsNoneOverruns(cfg, command, chunks);
    FaultsAreExact(cfg, command, Flatten(chunks), fault);
  }

  // ---- the bytes of requests ----

  /** No prefix of acceptable requests has a fault. */
  lemma RequestsHaveNoFault(cfg: Config, command: nat, rs: seq<Request>, s: bytes)
    requires AllAcceptable(cfg, rs) && s <= PrintAll(cfg, rs)
    ensures FaultOf(cfg, command, s).None?
  {
    var all := PrintAll(cfg, rs);
    SearchIsRun(cfg, Fresh(command), s);
    if Run(cfg, Fresh(command), s).state.Broken? {
      assert all == s + all[|s|..];
      RunAppend(cfg, Fresh(command), s, all[|s|..]);
      DeadIsFinal(cfg, Run(cfg, Fresh(command), s), all[|s|..]);
      ServedFresh(cfg, command, rs);
    }
  }

  /** Where the first k bytes of a request leave off. */
  function WithinRequest(cfg: Config, r: Request, k: nat): Finding
    requires Acceptable(cfg, r)
  {
    if r.data.Some? && |RequestLine(r)| + HEADER_SIZE < k < |Print(cfg, r)| then CutData(|Print(cfg, r)| - k) else Clean
  }

  lemma LinePart(cfg: Config, m: Machine, line: bytes, k: nat)
    requires m.state.WaitingForCommand? && WellFormedLine(line) && 0 < k <= |line| && k <= LINE_CAPACITY
    ensures FindingIn(Run(cfg, m, line[..k]).state) == Clean
  {
    RunLineStart(cfg, m, line[..k]);
  }

  /** The state behind the line of a request. */
  lemma RequestLineLeads(cfg: Config, m: Machine, r: Request)
    requires m.state.WaitingForCommand? && Acceptable(cfg, r)
    ensures var state := Run(cfg, m, RequestLine(r)).state;
      if r.data.Some?
      then state.ExpectingBinaryData? && (state.expected == 0 || state.expected == |r.data.value|)
      else state.WaitingForCommand?
  {
    RequestIsItem(cfg, r);
    RunLine(cfg, m, ItemOf(r).line);
    LineOfRequest(cfg, m, r);
  }

  lemma HeaderPart(cfg: Config, m: Machine, data: bytes, k: nat)
    requires m.state.ExpectingBinaryData? && |data| < 0x1_0000_0000 && 0 < k <= HEADER_SIZE
    requires m.state.expected == 0 || m.state.expected == |data|
    ensures FindingIn(Run(cfg, m, EncodeBlock(data)[..k]).state) == Clean
  {
    var part := EncodeBlock(data)[..k];
    if k < HEADER_SIZE {
      RunHeaderPart(cfg, m, part);
    } else {
      assert part == [0] + BigEndian(|data|);
      RunHeader(cfg, m, |data|);
    }
  }

  lemma PartOfBlock(cfg: Config, m: Machine, data: bytes, k: nat)
    requires m.state.ExpectingBinaryData? && |data| < 0x1_0000_0000 && 0 < k < |EncodeBlock(data)|
    requires m.state.expected == 0 || m.state.expected == |data|
    ensures FindingIn(Run(cfg, m, EncodeBlock(data)[..k]).state)
            == if k <= HEADER_SIZE then Clean else CutData(|EncodeBlock(data)| - k)
  {
    if k <= HEADER_SIZE {
      HeaderPart(cfg, m, data, k);
    } else {
      RunBlockStart(cfg, m, data, k - HEADER_SIZE);
    }
  }

  lemma CutInBlock(line: bytes, block: bytes, k: nat)
    requires |line| <= k <= |line| + |block|
    ensures (line + block)[..k] == line + block[..k - |line|]
  {
  }

  lemma BlockPart(cfg: Config, m: Machine, line: bytes, data: bytes, k: nat)
    requires |data| < 0x1_0000_0000 && |line| < k < |line| + |EncodeBlock(data)|
    requires var state := Run(cfg, m, line).state;
             state.ExpectingBinaryData? && (state.expected == 0 || state.expected == |data|)
    ensures FindingIn(Run(cfg, m, (line + EncodeBlock(data))[..k]).state)
            == if k <= |line| + HEADER_SIZE then Clean else CutData(|line| + |EncodeBlock(data)| - k)
  {
    CutInBlock(line, EncodeBlock(data), k);
    RunAppend(cfg, m, line, EncodeBlock(data)[..k - |line|]);
    PartOfBlock(cfg, Run(cfg, m, line), data, k - |line|);
  }

  lemma RequestPart(cfg: Config, m: Machine, r: Request, k: nat)
    requires m.state.WaitingForCommand? && Acceptable(cfg, r) && 0 < k <= |Print(cfg, r)|
    ensures FindingIn(Run(cfg, m, Print(cfg, r)[..k]).state) == WithinRequest(cfg, r, k)
  {
    var line, item := RequestLine(r), ItemOf(r).line;
    if k == |Print(cfg, r)| {
      assert Print(cfg, r)[..k] == Print(cfg, r);
      RequestRoundTrip(cfg, m, r);
    } else if k < |line| {
      RequestIsItem(cfg, r);
      assert Print(cfg, r)[..k] == item[..k];
      LinePart(cfg, m, item, k);
    } else {
      RequestLineLeads(cfg, m, r);
      if k == |line| {
        assert Print(cfg, r)[..k] == line;
      } else {
        BlockPart(cfg, m, line, r.data.value, k);
      }
    }
  }

  /** Where the first p bytes of a conversation leave off. */
  function WithinRequests(cfg: Config, rs: seq<Request>, p: nat): Finding
    requires AllAcceptable(cfg, rs)
    decreases |rs|
  {
    if rs == [] then Clean
    else if p <= |Print(cfg, rs[0])| then WithinRequest(cfg, rs[0], p)
    else WithinRequests(cfg, rs[1..], p - |Print(cfg, rs[0])|)
  }

  lemma {:induction false} RequestsPart(cfg: Config, m: Machine, rs: seq<Request>, p: nat)
    requires Settle(m).state.WaitingForCommand? && AllAcceptable(cfg, rs) && p <= |PrintAll(cfg, rs)|
    ensures FindingIn(Run(cfg, m, PrintAll(cfg, rs)[..p]).state) == WithinRequests(cfg, rs, p)
    decreases |rs|
  {
    var all := PrintAll(cfg, rs);
    if p == 0 {
      assert all[..p] == [];
    } else {
      var first, rest := Print(cfg, rs[0]), PrintAll(cfg, rs[1..]);
      SettleIsInvisible(cfg, m, all[..p]);
      if p <= |first| {
        assert all[..p] == first[..p];
        RequestPart(cfg, Settle(m), rs[0], p);
      } else {
        assert all[..p] == first + rest[..p - |first|];
        RunAppend(cfg, m, first, rest[..p - |first|]);
        SettleIsInvisible(cfg, m, first + rest[..p - |first|]);
        FirstRequest(cfg, m, rs[0]);
        RequestsPart(cfg, Run(cfg, m, first), rs[1..], p - |first|);
      }
    }
  }

  /** First and last position of the data of request j; they are empty when there are none. */
  function DataStart(cfg: Config, rs: seq<Request>, j: nat): nat
    requires AllAcceptable(cfg, rs) && j < |rs|
  {
    DataEnd(cfg, rs, j) - if rs[j].data.Some? then |rs[j].data.value| else 0
  }

  function DataEnd(cfg: Config, rs: seq<Request>, j: nat): (p: nat)
    requires AllAcceptable(cfg, rs) && j < |rs|
    ensures p >= |Print(cfg, rs[j])|
    decreases j
  {
    |Print(cfg, rs[0])| + if j == 0 then 0 else DataEnd(cfg, rs[1..], j - 1)
  }

  lemma ShiftedSlice(first: bytes, rest: bytes, a: nat, b: nat)
    requires a <= b <= |rest|
    ensures (first + rest)[|first| + a..|first| + b] == rest[a..b]
  {
  }

  lemma SliceOfFirst(first: bytes, rest: bytes, a: nat, b: nat)
    requires a <= b <= |first|
    ensures (first + rest)[a..b] == first[a..b]
  {
  }

  lemma DataBehindFirst(cfg: Config, rs: seq<Request>, j: nat)
    requires AllAcceptable(cfg, rs) && 0 < j < |rs|
    ensures var first := |Print(cfg, rs[0])|;
      && DataStart(cfg, rs, j) == first + DataStart(cfg, rs[1..], j - 1)
      && DataEnd(cfg, rs, j) == first + DataEnd(cfg, rs[1..], j - 1)
      && 0 <= DataStart(cfg, rs[1..], j - 1) <= DataEnd(cfg, rs[1..], j - 1)
  {
    assert rs[1..][j - 1] == rs[j];
  }

  lemma DataOfFirst(cfg: Config, rs: seq<Request>)
    requires AllAcceptable(cfg, rs) && rs != [] && rs[0].data.Some?
    ensures Print(cfg, rs[0])[DataStart(cfg, rs, 0)..DataEnd(cfg, rs, 0)] == rs[0].data.value
  {
    var line, data := RequestLine(rs[0]), rs[0].data.value;
    assert Print(cfg, rs[0]) == line + ([0] + BigEndian(|data|)) + data;
  }

  ghost predicate DataStands(cfg: Config, rs: seq<Request>, j: nat)
    requires AllAcceptable(cfg, rs) && j < |rs|
  {
    var a, b, all := DataStart(cfg, rs, j), DataEnd(cfg, rs, j), PrintAll(cfg, rs);
    0 <= a <= b <= |all| && (rs[j].data.Some? ==> all[a..b] == rs[j].data.value)
  }

  lemma FirstDataStands(cfg: Config, rs: seq<Request>)
    requires AllAcceptable(cfg, rs) && rs != []
    ensures DataStands(cfg, rs, 0)
  {
    var first, rest := Print(cfg, rs[0]), PrintAll(cfg, rs[1..]);
    if rs[0].data.Some? {
      DataOfFirst(cfg, rs);
    }
    SliceOfFirst(first, rest, DataStart(cfg, rs, 0), |first|);
  }

  lemma LaterDataStands(cfg: Config, rs: seq<Request>, j: nat)
    requires AllAcceptable(cfg, rs) && 0 < j < |rs| && DataStands(cfg, rs[1..], j - 1)
    ensures DataStands(cfg, rs, j)
  {
    DataBehindFirst(cfg, rs, j);
    assert rs[1..][j - 1] == rs[j];
    var a, b := DataStart(cfg, rs[1..], j - 1), DataEnd(cfg, rs[1..], j - 1);
    ShiftedSlice(Print(cfg, rs[0]), PrintAll(cfg, rs[1..]), a, b);
  }

  /** These are positions in the printed conversation. */
  lemma {:induction false} DataIsThere(cfg: Config, rs: seq<Request>, j: nat)
    requires AllAcceptable(cfg, rs) && j < |rs|
    ensures 0 <= DataStart(cfg, rs, j) <= DataEnd(cfg, rs, j) <= |PrintAll(cfg, rs)|
    ensures rs[j].data.Some? ==> PrintAll(cfg, rs)[DataStart(cfg, rs, j)..DataEnd(cfg, rs, j)] == rs[j].data.value
    decreases j
  {
    if j == 0 {
      FirstDataStands(cfg, rs);
    } else {
      DataIsThere(cfg, rs[1..], j - 1);
      assert DataStands(cfg, rs[1..], j - 1);
      LaterDataStands(cfg, rs, j);
    }
  }

  /** A read of n bytes from position p on starts strictly inside the data of request j and ends behind
      it. */
  predicate Straddles(cfg: Config, rs: seq<Request>, j: nat, p: int, n: nat)
    requires AllAcceptable(cfg, rs) && j < |rs|
  {
    DataStart(cfg, rs, j) < p < DataEnd(cfg, rs, j) < p + n
  }

  lemma StraddlesFirst(cfg: Config, rs: seq<Request>, p: nat, n: nat)
    requires AllAcceptable(cfg, rs) && rs != []
    ensures var finding := WithinRequest(cfg, rs[0], p);
            (finding.CutData? && finding.missing < n) <==> Straddles(cfg, rs, 0, p, n)
  {
    if rs[0].data.Some? {
      assert |Print(cfg, rs[0])| == |RequestLine(rs[0])| + HEADER_SIZE + |rs[0].data.value|;
    }
  }

  lemma StraddlesBehindFirst(cfg: Config, rs: seq<Request>, p: nat, n: nat)
    requires AllAcceptable(cfg, rs) && rs != []
    ensures var first := |Print(cfg, rs[0])|;
      forall j :: 0 < j < |rs| ==>
        && (Straddles(cfg, rs, j, p, n) <==> Straddles(cfg, rs[1..], j - 1, p - first, n))
        && (Straddles(cfg, rs, j, p, n) ==> p > first)
  {
    forall j | 0 < j < |rs|
      ensures Straddles(cfg, rs, j, p, n) <==> Straddles(cfg, rs[1..], j - 1, p - |Print(cfg, rs[0])|, n)
      ensures Straddles(cfg, rs, j, p, n) ==> p > |Print(cfg, rs[0])|
    {
      DataBehindFirst(cfg, rs, j);
    }
  }

  ghost predicate SomeStraddles(cfg: Config, rs: seq<Request>, p: nat, n: nat)
    requires AllAcceptable(cfg, rs)
  {
    exists j :: 0 <= j < |rs| && Straddles(cfg, rs, j, p, n)
  }

  lemma SomeStraddlesSplit(cfg: Config, rs: seq<Request>, p: nat, n: nat)
    requires AllAcceptable(cfg, rs) && rs != []
    ensures var first := |Print(cfg, rs[0])|;
            SomeStraddles(cfg, rs, p, n) <==>
            if p <= first then Straddles(cfg, rs, 0, p, n) else SomeStraddles(cfg, rs[1..], p - first, n)
  {
    var first, tail := |Print(cfg, rs[0])|, rs[1..];
    StraddlesBehindFirst(cfg, rs, p, n);
    if p > first && SomeStraddles(cfg, tail, p - first, n) {
      var j :| 0 <= j < |tail| && Straddles(cfg, tail, j, p - first, n);
      assert Straddles(cfg, rs, j + 1, p, n);
    }
  }

  lemma {:induction false} WithinByPositions(cfg: Config, rs: seq<Request>, p: nat, n: nat)
    requires AllAcceptable(cfg, rs)
    ensures var finding := WithinRequests(cfg, rs, p);
            (finding.CutData? && finding.missing < n) <==> SomeStraddles(cfg, rs, p, n)
    decreases |rs|
  {
    if rs == [] {
    } else {
      SomeStraddlesSplit(cfg, rs, p, n);
      if p <= |Print(cfg, rs[0])| {
        StraddlesFirst(cfg, rs, p, n);
      } else {
        WithinByPositions(cfg, rs[1..], p - |Print(cfg, rs[0])|, n);
      }
    }
  }

  /** No read starts strictly inside the data of a request and ends behind it. */
  ghost predicate KeepsToData(cfg: Config, rs: seq<Request>, chunks: seq<bytes>)
    requires AllAcceptable(cfg, rs)
  {
    forall i, j :: 0 <= i < |chunks| && 0 <= j < |rs| ==>
      !Straddles(cfg, rs, j, |Flatten(chunks[..i])|, |chunks[i]|)
  }

  lemma FlattenPrefix(chunks: seq<bytes>, i: nat)
    requires i <= |chunks|
    ensures Flatten(chunks[..i]) <= Flatten(chunks)
  {
    assert chunks == chunks[..i] + chunks[i..];
    FlattenAppend(chunks[..i], chunks[i..]);
  }

  /** For the bytes of requests that is all there is to overrunning. */
  lemma OverrunsByPosition(cfg: Config, command: nat, rs: seq<Request>, chunks: seq<bytes>)
    requires AllAcceptable(cfg, rs) && Flatten(chunks) == PrintAll(cfg, rs)
    ensures NoneOverruns(cfg, Fresh(command), chunks) <==> KeepsToData(cfg, rs, chunks)
  {
    FitIsNoneOverruns(cfg, command, chunks);
    forall i | 0 <= i < |chunks|
      ensures RunsPast(cfg, command, Flatten(chunks[..i]), chunks[i]) <==>
              SomeStraddles(cfg, rs, |Flatten(chunks[..i])|, |chunks[i]|)
    {
      var p := |Flatten(chunks[..i])|;
      FlattenPrefix(chunks, i);
      assert Flatten(chunks[..i]) == PrintAll(cfg, rs)[..p];
      SearchIsRun(cfg, Fresh(command), Flatten(chunks[..i]));
      RequestsPart(cfg, Fresh(command), rs, p);
      WithinByPositions(cfg, rs, p, |chunks[i]|);
    }
  }

  /** The conversation round trip over the wire, with the delivery judged by its byte positions. */
  lemma ConversationDelivered(cfg: Config, command: nat, rs: seq<Request>, chunks: seq<bytes>)
    requires AllAcceptable(cfg, rs) && Flatten(chunks) == PrintAll(cfg, rs)
    ensures var served := Settle(TakeReads(cfg, Fresh(command), chunks));
            if KeepsToData(cfg, rs, chunks)
            then served.state == WaitingForCommand && served.log == AllEventsOf(cfg, rs)
            else served.state == Broken(CopyPastBlock)
  {
    OverrunsByPosition(cfg, command, rs, chunks);
    ChunkInvariance(cfg, Fresh(command), chunks);
    if KeepsToData(cfg, rs, chunks) {
      DeliveredConversation(cfg, command, rs, chunks);
    }
  }
}
