/** The list of offset and size pairs built from the arguments of a memory command. */
module MemoryArgument {
  import opened Bytes
  import opened Numbers

  datatype Range = Range(offset: uint32, size: uint32)

  /** The value of one argument in an `unsigned int` field. */
  function FieldValue(arg: bytes): uint32 {
    GetOffset(arg) % 0x1_0000_0000
  }

  function FieldValues(args: seq<bytes>): (r: seq<uint32>)
    ensures |r| == |args|
    ensures forall i :: 0 <= i < |args| ==> r[i] == FieldValue(args[i])
  {
    if args == [] then [] else [FieldValue(args[0])] + FieldValues(args[1..])
  }

  /** Consecutive pairs; a last offset without a size has size zero, and no argument at all is one
      pair of zeros. */
  function Pairs(values: seq<uint32>): (r: seq<Range>)
    ensures r != []
  {
    if values == [] then [Range(0, 0)]
    else if |values| == 1 then [Range(values[0], 0)]
    else if |values| == 2 then [Range(values[0], values[1])]
    else [Range(values[0], values[1])] + Pairs(values[2..])
  }

  function Ranges(args: seq<bytes>): seq<Range> {
    Pairs(FieldValues(args))
  }

  function PairCount(n: nat): nat {
    if n == 0 then 1 else (n + 1) / 2
  }

  /** max(1, ceil(n/2)) pairs, and which values the k-th one holds. */
  lemma {:induction false} PairsAt(values: seq<uint32>, k: nat)
    requires k < PairCount(|values|)
    ensures |Pairs(values)| == PairCount(|values|)
    ensures Pairs(values)[k] == Range(if 2 * k < |values| then values[2 * k] else 0,
                                      if 2 * k + 1 < |values| then values[2 * k + 1] else 0)
    decreases |values|
  {
    if |values| <= 2 {
    } else {
      PairsAt(values[2..], if k == 0 then 0 else k - 1);
    }
  }

  class Node {
    var offset: uint32
    var size: uint32
    var next: Node?

    constructor ()
      ensures offset == 0 && size == 0 && next == null
    {
      offset, size, next := 0, 0, null;
    }
  }

  /** These nodes, in this order, are a list that ends: no node occurs twice. */
  ghost predicate IsChain(nodes: seq<Node>)
    reads nodes`next
  {
    && nodes != []
    && (forall i, j :: 0 <= i < j < |nodes| ==> nodes[i] != nodes[j])
    && (forall i, j :: 0 <= i < j < |nodes| && j == i + 1 ==> nodes[i].next == nodes[j])
    && nodes[|nodes| - 1].next == null
  }

  /** The nodes hold the pairs of the first i values. */
  ghost predicate HoldsPairs(nodes: seq<Node>, values: seq<uint32>, i: nat)
    requires i <= |values|
    reads nodes`offset, nodes`size
  {
    forall k :: 0 <= k < |nodes| ==>
      && nodes[k].offset == (if 2 * k < i then values[2 * k] else 0)
      && nodes[k].size == (if 2 * k + 1 < i then values[2 * k + 1] else 0)
  }

  /** One more node of zeros behind the last one. */
  method AppendNode(cur: Node, i: nat, ghost nodes: seq<Node>, ghost values: seq<uint32>) returns (node: Node)
    requires IsChain(nodes) && cur == nodes[|nodes| - 1]
    requires i <= |values| && i == 2 * |nodes| && HoldsPairs(nodes, values, i)
    modifies cur`next
    ensures fresh(node) && node.offset == 0 && node.size == 0
    ensures IsChain(nodes + [node]) && HoldsPairs(nodes + [node], values, i)
  {
    node := new Node();
    cur.next := node;
  }

  /** One argument stored in the last node. */
  method StoreArgument(cur: Node, value: uint32, i: nat, ghost nodes: seq<Node>, ghost values: seq<uint32>)
    requires IsChain(nodes) && |nodes| == i / 2 + 1 && cur == nodes[i / 2]
    requires i < |values| && value == values[i] && HoldsPairs(nodes, values, i)
    modifies cur`offset, cur`size
    ensures HoldsPairs(nodes, values, i + 1)
  {
    if i % 2 == 0 {
      cur.offset := value;
    } else {
      cur.size := value;
    }
  }

  /** Nodes made when i of n arguments are stored: no node is made ahead behind the last argument. */
  function NodesAfter(i: nat, n: nat): nat {
    if i < n then i / 2 + 1 else PairCount(i)
  }

  lemma NextNodes(i: nat, n: nat)
    requires i < n
    ensures NodesAfter(i, n) == i / 2 + 1
    ensures NodesAfter(i + 1, n) == i / 2 + 1 + if i % 2 != 0 && i + 1 != n then 1 else 0
    ensures i % 2 != 0 ==> i + 1 == 2 * (i / 2 + 1)
  {
  }

  /** One turn of the loop: the argument is stored, and a node made when a pair is full and there are
      arguments left. */
  method TakeArgument(cur: Node, value: uint32, i: nat, n: nat, ghost nodes: seq<Node>, ghost values: seq<uint32>)
    returns (last: Node, ghost all: seq<Node>)
    requires i < n == |values| && value == values[i]
    requires IsChain(nodes) && cur == nodes[|nodes| - 1]
    requires |nodes| == NodesAfter(i, n) && HoldsPairs(nodes, values, i)
    modifies cur
    ensures IsChain(all) && all[0] == nodes[0] && last == all[|all| - 1]
    ensures |all| == NodesAfter(i + 1, n) && HoldsPairs(all, values, i + 1)
    ensures forall k :: 0 <= k < |all| ==> all[k] in nodes || fresh(all[k])
  {
    NextNodes(i, n);
    StoreArgument(cur, value, i, nodes, values);
    last, all := cur, nodes;
    if i % 2 != 0 && i + 1 != n {
      last := AppendNode(cur, i + 1, nodes, values);
      all := nodes + [last];
    }
  }

  /** `parse_memory_argument`. */
  method ParseMemoryArgument(args: seq<bytes>) returns (first: Node, ghost nodes: seq<Node>)
    ensures IsChain(nodes) && first == nodes[0] && forall i :: 0 <= i < |nodes| ==> fresh(nodes[i])
    ensures |nodes| == |Ranges(args)|
    ensures forall k :: 0 <= k < |nodes| ==> Range(nodes[k].offset, nodes[k].size) == Ranges(args)[k]
  {
    ghost var values := FieldValues(args);
    first := new Node();
    nodes := [first];
    var cur := first;
    var i := 0;
    while i < |args|
      invariant i <= |args| && IsChain(nodes) && first == nodes[0] && cur == nodes[|nodes| - 1]
      invariant forall k :: 0 <= k < |nodes| ==> fresh(nodes[k])
      invariant |nodes| == NodesAfter(i, |args|)
      invariant HoldsPairs(nodes, values, i)
    {
      cur, nodes := TakeArgument(cur, FieldValue(args[i]), i, |args|, nodes, values);
      i := i + 1;
    }
    PairsHeld(nodes, values);
  }

  lemma PairsHeld(nodes: seq<Node>, values: seq<uint32>)
    requires HoldsPairs(nodes, values, |values|) && |nodes| == PairCount(|values|)
    ensures |nodes| == |Pairs(values)|
    ensures forall k :: 0 <= k < |nodes| ==> Range(nodes[k].offset, nodes[k].size) == Pairs(values)[k]
  {
    PairsAt(values, 0);
    forall k | 0 <= k < |nodes| ensures Range(nodes[k].offset, nodes[k].size) == Pairs(values)[k] {
      PairsAt(values, k);
    }
  }

  /** How a client may print a number; it may choose anew for every number, and every letter. */
  datatype Style = InDecimal | InHex(lower: seq<bool>)

  function RenderAs(n: nat, style: Style): bytes {
    if style.InHex? then DollarHex(n, style.lower) else Decimal(n)
  }

  /** A list of ranges, the numbers in these notations one by one. */
  function RenderRanges(ranges: seq<Range>, styles: seq<Style>): (args: seq<bytes>)
    requires |styles| == 2 * |ranges|
    ensures |args| == |styles|
  {
    if ranges == [] then []
    else
      [RenderAs(ranges[0].offset, styles[0]), RenderAs(ranges[0].size, styles[1])]
      + RenderRanges(ranges[1..], styles[2..])
  }

  /** Numbers that the server's conversion is defined for. */
  predicate OffsetInRange(n: nat, style: Style) {
    n < if style.InHex? then 0x1_0000_0000_0000_0000 else 0x8000_0000_0000_0000
  }

  lemma RenderedIsRead(n: nat, style: Style)
    requires OffsetInRange(n, style)
    ensures GetOffset(RenderAs(n, style)) == n
  {
    if style.InHex? {
      var text := WithCase(Render(n, 16), style.lower);
      assert SameDigits(text, Render(n, 16));
      HexOffset(n, text);
    } else {
      DecimalOffset(n);
    }
  }

  /** A field keeps the low 32 bits of its argument. */
  lemma RenderedField(n: nat, style: Style)
    requires OffsetInRange(n, style)
    ensures FieldValue(RenderAs(n, style)) == n % 0x1_0000_0000
  {
    RenderedIsRead(n, style);
  }

  lemma RenderedUint(n: uint32, style: Style)
    ensures FieldValue(RenderAs(n, style)) == n
  {
    RenderedField(n, style);
  }

  /** Printing a list of ranges and parsing it is the identity. */
  lemma {:induction false} RangesRoundTrip(ranges: seq<Range>, styles: seq<Style>)
    requires ranges != [] && |styles| == 2 * |ranges|
    ensures Ranges(RenderRanges(ranges, styles)) == ranges
    decreases |ranges|
  {
    var args := RenderRanges(ranges, styles);
    RenderedUint(ranges[0].offset, styles[0]);
    RenderedUint(ranges[0].size, styles[1]);
    var values, rest := FieldValues(args), FieldValues(args[2..]);
    assert args[2..] == RenderRanges(ranges[1..], styles[2..]);
    assert values[2..] == rest;
    assert ranges == [ranges[0]] + ranges[1..];
    if |ranges| == 1 {
    } else {
      RangesRoundTrip(ranges[1..], styles[2..]);
    }
  }
}
