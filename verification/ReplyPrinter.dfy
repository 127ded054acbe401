/** The server's reply functions, on a socket that remembers what was written to it. */
module ReplyPrinter {
  import opened Bytes
  import opened Protocol
  import opened Conversation
  import opened Replies

  class Socket {
    var sent: bytes

    constructor ()
      ensures sent == []
    {
      sent := [];
    }

    method Write(data: bytes)
      modifies this
      ensures sent == old(sent) + data
    {
      sent := sent + data;
    }

    /** `__send_hash_reply`: each pair is formatted into a buffer of its own; the terminator that
        `snprintf` leaves behind the text is overwritten by the newline. */
    method SendPairs(pairs: seq<Pair>, end: bool)
      modifies this
      ensures sent == old(sent) + PrintPairs(pairs) + if end then [NEWLINE] else []
    {
      var i := 0;
      while i < |pairs|
        invariant i <= |pairs|
        invariant sent + PrintPairs(pairs[i..]) == old(sent) + PrintPairs(pairs)
      {
        var key, value := pairs[i].key, pairs[i].value;
        var sizeKv := |key| + |value|;
        var buffer := new byte[sizeKv + 3];
        var n := Snprintf(buffer, sizeKv + 2, key + [COLON] + value);
        buffer[sizeKv + 1] := NEWLINE;
        ghost var before := sent;
        assert buffer[..sizeKv + 2] == key + [COLON] + value + [NEWLINE];
        Write(buffer[..sizeKv + 2]);
        buffer[sizeKv + 2] := NUL;
        assert pairs[i..][0] == pairs[i] && pairs[i..][1..] == pairs[i + 1..];
        ConcatIsAssociative(before, PrintPair(pairs[i]), PrintPairs(pairs[i + 1..]));
        i := i + 1;
      }
      assert pairs[i..] == [];
      assert sent + [] == sent;
      if end {
        Write([NEWLINE]);
      }
    }

    method SendFullHashReply(pairs: seq<Pair>)
      modifies this
      ensures sent == old(sent) + PrintHash(pairs)
    {
      Write([NEWLINE]);
      SendPairs(pairs, true);
      assert sent == old(sent) + ([NEWLINE] + PrintPairs(pairs) + [NEWLINE]);
    }

    /** Zero byte, size in network order, then the data. */
    method SendBinaryBlock(size: uint32, data: bytes)
      requires size <= |data|
      modifies this
      ensures sent == old(sent) + EncodeBlock(data[..size])
    {
      Write([NUL]);
      Write(BigEndian(size));
      Write(data[..size]);
      assert sent == old(sent) + ([0] + BigEndian(size) + data[..size]);
    }

    /** `send_error`: the name of the type from the table, a buffer of the computed size, one
        formatted write. */
    method SendError(kind: ErrorType, reason: bytes)
      modifies this
      ensures sent == old(sent) + PrintError(kind, reason)
    {
      var name := SearchErrorName(kind);
      var toSendSize := ErrorBufferSize(name, reason);
      ErrorBufferIsExact(kind, reason);
      var toSend := new byte[toSendSize];
      var text := Ascii("\nerror:") + Ascii(name) + Ascii("\nreason:") + reason + Ascii("\n\n");
      FormatIsPrintError(kind, reason);
      var n := Snprintf(toSend, toSendSize, text);
      assert toSend[..n] == PrintError(kind, reason);
      Write(toSend[..n]);
    }
  }

  /** At most size - 1 bytes of the text and a terminator; the result is the length of the text. */
  method Snprintf(buffer: array<byte>, size: nat, text: bytes) returns (n: nat)
    requires 0 < size <= buffer.Length
    modifies buffer
    ensures n == |text|
    ensures var k := if |text| < size then |text| else size - 1;
            buffer[..k] == text[..k] && buffer[k] == NUL && buffer[k + 1..] == old(buffer[k + 1..])
  {
    var k := if |text| < size then |text| else size - 1;
    forall i | 0 <= i < k {
      buffer[i] := text[i];
    }
    buffer[k] := NUL;
    n := |text|;
  }

  /** `emulator_network_access_error_type_strings`. */
  const ERROR_TYPE_STRINGS: seq<(ErrorType, string)> := [
    (ProtocolError, "protocol_error"),
    (InvalidCommand, "invalid_command"),
    (InvalidArgument, "invalid_argument"),
    (CommandError, "command_error"),
    (NotAllowed, "not_allowed")
  ]

  predicate Listed(kind: ErrorType, n: nat)
    requires n <= |ERROR_TYPE_STRINGS|
  {
    exists j :: 0 <= j < n && ERROR_TYPE_STRINGS[j].0 == kind
  }

  /** The loop of `send_error` over the five entries of the table; it does not stop at a match. */
  method SearchErrorName(kind: ErrorType) returns (name: string)
    ensures name == ErrorName(kind)
    ensures (kind, name) in ERROR_TYPE_STRINGS
  {
    name := "";
    var i := 0;
    while i < |ERROR_TYPE_STRINGS|
      invariant i <= |ERROR_TYPE_STRINGS|
      invariant Listed(kind, i) ==> (kind, name) in ERROR_TYPE_STRINGS && name == ErrorName(kind)
    {
      if kind == ERROR_TYPE_STRINGS[i].0 {
        name := ERROR_TYPE_STRINGS[i].1;
      }
      i := i + 1;
    }
    EveryTypeIsListed(kind);
  }

  lemma EveryTypeIsListed(kind: ErrorType)
    ensures Listed(kind, |ERROR_TYPE_STRINGS|)
  {
    var strings := ERROR_TYPE_STRINGS;
    assert strings[0].0.ProtocolError? && strings[1].0.InvalidCommand? && strings[2].0.InvalidArgument?;
    assert strings[3].0.CommandError? && strings[4].0.NotAllowed?;
  }

  /** The format of `send_error`, filled in. */
  lemma FormatIsPrintError(kind: ErrorType, reason: bytes)
    ensures Ascii("\nerror:") + Ascii(ErrorName(kind)) + Ascii("\nreason:") + reason + Ascii("\n\n")
            == PrintError(kind, reason)
  {
    AsciiAppend("\n", "error:");
    AsciiAppend("\n", "reason:");
    assert Ascii("\n") == [NEWLINE] && Ascii("\n\n") == [NEWLINE, NEWLINE];
    assert "\n" + "error:" == "\nerror:" && "\n" + "reason:" == "\nreason:";
    ErrorFormat(Ascii("error:"), Ascii(ErrorName(kind)), Ascii("reason:"), reason);
  }

  lemma ErrorFormat(a: bytes, b: bytes, c: bytes, d: bytes)
    ensures [NEWLINE] + a + b + ([NEWLINE] + c) + d + [NEWLINE, NEWLINE]
            == [NEWLINE] + a + b + [NEWLINE] + c + d + [NEWLINE, NEWLINE]
  {
  }

  /** The size `send_error` computes, term by term. */
  function ErrorBufferSize(name: string, reason: bytes): nat {
    1 + |"error"| + 1 + |name| + 1 + |"reason"| + 1 + |reason| + 1 + 2
  }

  /** It is exactly the printed length and the terminator. */
  lemma ErrorBufferIsExact(kind: ErrorType, reason: bytes)
    ensures ErrorBufferSize(ErrorName(kind), reason) == |PrintError(kind, reason)| + 1
  {
  }
}
