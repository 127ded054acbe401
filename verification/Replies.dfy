/** Replies: what the server prints and what the client makes of it. */
module Replies {
  import opened Bytes
  import opened Protocol
  import opened Conversation

  const KEY_CAPACITY: nat := 100
  const VALUE_CAPACITY: nat := 1024

  // ---- the printed forms ----

  datatype Pair = Pair(key: bytes, value: bytes)

  function PrintPair(p: Pair): bytes {
    p.key + [COLON] + p.value + [NEWLINE]
  }

  function PrintPairs(pairs: seq<Pair>): bytes {
    if pairs == [] then [] else PrintPair(pairs[0]) + PrintPairs(pairs[1..])
  }

  function PrintHash(pairs: seq<Pair>): bytes {
    [NEWLINE] + PrintPairs(pairs) + [NEWLINE]
  }

  function ErrorName(kind: ErrorType): string {
    match kind
    case ProtocolError => "protocol_error"
    case InvalidCommand => "invalid_command"
    case InvalidArgument => "invalid_argument"
    case CommandError => "command_error"
    case NotAllowed => "not_allowed"
  }

  /** What `send_error` formats. */
  function PrintError(kind: ErrorType, reason: bytes): bytes {
    [NEWLINE] + Ascii("error:") + Ascii(ErrorName(kind)) + [NEWLINE] + Ascii("reason:") + reason + [NEWLINE, NEWLINE]
  }

  // ---- the client's reader ----

  datatype ErrorKind = KindInvalidError | KindInvalidCommand | KindInvalidArgument | KindNotAllowed | KindProtocolError

  datatype Reply = Ok | Hash(entries: map<bytes, bytes>) | Error(kind: ErrorKind, reason: bytes) | Binary(data: bytes)

  /** How `get_reply` ends: with a reply and the bytes behind it, with one of its errors, or with an
      index out of range, which stops the program. */
  datatype Decoded = Got(reply: Reply, rest: bytes) | ReadNothing | Malformed | InvalidReply | Panic

  /** Bytes up to the first newline, that included; all of them when there is none. */
  function LineLength(s: bytes): (n: nat)
    ensures n <= |s|
    ensures forall j :: 0 <= j < n - 1 ==> s[j] != NEWLINE
    ensures n < |s| ==> n > 0 && s[n - 1] == NEWLINE
  {
    if s == [] then 0 else if s[0] == NEWLINE then 1 else 1 + LineLength(s[1..])
  }

  /** Position of the first colon or newline. */
  function KeyLength(line: bytes): (n: nat)
    ensures n <= |line|
    ensures forall j :: 0 <= j < n ==> line[j] != COLON && line[j] != NEWLINE
    ensures n < |line| ==> line[n] == COLON || line[n] == NEWLINE
  {
    if line == [] || line[0] == COLON || line[0] == NEWLINE then 0 else 1 + KeyLength(line[1..])
  }

  /** One line of a hash reply. */
  datatype Entry = Entry(key: bytes, value: bytes) | BadEntry | OutOfRange

  function ParseEntry(line: bytes): Entry {
    var k := KeyLength(line);
    if k > KEY_CAPACITY || k == |line| then OutOfRange
    else if line[k] == NEWLINE then BadEntry
    else
      var text := line[k + 1..];
      var n := LineLength(text);
      if n == 0 || text[n - 1] != NEWLINE || n - 1 > VALUE_CAPACITY then OutOfRange
      else Entry(line[..k], text[..n - 1])
  }

  function KindNamed(name: bytes): ErrorKind {
    if name == Ascii("protocol_error") then KindProtocolError
    else if name == Ascii("invalid_command") then KindInvalidCommand
    else if name == Ascii("invalid_argument") then KindInvalidArgument
    else if name == Ascii("not_allowed") then KindNotAllowed
    else KindInvalidError
  }

  /** The reply for a finished map. */
  function Conclude(entries: map<bytes, bytes>): Reply {
    if entries == map[] then Ok
    else if Ascii("error") !in entries then Hash(entries)
    else if Ascii("reason") in entries then Error(KindNamed(entries[Ascii("error")]), entries[Ascii("reason")])
    else Error(KindInvalidError, Ascii("Invalid reason"))
  }

  function DecodeLines(s: bytes, entries: map<bytes, bytes>): Decoded
    decreases |s|
  {
    var n := LineLength(s);
    if n == 0 then Panic
    else if s[0] == NEWLINE then Got(Conclude(entries), s[n..])
    else
      match ParseEntry(s[..n])
      case OutOfRange => Panic
      case BadEntry => Malformed
      case Entry(key, value) => DecodeLines(s[n..], entries[key := value])
  }

  /** `read` into a zeroed buffer of n bytes. */
  function ReadInto(s: bytes, n: nat): (buffer: bytes)
    ensures |buffer| == n
  {
    if |s| >= n then s[..n] else s + seq(n - |s|, _ => 0)
  }

  function Behind(s: bytes, n: nat): bytes {
    if |s| >= n then s[n..] else []
  }

  function DecodeBlock(s: bytes): Decoded {
    var size := NetworkOrder(ReadInto(s, 4));
    Got(Binary(ReadInto(Behind(s, 4), size)), Behind(Behind(s, 4), size))
  }

  /** `get_reply` on a stream of which this much has arrived. */
  function Decode(s: bytes): Decoded {
    if s == [] then ReadNothing
    else if s[0] == NEWLINE then DecodeLines(s[1..], map[])
    else if s[0] == 0 then DecodeBlock(s[1..])
    else InvalidReply
  }

  // ---- round trips ----

  /** The map built from the pairs in order; a repeated key keeps its last value. */
  function Build(pairs: seq<Pair>, entries: map<bytes, bytes>): map<bytes, bytes>
    decreases |pairs|
  {
    if pairs == [] then entries else Build(pairs[1..], entries[pairs[0].key := pairs[0].value])
  }

  lemma {:induction false} LastBindingWins(pairs: seq<Pair>, entries: map<bytes, bytes>, i: nat)
    requires i < |pairs| && forall j :: i < j < |pairs| ==> pairs[j].key != pairs[i].key
    ensures pairs[i].key in Build(pairs, entries) && Build(pairs, entries)[pairs[i].key] == pairs[i].value
    decreases |pairs|
  {
    if i > 0 {
      assert forall j :: i - 1 < j < |pairs[1..]| ==> pairs[1..][j] == pairs[j + 1];
      LastBindingWins(pairs[1..], entries[pairs[0].key := pairs[0].value], i - 1);
    } else {
      BuildKeeps(pairs[1..], entries[pairs[0].key := pairs[0].value], pairs[0].key);
    }
  }

  lemma {:induction false} BuildKeeps(pairs: seq<Pair>, entries: map<bytes, bytes>, key: bytes)
    requires key in entries && forall j :: 0 <= j < |pairs| ==> pairs[j].key != key
    ensures key in Build(pairs, entries) && Build(pairs, entries)[key] == entries[key]
    decreases |pairs|
  {
    if pairs == [] {
    } else {
      BuildKeeps(pairs[1..], entries[pairs[0].key := pairs[0].value], key);
    }
  }

  predicate CleanPair(p: Pair) {
    COLON !in p.key && NEWLINE !in p.key && NEWLINE !in p.value
  }

  /** The fixed buffers of the reader have room for it. */
  predicate Fits(p: Pair) {
    |p.key| <= 100 && |p.value| <= 1024
  }

  lemma {:induction false} LineLengthOf(text: bytes, rest: bytes)
    requires NEWLINE !in text
    ensures LineLength(text + [NEWLINE] + rest) == |text| + 1
  {
    var s := text + [NEWLINE] + rest;
    if text != [] {
      assert s[0] == text[0] && s[1..] == text[1..] + [NEWLINE] + rest;
      LineLengthOf(text[1..], rest);
    }
  }

  lemma {:induction false} KeyLengthOf(key: bytes, rest: bytes)
    requires COLON !in key && NEWLINE !in key
    ensures KeyLength(key + [COLON] + rest) == |key|
  {
    var s := key + [COLON] + rest;
    if key != [] {
      assert s[0] == key[0] && s[1..] == key[1..] + [COLON] + rest;
      KeyLengthOf(key[1..], rest);
    }
  }

  lemma ParsePrinted(p: Pair)
    requires CleanPair(p)
    ensures ParseEntry(PrintPair(p)) == if Fits(p) then Entry(p.key, p.value) else OutOfRange
  {
    var line, text := PrintPair(p), p.value + [NEWLINE];
    assert line == p.key + [COLON] + text;
    KeyLengthOf(p.key, text);
    assert line[|p.key|] == COLON && line[|p.key| + 1..] == text && line[..|p.key|] == p.key;
    LineLengthOf(p.value, []);
    assert p.value + [NEWLINE] + [] == text;
    assert text[..|p.value|] == p.value;
  }

  lemma PrintedLine(p: Pair, rest: bytes)
    requires CleanPair(p)
    ensures var s := PrintPair(p) + rest; var n := |PrintPair(p)|;
            LineLength(s) == n && s[0] != NEWLINE && s[..n] == PrintPair(p) && s[n..] == rest
  {
    var text := p.key + [COLON] + p.value;
    assert PrintPair(p) + rest == text + [NEWLINE] + rest;
    LineLengthOf(text, rest);
  }

  predicate AllFit(pairs: seq<Pair>) {
    pairs == [] || (Fits(pairs[0]) && AllFit(pairs[1..]))
  }

  predicate AllClean(pairs: seq<Pair>) {
    pairs == [] || (CleanPair(pairs[0]) && AllClean(pairs[1..]))
  }

  lemma DecodePair(p: Pair, entries: map<bytes, bytes>, more: bytes)
    requires CleanPair(p)
    ensures DecodeLines(PrintPair(p) + more, entries) ==
            if Fits(p) then DecodeLines(more, entries[p.key := p.value]) else Panic
  {
    PrintedLine(p, more);
    ParsePrinted(p);
  }

  /** Decoding printed pairs: every pair is inserted in order; one that does not fit stops the
      program. */
  lemma {:induction false} DecodePrinted(pairs: seq<Pair>, entries: map<bytes, bytes>, rest: bytes)
    requires AllClean(pairs)
    ensures DecodeLines(PrintPairs(pairs) + ([NEWLINE] + rest), entries) ==
            if AllFit(pairs) then Got(Conclude(Build(pairs, entries)), rest) else Panic
    decreases |pairs|
  {
    var end := [NEWLINE] + rest;
    if pairs == [] {
      assert PrintPairs(pairs) + end == end;
      assert end[0] == NEWLINE && end[1..] == rest;
      assert LineLength(end) == 1;
    } else {
      ConcatIsAssociative(PrintPair(pairs[0]), PrintPairs(pairs[1..]), end);
      DecodePair(pairs[0], entries, PrintPairs(pairs[1..]) + end);
      DecodePrinted(pairs[1..], entries[pairs[0].key := pairs[0].value], rest);
    }
  }

  predicate HasKey(pairs: seq<Pair>, key: bytes) {
    exists i :: 0 <= i < |pairs| && pairs[i].key == key
  }

  lemma {:induction false} BuildKeys(pairs: seq<Pair>, entries: map<bytes, bytes>, key: bytes)
    ensures key in Build(pairs, entries) <==> key in entries || HasKey(pairs, key)
    decreases |pairs|
  {
    if pairs == [] {
    } else {
      BuildKeys(pairs[1..], entries[pairs[0].key := pairs[0].value], key);
      assert forall i :: 1 <= i < |pairs| ==> pairs[i] == pairs[1..][i - 1];
      if HasKey(pairs[1..], key) {
        var i :| 0 <= i < |pairs[1..]| && pairs[1..][i].key == key;
        assert pairs[i + 1].key == key;
      }
    }
  }

  lemma DecodeHash(pairs: seq<Pair>, rest: bytes)
    requires AllClean(pairs)
    ensures Decode(PrintHash(pairs) + rest) == if AllFit(pairs) then Got(Conclude(Build(pairs, map[])), rest) else Panic
  {
    var s := PrintHash(pairs) + rest;
    assert s[0] == NEWLINE && s[1..] == PrintPairs(pairs) + ([NEWLINE] + rest);
    DecodePrinted(pairs, map[], rest);
  }

  /** The hash reply round trip: exactly the printed bytes are consumed; no pair gives Ok, otherwise
      the map in which the last binding of a key wins; and it succeeds if and only if every key and
      value fits the reader's buffers. */
  lemma HashRoundTrip(pairs: seq<Pair>, rest: bytes)
    requires AllClean(pairs) && !HasKey(pairs, Ascii("error"))
    ensures Decode(PrintHash(pairs) + rest) ==
            if AllFit(pairs) then Got(if pairs == [] then Ok else Hash(Build(pairs, map[])), rest) else Panic
  {
    DecodeHash(pairs, rest);
    BuildKeys(pairs, map[], Ascii("error"));
    if pairs != [] {
      BuildKeys(pairs, map[], pairs[0].key);
      assert pairs[0].key in Build(pairs, map[]);
    }
  }

  /** A binary reply gives the data back. */
  lemma BinaryRoundTrip(data: bytes, rest: bytes)
    requires |data| < 0x1_0000_0000
    ensures Decode(EncodeBlock(data) + rest) == Got(Binary(data), rest)
  {
    var s := (EncodeBlock(data) + rest)[1..];
    assert s == BigEndian(|data|) + (data + rest);
    assert s[..4] == BigEndian(|data|) && s[4..] == data + rest;
    SizeFieldRoundTrip(|data|, s[..4]);
    assert (data + rest)[..|data|] == data && (data + rest)[|data|..] == rest;
  }

  /** The kind the client reports for an error type; `command_error` has none of its own. */
  function KindOf(kind: ErrorType): ErrorKind {
    match kind
    case ProtocolError => KindProtocolError
    case InvalidCommand => KindInvalidCommand
    case InvalidArgument => KindInvalidArgument
    case CommandError => KindInvalidError
    case NotAllowed => KindNotAllowed
  }

  lemma KindsAreDistinct(kind: ErrorType)
    ensures KindNamed(Ascii(ErrorName(kind))) == KindOf(kind)
  {
    // the names differ in length or in the byte at index 8
    var name := Ascii(ErrorName(kind));
    assert |Ascii("invalid_command")| == 15 && |Ascii("invalid_argument")| == 16;
    assert |Ascii("protocol_error")| == 14 && |Ascii("command_error")| == 13 && |Ascii("not_allowed")| == 11;
  }

  /** What a client may conclude from a finished map, in the server's terms. No entry means ok, and a
      map without `error` is the answer itself. An `error` makes an error reply: with the reason that
      was sent, and of a kind of its own exactly when `error` is the name of the type of that kind. */
  ghost predicate Concludes(entries: map<bytes, bytes>, reply: Reply) {
    var error, reason := Ascii("error"), Ascii("reason");
    && (entries == map[] ==> reply == Ok)
    && (entries != map[] && error !in entries ==> reply == Hash(entries))
    && (error in entries && reason !in entries ==> reply == Error(KindInvalidError, Ascii("Invalid reason")))
    && (error in entries && reason in entries ==>
          && reply.Error? && reply.reason == entries[reason]
          && forall t :: KindOf(t) != KindInvalidError ==>
               (reply.kind == KindOf(t) <==> entries[error] == Ascii(ErrorName(t))))
  }

  /** The client's chain of comparisons names a kind exactly for the names the server sends. */
  lemma KindIsNamed(name: bytes)
    ensures forall t :: KindOf(t) != KindInvalidError ==>
              (KindNamed(name) == KindOf(t) <==> name == Ascii(ErrorName(t)))
  {
    forall t | KindOf(t) != KindInvalidError
      ensures KindNamed(name) == KindOf(t) <==> name == Ascii(ErrorName(t))
    {
      KindsAreDistinct(t);
    }
  }

  /** That settles the reply. */
  lemma ConcludesExactly(entries: map<bytes, bytes>, reply: Reply)
    ensures Concludes(entries, reply) <==> reply == Conclude(entries)
  {
    if Ascii("error") in entries && Ascii("reason") in entries {
      KindIsNamed(entries[Ascii("error")]);
      if Concludes(entries, reply) {
        SameKind(reply.kind, KindNamed(entries[Ascii("error")]), entries[Ascii("error")]);
      }
    }
  }

  /** A kind is determined by the types it belongs to. */
  lemma SameKind(a: ErrorKind, b: ErrorKind, name: bytes)
    requires forall t :: KindOf(t) != KindInvalidError ==> (a == KindOf(t) <==> name == Ascii(ErrorName(t)))
    requires forall t :: KindOf(t) != KindInvalidError ==> (b == KindOf(t) <==> name == Ascii(ErrorName(t)))
    ensures a == b
  {
    assert KindOf(ProtocolError) == KindProtocolError && KindOf(InvalidCommand) == KindInvalidCommand;
    assert KindOf(InvalidArgument) == KindInvalidArgument && KindOf(NotAllowed) == KindNotAllowed;
  }

  function ErrorPairs(kind: ErrorType, reason: bytes): seq<Pair> {
    [Pair(Ascii("error"), Ascii(ErrorName(kind))), Pair(Ascii("reason"), reason)]
  }

  lemma TwoPairs(p: Pair, q: Pair, entries: map<bytes, bytes>)
    ensures PrintPairs([p, q]) == PrintPair(p) + PrintPair(q)
    ensures AllClean([p, q]) <==> CleanPair(p) && CleanPair(q)
    ensures AllFit([p, q]) <==> Fits(p) && Fits(q)
    ensures Build([p, q], entries) == entries[p.key := p.value][q.key := q.value]
  {
    var one, none: seq<Pair> := [q], [];
    assert [p, q][1..] == one && one[1..] == none;
    assert PrintPairs(one) == PrintPair(q) + PrintPairs(none);
    assert (AllClean(one) <==> CleanPair(q) && AllClean(none)) && (AllFit(one) <==> Fits(q) && AllFit(none));
    var first := entries[p.key := p.value];
    assert Build(one, first) == Build(none, first[q.key := q.value]);
  }

  lemma Regroup(a: bytes, b: bytes, c: bytes, d: bytes)
    ensures [NEWLINE] + ((a + b + [NEWLINE]) + (c + d + [NEWLINE])) + [NEWLINE]
            == [NEWLINE] + a + b + [NEWLINE] + c + d + [NEWLINE, NEWLINE]
  {
  }

  lemma ErrorIsHash(kind: ErrorType, reason: bytes)
    ensures PrintError(kind, reason) == PrintHash(ErrorPairs(kind, reason))
  {
    var p, q := Pair(Ascii("error"), Ascii(ErrorName(kind))), Pair(Ascii("reason"), reason);
    TwoPairs(p, q, map[]);
    AsciiAppend("error", ":");
    AsciiAppend("reason", ":");
    assert Ascii(":") == [COLON] && "error" + ":" == "error:" && "reason" + ":" == "reason:";
    Regroup(Ascii("error:"), p.value, Ascii("reason:"), reason);
  }

  /** The error reply round trip: the reason and the matching kind come back, if and only if the
      reason fits the reader's buffer. */
  lemma ErrorRoundTrip(kind: ErrorType, reason: bytes, rest: bytes)
    requires NEWLINE !in reason
    ensures Decode(PrintError(kind, reason) + rest) ==
            if |reason| <= 1024 then Got(Error(KindOf(kind), reason), rest) else Panic
  {
    var error, why := Ascii("error"), Ascii("reason");
    var p, q := Pair(error, Ascii(ErrorName(kind))), Pair(why, reason);
    ErrorIsHash(kind, reason);
    TwoPairs(p, q, map[]);
    NamesAreClean(kind);
    DecodeHash([p, q], rest);
    assert |error| != |why|;
    assert Build([p, q], map[])[error] == p.value && Build([p, q], map[])[why] == reason;
    KindsAreDistinct(kind);
  }

  lemma NamesAreClean(kind: ErrorType)
    ensures NEWLINE !in Ascii(ErrorName(kind)) && |Ascii(ErrorName(kind))| <= VALUE_CAPACITY
    ensures COLON !in Ascii("error") && NEWLINE !in Ascii("error")
    ensures COLON !in Ascii("reason") && NEWLINE !in Ascii("reason")
  {
  }

  // ---- replies that are not well-formed ----

  lemma NoColonHere(text: bytes, rest: bytes)
    requires COLON !in text && NEWLINE !in text
    ensures KeyLength(text + [NEWLINE] + rest) == |text|
  {
    var s := text + [NEWLINE] + rest;
    assert forall j :: 0 <= j < |text| ==> s[j] == text[j];
    assert s[|text|] == NEWLINE;
  }

  lemma LineWithoutColon(text: bytes)
    requires COLON !in text && NEWLINE !in text
    ensures ParseEntry(text + [NEWLINE]) == if |text| <= 100 then BadEntry else OutOfRange
  {
    NoColonHere(text, []);
    assert text + [NEWLINE] + [] == text + [NEWLINE];
  }

  lemma DecodeLineWithoutColon(entries: map<bytes, bytes>, text: bytes, rest: bytes)
    requires text != [] && COLON !in text && NEWLINE !in text
    ensures DecodeLines(text + [NEWLINE] + rest, entries) == if |text| <= 100 then Malformed else Panic
  {
    var s := text + [NEWLINE] + rest;
    LineLengthOf(text, rest);
    assert s[..|text| + 1] == text + [NEWLINE] && s[0] == text[0];
    LineWithoutColon(text);
  }

  lemma {:induction false} DecodeBehindPairs(pairs: seq<Pair>, entries: map<bytes, bytes>, more: bytes)
    requires AllClean(pairs) && AllFit(pairs)
    ensures DecodeLines(PrintPairs(pairs) + more, entries) == DecodeLines(more, Build(pairs, entries))
    decreases |pairs|
  {
    if pairs == [] {
      assert PrintPairs(pairs) + more == more;
    } else {
      ConcatIsAssociative(PrintPair(pairs[0]), PrintPairs(pairs[1..]), more);
      DecodePair(pairs[0], entries, PrintPairs(pairs[1..]) + more);
      DecodeBehindPairs(pairs[1..], entries[pairs[0].key := pairs[0].value], more);
    }
  }

  /** A line without a colon, behind any number of pairs: the reply is malformed, whatever follows; a line of
      more than a hundred bytes stops the program before that is seen. */
  lemma LineWithoutColonIsMalformed(pairs: seq<Pair>, text: bytes, rest: bytes)
    requires AllClean(pairs) && AllFit(pairs) && text != [] && 58 !in text && 10 !in text
    ensures Decode([10] + (PrintPairs(pairs) + (text + [10] + rest))) == if |text| <= 100 then Malformed else Panic
  {
    var s := PrintPairs(pairs) + (text + [NEWLINE] + rest);
    assert ([10] + s)[0] == NEWLINE && ([10] + s)[1..] == s;
    DecodeBehindPairs(pairs, map[], text + [NEWLINE] + rest);
    DecodeLineWithoutColon(Build(pairs, map[]), text, rest);
  }

  /** What does not start with a newline or a zero byte is no reply. */
  lemma OtherStartIsInvalid(x: byte, rest: bytes)
    requires x != 10 && x != 0
    ensures Decode([x] + rest) == InvalidReply
  {
    assert ([x] + rest)[0] == x;
  }

  /** A block that has not arrived completely is filled up with zeros. */
  lemma ShortBlockIsFilled(size: uint32, data: bytes)
    requires |data| < size
    ensures Decode([0] + (BigEndian(size) + data)) == Got(Binary(data + seq(size - |data|, _ => 0)), [])
  {
    var s := BigEndian(size) + data;
    assert ([0] + s)[0] == 0 && ([0] + s)[1..] == s;
    assert s[..4] == BigEndian(size) && s[4..] == data;
    SizeFieldRoundTrip(size, s[..4]);
  }
}
