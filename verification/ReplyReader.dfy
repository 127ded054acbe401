/** `get_reply` as the client runs it: line by line, with fixed buffers for key and value. */
module ReplyReader {
  import opened Bytes
  import opened Replies

  /** `read_until` a newline. */
  method ReadUntil(stream: bytes, pos: nat) returns (line: bytes)
    requires pos <= |stream|
    ensures line == stream[pos..][..LineLength(stream[pos..])]
  {
    var end := pos;
    while end < |stream|
      invariant pos <= end <= |stream|
      invariant end - pos + LineLength(stream[end..]) == LineLength(stream[pos..])
    {
      assert stream[end..][0] == stream[end] && stream[end..][1..] == stream[end + 1..];
      end := end + 1;
      if stream[end - 1] == NEWLINE {
        break;
      }
    }
    line := stream[pos..end];
  }

  /** The two inner loops: key up to the colon, value up to the newline. */
  method ScanEntry(line: bytes) returns (entry: Entry)
    ensures entry == ParseEntry(line)
  {
    var key := new byte[KEY_CAPACITY];
    var cpt := ScanKey(line, key);
    if cpt > KEY_CAPACITY || cpt == |line| {
      return OutOfRange;
    }
    if line[cpt] == NEWLINE {
      return BadEntry;
    }
    ghost var name := key[..cpt];
    var value := new byte[VALUE_CAPACITY];
    var n, ok := ScanValue(line, cpt + 1, value);
    if !ok {
      return OutOfRange;
    }
    assert key[..cpt] == name;
    return Entry(key[..cpt], value[..n]);
  }

  /** Copies the key; a result beyond the capacity stands for an index out of range. */
  method ScanKey(line: bytes, key: array<byte>) returns (cpt: nat)
    requires key.Length == KEY_CAPACITY
    modifies key
    ensures cpt > KEY_CAPACITY || cpt == KeyLength(line)
    ensures cpt > KEY_CAPACITY ==> KeyLength(line) > KEY_CAPACITY
    ensures cpt <= KEY_CAPACITY ==> key[..cpt] == line[..cpt]
  {
    cpt := 0;
    while cpt < |line| && line[cpt] != COLON && line[cpt] != NEWLINE
      invariant cpt <= |line| && cpt <= KEY_CAPACITY
      invariant cpt + KeyLength(line[cpt..]) == KeyLength(line)
      invariant key[..cpt] == line[..cpt]
    {
      assert line[cpt..][0] == line[cpt] && line[cpt..][1..] == line[cpt + 1..];
      if cpt == KEY_CAPACITY {
        return KEY_CAPACITY + 1;
      }
      key[cpt] := line[cpt];
      cpt := cpt + 1;
    }
    assert cpt < |line| ==> line[cpt..][0] == line[cpt];
  }

  /** Where a text whose first n bytes are no newlines has its first line's end. */
  lemma FirstNewline(text: bytes, n: nat)
    requires n <= |text| && forall j :: 0 <= j < n ==> text[j] != NEWLINE
    ensures var l := LineLength(text);
      if n == |text| then l == 0 || text[l - 1] != NEWLINE
      else if text[n] == NEWLINE then l == n + 1
      else l == 0 || text[l - 1] != NEWLINE || l > n + 1
  {
  }

  /** Copies the value; not ok stands for an index out of range. */
  method ScanValue(line: bytes, offset: nat, value: array<byte>) returns (n: nat, ok: bool)
    requires offset <= |line| && value.Length == VALUE_CAPACITY
    modifies value
    ensures var text := line[offset..]; var l := LineLength(text);
      if ok then 0 < l && text[l - 1] == NEWLINE && n == l - 1 <= VALUE_CAPACITY && value[..n] == text[..n]
      else l == 0 || text[l - 1] != NEWLINE || l - 1 > VALUE_CAPACITY
  {
    n := 0;
    while offset + n < |line| && line[offset + n] != NEWLINE
      invariant n <= VALUE_CAPACITY && offset + n <= |line|
      invariant forall j :: offset <= j < offset + n ==> line[j] != NEWLINE
      invariant value[..n] == line[offset..offset + n]
    {
      if n == VALUE_CAPACITY {
        FirstNewline(line[offset..], n);
        return n, false;
      }
      value[n] := line[offset + n];
      n := n + 1;
    }
    FirstNewline(line[offset..], n);
    ok := offset + n < |line|;
  }

  /** `get_reply`. */
  method GetReply(stream: bytes) returns (r: Decoded)
    ensures r == Decode(stream)
  {
    if stream == [] {
      return ReadNothing;
    }
    if stream[0] == NEWLINE {
      r := GetAsciiReply(stream);
    } else if stream[0] == 0 {
      r := GetBinaryReply(stream);
    } else {
      r := InvalidReply;
    }
  }

  /** One line of the stream taken into account. */
  lemma DecodeLine(s: bytes, line: bytes, entries: map<bytes, bytes>)
    requires line == s[..LineLength(s)] && line != []
    ensures DecodeLines(s, entries) ==
            if line[0] == NEWLINE then Got(Conclude(entries), s[|line|..])
            else match ParseEntry(line)
                 case OutOfRange => Panic
                 case BadEntry => Malformed
                 case Entry(key, value) => DecodeLines(s[|line|..], entries[key := value])
  {
  }

  /** What `get_reply` makes of a finished map that is not empty. */
  method ConcludeMap(entries: map<bytes, bytes>) returns (reply: Reply)
    requires entries != map[]
    ensures Concludes(entries, reply)
  {
    if Ascii("error") in entries {
      if Ascii("reason") in entries {
        var name := entries[Ascii("error")];
        var mkind := KindInvalidError;
        if name == Ascii("protocol_error") {
          mkind := KindProtocolError;
        } else if name == Ascii("invalid_command") {
          mkind := KindInvalidCommand;
        } else if name == Ascii("invalid_argument") {
          mkind := KindInvalidArgument;
        } else if name == Ascii("not_allowed") {
          mkind := KindNotAllowed;
        }
        KindIsNamed(name);
        return Error(mkind, entries[Ascii("reason")]);
      }
      return Error(KindInvalidError, Ascii("Invalid reason"));
    }
    return Hash(entries);
  }

  method GetAsciiReply(stream: bytes) returns (r: Decoded)
    requires stream != [] && stream[0] == NEWLINE
    ensures r == Decode(stream)
  {
    var entries: map<bytes, bytes> := map[];
    var pos := 1;
    ghost var rest := stream[1..];
    while true
      invariant 1 <= pos <= |stream| && rest == stream[pos..]
      invariant DecodeLines(rest, entries) == Decode(stream)
      decreases |rest|
    {
      var line := ReadUntil(stream, pos);
      if line == [] {
        return Panic;
      }
      CutBehind(stream, pos, |line|);
      DecodeLine(rest, line, entries);
      pos := pos + |line|;
      if line[0] == NEWLINE && entries == map[] {
        return Got(Ok, stream[pos..]);
      }
      if line[0] == NEWLINE {
        var reply := ConcludeMap(entries);
        ConcludesExactly(entries, reply);
        return Got(reply, stream[pos..]);
      }
      var entry := ScanEntry(line);
      if entry.OutOfRange? {
        return Panic;
      }
      if entry.BadEntry? {
        return Malformed;
      }
      entries := entries[entry.key := entry.value];
      rest := stream[pos..];
    }
  }

  lemma CutBehind(s: bytes, i: nat, n: nat)
    requires i + n <= |s|
    ensures s[i..][n..] == s[i + n..]
  {
  }

  method GetBinaryReply(stream: bytes) returns (r: Decoded)
    requires stream != [] && stream[0] == 0
    ensures r == Decode(stream)
  {
    var rest := stream[1..];
    var header := ReadInto(rest, 4);
    ShiftAndAddNeverOverflows(header);
    var size := header[0] as int * 0x100_0000;
    size := size + header[1] as int * 0x1_0000;
    size := size + header[2] as int * 0x100;
    size := size + header[3];
    var data := ReadInto(Behind(rest, 4), size);
    return Got(Binary(data), Behind(Behind(rest, 4), size));
  }
}
