/** How `process_command` cuts a command line into a name and arguments. */
module Tokeniser {
  import opened Bytes

  const MAX_ARGUMENTS: nat := 20

  /** Number of bytes before the first space or newline. */
  function NameEnd(line: bytes): (k: nat)
    ensures k <= |line|
  {
    if line == [] || line[0] == SPACE || line[0] == NEWLINE then 0 else 1 + NameEnd(line[1..])
  }

  lemma {:induction false} NameEndStops(line: bytes)
    ensures var k := NameEnd(line);
      && (forall j :: 0 <= j < k ==> line[j] != SPACE && line[j] != NEWLINE)
      && (k < |line| ==> line[k] == SPACE || line[k] == NEWLINE)
  {
    if line == [] || line[0] == SPACE || line[0] == NEWLINE {
    } else {
      NameEndStops(line[1..]);
    }
  }

  function Name(line: bytes): bytes {
    CString(line[..NameEnd(line)])
  }

  predicate HasArguments(line: bytes) {
    NameEnd(line) < |line| && line[NameEnd(line)] == SPACE
  }

  function DropSpaces(s: bytes): (r: bytes)
    ensures |r| <= |s|
  {
    if s != [] && s[0] == SPACE then DropSpaces(s[1..]) else s
  }

  /** The text the arguments are cut from: from the end of the C string of the name, without
      leading spaces, up to the final newline. */
  function ArgumentText(line: bytes): bytes
    requires line != []
  {
    var body := line[..|line| - 1];
    if |Name(line)| <= |body| then DropSpaces(body[|Name(line)|..]) else []
  }

  function Split(s: bytes, sep: byte): (parts: seq<bytes>)
    ensures |parts| >= 1
  {
    if s == [] then [[]]
    else
      var rest := Split(s[1..], sep);
      if s[0] == sep then [[]] + rest else [[s[0]] + rest[0]] + rest[1..]
  }

  function Join(parts: seq<bytes>, sep: byte): bytes {
    if parts == [] then []
    else if |parts| == 1 then parts[0]
    else parts[0] + [sep] + Join(parts[1..], sep)
  }

  function CStrings(parts: seq<bytes>): (r: seq<bytes>)
    ensures |r| == |parts|
  {
    if parts == [] then [] else [CString(parts[0])] + CStrings(parts[1..])
  }

  function RawArguments(line: bytes): seq<bytes>
    requires line != []
  {
    if HasArguments(line) then Split(ArgumentText(line), SEMICOLON) else []
  }

  function Arguments(line: bytes): seq<bytes>
    requires line != []
  {
    CStrings(RawArguments(line))
  }

  /** Cutting at a separator and joining with it gives the text back; empty parts are kept. */
  lemma {:induction false} JoinSplit(s: bytes, sep: byte)
    ensures Join(Split(s, sep), sep) == s
    ensures forall i :: 0 <= i < |Split(s, sep)| ==> sep !in Split(s, sep)[i]
  {
    if s == [] {
    } else {
      JoinSplit(s[1..], sep);
      var rest := Split(s[1..], sep);
      var parts := Split(s, sep);
      if s[0] == sep {
        assert parts[1..] == rest;
      } else {
        assert parts[1..] == rest[1..];
      }
      assert s == [s[0]] + s[1..];
    }
  }

  lemma {:induction false} SplitPrefix(p: bytes, s: bytes, sep: byte)
    requires sep !in p
    ensures Split(p + s, sep) == [p + Split(s, sep)[0]] + Split(s, sep)[1..]
  {
    if p == [] {
      assert p + s == s;
      assert p + Split(s, sep)[0] == Split(s, sep)[0];
    } else {
      assert (p + s)[0] == p[0] && (p + s)[1..] == p[1..] + s;
      SplitPrefix(p[1..], s, sep);
      assert [p[0]] + (p[1..] + Split(s, sep)[0]) == p + Split(s, sep)[0];
    }
  }

  /** Joining parts free of the separator and cutting again gives the parts back. */
  lemma {:induction false} SplitJoin(parts: seq<bytes>, sep: byte)
    requires parts != []
    requires forall i :: 0 <= i < |parts| ==> sep !in parts[i]
    ensures Split(Join(parts, sep), sep) == parts
  {
    if |parts| == 1 {
      assert parts[0] + [] == parts[0];
      SplitPrefix(parts[0], [], sep);
      assert parts == [parts[0]];
    } else {
      var tail := Join(parts[1..], sep);
      SplitJoin(parts[1..], sep);
      assert parts[0] + [sep] + tail == parts[0] + ([sep] + tail);
      SplitPrefix(parts[0], [sep] + tail, sep);
      assert ([sep] + tail)[1..] == tail;
      assert Split([sep] + tail, sep) == [[]] + parts[1..];
      assert parts[0] + [] == parts[0];
      assert parts == [parts[0]] + parts[1..];
    }
  }

  lemma {:induction false} JoinedIsNewlineFree(parts: seq<bytes>)
    requires forall i :: 0 <= i < |parts| ==> NEWLINE !in parts[i]
    ensures NEWLINE !in Join(parts, SEMICOLON)
  {
    if |parts| <= 1 {
    } else {
      JoinedIsNewlineFree(parts[1..]);
    }
  }

  /** What the client prints for a command without its argument, or with one. */
  function PrintLine(name: bytes, arg: Option<bytes>): (line: bytes)
    ensures line != []
  {
    name + (if arg.Some? then [SPACE] + arg.value else []) + [NEWLINE]
  }

  lemma {:induction false} NameEndOf(name: bytes, rest: bytes)
    requires SPACE !in name && NEWLINE !in name
    requires rest != [] && (rest[0] == SPACE || rest[0] == NEWLINE)
    ensures NameEnd(name + rest) == |name|
  {
    if name == [] {
      assert name + rest == rest;
    } else {
      assert (name + rest)[0] == name[0] && (name + rest)[1..] == name[1..] + rest;
      NameEndOf(name[1..], rest);
    }
  }

  /** Tokenising a printed line gives back its name, whether it had an argument, and the argument
      without its leading spaces. */
  lemma TokenisePrinted(name: bytes, arg: Option<bytes>)
    requires SPACE !in name && NEWLINE !in name && NUL !in name
    ensures var line := PrintLine(name, arg);
            && Name(line) == name
            && (HasArguments(line) <==> arg.Some?)
            && (arg.Some? ==> ArgumentText(line) == DropSpaces(arg.value))
  {
    var line := PrintLine(name, arg);
    var rest := (if arg.Some? then [SPACE] + arg.value else []) + [NEWLINE];
    assert line == name + rest;
    NameEndOf(name, rest);
    assert line[..|name|] == name;
    CStringIdentity(name);
    if arg.Some? {
      var body := line[..|line| - 1];
      assert body[|name|..] == [SPACE] + arg.value;
      assert ([SPACE] + arg.value)[1..] == arg.value;
    }
  }

  lemma {:induction false} CStringsIdentity(parts: seq<bytes>)
    requires forall i :: 0 <= i < |parts| ==> NUL !in parts[i]
    ensures CStrings(parts) == parts
  {
    if parts == [] {
    } else {
      CStringIdentity(parts[0]);
      CStringsIdentity(parts[1..]);
    }
  }

  /** Printing a name with arguments and tokenising gives both back. */
  lemma TokeniserInvertsPrinter(name: bytes, args: seq<bytes>)
    requires SPACE !in name && NEWLINE !in name && NUL !in name
    requires forall i :: 0 <= i < |args| ==> SEMICOLON !in args[i] && NEWLINE !in args[i] && NUL !in args[i]
    requires args != [] ==> args[0] == [] || args[0][0] != SPACE
    ensures var line := PrintLine(name, if args == [] then None else Some(Join(args, SEMICOLON)));
            Name(line) == name && Arguments(line) == args
  {
    if args == [] {
      TokenisePrinted(name, None);
    } else {
      TokenisePrinted(name, Some(Join(args, SEMICOLON)));
      assert DropSpaces(Join(args, SEMICOLON)) == Join(args, SEMICOLON);
      SplitJoin(args, SEMICOLON);
    }
    CStringsIdentity(args);
  }

  lemma {:induction false} NulFreeParts(s: bytes, sep: byte)
    requires NUL !in s
    ensures forall i :: 0 <= i < |Split(s, sep)| ==> NUL !in Split(s, sep)[i]
  {
    if s == [] {
    } else {
      NulFreeParts(s[1..], sep);
    }
  }

  lemma NameEndsBeforeNewline(line: bytes)
    requires line != [] && line[|line| - 1] == NEWLINE && NEWLINE !in line[..|line| - 1]
    ensures NameEnd(line) <= |line| - 1
    ensures HasArguments(line) <==> NameEnd(line) < |line| - 1
  {
    var k := NameEnd(line);
    NameEndStops(line);
    if k < |line| - 1 {
      assert line[k] in line[..|line| - 1];
    }
  }

  function Spaces(n: nat): (r: bytes)
    ensures |r| == n
  {
    seq(n, _ => SPACE)
  }

  lemma {:induction false} SpacesThenText(s: bytes)
    ensures s == Spaces(|s| - |DropSpaces(s)|) + DropSpaces(s)
  {
    if s == [] || s[0] != SPACE {
    } else {
      SpacesThenText(s[1..]);
      assert s == [SPACE] + s[1..];
      var n := |s[1..]| - |DropSpaces(s[1..])|;
      assert [SPACE] + Spaces(n) == Spaces(n + 1);
    }
  }

  lemma NulFreeSuffix(a: bytes, b: bytes, line: bytes)
    requires line == a + b && NUL !in line
    ensures NUL !in b
  {
  }

  /** The arguments of a text without NUL bytes, joined, are the text. */
  lemma ArgumentsRebuildText(text: bytes)
    requires NUL !in text
    ensures Join(CStrings(Split(text, SEMICOLON)), SEMICOLON) == text
  {
    JoinSplit(text, SEMICOLON);
    NulFreeParts(text, SEMICOLON);
    CStringsIdentity(Split(text, SEMICOLON));
  }

  lemma {:induction false} SomeSpaceDropped(rest: bytes)
    requires rest != [] && rest[0] == SPACE
    ensures |DropSpaces(rest)| < |rest|
  {
  }

  lemma CutBody(line: bytes, k: nat)
    requires k < |line| && line[|line| - 1] == NEWLINE
    ensures line == line[..k] + (line[..|line| - 1][k..] + [NEWLINE])
  {
  }

  /** Name, rest and newline of a line; the text is the rest without leading spaces. */
  lemma LineParts(line: bytes) returns (rest: bytes)
    requires line != [] && line[|line| - 1] == NEWLINE && NEWLINE !in line[..|line| - 1] && NUL !in line
    ensures line == Name(line) + (rest + [NEWLINE])
    ensures HasArguments(line) <==> rest != []
    ensures HasArguments(line) ==> rest[0] == SPACE && ArgumentText(line) == DropSpaces(rest)
  {
    var k := NameEnd(line);
    NameEndsBeforeNewline(line);
    NulFreePrefix(line, k);
    CStringIdentity(line[..k]);
    rest := line[..|line| - 1][k..];
    CutBody(line, k);
    assert rest != [] ==> rest[0] == line[k];
  }

  lemma NulFreePrefix(line: bytes, k: nat)
    requires k <= |line| && NUL !in line
    ensures NUL !in line[..k]
  {
  }

  /** Conversely every command line without NUL bytes is its name, spaces, its arguments joined
      with `;` and the newline: nothing of the line is lost but the number of spaces. */
  lemma TokensRebuildLine(line: bytes)
    requires line != [] && line[|line| - 1] == NEWLINE && NEWLINE !in line[..|line| - 1] && NUL !in line
    ensures if HasArguments(line)
            then exists n: nat :: n > 0
                   && line == Name(line) + (Spaces(n) + Join(Arguments(line), SEMICOLON) + [NEWLINE])
            else line == Name(line) + [NEWLINE]
  {
    var rest := LineParts(line);
    if HasArguments(line) {
      var text := ArgumentText(line);
      var n := |rest| - |text|;
      SpacesThenText(rest);
      SomeSpaceDropped(rest);
      NulFreeSuffix(Name(line), rest + [NEWLINE], line);
      NulFreeSuffix(Spaces(n), text + [NEWLINE], rest + [NEWLINE]);
      NulFreePrefix(text + [NEWLINE], |text|);
      assert (text + [NEWLINE])[..|text|] == text;
      ArgumentsRebuildText(text);
    } else {
      assert [] + [NEWLINE] == [NEWLINE];
    }
  }
}
