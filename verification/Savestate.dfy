/** The dummy emulator's walk over the sections of a savestate file. */
module Savestate {
  import opened Bytes
  import opened Numbers

  const FILE_HEADER: nat := 14
  const NAME_SIZE: nat := 3
  const SIZE_DIGITS: nat := 6

  /** A section as the walk meets it: its name and the payload bytes that are there. */
  datatype Section = Section(name: bytes, payload: bytes)

  datatype SectionHead = SectionHead(name: bytes, size: uint32, rest: bytes)

  /** Number of decimal digits at the start, at most width. */
  function DigitRun(s: bytes, width: nat): (n: nat)
    ensures n <= width && n <= |s|
  {
    if width == 0 || s == [] || DigitValue(s[0]) >= 10 then 0 else 1 + DigitRun(s[1..], width - 1)
  }

  function BehindColon(s: bytes): bytes {
    if s != [] && s[0] == COLON then s[1..] else s
  }

  /** At most width digits, and the second colon if it is there. */
  function ScanDigits(name: bytes, negative: bool, width: nat, s: bytes): (r: Option<SectionHead>)
    ensures r.Some? ==> |r.value.rest| <= |s|
  {
    var run := DigitRun(s, width);
    if run == 0 then None
    else
      var n := ReadDigits(s[..run], 10, 0);
      var size := (if negative then -(n as int) else n) % 0x1_0000_0000;
      Some(SectionHead(name, size, BehindColon(s[run..])))
  }

  /** Blanks, and a number of at most six characters, of which a sign is one. */
  function ScanSize(name: bytes, s: bytes): (r: Option<SectionHead>)
    ensures r.Some? ==> |r.value.rest| <= |s|
  {
    SkipBlanksShrinks(s);
    var t := SkipBlanks(s);
    if t != [] && (t[0] == MINUS || t[0] == PLUS) then ScanDigits(name, t[0] == MINUS, SIZE_DIGITS - 1, t[1..])
    else ScanDigits(name, false, SIZE_DIGITS, t)
  }

  /** `fscanf` with "%3c:%06d:" when it assigns both fields: three bytes, a colon, and the size. */
  function ScanHead(s: bytes): (r: Option<SectionHead>)
    ensures r.Some? ==> |r.value.rest| < |s|
  {
    if |s| <= NAME_SIZE || s[NAME_SIZE] != COLON then None
    else ScanSize(s[..NAME_SIZE], s[NAME_SIZE + 1..])
  }

  lemma SkipBlanksShrinks(s: bytes)
    ensures |SkipBlanks(s)| <= |s|
  {
  }

  function Least(a: nat, b: nat): nat {
    if a < b then a else b
  }

  /** The sections met from here to the end of the walk. */
  function Visits(s: bytes): seq<Section>
    decreases |s|
  {
    match ScanHead(s)
    case None => []
    case Some(head) =>
      [SectionAt(head)] + Visits(head.rest[Least(head.size, |head.rest|)..])
  }

  /** The sections met in a whole file. */
  function WalkOf(data: bytes): seq<Section> {
    Visits(if FILE_HEADER <= |data| then data[FILE_HEADER..] else [])
  }

  /** The two memories a savestate can fill. */
  datatype Loaded = Loaded(wram: Option<bytes>, sram: Option<bytes>)

  function LoadOne(m: Loaded, s: Section): Loaded {
    if s.name == Ascii("RAM") then m.(wram := Some(s.payload))
    else if s.name == Ascii("SRA") then m.(sram := Some(s.payload))
    else m
  }

  function Load(m: Loaded, sections: seq<Section>): Loaded
    decreases |sections|
  {
    if sections == [] then m else Load(LoadOne(m, sections[0]), sections[1..])
  }

  /** A file open for reading. */
  class File {
    const data: bytes
    var pos: nat

    constructor (data: bytes)
      ensures this.data == data && pos == 0
    {
      this.data := data;
      pos := 0;
    }

    /** What lies behind the cursor, which may have been moved past the end. */
    function Rest(): bytes
      reads this
    {
      if pos <= |data| then data[pos..] else []
    }

    method SeekTo(n: nat)
      modifies this
      ensures pos == n
    {
      pos := n;
    }

    method SeekForward(n: nat)
      modifies this
      ensures pos == old(pos) + n
      ensures Rest() == old(Rest())[Least(n, |old(Rest())|)..]
    {
      pos := pos + n;
    }

    method Read(n: nat) returns (buf: bytes)
      modifies this
      ensures var k := Least(n, |old(Rest())|);
              buf == old(Rest())[..k] && Rest() == old(Rest())[k..]
    {
      var k := Least(n, |Rest()|);
      buf := Rest()[..k];
      pos := pos + k;
    }

    method ScanSection() returns (head: Option<SectionHead>)
      modifies this
      ensures head == ScanHead(old(Rest()))
      ensures head.Some? ==> Rest() == head.value.rest && pos <= |data|
      ensures head.None? ==> pos == old(pos)
    {
      head := ScanHead(Rest());
      if head.Some? {
        ScannedRestIsSuffix(Rest());
        pos := |data| - |head.value.rest|;
      }
    }
  }

  lemma {:induction false} SkipBlanksIsSuffix(s: bytes)
    ensures |SkipBlanks(s)| <= |s| && SkipBlanks(s) == s[|s| - |SkipBlanks(s)|..]
  {
    if s == [] || !IsBlank(s[0]) {
    } else {
      SkipBlanksIsSuffix(s[1..]);
    }
  }

  predicate IsSuffix(r: bytes, s: bytes) {
    |r| <= |s| && r == s[|s| - |r|..]
  }

  lemma TailIsSuffix(s: bytes, i: nat)
    requires i <= |s|
    ensures IsSuffix(s[i..], s)
  {
  }

  lemma SuffixOfSuffix(a: bytes, b: bytes, c: bytes)
    requires IsSuffix(a, b) && IsSuffix(b, c)
    ensures IsSuffix(a, c)
  {
    assert c[|c| - |b|..][|b| - |a|..] == c[|c| - |a|..];
  }

  lemma DigitsRestIsSuffix(name: bytes, negative: bool, width: nat, s: bytes)
    requires ScanDigits(name, negative, width, s).Some?
    ensures IsSuffix(ScanDigits(name, negative, width, s).value.rest, s)
  {
    var v := s[DigitRun(s, width)..];
    TailIsSuffix(s, DigitRun(s, width));
    TailIsSuffix(v, |v| - |BehindColon(v)|);
    SuffixOfSuffix(BehindColon(v), v, s);
  }

  lemma SizeRestIsSuffix(name: bytes, s: bytes)
    requires ScanSize(name, s).Some?
    ensures IsSuffix(ScanSize(name, s).value.rest, s)
  {
    var t := SkipBlanks(s);
    SkipBlanksIsSuffix(s);
    if t != [] && (t[0] == MINUS || t[0] == PLUS) {
      DigitsRestIsSuffix(name, t[0] == MINUS, SIZE_DIGITS - 1, t[1..]);
      TailIsSuffix(t, 1);
      SuffixOfSuffix(t[1..], t, s);
      SuffixOfSuffix(ScanSize(name, s).value.rest, t[1..], s);
    } else {
      DigitsRestIsSuffix(name, false, SIZE_DIGITS, t);
      SuffixOfSuffix(ScanSize(name, s).value.rest, t, s);
    }
  }

  lemma ScannedRestIsSuffix(s: bytes)
    requires ScanHead(s).Some?
    ensures IsSuffix(ScanHead(s).value.rest, s)
  {
    var behind := s[NAME_SIZE + 1..];
    SizeRestIsSuffix(s[..NAME_SIZE], behind);
    TailIsSuffix(s, NAME_SIZE + 1);
    SuffixOfSuffix(ScanHead(s).value.rest, behind, s);
  }

  class EmulatorMemory {
    var wram: Option<bytes>
    var sram: Option<bytes>

    function Contents(): Loaded
      reads this
    {
      Loaded(wram, sram)
    }

    constructor ()
      ensures Contents() == Loaded(None, None)
    {
      wram, sram := None, None;
    }

    /** The body of the walk: the payload is loaded or skipped. */
    method VisitSection(fd: File, head: SectionHead)
      requires fd.Rest() == head.rest
      modifies this, fd
      ensures fd.Rest() == head.rest[Least(head.size, |head.rest|)..]
      ensures Contents() == LoadOne(old(Contents()), SectionAt(head))
    {
      if head.name == Ascii("RAM") {
        var buf := fd.Read(head.size);
        wram := Some(buf);
      } else if head.name == Ascii("SRA") {
        var buf := fd.Read(head.size);
        sram := Some(buf);
      } else {
        fd.SeekForward(head.size);
      }
    }

    /** `snes9x_152_savestate_get_ram_wram`. */
    method LoadSavestate(data: bytes) returns (ghost visited: seq<Section>)
      modifies this
      ensures visited == WalkOf(data)
      ensures Contents() == Load(old(Contents()), visited)
      ensures forall header: bytes, sections: seq<Section> ::
        |header| == 14 && AllWellFormed(sections) && data == PrintFile(header, sections) ==>
          Contents() == LoadedFrom(old(Contents()), sections)
    {
      var fd := new File(data);
      fd.SeekTo(FILE_HEADER);
      visited := [];
      ghost var rest, before := fd.Rest(), Contents();
      ghost var all := Visits(rest);
      var head := fd.ScanSection();
      while head.Some?
        invariant head == ScanHead(rest) && (head.Some? ==> fd.Rest() == head.value.rest)
        invariant visited + Visits(rest) == all && Contents() == Load(before, visited)
        decreases |rest|
      {
        ghost var here := SectionAt(head.value);
        VisitSection(fd, head.value);
        rest := fd.Rest();
        LoadSnoc(before, visited, here);
        ConcatSections(visited, here, Visits(rest));
        visited := visited + [here];
        head := fd.ScanSection();
      }
      assert visited + [] == visited;
      forall header: bytes, sections: seq<Section> |
        |header| == 14 && AllWellFormed(sections) && data == PrintFile(header, sections)
        ensures Contents() == LoadedFrom(before, sections)
      {
        SavestateRoundTrip(before, header, sections);
      }
    }
  }

  /** The section behind a head that has been read. */
  function SectionAt(head: SectionHead): Section {
    Section(head.name, head.rest[..Least(head.size, |head.rest|)])
  }

  lemma ConcatSections(a: seq<Section>, s: Section, b: seq<Section>)
    ensures a + ([s] + b) == a + [s] + b
  {
  }

  lemma {:induction false} LoadSnoc(m: Loaded, sections: seq<Section>, s: Section)
    ensures Load(m, sections + [s]) == LoadOne(Load(m, sections), s)
    decreases |sections|
  {
    if sections == [] {
      assert [s][1..] == [] && [] + [s] == [s];
    } else {
      assert (sections + [s])[0] == sections[0] && (sections + [s])[1..] == sections[1..] + [s];
      LoadSnoc(LoadOne(m, sections[0]), sections[1..], s);
    }
  }

  // ---- well-formed files ----

  predicate WellFormedSection(s: Section) {
    |s.name| == 3 && |s.payload| < 1_000_000
  }

  predicate AllWellFormed(sections: seq<Section>) {
    forall i :: 0 <= i < |sections| ==> WellFormedSection(sections[i])
  }

  function PrintSection(s: Section): bytes
    requires WellFormedSection(s)
  {
    s.name + [58] + Padded(|s.payload|, 6) + [58] + s.payload
  }

  function PrintSections(sections: seq<Section>): bytes
    requires AllWellFormed(sections)
  {
    if sections == [] then [] else PrintSection(sections[0]) + PrintSections(sections[1..])
  }

  lemma SixDigitsAreRead(n: nat, rest: bytes)
    requires n < 1_000_000
    ensures DigitRun(Padded(n, SIZE_DIGITS) + rest, SIZE_DIGITS) == SIZE_DIGITS
    ensures ReadDigits(Padded(n, SIZE_DIGITS), 10, 0) == n
  {
    var s := Padded(n, SIZE_DIGITS);
    DigitsRun(s, rest, SIZE_DIGITS);
    assert PowerOfTen(2) == 100 && PowerOfTen(4) == 10_000 && PowerOfTen(6) == 1_000_000;
    ReadPadded(n, SIZE_DIGITS, []);
    assert s + [] == s;
  }

  lemma {:induction false} DigitsRun(s: bytes, rest: bytes, width: nat)
    requires |s| == width && forall i :: 0 <= i < |s| ==> 48 <= s[i] <= 57
    ensures DigitRun(s + rest, width) == width
    decreases width
  {
    if width == 0 {
    } else {
      assert (s + rest)[0] == s[0] && (s + rest)[1..] == s[1..] + rest;
      DigitsRun(s[1..], rest, width - 1);
    }
  }

  lemma DigitsAreNotSkipped(s: bytes)
    requires s != [] && 48 <= s[0] <= 57
    ensures SkipBlanks(s) == s && s[0] != MINUS && s[0] != PLUS
  {
  }

  lemma CutDigits(digits: bytes, behind: bytes)
    requires digits != []
    ensures var s := digits + behind; s[0] == digits[0] && s[..|digits|] == digits && s[|digits|..] == behind
  {
  }

  lemma ScanPrintedSize(name: bytes, n: nat, rest: bytes)
    requires n < 1_000_000
    ensures ScanSize(name, Padded(n, SIZE_DIGITS) + ([COLON] + rest)) == Some(SectionHead(name, n, rest))
  {
    var digits, behind := Padded(n, SIZE_DIGITS), [COLON] + rest;
    SixDigitsAreRead(n, behind);
    CutDigits(digits, behind);
    DigitsAreNotSkipped(digits + behind);
    assert behind[1..] == rest;
  }

  lemma CutName(name: bytes, tail: bytes)
    ensures var s := name + [COLON] + tail; s[..|name|] == name && s[|name|] == COLON && s[|name| + 1..] == tail
  {
  }

  lemma ScanPrinted(s: Section, rest: bytes)
    requires WellFormedSection(s)
    ensures ScanHead(PrintSection(s) + rest) == Some(SectionHead(s.name, |s.payload|, s.payload + rest))
  {
    var tail := Padded(|s.payload|, SIZE_DIGITS) + ([COLON] + (s.payload + rest));
    assert PrintSection(s) + rest == s.name + [COLON] + tail;
    CutName(s.name, tail);
    ScanPrintedSize(s.name, |s.payload|, s.payload + rest);
  }

  /** On a well-formed file the walk stands on a section boundary every time, and meets every section
      once and in order. */
  lemma {:induction false} WalkMeetsEverySection(sections: seq<Section>)
    requires AllWellFormed(sections)
    ensures Visits(PrintSections(sections)) == sections
    decreases |sections|
  {
    if sections == [] {
    } else {
      var s, rest := sections[0], PrintSections(sections[1..]);
      ScanPrinted(s, rest);
      assert (s.payload + rest)[..|s.payload|] == s.payload && (s.payload + rest)[|s.payload|..] == rest;
      WalkMeetsEverySection(sections[1..]);
    }
  }

  predicate HasNoLater(sections: seq<Section>, i: nat, name: bytes) {
    forall j :: i < j < |sections| ==> sections[j].name != name
  }

  /** After the walk each memory is the payload of the last section with its name. */
  lemma {:induction false} LastSectionWins(m: Loaded, sections: seq<Section>, i: nat)
    requires i < |sections|
    ensures sections[i].name == Ascii("RAM") && HasNoLater(sections, i, Ascii("RAM")) ==>
            Load(m, sections).wram == Some(sections[i].payload)
    ensures sections[i].name == Ascii("SRA") && HasNoLater(sections, i, Ascii("SRA")) ==>
            Load(m, sections).sram == Some(sections[i].payload)
    decreases |sections|
  {
    var last := |sections| - 1;
    assert sections == sections[..last] + [sections[last]];
    LoadSnoc(m, sections[..last], sections[last]);
    assert Ascii("RAM")[0] != Ascii("SRA")[0];
    if i < last {
      assert forall j :: 0 <= j < last ==> sections[..last][j] == sections[j];
      LastSectionWins(m, sections[..last], i);
    }
  }

  /** The payload of the last section of this name. */
  function LastPayload(sections: seq<Section>, name: bytes): Option<bytes> {
    if sections == [] then None
    else
      var last := sections[|sections| - 1];
      if last.name == name then Some(last.payload) else LastPayload(sections[..|sections| - 1], name)
  }

  lemma {:induction false} LastPayloadIsLast(sections: seq<Section>, name: bytes)
    ensures match LastPayload(sections, name)
      case Some(payload) => exists i :: 0 <= i < |sections| && sections[i].name == name
                                        && sections[i].payload == payload && HasNoLater(sections, i, name)
      case None => forall i :: 0 <= i < |sections| ==> sections[i].name != name
    decreases |sections|
  {
    if sections == [] {
    } else {
      var last := |sections| - 1;
      var front := sections[..last];
      LastPayloadIsLast(front, name);
      if sections[last].name == name {
        assert HasNoLater(sections, last, name);
      } else if LastPayload(front, name).Some? {
        var i :| 0 <= i < |front| && front[i].name == name
                 && front[i].payload == LastPayload(front, name).value && HasNoLater(front, i, name);
        assert sections[i] == front[i] && HasNoLater(sections, i, name) by {
          assert forall j :: 0 <= j < last ==> sections[j] == front[j];
        }
      }
    }
  }

  function OrKept(payload: Option<bytes>, kept: Option<bytes>): Option<bytes> {
    if payload.Some? then payload else kept
  }

  /** Each memory is the last payload of its name, and keeps its value when there is none. */
  lemma {:induction false} LoadKeepsOrReplaces(m: Loaded, sections: seq<Section>)
    ensures Load(m, sections) == Loaded(OrKept(LastPayload(sections, Ascii("RAM")), m.wram),
                                        OrKept(LastPayload(sections, Ascii("SRA")), m.sram))
    decreases |sections|
  {
    if sections == [] {
    } else {
      var last := |sections| - 1;
      assert sections == sections[..last] + [sections[last]];
      LoadSnoc(m, sections[..last], sections[last]);
      LoadKeepsOrReplaces(m, sections[..last]);
      assert Ascii("RAM")[0] != Ascii("SRA")[0];
    }
  }

  /** A whole file: fourteen bytes, and the sections one after the other. */
  function PrintFile(header: bytes, sections: seq<Section>): bytes
    requires |header| == 14 && AllWellFormed(sections)
  {
    header + PrintSections(sections)
  }

  /** What a file of these sections leaves in the memories. */
  function LoadedFrom(m: Loaded, sections: seq<Section>): Loaded {
    Loaded(OrKept(LastPayload(sections, Ascii("RAM")), m.wram), OrKept(LastPayload(sections, Ascii("SRA")), m.sram))
  }

  /** Behind any header of fourteen bytes the walk meets exactly the sections, and leaves in each memory
      the last payload of its name, or what was there. */
  lemma SavestateRoundTrip(m: Loaded, header: bytes, sections: seq<Section>)
    requires |header| == 14 && AllWellFormed(sections)
    ensures var visited := WalkOf(PrintFile(header, sections));
      visited == sections && Load(m, visited) == LoadedFrom(m, sections)
  {
    assert PrintFile(header, sections)[14..] == PrintSections(sections);
    WalkMeetsEverySection(sections);
    LoadKeepsOrReplaces(m, sections);
  }

  lemma SectionText(name: string, head: string, payload: bytes)
    requires name + ":" == head && |payload| < 1_000_000 && |name| == 3
    ensures PrintSection(Section(Ascii(name), payload)) == Ascii(head) + Padded(|payload|, 6) + [58] + payload
  {
    AsciiAppend(name, ":");
    OneColon();
  }

  lemma OneColon()
    ensures Ascii(":") == [58]
  {
  }

  lemma TwoSectionsPrinted(header: bytes, r: Section, s: Section)
    requires |header| == 14 && WellFormedSection(r) && WellFormedSection(s)
    ensures PrintFile(header, [r, s]) == header + PrintSection(r) + PrintSection(s)
  {
    var sections, one, none: seq<Section> := [r, s], [s], [];
    assert sections[1..] == one && one[1..] == none;
    assert PrintSections(one) == PrintSection(s) + PrintSections(none) == PrintSection(s);
    ConcatIsAssociative(header, PrintSection(r), PrintSection(s));
  }

  lemma NamesOfMemories()
    ensures Ascii("RAM") != Ascii("SRA") && |Ascii("RAM")| == |Ascii("SRA")| == 3
  {
    assert Ascii("RAM")[0] != Ascii("SRA")[0];
  }

  lemma LastOfTwo(r: Section, s: Section, name: bytes)
    ensures LastPayload([r, s], name)
            == if s.name == name then Some(s.payload) else if r.name == name then Some(r.payload) else None
  {
    var two, one, none: seq<Section> := [r, s], [r], [];
    assert two[..1] == one && one[..0] == none;
    assert LastPayload(none, name) == None;
    assert LastPayload(one, name) == if r.name == name then Some(r.payload) else None;
  }

  lemma TwoSectionsLoaded(r: Section, s: Section)
    requires r.name == Ascii("RAM") && s.name == Ascii("SRA")
    ensures LoadedFrom(Loaded(None, None), [r, s]) == Loaded(Some(r.payload), Some(s.payload))
  {
    NamesOfMemories();
    LastOfTwo(r, s, r.name);
    LastOfTwo(r, s, s.name);
  }

  /** A file with one section of WRAM and one of SRAM, whatever its header holds. */
  lemma TwoSectionsAreLoaded(header: bytes, wram: bytes, sram: bytes)
    requires |header| == 14 && |wram| < 1_000_000 && |sram| < 1_000_000
    ensures var file := header + (Ascii("RAM:") + Padded(|wram|, 6) + [58] + wram)
                               + (Ascii("SRA:") + Padded(|sram|, 6) + [58] + sram);
            Load(Loaded(None, None), WalkOf(file)) == Loaded(Some(wram), Some(sram))
  {
    var r, s := Section(Ascii("RAM"), wram), Section(Ascii("SRA"), sram);
    NamesOfMemories();
    assert "RAM" + ":" == "RAM:" && "SRA" + ":" == "SRA:";
    SectionText("RAM", "RAM:", wram);
    SectionText("SRA", "SRA:", sram);
    TwoSectionsPrinted(header, r, s);
    TwoSectionsLoaded(r, s);
    SavestateRoundTrip(Loaded(None, None), header, [r, s]);
  }

  // ---- what else `fscanf` accepts ----

  lemma SkippedBlanks(name: bytes, blanks: bytes, s: bytes)
    requires AllBlank(blanks) && s != [] && !(s[0] == 32 || 9 <= s[0] <= 13)
    ensures ScanSize(name, blanks + s) == ScanSize(name, s)
  {
    BlanksAreSkipped(blanks, s);
    BlanksAreSkipped([], s);
    assert [] + s == s;
  }

  lemma FiveDigitsAreRead(n: nat, rest: bytes)
    requires n < 100_000
    ensures DigitRun(Padded(n, 5) + rest, 5) == 5 && ReadDigits(Padded(n, 5), 10, 0) == n
  {
    var s := Padded(n, 5);
    DigitsRun(s, rest, 5);
    assert PowerOfTen(2) == 100 && PowerOfTen(4) == 10_000 && PowerOfTen(5) == 100_000;
    ReadPadded(n, 5, []);
    assert s + [] == s;
  }

  lemma NegativeSize(n: nat)
    requires n < 100_000
    ensures (-(n as int)) % 0x1_0000_0000 == if n == 0 then 0 else 0x1_0000_0000 - n
  {
  }

  /** What a size is taken for behind this sign. */
  function SignedSize(sign: byte, n: nat): uint32
    requires n < 100_000
  {
    if sign == 45 && n > 0 then 0x1_0000_0000 - n else n
  }

  lemma CutSign(sign: byte, digits: bytes, behind: bytes)
    ensures var t := [sign] + (digits + behind); t[0] == sign && t[1..] == digits + behind
  {
  }

  /** A sign in place of the first digit. */
  lemma SignedSizeIsScanned(name: bytes, sign: byte, n: nat, rest: bytes)
    requires n < 100_000 && (sign == 45 || sign == 43)
    ensures ScanSize(name, [sign] + (Padded(n, 5) + ([58] + rest)))
            == Some(SectionHead(name, SignedSize(sign, n), rest))
  {
    var digits, behind := Padded(n, 5), [58] + rest;
    var t := [sign] + (digits + behind);
    CutSign(sign, digits, behind);
    assert SkipBlanks(t) == t;
    FiveDigitsAreRead(n, behind);
    CutDigits(digits, behind);
    NegativeSize(n);
    assert behind[0] == 58 && behind[1..] == rest;
  }

  /** Blanks before the size are accepted, and a sign in place of its first digit; a negative size is that
      of a file which ends first. */
  lemma LooseHeadIsScanned(name: bytes, blanks: bytes, sign: byte, n: nat, rest: bytes)
    requires |name| == 3 && AllBlank(blanks) && n < 100_000 && (sign == 45 || sign == 43)
    ensures ScanHead(name + [58] + (blanks + ([sign] + (Padded(n, 5) + ([58] + rest)))))
            == Some(SectionHead(name, SignedSize(sign, n), rest))
  {
    var t := [sign] + (Padded(n, 5) + ([58] + rest));
    CutName(name, blanks + t);
    SkippedBlanks(name, blanks, t);
    SignedSizeIsScanned(name, sign, n, rest);
  }

  /** Without a second colon the payload begins behind the digits. */
  lemma NoSecondColon(name: bytes, n: nat, rest: bytes)
    requires |name| == 3 && n < 1_000_000 && (rest == [] || rest[0] != 58)
    ensures ScanHead(name + [58] + (Padded(n, 6) + rest)) == Some(SectionHead(name, n, rest))
  {
    var digits := Padded(n, 6);
    CutName(name, digits + rest);
    SixDigitsAreRead(n, rest);
    CutDigits(digits, rest);
    DigitsAreNotSkipped(digits + rest);
  }
}
