/** Numbers in arguments: decimal, or hexadecimal behind a `$`. */
module Numbers {
  import opened Bytes

  const PLUS: byte := 43
  const MINUS: byte := 45
  const ZERO: byte := 48
  const UPPER_X: byte := 88
  const LOWER_X: byte := 120

  /** `isspace`. */
  predicate IsBlank(b: byte) {
    b == SPACE || 9 <= b <= 13
  }

  function SkipBlanks(s: bytes): bytes {
    if s != [] && IsBlank(s[0]) then SkipBlanks(s[1..]) else s
  }

  /** The value of a digit in bases up to 16; 99 for any other byte. */
  function DigitValue(b: byte): (d: nat) {
    if 48 <= b <= 57 then b - 48
    else if 65 <= b <= 70 then b - 55
    else if 97 <= b <= 102 then b - 87
    else 99
  }

  /** The digits at the start of s, read on from n. */
  function ReadDigits(s: bytes, base: nat, n: nat): nat {
    if s == [] || DigitValue(s[0]) >= base then n else ReadDigits(s[1..], base, n * base + DigitValue(s[0]))
  }

  function SkipHexPrefix(s: bytes): bytes {
    if |s| >= 2 && s[0] == ZERO && (s[1] == LOWER_X || s[1] == UPPER_X) then s[2..] else s
  }

  /** `atoll` for base 10 and `sscanf` with `%zX` for base 16. */
  function ReadNumber(s: bytes, base: nat): int
    requires base == 10 || base == 16
  {
    var t := SkipBlanks(s);
    var negative := t != [] && t[0] == MINUS;
    var u := if t != [] && (t[0] == MINUS || t[0] == PLUS) then t[1..] else t;
    var n := ReadDigits(if base == 16 then SkipHexPrefix(u) else u, base, 0);
    if negative then -(n as int) else n
  }

  /** `get_offset`: a 64-bit unsigned value. `atoll` is signed, and defined below 2^63 only. */
  function GetOffset(s: bytes): (n: nat)
    ensures n < 0x1_0000_0000_0000_0000
  {
    (if s != [] && s[0] == DOLLAR then ReadNumber(s[1..], 16) else ReadNumber(s, 10)) % 0x1_0000_0000_0000_0000
  }

  /** `atoi` stored in 32 unsigned bits; it is signed too, and defined below 2^31 only. */
  function GetSize(s: bytes): uint32 {
    ReadNumber(s, 10) % 0x1_0000_0000
  }

  // ---- rendering ----

  function DigitByte(d: nat): byte
    requires d < 16
  {
    if d < 10 then 48 + d else 55 + d
  }

  function Render(n: nat, base: nat): (s: bytes)
    requires base == 10 || base == 16
    ensures s != []
    ensures forall i :: 0 <= i < |s| ==> 48 <= s[i] <= 57 || 65 <= s[i] <= 70
  {
    if n < base then [DigitByte(n)] else Render(n / base, base) + [DigitByte(n % base)]
  }

  function Decimal(n: nat): bytes {
    Render(n, 10)
  }

  /** These digits, each letter in the case that is asked for at its position. */
  function WithCase(s: bytes, lower: seq<bool>): bytes {
    seq(|s|, i requires 0 <= i < |s| =>
      if i < |lower| && lower[i] && 65 <= s[i] <= 70 then s[i] + 32 else s[i])
  }

  /** The same digits, whatever the case of each letter in the first. */
  predicate SameDigits(text: bytes, s: bytes) {
    |text| == |s| && forall i :: 0 <= i < |s| ==> text[i] == s[i] || (65 <= s[i] <= 70 && text[i] == s[i] + 32)
  }

  /** Every choice of cases is one that `WithCase` makes, and it makes no other. */
  lemma CasesAreFree(text: bytes, s: bytes)
    ensures SameDigits(text, s) <==> exists lower :: text == WithCase(s, lower)
  {
    if SameDigits(text, s) {
      var lower := seq(|s|, i requires 0 <= i < |s| => text[i] != s[i]);
      assert text == WithCase(s, lower);
    }
  }

  function DollarHex(n: nat, lower: seq<bool>): bytes {
    [DOLLAR] + WithCase(Render(n, 16), lower)
  }

  lemma DivisionAndRest(n: nat, base: nat)
    requires base == 10 || base == 16
    ensures n / base * base + n % base == n && n % base < base
    ensures n >= base ==> n / base < n
  {
  }

  lemma OneDigitRead(d: nat, base: nat, n: nat, rest: bytes)
    requires d < base <= 16
    ensures ReadDigits([DigitByte(d)] + rest, base, n) == ReadDigits(rest, base, n * base + d)
  {
    var s := [DigitByte(d)] + rest;
    assert s[0] == DigitByte(d) && s[1..] == rest;
  }

  lemma {:induction false} ReadRendered(n: nat, base: nat, rest: bytes)
    requires base == 10 || base == 16
    ensures ReadDigits(Render(n, base) + rest, base, 0) == ReadDigits(rest, base, n)
    decreases n
  {
    if n < base {
      OneDigitRead(n, base, 0, rest);
    } else {
      var q, d := n / base, [DigitByte(n % base)];
      DivisionAndRest(n, base);
      ConcatIsAssociative(Render(q, base), d, rest);
      ReadRendered(q, base, d + rest);
      OneDigitRead(n % base, base, q, rest);
    }
  }

  lemma ReadNumberRendered(n: nat, base: nat)
    requires base == 10 || base == 16
    ensures ReadNumber(Render(n, base), base) == n
  {
    var s := Render(n, base);
    ReadRendered(n, base, []);
    assert s + [] == s;
    assert 48 <= s[0] <= 57 || 65 <= s[0] <= 70;
  }

  lemma {:induction false} CaseDoesNotMatter(text: bytes, s: bytes, n: nat)
    requires SameDigits(text, s)
    ensures ReadDigits(text, 16, n) == ReadDigits(s, 16, n)
    decreases |s|
  {
    if s == [] {
    } else {
      assert DigitValue(text[0]) == DigitValue(s[0]);
      CaseDoesNotMatter(text[1..], s[1..], n * 16 + DigitValue(s[0]));
    }
  }

  lemma ReadNumberInCase(n: nat, text: bytes)
    requires SameDigits(text, Render(n, 16))
    ensures ReadNumber(text, 16) == n
  {
    var s := Render(n, 16);
    CaseDoesNotMatter(text, s, 0);
    ReadRendered(n, 16, []);
    assert s + [] == s;
    assert 48 <= s[0] <= 57 || 65 <= s[0] <= 70;
  }

  lemma DecimalOffset(n: nat)
    requires n < 0x8000_0000_0000_0000
    ensures GetOffset(Decimal(n)) == n
  {
    var s := Decimal(n);
    ReadNumberRendered(n, 10);
    assert s[0] != DOLLAR;
    assert GetOffset(s) == ReadNumber(s, 10) % 0x1_0000_0000_0000_0000;
  }

  lemma HexOffset(n: nat, text: bytes)
    requires n < 0x1_0000_0000_0000_0000 && SameDigits(text, Render(n, 16))
    ensures GetOffset([36] + text) == n
  {
    ReadNumberInCase(n, text);
    assert ([36] + text)[1..] == text;
  }

  /** Decimal and `$`-hexadecimal renderings of a number are read as that same number, as far as the C
      library's conversions are defined; the case of each hexadecimal letter is free. */
  lemma RenderedOffsets(n: nat, text: bytes)
    ensures n < 0x8000_0000_0000_0000 ==> GetOffset(Decimal(n)) == n
    ensures n < 0x1_0000_0000_0000_0000 && SameDigits(text, Render(n, 16)) ==> GetOffset([36] + text) == n
  {
    if n < 0x8000_0000_0000_0000 {
      DecimalOffset(n);
    }
    if n < 0x1_0000_0000_0000_0000 && SameDigits(text, Render(n, 16)) {
      HexOffset(n, text);
    }
  }

  // ---- what may stand around the digits ----

  predicate AllBlank(s: bytes) {
    forall i :: 0 <= i < |s| ==> s[i] == 32 || 9 <= s[i] <= 13
  }

  lemma {:induction false} BlanksAreSkipped(blanks: bytes, s: bytes)
    requires AllBlank(blanks) && s != [] && !(s[0] == 32 || 9 <= s[0] <= 13)
    ensures SkipBlanks(blanks + s) == s
    decreases |blanks|
  {
    if blanks == [] {
      assert blanks + s == s;
    } else {
      assert (blanks + s)[0] == blanks[0] && (blanks + s)[1..] == blanks[1..] + s;
      BlanksAreSkipped(blanks[1..], s);
    }
  }

  lemma DecimalThenMore(n: nat, tail: bytes)
    requires tail == [] || !(48 <= tail[0] <= 57)
    ensures ReadDigits(Decimal(n) + tail, 10, 0) == n
  {
    ReadRendered(n, 10, tail);
  }

  /** `atoll` and `atoi`: blanks, a sign, the number, and then anything but a digit. */
  lemma SignedNumberIsRead(blanks: bytes, n: nat, tail: bytes)
    requires AllBlank(blanks) && (tail == [] || !(48 <= tail[0] <= 57))
    ensures ReadNumber(blanks + (Decimal(n) + tail), 10) == n
    ensures ReadNumber(blanks + ([43] + (Decimal(n) + tail)), 10) == n
    ensures ReadNumber(blanks + ([45] + (Decimal(n) + tail)), 10) == -(n as int)
  {
    var s := Decimal(n) + tail;
    DecimalThenMore(n, tail);
    assert 48 <= s[0] <= 57;
    BlanksAreSkipped(blanks, s);
    BlanksAreSkipped(blanks, [43] + s);
    BlanksAreSkipped(blanks, [45] + s);
    assert ([43] + s)[1..] == s && ([45] + s)[1..] == s;
  }

  lemma HexDigitsStart(n: nat, text: bytes)
    requires SameDigits(text, Render(n, 16))
    ensures text != [] && (48 <= text[0] <= 57 || 65 <= text[0] <= 70 || 97 <= text[0] <= 102)
    ensures ReadDigits(text, 16, 0) == n
  {
    var s := Render(n, 16);
    CaseDoesNotMatter(text, s, 0);
    ReadRendered(n, 16, []);
    assert s + [] == s;
  }

  /** `sscanf` with `%zX`: blanks, and the digits. */
  lemma BlankHexIsRead(blanks: bytes, n: nat, text: bytes)
    requires AllBlank(blanks) && SameDigits(text, Render(n, 16))
    ensures ReadNumber(blanks + text, 16) == n
  {
    ReadNumberInCase(n, text);
    HexDigitsStart(n, text);
    BlanksAreSkipped(blanks, text);
    assert SkipBlanks(text) == text;
  }

  /** The same with `0x` or `0X` in front. */
  lemma PrefixedHexIsRead(blanks: bytes, x: byte, n: nat, text: bytes)
    requires AllBlank(blanks) && (x == 120 || x == 88) && SameDigits(text, Render(n, 16))
    ensures ReadNumber(blanks + ([48, x] + text), 16) == n
  {
    var s := [48, x] + text;
    HexDigitsStart(n, text);
    BlanksAreSkipped(blanks, s);
    assert s[0] == 48 && s[1] == x && s[2..] == text;
  }

  lemma RenderedSize(n: uint32)
    requires n < 0x8000_0000
    ensures GetSize(Decimal(n)) == n
  {
    ReadNumberRendered(n, 10);
  }

  function PowerOfTen(k: nat): nat {
    if k == 0 then 1 else 10 * PowerOfTen(k - 1)
  }

  /** Exactly k decimal digits, with leading zeros, as `%06d` prints for k = 6. */
  function Padded(n: nat, k: nat): (s: bytes)
    ensures |s| == k && forall i :: 0 <= i < k ==> 48 <= s[i] <= 57
  {
    if k == 0 then [] else Padded(n / 10, k - 1) + [48 + n % 10]
  }

  lemma {:induction false} ReadPadded(n: nat, k: nat, rest: bytes)
    requires n < PowerOfTen(k)
    ensures ReadDigits(Padded(n, k) + rest, 10, 0) == ReadDigits(rest, 10, n)
    decreases k
  {
    if k == 0 {
      assert Padded(n, k) + rest == rest;
    } else {
      var d := [48 + n % 10];
      ConcatIsAssociative(Padded(n / 10, k - 1), d, rest);
      ReadPadded(n / 10, k - 1, d + rest);
      assert (d + rest)[0] == d[0] && (d + rest)[1..] == rest;
    }
  }
}
