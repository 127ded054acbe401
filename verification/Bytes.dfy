/** Bytes, the constants of the wire format, and the network-order size field of a binary block. */
module Bytes {

  type byte = x: int | 0 <= x < 0x100
  type bytes = seq<byte>
  type uint32 = x: int | 0 <= x < 0x1_0000_0000

  datatype Option<+T> = None | Some(value: T) {
    function GetOr(default: T): T {
      if Some? then value else default
    }
  }

  const NUL: byte := 0
  const NEWLINE: byte := 10
  const SPACE: byte := 32
  const BANG: byte := 33
  const DOLLAR: byte := 36
  const COLON: byte := 58
  const SEMICOLON: byte := 59
  const LOWER_B: byte := 98

  /** The bytes of a string literal. */
  function Ascii(s: string): (r: bytes)
    ensures |r| == |s|
  {
    seq(|s|, i requires 0 <= i < |s| => s[i] as int % 0x100)
  }

  lemma AsciiAppend(s: string, t: string)
    ensures Ascii(s + t) == Ascii(s) + Ascii(t)
  {
  }

  /** `isalnum` in the C locale; bytes above 127 are not alphanumeric. */
  predicate IsAlnum(b: byte) {
    48 <= b <= 57 || 65 <= b <= 90 || 97 <= b <= 122
  }

  /** What a `char*` to these bytes denotes: everything before the first NUL. */
  function CString(s: bytes): bytes {
    if s == [] || s[0] == NUL then [] else [s[0]] + CString(s[1..])
  }

  lemma {:induction false} CStringIsPrefix(s: bytes)
    ensures CString(s) <= s && NUL !in CString(s)
    ensures |CString(s)| < |s| ==> s[|CString(s)|] == NUL
  {
    if s == [] || s[0] == NUL {
    } else {
      CStringIsPrefix(s[1..]);
    }
  }

  lemma {:induction false} CStringIdentity(s: bytes)
    requires NUL !in s
    ensures CString(s) == s
  {
    if s == [] {
    } else {
      CStringIdentity(s[1..]);
    }
  }

  function Flatten(parts: seq<bytes>): bytes {
    if parts == [] then [] else parts[0] + Flatten(parts[1..])
  }

  lemma {:induction false} FlattenAppend(a: seq<bytes>, b: seq<bytes>)
    ensures Flatten(a + b) == Flatten(a) + Flatten(b)
  {
    if a == [] {
      assert a + b == b;
    } else {
      assert (a + b)[0] == a[0] && (a + b)[1..] == a[1..] + b;
      FlattenAppend(a[1..], b);
    }
  }

  lemma PrefixBehind(a: bytes, b: bytes, c: bytes)
    requires b <= c
    ensures a + b <= a + c
  {
    assert a + c == a + b + c[|b|..];
  }

  lemma ConcatIsAssociative(a: bytes, b: bytes, c: bytes)
    ensures a + b + c == a + (b + c)
  {
  }

  /** The client's header bytes: `(size >> 24) & 0xFF`, `(size >> 16) & 0xFF`, ... */
  function BigEndian(size: uint32): (h: bytes)
    ensures |h| == 4
  {
    [size / 0x100_0000 % 0x100, size / 0x1_0000 % 0x100, size / 0x100 % 0x100, size % 0x100]
  }

  /** `ntohl` of four bytes in memory. */
  function NetworkOrder(h: bytes): (size: uint32)
    requires |h| == 4
  {
    ((h[0] as int * 0x100 + h[1]) * 0x100 + h[2]) * 0x100 + h[3]
  }

  /** The client's decoding by shifts and additions on `u32`: every shifted byte and every
      partial sum stays below 2^32, so no addition wraps, and the result is `NetworkOrder`. */
  lemma ShiftAndAddNeverOverflows(h: bytes)
    requires |h| == 4
    ensures var s1 := h[0] as int * 0x100_0000;
            var s2 := s1 + h[1] as int * 0x1_0000;
            var s3 := s2 + h[2] as int * 0x100;
            var s4 := s3 + h[3];
            s1 <= s2 <= s3 <= s4 < 0x1_0000_0000 && s4 == NetworkOrder(h)
  {
  }

  /** The size field survives the trip in both directions. */
  lemma SizeFieldRoundTrip(size: uint32, h: bytes)
    requires |h| == 4
    ensures NetworkOrder(BigEndian(size)) == size
    ensures BigEndian(NetworkOrder(h)) == h
  {
    var n := NetworkOrder(h);
    assert n / 0x100 == (h[0] as int * 0x100 + h[1]) * 0x100 + h[2];
    assert n / 0x1_0000 == h[0] as int * 0x100 + h[1];
    assert n / 0x100_0000 == h[0];
    var q1 := size / 0x100;
    var q2 := size / 0x1_0000;
    var q3 := size / 0x100_0000;
    assert q1 == q2 * 0x100 + q1 % 0x100 && q2 == q3 * 0x100 + q2 % 0x100;
  }
}
