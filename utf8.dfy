/**
 * UTF-8 text as the matching engine sees it: a sequence of bytes.
 * Every character (Unicode scalar value) is encoded as one lead byte followed by
 * zero to three continuation bytes of the form 10xxxxxx, following the table in
 * section 3 of RFC 3629. Counting characters therefore means counting the bytes
 * that are not continuation bytes, which is what `str::chars().count()` yields
 * on well-formed UTF-8.
 */
module Utf8 {

  newtype byte = b: int | 0 <= b < 0x100

  type Text = seq<byte>

  /** A byte of the form 10xxxxxx (0x80..0xBF). */
  predicate IsContinuation(b: byte) {
    0x80 <= b < 0xC0
  }

  /** Rust's `str::is_char_boundary`: the ends are boundaries, and an inner index is
      one exactly when the byte there does not continue a character. */
  predicate IsCharBoundary(t: Text, i: nat) {
    i == 0 || i == |t| || (i < |t| && !IsContinuation(t[i]))
  }

  /** Number of characters in `t`: the bytes that begin a character. */
  function CharCount(t: Text): (n: nat)
    ensures n <= |t|
  {
    if t == [] then 0
    else (if IsContinuation(t[0]) then 0 else 1) + CharCount(t[1..])
  }

  /** Length of the sequence that a lead byte announces (RFC 3629, section 3). */
  function SequenceLength(lead: byte): nat {
    if lead < 0x80 then 1
    else if 0xC0 <= lead < 0xE0 then 2
    else if 0xE0 <= lead < 0xF0 then 3
    else if 0xF0 <= lead < 0xF8 then 4
    else 0
  }

  /** The UTF-8 encoding of one scalar value. */
  function EncodeChar(c: char): (e: Text)
    ensures 1 <= |e| <= 4
    ensures SequenceLength(e[0]) == |e|
    ensures forall k | 1 <= k < |e| :: IsContinuation(e[k])
  {
    var n := c as int;
    if n < 0x80 then
      [n as byte]
    else if n < 0x800 then
      [(0xC0 + n / 0x40) as byte, (0x80 + n % 0x40) as byte]
    else if n < 0x1_0000 then
      [(0xE0 + n / 0x1000) as byte, (0x80 + n / 0x40 % 0x40) as byte, (0x80 + n % 0x40) as byte]
    else
      [(0xF0 + n / 0x4_0000) as byte, (0x80 + n / 0x1000 % 0x40) as byte,
       (0x80 + n / 0x40 % 0x40) as byte, (0x80 + n % 0x40) as byte]
  }

  /** The UTF-8 encoding of a string: what `&str` holds for it. */
  function Encode(s: string): (t: Text)
    ensures |t| >= |s|
  {
    if s == [] then [] else EncodeChar(s[0]) + Encode(s[1..])
  }

  lemma {:induction false} CharCountAppend(a: Text, b: Text)
    ensures CharCount(a + b) == CharCount(a) + CharCount(b)
  {
    if a != [] {
      assert (a + b)[1..] == a[1..] + b;
      CharCountAppend(a[1..], b);
    } else {
      assert a + b == b;
    }
  }

  /** Counting characters up to a later byte offset never gives fewer. */
  lemma PrefixCountMonotone(t: Text, i: nat, j: nat)
    requires i <= j <= |t|
    ensures CharCount(t[..i]) <= CharCount(t[..j])
  {
    assert t[..j] == t[..i] + t[i..j];
    CharCountAppend(t[..i], t[i..j]);
  }

  /** The characters of a slice are those up to its end minus those up to its start. */
  lemma SliceCount(t: Text, i: nat, j: nat)
    requires i <= j <= |t|
    ensures CharCount(t[i..j]) == CharCount(t[..j]) - CharCount(t[..i])
  {
    assert t[..j] == t[..i] + t[i..j];
    CharCountAppend(t[..i], t[i..j]);
  }

  /** On all-ASCII text every byte is a character. */
  lemma {:induction false} AsciiCount(t: Text)
    requires forall k | 0 <= k < |t| :: t[k] < 0x80
    ensures CharCount(t) == |t|
  {
    if t != [] {
      AsciiCount(t[1..]);
    }
  }

  /** An ASCII string is encoded one byte per character, each byte its code. */
  lemma {:induction false} EncodeAscii(s: string)
    requires forall k | 0 <= k < |s| :: s[k] as int < 0x80
    ensures |Encode(s)| == |s|
    ensures forall k | 0 <= k < |s| :: Encode(s)[k] as int == s[k] as int
  {
    if s != [] {
      EncodeAscii(s[1..]);
      assert Encode(s) == [s[0] as int as byte] + Encode(s[1..]);
    }
  }

  lemma CharCountEncodeChar(c: char)
    ensures CharCount(EncodeChar(c)) == 1
  {
    var e := EncodeChar(c);
    assert !IsContinuation(e[0]);
    assert e == [e[0]] + e[1..];
    CharCountAppend([e[0]], e[1..]);
    ContinuationsCountZero(e[1..]);
  }

  lemma {:induction false} ContinuationsCountZero(t: Text)
    requires forall k | 0 <= k < |t| :: IsContinuation(t[k])
    ensures CharCount(t) == 0
  {
    if t != [] {
      ContinuationsCountZero(t[1..]);
    }
  }

  lemma {:induction false} EncodeAppend(a: string, b: string)
    ensures Encode(a + b) == Encode(a) + Encode(b)
  {
    if a == [] {
      assert a + b == b;
    } else {
      assert (a + b)[0] == a[0];
      assert (a + b)[1..] == a[1..] + b;
      EncodeAppend(a[1..], b);
    }
  }

  /** Encoding preserves the number of characters: `chars().count()` of the
      encoded text is the length of the string. */
  lemma {:induction false} CharCountEncode(s: string)
    ensures CharCount(Encode(s)) == |s|
  {
    if s != [] {
      CharCountEncodeChar(s[0]);
      CharCountAppend(EncodeChar(s[0]), Encode(s[1..]));
      CharCountEncode(s[1..]);
    }
  }

  /** Offset translation is exact: if byte offset `b` of `Encode(s)` is a character
      boundary and `k` is the number of characters before it, then the first `b`
      bytes are exactly the encoding of the first `k` characters. */
  lemma {:induction false} BoundaryIsEncodedPrefix(s: string, b: nat)
    requires b <= |Encode(s)| && IsCharBoundary(Encode(s), b)
    ensures CharCount(Encode(s)[..b]) <= |s|
    ensures Encode(s)[..b] == Encode(s[..CharCount(Encode(s)[..b])])
  {
    var t := Encode(s);
    if b == 0 {
      assert s[..0] == [];
    } else if b == |t| {
      assert t[..b] == t;
      CharCountEncode(s);
      assert s[..|s|] == s;
    } else {
      var e := EncodeChar(s[0]);
      var rest := Encode(s[1..]);
      assert t == e + rest;
      if b < |e| {
        assert false;
      }
      var b' := b - |e|;
      assert IsCharBoundary(rest, b') by {
        if 0 < b' < |rest| {
          assert rest[b'] == t[b];
        }
      }
      BoundaryIsEncodedPrefix(s[1..], b');
      var k' := CharCount(rest[..b']);
      assert t[..b] == e + rest[..b'];
      CharCountAppend(e, rest[..b']);
      CharCountEncodeChar(s[0]);
      assert CharCount(t[..b]) == k' + 1;
      assert s[..k' + 1] == [s[0]] + s[1..][..k'];
      EncodeAppend([s[0]], s[1..][..k']);
      assert Encode([s[0]]) == e by {
        assert [s[0]][1..] == [];
      }
    }
  }

  /** A byte range between two character boundaries of `Encode(s)` is the encoding
      of the characters between the two character offsets. */
  lemma EncodedSlice(s: string, b1: nat, b2: nat)
    requires b1 <= b2 <= |Encode(s)|
    requires IsCharBoundary(Encode(s), b1) && IsCharBoundary(Encode(s), b2)
    ensures CharCount(Encode(s)[..b1]) <= CharCount(Encode(s)[..b2]) <= |s|
    ensures Encode(s)[b1..b2] == Encode(s[CharCount(Encode(s)[..b1])..CharCount(Encode(s)[..b2])])
  {
    var t := Encode(s);
    var k1, k2 := CharCount(t[..b1]), CharCount(t[..b2]);
    PrefixCountMonotone(t, b1, b2);
    BoundaryIsEncodedPrefix(s, b1);
    BoundaryIsEncodedPrefix(s, b2);
    assert s[..k2] == s[..k1] + s[k1..k2];
    EncodeAppend(s[..k1], s[k1..k2]);
    assert t[b1..b2] == t[..b2][b1..];
  }
}
