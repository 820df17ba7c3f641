/**
 * The match value handed back to callers: an owned copy of the searched text
 * plus the byte spans of the whole match (index 0) and of each capture group
 * (`None` for a group that did not take part). Substrings are sliced from the
 * owned copy; positions are reported in characters, by counting the characters
 * of the owned text that lie before a byte offset.
 */
module Matches {
  import opened Wrappers
  import opened Utf8

  /** A half-open byte range `[start, end)` into a text. */
  datatype ByteSpan = ByteSpan(start: nat, end: nat)

  /** The span lies within `t` and both its ends are character boundaries. */
  predicate ValidSpan(t: Text, s: ByteSpan) {
    s.start <= s.end <= |t| && IsCharBoundary(t, s.start) && IsCharBoundary(t, s.end)
  }

  /** What the engine guarantees of one set of captures on `t`: group 0 is present,
      and every present group is a valid span of `t`. */
  predicate ValidCaptures(t: Text, spans: seq<Option<ByteSpan>>) {
    && |spans| > 0
    && spans[0].Some?
    && forall i | 0 <= i < |spans| && spans[i].Some? :: ValidSpan(t, spans[i].value)
  }

  /** The bytes of `t` that an optional span covers. */
  function SliceOf(t: Text, o: Option<ByteSpan>): (r: Option<Text>)
    requires o.Some? ==> o.value.start <= o.value.end <= |t|
    ensures r.Some? <==> o.Some?
  {
    match o
    case None => None
    case Some(s) => Some(t[s.start..s.end])
  }

  datatype Match = Match(text: Text, spans: seq<Option<ByteSpan>>) {

    /** The invariant every match keeps: its spans are valid for its own text. */
    predicate Valid() {
      ValidCaptures(text, spans)
    }

    /** `group(idx)`: the substring of group `i`, or `None` when `i` is out of range
        or the group did not take part. */
    function Group(i: nat): (g: Option<Text>)
      requires Valid()
      ensures g.Some? <==> i < |spans| && spans[i].Some?
      ensures g.Some? ==> |g.value| == spans[i].value.end - spans[i].value.start
      ensures i == 0 ==> g.Some?
    {
      if i < |spans| then SliceOf(text, spans[i]) else None
    }

    /** `groups()`: groups 1 to N in order, keeping `None` for those that did not take part. */
    function Groups(): (gs: seq<Option<Text>>)
      requires Valid()
      ensures |gs| == |spans| - 1
      ensures forall k | 0 <= k < |gs| :: gs[k] == Group(k + 1)
    {
      seq(|spans| - 1, k requires 0 <= k < |spans| - 1 => SliceOf(text, spans[k + 1]))
    }

    /** `start(idx)`: the number of characters before the group's first byte. */
    function Start(i: nat): (r: Option<nat>)
      requires Valid()
      ensures r.Some? <==> Group(i).Some?
      ensures r.Some? ==> r.value <= CharCount(text)
    {
      if i < |spans| && spans[i].Some? then
        PrefixCountMonotone(text, spans[i].value.start, |text|);
        assert text[..|text|] == text;
        Some(CharCount(text[..spans[i].value.start]))
      else None
    }

    /** `end(idx)`: the number of characters before the group's end offset. */
    function End(i: nat): (r: Option<nat>)
      requires Valid()
      ensures r.Some? <==> Group(i).Some?
      ensures r.Some? ==> Start(i).value <= r.value <= CharCount(text)
    {
      if i < |spans| && spans[i].Some? then
        PrefixCountMonotone(text, spans[i].value.start, spans[i].value.end);
        PrefixCountMonotone(text, spans[i].value.end, |text|);
        assert text[..|text|] == text;
        Some(CharCount(text[..spans[i].value.end]))
      else None
    }

    /** `span(idx)`: the pair of character offsets, computed afresh from the byte span. */
    function Span(i: nat): (r: Option<(nat, nat)>)
      requires Valid()
      ensures r.Some? <==> Group(i).Some?
      ensures r.Some? ==> r.value == (Start(i).value, End(i).value)
    {
      if i < |spans| && spans[i].Some? then
        var s := spans[i].value;
        Some((CharCount(text[..s.start]), CharCount(text[..s.end])))
      else None
    }
  }

  /** A group holds as many characters as its character offsets are apart
      (Python's `len(m.group(i)) == m.end(i) - m.start(i)`). */
  lemma GroupLengthInCharacters(m: Match, i: nat)
    requires m.Valid() && m.Group(i).Some?
    ensures CharCount(m.Group(i).value) == m.End(i).value - m.Start(i).value
  {
    var s := m.spans[i].value;
    SliceCount(m.text, s.start, s.end);
  }

  /** On all-ASCII text the character offsets are the byte offsets. */
  lemma AsciiOffsetsAreByteOffsets(m: Match, i: nat)
    requires m.Valid() && i < |m.spans| && m.spans[i].Some?
    requires forall k | 0 <= k < |m.text| :: m.text[k] < 0x80
    ensures m.Span(i) == Some((m.spans[i].value.start, m.spans[i].value.end))
  {
    var s := m.spans[i].value;
    AsciiCount(m.text[..s.start]);
    AsciiCount(m.text[..s.end]);
  }

  /** Offset translation is exact on the encoding of a string `s`: the bytes before
      the group's start (end) are the encoding of the first `Start(i)` (`End(i)`)
      characters of `s`, the offsets lie within `s`, and the group's bytes are
      precisely the encoding of the characters of `s` between them. */
  lemma GroupIsCharacterRange(m: Match, s: string, i: nat)
    requires m.Valid() && m.text == Encode(s) && m.Group(i).Some?
    ensures m.Start(i).value <= m.End(i).value <= |s|
    ensures m.text[..m.spans[i].value.start] == Encode(s[..m.Start(i).value])
    ensures m.text[..m.spans[i].value.end] == Encode(s[..m.End(i).value])
    ensures m.Group(i).value == Encode(s[m.Start(i).value..m.End(i).value])
  {
    var sp := m.spans[i].value;
    BoundaryIsEncodedPrefix(s, sp.start);
    BoundaryIsEncodedPrefix(s, sp.end);
    EncodedSlice(s, sp.start, sp.end);
  }

  /** On the encoding of a string, a group is empty exactly when its two character
      offsets coincide. */
  lemma EmptyGroupIffEqualOffsets(m: Match, s: string, i: nat)
    requires m.Valid() && m.text == Encode(s) && m.Group(i).Some?
    ensures m.Group(i).value == [] <==> m.Start(i) == m.End(i)
  {
    GroupIsCharacterRange(m, s, i);
    var k1, k2 := m.Start(i).value, m.End(i).value;
    if k1 < k2 {
      assert |Encode(s[k1..k2])| >= k2 - k1;
    }
  }

  /** The values the demonstration script prints for `(\w+) (\w+)` on "Hello World":
      groups `['Hello', 'World']` and span `(0, 11)` of group 0. */
  lemma HelloWorldExample(text: string, hello: string, world: string)
    requires text == "Hello World" && hello == "Hello" && world == "World"
    ensures var m := Match(Encode(text),
                           [Some(ByteSpan(0, 11)), Some(ByteSpan(0, 5)), Some(ByteSpan(6, 11))]);
            m.Valid()
            && m.Groups() == [Some(Encode(hello)), Some(Encode(world))]
            && m.Span(0) == Some((0, 11))
  {
    EncodeAscii(text);
    EncodeAscii(hello);
    EncodeAscii(world);
    var t := Encode(text);
    var m := Match(t, [Some(ByteSpan(0, 11)), Some(ByteSpan(0, 5)), Some(ByteSpan(6, 11))]);
    assert m.Valid();
    assert forall k | 0 <= k < 5 :: text[k] == hello[k] && text[6 + k] == world[k];
    assert t[0..5] == Encode(hello);
    assert t[6..11] == Encode(world);
    AsciiCount(t);
    assert t[..11] == t;
  }

  /** A two-byte character counts once: in "ÖL" the match of "Ö" covers bytes 0..2
      and characters 0..1. */
  lemma TwoByteCharacterExample(text: string)
    requires text == "\U{00D6}L"
    ensures var m := Match(Encode(text), [Some(ByteSpan(0, 2))]);
            m.Valid() && m.Span(0) == Some((0, 1))
  {
    var t := Encode(text);
    assert |text| == 2 && text[0] as int == 0xD6 && text[1] as int == 0x4C;
    assert Encode(text[1..]) == EncodeChar(text[1]) + Encode(text[1..][1..]);
    assert text[1..][1..] == [];
    assert t == EncodeChar(text[0]) + EncodeChar(text[1]);
    assert t == [0xC3, 0x96, 0x4C];
    assert t[..2] == [0xC3, 0x96];
    assert t[..2][1..] == [0x96];
    var tail: Text := [0x96];
    assert tail[1..] == [];
    assert CharCount(tail) == 0;
    assert CharCount(t[..2]) == 1;
    assert t[..0] == [];
  }
}
