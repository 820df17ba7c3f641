/**
 * The matching operations over a compiled pattern. The caller's text is a
 * string; the engine searches its UTF-8 encoding, and every match returned owns
 * a full copy of that encoding.
 */
module Ops {
  import opened Wrappers
  import opened Utf8
  import opened Matches
  import opened Engine

  /** `finditer`: one match per engine match, in order, each owning the whole text. */
  function FindIter(p: Pattern, text: string): (r: seq<Match>)
    ensures |r| == |p.regex.capturesIter(Encode(text))|
    ensures forall k | 0 <= k < |r| :: r[k].spans == p.regex.capturesIter(Encode(text))[k]
    ensures forall k | 0 <= k < |r| :: r[k].text == Encode(text) && r[k].Valid()
  {
    var t := Encode(text);
    var all := p.regex.capturesIter(t);
    assert SoundOn(p.regex, t);
    seq(|all|, k requires 0 <= k < |all| => Match(t, all[k]))
  }

  /** `findall`: the whole-match substring of every engine match, in order. */
  function FindAll(p: Pattern, text: string): (r: seq<Text>)
    ensures |r| == |FindIter(p, text)|
    ensures forall k | 0 <= k < |r| :: Some(r[k]) == FindIter(p, text)[k].Group(0)
  {
    var t := Encode(text);
    assert SoundOn(p.regex, t);
    var found := p.regex.findIter(t);
    SlicesAt(t, 0, found);
    Slices(t, 0, found)
  }

  lemma {:induction false} SlicesAt(t: Text, from: nat, ms: seq<ByteSpan>)
    requires Increasing(t, from, ms)
    decreases |ms|
    ensures forall k | 0 <= k < |ms| :: ms[k].start <= ms[k].end <= |t|
                                         && Slices(t, from, ms)[k] == t[ms[k].start..ms[k].end]
  {
    if ms != [] {
      SlicesAt(t, ms[0].end, ms[1..]);
    }
  }

  /** `search`: the leftmost match, which is the first of `finditer`'s. */
  function Search(p: Pattern, text: string): (r: Option<Match>)
    ensures r == (if FindIter(p, text) == [] then None else Some(FindIter(p, text)[0]))
  {
    var t := Encode(text);
    assert SoundOn(p.regex, t);
    match p.regex.captures(t)
    case None => None
    case Some(c) => Some(Match(t, c))
  }

  /** `fmatch`: the leftmost match, kept only when it begins at byte 0. */
  function FMatch(p: Pattern, text: string): (r: Option<Match>)
    ensures r.Some? <==> Search(p, text).Some? && Search(p, text).value.spans[0].value.start == 0
    ensures r.Some? ==> r == Search(p, text) && r.value.Start(0) == Some(0)
  {
    var t := Encode(text);
    assert SoundOn(p.regex, t);
    match p.regex.captures(t)
    case None => None
    case Some(c) => if c[0].value.start == 0 then Some(Match(t, c)) else None
  }

  /** `fullmatch`: the leftmost match, kept only when its substring is the whole text.
      Its character span is then `(0, number of characters of the text)`. */
  function FullMatch(p: Pattern, text: string): (r: Option<Match>)
    ensures r.Some? <==> Search(p, text).Some? && Search(p, text).value.Group(0) == Some(Encode(text))
    ensures r.Some? ==> r == Search(p, text) && r.value.Span(0) == Some((0, |text|))
  {
    var t := Encode(text);
    assert SoundOn(p.regex, t);
    match p.regex.captures(t)
    case None => None
    case Some(c) =>
      var s := c[0].value;
      if t[s.start..s.end] == t then
        assert s.start == 0 && s.end == |t|;
        assert t[..s.end] == t;
        CharCountEncode(text);
        Some(Match(t, c))
      else None
  }

  /** A match of the whole text is also a match at its start. */
  lemma FullMatchIsAnchored(p: Pattern, text: string)
    ensures FullMatch(p, text).Some? ==> FMatch(p, text) == FullMatch(p, text)
  {
  }

  /** `split`: the text between consecutive matches. */
  function Split(p: Pattern, text: string): (r: seq<Text>)
    ensures |r| == |FindAll(p, text)| + 1
    ensures FindAll(p, text) == [] ==> r == [Encode(text)]
  {
    var t := Encode(text);
    assert SoundOn(p.regex, t);
    assert t[0..] == t;
    p.regex.split(t)
  }

  /** Pieces and separators, interleaved: `r[0] + s[0] + r[1] + ... + r[n]`. */
  function Interleave(pieces: seq<Text>, seps: seq<Text>): Text
    requires |pieces| == |seps| + 1
    decreases |seps|
  {
    if seps == [] then pieces[0] else pieces[0] + seps[0] + Interleave(pieces[1..], seps[1..])
  }

  lemma {:induction false} PiecesInterleave(t: Text, from: nat, ms: seq<ByteSpan>)
    requires Increasing(t, from, ms)
    ensures Interleave(Pieces(t, from, ms), Slices(t, from, ms)) == t[from..]
    decreases |ms|
  {
    if ms != [] {
      var m := ms[0];
      var pieces, seps := Pieces(t, from, ms), Slices(t, from, ms);
      var pieces', seps' := Pieces(t, m.end, ms[1..]), Slices(t, m.end, ms[1..]);
      assert pieces[1..] == pieces' && seps[1..] == seps';
      assert Interleave(pieces, seps) == t[from..m.start] + t[m.start..m.end] + Interleave(pieces', seps');
      PiecesInterleave(t, m.end, ms[1..]);
      assert t[from..] == t[from..m.start] + t[m.start..m.end] + t[m.end..];
    } else {
      assert Pieces(t, from, ms) == [t[from..]];
    }
  }

  /** Putting the matched substrings back between the pieces of `split` gives the text. */
  lemma SplitJoin(p: Pattern, text: string)
    ensures Interleave(Split(p, text), FindAll(p, text)) == Encode(text)
  {
    var t := Encode(text);
    assert SoundOn(p.regex, t);
    PiecesInterleave(t, 0, p.regex.findIter(t));
    assert t[0..] == t;
  }

  /** `sub`: every match replaced, by the engine, with the expanded template. */
  function Sub(p: Pattern, repl: string, text: string): (r: Text)
    ensures FindAll(p, text) == [] ==> r == Encode(text)
  {
    var t := Encode(text);
    assert SoundOn(p.regex, t);
    p.regex.replaceAll(t, Encode(repl))
  }

  /** `subn` as the source computes it: the count is the byte length of the output. */
  function SubnAsWritten(p: Pattern, repl: string, text: string): (r: (Text, nat))
    ensures r.0 == Sub(p, repl, text) && r.1 == |r.0|
  {
    var result := p.regex.replaceAll(Encode(text), Encode(repl));
    (result, |result|)
  }

  /** `subn` as intended: the output of `sub` with the number of replacements made,
      one per match. */
  function Subn(p: Pattern, repl: string, text: string): (r: (Text, nat))
    ensures r.0 == Sub(p, repl, text)
    ensures r.1 == |FindAll(p, text)|
    ensures r.1 == 0 ==> r.0 == Encode(text)
  {
    var t := Encode(text);
    assert SoundOn(p.regex, t);
    (p.regex.replaceAll(t, Encode(repl)), |p.regex.findIter(t)|)
  }

  /** The source's count is wrong whenever the pattern has no match in a non-empty
      text: with no replacement at all, it reports the length of the text. */
  lemma SubnCountIsOutputLength(text: string)
    requires text == "ab"
    ensures var p := Pattern(NeverMatches());
            SubnAsWritten(p, "", text) == (Encode(text), 2)
            && Subn(p, "", text) == (Encode(text), 0)
  {
  }
}
