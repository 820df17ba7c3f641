/**
 * The external regex engine, treated as an oracle. A compiled regex is a bundle
 * of total functions over UTF-8 bytes; nothing is assumed about which text they
 * match, only the guarantees the engine gives about the shape of its answers
 * (`SoundOn`). `SoundRegex` is the type of regexes that keep those guarantees on
 * every text.
 */
module Engine {
  import opened Wrappers
  import opened Utf8
  import opened Matches

  /** Group spans of one match; index 0 is the whole match. */
  type Captures = seq<Option<ByteSpan>>

  /** A compiled pattern as the engine exposes it. */
  datatype Regex = Regex(
    captures: Text -> Option<Captures>,       // leftmost match with its groups
    capturesIter: Text -> seq<Captures>,      // every non-overlapping match with its groups
    findIter: Text -> seq<ByteSpan>,          // every non-overlapping match, whole match only
    split: Text -> seq<Text>,                 // the text between matches
    replaceAll: (Text, Text) -> Text)         // every match replaced by an expanded template

  /** The spans run left to right from byte `from`, do not overlap, and end within `t`. */
  predicate Increasing(t: Text, from: nat, ms: seq<ByteSpan>)
    decreases |ms|
  {
    if ms == [] then from <= |t|
    else from <= ms[0].start <= ms[0].end <= |t| && Increasing(t, ms[0].end, ms[1..])
  }

  /** The substrings that the spans cover, in order. */
  function Slices(t: Text, from: nat, ms: seq<ByteSpan>): (r: seq<Text>)
    requires Increasing(t, from, ms)
    ensures |r| == |ms|
    decreases |ms|
  {
    if ms == [] then [] else [t[ms[0].start..ms[0].end]] + Slices(t, ms[0].end, ms[1..])
  }

  /** The pieces of `t` from byte `from` that lie between the spans: one more than the spans. */
  function Pieces(t: Text, from: nat, ms: seq<ByteSpan>): (r: seq<Text>)
    requires Increasing(t, from, ms)
    ensures |r| == |ms| + 1
    decreases |ms|
  {
    if ms == [] then [t[from..]] else [t[from..ms[0].start]] + Pieces(t, ms[0].end, ms[1..])
  }

  /** What the engine guarantees on text `t`. */
  ghost predicate SoundOn(rx: Regex, t: Text) {
    var all := rx.capturesIter(t);
    var found := rx.findIter(t);
    && (forall k | 0 <= k < |all| :: ValidCaptures(t, all[k]))
    && rx.captures(t) == (if all == [] then None else Some(all[0]))
    && |found| == |all|
    && (forall k | 0 <= k < |found| :: all[k][0] == Some(found[k]))
    && Increasing(t, 0, found)
    && rx.split(t) == Pieces(t, 0, found)
    && (found == [] ==> forall repl :: rx.replaceAll(t, repl) == t)
  }

  ghost predicate Sound(rx: Regex) {
    forall t :: SoundOn(rx, t)
  }

  /** The regex that matches nothing: every text is left whole. */
  function NeverMatches(): Regex {
    Regex(t => None, t => [], t => [], t => [t], (t, repl) => t)
  }

  type SoundRegex = rx: Regex | Sound(rx) witness NeverMatches()

  /** A handle returned by `compile`: it holds its own copy of the compiled regex, so
      it stays usable whatever later happens to the cache. */
  datatype Pattern = Pattern(regex: SoundRegex)
}
