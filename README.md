# flpc core, modelled in Dafny

flpc is a Python regex module implemented in Rust on top of the `regex` crate.
Its own logic is thin bookkeeping around the crate's matcher, and that is what
this project models and proves:

- **Flag decoding** (`flags.dfy`): the 32-bit flag field of `compile` becomes
  three builder options: case-insensitive (bit 0), multi-line (bit 1),
  dot-matches-newline (bit 2). All other bits are ignored. A missing flag
  argument means 0.
- **Pattern cache** (`cache.dfy`): a class holding a `map` from
  (pattern text, flags) to a compiled regex. `Compile` serves hits from the
  map. On a miss it configures the builder and asks the engine to build. It
  stores the result only on success. `Purge` empties the map. The class
  invariant says every stored regex is exactly what the engine would build for
  its key. So a cache hit cannot be told apart from a fresh build, and
  `Compile` is specified against the uncached result.
- **Match value and offset translation** (`matches.dfy`, `utf8.dfy`): a match
  owns a copy of the searched text as UTF-8 bytes, plus one optional byte span
  per group (index 0 is the whole match). `Group`/`Groups` slice the owned
  bytes. `Start`/`End`/`Span` count the characters before a byte offset, where
  a character is a byte that is not a continuation byte (10xxxxxx), following
  the encoding table in section 3 of RFC 3629. The caller's text is a Dafny
  `string` (Unicode scalar values, like Rust `char`). The owned copy is its
  encoding `Encode(text)`. The main result, `GroupIsCharacterRange`, proves the
  translation exact: the bytes before a group's start (end) are the encoding of
  the first `Start` (`End`) characters, so these offsets are the only ones that
  fit; and a group's bytes are the encoding of the characters between them.
- **Operations** (`ops.dfy`): `Search`, `FMatch`, `FullMatch`, `FindAll`,
  `FindIter`, `Split`, `Sub` and `Subn` over the engine's answers.

The regex engine is an oracle (`engine.dfy`). A compiled `Regex` is a bundle of
total functions over bytes: `captures`, `captures_iter`, `find_iter`, `split`
and `replace_all`. Nothing is assumed about which texts they match. The
subset type `SoundRegex` records the only guarantees the engine gives:
- every reported span lies within the text, on character boundaries;
- group 0 is always present;
- `captures` is the first of `captures_iter`;
- `find_iter` lists the group-0 spans of `captures_iter`, left to right and
  without overlap;
- `split` returns the text between those matches;
- with no match, `replace_all` returns the text unchanged.

The engine's builder is a function from (pattern, options) to a regex or a
diagnostic message. The cache receives it at construction.

Points where the model follows the code as written:
- `compile` holds the cache lock for the whole call, build included. The model
  has a single cache object and no concurrency.
- `subn` reports the byte length of its output, not the number of
  replacements (see Findings).
- `fullmatch` inspects only the engine's leftmost match and keeps it when its
  substring is the whole text. It does not look for some other match that
  covers the whole text. `FullMatch` states exactly this.

One point where it does not: `group` and `groups` read the caller's buffer in
the source, while the model slices the match's own copy (see "## Left out").

## Model

| member | source | states |
|---|---|---|
| `Flags.Decode` | src/lib.rs:90-98 | case-insensitive exactly when bit 0 is set, multi-line exactly when bit 1 is set, dot-matches-newline exactly when bit 2 is set |
| `Flags.Configure` | src/lib.rs:89-98 | the step-by-step builder configuration (start from defaults, switch on each option whose mask bit is set) yields exactly the decoded options |
| `Flags.DecodeOnlyReadsDefinedBits` | src/lib.rs:90-98 | two flag fields give the same options if and only if their three low bits agree; every other bit has no effect |
| `Flags.AbsentFlagsMeanNone` | src/lib.rs:82 | a missing flag argument and an explicit 0 both leave every option off |
| `Cache.RegexCache.constructor` | src/lib.rs:39-43 | the cache starts empty and satisfies its invariant (every entry is what the engine builds for its key) |
| `Cache.RegexCache.Compile` | src/lib.rs:81-107 | the result equals building afresh with the decoded flags; a hit returns the stored regex and leaves the cache unchanged; a successful miss adds exactly its key; a failure returns the engine's message and leaves the cache exactly as it was, so the next call builds again |
| `Cache.RegexCache.Purge` | src/lib.rs:200-204 | always succeeds and leaves the cache empty, keeping the invariant |
| `Cache.CompilePurgeCompile` | src/lib.rs:200-204 | a pattern obtained before `purge` equals the one compiled again after it; afterwards the cache holds only that key on success and nothing on failure |
| `Utf8.EncodeChar` | src/lib.rs:116 | each character of the owned text is one lead byte announcing the sequence length, followed by continuation bytes (RFC 3629 section 3), 1 to 4 bytes in all |
| `Utf8.CharCountEncode` | src/lib.rs:61 | counting non-continuation bytes of the encoded text gives exactly the number of characters of the string |
| `Utf8.BoundaryIsEncodedPrefix` | src/lib.rs:73-74 | at a character boundary, the bytes before the offset are exactly the encoding of the first `CharCount` characters |
| `Utf8.EncodedSlice` | src/lib.rs:73-74 | between two character boundaries of the encoded text, the bytes are the encoding of the characters between the two character offsets, which are ordered and within the string |
| `Utf8.AsciiCount` | src/lib.rs:61 | on all-ASCII bytes the character count equals the byte count |
| `Matches.Match.Group` | src/lib.rs:47-49 | `None` exactly when the index is out of range or the group did not take part; otherwise a slice as long as that group's byte span (its contents are stated by `GroupIsCharacterRange`); group 0 is always present |
| `Matches.Match.Groups` | src/lib.rs:51-57 | one entry fewer than the spans; entry k is group k+1, keeping `None` entries in order |
| `Matches.Match.Start` | src/lib.rs:59-63 | defined exactly when the group is; at most the character count of the owned text |
| `Matches.Match.End` | src/lib.rs:65-69 | defined exactly when the group is; `start(i) <= end(i) <= charcount(text)` |
| `Matches.Match.Span` | src/lib.rs:71-77 | defined exactly when the group is, and then equals `(start(i), end(i))` |
| `Matches.GroupLengthInCharacters` | src/lib.rs:59-77 | a group contains `end(i) - start(i)` characters |
| `Matches.AsciiOffsetsAreByteOffsets` | src/lib.rs:71-77 | on all-ASCII text the character span equals the byte span |
| `Matches.GroupIsCharacterRange` | src/lib.rs:47-77 | for owned text `Encode(s)`: the bytes before the group's byte start (end) are the encoding of `s[..start(i)]` (`s[..end(i)]`), `start(i) <= end(i) <= |s|`, and the group's bytes are the encoding of `s[start(i)..end(i)]` |
| `Matches.EmptyGroupIffEqualOffsets` | src/lib.rs:59-77 | a group is empty if and only if its start and end character offsets coincide |
| `Matches.HelloWorldExample` | examples/groups.py:9-15 | for `(\w+) (\w+)` on "Hello World": groups `['Hello', 'World']` and span `(0, 11)` |
| `Matches.TwoByteCharacterExample` | src/lib.rs:71-77 | a match of the two-byte "Ö" at the start of "ÖL" has character span `(0, 1)` |
| `Ops.Search` | src/lib.rs:109-119 | `None` exactly when the engine has no match; otherwise the first match of `finditer` |
| `Ops.FMatch` | src/lib.rs:121-135 | a match exactly when `search` finds one whose group 0 starts at byte 0; it is then the search result with `start(0) == 0` |
| `Ops.FullMatch` | src/lib.rs:137-151 | a match exactly when `search` finds one whose group-0 substring is the whole text; its `span(0)` is then `(0, number of characters of the text)` |
| `Ops.FullMatchIsAnchored` | src/lib.rs:121-151 | whenever `fullmatch` yields a match, `fmatch` yields the same match |
| `Ops.FindIter` | src/lib.rs:167-181 | one match per engine `captures_iter` match, in order, with that match's spans; every match owns a full copy of the encoded text and keeps the match invariant |
| `Ops.FindAll` | src/lib.rs:158-165 | one string per engine match, in order; entry k is group 0 of the k-th `finditer` match |
| `Ops.Split` | src/lib.rs:153-156 | one more piece than there are matches; with no match, the single piece is the whole text |
| `Ops.SplitJoin` | src/lib.rs:153-165 | the `split` pieces interleaved with the `findall` substrings give back the text |
| `Ops.Sub` | src/lib.rs:183-186 | with no match, the text comes back unchanged |
| `Ops.SubnAsWritten` | src/lib.rs:188-193 | the string is `sub`'s output and the count is that output's byte length |
| `Ops.Subn` | src/lib.rs:188-193 | the string is `sub`'s output and the count is the number of matches replaced; with a count of 0 the text is unchanged |
| `Ops.SubnCountIsOutputLength` | src/lib.rs:188-193 | for a pattern with no match in "ab", the source's `subn` reports count 2 while nothing was replaced (the corrected count is 0) |

## Left out

- The matching engine itself (`RegexBuilder::build`, `captures`, `captures_iter`, `find_iter`, `split`, `replace_all`): it is an oracle constrained only by `SoundRegex`.
- `escape` (src/lib.rs:195-198): a direct call of the crate's `regex::escape`, with no logic of its own. It is not part of this model, and neither is the escape/find-all round trip, which depends on the engine's syntax.
- Sub: the expansion of the replacement template (`$1` and the like) belongs to the engine. The model states only that a text without matches comes back unchanged.
- The `Mutex`/`OnceLock` global singleton (src/lib.rs:39-43, 83, 202): the cache is one explicitly constructed object, with no concurrency.
- The `transmute` lifetime extension (src/lib.rs:114-115 and the same lines in the other operations): a match is modelled as owned bytes plus byte spans. In the source only `start`, `end` and `span` read the owned copy (src/lib.rs:61, 67, 73-74); `group` and `groups` read `m.as_str()` (src/lib.rs:48, 55) through the transmuted captures, that is, the caller's buffer. `Matches.Match.Group` and `Matches.Match.Groups` slice the owned copy instead, so the model agrees with the source only while the caller's string is still alive; the read through a freed buffer after that is not modelled. The unused `mat` field (src/lib.rs:17) is dropped, since group 0 of the spans holds the same span.
- The pyo3 glue: module registration, `__all__` and `__version__`, and the mapping of build errors to `PyValueError` (the error is kept as the engine's message string). Also left out are the empty `Scanner`, `RegexFlag`, `Constants` and `Sre` classes (src/lib.rs:22-37).
- Conversion of the returned byte strings back to Python `str`: the model returns UTF-8 bytes.
- `usize` offsets are `nat`. Offsets into a text can never reach the `usize` limit, so no overflow is modelled.
- The Rust panics on slicing at a non-boundary or out-of-range offset: the engine contract rules them out.
- benchmark/bench.py: wall-clock timing only.

## Findings

| source | as written | input that shows it | evidently intended | confidence | as-written member | corrected member |
|---|---|---|---|---|---|---|
| src/lib.rs:190-192 | `subn` returns `result.len()`, the byte length of the replaced string, as its count | a pattern with no match in "ab", replacement "": count 2, although nothing was replaced | the number of replacements made (0 here, one per match) | high; not executed | `Ops.SubnAsWritten`, `Ops.SubnCountIsOutputLength` | `Ops.Subn` |
