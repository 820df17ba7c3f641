/**
 * The pattern cache behind `compile` and `purge`: a map from (pattern text, flag
 * bits) to the regex the engine built for it. A hit hands out the stored regex;
 * a miss decodes the flags, asks the engine to build, and stores the regex only
 * when the build succeeds, so failures are never remembered.
 */
module Cache {
  import opened Wrappers
  import opened Flags
  import opened Engine

  /** The engine's builder: compiles a pattern under the given options, or fails
      with a diagnostic message. */
  type Builder = (string, Options) -> Result<SoundRegex, string>

  type Key = (string, bv32)

  /** What compiling `pattern` under `flags` yields when nothing is cached. */
  ghost function Uncached(build: Builder, pattern: string, flags: bv32): Result<Pattern, string> {
    match build(pattern, Decode(flags))
    case Success(rx) => Success(Pattern(rx))
    case Failure(e) => Failure(e)
  }

  class RegexCache {
    const build: Builder
    var entries: map<Key, SoundRegex>

    /** Every stored regex is the one the engine builds for its key, so serving it
        from the cache is indistinguishable from building it again. */
    ghost predicate Valid()
      reads this
    {
      forall key | key in entries :: build(key.0, Decode(key.1)) == Success(entries[key])
    }

    /** The cache starts empty. */
    constructor (build: Builder)
      ensures Valid()
      ensures this.build == build && entries == map[]
    {
      this.build := build;
      entries := map[];
    }

    /** `compile(pattern, flags)`. */
    method Compile(pattern: string, flags: Option<bv32>) returns (r: Result<Pattern, string>)
      requires Valid()
      modifies this
      ensures Valid()
      // a cache hit or miss is invisible to the caller
      ensures r == Uncached(build, pattern, EffectiveFlags(flags))
      // a hit returns the stored regex and leaves the cache alone
      ensures (pattern, EffectiveFlags(flags)) in old(entries) ==>
                r == Success(Pattern(old(entries)[(pattern, EffectiveFlags(flags))]))
                && entries == old(entries)
      // a successful miss stores its regex; a failure changes nothing
      ensures (pattern, EffectiveFlags(flags)) !in old(entries) ==>
                entries == (if r.Success? then old(entries)[(pattern, EffectiveFlags(flags)) := r.value.regex]
                            else old(entries))
      ensures r.Success? ==> (pattern, EffectiveFlags(flags)) in entries
      ensures r.Failure? ==> entries == old(entries)
    {
      var f := EffectiveFlags(flags);
      var key := (pattern, f);
      if key in entries {
        return Success(Pattern(entries[key]));
      }
      var opts := Configure(f);
      var built := build(pattern, opts);
      match built {
        case Failure(e) =>
          return Failure(e);
        case Success(rx) =>
          entries := entries[key := rx];
          return Success(Pattern(rx));
      }
    }

    /** `purge()`: drop every entry. It cannot fail. */
    method Purge()
      requires Valid()
      modifies this
      ensures Valid()
      ensures entries == map[]
    {
      entries := map[];
    }
  }

  /** A pattern compiled before `purge` keeps its regex, and compiling the same key
      afterwards builds a pattern that behaves identically. */
  method CompilePurgeCompile(cache: RegexCache, pattern: string, flags: Option<bv32>)
      returns (before: Result<Pattern, string>, after: Result<Pattern, string>)
    requires cache.Valid()
    modifies cache
    ensures cache.Valid()
    ensures before == after
    ensures after.Success? ==> cache.entries == map[(pattern, EffectiveFlags(flags)) := after.value.regex]
    ensures after.Failure? ==> cache.entries == map[]
  {
    before := cache.Compile(pattern, flags);
    cache.Purge();
    after := cache.Compile(pattern, flags);
  }
}
