/**
 * Decoding of the 32-bit flag field passed to `compile` into the three options
 * the engine's pattern builder accepts. Only the three lowest bits are defined;
 * every other bit is ignored, never rejected.
 */
module Flags {
  import opened Wrappers

  const CaseInsensitiveBit: bv32 := 0x1
  const MultiLineBit: bv32 := 0x2
  const DotAllBit: bv32 := 0x4

  /** The builder options that `compile` may switch on. */
  datatype Options = Options(caseInsensitive: bool, multiLine: bool, dotMatchesNewLine: bool)

  /** Builder defaults: every option off. */
  const Default := Options(false, false, false)

  /** Whether bit `k` (0 = least significant) of `flags` is set. */
  predicate HasBit(flags: bv32, k: nat)
    requires k < 32
  {
    (flags >> k) & 1 == 1
  }

  /** A missing flag argument means 0. */
  function EffectiveFlags(flags: Option<bv32>): bv32 {
    match flags
    case None => 0
    case Some(f) => f
  }

  /** The options that the bit-field selects. */
  function Decode(flags: bv32): (o: Options)
    ensures o.caseInsensitive <==> HasBit(flags, 0)
    ensures o.multiLine <==> HasBit(flags, 1)
    ensures o.dotMatchesNewLine <==> HasBit(flags, 2)
  {
    Options(flags & CaseInsensitiveBit != 0, flags & MultiLineBit != 0, flags & DotAllBit != 0)
  }

  /** The builder configuration of `compile`: start from the defaults and switch on
      each option whose bit is set, one conditional call at a time. */
  method Configure(flags: bv32) returns (opts: Options)
    ensures opts == Decode(flags)
  {
    opts := Default;
    if flags & CaseInsensitiveBit != 0 {
      opts := opts.(caseInsensitive := true);
    }
    if flags & MultiLineBit != 0 {
      opts := opts.(multiLine := true);
    }
    if flags & DotAllBit != 0 {
      opts := opts.(dotMatchesNewLine := true);
    }
  }

  /** Two flag fields select the same options exactly when their three defined bits agree;
      all other bits are ignored. */
  lemma DecodeOnlyReadsDefinedBits(f: bv32, g: bv32)
    ensures Decode(f) == Decode(g) <==> f & 0x7 == g & 0x7
  {
  }

  /** Absent flags and a zero field both leave every option off. */
  lemma AbsentFlagsMeanNone()
    ensures Decode(EffectiveFlags(None)) == Default
    ensures Decode(EffectiveFlags(Some(0))) == Default
  {
  }
}
