/**
 * `Flags`: the `bitflags` set passed as the `flags` argument of
 * readpassphrase(3).  Six single-bit flags; the default is the empty set,
 * which means "echo off".
 */
module Flags {

  /** The six named flags. */
  datatype Flag = EchoOn | RequireTty | ForceLower | ForceUpper | SevenBit | Stdin

  /** The bit each flag stands for in the C `int` argument. */
  function Bit(f: Flag): (b: bv32)
    ensures b != 0 && b & (b - 1) == 0
    ensures b & !0x3F == 0
  {
    match f
    case EchoOn => 0x01
    case RequireTty => 0x02
    case ForceLower => 0x04
    case ForceUpper => 0x08
    case SevenBit => 0x10
    case Stdin => 0x20
  }

  /** A set of flags, as the 32-bit value `Flags::bits()` returns. */
  datatype Flags = Flags(bits: bv32) {

    /** `Flags::contains` for a single flag. */
    predicate Contains(f: Flag) {
      bits & Bit(f) == Bit(f)
    }

    /** `|`, the union of two flag sets. */
    function Union(other: Flags): (u: Flags)
      ensures forall f :: u.Contains(f) <==> Contains(f) || other.Contains(f)
    {
      Flags(bits | other.bits)
    }
  }

  /** `Flags::empty()`. */
  function Empty(): (e: Flags)
    ensures forall f :: !e.Contains(f)
  {
    Flags(0)
  }

  /** `Flags::default()`, derived, hence the empty set as well. */
  function Default(): (d: Flags)
    ensures d == Empty()
  {
    Flags(0)
  }

  /** The set holding exactly one flag, as the constant `Flags::ECHO_ON` and its kin. */
  function Single(f: Flag): (s: Flags)
    ensures forall g :: s.Contains(g) <==> g == f
  {
    Flags(Bit(f))
  }

  /** Distinct flags occupy distinct bits, so no flag implies another. */
  lemma DistinctBits(f: Flag, g: Flag)
    requires f != g
    ensures Bit(f) & Bit(g) == 0
  {
  }
}
