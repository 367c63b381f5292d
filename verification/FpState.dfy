/** The floating-point state the emulator keeps in fcsr: the rounding mode and the sticky exception flags. */
module FpState {
  import opened Rounding

  datatype Flags = Flags(inexact: bool, underflow: bool, overflow: bool, infinity: bool, invalid: bool) {
    /** Bitwise or of two flag words. */
    function Or(other: Flags): Flags {
      Flags(inexact || other.inexact, underflow || other.underflow, overflow || other.overflow,
            infinity || other.infinity, invalid || other.invalid)
    }
  }

  lemma OrNothing(f: Flags)
    ensures f.Or(NO_FLAGS) == f && NO_FLAGS.Or(f) == f
  {
  }

  /** A flag is set afterwards if and only if it was set before or is raised now. */
  lemma OrFields(f: Flags, g: Flags)
    ensures f.Or(g).inexact <==> f.inexact || g.inexact
    ensures f.Or(g).underflow <==> f.underflow || g.underflow
    ensures f.Or(g).overflow <==> f.overflow || g.overflow
    ensures f.Or(g).infinity <==> f.infinity || g.infinity
    ensures f.Or(g).invalid <==> f.invalid || g.invalid
  {
  }

  /** In whatever order and however often flags are raised. */
  lemma OrIsSticky(f: Flags, g: Flags, h: Flags)
    ensures f.Or(g) == g.Or(f) && f.Or(f) == f && f.Or(g).Or(h) == f.Or(g.Or(h))
  {
  }

  /** Flag by flag, nothing set in before is missing in after. */
  predicate Kept(before: Flags, after: Flags) {
    && (before.inexact ==> after.inexact) && (before.underflow ==> after.underflow)
    && (before.overflow ==> after.overflow) && (before.infinity ==> after.infinity)
    && (before.invalid ==> after.invalid)
  }

  /** The constants, flag by flag. */
  lemma SingleFlags()
    ensures INEXACT.inexact && !INEXACT.underflow && !INEXACT.overflow && !INEXACT.infinity && !INEXACT.invalid
    ensures !UNDERFLOW.inexact && UNDERFLOW.underflow && !UNDERFLOW.overflow && !UNDERFLOW.infinity && !UNDERFLOW.invalid
    ensures !OVERFLOW.inexact && !OVERFLOW.underflow && OVERFLOW.overflow && !OVERFLOW.infinity && !OVERFLOW.invalid
    ensures !INFINITY.inexact && !INFINITY.underflow && !INFINITY.overflow && INFINITY.infinity && !INFINITY.invalid
    ensures !INVALID.inexact && !INVALID.underflow && !INVALID.overflow && !INVALID.infinity && INVALID.invalid
    ensures !NO_FLAGS.inexact && !NO_FLAGS.underflow && !NO_FLAGS.overflow && !NO_FLAGS.infinity && !NO_FLAGS.invalid
  {
  }

  const NO_FLAGS := Flags(false, false, false, false, false)
  const INEXACT := Flags(true, false, false, false, false)
  const UNDERFLOW := Flags(false, true, false, false, false)
  const OVERFLOW := Flags(false, false, true, false, false)
  const INFINITY := Flags(false, false, false, true, false)
  const INVALID := Flags(false, false, false, false, true)

  function RaisedWhen(b: bool, which: Flags): Flags {
    if b then which else NO_FLAGS
  }

  /** What an operation delivers: the bits of the result and the flags it raises. */
  datatype Outcome = Outcome(bits: int, flags: Flags)

  class FpEnv {
    var roundingMode: Mode
    var flags: Flags

    constructor (mode: Mode)
      ensures roundingMode == mode && flags == NO_FLAGS
    {
      roundingMode := mode;
      flags := NO_FLAGS;
    }

    method Raise(which: Flags)
      modifies this`flags
      ensures flags == old(flags).Or(which)
    {
      flags := flags.Or(which);
    }
  }
}
