/** The interaction state the input watchdog derives from two values it
    reads from the game every tick: the interact mode (an int32 code) and
    the menu-open fraction (a float32, kept here as its raw bits), together
    with the arithmetic that locates both values in the game's module. */
module Interaction {
  import opened Bytes

  /** InteractionState; Unknown stands for a mode code outside 0..3, for
      which getInteractionState has no return statement. */
  datatype InteractionState = Walking | Focusing | Solving | Cutscene | Menu | Unknown

  /** The interact mode the watchdog falls back to when it cannot read the
      mode: 2, "not solving". */
  const FALLBACK_MODE: int := 2

  /** Bit fields of an IEEE 754 binary32 value. */
  function SignBit(bits: u32): nat {
    bits / TWO_31
  }

  function Exponent(bits: u32): nat {
    (bits / 0x80_0000) % 0x100
  }

  function Mantissa(bits: u32): nat {
    bits % 0x80_0000
  }

  /** The float32 comparison `x >= 1.f` on the value with these bits: false
      for every NaN and every negative value, true for +infinity and for the
      finite values at least 1. */
  predicate AtLeastOne(bits: u32) {
    SignBit(bits) == 0 && Exponent(bits) >= 127 && !(Exponent(bits) == 255 && Mantissa(bits) != 0)
  }

  /** 2^k as a real. */
  function Pow2(k: int): (r: real)
    ensures r > 0.0
    decreases if k < 0 then -k else k
  {
    if k == 0 then 1.0 else if k > 0 then 2.0 * Pow2(k - 1) else Pow2(k + 1) / 2.0
  }

  lemma {:induction false} Pow2Bounds(k: int)
    ensures k >= 0 ==> Pow2(k) >= 1.0
    ensures k < 0 ==> Pow2(k) <= 0.5
    decreases if k < 0 then -k else k
  {
    if k > 0 {
      Pow2Bounds(k - 1);
    } else if k < -1 {
      Pow2Bounds(k + 1);
    }
  }

  /** The real number a finite float32 (exponent field below 255) denotes:
      (lead + m / 2^23) * 2^(e - 127), where lead is 1 for normal values and
      0 for subnormal ones, whose exponent field 0 stands for e = 1. */
  function FiniteValue(bits: u32): real
    requires Exponent(bits) < 255
  {
    var subnormal := Exponent(bits) == 0;
    var lead := if subnormal then 0.0 else 1.0;
    var e := if subnormal then 1 else Exponent(bits);
    var magnitude := (lead + Mantissa(bits) as real / 0x80_0000 as real) * Pow2(e - 127);
    if SignBit(bits) == 1 then -magnitude else magnitude
  }

  /** On finite values the bit test is the real comparison with 1. */
  lemma AtLeastOneIsComparison(bits: u32)
    requires Exponent(bits) < 255
    ensures AtLeastOne(bits) <==> FiniteValue(bits) >= 1.0
  {
    var subnormal := Exponent(bits) == 0;
    var lead := if subnormal then 0.0 else 1.0;
    var e := if subnormal then 1 else Exponent(bits);
    var significand := lead + Mantissa(bits) as real / 0x80_0000 as real;
    var scale := Pow2(e - 127);
    assert 0.0 <= significand < 2.0;
    Pow2Bounds(e - 127);
    if e < 127 {
      ProductBelowOne(significand, scale);
    } else {
      assert significand >= 1.0;
      ProductAtLeastOne(significand, scale);
    }
  }

  lemma ProductBelowOne(a: real, b: real)
    requires 0.0 <= a < 2.0 && 0.0 < b <= 0.5
    ensures a * b < 1.0
  {
  }

  lemma ProductAtLeastOne(a: real, b: real)
    requires a >= 1.0 && b >= 1.0
    ensures a * b >= 1.0
  {
  }

  /** getInteractionState: a menu at least fully open wins; otherwise the
      mode code picks the state. */
  function StateOf(mode: int, menuBits: u32): (s: InteractionState)
    ensures s == Menu <==> AtLeastOne(menuBits)
    ensures s == Unknown <==> !AtLeastOne(menuBits) && !(0 <= mode <= 3)
  {
    if AtLeastOne(menuBits) then Menu
    else if mode == 0 then Focusing
    else if mode == 1 then Solving
    else if mode == 2 then Walking
    else if mode == 3 then Cutscene
    else Unknown
  }

  /** With a finite menu fraction, the state is Menu exactly when the
      fraction is at least 1, whatever the mode; with the fraction below 1,
      the four mode codes give four different states. */
  lemma MenuIffFullyOpen(mode: int, menuBits: u32)
    requires Exponent(menuBits) < 255
    ensures StateOf(mode, menuBits) == Menu <==> FiniteValue(menuBits) >= 1.0
    ensures FiniteValue(menuBits) < 1.0 && 0 <= mode <= 3 ==>
              forall mode' :: 0 <= mode' <= 3 && mode' != mode ==> StateOf(mode', menuBits) != StateOf(mode, menuBits)
  {
    AtLeastOneIsComparison(menuBits);
  }

  /** The values updateInteractionState falls back to, mode 2 and a zero
      fraction, give Walking. */
  lemma FallbackIsWalking()
    ensures StateOf(FALLBACK_MODE, 0) == Walking
  {
    assert !AtLeastOne(0);
  }

  /** consumeInteractionStateChange as written: it reports whether the
      state differs from the remembered one, but the statement meant to
      remember the new state is a comparison, so the remembered state stays
      as it was. Result: (changed, remembered state afterwards). */
  function StateChangeAsWritten(previous: InteractionState, current: InteractionState): (r: (bool, InteractionState))
    ensures r.0 <==> current != previous
    ensures r.1 == previous
  {
    (current != previous, previous)
  }

  /** consumeInteractionStateChange as intended: report a change and
      remember the new state. */
  function StateChange(previous: InteractionState, current: InteractionState): (r: (bool, InteractionState))
    ensures r.0 <==> current != previous
    ensures r.1 == current
  {
    if current != previous then (true, current) else (false, previous)
  }

  /** As written, a single change of state is reported by every call while
      the state stays changed. */
  lemma AsWrittenReportsRepeatedly(previous: InteractionState, current: InteractionState, calls: nat)
    requires current != previous
    ensures Repeat(previous, current, calls, false) == calls
  {
    RepeatCount(previous, current, calls, false);
  }

  /** As intended, a single change of state is reported by the first call
      only. */
  lemma CorrectedReportsOnce(previous: InteractionState, current: InteractionState, calls: nat)
    requires current != previous && calls >= 1
    ensures Repeat(previous, current, calls, true) == 1
  {
    RepeatCount(previous, current, calls, true);
  }

  /** How many of `calls` successive calls report a change while the state
      stays `current`, using the corrected or the as-written function. */
  function Repeat(previous: InteractionState, current: InteractionState, calls: nat, corrected: bool): nat
    decreases calls
  {
    if calls == 0 then 0
    else
      var (changed, remembered) := if corrected then StateChange(previous, current) else StateChangeAsWritten(previous, current);
      (if changed then 1 else 0) + Repeat(remembered, current, calls - 1, corrected)
  }

  lemma {:induction false} RepeatCount(previous: InteractionState, current: InteractionState, calls: nat, corrected: bool)
    ensures Repeat(previous, current, calls, corrected) ==
              if current == previous || calls == 0 then 0 else if corrected then 1 else calls
    decreases calls
  {
    if calls > 0 {
      var (changed, remembered) := if corrected then StateChange(previous, current) else StateChangeAsWritten(previous, current);
      RepeatCount(remembered, current, calls - 1, corrected);
    }
  }

  /** The module-relative address a RIP-relative operand names: the address
      of the next instruction plus the sign-extended 32-bit displacement. */
  function RipRelative(next: u64, disp: seq<byte>): u64
    requires |disp| == 4
  {
    Wrap64(next + Int32Of(disp))
  }

  /** findInteractModeOffset's arithmetic: the 4 displacement bytes read
      just before the scan hit, zero-extended, plus the hit. */
  function InteractModeOffsetFrom(scan: u64, disp: seq<byte>): u64
    requires |disp| == 4
  {
    Wrap64(U32Of(disp) + scan)
  }

  /** Where findMenuOpenOffset reads the displacement: 7 + 17 bytes past the
      scan hit. */
  function MenuDisplacementAt(scan: u64): u64 {
    Wrap64(scan + 7 + 17)
  }

  /** findMenuOpenOffset's arithmetic: the displacement, zero-extended, plus
      the address just after it. */
  function MenuOpenOffsetFrom(scan: u64, disp: seq<byte>): u64
    requires |disp| == 4
  {
    Wrap64(U32Of(disp) + Wrap64(MenuDisplacementAt(scan) + 4))
  }

  /** The zero-extending finders compute the RIP-relative target exactly
      when the displacement is not negative; a negative displacement is
      taken 2^32 too far. */
  lemma FindersAreRipRelative(scan: u64, disp: seq<byte>)
    requires |disp| == 4
    ensures U32Of(disp) < TWO_31 <==> InteractModeOffsetFrom(scan, disp) == RipRelative(scan, disp)
    ensures U32Of(disp) < TWO_31 <==>
              MenuOpenOffsetFrom(scan, disp) == RipRelative(Wrap64(MenuDisplacementAt(scan) + 4), disp)
  {
    var u := U32Of(disp);
    if u >= TWO_31 {
      assert Int32Of(disp) == u - TWO_32;
      Wrap64Differs(u + scan, TWO_32);
      Wrap64Differs(u + Wrap64(MenuDisplacementAt(scan) + 4), TWO_32);
    }
  }

  /** Wrap64 tells apart two integers 2^32 apart. */
  lemma Wrap64Differs(x: int, d: int)
    requires d == TWO_32
    ensures Wrap64(x) != Wrap64(x - d)
  {
  }
}
