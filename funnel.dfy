/** Lane semantics of the integer instructions the funnel-shift lowering emits, the
    defined meaning of llvm.fshl, and the lowering itself on one lane.

    A vector funnel shift works lane by lane with the same instructions and splat
    constants, so one lane of width w is the whole story. */
module Funnel {
  import opened Bits

  /** One lane of an integer value: a w-bit number, or poison (what LLVM gives for a
      shift by the full width or more). */
  datatype Lane = Poison | Val(n: nat)

  datatype BinaryOp = AndOp | SubOp | ShlOp | LShrOp | OrOp

  /** A lane of w bits holding a defined value. */
  predicate InRange(w: nat, a: Lane) {
    a.Val? && a.n < Pow2(w)
  }

  /** `sub` wraps around modulo 2^w: x + (2^w - (y mod 2^w)), truncated to w bits. */
  function SubLane(w: nat, x: nat, y: nat): Lane {
    TruncateBound(y, w);
    Val(Truncate(x + (Pow2(w) - Truncate(y, w)), w))
  }

  /** `shl` drops the bits shifted past the width; by w or more it is poison. */
  function ShlLane(w: nat, x: nat, y: nat): Lane {
    if y >= w then Poison else Val(Truncate(ShiftLeft(x, y), w))
  }

  /** `lshr` fills with zeros from the top; by w or more it is poison. */
  function LShrLane(w: nat, x: nat, y: nat): Lane {
    if y >= w then Poison else Val(ShiftRight(x, y))
  }

  /** The instruction `op` on one lane of width w. Poison in, poison out. */
  function EvalBinary(op: BinaryOp, w: nat, a: Lane, b: Lane): (r: Lane)
    ensures (a.Poison? || b.Poison?) ==> r.Poison?
  {
    if a.Poison? || b.Poison? then Poison
    else match op
      case AndOp => Val(And(a.n, b.n))
      case SubOp => SubLane(w, a.n, b.n)
      case ShlOp => ShlLane(w, a.n, b.n)
      case LShrOp => LShrLane(w, a.n, b.n)
      case OrOp => Val(Or(a.n, b.n))
  }

  /** Every instruction maps w-bit lanes to w-bit lanes; a shift is poison exactly when
      its amount is w or more, and the other instructions are never poison. */
  lemma EvalBinaryInRange(op: BinaryOp, w: nat, a: Lane, b: Lane)
    requires InRange(w, a) && InRange(w, b)
    ensures var r := EvalBinary(op, w, a, b);
      && (r.Val? ==> r.n < Pow2(w))
      && ((op == ShlOp || op == LShrOp) ==> (r.Poison? <==> b.n >= w))
      && ((op != ShlOp && op != LShrOp) ==> r.Val?)
  {
    match op
    case AndOp => AndBound(a.n, b.n);
    case SubOp =>
      TruncateBound(b.n, w);
      TruncateBound(a.n + (Pow2(w) - Truncate(b.n, w)), w);
    case ShlOp => TruncateBound(ShiftLeft(a.n, b.n), w);
    case LShrOp => ShiftRightAtMost(a.n, b.n);
    case OrOp => OrBound(a.n, b.n, w);
  }

  /** The widths llvm.fshl is lowered for. */
  predicate SupportedWidth(w: nat) {
    w == 8 || w == 16 || w == 32 || w == 64
  }

  /** log2 of a supported width. */
  function Log2Width(w: nat): (k: nat)
    requires SupportedWidth(w)
    ensures Pow2(k) == w
  {
    WidthPowers();
    if w == 8 then 3 else if w == 16 then 4 else if w == 32 then 5 else 6
  }

  /** llvm.fshl as defined: concatenate hi and lo into 2w bits, shift left by
      shift mod w, and keep the most significant w bits. */
  function FunnelShiftLeft(w: nat, hi: nat, lo: nat, shift: nat): nat
    requires w > 0
  {
    Truncate(ShiftRight(ShiftLeft(ShiftLeft(hi, w) + lo, shift % w), w), w)
  }

  /** The lowering on one lane, instruction by instruction (the splat constants are
      w - 1 and w): shift_amount = shift & (w-1); down_amount = w - shift_amount;
      result = (lo >> down_amount) | (hi << shift_amount). */
  function ShiftAmount(w: nat, shift: nat): Lane
    requires w > 0
  {
    EvalBinary(AndOp, w, Val(shift), Val(w - 1))
  }

  function DownAmount(w: nat, shift: nat): Lane
    requires w > 0
  {
    EvalBinary(SubOp, w, Val(w), ShiftAmount(w, shift))
  }

  function FshlLowered(w: nat, hi: nat, lo: nat, shift: nat): Lane
    requires w > 0
  {
    var shiftAmount := ShiftAmount(w, shift);
    var hiBits := EvalBinary(ShlOp, w, Val(hi), shiftAmount);
    var loBits := EvalBinary(LShrOp, w, Val(lo), DownAmount(w, shift));
    EvalBinary(OrOp, w, loBits, hiBits)
  }

  /** The mask takes the shift modulo the width, so shift_amount < w; down_amount lies
      in 1..w and is the full width exactly when shift_amount is zero. */
  lemma ShiftAmountsInRange(w: nat, shift: nat)
    requires SupportedWidth(w)
    ensures ShiftAmount(w, shift) == Val(shift % w)
    ensures ShiftAmount(w, shift).n < w
    ensures DownAmount(w, shift) == Val(w - shift % w)
    ensures 1 <= DownAmount(w, shift).n <= w
    ensures DownAmount(w, shift).n == w <==> shift % w == 0
  {
    ShiftAmountIsMod(w, shift);
    SubNoWrap(w, shift % w);
  }

  lemma ShiftAmountIsMod(w: nat, shift: nat)
    requires SupportedWidth(w)
    ensures ShiftAmount(w, shift) == Val(shift % w)
  {
    var k := Log2Width(w);
    AndLowMask(shift, k);
    TruncateIsMod(shift, k);
  }

  lemma SubNoWrap(w: nat, s: nat)
    requires s < w
    ensures SubLane(w, w, s) == Val(w - s)
  {
    LessThanPow2(w);
    TruncateSmall(s, w);
    TruncateAddPow2(w - s, w);
    TruncateSmall(w - s, w);
  }

  /** With 0 < s < w both shifts are defined, and the lowering is the or of
      lo >> (w - s) and the truncated hi << s. */
  lemma LoweredHalves(w: nat, hi: nat, lo: nat, shift: nat)
    requires SupportedWidth(w) && shift % w != 0
    ensures var s := shift % w;
      FshlLowered(w, hi, lo, shift) == Val(Or(ShiftRight(lo, w - s), Truncate(ShiftLeft(hi, s), w)))
  {
    ShiftAmountsInRange(w, shift);
  }

  /** The value both sides come to for 0 < s < w: the w - s low bits of hi moved up by
      s, next to the s high bits of lo. */
  function CommonValue(w: nat, hi: nat, lo: nat, s: nat): nat
    requires s <= w
  {
    ShiftLeft(Truncate(hi, w - s), s) + ShiftRight(lo, w - s)
  }

  /** The lowered side: lo >> (w - s) fills the s low bits the truncated hi << s leaves
      clear, so the or is the sum ((hi mod 2^(w-s)) << s) + (lo >> (w - s)). */
  lemma LoweredValue(w: nat, hi: nat, lo: nat, s: nat)
    requires 0 < s < w && lo < Pow2(w)
    ensures Or(ShiftRight(lo, w - s), Truncate(ShiftLeft(hi, s), w)) == CommonValue(w, hi, lo, s)
  {
    TruncateShifted(hi, 0, s, w);
    assert s + (w - s) == w;
    ShiftRightBound(lo, w - s, s);
    OrDisjoint(ShiftRight(lo, w - s), Truncate(hi, w - s), s);
  }

  /** The reference side: the top half of ((hi << w) + lo) << s, cut to w bits, is the
      same sum. */
  lemma ReferenceValue(w: nat, hi: nat, lo: nat, s: nat)
    requires 0 < s < w && lo < Pow2(w)
    ensures Truncate(ShiftRight(ShiftLeft(ShiftLeft(hi, w) + lo, s), w), w) == CommonValue(w, hi, lo, s)
  {
    ShiftLeftAdd(ShiftLeft(hi, w), lo, s);
    ShiftLeftTwice(hi, w, s);
    ShiftLeftTwice(hi, s, w);
    ShiftRightOverShiftLeft(ShiftLeft(hi, s), ShiftLeft(lo, s), w);
    ShiftLeftThenRight(lo, s, w);
    assert s + (w - s) == w;
    ShiftRightBound(lo, w - s, s);
    TruncateShifted(hi, ShiftRight(lo, w - s), s, w);
  }

  lemma LoweredIsCommon(w: nat, hi: nat, lo: nat, shift: nat)
    requires SupportedWidth(w) && lo < Pow2(w) && shift % w != 0
    ensures FshlLowered(w, hi, lo, shift) == Val(CommonValue(w, hi, lo, shift % w))
  {
    LoweredHalves(w, hi, lo, shift);
    LoweredValue(w, hi, lo, shift % w);
  }

  lemma ReferenceIsCommon(w: nat, hi: nat, lo: nat, shift: nat)
    requires SupportedWidth(w) && lo < Pow2(w) && shift % w != 0
    ensures FunnelShiftLeft(w, hi, lo, shift) == CommonValue(w, hi, lo, shift % w)
  {
    ReferenceValue(w, hi, lo, shift % w);
  }

  /** For a shift that is not a multiple of the width, the lowered instructions compute
      llvm.fshl exactly. */
  lemma FshlLoweredCorrect(w: nat, hi: nat, lo: nat, shift: nat)
    requires SupportedWidth(w)
    requires lo < Pow2(w)
    requires shift % w != 0
    ensures FshlLowered(w, hi, lo, shift) == Val(FunnelShiftLeft(w, hi, lo, shift))
  {
    LoweredIsCommon(w, hi, lo, shift);
    ReferenceIsCommon(w, hi, lo, shift);
  }

  /** For a shift that is a multiple of the width, llvm.fshl returns hi, but the lowered
      `lshr` shifts by the full width and the result is poison. */
  lemma FshlZeroShiftIsPoison(w: nat, hi: nat, lo: nat, shift: nat)
    requires SupportedWidth(w)
    requires hi < Pow2(w) && lo < Pow2(w)
    requires shift % w == 0
    ensures FshlLowered(w, hi, lo, shift) == Poison
    ensures FunnelShiftLeft(w, hi, lo, shift) == hi
  {
    ZeroShiftLowered(w, hi, lo, shift);
    ZeroShiftFunnel(w, hi, lo, shift);
  }

  lemma ZeroShiftFunnel(w: nat, hi: nat, lo: nat, shift: nat)
    requires w > 0 && hi < Pow2(w) && lo < Pow2(w) && shift % w == 0
    ensures FunnelShiftLeft(w, hi, lo, shift) == hi
  {
    ZeroShiftReference(w, hi, lo);
  }

  lemma ZeroShiftLowered(w: nat, hi: nat, lo: nat, shift: nat)
    requires SupportedWidth(w) && shift % w == 0
    ensures FshlLowered(w, hi, lo, shift) == Poison
  {
    ShiftAmountsInRange(w, shift);
    var loBits := EvalBinary(LShrOp, w, Val(lo), DownAmount(w, shift));
    assert loBits == LShrLane(w, lo, w) == Poison;
  }

  lemma ZeroShiftReference(w: nat, hi: nat, lo: nat)
    requires w > 0 && hi < Pow2(w) && lo < Pow2(w)
    ensures Truncate(ShiftRight(ShiftLeft(ShiftLeft(hi, w) + lo, 0), w), w) == hi
  {
    ShiftRightOverShiftLeft(hi, lo, w);
    ShiftRightBound(lo, w, 0);
    TruncateSmall(hi, w);
  }

  /** The worked case: w = 8, hi = 0b10110011, lo = 0b01010101, shift = 3 gives
      (hi << 3 | lo >> 5) mod 256 = 0b10011010. */
  lemma FshlExample()
    ensures FshlLowered(8, 179, 85, 3) == Val(154)
  {
    ShiftAmountsInRange(8, 3);
    ExampleLowBits();
    ExampleHighBits();
    ExampleOr();
  }

  lemma ExampleLowBits()
    ensures ShiftRight(85, 5) == 2
  {
    assert ShiftRight(85, 5) == ShiftRight(42, 4) == ShiftRight(21, 3) == ShiftRight(10, 2);
  }

  lemma ExampleHighBits()
    ensures Truncate(ShiftLeft(179, 3), 8) == 152
  {
    assert ShiftLeft(179, 3) == 1432 by {
      assert ShiftLeft(179, 1) == 358;
      assert ShiftLeft(179, 2) == 716;
    }
    assert Pow2(8) == 256 by {
      WidthPowers();
      assert Pow2(7) == 128;
    }
    TruncateIsMod(1432, 8);
  }

  lemma ExampleOr()
    ensures Or(2, 152) == 154
  {
    assert Or(0, 38) == 38;
    assert Or(1, 76) == 77;
  }
}
