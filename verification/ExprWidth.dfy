/**
 * Expression width inference: the tree of an expression, and what test_width computes for it while
 * the width mode is threaded through the tree.
 */
module ExprWidth {
  import opened Options
  import opened PowersOfTwo

  /** PExpr::width_mode_t, in its order. */
  datatype Mode = Sized | Unsized | Expand | Lossless | Upsize

  function Rank(m: Mode): nat {
    match m
    case Sized => 0
    case Unsized => 1
    case Expand => 2
    case Lossless => 3
    case Upsize => 4
  }

  /** The program parameters integer_width and width_cap. */
  datatype Limits = Limits(integerWidth: nat, widthCap: nat)

  datatype BinOp = Add | Sub | Mul | Div | Mod | And | Or | Xor | Nand | Nor | Xnor | Min | Max
  datatype LeftOp = Shl | Shr | Ashr | Pow
  datatype CompOp = Eq | Ne | Lt | Le | Gt | Ge
  datatype LogicOp = LAnd | LOr
  datatype UnaryOp = Plus | Minus | Not
  datatype ReduceOp = RedAnd | RedOr | RedXor | RedNand | RedNor | RedXnor | LNot

  /**
   * Expressions over defined vector operands. Num is a literal: `bits` is its value as written, without
   * sign, and `single` marks '0 and '1. In Left, `rc` is the value that the right operand folds to when
   * it is a constant, and `powLen` the length of the folded power when both operands are literals.
   */
  datatype Expr =
    | Num(bits: nat, len: nat, sized: bool, signed: bool, single: bool)
    | Sig(name: nat, width: nat, signed: bool)
    | Bin(bop: BinOp, l: Expr, r: Expr)
    | Left(lop: LeftOp, l: Expr, r: Expr, rc: Option<int>, powLen: nat)
    | Comp(cop: CompOp, l: Expr, r: Expr)
    | Logic(gop: LogicOp, l: Expr, r: Expr)
    | Tern(c: Expr, t: Expr, f: Expr)
    | Un(uop: UnaryOp, e: Expr)
    | Red(rop: ReduceOp, e: Expr)

  /** min_width: a width, or UINT_MAX, which forbids pruning. */
  datatype MinWidth = Fin(n: nat) | NoPruning

  /** What a call of test_width returns and leaves in the node, and the mode it leaves. */
  datatype Info = Info(ret: nat, width: nat, min: MinWidth, signed: bool, mode: Mode)

  function Greater(a: nat, b: nat): nat { if a >= b then a else b }

  function GreaterMin(a: MinWidth, b: MinWidth): MinWidth {
    if a.Fin? && b.Fin? then Fin(Greater(a.n, b.n)) else NoPruning
  }

  /** PExpr::fix_width_ */
  function FixWidth(lim: Limits, width: nat, mode: Mode): nat {
    if mode == Upsize && width < lim.integerWidth then lim.integerWidth else width
  }

  /** An unsized literal at least as wide as an integer, and one that is narrower. */
  predicate BigLiteral(lim: Limits, e: Expr) {
    e.Num? && !e.sized && !e.single && e.len >= lim.integerWidth
  }

  predicate SmallLiteral(lim: Limits, e: Expr) {
    e.Num? && !e.sized && !e.single && e.len < lim.integerWidth
  }

  const LONG_MAX := 0x7fff_ffff_ffff_ffff

  /** The guess at the value of the right operand, clipped to 0 .. width_cap. */
  function RightValue(lim: Limits, op: LeftOp, rWidth: nat, rSigned: bool, rc: Option<int>): nat {
    var byWidth := if rWidth < 64 then Pow2(rWidth) - 1 else LONG_MAX;
    var bySign := if rWidth < 64 && op == Pow && rSigned then byWidth / 2 else byWidth;
    var constWidth := if rSigned then 64 else 63;
    var v := if rc.Some? && rWidth <= constWidth then rc.value else bySign;
    if v < 0 then 0 else if v > lim.widthCap then lim.widthCap else v
  }

  /** g is the largest value of n bits, signed or not, within the cap. */
  ghost predicate LargestValue(cap: nat, n: nat, sg: bool, g: nat) {
    && g <= cap && (g == 0 || InRange(g, n, sg))
    && forall r: nat :: r <= cap && InRange(r, n, sg) ==> r <= g
  }

  /**
   * g is the largest value within the cap that the right operand can have, which has no constant value. The distance
   * of a shift is read without its sign.
   */
  ghost predicate LargestRight(lim: Limits, op: LeftOp, rWidth: nat, rSigned: bool, g: nat) {
    LargestValue(lim.widthCap, rWidth, op == Pow && rSigned, g)
  }

  /** v is the value in 0 .. cap that is nearest to c. */
  predicate Clipped(c: int, cap: nat, v: nat) {
    v <= cap && (c < 0 ==> v == 0) && (0 <= c <= cap ==> v == c) && (c > cap ==> v == cap)
  }

  lemma LargestByWidth(lim: Limits, op: LeftOp, rWidth: nat, rSigned: bool)
    requires lim.widthCap < UINT_RANGE
    ensures LargestRight(lim, op, rWidth, rSigned, RightValue(lim, op, rWidth, rSigned, None))
  {
    Pow2Of32();
    if rWidth >= 64 {
      Pow2Monotone(32, rWidth - 1);
      Pow2Monotone(32, rWidth);
    } else if rWidth > 0 {
      assert Pow2(rWidth) == 2 * Pow2(rWidth - 1);
    }
  }

  /** The guess is that value. A constant is taken as it is, within 0 .. width_cap, if it is not too wide for that. */
  lemma GuessIsLargest(lim: Limits, op: LeftOp, rWidth: nat, rSigned: bool, rc: Option<int>)
    requires lim.widthCap < UINT_RANGE
    ensures rc.None? || rWidth > (if rSigned then 64 else 63) ==>
              LargestRight(lim, op, rWidth, rSigned, RightValue(lim, op, rWidth, rSigned, rc))
    ensures rc.Some? && rWidth <= (if rSigned then 64 else 63) ==>
              Clipped(rc.value, lim.widthCap, RightValue(lim, op, rWidth, rSigned, rc))
  {
    LargestByWidth(lim, op, rWidth, rSigned);
  }

  const UINT_RANGE := 0x1_0000_0000

  /** Arithmetic on widths is that of unsigned int. */
  function Unsigned(n: int): nat {
    n % UINT_RANGE
  }

  /** The bits that the power rv of a value of lw bits is taken to need. */
  function PowerBits(lw: nat, rv: nat, signed: bool): int {
    if signed then (lw - 1) * rv + 2 else lw * rv
  }

  /** The bits that a shift or power needs whose left operand has width lw and was inferred in lMode. */
  function LeftBits(e: Expr, lw: nat, lMode: Mode, lSigned: bool, rv: nat): nat
    requires e.Left?
  {
    match e.lop
    case Shl => if lMode != Sized then Unsigned(lw + rv) else lw
    case Shr => lw
    case Ashr => lw
    case Pow =>
      if e.l.Num? && e.rc.Some? then Greater(lw, e.powLen)
      else Unsigned(PowerBits(lw, rv, lSigned))
  }

  /** Its lossless width, which is cut to integer width when the right operand is not constant. */
  function LeftLossless(lim: Limits, e: Expr, lw: nat, lMode: Mode, lSigned: bool, rv: nat): nat
    requires e.Left?
  {
    var use := LeftBits(e, lw, lMode, lSigned, rv);
    if e.rc.None? && use > lw && use > lim.integerWidth then lim.integerWidth else use
  }

  /** The mode after the left operand of a shift or power. */
  function LeftMode(e: Expr, mode: Mode, lMode: Mode, lSigned: bool): Mode
    requires e.Left?
  {
    var m := if mode == Sized then lMode else mode;
    if m == Lossless && (e.lop == Shr || e.lop == Ashr) && lSigned then Upsize else m
  }

  /**
   * Two operands tested one after the other: a first, then b; a again if b made the context lossless.
   * `again` is the outcome of that second test.
   */
  function Pair(a: Info, b: Info, again: Info): (Info, Info, Mode) {
    if Rank(b.mode) >= Rank(Lossless) && Rank(a.mode) < Rank(Lossless) then (again, b, again.mode) else (a, b, b.mode)
  }

  /** What a binary operator makes of its operands in mode m1. */
  function BinaryInfo(lim: Limits, op: BinOp, li: Info, ri: Info, m1: Mode): Info {
    var m := if m1 == Lossless && li.signed != ri.signed then Upsize else m1;
    var wide := Greater(li.ret, ri.ret);
    var width :=
      if Rank(m) >= Rank(Expand) then
        match op
        case Add => wide + 1
        case Sub => wide + 1
        case Mul => li.ret + ri.ret
        case _ => wide
      else wide;
    var min := if op == Div || op == Mod then NoPruning else GreaterMin(li.min, ri.min);
    Info(width, FixWidth(lim, width, m), min, li.signed && ri.signed, m)
  }

  /** What a shift or power makes of its operands, which were both tested from SIZED, in mode `mode`. */
  function LeftInfo(lim: Limits, e: Expr, li: Info, ri: Info, mode: Mode): Info
    requires e.Left?
  {
    var m1 := if mode == Sized then li.mode else mode;
    var m := LeftMode(e, mode, li.mode, li.signed);
    var width :=
      if Rank(m1) >= Rank(Expand) then
        LeftLossless(lim, e, li.ret, li.mode, li.signed, RightValue(lim, e.lop, ri.ret, ri.signed, e.rc))
      else li.ret;
    Info(width, FixWidth(lim, width, m), if e.lop == Shl then li.min else NoPruning, li.signed, m)
  }

  /** test_width */
  function TestWidth(lim: Limits, e: Expr, mode: Mode): Info
    decreases e
  {
    match e
    case Num(_, len, sized, signed, single) =>
      if !sized && !single && Rank(mode) < Rank(Lossless) then
        if len < lim.integerWidth then
          Info(lim.integerWidth, lim.integerWidth, Fin(len), signed, if mode == Sized then Unsized else mode)
        else Info(len, len, Fin(len), signed, Lossless)
      else Info(len, len, Fin(len), signed, mode)
    case Sig(_, width, signed) =>
      Info(width, width, Fin(width), signed, mode)
    case Bin(op, l, r) =>
      var r1 := TestWidth(lim, r, mode);
      var l1 := TestWidth(lim, l, r1.mode);
      var (ri, li, m1) := Pair(r1, l1, TestWidth(lim, r, l1.mode));
      BinaryInfo(lim, op, li, ri, m1)
    case Left(op, l, r, rc, _) =>
      var ri := TestWidth(lim, r, Sized);
      var li := TestWidth(lim, l, Sized);
      LeftInfo(lim, e, li, ri, mode)
    case Comp(_, _, _) =>
      Info(1, 1, Fin(1), false, mode)
    case Logic(_, _, _) =>
      Info(1, 1, Fin(1), false, mode)
    case Tern(_, t, f) =>
      var t1 := TestWidth(lim, t, mode);
      var f1 := TestWidth(lim, f, t1.mode);
      var (ti, fi, m1) := Pair(t1, f1, TestWidth(lim, t, f1.mode));
      var m := if m1 == Lossless && ti.signed != fi.signed then Upsize else m1;
      var width := Greater(ti.ret, fi.ret);
      Info(width, FixWidth(lim, width, m), GreaterMin(ti.min, fi.min), ti.signed && fi.signed, m)
    case Un(_, e1) =>
      var i := TestWidth(lim, e1, mode);
      Info(i.ret, FixWidth(lim, i.ret, i.mode), i.min, i.signed, i.mode)
    case Red(_, e1) =>
      // the operand is first tested in the mode of the context, which that test may change
      Info(1, 1, Fin(1), false, TestWidth(lim, e1, mode).mode)
  }

  /** PEComp::test_width: the widths at which the two operands of a comparison are evaluated. */
  function CompWidths(lim: Limits, l: Expr, r: Expr): (nat, nat) {
    var r1 := TestWidth(lim, r, Sized);
    var l1 := TestWidth(lim, l, r1.mode);
    var (ri, li, m) := Pair(r1, l1, TestWidth(lim, r, l1.mode));
    var wide := Greater(li.ret, ri.ret);
    var tweak := if Rank(m) >= Rank(Expand) && wide < lim.integerWidth then wide + 1 else wide;
    (tweak, tweak)
  }

  /** The mode at which the operands of a comparison end up. */
  function CompMode(lim: Limits, l: Expr, r: Expr): Mode {
    var r1 := TestWidth(lim, r, Sized);
    var l1 := TestWidth(lim, l, r1.mode);
    Pair(r1, l1, TestWidth(lim, r, l1.mode)).2
  }
}
