/**
 * The nodes of the parser's expression tree. test_width leaves its findings in the fields of every node it
 * visits and changes the mode of its caller; here each method is tied to the function that says what it finds.
 */
module ExprNodes {
  import opened Options
  import opened PowersOfTwo
  import opened ExprWidth
  import opened ExprModes
  import opened ExprEval

  /** What kind of expression a node is, with what the parser stored in it. */
  datatype Kind =
    | Number(len: nat, sized: bool, signed: bool, single: bool)
    | Ident(width: nat, signed: bool)
    | Binary(bop: BinOp)
    | LeftWidth(lop: LeftOp, rc: Option<int>, powLen: nat)
    | Comparison(cop: CompOp)
    | Logical(gop: LogicOp)
    | Ternary
    | Unary(uop: UnaryOp)
    | Reduction(rop: ReduceOp)

  /** The outcomes of the tests of the two operands of a binary operator, and the mode after them. */
  ghost function BinaryOperands(lim: Limits, e: Expr, mode: Mode): (r: (Info, Info, Mode))
    requires e.Bin?
    ensures ExprWidth.TestWidth(lim, e, mode) == BinaryInfo(lim, e.bop, r.0, r.1, r.2)
  {
    var r1 := ExprWidth.TestWidth(lim, e.r, mode);
    var l1 := ExprWidth.TestWidth(lim, e.l, r1.mode);
    var (ri, li, m) := Pair(r1, l1, ExprWidth.TestWidth(lim, e.r, l1.mode));
    (li, ri, m)
  }

  /** The outcomes of the tests of the two operands of a shift or power. */
  ghost function LeftOperands(lim: Limits, e: Expr): (r: (Info, Info))
    requires e.Left?
    ensures forall mode :: ExprWidth.TestWidth(lim, e, mode) == LeftInfo(lim, e, r.0, r.1, mode)
  {
    (ExprWidth.TestWidth(lim, e.l, Sized), ExprWidth.TestWidth(lim, e.r, Sized))
  }

  class PExpr {
    const kind: Kind
    const left: PExpr?
    const right: PExpr?
    const condition: PExpr?
    ghost const tree: Expr
    ghost const repr: set<PExpr>

    var exprWidth: nat
    var minWidth: MinWidth
    var signedFlag: bool
    // the operand widths of a comparison
    var lWidth: nat
    var rWidth: nat

    /** The node is the root of a linked copy of `tree`. It speaks of constants only, so it always holds. */
    ghost predicate Valid()
      decreases tree
    {
      && this in repr
      && match tree
         case Num(_, len, sized, signed, single) => kind == Number(len, sized, signed, single)
         case Sig(_, width, signed) => kind == Ident(width, signed)
         case Bin(op, l, r) => kind == Binary(op) && Operand(left, l) && Operand(right, r) && Apart(left, right)
         case Left(op, l, r, rc, powLen) =>
           kind == LeftWidth(op, rc, powLen) && Operand(left, l) && Operand(right, r) && Apart(left, right)
         case Comp(op, l, r) => kind == Comparison(op) && Operand(left, l) && Operand(right, r) && Apart(left, right)
         case Logic(op, l, r) => kind == Logical(op) && Operand(left, l) && Operand(right, r) && Apart(left, right)
         case Tern(c, t, f) =>
           && kind == Ternary && Operand(condition, c) && Operand(left, t) && Operand(right, f)
           && Apart(left, right) && Apart(condition, left) && Apart(condition, right)
         case Un(op, e) => kind == Unary(op) && Operand(left, e)
         case Red(op, e) => kind == Reduction(op) && Operand(left, e)
    }

    ghost predicate Operand(p: PExpr?, e: Expr)
      requires e < tree
      decreases tree, 0
    {
      p != null && p.tree == e && p.repr < repr && this !in p.repr && p.Valid()
    }

    ghost predicate Apart(p: PExpr?, q: PExpr?) {
      p != null && q != null && p.repr !! q.repr
    }

    /** The children are linked copies of the operands of the tree to be represented, and share nothing. */
    static ghost predicate Children(kind: Kind, left: PExpr?, right: PExpr?, condition: PExpr?, tree: Expr) {
      && (left != null ==> left.Valid()) && (right != null ==> right.Valid())
      && (condition != null ==> condition.Valid())
      && match tree
         case Num(_, len, sized, signed, single) => kind == Number(len, sized, signed, single)
         case Sig(_, width, signed) => kind == Ident(width, signed)
         case Bin(op, l, r) => kind == Binary(op) && Two(left, right, l, r)
         case Left(op, l, r, rc, powLen) => kind == LeftWidth(op, rc, powLen) && Two(left, right, l, r)
         case Comp(op, l, r) => kind == Comparison(op) && Two(left, right, l, r)
         case Logic(op, l, r) => kind == Logical(op) && Two(left, right, l, r)
         case Tern(c, t, f) =>
          kind == Ternary && Two(left, right, t, f) && Two(condition, left, c, t) && Two(condition, right, c, f)
         case Un(op, e) => kind == Unary(op) && left != null && left.tree == e
         case Red(op, e) => kind == Reduction(op) && left != null && left.tree == e
    }

    static ghost predicate Two(p: PExpr?, q: PExpr?, e: Expr, e': Expr) {
      p != null && q != null && p.tree == e && q.tree == e' && p.repr !! q.repr
    }

    constructor (kind: Kind, left: PExpr?, right: PExpr?, condition: PExpr?, ghost tree: Expr)
      requires Children(kind, left, right, condition, tree)
      ensures Valid() && this.tree == tree
    {
      this.kind, this.left, this.right, this.condition := kind, left, right, condition;
      this.tree := tree;
      repr := {this} + (if left == null then {} else left.repr) + (if right == null then {} else right.repr)
              + (if condition == null then {} else condition.repr);
      exprWidth, minWidth, signedFlag, lWidth, rWidth := 0, Fin(0), false, 0, 0;
    }

    /** What a test that returned `ret` and left the mode at `mode` reports, together with the node's fields. */
    ghost function Reported(ret: nat, mode: Mode): Info
      reads this
    {
      Info(ret, exprWidth, minWidth, signedFlag, mode)
    }

    /** The fields of the node are those of test i. */
    ghost predicate Holds(i: Info)
      reads this
    {
      exprWidth == i.width && minWidth == i.min && signedFlag == i.signed
    }

    /** PExpr::test_width, by kind of node. */
    method TestWidth(lim: Limits, mode: Mode) returns (width: nat, mode': Mode)
      requires Valid()
      modifies repr
      ensures Reported(width, mode') == ExprWidth.TestWidth(lim, tree, mode)
      decreases Size(tree), 2
    {
      match kind
      case Number(_, _, _, _) => width, mode' := TestNumber(lim, mode);
      case Ident(_, _) => width, mode' := TestIdent(lim, mode);
      case Binary(_) => width, mode' := TestBinary(lim, mode);
      case LeftWidth(_, _, _) => width, mode' := TestLeftWidth(lim, mode);
      case Comparison(_) => width, mode' := TestComparison(lim, mode);
      case Logical(_) => width, mode' := TestLogical(lim, mode);
      case Ternary => width, mode' := TestTernary(lim, mode);
      case Unary(_) => width, mode' := TestUnary(lim, mode);
      case Reduction(_) => width, mode' := TestReduction(lim, mode);
    }

    /** PExpr::fix_width_ */
    method FixWidth(lim: Limits, mode: Mode) returns (width: nat)
      modifies this`exprWidth
      ensures width == old(exprWidth) && exprWidth == ExprWidth.FixWidth(lim, width, mode)
    {
      width := exprWidth;
      if mode == Upsize && width < lim.integerWidth {
        exprWidth := lim.integerWidth;
      }
    }

    /** PENumber::test_width */
    method TestNumber(lim: Limits, mode: Mode) returns (width: nat, mode': Mode)
      requires Valid() && kind.Number?
      modifies repr
      ensures Reported(width, mode') == ExprWidth.TestWidth(lim, tree, mode)
      ensures minWidth == Fin(kind.len) && signedFlag == kind.signed && width == exprWidth
      ensures kind.sized || kind.single || Rank(mode) >= Rank(Lossless) ==> width == kind.len && mode' == mode
      ensures !kind.sized && !kind.single && kind.len >= lim.integerWidth ==>
                width == kind.len && Rank(mode') >= Rank(Lossless)
      ensures !kind.sized && !kind.single && kind.len < lim.integerWidth && Rank(mode) < Rank(Lossless) ==>
                width == lim.integerWidth && mode' == if mode == Expand then Expand else Unsized
    {
      mode' := mode;
      exprWidth := kind.len;
      minWidth := Fin(exprWidth);
      signedFlag := kind.signed;
      if !kind.sized && !kind.single && Rank(mode) < Rank(Lossless) {
        if exprWidth < lim.integerWidth {
          exprWidth := lim.integerWidth;
          if Rank(mode) < Rank(Unsized) {
            mode' := Unsized;
          }
        } else {
          mode' := Lossless;
        }
      }
      width := exprWidth;
    }

    /** PEIdent::test_width, for a vector net */
    method TestIdent(lim: Limits, mode: Mode) returns (width: nat, mode': Mode)
      requires Valid() && kind.Ident?
      modifies repr
      ensures Reported(width, mode') == ExprWidth.TestWidth(lim, tree, mode)
    {
      exprWidth, minWidth, signedFlag := kind.width, Fin(kind.width), kind.signed;
      width, mode' := exprWidth, mode;
    }

    /** Test operand p, then q, then p again if q made the context lossless. */
    static method TestBoth(lim: Limits, p: PExpr, q: PExpr, mode: Mode) returns (pw: nat, qw: nat, mode': Mode)
      requires p.Valid() && q.Valid() && p.repr !! q.repr
      modifies p.repr, q.repr
      ensures var p1 := ExprWidth.TestWidth(lim, p.tree, mode);
              var q1 := ExprWidth.TestWidth(lim, q.tree, p1.mode);
              var (pi, qi, m) := Pair(p1, q1, ExprWidth.TestWidth(lim, p.tree, q1.mode));
              p.Holds(pi) && q.Holds(qi) && pw == pi.ret && qw == qi.ret && mode' == m
      decreases Size(p.tree) + Size(q.tree), 0
    {
      mode' := mode;
      pw, mode' := p.TestWidth(lim, mode');
      var savedMode := mode';
      qw, mode' := q.TestWidth(lim, mode');
      if Rank(mode') >= Rank(Lossless) && Rank(savedMode) < Rank(Lossless) {
        pw, mode' := p.TestWidth(lim, mode');
      }
    }

    /** PEBinary::test_width */
    method TestBinary(lim: Limits, mode: Mode) returns (width: nat, mode': Mode)
      requires Valid() && kind.Binary?
      modifies repr
      ensures Reported(width, mode') == ExprWidth.TestWidth(lim, tree, mode)
      decreases Size(tree), 1
    {
      var rw, lw, both := TestBoth(lim, right, left, mode);
      ghost var (li, ri, _) := BinaryOperands(lim, tree, mode);
      width, mode' := CombineBinary(lim, kind.bop, lw, rw, both, li, ri);
    }

    /** The part of PEBinary::test_width after the tests of the operands */
    method CombineBinary(lim: Limits, op: BinOp, lw: nat, rw: nat, mode: Mode, ghost li: Info, ghost ri: Info)
      returns (width: nat, mode': Mode)
      requires left != null && right != null && this != left && this != right
      requires left.Holds(li) && right.Holds(ri) && lw == li.ret && rw == ri.ret
      modifies this
      ensures Reported(width, mode') == BinaryInfo(lim, op, li, ri, mode)
    {
      mode' := mode;
      exprWidth := Greater(lw, rw);
      minWidth := GreaterMin(left.minWidth, right.minWidth);
      signedFlag := left.signedFlag && right.signedFlag;
      if mode' == Lossless && left.signedFlag != right.signedFlag {
        mode' := Upsize;
      }
      match op {
        case Add =>
          if Rank(mode') >= Rank(Expand) { exprWidth := exprWidth + 1; }
        case Sub =>
          if Rank(mode') >= Rank(Expand) { exprWidth := exprWidth + 1; }
        case Mul =>
          if Rank(mode') >= Rank(Expand) { exprWidth := lw + rw; }
        case Div =>
          minWidth := NoPruning;
        case Mod =>
          minWidth := NoPruning;
        case _ =>
      }
      width := FixWidth(lim, mode');
    }

    /** The best guess at the right operand of a shift or power, clipped to a sensible range */
    static method GuessRight(lim: Limits, op: LeftOp, rw: nat, rSigned: bool, rc: Option<int>) returns (rv: nat)
      ensures rv == RightValue(lim, op, rw, rSigned, rc)
      ensures rc.None? && lim.widthCap < UINT_RANGE ==> LargestRight(lim, op, rw, rSigned, rv)
    {
      if lim.widthCap < UINT_RANGE {
        GuessIsLargest(lim, op, rw, rSigned, rc);
      }
      var v: int := LONG_MAX;
      if rw < 64 {
        v := Pow2(rw) - 1;
        if op == Pow && rSigned {
          v := v / 2;
        }
      }
      var constWidth := 64;
      if !rSigned {
        constWidth := constWidth - 1;
      }
      if rc.Some? && rw <= constWidth {
        v := rc.value;
      }
      if v < 0 {
        v := 0;
      }
      if v > lim.widthCap {
        v := lim.widthCap;
      }
      rv := v;
    }

    /** PEBLeftWidth::test_width */
    method TestLeftWidth(lim: Limits, mode: Mode) returns (width: nat, mode': Mode)
      requires Valid() && kind.LeftWidth?
      modifies repr
      ensures Reported(width, mode') == ExprWidth.TestWidth(lim, tree, mode)
      ensures right != null && right.Holds(ExprWidth.TestWidth(lim, right.tree, Sized))
      decreases Size(tree), 1
    {
      var rw, rMode := right.TestWidth(lim, Sized);
      var lw, lMode := left.TestWidth(lim, Sized);
      ghost var (li, ri) := LeftOperands(lim, tree);
      width, mode' := CombineLeftWidth(lim, lw, rw, lMode, mode, li, ri);
    }

    /** The part of PEBLeftWidth::test_width after the tests of the operands */
    method CombineLeftWidth(lim: Limits, lw: nat, rw: nat, lMode: Mode, mode: Mode, ghost li: Info, ghost ri: Info)
      returns (width: nat, mode': Mode)
      requires left != null && right != null && this != left && this != right && kind.LeftWidth? && tree.Left?
      requires tree.lop == kind.lop && tree.rc == kind.rc && tree.powLen == kind.powLen
      requires tree.l.Num? <==> left.kind.Number?
      requires left.Holds(li) && right.Holds(ri) && lw == li.ret && rw == ri.ret && lMode == li.mode
      modifies this
      ensures Reported(width, mode') == LeftInfo(lim, tree, li, ri, mode)
    {
      exprWidth, signedFlag := lw, left.signedFlag;
      mode' := mode;
      if mode' == Sized {
        mode' := lMode;
      }
      if Rank(mode') >= Rank(Expand) {
        var rv := GuessRight(lim, kind.lop, rw, right.signedFlag, kind.rc);
        exprWidth, mode' := LosslessWidth(lim, lw, lMode, mode', rv);
      }
      if kind.lop == Shl {
        minWidth := left.minWidth;
      } else {
        minWidth := NoPruning;
      }
      width := FixWidth(lim, mode');
    }

    /** The width for every power of a value with that many bits */
    static method PowerWidth(width: nat, rv: nat, signed: bool) returns (useWidth: nat)
      ensures useWidth == Unsigned(PowerBits(width, rv, signed))
    {
      useWidth := width;
      if signed {
        useWidth := Unsigned(useWidth - 1);
        UnsignedProduct(width - 1, rv);
      }
      useWidth := Unsigned(useWidth * rv);
      if signed {
        useWidth := Unsigned(useWidth + 2);
        UnsignedSum((width - 1) * rv, 2);
      }
    }

    static lemma UnsignedProduct(a: int, b: int)
      ensures Unsigned(Unsigned(a) * b) == Unsigned(a * b)
    {
      Pow2Of32();
      LowMulOne(a, b, 32);
    }

    static lemma UnsignedSum(a: int, b: int)
      ensures Unsigned(Unsigned(a) + b) == Unsigned(a + b)
    {
    }

    /** The width for a power, which is known when both operands are literals */
    method FoldedOrPowerWidth(width: nat, rv: nat) returns (useWidth: nat)
      requires left != null && kind.LeftWidth?
      ensures useWidth == if left.kind.Number? && kind.rc.Some? then Greater(width, kind.powLen)
                          else Unsigned(PowerBits(width, rv, signedFlag))
    {
      if left.kind.Number? && kind.rc.Some? {
        useWidth := Greater(width, kind.powLen);
      } else {
        useWidth := PowerWidth(width, rv, signedFlag);
      }
    }

    /** The switch over the operators, from the guess at the right operand */
    method NeededWidth(lw: nat, lMode: Mode, mode: Mode, rv: nat) returns (useWidth: nat, mode': Mode)
      requires left != null && kind.LeftWidth? && tree.Left?
      requires tree.lop == kind.lop && tree.rc == kind.rc && tree.powLen == kind.powLen
      requires tree.l.Num? <==> left.kind.Number?
      ensures useWidth == LeftBits(tree, lw, lMode, signedFlag, rv)
      ensures mode' == if mode == Lossless && (kind.lop == Shr || kind.lop == Ashr) && signedFlag then Upsize else mode
    {
      useWidth, mode' := lw, mode;
      match kind.lop {
        case Shl =>
          if lMode != Sized { useWidth := Unsigned(useWidth + rv); }
        case Shr | Ashr =>
          if mode' == Lossless && signedFlag { mode' := Upsize; }
        case Pow =>
          useWidth := FoldedOrPowerWidth(useWidth, rv);
      }
    }

    /** The lossless width of a shift or power */
    method LosslessWidth(lim: Limits, lw: nat, lMode: Mode, mode: Mode, rv: nat) returns (useWidth: nat, mode': Mode)
      requires left != null && kind.LeftWidth? && tree.Left?
      requires tree.lop == kind.lop && tree.rc == kind.rc && tree.powLen == kind.powLen
      requires tree.l.Num? <==> left.kind.Number?
      ensures useWidth == LeftLossless(lim, tree, lw, lMode, signedFlag, rv)
      ensures mode' == if mode == Lossless && (kind.lop == Shr || kind.lop == Ashr) && signedFlag then Upsize else mode
    {
      useWidth, mode' := NeededWidth(lw, lMode, mode, rv);
      if kind.rc.None? && useWidth > lw && useWidth > lim.integerWidth {
        useWidth := lim.integerWidth;
      }
    }

    /** PEBComp::test_width */
    method TestComparison(lim: Limits, mode: Mode) returns (width: nat, mode': Mode)
      requires Valid() && kind.Comparison?
      modifies repr
      ensures Reported(width, mode') == ExprWidth.TestWidth(lim, tree, mode)
      ensures left != null && right != null && (lWidth, rWidth) == CompWidths(lim, left.tree, right.tree)
      decreases Size(tree), 1
    {
      exprWidth, minWidth, signedFlag := 1, Fin(1), false;
      var rw, lw, own := TestBoth(lim, right, left, Sized);
      SetOperandWidths(lim, lw, rw, own);
      width, mode' := exprWidth, mode;
    }

    /** The part of PEBComp::test_width that sizes the operands */
    method SetOperandWidths(lim: Limits, lw: nat, rw: nat, mode: Mode)
      modifies this`lWidth, this`rWidth
      ensures var wide := Greater(lw, rw);
              lWidth == rWidth == if Rank(mode) >= Rank(Expand) && wide < lim.integerWidth then wide + 1 else wide
    {
      lWidth := lw;
      if rw > lw {
        lWidth := rw;
      }
      rWidth := rw;
      if lw > rw {
        rWidth := lw;
      }
      if Rank(mode) >= Rank(Expand) {
        if lWidth < lim.integerWidth {
          lWidth := lWidth + 1;
        }
        if rWidth < lim.integerWidth {
          rWidth := rWidth + 1;
        }
      }
    }

    /** PEBLogic::test_width: its operands are tested when they are elaborated. */
    method TestLogical(lim: Limits, mode: Mode) returns (width: nat, mode': Mode)
      requires Valid() && kind.Logical?
      modifies repr
      ensures Reported(width, mode') == ExprWidth.TestWidth(lim, tree, mode)
    {
      exprWidth, minWidth, signedFlag := 1, Fin(1), false;
      width, mode' := exprWidth, mode;
    }

    /** PETernary::test_width */
    method TestTernary(lim: Limits, mode: Mode) returns (width: nat, mode': Mode)
      requires Valid() && kind.Ternary?
      modifies repr
      ensures Reported(width, mode') == ExprWidth.TestWidth(lim, tree, mode)
      decreases Size(tree), 1
    {
      var tw, fw;
      tw, fw, mode' := TestBoth(lim, left, right, mode);
      exprWidth := Greater(tw, fw);
      minWidth := GreaterMin(left.minWidth, right.minWidth);
      signedFlag := left.signedFlag && right.signedFlag;
      if mode' == Lossless && left.signedFlag != right.signedFlag {
        mode' := Upsize;
      }
      width := FixWidth(lim, mode');
    }

    /** PEUnary::test_width, for the operators whose operand is context-determined */
    method TestUnary(lim: Limits, mode: Mode) returns (width: nat, mode': Mode)
      requires Valid() && kind.Unary?
      modifies repr
      ensures Reported(width, mode') == ExprWidth.TestWidth(lim, tree, mode)
      decreases Size(tree), 1
    {
      exprWidth, mode' := left.TestWidth(lim, mode);
      minWidth := left.minWidth;
      signedFlag := left.signedFlag;
      width := FixWidth(lim, mode');
    }

    /** PEUnary::test_width, for reductions: the operand is tested twice and keeps the fields of its own test. */
    method TestReduction(lim: Limits, mode: Mode) returns (width: nat, mode': Mode)
      requires Valid() && kind.Reduction?
      modifies repr
      ensures Reported(width, mode') == ExprWidth.TestWidth(lim, tree, mode)
      ensures left != null && left.exprWidth == OwnWidth(lim, left.tree)
      decreases Size(tree), 1
    {
      exprWidth, mode' := left.TestWidth(lim, mode);
      var subWidth, subMode := left.TestWidth(lim, Sized);
      exprWidth, minWidth, signedFlag := 1, Fin(1), false;
      width := exprWidth;
    }
  }
}
