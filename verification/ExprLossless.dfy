/** Lossless widths: where the inferred width holds the exact integer value of an expression. */
module ExprLossless {
  import opened Options
  import opened PowersOfTwo
  import opened ExprWidth
  import opened ExprModes
  import opened ExprEval
  import opened ExprPruning

  /** Sums, differences, products and selections of operands that are all signed or all unsigned. */
  predicate Arithmetic(e: Expr, sg: bool) {
    match e
    case Num(_, len, _, signed, single) => signed == sg && len > 0 && !single
    case Sig(_, width, signed) => signed == sg && width > 0
    case Bin(op, l, r) => (op == Add || op == Sub || op == Mul) && Arithmetic(l, sg) && Arithmetic(r, sg)
    case Tern(_, t, f) => Arithmetic(t, sg) && Arithmetic(f, sg)
    case Un(op, e1) => op == Plus && Arithmetic(e1, sg)
    case _ => false
  }

  /** The value of such an expression over the integers; None when a condition in it is undefined. */
  function Exact(lim: Limits, e: Expr, sg: bool, env: Env): Option<int>
    requires Arithmetic(e, sg)
  {
    match e
    case Num(_, _, _, _, _) => Some(LeafValue(e, sg, env))
    case Sig(_, _, _) => Some(LeafValue(e, sg, env))
    case Bin(op, l, r) =>
      var a, b := Exact(lim, l, sg, env), Exact(lim, r, sg, env);
      if a.None? || b.None? then None
      else Some(if op == Add then a.value + b.value else if op == Sub then a.value - b.value else a.value * b.value)
    case Tern(c, t, f) =>
      var cond := Eval(lim, c, CappedWidth(lim, c), SignOf(c), env);
      if cond.None? then None
      else if cond.value != 0 then Exact(lim, t, sg, env)
      else Exact(lim, f, sg, env)
    case Un(_, e1) => Exact(lim, e1, sg, env)
  }

  // ------------------------------------------------- evaluation is modular

  /** At any width that cuts no signal, evaluation gives the low bits of the exact value. */
  lemma {:induction false} EvalIsModular(lim: Limits, e: Expr, w: nat, sg: bool, env: Env)
    requires Arithmetic(e, sg) && WidestSignal(e) <= w
    ensures var x := Exact(lim, e, sg, env);
            Eval(lim, e, w, sg, env) == if x.None? then None else Some(Low(x.value, w))
  {
    match e
    case Bin(op, l, r) =>
      EvalIsModular(lim, l, w, sg, env);
      EvalIsModular(lim, r, w, sg, env);
      var a, b := Exact(lim, l, sg, env), Exact(lim, r, sg, env);
      if a.Some? && b.Some? {
        LowAdd(a.value, b.value, w);
        LowSub(a.value, b.value, w);
        LowMul(a.value, b.value, w);
      }
    case Tern(_, t, f) =>
      EvalIsModular(lim, t, w, sg, env);
      EvalIsModular(lim, f, w, sg, env);
    case Un(_, e1) =>
      EvalIsModular(lim, e1, w, sg, env);
    case _ =>
  }

  // ------------------------------------------------------- values stay in range

  /** The range of the exact value at a lossless width; an unsigned expression can be negative by a difference. */
  predicate Within(x: int, w: nat, sg: bool) {
    if sg then InRange(x, w, true) else -Pow2(w) < x < Pow2(w)
  }

  lemma WithinWidens(x: int, w: nat, w': nat, sg: bool)
    requires Within(x, w, sg) && w <= w'
    ensures Within(x, w', sg)
  {
    if sg {
      RangeWidens(x, w, w', sg);
    } else {
      Pow2Monotone(w, w');
    }
  }

  lemma SumFits(a: int, b: int, w: nat, w': nat, sg: bool)
    requires Within(a, w, sg) && Within(b, w', sg)
    ensures Within(a + b, Greater(w, w') + 1, sg)
    ensures Within(a - b, Greater(w, w') + 1, sg)
  {
    var m := Greater(w, w');
    WithinWidens(a, w, m, sg);
    WithinWidens(b, w', m, sg);
    if sg {
      assert Pow2(m) == 2 * Pow2(m - 1);
    }
  }

  /** Bounds on two factors bound their product. */
  lemma ProductBound(a: int, b: int, m: int, n: int)
    requires -m <= a <= m && -n <= b <= n
    ensures -(m * n) <= a * b <= m * n
  {
  }

  lemma MonotoneProduct(p: nat, q: nat, m: int, n: int)
    requires p <= m && q <= n
    ensures 0 <= p * q <= m * n
  {
  }

  lemma ProductFits(a: int, b: int, w: nat, w': nat, sg: bool)
    requires Within(a, w, sg) && Within(b, w', sg)
    ensures Within(a * b, w + w', sg)
  {
    Pow2Add(w, w');
    if sg {
      var m, n := Pow2(w - 1), Pow2(w' - 1);
      ProductBound(a, b, m, n);
      Pow2Add(w - 1, w' - 1);
      assert w + w' - 1 == (w - 1 + w' - 1) + 1;
      assert Pow2(w + w' - 1) == 2 * (m * n);
    } else {
      var m, n := Pow2(w), Pow2(w');
      ProductBound(a, b, m - 1, n - 1);
      Distribute(m, -1, n - 1);
      Distribute(n, -1, m);
    }
  }

  lemma LeafFits(e: Expr, sg: bool, env: Env)
    requires Arithmetic(e, sg) && (e.Num? || e.Sig?)
    ensures InRange(LeafValue(e, sg, env), if e.Num? then e.len else e.width, sg)
  {
  }

  /** In a lossless mode the width bounds the exact value. */
  lemma {:induction false} ExactFits(lim: Limits, e: Expr, mode: Mode, sg: bool, env: Env)
    requires Arithmetic(e, sg) && Rank(mode) >= Rank(Expand) && Exact(lim, e, sg, env).Some?
    ensures Within(Exact(lim, e, sg, env).value, WidthIn(lim, e, mode), sg)
  {
    match e
    case Num(_, len, _, _, _) =>
      LeafFits(e, sg, env);
      WithinWidens(LeafValue(e, sg, env), len, WidthIn(lim, e, mode), sg);
    case Sig(_, _, _) =>
      LeafFits(e, sg, env);
    case Bin(op, l, r) =>
      ExactFits(lim, l, mode, sg, env);
      ExactFits(lim, r, mode, sg, env);
      var a, b := Exact(lim, l, sg, env).value, Exact(lim, r, sg, env).value;
      if op == Mul {
        ProductFits(a, b, WidthIn(lim, l, mode), WidthIn(lim, r, mode), sg);
      } else {
        SumFits(a, b, WidthIn(lim, l, mode), WidthIn(lim, r, mode), sg);
      }
    case Tern(c, t, f) =>
      var cond := Eval(lim, c, CappedWidth(lim, c), SignOf(c), env);
      var branch := if cond.value != 0 then t else f;
      ExactFits(lim, branch, mode, sg, env);
      WithinWidens(Exact(lim, branch, sg, env).value, WidthIn(lim, branch, mode), WidthIn(lim, e, mode), sg);
    case Un(_, e1) =>
      ExactFits(lim, e1, mode, sg, env);
  }

  lemma {:induction false} ArithmeticNarrowsNothing(lim: Limits, e: Expr, sg: bool)
    requires Arithmetic(e, sg)
    ensures !NarrowsInside(lim, e) && SignOf(e) == sg && !HasMixed(e) && ShiftFree(e)
  {
    match e
    case Bin(_, l, r) =>
      ArithmeticNarrowsNothing(lim, l, sg);
      ArithmeticNarrowsNothing(lim, r, sg);
    case Tern(_, t, f) =>
      ArithmeticNarrowsNothing(lim, t, sg);
      ArithmeticNarrowsNothing(lim, f, sg);
    case Un(_, e1) =>
      ArithmeticNarrowsNothing(lim, e1, sg);
    case _ =>
  }

  /** What a value in range is read as: a negative one in an unsigned context comes out too large by 2^w. */
  function ReadAs(x: int, w: nat, sg: bool): int {
    if !sg && x < 0 then x + Pow2(w) else x
  }

  lemma ReadLow(x: int, w: nat, sg: bool)
    requires Within(x, w, sg)
    ensures Interpret(Low(x, w), w, sg) == ReadAs(x, w, sg)
  {
    if !sg && x < 0 {
      LowOfSum(x, 1, w);
      LowSmall(x + Pow2(w), w);
    } else {
      InterpretLow(x, w, sg);
    }
  }

  /**
   * Inference that starts in EXPAND mode, or that ends in LOSSLESS, is lossless: evaluated at the width it
   * returns, or at any larger one, the expression has its exact integer value, if and only if that is a value that
   * its signedness allows for. Differences inside it may well be negative.
   */
  lemma InferredWidthIsLossless(lim: Limits, e: Expr, mode: Mode, sg: bool, env: Env, w: nat)
    requires Arithmetic(e, sg)
    requires Rank(TestWidth(lim, e, mode).mode) >= Rank(Expand) && TestWidth(lim, e, mode).ret <= w
    ensures var x, v := Exact(lim, e, sg, env), Eval(lim, e, w, sg, env);
            && v.Some? == x.Some?
            && (x.Some? ==> (Interpret(v.value, w, sg) == x.value <==> sg || x.value >= 0))
            && (x.Some? && !sg && x.value < 0 ==> v.value == x.value + Pow2(w))
  {
    TwoPass(lim, e, mode);
    ReadValue(lim, e, TestWidth(lim, e, mode).mode, sg, w, env);
  }

  lemma ReadValue(lim: Limits, e: Expr, mode: Mode, sg: bool, w: nat, env: Env)
    requires Arithmetic(e, sg) && Rank(mode) >= Rank(Expand) && WidthIn(lim, e, mode) <= w
    ensures var x, v := Exact(lim, e, sg, env), Eval(lim, e, w, sg, env);
            v.Some? == x.Some? && (x.Some? ==> Interpret(v.value, w, sg) == ReadAs(x.value, w, sg))
  {
    ArithmeticNarrowsNothing(lim, e, sg);
    WidthCovers(lim, e, mode);
    EvalIsModular(lim, e, w, sg, env);
    var x := Exact(lim, e, sg, env);
    if x.Some? {
      ExactFits(lim, e, mode, sg, env);
      WithinWidens(x.value, WidthIn(lim, e, mode), w, sg);
      ReadLow(x.value, w, sg);
    }
  }

  // ------------------------------------------------------------ comparison

  /** An unsized literal of integer width keeps the inferred width at integer width or more. */
  lemma {:induction false} BigKeepsWidth(lim: Limits, e: Expr, sg: bool, mode: Mode)
    requires Arithmetic(e, sg) && HasBig(lim, e)
    ensures WidthIn(lim, e, mode) >= lim.integerWidth
  {
    match e
    case Bin(_, l, r) =>
      if HasBig(lim, l) { BigKeepsWidth(lim, l, sg, mode); } else { BigKeepsWidth(lim, r, sg, mode); }
    case Tern(_, t, f) =>
      if HasBig(lim, t) { BigKeepsWidth(lim, t, sg, mode); } else { BigKeepsWidth(lim, f, sg, mode); }
    case Un(_, e1) =>
      BigKeepsWidth(lim, e1, sg, mode);
    case _ =>
  }

  /** In a lossless mode both operands of a comparison get the larger of their widths, plus one below integer width. */
  lemma ComparedInMode(lim: Limits, l: Expr, r: Expr)
    requires Rank(CompMode(lim, l, r)) >= Rank(Lossless)
    ensures var wide := Greater(WidthIn(lim, l, Lossless), WidthIn(lim, r, Lossless));
            CompWidths(lim, l, r).0 == CompWidths(lim, l, r).1 == if wide < lim.integerWidth then wide + 1 else wide
  {
    PairTwoPass(lim, r, l, Sized);
    WidthInSame(lim, l, CompMode(lim, l, r), Lossless);
    WidthInSame(lim, r, CompMode(lim, l, r), Lossless);
  }

  /** A comparison without shifts is inferred lossless only because of an unsized literal of integer width. */
  lemma ComparedHasBig(lim: Limits, l: Expr, r: Expr)
    requires ShiftFree(l) && ShiftFree(r) && Rank(CompMode(lim, l, r)) >= Rank(Lossless)
    ensures HasBig(lim, l) || HasBig(lim, r)
  {
    PairIsDescribed(lim, r, l, Sized);
    assert CompMode(lim, l, r) == PairMode(lim, r, l, Sized);
  }

  /** The operand widths of a comparison that is inferred lossless. */
  lemma ComparedWidths(lim: Limits, l: Expr, r: Expr, sg: bool)
    requires Arithmetic(l, sg) && Arithmetic(r, sg) && Rank(CompMode(lim, l, r)) >= Rank(Lossless)
    ensures var wide := Greater(WidthIn(lim, l, Lossless), WidthIn(lim, r, Lossless));
            wide >= lim.integerWidth && CompWidths(lim, l, r) == (wide, wide)
  {
    ArithmeticNarrowsNothing(lim, l, sg);
    ArithmeticNarrowsNothing(lim, r, sg);
    ComparedInMode(lim, l, r);
    ComparedHasBig(lim, l, r);
    if HasBig(lim, l) {
      BigKeepsWidth(lim, l, sg, Lossless);
    } else {
      BigKeepsWidth(lim, r, sg, Lossless);
    }
  }

  /**
   * Whether the answer is right although just one of x and y is negative and comes out too large by m: that depends
   * on how far apart they are.
   */
  predicate FarEnough(op: CompOp, x: int, y: int, m: int) {
    var d := if x < y then y - x else x - y;
    match op
    case Eq => d != m
    case Ne => d != m
    case Lt => if x < y then d > m else d >= m
    case Ge => if x < y then d > m else d >= m
    case Le => if x < y then d >= m else d > m
    case Gt => if x < y then d >= m else d > m
  }

  /**
   * A comparison of two such operands of one signedness that is inferred lossless compares their exact values if and
   * only if they are signed, or of equal sign, or far enough apart; and the extra bit that the source adds below
   * integer width is never called for.
   */
  lemma ComparisonIsExact(lim: Limits, op: CompOp, l: Expr, r: Expr, sg: bool, w: nat, env: Env)
    requires Arithmetic(l, sg) && Arithmetic(r, sg) && Rank(CompMode(lim, l, r)) >= Rank(Lossless)
    requires Exact(lim, l, sg, env).Some? && Exact(lim, r, sg, env).Some?
    ensures CompWidths(lim, l, r).0 == CompWidths(lim, l, r).1 >= lim.integerWidth
    ensures var x, y := Exact(lim, l, sg, env).value, Exact(lim, r, sg, env).value;
            Eval(lim, Comp(op, l, r), w, false, env) == Some(Flag(Compare(op, x, y), w)) <==>
            w == 0 || sg || (x < 0) == (y < 0) || FarEnough(op, x, y, Pow2(CompWidths(lim, l, r).0))
  {
    ArithmeticNarrowsNothing(lim, l, sg);
    ArithmeticNarrowsNothing(lim, r, sg);
    ComparedWidths(lim, l, r, sg);
    var cw := CompWidths(lim, l, r).0;
    ReadValue(lim, l, Lossless, sg, cw, env);
    ReadValue(lim, r, Lossless, sg, cw, env);
    CompareEval(lim, op, l, r, sg, w, env);
    var x, y := Exact(lim, l, sg, env).value, Exact(lim, r, sg, env).value;
    ComparedAs(op, x, y, cw, sg);
    FlagTells(Compare(op, x, y), Compare(op, ReadAs(x, cw, sg), ReadAs(y, cw, sg)), w);
  }

  lemma ComparedAs(op: CompOp, x: int, y: int, w: nat, sg: bool)
    ensures Compare(op, x, y) == Compare(op, ReadAs(x, w, sg), ReadAs(y, w, sg)) <==>
            sg || (x < 0) == (y < 0) || FarEnough(op, x, y, Pow2(w))
  {
  }

  lemma FlagTells(a: bool, b: bool, w: nat)
    ensures Flag(a, w) == Flag(b, w) <==> w == 0 || a == b
  {
    if w > 0 {
      Pow2Monotone(1, w);
      LowSmall(0, w);
      LowSmall(1, w);
    }
  }

  lemma CompareEval(lim: Limits, op: CompOp, l: Expr, r: Expr, sg: bool, w: nat, env: Env)
    requires SignOf(l) == sg && SignOf(r) == sg
    ensures var (lw, rw) := CompWidths(lim, l, r);
            var a, b := Eval(lim, l, lw, sg, env), Eval(lim, r, rw, sg, env);
            a.Some? && b.Some? ==>
              Eval(lim, Comp(op, l, r), w, false, env) ==
              Some(Flag(Compare(op, Interpret(a.value, lw, sg), Interpret(b.value, rw, sg)), w))
  {
  }

  /**
   * No fixed number of extra bits would do for operands of different sign: an unsigned difference that is negative
   * is compared as a large number, so 0 - 1 equals the unsized literal of all ones, however wide.
   */
  lemma UnsignedDifferenceIsNotExact(lim: Limits, n: nat, w: nat)
    requires n >= lim.integerWidth && n >= 5 && w > 0
    ensures var l := Bin(Sub, Sig(0, 4, false), Sig(1, 4, false));
            var ones := Num(Pow2(n) - 1, n, false, false, false);
            && Rank(CompMode(lim, l, ones)) >= Rank(Lossless)
            && Eval(lim, Comp(Eq, l, ones), w, false, k => if k == 1 then 1 else 0) == Some(1)
  {
    var l := Bin(Sub, Sig(0, 4, false), Sig(1, 4, false));
    var ones := Num(Pow2(n) - 1, n, false, false, false);
    var env: Env := k => if k == 1 then 1 else 0;
    assert TestWidth(lim, ones, Sized) == Info(n, n, Fin(n), false, Lossless);
    DifferenceWidth(lim);
    assert CompWidths(lim, l, ones) == (n, n);
    DifferenceValue(lim, n, env);
    LowSmall(Pow2(n) - 1, n);
    CompareEval(lim, Eq, l, ones, false, w, env);
    Pow2Monotone(1, w);
    LowSmall(1, w);
  }

  lemma DifferenceWidth(lim: Limits)
    ensures TestWidth(lim, Bin(Sub, Sig(0, 4, false), Sig(1, 4, false)), Lossless)
              == Info(5, 5, Fin(4), false, Lossless)
  {
  }

  lemma DifferenceValue(lim: Limits, n: nat, env: Env)
    requires n >= 5 && env(0) == 0 && env(1) == 1
    ensures Eval(lim, Bin(Sub, Sig(0, 4, false), Sig(1, 4, false)), n, false, env) == Some(Pow2(n) - 1)
  {
    Pow2Monotone(1, 4);
    LowSmall(0, 4);
    LowSmall(1, 4);
    LowSmall(0, n);
    Pow2Monotone(1, n);
    LowSmall(1, n);
    LowOfSum(-1, 1, n);
    LowSmall(Pow2(n) - 1, n);
    assert Eval(lim, Sig(0, 4, false), n, false, env) == Some(0);
    assert Eval(lim, Sig(1, 4, false), n, false, env) == Some(1);
  }

  // ------------------------------------------------------ powers and shifts

  lemma {:induction false} PowerBound(v: int, w: nat, r: nat)
    requires -Pow2(w) <= v <= Pow2(w)
    ensures -Pow2(w * r) <= Power(v, r) <= Pow2(w * r)
  {
    if r == 0 {
    } else {
      PowerBound(v, w, r - 1);
      ProductBound(v, Power(v, r - 1), Pow2(w), Pow2(w * (r - 1)));
      Distribute(r - 1, 1, w);
      Pow2Add(w, w * (r - 1));
    }
  }

  lemma {:induction false} PowerNonNegative(v: nat, r: nat)
    ensures Power(v, r) >= 0
  {
    if r == 0 {
    } else {
      PowerNonNegative(v, r - 1);
      assert v * Power(v, r - 1) >= 0;
    }
  }

  lemma UnsignedPowerFits(v: int, w: nat, r: nat)
    requires 0 <= v < Pow2(w) && r >= 1
    ensures 0 <= Power(v, r) < Pow2(w * r)
  {
    PowerBound(v, w, r - 1);
    PowerNonNegative(v, r - 1);
    var p, q := Pow2(w), Pow2(w * (r - 1));
    MonotoneProduct(v, Power(v, r - 1), p - 1, q);
    Distribute(p, -1, q);
    TimesPrevious(w, r);
    Pow2Add(w, w * (r - 1));
  }

  /** Every power of a w-bit value fits the width formula when the exponent is not zero. */
  lemma PowerFits(v: int, w: nat, k: nat, sg: bool)
    requires InRange(v, w, sg) && k >= 1
    ensures PowerBits(w, k, sg) >= 0 && InRange(Power(v, k), PowerBits(w, k, sg), sg)
  {
    if sg {
      PowerBound(v, w - 1, k);
      var n := (w - 1) * k;
      MonotoneProduct(0, 0, w - 1, k);
      assert Pow2(n + 1) == 2 * Pow2(n);
      assert InRange(Power(v, k), n + 2, true);
    } else {
      MonotoneProduct(0, 0, w, k);
      UnsignedPowerFits(v, w, k);
    }
  }

  lemma {:induction false} PowerOfPow2(a: nat, k: nat)
    ensures a * k >= 0 && Power(Pow2(a), k) == Pow2(a * k)
  {
    MonotoneProduct(0, 0, a, k);
    if k == 0 {
    } else {
      PowerOfPow2(a, k - 1);
      TimesPrevious(a, k);
      Pow2Add(a, a * (k - 1));
    }
  }

  /** n bits hold the power k of every w-bit value. */
  ghost predicate PowersFit(w: nat, k: nat, n: nat, sg: bool) {
    forall v :: InRange(v, w, sg) ==> InRange(Power(v, k), n, sg)
  }

  /** Too few bits by more than the exponent do not hold every power. */
  lemma PowerTooWide(w: nat, k: nat, n: nat, sg: bool)
    requires n + k < PowerBits(w, k, sg) && w >= (if sg then 2 else 1)
    ensures !PowersFit(w, k, n, sg)
  {
    var a := if sg then w - 2 else w - 1;
    PowerOfPow2(a, k);
    assert a * k >= (if sg then n - 1 else n) by {
      Distribute(a, 1, k);
    }
    if sg {
      Pow2Monotone(a, w - 1);
      assert Pow2(w - 1) == 2 * Pow2(a);
      assert InRange(Pow2(a), w, sg);
      if n > 0 { Pow2Monotone(n - 1, a * k); }
    } else {
      assert Pow2(w) == 2 * Pow2(a);
      assert InRange(Pow2(a), w, sg);
      Pow2Monotone(n, a * k);
    }
    assert !InRange(Power(Pow2(a), k), n, sg);
  }

  /** What wraps around loses at least 2^32. */
  lemma Wrapped(n: int)
    requires n >= UINT_RANGE
    ensures Unsigned(n) <= n - UINT_RANGE
  {
  }

  /** The formula is right exactly when it does not wrap around and the value is signed or the exponent is not 0. */
  lemma PowerFormula(w: nat, k: nat, n: nat, sg: bool)
    requires k < UINT_RANGE && n == Unsigned(PowerBits(w, k, sg))
    ensures var bits := if sg then (w - 1) * k + 2 else w * k;
            && (PowersFit(w, k, n, sg) <==> bits < UINT_RANGE && (sg || k >= 1))
            && (0 <= bits < UINT_RANGE ==> n == bits)
  {
    var bits := PowerBits(w, k, sg);
    if bits >= UINT_RANGE {
      Wrapped(bits);
      SmallBase(w, k, sg);
      PowerTooWide(w, k, Unsigned(bits), sg);
    } else if k >= 1 {
      forall v | InRange(v, w, sg)
        ensures InRange(Power(v, k), Unsigned(bits), sg)
      {
        PowerFits(v, w, k, sg);
      }
    } else {
      ZeroPower(w, sg);
    }
  }

  lemma SmallBase(w: nat, k: nat, sg: bool)
    requires k < UINT_RANGE <= PowerBits(w, k, sg)
    ensures w >= if sg then 2 else 1
  {
  }

  lemma ZeroPower(w: nat, sg: bool)
    ensures PowersFit(w, 0, Unsigned(PowerBits(w, 0, sg)), sg) <==> sg
  {
    assert PowerBits(w, 0, sg) == if sg then 2 else 0;
    assert Pow2(1) == 2 && Pow2(0) == 1;
    assert forall v :: Power(v, 0) == 1;
    assert !sg ==> InRange(0, w, sg) && !InRange(Power(0, 0), 0, sg);
  }

  /**
   * A constant right operand k within the cap, which is an unsigned number of the source, and of a width at which
   * its value is taken.
   */
  predicate ConstantRight(lim: Limits, r: Expr, k: nat) {
    && k <= lim.widthCap < UINT_RANGE
    && TestWidth(lim, r, Sized).ret <= if TestWidth(lim, r, Sized).signed then 64 else 63
  }

  /** In a lossless mode the width of a shift or power by a constant is that of its formula. */
  lemma LeftRet(lim: Limits, e: Expr, li: Info, ri: Info, k: nat, mode: Mode)
    requires e.Left? && e.rc == Some(k) && k <= lim.widthCap && ri.ret <= (if ri.signed then 64 else 63)
    requires Rank(mode) >= Rank(Expand)
    ensures LeftInfo(lim, e, li, ri, mode).ret == LeftLossless(lim, e, li.ret, li.mode, li.signed, k)
  {
  }

  lemma ConstantRet(lim: Limits, e: Expr, mode: Mode, k: nat)
    requires e.Left? && e.rc == Some(k) && ConstantRight(lim, e.r, k) && Rank(mode) >= Rank(Expand)
    ensures TestWidth(lim, e, mode).ret ==
            LeftLossless(lim, e, TestWidth(lim, e.l, Sized).ret, TestWidth(lim, e.l, Sized).mode, SignOf(e.l), k)
  {
    SignAndMin(lim, e.l, Sized);
    LeftRet(lim, e, TestWidth(lim, e.l, Sized), TestWidth(lim, e.r, Sized), k, mode);
  }

  lemma PowerLossless(lim: Limits, e: Expr, lw: nat, lMode: Mode, lSigned: bool, k: nat)
    requires e.Left? && e.lop == Pow && e.rc.Some? && !e.l.Num?
    ensures LeftLossless(lim, e, lw, lMode, lSigned, k) == Unsigned(PowerBits(lw, k, lSigned))
  {
  }

  /**
   * The lossless width of a constant power within the cap, of any base but a literal, holds every possible result
   * exactly when the formula stays below 2^32 and the base is signed or the power is not 0: an unsigned base to the
   * power 0 is inferred 0 bits wide.
   */
  lemma PowerWidth(lim: Limits, l: Expr, r: Expr, k: nat, powLen: nat, mode: Mode, w: nat, n: nat)
    requires !l.Num? && ConstantRight(lim, r, k) && Rank(mode) >= Rank(Expand)
    requires w == TestWidth(lim, l, Sized).ret && n == TestWidth(lim, Left(Pow, l, r, Some(k), powLen), mode).ret
    ensures var bits := if SignOf(l) then (w - 1) * k + 2 else w * k;
            && (PowersFit(w, k, n, SignOf(l)) <==> bits < UINT_RANGE && (SignOf(l) || k >= 1))
            && (0 <= bits < UINT_RANGE ==> n == bits)
  {
    var e := Left(Pow, l, r, Some(k), powLen);
    ConstantRet(lim, e, mode, k);
    PowerLossless(lim, e, w, TestWidth(lim, l, Sized).mode, SignOf(l), k);
    PowerFormula(w, k, n, SignOf(l));
  }

  lemma ScaledBelow(v: int, high: int, s: int)
    requires v < high && s > 0
    ensures v * s < high * s
  {
  }

  /** A value shifted left by k is in a range that is k bits wider. */
  lemma ScaledRange(x: int, v: int, w: nat, k: nat, sg: bool)
    requires InRange(v, w, sg) && x == v * Pow2(k)
    ensures InRange(x, w + k, sg)
  {
    var s := Pow2(k);
    if sg {
      var a := Pow2(w - 1);
      Pow2Add(w - 1, k);
      assert Pow2(w + k - 1) == a * s;
      ScaledBelow(v, a, s);
      ScaledNegative(a, s);
      assert InRange(x, w + k, sg) by {
        if v == -a { assert x == -(a * s); } else { ScaledBelow(-a, v, s); }
      }
    } else {
      Pow2Add(w, k);
      ScaledBelow(v, Pow2(w), s);
      MonotoneProduct(0, 0, v, s);
    }
  }

  lemma ScaledNegative(a: int, s: int)
    ensures (-a) * s == -(a * s)
  {
  }

  /** n bits hold every w-bit value shifted left by k. */
  ghost predicate ShiftsFit(w: nat, k: nat, n: nat, sg: bool) {
    forall v :: InRange(v, w, sg) ==> InRange(v * Pow2(k), n, sg)
  }

  lemma ShiftFormula(w: nat, k: nat, n: nat, sg: bool)
    requires k < UINT_RANGE && n == Unsigned(w + k)
    ensures ShiftsFit(w, k, n, sg) <==> w + k < UINT_RANGE
    ensures w + k < UINT_RANGE ==> n == w + k
  {
    if w + k < UINT_RANGE {
      forall v | InRange(v, w, sg)
        ensures InRange(v * Pow2(k), Unsigned(w + k), sg)
      {
        ScaledRange(v * Pow2(k), v, w, k, sg);
      }
    } else {
      Wrapped(w + k);
      ShiftTooWide(w, k, Unsigned(w + k), sg);
    }
  }

  lemma ShiftTooWide(w: nat, k: nat, n: nat, sg: bool)
    requires n < w
    ensures !ShiftsFit(w, k, n, sg)
  {
    var high := Pow2(w - 1);
    assert Pow2(w) == 2 * high;
    var v := if sg then -high else high;
    assert InRange(v, w, sg);
    AtLeastOnce(Pow2(k), high);
    ScaledNegative(high, Pow2(k));
    Pow2Monotone(n, w - 1);
    assert !InRange(v * Pow2(k), n, sg);
  }

  /**
   * The lossless width of anything unsized that is shifted left by a constant holds every value so shifted, as long
   * as it stays below 2^32. (A sized left operand keeps its own width.)
   */
  lemma ShiftWidth(lim: Limits, l: Expr, r: Expr, k: nat, powLen: nat, mode: Mode, w: nat, n: nat)
    requires TestWidth(lim, l, Sized).mode != Sized && ConstantRight(lim, r, k) && Rank(mode) >= Rank(Expand)
    requires w == TestWidth(lim, l, Sized).ret && n == TestWidth(lim, Left(Shl, l, r, Some(k), powLen), mode).ret
    ensures ShiftsFit(w, k, n, SignOf(l)) <==> w + k < UINT_RANGE
    ensures w + k < UINT_RANGE ==> n == w + k
  {
    var e := Left(Shl, l, r, Some(k), powLen);
    ConstantRet(lim, e, mode, k);
    ShiftLossless(lim, e, w, TestWidth(lim, l, Sized).mode, SignOf(l), k);
    ShiftFormula(w, k, n, SignOf(l));
  }

  lemma ShiftLossless(lim: Limits, e: Expr, lw: nat, lMode: Mode, lSigned: bool, k: nat)
    requires e.Left? && e.lop == Shl && e.rc.Some? && lMode != Sized
    ensures LeftLossless(lim, e, lw, lMode, lSigned, k) == Unsigned(lw + k)
  {
  }

  /** The power of two literals has as many bits as the folded power, but no fewer than the literal. */
  lemma LiteralPowerWidth(lim: Limits, e: Expr, mode: Mode)
    requires e.Left? && e.lop == Pow && e.l.Num? && e.rc.Some? && Rank(mode) >= Rank(Expand)
    ensures var n, w := TestWidth(lim, e, mode).ret, TestWidth(lim, e.l, Sized).ret;
            n >= w && n >= e.powLen && (n == w || n == e.powLen)
  {
  }

  // ------------------------------------------- right operands that vary

  /** top is the largest value of the right operand that inference reckons with. */
  ghost predicate LargestOf(lim: Limits, op: LeftOp, r: Expr, top: nat) {
    LargestRight(lim, op, TestWidth(lim, r, Sized).ret, SignOf(r), top)
  }

  /** In a lossless mode the width is that of the formula for the largest right operand, unless it is cut. */
  lemma VariableRet(lim: Limits, e: Expr, mode: Mode, top: nat)
    requires e.Left? && e.rc.None? && lim.widthCap < UINT_RANGE && Rank(mode) >= Rank(Expand)
    requires LargestOf(lim, e.lop, e.r, top)
    ensures TestWidth(lim, e, mode).ret ==
            LeftLossless(lim, e, TestWidth(lim, e.l, Sized).ret, TestWidth(lim, e.l, Sized).mode, SignOf(e.l), top)
  {
    SignAndMin(lim, e.l, Sized);
    SignAndMin(lim, e.r, Sized);
    var ri := TestWidth(lim, e.r, Sized);
    GuessIsLargest(lim, e.lop, ri.ret, ri.signed, None);
    OneLargest(lim, e.lop, ri.ret, ri.signed, top, RightValue(lim, e.lop, ri.ret, ri.signed, None));
    LeftInfoRet(lim, e, TestWidth(lim, e.l, Sized), ri, mode);
  }

  lemma LeftInfoRet(lim: Limits, e: Expr, li: Info, ri: Info, mode: Mode)
    requires e.Left? && Rank(mode) >= Rank(Expand)
    ensures LeftInfo(lim, e, li, ri, mode).ret ==
            LeftLossless(lim, e, li.ret, li.mode, li.signed, RightValue(lim, e.lop, ri.ret, ri.signed, e.rc))
  {
  }

  lemma OneLargest(lim: Limits, op: LeftOp, rWidth: nat, rSigned: bool, g: nat, g': nat)
    requires LargestRight(lim, op, rWidth, rSigned, g) && LargestRight(lim, op, rWidth, rSigned, g')
    ensures g == g'
  {
  }

  lemma PowerBitsGrow(w: nat, k: nat, top: nat, sg: bool)
    requires k <= top && (sg ==> w >= 1)
    ensures 0 <= PowerBits(w, k, sg) <= PowerBits(w, top, sg)
  {
    MonotoneProduct(if sg then w - 1 else w, k, if sg then w - 1 else w, top);
  }

  /** n bits hold the powers from 0, or 1, up to top of every w-bit value. */
  ghost predicate AllPowersFit(w: nat, top: nat, n: nat, sg: bool) {
    forall k: nat :: k <= top && (sg || k >= 1 || n >= 1) ==> PowersFit(w, k, n, sg)
  }

  lemma AllPowersHeld(w: nat, top: nat, n: nat, sg: bool)
    requires n == PowerBits(w, top, sg)
    ensures AllPowersFit(w, top, n, sg)
  {
    forall k: nat, v | k <= top && (sg || k >= 1 || n >= 1) && InRange(v, w, sg)
      ensures InRange(Power(v, k), n, sg)
    {
      if k == 0 {
        PowerBitsGrow(w, k, top, sg);
        assert Power(v, 0) == 1 && Pow2(1) == 2;
        if sg { Pow2Monotone(1, n - 1); } else { Pow2Monotone(1, n); }
      } else {
        PowerFits(v, w, k, sg);
        PowerBitsGrow(w, k, top, sg);
        RangeWidens(Power(v, k), PowerBits(w, k, sg), n, sg);
      }
    }
  }

  /** Above integer width the formula is cut to it, once it exceeds the width w of the left operand. */
  predicate IsCut(lim: Limits, bits: int, w: nat) {
    bits > w && bits > lim.integerWidth
  }

  /**
   * The lossless width of a power whose exponent varies, where top is the largest one that is reckoned with: if its
   * formula for top neither wraps around nor is cut to integer width, it holds every power. If it wraps around it does
   * not, and if it is cut by more bits than the exponent is large it does not either.
   */
  lemma VariablePowerWidth(lim: Limits, l: Expr, r: Expr, powLen: nat, mode: Mode, w: nat, n: nat, top: nat)
    requires lim.widthCap < UINT_RANGE && Rank(mode) >= Rank(Expand) && LargestOf(lim, Pow, r, top)
    requires w == TestWidth(lim, l, Sized).ret && n == TestWidth(lim, Left(Pow, l, r, None, powLen), mode).ret
    ensures var sg, bits := SignOf(l), if SignOf(l) then (w - 1) * top + 2 else w * top;
            && (0 <= bits < UINT_RANGE && !IsCut(lim, bits, w) ==> n == bits && AllPowersFit(w, top, n, sg))
            && (0 <= bits < UINT_RANGE && IsCut(lim, bits, w) ==> n == lim.integerWidth)
            && (bits >= UINT_RANGE ==> !PowersFit(w, top, n, sg))
            && (n + top < bits && w >= (if sg then 2 else 1) ==> !PowersFit(w, top, n, sg))
  {
    var e := Left(Pow, l, r, None, powLen);
    VariableRet(lim, e, mode, top);
    PowerFormulaCut(lim, e, w, TestWidth(lim, l, Sized).mode, n, top, SignOf(l));
  }

  lemma PowerFormulaCut(lim: Limits, e: Expr, w: nat, lMode: Mode, n: nat, top: nat, sg: bool)
    requires e.Left? && e.lop == Pow && e.rc.None? && n == LeftLossless(lim, e, w, lMode, sg, top) && top < UINT_RANGE
    ensures var bits := if sg then (w - 1) * top + 2 else w * top;
            && (0 <= bits < UINT_RANGE && !IsCut(lim, bits, w) ==> n == bits && AllPowersFit(w, top, n, sg))
            && (0 <= bits < UINT_RANGE && IsCut(lim, bits, w) ==> n == lim.integerWidth)
            && (bits >= UINT_RANGE ==> !PowersFit(w, top, n, sg))
            && (n + top < bits && w >= (if sg then 2 else 1) ==> !PowersFit(w, top, n, sg))
  {
    var bits := PowerBits(w, top, sg);
    if 0 <= bits < UINT_RANGE && !IsCut(lim, bits, w) {
      AllPowersHeld(w, top, n, sg);
    }
    if bits >= UINT_RANGE {
      Wrapped(bits);
      SmallBase(w, top, sg);
    }
    if n + top < bits && w >= (if sg then 2 else 1) {
      PowerTooWide(w, top, n, sg);
    }
  }

  ghost predicate AllShiftsFit(w: nat, top: nat, n: nat, sg: bool) {
    forall k: nat :: k <= top ==> ShiftsFit(w, k, n, sg)
  }

  /** A value shifted by top needs all of w + top bits. */
  lemma ShiftNeedsAll(w: nat, top: nat, n: nat, sg: bool)
    requires 1 <= w && n < w + top
    ensures !ShiftsFit(w, top, n, sg)
  {
    var high := Pow2(w - 1);
    assert Pow2(w) == 2 * high;
    var v := if sg then -high else high;
    assert InRange(v, w, sg);
    Pow2Add(w - 1, top);
    ScaledNegative(high, Pow2(top));
    Pow2Monotone(n, w - 1 + top);
    if n > 0 { Pow2Monotone(n - 1, n); assert Pow2(n) == 2 * Pow2(n - 1); }
    assert !InRange(v * Pow2(top), n, sg);
  }

  lemma AllShiftsHeld(w: nat, top: nat, sg: bool)
    ensures AllShiftsFit(w, top, w + top, sg)
  {
    forall k: nat, v | k <= top && InRange(v, w, sg)
      ensures InRange(v * Pow2(k), w + top, sg)
    {
      ScaledRange(v * Pow2(k), v, w, k, sg);
      RangeWidens(v * Pow2(k), w + k, w + top, sg);
    }
  }

  /**
   * The lossless width of anything unsized of at least one bit that is shifted left by a distance that varies holds
   * every shifted value if and only if it neither wraps around nor is cut to integer width.
   */
  lemma VariableShiftWidth(lim: Limits, l: Expr, r: Expr, powLen: nat, mode: Mode, w: nat, n: nat, top: nat)
    requires TestWidth(lim, l, Sized).mode != Sized && lim.widthCap < UINT_RANGE && Rank(mode) >= Rank(Expand)
    requires LargestOf(lim, Shl, r, top)
    requires 1 <= w == TestWidth(lim, l, Sized).ret && n == TestWidth(lim, Left(Shl, l, r, None, powLen), mode).ret
    ensures AllShiftsFit(w, top, n, SignOf(l)) <==> w + top < UINT_RANGE && !IsCut(lim, w + top, w)
    ensures w + top < UINT_RANGE ==> n == if IsCut(lim, w + top, w) then lim.integerWidth else w + top
  {
    var e := Left(Shl, l, r, None, powLen);
    VariableRet(lim, e, mode, top);
    ShiftFormulaCut(lim, e, w, TestWidth(lim, l, Sized).mode, n, top, SignOf(l));
  }

  lemma ShiftFormulaCut(lim: Limits, e: Expr, w: nat, lMode: Mode, n: nat, top: nat, sg: bool)
    requires e.Left? && e.lop == Shl && e.rc.None? && lMode != Sized && w >= 1 && top < UINT_RANGE
    requires n == LeftLossless(lim, e, w, lMode, sg, top)
    ensures AllShiftsFit(w, top, n, sg) <==> w + top < UINT_RANGE && !IsCut(lim, w + top, w)
    ensures w + top < UINT_RANGE ==> n == if IsCut(lim, w + top, w) then lim.integerWidth else w + top
  {
    if w + top >= UINT_RANGE {
      Wrapped(w + top);
    }
    if n < w + top {
      ShiftNeedsAll(w, top, n, sg);
    } else {
      AllShiftsHeld(w, top, sg);
    }
  }
}
