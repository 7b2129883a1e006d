/** Width pruning: when an expression may be evaluated at a smaller width than its own. */
module ExprPruning {
  import opened Options
  import opened PowersOfTwo
  import opened ExprWidth
  import opened ExprModes
  import opened ExprEval

  /** No min or max operator whose operands are evaluated at the width of the context. */
  predicate NoMinMax(e: Expr) {
    match e
    case Bin(op, l, r) => op != Min && op != Max && NoMinMax(l) && NoMinMax(r)
    case Left(_, l, _, _, _) => NoMinMax(l)
    case Tern(_, t, f) => NoMinMax(t) && NoMinMax(f)
    case Un(_, e1) => NoMinMax(e1)
    case _ => true
  }

  /** The results at two widths agree: both undefined, or equal modulo 2^w. */
  ghost predicate AgreeLow(narrow: Option<int>, wide: Option<int>, w: nat) {
    && narrow.Some? == wide.Some?
    && (narrow.Some? ==> narrow.value == Low(wide.value, w))
  }

  lemma HalveLow(a: int, w: nat)
    requires w > 0
    ensures Low(a, w) / 2 == Low(a / 2, w - 1)
    ensures Low(a, w) % 2 == a % 2
  {
    var m := Pow2(w - 1);
    var h, b := a / 2, a % 2;
    var q := LowSplit(h, w - 1);
    assert Pow2(w) == 2 * m;
    assert a == 2 * h + b;
    MulAssociates(2, q, m);
    assert 2 * (q * m) == q * (2 * m);
    assert a == (2 * Low(h, w - 1) + b) + q * Pow2(w);
    LowOfSum(2 * Low(h, w - 1) + b, q, w);
    LowSmall(2 * Low(h, w - 1) + b, w);
  }

  /** One digit of a bitwise operator and the rest. */
  lemma BitwiseDigits(op: BinOp, a: nat, b: nat, w: nat)
    requires w > 0
    ensures Bitwise(op, a, b, w) / 2 == Bitwise(op, a / 2, b / 2, w - 1)
    ensures Bitwise(op, a, b, w) % 2 == if BitTable(op, a % 2 == 1, b % 2 == 1) then 1 else 0
  {
  }

  lemma {:induction false} BitwiseLow(op: BinOp, a: nat, b: nat, w: nat, w': nat)
    requires w <= w'
    ensures Low(Bitwise(op, a, b, w'), w) == Bitwise(op, Low(a, w), Low(b, w), w)
  {
    if w == 0 {
    } else {
      BitwiseLow(op, a / 2, b / 2, w - 1, w' - 1);
      BitwiseDigits(op, a, b, w');
      BitwiseDigits(op, Low(a, w), Low(b, w), w);
      HalveLow(Bitwise(op, a, b, w'), w);
      HalveLow(a, w);
      HalveLow(b, w);
      SameHalves(Low(Bitwise(op, a, b, w'), w), Bitwise(op, Low(a, w), Low(b, w), w));
    }
  }

  lemma SameHalves(p: int, q: int)
    requires p / 2 == q / 2 && p % 2 == q % 2
    ensures p == q
  {
  }

  /** The operators that do not block pruning compute their low bits from the low bits of the operands. */
  lemma BinaryLow(op: BinOp, a: nat, b: nat, w: nat, w': nat, s: bool)
    requires w <= w' && a < Pow2(w') && b < Pow2(w')
    requires op != Div && op != Mod && op != Min && op != Max
    ensures AgreeLow(Binary(op, Low(a, w), Low(b, w), w, s), Binary(op, a, b, w', s), w)
  {
    match op
    case Add =>
      LowAdd(a, b, w);
      LowLow(a + b, w', w);
    case Sub =>
      LowSub(a, b, w);
      LowLow(a - b, w', w);
    case Mul =>
      LowMul(a, b, w);
      LowLow(a * b, w', w);
    case _ =>
      BitwiseLow(op, a, b, w, w');
  }

  lemma ShiftLow(a: nat, r: nat, w: nat, w': nat, s: bool)
    requires w <= w' && a < Pow2(w')
    ensures AgreeLow(Leftward(Shl, Low(a, w), r, w, s), Leftward(Shl, a, r, w', s), w)
  {
    LowMulOne(a, Pow2(r), w);
    LowLow(a * Pow2(r), w', w);
  }

  lemma UnaryLow(op: UnaryOp, a: nat, w: nat, w': nat)
    requires w <= w' && a < Pow2(w')
    ensures Unary(op, Low(a, w), w) == Low(Unary(op, a, w'), w)
  {
    match op
    case Plus =>
    case Minus =>
      LowNegate(a, w);
      LowLow(0 - a, w', w);
    case Not =>
      ComplementLow(a, w');
      LowLow(-1 - a, w', w);
      LowSub(-1, a, w);
      LowLow(a, w, w);
      LowSub(-1, Low(a, w), w);
      ComplementLow(Low(a, w), w);
  }

  /** The complement of a is -1 - a modulo 2^w. */
  lemma ComplementLow(a: nat, w: nat)
    requires a < Pow2(w)
    ensures Low(-1 - a, w) == Unary(Not, a, w)
  {
    LowOfSum(-1 - a, 1, w);
    LowSmall(Pow2(w) - 1 - a, w);
  }

  lemma FlagLow(b: bool, w: nat, w': nat)
    requires w <= w'
    ensures Flag(b, w) == Low(Flag(b, w'), w)
  {
    LowLow(if b then 1 else 0, w', w);
  }

  // ------------------------------------------------- minimum and maximum

  /**
   * A bitwise operator of which the bits above its operands are what they should be: zero from zeros, or, of
   * signed operands that have a sign bit, the repeated sign.
   */
  predicate BitwiseFits(op: BinOp, min: MinWidth, s: bool) {
    match op
    case And | Or | Xor => true
    case Nand | Nor | Xnor => s && min != Fin(0)
    case _ => false
  }

  /** A value that min_width holds as it stands, so that it is the same integer at any width not below. */
  predicate Fits(e: Expr, s: bool) {
    match e
    case Num(_, _, sized, signed, single) => !single && (sized || signed == s)
    case Sig(_, _, _) => true
    case Bin(op, l, r) => (op == Min || op == Max || BitwiseFits(op, MinOf(e), s)) && Fits(l, s) && Fits(r, s)
    case Left(_, _, _, _, _) => false
    case Comp(_, _, _) => true
    case Logic(_, _, _) => true
    case Tern(_, t, f) => Fits(t, s) && Fits(f, s)
    case Un(op, e1) => (op == Plus || (op == Not && s && MinOf(e) != Fin(0))) && Fits(e1, s)
    case Red(_, _) => true
  }

  /** Minimum and maximum are taken only of values that min_width holds. */
  predicate MinMaxSafe(e: Expr, s: bool) {
    match e
    case Bin(op, l, r) =>
      if op == Min || op == Max then Fits(l, s) && Fits(r, s) else MinMaxSafe(l, s) && MinMaxSafe(r, s)
    case Left(_, l, _, _, _) => MinMaxSafe(l, s)
    case Tern(_, t, f) => MinMaxSafe(t, s) && MinMaxSafe(f, s)
    case Un(_, e1) => MinMaxSafe(e1, s)
    case _ => true
  }

  lemma {:induction false} FitsIsSafe(e: Expr, s: bool)
    requires Fits(e, s)
    ensures MinMaxSafe(e, s)
  {
    match e
    case Bin(_, l, r) =>
      FitsIsSafe(l, s);
      FitsIsSafe(r, s);
    case Tern(_, t, f) =>
      FitsIsSafe(t, s);
      FitsIsSafe(f, s);
    case Un(_, e1) => FitsIsSafe(e1, s);
    case _ =>
  }

  /** A leaf as wide as v bits at the most supplies the same integer at any such width. */
  lemma LeafSame(v: nat, len: nat, w: nat, s: bool)
    requires v < Pow2(len) && len <= w
    ensures Interpret(Low(Interpret(v, len, s), w), w, s) == Interpret(v, len, s)
  {
    if len == 0 {
      assert v == 0;
      LowSmall(0, w);
    } else {
      if s { AsSignedInRange(v, len); }
      RangeWidens(Interpret(v, len, s), len, w, s);
      InterpretLow(Interpret(v, len, s), w, s);
    }
  }

  lemma FlagSame(b: bool, w: nat)
    requires w >= 1
    ensures Flag(b, w) == if b then 1 else 0
  {
    Pow2Monotone(1, w);
    LowSmall(if b then 1 else 0, w);
  }

  /** The expression has the same value, read as a number, at both widths. */
  ghost predicate SameNumber(lim: Limits, e: Expr, w: nat, w': nat, s: bool, env: Env) {
    var a, b := Eval(lim, e, w, s, env), Eval(lim, e, w', s, env);
    a.Some? == b.Some? && (a.Some? ==> Interpret(a.value, w, s) == Interpret(b.value, w', s))
  }

  lemma MinMaxSame(lim: Limits, op: BinOp, l: Expr, r: Expr, w: nat, w': nat, s: bool, env: Env)
    requires (op == Min || op == Max) && SameNumber(lim, l, w, w', s, env) && SameNumber(lim, r, w, w', s, env)
    ensures SameNumber(lim, Bin(op, l, r), w, w', s, env)
  {
  }

  /** Two vectors of different width that are read as the same number. */
  predicate SameRead(a: nat, a': nat, w: nat, w': nat, s: bool) {
    a < Pow2(w) && a' < Pow2(w') && Interpret(a, w, s) == Interpret(a', w', s)
  }

  predicate IsBitwise(op: BinOp) {
    op == And || op == Or || op == Xor || op == Nand || op == Nor || op == Xnor
  }

  function AllDigits(p: bool, w: nat): nat {
    if p then Pow2(w) - 1 else 0
  }

  lemma AllDigitsHalved(p: bool, w: nat)
    requires w > 0
    ensures AllDigits(p, w) / 2 == AllDigits(p, w - 1) && (AllDigits(p, w) % 2 == 1 <==> p)
  {
  }

  /** All digits of both operands are the same, and so are those of the result. */
  lemma {:induction false} BitwiseUniform(op: BinOp, p: bool, q: bool, w: nat)
    ensures Bitwise(op, AllDigits(p, w), AllDigits(q, w), w) == AllDigits(BitTable(op, p, q), w)
  {
    if w == 0 {
    } else {
      BitwiseUniform(op, p, q, w - 1);
      AllDigitsHalved(p, w);
      AllDigitsHalved(q, w);
      AllDigitsHalved(BitTable(op, p, q), w);
    }
  }

  /** A vector of no bits or, if it is signed, of one has the same digit everywhere, and so has its equal. */
  lemma UniformRead(a: nat, a': nat, w: nat, w': nat, s: bool) returns (p: bool)
    requires SameRead(a, a', w, w', s) && w <= (if s then 1 else 0) && (w > 0 ==> w' > 0)
    ensures a == AllDigits(p, w) && a' == AllDigits(p, w') && (p ==> w > 0)
  {
    assert Pow2(0) == 1 && Pow2(1) == 2;
    if w' > 0 {
      assert Pow2(w') == 2 * Pow2(w' - 1);
    }
    p := a == 1;
  }

  lemma {:induction false} BitwiseSame(op: BinOp, a: nat, b: nat, a': nat, b': nat, w: nat, w': nat, s: bool)
    requires SameRead(a, a', w, w', s) && SameRead(b, b', w, w', s)
    requires IsBitwise(op) && (op == And || op == Or || op == Xor || (s && w > 0 && w' > 0))
    ensures SameRead(Bitwise(op, a, b, w), Bitwise(op, a', b', w'), w, w', s)
    decreases w + w'
  {
    var least := if s then 1 else 0;
    if w <= least && (w == 0 || w' > 0) {
      UniformSame(op, a, b, a', b', w, w', s);
    } else if w' <= least {
      UniformSame(op, a', b', a, b, w', w, s);
    } else {
      HalveSame(a, a', w, w', s);
      HalveSame(b, b', w, w', s);
      BitwiseSame(op, a / 2, b / 2, a' / 2, b' / 2, w - 1, w' - 1, s);
      BitwiseDigits(op, a, b, w);
      BitwiseDigits(op, a', b', w');
      DoubleSame(Bitwise(op, a, b, w), Bitwise(op, a', b', w'), w, w', s);
    }
  }

  lemma HalveSame(a: nat, a': nat, w: nat, w': nat, s: bool)
    requires SameRead(a, a', w, w', s) && w > (if s then 1 else 0) && w' > (if s then 1 else 0)
    ensures SameRead(a / 2, a' / 2, w - 1, w' - 1, s) && a % 2 == a' % 2
  {
  }

  lemma DoubleSame(a: nat, a': nat, w: nat, w': nat, s: bool)
    requires a < Pow2(w) && a' < Pow2(w') && w > (if s then 1 else 0) && w' > (if s then 1 else 0)
    requires SameRead(a / 2, a' / 2, w - 1, w' - 1, s) && a % 2 == a' % 2
    ensures SameRead(a, a', w, w', s)
  {
  }

  lemma UniformSame(op: BinOp, a: nat, b: nat, a': nat, b': nat, w: nat, w': nat, s: bool)
    requires SameRead(a, a', w, w', s) && SameRead(b, b', w, w', s)
    requires w <= (if s then 1 else 0) && (w > 0 ==> w' > 0)
    requires IsBitwise(op) && (op == And || op == Or || op == Xor || (s && w > 0))
    ensures SameRead(Bitwise(op, a, b, w), Bitwise(op, a', b', w'), w, w', s)
  {
    var p := UniformRead(a, a', w, w', s);
    var q := UniformRead(b, b', w, w', s);
    BitwiseUniform(op, p, q, w);
    BitwiseUniform(op, p, q, w');
    assert Pow2(0) == 1 && Pow2(1) == 2;
    if w' > 0 {
      assert Pow2(w') == 2 * Pow2(w' - 1);
    }
  }

  lemma BitwiseExprSame(lim: Limits, op: BinOp, l: Expr, r: Expr, w: nat, w': nat, s: bool, env: Env)
    requires IsBitwise(op) && (op == And || op == Or || op == Xor || (s && w > 0 && w' > 0))
    requires SameNumber(lim, l, w, w', s, env) && SameNumber(lim, r, w, w', s, env)
    ensures SameNumber(lim, Bin(op, l, r), w, w', s, env)
  {
    var a, b := Eval(lim, l, w, s, env), Eval(lim, r, w, s, env);
    var a', b' := Eval(lim, l, w', s, env), Eval(lim, r, w', s, env);
    if a.Some? && b.Some? {
      BitwiseSame(op, a.value, b.value, a'.value, b'.value, w, w', s);
    }
  }

  /** The complement of a signed number x is -1 - x at any width. */
  lemma NotSame(lim: Limits, e: Expr, w: nat, w': nat, env: Env)
    requires SameNumber(lim, e, w, w', true, env) && w > 0 && w' > 0
    ensures SameNumber(lim, Un(Not, e), w, w', true, env)
  {
  }

  lemma {:induction false} FitsSame(lim: Limits, e: Expr, w: nat, w': nat, s: bool, env: Env)
    requires Fits(e, s) && (s ==> SignOf(e)) && MinOf(e).Fin? && MinOf(e).n <= w && MinOf(e).n <= w'
    ensures SameNumber(lim, e, w, w', s, env)
  {
    match e
    case Num(bits, len, _, _, _) =>
      LeafSame(Low(bits, len), len, w, s);
      LeafSame(Low(bits, len), len, w', s);
    case Sig(name, width, _) =>
      LeafSame(Low(env(name), width), width, w, s);
      LeafSame(Low(env(name), width), width, w', s);
    case Bin(op, l, r) =>
      FitsSame(lim, l, w, w', s, env);
      FitsSame(lim, r, w, w', s, env);
      if op == Min || op == Max {
        MinMaxSame(lim, op, l, r, w, w', s, env);
      } else {
        BitwiseExprSame(lim, op, l, r, w, w', s, env);
      }
    case Tern(_, t, f) =>
      FitsSame(lim, t, w, w', s, env);
      FitsSame(lim, f, w, w', s, env);
    case Un(op, e1) =>
      FitsSame(lim, e1, w, w', s, env);
      if op == Not {
        NotSame(lim, e1, w, w', env);
      }
    case _ =>
      FlagSame(true, w);
      FlagSame(false, w);
      FlagSame(true, w');
      FlagSame(false, w');
  }

  // ---------------------------------------------------------- the guarantee

  lemma OperandsSafe(op: BinOp, l: Expr, r: Expr, s: bool)
    requires MinMaxSafe(Bin(op, l, r), s)
    ensures MinMaxSafe(l, s) && MinMaxSafe(r, s)
  {
    if op == Min || op == Max {
      FitsIsSafe(l, s);
      FitsIsSafe(r, s);
    }
  }

  lemma BinAgrees(lim: Limits, op: BinOp, l: Expr, r: Expr, w: nat, w': nat, s: bool, env: Env)
    requires w <= w' && op != Div && op != Mod && op != Min && op != Max
    requires AgreeLow(Eval(lim, l, w, s, env), Eval(lim, l, w', s, env), w)
    requires AgreeLow(Eval(lim, r, w, s, env), Eval(lim, r, w', s, env), w)
    ensures AgreeLow(Eval(lim, Bin(op, l, r), w, s, env), Eval(lim, Bin(op, l, r), w', s, env), w)
  {
    var a, b := Eval(lim, l, w', s, env), Eval(lim, r, w', s, env);
    if a.Some? && b.Some? {
      BinaryLow(op, a.value, b.value, w, w', s);
    }
  }

  /** The same operand is the smaller one at both widths. */
  lemma MinMaxAgrees(lim: Limits, op: BinOp, l: Expr, r: Expr, w: nat, w': nat, s: bool, env: Env)
    requires w <= w' && (op == Min || op == Max)
    requires AgreeLow(Eval(lim, l, w, s, env), Eval(lim, l, w', s, env), w) && SameNumber(lim, l, w, w', s, env)
    requires AgreeLow(Eval(lim, r, w, s, env), Eval(lim, r, w', s, env), w) && SameNumber(lim, r, w, w', s, env)
    ensures AgreeLow(Eval(lim, Bin(op, l, r), w, s, env), Eval(lim, Bin(op, l, r), w', s, env), w)
  {
  }

  /**
   * At two widths an expression evaluates to the same value modulo 2 to the smaller of them if both are at least
   * min_width; or, without minimum and maximum, if it is defined at the smaller one.
   */
  lemma {:induction false} PrunedAgrees(lim: Limits, e: Expr, w: nat, w': nat, s: bool, env: Env)
    requires MinOf(e).Fin? && w <= w' && MinMaxSafe(e, s) && (s ==> SignOf(e))
    requires MinOf(e).n <= w || (NoMinMax(e) && Eval(lim, e, w, s, env).Some?)
    ensures AgreeLow(Eval(lim, e, w, s, env), Eval(lim, e, w', s, env), w)
  {
    match e
    case Num(_, _, _, _, _) =>
      LowLow(LeafValue(e, s, env), w', w);
    case Sig(_, _, _) =>
      LowLow(LeafValue(e, s, env), w', w);
    case Bin(op, l, r) =>
      OperandsSafe(op, l, r, s);
      PrunedAgrees(lim, l, w, w', s, env);
      PrunedAgrees(lim, r, w, w', s, env);
      if op == Min || op == Max {
        FitsSame(lim, l, w, w', s, env);
        FitsSame(lim, r, w, w', s, env);
        MinMaxAgrees(lim, op, l, r, w, w', s, env);
      } else {
        BinAgrees(lim, op, l, r, w, w', s, env);
      }
    case Left(op, l, r, _, _) =>
      PrunedAgrees(lim, l, w, w', s, env);
      var a, b := Eval(lim, l, w', s, env), Eval(lim, r, OwnWidth(lim, r), SignOf(r), env);
      if a.Some? && b.Some? {
        ShiftLow(a.value, b.value, w, w', s);
      }
    case Tern(c, t, f) =>
      var cond := Eval(lim, c, CappedWidth(lim, c), SignOf(c), env);
      if cond.Some? {
        PrunedAgrees(lim, if cond.value != 0 then t else f, w, w', s, env);
      }
    case Un(op, e1) =>
      PrunedAgrees(lim, e1, w, w', s, env);
      var a := Eval(lim, e1, w', s, env);
      if a.Some? {
        UnaryLow(op, a.value, w, w');
      }
    case _ =>
      FlagLow(true, w, w');
      FlagLow(false, w, w');
  }

  /**
   * Pruning is sound: at any two widths that are both at least min_width, an expression evaluates to the same
   * value modulo 2 to the smaller of them, and no operand is cut at one of them only. An expression one of
   * whose context-determined operators is `/`, `%`, a right shift or `**` has no such width.
   */
  lemma PruningSound(lim: Limits, e: Expr, w: nat, w': nat, s: bool, env: Env)
    requires MinOf(e).Fin? && MinOf(e).n <= w <= w' && MinMaxSafe(e, s) && (s ==> SignOf(e))
    ensures AgreeLow(Eval(lim, e, w, s, env), Eval(lim, e, w', s, env), w)
  {
    PrunedAgrees(lim, e, w, w', s, env);
  }

  /** An operator that needs all bits of its operand, among the context-determined operands of e. */
  predicate HasBlocker(e: Expr) {
    match e
    case Bin(op, l, r) => op == Div || op == Mod || HasBlocker(l) || HasBlocker(r)
    case Left(op, l, _, _, _) => op != Shl || HasBlocker(l)
    case Tern(_, t, f) => HasBlocker(t) || HasBlocker(f)
    case Un(_, e1) => HasBlocker(e1)
    case _ => false
  }

  /** Pruning is disabled exactly above such an operator, however far up. */
  lemma {:induction false} PruningDisabled(e: Expr)
    ensures MinOf(e) == NoPruning <==> HasBlocker(e)
  {
    match e
    case Bin(_, l, r) =>
      PruningDisabled(l);
      PruningDisabled(r);
    case Left(_, l, _, _, _) =>
      PruningDisabled(l);
    case Tern(_, t, f) =>
      PruningDisabled(t);
      PruningDisabled(f);
    case Un(_, e1) =>
      PruningDisabled(e1);
    case _ =>
  }

  /**
   * The min and max operators ought to disable pruning and do not: with a 4-bit a = 15, the low 4 bits of
   * min(a + 1, 5) are 5 at width 5 and 0 at width 4, which is its min_width.
   */
  lemma MinBreaksPruning(lim: Limits)
    ensures var e := Bin(Min, Bin(Add, Sig(0, 4, false), Num(1, 1, true, false, false)), Num(5, 3, true, false, false));
            && MinOf(e) == Fin(4)
            && Eval(lim, e, 5, false, _ => 15) == Some(5)
            && Eval(lim, e, 4, false, _ => 15) == Some(0)
  {
    var env: Env := _ => 15;
    var a, one, five := Sig(0, 4, false), Num(1, 1, true, false, false), Num(5, 3, true, false, false);
    assert Pow2(1) == 2 && Pow2(2) == 4 && Pow2(3) == 8 && Pow2(4) == 16 && Pow2(5) == 32;
    assert LeafValue(a, false, env) == 15 && LeafValue(one, false, env) == 1 && LeafValue(five, false, env) == 5;
    assert Eval(lim, Bin(Add, a, one), 5, false, env) == Some(16);
    assert Eval(lim, Bin(Add, a, one), 4, false, env) == Some(0);
    assert Eval(lim, five, 5, false, env) == Some(5) && Eval(lim, five, 4, false, env) == Some(5);
  }

  // -------------------------------------------------- pruning in assignments

  /** The width that elab_and_eval would use without pruning for a right-hand side assigned to cw bits. */
  function UnprunedWidth(lim: Limits, e: Expr, cw: nat): nat {
    Greater(TestWidth(lim, e, Sized).width, cw)
  }

  /** The width that elab_and_eval uses, before it looks at the cap. */
  function PrunedWidth(lim: Limits, e: Expr, cw: nat): nat {
    var i, full := TestWidth(lim, e, Sized), UnprunedWidth(lim, e, cw);
    if i.min.Fin? && cw > 0 && full > cw then Greater(i.min.n, cw) else full
  }

  /**
   * Pruning leaves the least width that has all bits of the target and all that min_width asks for. Nothing is pruned
   * that fits the target, that has no target, or above an operator that forbids it.
   */
  lemma PrunedToLeast(lim: Limits, e: Expr, cw: nat)
    ensures var w, own := PrunedWidth(lim, e, cw), TestWidth(lim, e, Sized).width;
            if own > cw > 0 && MinOf(e).Fin? then
              w >= cw && w >= MinOf(e).n && (w == cw || w == MinOf(e).n)
            else
              w >= cw && w >= own && (w == cw || w == own)
  {
    SignAndMin(lim, e, Sized);
  }

  /** The cap on unsized expressions, which does not cut a width that the target asks for. */
  function CapFor(lim: Limits, e: Expr, cw: nat, w: nat): nat {
    if Rank(TestWidth(lim, e, Sized).mode) >= Rank(Lossless) && w > lim.widthCap && w > cw then lim.widthCap else w
  }

  /** A sized expression is never capped, nor one that is within the cap or the target; any other has the cap. */
  lemma CappedExactly(lim: Limits, e: Expr, cw: nat, w: nat)
    ensures CapFor(lim, e, cw, w) <= w
    ensures CapFor(lim, e, cw, w) < w <==>
            CapFor(lim, e, cw, w) == lim.widthCap && Rank(TestWidth(lim, e, Sized).mode) >= Rank(Lossless) &&
            w > lim.widthCap && w > cw
  {
  }

  /** The cap on unsized expressions cuts neither the target nor what min_width holds. */
  predicate CapHarmless(lim: Limits, e: Expr, cw: nat) {
    cw <= lim.widthCap || MinOf(e).NoPruning? || MinOf(e).n <= lim.widthCap
  }

  /**
   * Whenever the right-hand side is defined without pruning it is defined with pruning, and the same is assigned, on
   * all bits that there are without pruning. That is all bits of the target, unless the target is wider than the cap,
   * which only the unpruned width runs into.
   */
  lemma PruningKeepsAssignment(lim: Limits, e: Expr, cw: nat, env: Env)
    requires MinMaxSafe(e, SignOf(e)) && (NoMinMax(e) || (!NarrowsInside(lim, e) && CapHarmless(lim, e, cw)))
    ensures var w, w' := CapFor(lim, e, cw, PrunedWidth(lim, e, cw)), CapFor(lim, e, cw, UnprunedWidth(lim, e, cw));
            var pruned, full := Eval(lim, e, w, SignOf(e), env), Eval(lim, e, w', SignOf(e), env);
            var k := if w' < cw then w' else cw;
            && (full.Some? ==> pruned.Some? && Low(pruned.value, k) == Low(full.value, k))
            && (!NarrowsInside(lim, e) && CapHarmless(lim, e, cw) ==> pruned.Some? == full.Some?)
            && (cw <= lim.widthCap ==> k == cw)
  {
    var w := CapFor(lim, e, cw, PrunedWidth(lim, e, cw));
    var w' := CapFor(lim, e, cw, UnprunedWidth(lim, e, cw));
    SignAndMin(lim, e, Sized);
    if w != w' {
      assert MinOf(e).Fin?;
      if !NarrowsInside(lim, e) { UnprunedCovers(lim, e, cw); }
      if w < w' {
        AssignmentAgrees(lim, e, w, w', cw, env);
      } else {
        assert NarrowsInside(lim, e) || w' < cw;
        if Eval(lim, e, w', SignOf(e), env).Some? || MinOf(e).n <= w' {
          AssignmentAgrees(lim, e, w', w, if w' < cw then w' else cw, env);
        }
      }
    }
  }

  lemma UnprunedCovers(lim: Limits, e: Expr, cw: nat)
    requires MinOf(e).Fin? && !NarrowsInside(lim, e)
    ensures MinOf(e).n <= UnprunedWidth(lim, e, cw)
  {
    TwoPass(lim, e, Sized);
    FieldWidth(lim, e, Sized);
    WidthCovers(lim, e, TestWidth(lim, e, Sized).mode);
  }

  lemma AssignmentAgrees(lim: Limits, e: Expr, w: nat, w': nat, cw: nat, env: Env)
    requires MinOf(e).Fin? && cw <= w <= w' && MinMaxSafe(e, SignOf(e))
    requires MinOf(e).n <= w || (NoMinMax(e) && Eval(lim, e, w, SignOf(e), env).Some?)
    ensures var a, b := Eval(lim, e, w, SignOf(e), env), Eval(lim, e, w', SignOf(e), env);
            a.Some? == b.Some? && (a.Some? ==> Low(a.value, cw) == Low(b.value, cw))
  {
    PrunedAgrees(lim, e, w, w', SignOf(e), env);
    var b := Eval(lim, e, w', SignOf(e), env);
    if b.Some? {
      LowLow(b.value, w, cw);
    }
  }

  // ------------------------------------- widths that do not cover an operand

  /** The lossless width of shift or power e is smaller than the width of its left operand. */
  predicate Narrows(lim: Limits, e: Expr)
    requires e.Left?
  {
    var li, ri := TestWidth(lim, e.l, Sized), TestWidth(lim, e.r, Sized);
    LeftLossless(lim, e, li.ret, li.mode, li.signed, RightValue(lim, e.lop, ri.ret, ri.signed, e.rc)) < li.ret
  }

  /** The width formula of a shift or power e is used. */
  predicate ByFormula(e: Expr, lMode: Mode)
    requires e.Left?
  {
    (e.lop == Shl && lMode != Sized) || (e.lop == Pow && !(e.l.Num? && e.rc.Some?))
  }

  /** What it comes to. */
  function FormulaBits(lop: LeftOp, lw: nat, rv: nat, lSigned: bool): int {
    if lop == Shl then lw + rv else PowerBits(lw, rv, lSigned)
  }

  /**
   * When that happens: the right operand is not constant, so that the result is cut to integer width although
   * the left operand alone is wider; or the power has exponent zero, which makes an unsigned result 0 bits wide;
   * or the formula wraps around.
   */
  lemma NarrowsExactly(lim: Limits, e: Expr)
    requires e.Left? && lim.integerWidth >= 2
    ensures var li, ri := TestWidth(lim, e.l, Sized), TestWidth(lim, e.r, Sized);
            var rv := RightValue(lim, e.lop, ri.ret, ri.signed, e.rc);
            var bits := FormulaBits(e.lop, li.ret, rv, li.signed);
            Narrows(lim, e) <==> (
              && ByFormula(e, li.mode)
              && if 0 <= bits < UINT_RANGE then
                   || (e.rc.None? && li.ret > lim.integerWidth && rv >= if e.lop == Shl || li.signed then 1 else 2)
                   || (e.lop == Pow && rv == 0 && li.ret > if li.signed then 2 else 0)
                 else
                   || Unsigned(bits) < li.ret
                   || (e.rc.None? && Unsigned(bits) > li.ret > lim.integerWidth))
  {
    var li, ri := TestWidth(lim, e.l, Sized), TestWidth(lim, e.r, Sized);
    var rv := RightValue(lim, e.lop, ri.ret, ri.signed, e.rc);
    if ByFormula(e, li.mode) {
      FormulaNarrows(lim, e, li.ret, li.mode, li.signed, rv);
    }
  }

  lemma FormulaNarrows(lim: Limits, e: Expr, lw: nat, lMode: Mode, lSigned: bool, rv: nat)
    requires e.Left? && lim.integerWidth >= 2 && ByFormula(e, lMode)
    ensures var bits := FormulaBits(e.lop, lw, rv, lSigned);
            LeftLossless(lim, e, lw, lMode, lSigned, rv) < lw <==>
            if 0 <= bits < UINT_RANGE then
              || (e.rc.None? && lw > lim.integerWidth && rv >= if e.lop == Shl || lSigned then 1 else 2)
              || (e.lop == Pow && rv == 0 && lw > if lSigned then 2 else 0)
            else
              Unsigned(bits) < lw || (e.rc.None? && Unsigned(bits) > lw > lim.integerWidth)
  {
    FormulaGrows(e.lop, lw, rv, lSigned);
  }

  /** How the formula compares with the width of the left operand. */
  lemma FormulaGrows(lop: LeftOp, lw: nat, rv: nat, lSigned: bool)
    requires lop == Shl || lop == Pow
    ensures var bits := FormulaBits(lop, lw, rv, lSigned);
            && (lw > 2 ==> (bits > lw <==> rv >= if lop == Shl || lSigned then 1 else 2))
            && (bits >= 0 ==> (bits < lw <==> lop == Pow && rv == 0 && lw > if lSigned then 2 else 0))
  {
    var base := if lSigned then lw - 1 else lw;
    if lop == Pow && rv >= 1 && base >= 0 {
      TimesAtLeast(base, rv);
      TimesPrevious(base, rv);
      if rv >= 2 {
        TimesAtLeast(base, rv - 1);
      }
    }
  }

  lemma TimesPrevious(w: nat, r: nat)
    requires r >= 1
    ensures w * r == w + w * (r - 1)
  {
  }

  lemma TimesAtLeast(a: nat, b: nat)
    requires b >= 1
    ensures a * b >= a && (b == 1 ==> a * b == a)
  {
  }

  /** Some context-determined shift or power of e narrows. */
  predicate NarrowsInside(lim: Limits, e: Expr) {
    match e
    case Bin(_, l, r) => NarrowsInside(lim, l) || NarrowsInside(lim, r)
    case Left(_, l, _, _, _) => Narrows(lim, e) || NarrowsInside(lim, l)
    case Tern(_, t, f) => NarrowsInside(lim, t) || NarrowsInside(lim, f)
    case Un(_, e1) => NarrowsInside(lim, e1)
    case _ => false
  }

  /** The widest signal among the context-determined operands. */
  function WidestSignal(e: Expr): nat {
    match e
    case Sig(_, width, _) => width
    case Bin(_, l, r) => Greater(WidestSignal(l), WidestSignal(r))
    case Left(_, l, _, _, _) => WidestSignal(l)
    case Tern(_, t, f) => Greater(WidestSignal(t), WidestSignal(f))
    case Un(_, e1) => WidestSignal(e1)
    case _ => 0
  }

  /** Unless something narrows, the inferred width covers min_width and every context-determined signal. */
  lemma {:induction false} WidthCovers(lim: Limits, e: Expr, mode: Mode)
    requires !NarrowsInside(lim, e)
    ensures WidestSignal(e) <= WidthIn(lim, e, mode)
    ensures MinOf(e).Fin? ==> MinOf(e).n <= WidthIn(lim, e, mode)
  {
    match e
    case Bin(_, l, r) =>
      WidthCovers(lim, l, mode);
      WidthCovers(lim, r, mode);
      BinCovers(lim, e, mode);
    case Left(_, l, _, _, _) =>
      WidthCovers(lim, l, TestWidth(lim, l, Sized).mode);
      LeftCovers(lim, e, mode);
    case Tern(_, t, f) =>
      WidthCovers(lim, t, mode);
      WidthCovers(lim, f, mode);
    case Un(_, e1) =>
      WidthCovers(lim, e1, mode);
    case _ =>
  }

  lemma BinCovers(lim: Limits, e: Expr, mode: Mode)
    requires e.Bin?
    ensures WidthIn(lim, e, mode) >= WidthIn(lim, e.l, mode) && WidthIn(lim, e, mode) >= WidthIn(lim, e.r, mode)
  {
  }

  lemma LeftCovers(lim: Limits, e: Expr, mode: Mode)
    requires e.Left? && !Narrows(lim, e)
    ensures WidthIn(lim, e.l, TestWidth(lim, e.l, Sized).mode) <= WidthIn(lim, e, mode)
  {
    TwoPass(lim, e.l, Sized);
    SignAndMin(lim, e.l, Sized);
    SignAndMin(lim, e.r, Sized);
  }
}
