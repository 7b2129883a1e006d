/**
 * What the operands of an expression contribute to it: its sign, the smallest width at which it may be evaluated, and
 * its own width; and how much wider than its operands a sum, a difference or a product is made.
 */
module ExprOperands {
  import opened Options
  import opened PowersOfTwo
  import opened ExprWidth
  import opened ExprModes
  import opened ExprLossless

  /**
   * o is an operand of e that has its value from itself, and not from operands in the context of e. A shift or power
   * is one, too, unless we look through it at its left operand.
   */
  predicate IsOperand(e: Expr, o: Expr, through: bool) {
    match e
    case Bin(_, l, r) => IsOperand(l, o, through) || IsOperand(r, o, through)
    case Left(_, l, _, _, _) => if through then IsOperand(l, o, through) else o == e
    case Tern(_, t, f) => IsOperand(t, o, through) || IsOperand(f, o, through)
    case Un(_, e1) => IsOperand(e1, o, through)
    case _ => o == e
  }

  /** An expression is signed exactly when all that it is made of are signed literals and signals. */
  lemma {:induction false} SignedExactly(e: Expr)
    ensures SignOf(e) <==> forall o :: IsOperand(e, o, true) ==> (o.Num? || o.Sig?) && o.signed
  {
    match e
    case Bin(_, l, r) =>
      SignedExactly(l);
      SignedExactly(r);
      assert forall o :: IsOperand(e, o, true) <==> IsOperand(l, o, true) || IsOperand(r, o, true);
    case Left(_, l, _, _, _) =>
      SignedExactly(l);
      assert forall o :: IsOperand(e, o, true) <==> IsOperand(l, o, true);
    case Tern(_, t, f) =>
      SignedExactly(t);
      SignedExactly(f);
      assert forall o :: IsOperand(e, o, true) <==> IsOperand(t, o, true) || IsOperand(f, o, true);
    case Un(_, e1) =>
      SignedExactly(e1);
      assert forall o :: IsOperand(e, o, true) <==> IsOperand(e1, o, true);
    case _ =>
      assert IsOperand(e, e, true);
  }

  /** The bits that an operand has, as it is written */
  function BitsOf(o: Expr): nat {
    if o.Num? then o.len else if o.Sig? then o.width else 1
  }

  ghost predicate LargestBits(e: Expr, n: nat) {
    && (exists o :: IsOperand(e, o, true) && BitsOf(o) == n)
    && (forall o :: IsOperand(e, o, true) ==> BitsOf(o) <= n)
  }

  /** Where pruning is allowed, it is allowed down to the largest of the operands, and no further. */
  lemma {:induction false} MinIsLargest(e: Expr)
    ensures MinOf(e).Fin? ==> LargestBits(e, MinOf(e).n)
  {
    match e
    case Bin(_, l, r) =>
      MinIsLargest(l);
      MinIsLargest(r);
      LargestOfTwo(e, l, r);
    case Left(_, l, _, _, _) =>
      MinIsLargest(l);
      LargestOfTwo(e, l, l);
    case Tern(_, t, f) =>
      MinIsLargest(t);
      MinIsLargest(f);
      LargestOfTwo(e, t, f);
    case Un(_, e1) =>
      MinIsLargest(e1);
      LargestOfTwo(e, e1, e1);
    case _ =>
      assert IsOperand(e, e, true);
  }

  lemma LargestOfTwo(e: Expr, a: Expr, b: Expr)
    requires forall o :: IsOperand(e, o, true) <==> IsOperand(a, o, true) || IsOperand(b, o, true)
    ensures forall m: nat, n: nat :: LargestBits(a, m) && LargestBits(b, n) ==>
              LargestBits(e, if m >= n then m else n)
  {
  }

  // ----------------------------------------------------------------- widths

  /** The width that an operand supplies: an unsized literal has integer width at least, unless the mode is lossless. */
  function Supplies(lim: Limits, o: Expr, lossless: bool): nat {
    match o
    case Num(_, len, sized, _, single) =>
      if !sized && !single && !lossless && len < lim.integerWidth then lim.integerWidth else len
    case Sig(_, width, _) => width
    case Left(_, l, _, _, _) => TestWidth(lim, l, Sized).ret
    case _ => 1
  }

  ghost predicate Widest(lim: Limits, e: Expr, lossless: bool, w: nat) {
    && (exists o :: IsOperand(e, o, false) && Supplies(lim, o, lossless) == w)
    && (forall o :: IsOperand(e, o, false) ==> Supplies(lim, o, lossless) <= w)
  }

  /** No operator is made wider than its operands, in any mode. */
  predicate NeverWider(lim: Limits, e: Expr) {
    match e
    case Bin(op, l, r) => op != Add && op != Sub && op != Mul && NeverWider(lim, l) && NeverWider(lim, r)
    case Left(op, l, _, _, _) => op == Shr || op == Ashr || (op == Shl && TestWidth(lim, l, Sized).mode == Sized)
    case Tern(_, t, f) => NeverWider(lim, t) && NeverWider(lim, f)
    case Un(_, e1) => NeverWider(lim, e1)
    case _ => true
  }

  lemma {:induction false} WidthIsWidest(lim: Limits, e: Expr, mode: Mode)
    requires Rank(mode) < Rank(Expand) || NeverWider(lim, e)
    ensures Widest(lim, e, Rank(mode) >= Rank(Lossless), WidthIn(lim, e, mode))
  {
    var lossless := Rank(mode) >= Rank(Lossless);
    match e
    case Bin(_, l, r) =>
      WidthIsWidest(lim, l, mode);
      WidthIsWidest(lim, r, mode);
      WidestOfTwo(lim, e, l, r, lossless, WidthIn(lim, l, mode), WidthIn(lim, r, mode));
    case Left(_, l, _, _, _) =>
      assert IsOperand(e, e, false);
    case Tern(_, t, f) =>
      WidthIsWidest(lim, t, mode);
      WidthIsWidest(lim, f, mode);
      WidestOfTwo(lim, e, t, f, lossless, WidthIn(lim, t, mode), WidthIn(lim, f, mode));
    case Un(_, e1) =>
      WidthIsWidest(lim, e1, mode);
      WidestOfTwo(lim, e, e1, e1, lossless, WidthIn(lim, e1, mode), WidthIn(lim, e1, mode));
    case _ =>
      assert IsOperand(e, e, false);
  }

  lemma WidestOfTwo(lim: Limits, e: Expr, a: Expr, b: Expr, lossless: bool, m: nat, n: nat)
    requires forall o :: IsOperand(e, o, false) <==> IsOperand(a, o, false) || IsOperand(b, o, false)
    requires Widest(lim, a, lossless, m) && Widest(lim, b, lossless, n)
    ensures Widest(lim, e, lossless, if m >= n then m else n)
  {
  }

  /**
   * As long as inference stays SIZED or UNSIZED the width is that of the widest operand; and so it is in every mode
   * where there are no sums, differences, products, powers and shifts to the left.
   */
  lemma WidestOperand(lim: Limits, e: Expr, mode: Mode)
    ensures var i := TestWidth(lim, e, mode);
            Rank(i.mode) < Rank(Expand) || NeverWider(lim, e) ==>
              Widest(lim, e, Rank(i.mode) >= Rank(Lossless), i.ret)
  {
    TwoPass(lim, e, mode);
    var m := TestWidth(lim, e, mode).mode;
    if Rank(m) < Rank(Expand) || NeverWider(lim, e) {
      WidthIsWidest(lim, e, m);
    }
  }

  /** Operands of a comparison that is not inferred lossless are evaluated at the width of the widest of both. */
  lemma ComparedPlainly(lim: Limits, l: Expr, r: Expr, n: nat)
    requires Rank(CompMode(lim, l, r)) < Rank(Lossless)
    ensures CompWidths(lim, l, r) == (n, n) <==> Widest(lim, Bin(And, l, r), false, n)
  {
    PairTwoPass(lim, r, l, Sized);
    var m := CompMode(lim, l, r);
    assert m == PairMode(lim, r, l, Sized) && Reaches(Sized, m);
    WidthIsWidest(lim, Bin(And, l, r), m);
    assert CompWidths(lim, l, r).0 == CompWidths(lim, l, r).1 == WidthIn(lim, Bin(And, l, r), m);
  }

  // ------------------------------------------------ sums, differences, products

  ghost predicate SumsFit(w: nat, w': nat, n: nat, sg: bool) {
    forall u, v :: InRange(u, w, sg) && InRange(v, w', sg) ==> InRange(u + v, n, sg)
  }

  /** A difference can be negative whatever the sign of its operands. */
  ghost predicate DifferencesFit(w: nat, w': nat, n: nat, sg: bool) {
    forall u, v :: InRange(u, w, sg) && InRange(v, w', sg) ==> InRange(u - v, n, true)
  }

  ghost predicate ProductsFit(w: nat, w': nat, n: nat, sg: bool) {
    forall u, v :: InRange(u, w, sg) && InRange(v, w', sg) ==> InRange(u * v, n, sg)
  }

  lemma HighestInRange(w: nat, sg: bool)
    requires w >= 1
    ensures InRange(Pow2(if sg then w - 1 else w) - 1, w, sg) && InRange(if sg then -Pow2(w - 1) else 0, w, sg)
    ensures InRange(if sg then 0 else 1, w, sg) && Pow2(w) == 2 * Pow2(w - 1)
  {
  }

  lemma BelowInRange(n: nat, m: nat)
    ensures n < m ==> Pow2(n) <= Pow2(m - 1)
  {
    if n < m {
      Pow2Monotone(n, m - 1);
    }
  }

  lemma LeastForSums(w: nat, w': nat, n: nat, sg: bool)
    requires w >= 1 && w' >= 1
    ensures SumsFit(w, w', n, sg) <==> n > w && n > w'
  {
    HighestInRange(w, sg);
    HighestInRange(w', sg);
    if n > w && n > w' {
      forall u, v | InRange(u, w, sg) && InRange(v, w', sg)
        ensures InRange(u + v, n, sg)
      {
        SumFits(u, v, w, w', sg);
        WithinWidens(u + v, Greater(w, w') + 1, n, sg);
      }
    } else {
      var m, m' := if w >= w' then w else w', if w >= w' then w' else w;
      var u, v := if sg then -Pow2(w - 1) else Pow2(w) - 1, if sg then -Pow2(w' - 1) else Pow2(w') - 1;
      BelowInRange(n, m + 1);
      if sg && n > 0 { Pow2Monotone(n - 1, m - 1); }
      assert !InRange(u + v, n, sg);
    }
  }

  lemma LeastForDifferences(w: nat, w': nat, n: nat, sg: bool)
    requires w >= 1 && w' >= 1
    ensures DifferencesFit(w, w', n, sg) <==> n > w && n > w'
  {
    HighestInRange(w, sg);
    HighestInRange(w', sg);
    if n > w && n > w' {
      Pow2Monotone(w, n - 1);
      Pow2Monotone(w', n - 1);
      forall u, v | InRange(u, w, sg) && InRange(v, w', sg)
        ensures InRange(u - v, n, true)
      {
      }
    } else if n > 0 {
      var high, low := Pow2(if sg then w - 1 else w) - 1, if sg then -Pow2(w' - 1) else 0;
      var least, most := if sg then -Pow2(w - 1) else 0, Pow2(if sg then w' - 1 else w') - 1;
      if n <= w { Pow2Monotone(n - 1, w - 1); } else { Pow2Monotone(n - 1, w' - 1); }
      assert !InRange(high - low, n, true) || !InRange(least - most, n, true);
    } else {
      assert !InRange(Pow2(if sg then w - 1 else w) - 1 - (if sg then 0 else 1), n, true);
    }
  }

  lemma LeastForSignedProducts(w: nat, w': nat, n: nat)
    requires w >= 1 && w' >= 1
    ensures ProductsFit(w, w', n, true) <==> n >= w + w'
  {
    HighestInRange(w, true);
    HighestInRange(w', true);
    if n >= w + w' {
      forall u, v | InRange(u, w, true) && InRange(v, w', true)
        ensures InRange(u * v, n, true)
      {
        ProductFits(u, v, w, w', true);
        WithinWidens(u * v, w + w', n, true);
      }
    } else {
      Pow2Add(w - 1, w' - 1);
      var u, v := -Pow2(w - 1), -Pow2(w' - 1);
      NegatedTwice(Pow2(w - 1), Pow2(w' - 1));
      if n > 0 { Pow2Monotone(n - 1, w - 1 + (w' - 1)); }
      assert !InRange(u * v, n, true);
    }
  }

  lemma NegatedTwice(a: int, b: int)
    ensures (-a) * (-b) == a * b
  {
  }

  lemma LeastForUnsignedProducts(w: nat, w': nat, n: nat)
    requires w >= 2 && w' >= 2
    ensures ProductsFit(w, w', n, false) <==> n >= w + w'
  {
    HighestInRange(w, false);
    HighestInRange(w', false);
    if n >= w + w' {
      forall u, v | InRange(u, w, false) && InRange(v, w', false)
        ensures InRange(u * v, n, false)
      {
        ProductFits(u, v, w, w', false);
        MonotoneProduct(u, v, u, v);
        WithinWidens(u * v, w + w', n, false);
      }
    } else {
      HighestProduct(w, w');
      Pow2Monotone(n, w + w' - 1);
      assert !InRange((Pow2(w) - 1) * (Pow2(w') - 1), n, false);
    }
  }

  lemma HighestProduct(w: nat, w': nat)
    requires w >= 2 && w' >= 2
    ensures (Pow2(w) - 1) * (Pow2(w') - 1) >= Pow2(w + w' - 1)
  {
    var p, q := Pow2(w - 1), Pow2(w' - 1);
    Pow2Monotone(1, w - 1);
    Pow2Monotone(1, w' - 1);
    assert Pow2(1) == 2;
    Pow2Add(w - 1, w' - 1);
    assert w + w' - 1 == (w - 1 + (w' - 1)) + 1;
    assert Pow2(w + w' - 1) == 2 * (p * q);
    assert Pow2(w) == 2 * p && Pow2(w') == 2 * q;
    ExpandedProduct(p, q);
  }

  lemma ExpandedProduct(p: int, q: int)
    requires p >= 2 && q >= 2
    ensures (2 * p - 1) * (2 * q - 1) >= 2 * (p * q)
  {
    assert (2 * p - 1) * (2 * q - 1) == 4 * (p * q) - 2 * p - 2 * q + 1;
    assert (p - 1) * (q - 1) >= 1;
    assert (p - 1) * (q - 1) == p * q - p - q + 1;
  }

  /**
   * In EXPAND mode and above a sum, difference or product is given exactly the bits that it can need, for any operands
   * of the widths that its own have. (A product of an unsigned bit is given one bit more than it needs.)
   */
  lemma GrowsByNeed(lim: Limits, op: BinOp, l: Expr, r: Expr, mode: Mode, sg: bool, w: nat, w': nat, n: nat)
    requires (op == Add || op == Sub || op == Mul) && Rank(TestWidth(lim, Bin(op, l, r), mode).mode) >= Rank(Expand)
    requires var m := TestWidth(lim, Bin(op, l, r), mode).mode;
             w == WidthIn(lim, l, m) >= 1 && w' == WidthIn(lim, r, m) >= 1
    ensures var ret := TestWidth(lim, Bin(op, l, r), mode).ret;
            && (op == Add ==> (SumsFit(w, w', n, sg) <==> n >= ret))
            && (op == Sub ==> (DifferencesFit(w, w', n, sg) <==> n >= ret))
            && (op == Mul && (sg || (w >= 2 && w' >= 2)) ==> (ProductsFit(w, w', n, sg) <==> n >= ret))
  {
    TwoPass(lim, Bin(op, l, r), mode);
    if op == Add {
      LeastForSums(w, w', n, sg);
    } else if op == Sub {
      LeastForDifferences(w, w', n, sg);
    } else if sg {
      LeastForSignedProducts(w, w', n);
    } else if w >= 2 && w' >= 2 {
      LeastForUnsignedProducts(w, w', n);
    }
  }

  // ------------------------------------------------------- shifts and powers

  /** A shift or power looks at the mode of its left operand in SIZED mode only, and never at that of its right one. */
  lemma ShiftMode(lim: Limits, e: Expr, mode: Mode)
    requires e.Left?
    ensures var from := if mode == Sized then TestWidth(lim, e.l, Sized).mode else mode;
            TestWidth(lim, e, mode).mode ==
            if from == Lossless && (e.lop == Shr || e.lop == Ashr) && SignOf(e.l) then Upsize else from
  {
    SignAndMin(lim, e.l, Sized);
  }

  /** The left operand's width is kept below EXPAND, by shifts to the right, and by those of a sized operand. */
  lemma LeftWidthKept(lim: Limits, e: Expr, mode: Mode)
    requires e.Left? && (Rank(TestWidth(lim, e, mode).mode) < Rank(Expand) || NeverWider(lim, e))
    ensures TestWidth(lim, e, mode).ret == TestWidth(lim, e.l, Sized).ret
  {
    WidestOperand(lim, e, mode);
    assert forall o :: IsOperand(e, o, false) <==> o == e;
  }
}
