/**
 * What threading the mode through the tree, with its single retest of the first operand, amounts to:
 * every width is the one that the final mode calls for.
 */
module ExprModes {
  import opened Options
  import opened PowersOfTwo
  import opened ExprWidth

  /** The signedness of an expression: signed when all its context-determined operands are. */
  function SignOf(e: Expr): bool {
    match e
    case Num(_, _, _, signed, _) => signed
    case Sig(_, _, signed) => signed
    case Bin(_, l, r) => SignOf(l) && SignOf(r)
    case Left(_, l, _, _, _) => SignOf(l)
    case Comp(_, _, _) => false
    case Logic(_, _, _) => false
    case Tern(_, t, f) => SignOf(t) && SignOf(f)
    case Un(_, e1) => SignOf(e1)
    case Red(_, _) => false
  }

  /** The smallest width that is safe for an expression, if any narrower one than its own is. */
  function MinOf(e: Expr): MinWidth {
    match e
    case Num(_, len, _, _, _) => Fin(len)
    case Sig(_, width, _) => Fin(width)
    case Bin(op, l, r) => if op == Div || op == Mod then NoPruning else GreaterMin(MinOf(l), MinOf(r))
    case Left(op, l, _, _, _) => if op == Shl then MinOf(l) else NoPruning
    case Comp(_, _, _) => Fin(1)
    case Logic(_, _, _) => Fin(1)
    case Tern(_, t, f) => GreaterMin(MinOf(t), MinOf(f))
    case Un(_, e1) => MinOf(e1)
    case Red(_, _) => Fin(1)
  }

  /** The width of an expression in one fixed mode: no threading, no retest. */
  function WidthIn(lim: Limits, e: Expr, mode: Mode): nat {
    match e
    case Num(_, len, _, _, _) =>
      if SmallLiteral(lim, e) && Rank(mode) < Rank(Lossless) then lim.integerWidth else len
    case Sig(_, width, _) => width
    case Bin(op, l, r) =>
      var lw, rw := WidthIn(lim, l, mode), WidthIn(lim, r, mode);
      if Rank(mode) < Rank(Expand) then Greater(lw, rw)
      else if op == Add || op == Sub then Greater(lw, rw) + 1
      else if op == Mul then lw + rw
      else Greater(lw, rw)
    case Left(op, l, r, rc, _) =>
      var li, ri := TestWidth(lim, l, Sized), TestWidth(lim, r, Sized);
      if Rank(mode) < Rank(Expand) then li.ret
      else LeftLossless(lim, e, li.ret, li.mode, SignOf(l), RightValue(lim, op, ri.ret, SignOf(r), rc))
    case Comp(_, _, _) => 1
    case Logic(_, _, _) => 1
    case Tern(_, t, f) => Greater(WidthIn(lim, t, mode), WidthIn(lim, f, mode))
    case Un(_, e1) => WidthIn(lim, e1, mode)
    case Red(_, _) => 1
  }

  lemma {:induction false} SignAndMin(lim: Limits, e: Expr, mode: Mode)
    ensures TestWidth(lim, e, mode).signed == SignOf(e)
    ensures TestWidth(lim, e, mode).min == MinOf(e)
  {
    match e
    case Bin(_, l, r) =>
      SignAndMin(lim, r, mode);
      SignAndMin(lim, l, TestWidth(lim, r, mode).mode);
      SignAndMin(lim, r, TestWidth(lim, l, TestWidth(lim, r, mode).mode).mode);
    case Tern(_, t, f) =>
      SignAndMin(lim, t, mode);
      SignAndMin(lim, f, TestWidth(lim, t, mode).mode);
      SignAndMin(lim, t, TestWidth(lim, f, TestWidth(lim, t, mode).mode).mode);
    case Left(_, l, r, _, _) =>
      SignAndMin(lim, l, Sized);
    case Un(_, e1) =>
      SignAndMin(lim, e1, mode);
    case _ =>
  }

  /** Modes that are not told apart by any width. */
  predicate SameWidths(a: Mode, b: Mode) {
    || a == b
    || (Rank(a) < Rank(Expand) && Rank(b) < Rank(Expand))
    || (Rank(a) >= Rank(Lossless) && Rank(b) >= Rank(Lossless))
  }

  lemma {:induction false} WidthInSame(lim: Limits, e: Expr, a: Mode, b: Mode)
    requires SameWidths(a, b)
    ensures WidthIn(lim, e, a) == WidthIn(lim, e, b)
  {
    match e
    case Bin(_, l, r) =>
      WidthInSame(lim, l, a, b);
      WidthInSame(lim, r, a, b);
    case Tern(_, t, f) =>
      WidthInSame(lim, t, a, b);
      WidthInSame(lim, f, a, b);
    case Un(_, e1) =>
      WidthInSame(lim, e1, a, b);
    case _ =>
  }

  /** A mode can become `to` from `from` in the course of a test. */
  predicate Reaches(from: Mode, to: Mode) {
    Rank(from) <= Rank(to) && (to == Expand ==> from == Expand)
  }

  /**
   * The threaded inference is a single pass in its final mode: whatever operand changed the mode, every
   * operand ends up with the width that the final mode gives it. The mode never decreases.
   */
  lemma {:induction false} TwoPass(lim: Limits, e: Expr, mode: Mode)
    ensures Reaches(mode, TestWidth(lim, e, mode).mode)
    ensures TestWidth(lim, e, mode).ret == WidthIn(lim, e, TestWidth(lim, e, mode).mode)
    decreases Size(e)
  {
    match e
    case Bin(_, l, r) =>
      PairTwoPass(lim, r, l, mode);
      BinTwoPass(lim, e, mode);
    case Tern(_, t, f) =>
      PairTwoPass(lim, t, f, mode);
      TernTwoPass(lim, e, mode);
    case Left(_, l, r, _, _) =>
      SignAndMin(lim, l, Sized);
      SignAndMin(lim, r, Sized);
      TwoPass(lim, l, Sized);
    case Un(_, e1) =>
      TwoPass(lim, e1, mode);
    case Red(_, e1) =>
      TwoPass(lim, e1, mode);
    case _ =>
  }

  /** The operands of a pair have the widths of the mode after the pair. */
  ghost predicate PairSettled(lim: Limits, a: Expr, b: Expr, mode: Mode) {
    var a1 := TestWidth(lim, a, mode);
    var b1 := TestWidth(lim, b, a1.mode);
    var (ai, bi, m) := Pair(a1, b1, TestWidth(lim, a, b1.mode));
    Reaches(mode, m) && ai.ret == WidthIn(lim, a, m) && bi.ret == WidthIn(lim, b, m)
  }

  lemma BinTwoPass(lim: Limits, e: Expr, mode: Mode)
    requires e.Bin? && PairSettled(lim, e.r, e.l, mode)
    ensures Reaches(mode, TestWidth(lim, e, mode).mode)
    ensures TestWidth(lim, e, mode).ret == WidthIn(lim, e, TestWidth(lim, e, mode).mode)
  {
    var out := TestWidth(lim, e, mode).mode;
    WidthInSame(lim, e.l, PairMode(lim, e.r, e.l, mode), out);
    WidthInSame(lim, e.r, PairMode(lim, e.r, e.l, mode), out);
  }

  lemma TernTwoPass(lim: Limits, e: Expr, mode: Mode)
    requires e.Tern? && PairSettled(lim, e.t, e.f, mode)
    ensures Reaches(mode, TestWidth(lim, e, mode).mode)
    ensures TestWidth(lim, e, mode).ret == WidthIn(lim, e, TestWidth(lim, e, mode).mode)
  {
    var out := TestWidth(lim, e, mode).mode;
    WidthInSame(lim, e.t, PairMode(lim, e.t, e.f, mode), out);
    WidthInSame(lim, e.f, PairMode(lim, e.t, e.f, mode), out);
  }

  /** The number of nodes of an expression. */
  function Size(e: Expr): (r: nat)
    ensures r > 0
  {
    match e
    case Num(_, _, _, _, _) => 1
    case Sig(_, _, _) => 1
    case Bin(_, l, r) => 1 + Size(l) + Size(r)
    case Left(_, l, r, _, _) => 1 + Size(l) + Size(r)
    case Comp(_, l, r) => 1 + Size(l) + Size(r)
    case Logic(_, l, r) => 1 + Size(l) + Size(r)
    case Tern(c, t, f) => 1 + Size(c) + Size(t) + Size(f)
    case Un(_, e1) => 1 + Size(e1)
    case Red(_, e1) => 1 + Size(e1)
  }

  /** The mode after testing a, then b, then a again if that is called for. */
  function PairMode(lim: Limits, a: Expr, b: Expr, mode: Mode): Mode {
    var a1 := TestWidth(lim, a, mode);
    var b1 := TestWidth(lim, b, a1.mode);
    Pair(a1, b1, TestWidth(lim, a, b1.mode)).2
  }

  lemma {:induction false} PairTwoPass(lim: Limits, a: Expr, b: Expr, mode: Mode)
    ensures PairSettled(lim, a, b, mode)
    decreases Size(a) + Size(b)
  {
    var a1 := TestWidth(lim, a, mode);
    var b1 := TestWidth(lim, b, a1.mode);
    TwoPass(lim, a, mode);
    TwoPass(lim, b, a1.mode);
    TwoPass(lim, a, b1.mode);
    var m := PairMode(lim, a, b, mode);
    WidthInSame(lim, b, b1.mode, m);
    if Rank(b1.mode) < Rank(Lossless) {
      WidthInSame(lim, a, a1.mode, m);
    } else {
      WidthInSame(lim, a, TestWidth(lim, a, b1.mode).mode, m);
      WidthInSame(lim, a, a1.mode, if Rank(a1.mode) >= Rank(Lossless) then m else a1.mode);
    }
  }

  // ------------------------------------------------------------- fixpoint

  predicate FixesWidth(e: Expr) {
    e.Bin? || e.Left? || e.Tern? || e.Un?
  }

  /** The width left in the node: the returned one, widened in UPSIZE mode by the operators that do so. */
  lemma FieldWidth(lim: Limits, e: Expr, mode: Mode)
    ensures var i := TestWidth(lim, e, mode);
            i.width == if FixesWidth(e) then FixWidth(lim, i.ret, i.mode) else i.ret
  {
  }

  /** A change of mode, given by what each mode becomes. */
  datatype ModeTable = ModeTable(sized: Mode, unsized: Mode, expand: Mode, lossless: Mode, upsize: Mode)

  function At(t: ModeTable, m: Mode): Mode {
    match m
    case Sized => t.sized
    case Unsized => t.unsized
    case Expand => t.expand
    case Lossless => t.lossless
    case Upsize => t.upsize
  }

  /**
   * The mode never decreases, each change ends where it would stay, and a context found UNSIZED behaves
   * like one found SIZED that stays low. Above SIZED a change stays put or ends like one from LOSSLESS.
   */
  predicate Stable(t: ModeTable) {
    && (forall m :: Reaches(m, At(t, m)) && At(t, At(t, m)) == At(t, m))
    && (Rank(t.sized) < Rank(Expand) ==> t.unsized == Unsized)
    && (t.unsized == Unsized || t.unsized == t.lossless)
    && (t.expand == Expand || t.expand == t.lossless)
  }

  /** Operand a changes the mode by s, operand b by t; a is tested again when b made the context lossless. */
  function PairAt(s: ModeTable, t: ModeTable, bump: bool, m: Mode): Mode {
    var p := At(s, m);
    var q := At(t, p);
    var end := if Rank(q) >= Rank(Lossless) && Rank(p) < Rank(Lossless) then At(s, q) else q;
    if end == Lossless && bump then Upsize else end
  }

  function PairTable(s: ModeTable, t: ModeTable, bump: bool): ModeTable {
    ModeTable(PairAt(s, t, bump, Sized), PairAt(s, t, bump, Unsized), PairAt(s, t, bump, Expand),
              PairAt(s, t, bump, Lossless), PairAt(s, t, bump, Upsize))
  }

  /** One retest makes the pair stable when each operand is. */
  lemma PairStable(s: ModeTable, t: ModeTable, bump: bool)
    requires Stable(s) && Stable(t)
    ensures Stable(PairTable(s, t, bump))
  {
    var u := PairTable(s, t, bump);
    forall m
      ensures Reaches(m, At(u, m)) && At(u, At(u, m)) == At(u, m)
    {
      PairStableAt(s, t, bump, m);
    }
    assert Reaches(Sized, s.sized) && Reaches(s.sized, At(t, s.sized));
  }

  lemma PairStableAt(s: ModeTable, t: ModeTable, bump: bool, m: Mode)
    requires Stable(s) && Stable(t)
    ensures Reaches(m, PairAt(s, t, bump, m))
    ensures PairAt(s, t, bump, PairAt(s, t, bump, m)) == PairAt(s, t, bump, m)
  {
  }

  /** t is what test_width of e does to the mode. */
  ghost predicate Changes(lim: Limits, e: Expr, t: ModeTable) {
    forall m :: TestWidth(lim, e, m).mode == At(t, m)
  }

  /** The mode change of an operand that passes no mode on to others. */
  function LeafTable(lim: Limits, e: Expr, li: Info): ModeTable {
    if e.Left? then
      ModeTable(LeftMode(e, Sized, li.mode, li.signed), LeftMode(e, Unsized, li.mode, li.signed),
                LeftMode(e, Expand, li.mode, li.signed), LeftMode(e, Lossless, li.mode, li.signed),
                LeftMode(e, Upsize, li.mode, li.signed))
    else if BigLiteral(lim, e) then ModeTable(Lossless, Lossless, Lossless, Lossless, Upsize)
    else if SmallLiteral(lim, e) then ModeTable(Unsized, Unsized, Expand, Lossless, Upsize)
    else ModeTable(Sized, Unsized, Expand, Lossless, Upsize)
  }

  lemma LeafStable(lim: Limits, e: Expr) returns (t: ModeTable)
    requires !e.Bin? && !e.Tern? && !e.Un? && !e.Red?
    ensures Stable(t) && Changes(lim, e, t)
  {
    var li := TestWidth(lim, if e.Left? then e.l else e, Sized);
    t := LeafTable(lim, e, li);
    if e.Left? {
      TwoPass(lim, e.l, Sized);
    }
    forall m
      ensures TestWidth(lim, e, m).mode == At(t, m)
    {
    }
  }

  lemma PairTableAt(s: ModeTable, t: ModeTable, bump: bool, m: Mode)
    ensures At(PairTable(s, t, bump), m) == PairAt(s, t, bump, m)
    ensures PairAt(s, t, bump, m) ==
            if PairAt(s, t, false, m) == Lossless && bump then Upsize else PairAt(s, t, false, m)
  {
  }

  lemma BinChange(lim: Limits, e: Expr, first: ModeTable, second: ModeTable, m: Mode)
    requires e.Bin? && Changes(lim, e.r, first) && Changes(lim, e.l, second)
    ensures TestWidth(lim, e, m).mode == At(PairTable(first, second, SignOf(e.l) != SignOf(e.r)), m)
  {
    PairTableAt(first, second, SignOf(e.l) != SignOf(e.r), m);
    PairModeAt(lim, e.r, e.l, first, second, m);
    BinMode(lim, e, m);
  }

  lemma TernChange(lim: Limits, e: Expr, first: ModeTable, second: ModeTable, m: Mode)
    requires e.Tern? && Changes(lim, e.t, first) && Changes(lim, e.f, second)
    ensures TestWidth(lim, e, m).mode == At(PairTable(first, second, SignOf(e.t) != SignOf(e.f)), m)
  {
    PairTableAt(first, second, SignOf(e.t) != SignOf(e.f), m);
    PairModeAt(lim, e.t, e.f, first, second, m);
    TernMode(lim, e, m);
  }

  lemma PassedChange(lim: Limits, e: Expr, t: ModeTable)
    requires (e.Un? || e.Red?) && Changes(lim, e.e, t)
    ensures Changes(lim, e, t)
  {
  }

  lemma {:induction false} ModeStable(lim: Limits, e: Expr) returns (t: ModeTable)
    ensures Stable(t) && Changes(lim, e, t)
  {
    match e
    case Bin(_, l, r) =>
      var first := ModeStable(lim, r);
      var second := ModeStable(lim, l);
      t := PairTable(first, second, SignOf(l) != SignOf(r));
      PairStable(first, second, SignOf(l) != SignOf(r));
      forall m
        ensures TestWidth(lim, e, m).mode == At(t, m)
      {
        BinChange(lim, e, first, second, m);
      }
    case Tern(_, a, b) =>
      var first := ModeStable(lim, a);
      var second := ModeStable(lim, b);
      t := PairTable(first, second, SignOf(a) != SignOf(b));
      PairStable(first, second, SignOf(a) != SignOf(b));
      forall m
        ensures TestWidth(lim, e, m).mode == At(t, m)
      {
        TernChange(lim, e, first, second, m);
      }
    case Un(_, e1) =>
      t := ModeStable(lim, e1);
      PassedChange(lim, e, t);
    case Red(_, e1) =>
      t := ModeStable(lim, e1);
      PassedChange(lim, e, t);
    case _ =>
      t := LeafStable(lim, e);
  }

  lemma PairModeAt(lim: Limits, a: Expr, b: Expr, s: ModeTable, t: ModeTable, m: Mode)
    requires Changes(lim, a, s) && Changes(lim, b, t)
    ensures PairMode(lim, a, b, m) == PairAt(s, t, false, m)
  {
  }

  lemma BinMode(lim: Limits, e: Expr, mode: Mode)
    requires e.Bin?
    ensures var m := PairMode(lim, e.r, e.l, mode);
            TestWidth(lim, e, mode).mode == if m == Lossless && SignOf(e.l) != SignOf(e.r) then Upsize else m
  {
    var r1 := TestWidth(lim, e.r, mode);
    var l1 := TestWidth(lim, e.l, r1.mode);
    SignAndMin(lim, e.r, mode);
    SignAndMin(lim, e.l, r1.mode);
    SignAndMin(lim, e.r, l1.mode);
  }

  lemma TernMode(lim: Limits, e: Expr, mode: Mode)
    requires e.Tern?
    ensures var m := PairMode(lim, e.t, e.f, mode);
            TestWidth(lim, e, mode).mode == if m == Lossless && SignOf(e.t) != SignOf(e.f) then Upsize else m
  {
    var t1 := TestWidth(lim, e.t, mode);
    var f1 := TestWidth(lim, e.f, t1.mode);
    SignAndMin(lim, e.t, mode);
    SignAndMin(lim, e.f, t1.mode);
    SignAndMin(lim, e.t, f1.mode);
  }

  /** Testing an expression again from the mode it ended in changes nothing: one retest is enough. */
  lemma RetestChangesNothing(lim: Limits, e: Expr, mode: Mode)
    ensures TestWidth(lim, e, TestWidth(lim, e, mode).mode) == TestWidth(lim, e, mode)
  {
    var m := TestWidth(lim, e, mode).mode;
    var t := ModeStable(lim, e);
    assert m == At(t, mode) && TestWidth(lim, e, m).mode == At(t, m);
    TwoPass(lim, e, mode);
    TwoPass(lim, e, m);
    FieldWidth(lim, e, mode);
    FieldWidth(lim, e, m);
    SignAndMin(lim, e, mode);
    SignAndMin(lim, e, m);
  }

  /** LOSSLESS and UPSIZE return the same width; UPSIZE only widens what is left in the node. */
  lemma UpsizeReturnsLossless(lim: Limits, e: Expr)
    ensures TestWidth(lim, e, Lossless).ret == TestWidth(lim, e, Upsize).ret
    ensures forall mode ::
              var i := TestWidth(lim, e, mode);
              var widened := i.mode == Upsize && FixesWidth(e) && i.ret < lim.integerWidth;
              i.width == if widened then lim.integerWidth else i.ret
  {
    forall mode
      ensures var i := TestWidth(lim, e, mode);
              var widened := i.mode == Upsize && FixesWidth(e) && i.ret < lim.integerWidth;
              i.width == if widened then lim.integerWidth else i.ret
    {
      FieldWidth(lim, e, mode);
    }
    TwoPass(lim, e, Lossless);
    TwoPass(lim, e, Upsize);
    WidthInSame(lim, e, TestWidth(lim, e, Lossless).mode, Upsize);
  }

  // ------------------------------------------------------ order of operands

  /** No shift or power decides the mode of e. */
  predicate ShiftFree(e: Expr) {
    match e
    case Num(_, _, _, _, _) => true
    case Sig(_, _, _) => true
    case Bin(_, l, r) => ShiftFree(l) && ShiftFree(r)
    case Left(_, _, _, _, _) => false
    case Comp(_, _, _) => true
    case Logic(_, _, _) => true
    case Tern(_, t, f) => ShiftFree(t) && ShiftFree(f)
    case Un(_, e1) => ShiftFree(e1)
    case Red(_, e1) => ShiftFree(e1)
  }

  /** An unsized literal of at least integer width among the operands that the mode passes through. */
  predicate HasBig(lim: Limits, e: Expr) {
    match e
    case Num(_, _, _, _, _) => BigLiteral(lim, e)
    case Bin(_, l, r) => HasBig(lim, l) || HasBig(lim, r)
    case Tern(_, t, f) => HasBig(lim, t) || HasBig(lim, f)
    case Un(_, e1) => HasBig(lim, e1)
    case Red(_, e1) => HasBig(lim, e1)
    case _ => false
  }

  predicate HasSmall(lim: Limits, e: Expr) {
    match e
    case Num(_, _, _, _, _) => SmallLiteral(lim, e)
    case Bin(_, l, r) => HasSmall(lim, l) || HasSmall(lim, r)
    case Tern(_, t, f) => HasSmall(lim, t) || HasSmall(lim, f)
    case Un(_, e1) => HasSmall(lim, e1)
    case Red(_, e1) => HasSmall(lim, e1)
    case _ => false
  }

  /** Some operator coerces a signed operand to unsigned. */
  predicate HasMixed(e: Expr) {
    match e
    case Bin(_, l, r) => SignOf(l) != SignOf(r) || HasMixed(l) || HasMixed(r)
    case Tern(_, t, f) => SignOf(t) != SignOf(f) || HasMixed(t) || HasMixed(f)
    case Un(_, e1) => HasMixed(e1)
    case Red(_, e1) => HasMixed(e1)
    case _ => false
  }

  /** The final mode as the comments of test_width describe it, from the contents of the expression alone. */
  function DescribedMode(lim: Limits, mode: Mode, big: bool, small: bool, mixed: bool): Mode {
    if Rank(mode) >= Rank(Lossless) || big then
      if mode == Upsize || mixed then Upsize else Lossless
    else if mode == Sized && small then Unsized
    else mode
  }

  /** Without shifts and powers the threaded mode is the described one. */
  lemma {:induction false} ModeIsDescribed(lim: Limits, e: Expr, mode: Mode)
    requires ShiftFree(e)
    ensures TestWidth(lim, e, mode).mode == DescribedMode(lim, mode, HasBig(lim, e), HasSmall(lim, e), HasMixed(e))
    decreases Size(e)
  {
    match e
    case Bin(_, l, r) =>
      PairIsDescribed(lim, r, l, mode);
      BinMode(lim, e, mode);
    case Tern(_, t, f) =>
      PairIsDescribed(lim, t, f, mode);
      TernMode(lim, e, mode);
    case Un(_, e1) =>
      ModeIsDescribed(lim, e1, mode);
    case Red(_, e1) =>
      ModeIsDescribed(lim, e1, mode);
    case _ =>
  }

  lemma {:induction false} PairIsDescribed(lim: Limits, a: Expr, b: Expr, mode: Mode)
    requires ShiftFree(a) && ShiftFree(b)
    ensures PairMode(lim, a, b, mode) ==
            DescribedMode(lim, mode, HasBig(lim, a) || HasBig(lim, b), HasSmall(lim, a) || HasSmall(lim, b),
                          HasMixed(a) || HasMixed(b))
    decreases Size(a) + Size(b)
  {
    var p := TestWidth(lim, a, mode).mode;
    ModeIsDescribed(lim, a, mode);
    ModeIsDescribed(lim, b, p);
    ModeIsDescribed(lim, a, TestWidth(lim, b, p).mode);
    DescribedTwice(lim, mode, HasBig(lim, a), HasSmall(lim, a), HasMixed(a), HasBig(lim, b), HasSmall(lim, b),
                   HasMixed(b));
  }

  /** Two operands that each make the described mode of the mode before them make it of both together. */
  lemma DescribedTwice(lim: Limits, mode: Mode, big: bool, small: bool, mixed: bool, big': bool, small': bool,
                       mixed': bool)
    ensures var p := DescribedMode(lim, mode, big, small, mixed);
            var q := DescribedMode(lim, p, big', small', mixed');
            var again := Rank(q) >= Rank(Lossless) && Rank(p) < Rank(Lossless);
            (if again then DescribedMode(lim, q, big, small, mixed) else q)
              == DescribedMode(lim, mode, big || big', small || small', mixed || mixed')
  {
  }

  /** The whole outcome is determined by the expression and the final mode. */
  lemma InfoFromMode(lim: Limits, e: Expr, mode: Mode)
    ensures var m := TestWidth(lim, e, mode).mode;
            var w := WidthIn(lim, e, m);
            TestWidth(lim, e, mode) == Info(w, if FixesWidth(e) then FixWidth(lim, w, m) else w, MinOf(e), SignOf(e), m)
  {
    TwoPass(lim, e, mode);
    FieldWidth(lim, e, mode);
    SignAndMin(lim, e, mode);
  }

  lemma BothOrders(lim: Limits, op: BinOp, l: Expr, r: Expr, m: Mode)
    ensures WidthIn(lim, Bin(op, l, r), m) == WidthIn(lim, Bin(op, r, l), m)
    ensures MinOf(Bin(op, l, r)) == MinOf(Bin(op, r, l))
  {
  }

  /** Two operands change the mode in the same way in both orders, from every mode above SIZED. */
  lemma PairSymmetric(s: ModeTable, t: ModeTable, bump: bool, m: Mode)
    requires Stable(s) && Stable(t) && m != Sized
    ensures PairAt(s, t, bump, m) == PairAt(t, s, bump, m)
  {
  }

  /**
   * In a SIZED context one operand x turns out UNSIZED and the other, y, lossless; but y tested after x is not,
   * or is lossless in another way.
   */
  predicate LateOperand(x: ModeTable, y: ModeTable, mixed: bool) {
    && x.sized == Unsized && Rank(y.sized) >= Rank(Lossless)
    && (y.unsized == Unsized || (!mixed && y.unsized != y.sized && x.lossless == Lossless))
  }

  /** From SIZED the two orders differ exactly in these cases. */
  predicate OrderTable(s: ModeTable, t: ModeTable, mixed: bool) {
    || LateOperand(s, t, mixed)
    || LateOperand(t, s, mixed)
    || (!mixed && Rank(s.sized) >= Rank(Lossless) && Rank(t.sized) >= Rank(Lossless) &&
        (s.sized == Upsize || t.lossless == Upsize) != (t.sized == Upsize || s.lossless == Upsize))
  }

  lemma PairFromSized(s: ModeTable, t: ModeTable, bump: bool)
    requires Stable(s) && Stable(t)
    ensures PairAt(s, t, bump, Sized) == PairAt(t, s, bump, Sized) <==> !OrderTable(s, t, bump)
  {
  }

  /** The modes that an operand tested on its own ends in, from each mode. */
  function Alone(lim: Limits, e: Expr): ModeTable {
    ModeTable(TestWidth(lim, e, Sized).mode, TestWidth(lim, e, Unsized).mode, TestWidth(lim, e, Expand).mode,
              TestWidth(lim, e, Lossless).mode, TestWidth(lim, e, Upsize).mode)
  }

  lemma AloneStable(lim: Limits, e: Expr)
    ensures Stable(Alone(lim, e)) && Changes(lim, e, Alone(lim, e))
  {
    var t := ModeStable(lim, e);
    assert TestWidth(lim, e, Sized).mode == At(t, Sized) && TestWidth(lim, e, Unsized).mode == At(t, Unsized);
    assert TestWidth(lim, e, Expand).mode == At(t, Expand) && TestWidth(lim, e, Lossless).mode == At(t, Lossless);
    assert TestWidth(lim, e, Upsize).mode == At(t, Upsize);
    assert Alone(lim, e) == t;
  }

  /** The order of l and r under a binary operator can be seen from what each of them does on its own. */
  predicate OrderMatters(lim: Limits, l: Expr, r: Expr) {
    OrderTable(Alone(lim, l), Alone(lim, r), SignOf(l) != SignOf(r))
  }

  /** Swapped operands give the same outcome exactly when they give the same mode. */
  lemma SwappedInfo(lim: Limits, op: BinOp, l: Expr, r: Expr, mode: Mode)
    ensures TestWidth(lim, Bin(op, l, r), mode) == TestWidth(lim, Bin(op, r, l), mode) <==>
            TestWidth(lim, Bin(op, l, r), mode).mode == TestWidth(lim, Bin(op, r, l), mode).mode
  {
    BothOrders(lim, op, l, r, TestWidth(lim, Bin(op, l, r), mode).mode);
    InfoFromMode(lim, Bin(op, l, r), mode);
    InfoFromMode(lim, Bin(op, r, l), mode);
  }

  lemma SwappedModes(lim: Limits, op: BinOp, l: Expr, r: Expr, mode: Mode)
    ensures var bump := SignOf(l) != SignOf(r);
            && TestWidth(lim, Bin(op, l, r), mode).mode == PairAt(Alone(lim, r), Alone(lim, l), bump, mode)
            && TestWidth(lim, Bin(op, r, l), mode).mode == PairAt(Alone(lim, l), Alone(lim, r), bump, mode)
  {
    AloneStable(lim, l);
    AloneStable(lim, r);
    BinChange(lim, Bin(op, l, r), Alone(lim, r), Alone(lim, l), mode);
    BinChange(lim, Bin(op, r, l), Alone(lim, l), Alone(lim, r), mode);
    PairTableAt(Alone(lim, r), Alone(lim, l), SignOf(l) != SignOf(r), mode);
    PairTableAt(Alone(lim, l), Alone(lim, r), SignOf(l) != SignOf(r), mode);
  }

  /** In every mode above SIZED it does not matter which operand is written first, whatever the operands are. */
  lemma OrderNeverMattersAbove(lim: Limits, op: BinOp, l: Expr, r: Expr, mode: Mode)
    requires mode != Sized
    ensures TestWidth(lim, Bin(op, l, r), mode) == TestWidth(lim, Bin(op, r, l), mode)
  {
    AloneStable(lim, l);
    AloneStable(lim, r);
    SwappedModes(lim, op, l, r, mode);
    PairSymmetric(Alone(lim, l), Alone(lim, r), SignOf(l) != SignOf(r), mode);
    SwappedInfo(lim, op, l, r, mode);
  }

  /** In SIZED mode it matters exactly when OrderMatters says so. */
  lemma OrderMattersExactly(lim: Limits, op: BinOp, l: Expr, r: Expr)
    ensures TestWidth(lim, Bin(op, l, r), Sized) == TestWidth(lim, Bin(op, r, l), Sized) <==> !OrderMatters(lim, l, r)
  {
    AloneStable(lim, l);
    AloneStable(lim, r);
    SwappedModes(lim, op, l, r, Sized);
    PairFromSized(Alone(lim, l), Alone(lim, r), SignOf(l) != SignOf(r));
    SwappedInfo(lim, op, l, r, Sized);
  }

  /** Without shifts and powers it does not matter which operand is written first. */
  lemma OrderDoesNotMatter(lim: Limits, op: BinOp, l: Expr, r: Expr, mode: Mode)
    requires ShiftFree(l) && ShiftFree(r)
    ensures TestWidth(lim, Bin(op, l, r), mode) == TestWidth(lim, Bin(op, r, l), mode)
  {
    if mode == Sized {
      ShiftFreeModes(lim, l);
      ShiftFreeModes(lim, r);
      OrderMattersExactly(lim, op, l, r);
    } else {
      OrderNeverMattersAbove(lim, op, l, r, mode);
    }
  }

  lemma ShiftFreeModes(lim: Limits, e: Expr)
    requires ShiftFree(e)
    ensures var t := Alone(lim, e);
            Rank(t.sized) >= Rank(Lossless) ==> t.unsized == t.sized == t.lossless
  {
    ModeIsDescribed(lim, e, Sized);
    ModeIsDescribed(lim, e, Unsized);
    ModeIsDescribed(lim, e, Lossless);
  }

  /**
   * With a shift it can matter: the mode of its left operand is looked at only while the mode is still SIZED.
   * The sum of a wide unsized literal shifted by a constant and a narrow unsized literal is inferred lossless
   * when the shift is the right operand, and stays UNSIZED, no wider than the literal, when it is the left one.
   */
  lemma OrderMattersWithShift(lim: Limits, big: Expr, dist: Expr, shift: nat, small: Expr)
    requires BigLiteral(lim, big) && SmallLiteral(lim, small) && !big.signed && !small.signed
    requires dist.Num? && dist.sized && !dist.signed && dist.len <= 63 && shift <= lim.widthCap
    ensures var shifted := Left(Shl, big, dist, Some(shift), 0);
            && (big.len + shift < UINT_RANGE ==>
                  TestWidth(lim, Bin(Add, small, shifted), Sized).ret == big.len + shift + 1)
            && TestWidth(lim, Bin(Add, small, shifted), Sized).mode == Lossless
            && TestWidth(lim, Bin(Add, shifted, small), Sized).ret == big.len
            && TestWidth(lim, Bin(Add, shifted, small), Sized).mode == Unsized
  {
    var shifted := Left(Shl, big, dist, Some(shift), 0);
    ShiftedInfo(lim, big, dist, shift);
    BinMode(lim, Bin(Add, small, shifted), Sized);
    BinMode(lim, Bin(Add, shifted, small), Sized);
    TwoPass(lim, Bin(Add, small, shifted), Sized);
    TwoPass(lim, Bin(Add, shifted, small), Sized);
    WidthInSame(lim, shifted, Unsized, Sized);
  }

  /**
   * It can also decide between LOSSLESS and UPSIZE: a change of sign inside the shifted operand is noticed only when
   * that operand is tested first.
   */
  lemma OrderMattersWithSigns(lim: Limits, big: Expr, x: Expr, dist: Expr, shift: nat)
    requires BigLiteral(lim, big) && !big.signed && x.Sig? && x.signed
    ensures var shifted := Left(Shl, Bin(Add, big, x), dist, Some(shift), 0);
            && OrderMatters(lim, big, shifted)
            && TestWidth(lim, Bin(Add, big, shifted), Sized).mode == Upsize
            && TestWidth(lim, Bin(Add, shifted, big), Sized).mode == Lossless
  {
    var inner := Bin(Add, big, x);
    var shifted := Left(Shl, inner, dist, Some(shift), 0);
    assert Alone(lim, big) == ModeTable(Lossless, Lossless, Lossless, Lossless, Upsize);
    assert TestWidth(lim, x, Sized) == Info(x.width, x.width, Fin(x.width), true, Sized);
    BinMode(lim, inner, Sized);
    assert TestWidth(lim, inner, Sized).mode == Upsize;
    assert TestWidth(lim, inner, Sized).signed == false by { SignAndMin(lim, inner, Sized); }
    assert Alone(lim, shifted) == ModeTable(Upsize, Unsized, Expand, Lossless, Upsize);
    SwappedModes(lim, Add, big, shifted, Sized);
  }

  lemma ShiftedInfo(lim: Limits, big: Expr, dist: Expr, shift: nat)
    requires BigLiteral(lim, big) && !big.signed
    requires dist.Num? && dist.sized && dist.len <= 63 && shift <= lim.widthCap
    ensures var shifted := Left(Shl, big, dist, Some(shift), 0);
            && TestWidth(lim, shifted, Sized).mode == Lossless && TestWidth(lim, shifted, Unsized).mode == Unsized
            && (big.len + shift < UINT_RANGE ==> WidthIn(lim, shifted, Lossless) == big.len + shift)
            && WidthIn(lim, shifted, Unsized) == big.len && !SignOf(shifted)
  {
  }
}
