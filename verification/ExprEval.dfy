/**
 * What an expression evaluates to once it is elaborated at a chosen width: context-determined operands are
 * brought to that width with the signedness handed down by cast_signed, the others have widths of their own.
 */
module ExprEval {
  import opened Options
  import opened PowersOfTwo
  import opened ExprWidth
  import opened ExprModes

  /** The bits of every signal, read as an unsigned number. All of them are defined. */
  type Env = nat -> nat

  /** The integer that a literal or signal supplies when its context is signed or not. */
  function LeafValue(e: Expr, signed: bool, env: Env): int
    requires e.Num? || e.Sig?
  {
    match e
    case Num(bits, len, sized, own, single) =>
      if single then (if Low(bits, 1) == 1 then -1 else 0)
      else Interpret(Low(bits, len), len, if sized then signed else own)
    case Sig(name, width, _) => Interpret(Low(env(name), width), width, signed)
  }

  function BitTable(op: BinOp, a: bool, b: bool): bool {
    match op
    case And => a && b
    case Or => a || b
    case Xor => a != b
    case Nand => !(a && b)
    case Nor => !(a || b)
    case Xnor => a == b
    case _ => false
  }

  /** A bitwise operator on the low w bits of a and b. */
  function Bitwise(op: BinOp, a: nat, b: nat, w: nat): (r: int)
    ensures 0 <= r < Pow2(w)
  {
    if w == 0 then 0
    else 2 * Bitwise(op, a / 2, b / 2, w - 1) + (if BitTable(op, a % 2 == 1, b % 2 == 1) then 1 else 0)
  }

  /** Division that truncates toward zero. */
  function TruncDiv(a: int, b: int): int
    requires b != 0
  {
    var q := (if a < 0 then -a else a) / (if b < 0 then -b else b);
    if (a < 0) != (b < 0) then -q else q
  }

  /** A binary operator on two w-bit vectors; None when the result has undefined bits. */
  function Binary(op: BinOp, a: nat, b: nat, w: nat, signed: bool): (r: Option<int>)
    requires a < Pow2(w) && b < Pow2(w)
    ensures r.Some? ==> 0 <= r.value < Pow2(w)
  {
    var x, y := Interpret(a, w, signed), Interpret(b, w, signed);
    match op
    case Add => Some(Low(a + b, w))
    case Sub => Some(Low(a - b, w))
    case Mul => Some(Low(a * b, w))
    case Div => if y == 0 then None else Some(Low(TruncDiv(x, y), w))
    case Mod => if y == 0 then None else Some(Low(x - y * TruncDiv(x, y), w))
    case Min => Some(if x <= y then a else b)
    case Max => Some(if x >= y then a else b)
    case _ => Some(Bitwise(op, a, b, w))
  }

  /** A shift of a w-bit vector by r, or its power with exponent r. */
  function Leftward(op: LeftOp, a: nat, r: int, w: nat, signed: bool): (v: Option<int>)
    requires a < Pow2(w) && (op != Pow ==> r >= 0)
    ensures v.Some? ==> 0 <= v.value < Pow2(w)
  {
    match op
    case Shl => Some(Low(a * Pow2(r), w))
    case Shr => Some(Low(a / Pow2(r), w))
    case Ashr => Some(Low(Interpret(a, w, signed) / Pow2(r), w))
    case Pow =>
      var x := Interpret(a, w, signed);
      if r >= 0 then Some(Low(Power(x, r), w))
      else if x == 0 then None
      else if x == 1 || x == -1 then Some(Low(Power(x, -r), w))
      else Some(0)
  }

  function Unary(op: UnaryOp, a: nat, w: nat): (r: int)
    requires a < Pow2(w)
    ensures 0 <= r < Pow2(w)
  {
    match op
    case Plus => a
    case Minus => Low(0 - a, w)
    case Not => Pow2(w) - 1 - a
  }

  predicate Compare(op: CompOp, x: int, y: int) {
    match op
    case Eq => x == y
    case Ne => x != y
    case Lt => x < y
    case Le => x <= y
    case Gt => x > y
    case Ge => x >= y
  }

  /** Whether the number of ones among the low w bits of a is odd. */
  function Parity(a: nat, w: nat): bool {
    if w == 0 then false else (a % 2 == 1) != Parity(a / 2, w - 1)
  }

  predicate Reduce(op: ReduceOp, a: nat, w: nat) {
    match op
    case RedAnd => a == Pow2(w) - 1
    case RedOr => a != 0
    case RedXor => Parity(a, w)
    case RedNand => a != Pow2(w) - 1
    case RedNor => a == 0
    case RedXnor => !Parity(a, w)
    case LNot => a == 0
  }

  function Flag(b: bool, w: nat): (r: int)
    ensures 0 <= r < Pow2(w)
  {
    Low(if b then 1 else 0, w)
  }

  /** The width at which an operand is elaborated that is neither context-determined nor compared. */
  function OwnWidth(lim: Limits, e: Expr): nat {
    TestWidth(lim, e, Sized).width
  }

  /** elab_and_eval without a context width: the own width, capped when the expression is unsized. */
  function CappedWidth(lim: Limits, e: Expr): nat {
    var i := TestWidth(lim, e, Sized);
    if Rank(i.mode) >= Rank(Lossless) && i.width > lim.widthCap then lim.widthCap else i.width
  }

  /**
   * The value of e elaborated at width w with signedness s. None when it has undefined bits, or when a signal
   * is wider than its context, which elaboration does not cut down and no operator of the runtime accepts.
   */
  function Eval(lim: Limits, e: Expr, w: nat, s: bool, env: Env): (r: Option<int>)
    ensures r.Some? ==> 0 <= r.value < Pow2(w)
    decreases e
  {
    match e
    case Num(_, _, _, _, _) => Some(Low(LeafValue(e, s, env), w))
    case Sig(_, width, _) => if width > w then None else Some(Low(LeafValue(e, s, env), w))
    case Bin(op, l, r) =>
      var a, b := Eval(lim, l, w, s, env), Eval(lim, r, w, s, env);
      if a.None? || b.None? then None else Binary(op, a.value, b.value, w, s)
    case Left(op, l, r, _, _) =>
      var a, b := Eval(lim, l, w, s, env), Eval(lim, r, OwnWidth(lim, r), SignOf(r), env);
      if a.None? || b.None? then None
      else Leftward(op, a.value, if op == Pow then Interpret(b.value, OwnWidth(lim, r), SignOf(r)) else b.value, w, s)
    case Comp(op, l, r) =>
      var (lw, rw) := CompWidths(lim, l, r);
      var cs := SignOf(l) && SignOf(r);
      var a, b := Eval(lim, l, lw, cs, env), Eval(lim, r, rw, cs, env);
      if a.None? || b.None? then None
      else Some(Flag(Compare(op, Interpret(a.value, lw, cs), Interpret(b.value, rw, cs)), w))
    case Logic(op, l, r) =>
      var a, b := Eval(lim, l, CappedWidth(lim, l), SignOf(l), env), Eval(lim, r, CappedWidth(lim, r), SignOf(r), env);
      if a.None? || b.None? then None
      else Some(Flag(if op == LAnd then a.value != 0 && b.value != 0 else a.value != 0 || b.value != 0, w))
    case Tern(c, t, f) =>
      var cond := Eval(lim, c, CappedWidth(lim, c), SignOf(c), env);
      if cond.None? then None
      else if cond.value != 0 then Eval(lim, t, w, s, env)
      else Eval(lim, f, w, s, env)
    case Un(op, e1) =>
      var a := Eval(lim, e1, w, s, env);
      if a.None? then None else Some(Unary(op, a.value, w))
    case Red(op, e1) =>
      var a := Eval(lim, e1, OwnWidth(lim, e1), SignOf(e1), env);
      if a.None? then None else Some(Flag(Reduce(op, a.value, OwnWidth(lim, e1)), w))
  }
}
