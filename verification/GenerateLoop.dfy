/** Generate loops: the scopes that a loop creates, and when it succeeds. */
module GenerateLoop {
  import opened Options
  import HName
  import ScopeTree

  type Name = seq<nat>

  /** What the evaluation of a constant expression gives. */
  datatype Eval = NotConstant | Undefined | Value(v: int)

  /** A generate loop; its test and step are evaluated with the genvar bound to a value. */
  datatype LoopText = LoopText(
    scopeName: Name, index: Name, localIndex: bool, init: Eval, test: int -> Eval, step: int -> Eval)

  /** The symbols of a scope, as far as the search for a genvar looks at them. */
  datatype Level = Level(genvars: set<Name>, symbols: set<Name>)

  const MOST_ITERATIONS := 500000

  /** The conversion of a long to the int that a name holds. */
  function Int32(v: int): int {
    (v + 0x8000_0000) % 0x1_0000_0000 - 0x8000_0000
  }

  function ScopeKey(g: LoopText, v: int): HName.Key {
    HName.Key(g.scopeName, [Int32(v)])
  }

  /** The genvar after k steps. */
  function Orbit(g: LoopText, k: nat): Eval {
    if k == 0 then g.init
    else
      match Orbit(g, k - 1)
      case Value(v) => g.step(v)
      case e => e
  }

  /** The value of the genvar after k steps, and the name of the scope made for it. */
  function ValueAt(g: LoopText, k: nat): int {
    var o := Orbit(g, k);
    if o.Value? then o.v else 0
  }

  function KeyAt(g: LoopText, k: nat): HName.Key {
    ScopeKey(g, ValueAt(g, k))
  }

  predicate Holds(e: Eval) { e.Value? && e.v != 0 }

  predicate Fails(e: Eval) { e == Value(0) }

  /** Scope k has a name that is not taken, neither before nor by an earlier iteration. */
  ghost predicate Fresh(g: LoopText, taken: set<HName.Key>, k: nat) {
    && Orbit(g, k).Value? && KeyAt(g, k) !in taken
    && forall i :: 0 <= i < k ==> KeyAt(g, i) != KeyAt(g, k)
  }

  /** Iteration k creates a scope and takes the step, given the names that are taken. */
  ghost predicate Iterates(g: LoopText, taken: set<HName.Key>, k: nat) {
    && Fresh(g, taken, k) && Holds(g.test(ValueAt(g, k)))
    && Orbit(g, k + 1).Value? && ValueAt(g, k) != ValueAt(g, k + 1)
  }

  /** The loop ends properly after n iterations. */
  ghost predicate EndsAfter(g: LoopText, taken: set<HName.Key>, n: nat) {
    && n <= MOST_ITERATIONS
    && (forall k :: 0 <= k < n ==> Iterates(g, taken, k))
    && Orbit(g, n).Value? && Fails(g.test(ValueAt(g, n)))
  }

  /** The loop variable is a genvar of the nearest scope that knows the name at all. */
  ghost predicate Declared(levels: seq<Level>, name: Name) {
    exists i :: 0 <= i < |levels| && DeclaredAt(levels, name, i)
  }

  predicate DeclaredAt(levels: seq<Level>, name: Name, i: nat)
    requires i < |levels|
  {
    name in levels[i].genvars && forall j :: 0 <= j < i ==> name !in levels[j].symbols && name !in levels[j].genvars
  }

  /** Seen from the innermost scope: it knows the genvar, or does not know the name at all and its parent is asked. */
  lemma DeclaredFromInside(levels: seq<Level>, name: Name)
    ensures Declared(levels, name) <==>
            && levels != []
            && (name in levels[0].genvars || (name !in levels[0].symbols && Declared(levels[1..], name)))
  {
    if Declared(levels, name) {
      var i :| 0 <= i < |levels| && DeclaredAt(levels, name, i);
      if i > 0 {
        assert DeclaredAt(levels[1..], name, i - 1);
      }
    }
    if levels != [] && name in levels[0].genvars {
      assert DeclaredAt(levels, name, 0);
    } else if levels != [] && name !in levels[0].symbols && Declared(levels[1..], name) {
      var i :| 0 <= i < |levels[1..]| && DeclaredAt(levels[1..], name, i);
      forall j | 0 <= j < i + 1
        ensures name !in levels[j].symbols && name !in levels[j].genvars
      {
        assert j > 0 ==> levels[j] == levels[1..][j - 1];
      }
      assert DeclaredAt(levels, name, i + 1);
    }
  }

  /** The children of a scope after k iterations; each has the value of the genvar as a parameter. */
  ghost function After(g: LoopText, base: map<HName.Key, int>, k: nat): map<HName.Key, int> {
    if k == 0 then base else After(g, base, k - 1)[KeyAt(g, k - 1) := ValueAt(g, k - 1)]
  }

  /** A child is one that there was, or comes from some iteration. */
  lemma {:induction false} AfterKeys(g: LoopText, base: map<HName.Key, int>, k: nat, key: HName.Key)
    ensures key in After(g, base, k) <==> key in base || exists i :: 0 <= i < k && key == KeyAt(g, i)
  {
    if k == 0 {
    } else {
      AfterKeys(g, base, k - 1, key);
      assert key == KeyAt(g, k - 1) ==> key in After(g, base, k);
    }
  }

  /** k iterations with fresh names add k children. */
  lemma {:induction false} AfterSize(g: LoopText, base: map<HName.Key, int>, k: nat)
    requires forall i :: 0 <= i < k ==> Fresh(g, base.Keys, i)
    ensures |After(g, base, k)| == |base| + k
  {
    if k == 0 {
    } else {
      AfterSize(g, base, k - 1);
      assert Fresh(g, base.Keys, k - 1);
      NotYet(g, base, k - 1);
      AddedKey(After(g, base, k - 1), KeyAt(g, k - 1), ValueAt(g, k - 1));
    }
  }

  lemma NotYet(g: LoopText, base: map<HName.Key, int>, k: nat)
    requires Fresh(g, base.Keys, k)
    ensures KeyAt(g, k) !in After(g, base, k)
  {
    AfterKeys(g, base, k, KeyAt(g, k));
  }

  lemma AddedKey(m: map<HName.Key, int>, key: HName.Key, v: int)
    requires key !in m
    ensures |m[key := v]| == |m| + 1
  {
  }

  /** Each scope keeps the value it was made for. */
  lemma {:induction false} AfterValue(g: LoopText, base: map<HName.Key, int>, k: nat, i: nat)
    requires i < k && forall j :: 0 <= j < k ==> Fresh(g, base.Keys, j)
    ensures KeyAt(g, i) in After(g, base, k) && After(g, base, k)[KeyAt(g, i)] == ValueAt(g, i)
  {
    if i == k - 1 {
    } else {
      AfterValue(g, base, k - 1, i);
      assert Fresh(g, base.Keys, k - 1);
    }
  }

  /** A loop ends after at most one number of iterations. */
  lemma EndsOnce(g: LoopText, taken: set<HName.Key>, n: nat, n': nat)
    requires EndsAfter(g, taken, n) && EndsAfter(g, taken, n')
    ensures n == n'
  {
    assert n < n' ==> Iterates(g, taken, n);
    assert n' < n ==> Iterates(g, taken, n');
  }

  predicate FitsInt(v: int) {
    -0x8000_0000 <= v <= 0x7fff_ffff
  }

  /**
   * Within the range of an int a scope has the value of the genvar as its index, so that names differ exactly when the
   * values do. Outside that range the index is another one that is as large modulo 2^32.
   */
  lemma NamesFollowValues(g: LoopText, v: int, v': int)
    ensures FitsInt(v) ==> ScopeKey(g, v) == HName.Key(g.scopeName, [v])
    ensures FitsInt(v) && FitsInt(v') ==> (ScopeKey(g, v) == ScopeKey(g, v') <==> v == v')
    ensures var i := ScopeKey(g, v).numbers[0]; FitsInt(i) && (v - i) % 0x1_0000_0000 == 0
  {
    var q := (v + 0x8000_0000) / 0x1_0000_0000;
    assert v - Int32(v) == q * 0x1_0000_0000;
  }

  /** The values of the genvar in the first n iterations */
  function Values(g: LoopText, n: nat): (values: seq<int>)
    ensures |values| == n && forall k :: 0 <= k < n ==> values[k] == ValueAt(g, k)
  {
    seq(n, k requires k >= 0 => ValueAt(g, k))
  }

  /**
   * While the values fit an int, the children that a loop adds are those that its values name, each with its value;
   * this is what a scope with such a loop in its text calls for.
   */
  lemma AddedByValues(g: LoopText, base: map<HName.Key, int>, n: nat, key: HName.Key)
    requires forall k :: 0 <= k < n ==> FitsInt(ValueAt(g, k)) && Fresh(g, base.Keys, k)
    ensures key in After(g, base, n) && key !in base <==> ScopeTree.NamesIteration(Values(g, n), g.scopeName, key)
    ensures key in After(g, base, n) && key !in base ==> key == HName.Key(g.scopeName, [After(g, base, n)[key]])
  {
    AfterKeys(g, base, n, key);
    forall k | 0 <= k < n
      ensures KeyAt(g, k) == HName.Key(g.scopeName, [Values(g, n)[k]]) && KeyAt(g, k) !in base
      ensures KeyAt(g, k) in After(g, base, n) && After(g, base, n)[KeyAt(g, k)] == Values(g, n)[k]
    {
      NamesFollowValues(g, ValueAt(g, k), ValueAt(g, k));
      AfterValue(g, base, n, k);
    }
  }

  // ------------------------------------------------------------ counting loops

  /** for (i = first; i < end; i = i + 1) */
  ghost predicate Counts(g: LoopText, first: int, end: int) {
    && g.init == Value(first)
    && (forall v :: g.test(v) == Value(if v < end then 1 else 0))
    && (forall v :: g.step(v) == Value(v + 1))
  }

  lemma {:induction false} CountingOrbit(g: LoopText, first: int, end: int, k: nat)
    requires Counts(g, first, end)
    ensures Orbit(g, k) == Value(first + k)
  {
    if k == 0 {
    } else {
      CountingOrbit(g, first, end, k - 1);
    }
  }

  lemma CountingValue(g: LoopText, first: int, end: int, k: nat)
    requires Counts(g, first, end)
    ensures Orbit(g, k).Value? && ValueAt(g, k) == first + k
    ensures FitsInt(first + k) ==> KeyAt(g, k) == HName.Key(g.scopeName, [first + k])
    ensures g.test(ValueAt(g, k)) == Value(if first + k < end then 1 else 0)
  {
    CountingOrbit(g, first, end, k);
    NamesFollowValues(g, first + k, first);
  }

  lemma CountingFresh(g: LoopText, first: int, end: int, taken: set<HName.Key>, k: nat)
    requires Counts(g, first, end) && FitsInt(first) && FitsInt(end) && first + k < end
    requires HName.Key(g.scopeName, [first + k]) !in taken
    ensures Fresh(g, taken, k)
  {
    CountingValue(g, first, end, k);
    forall i | 0 <= i < k
      ensures KeyAt(g, i) != KeyAt(g, k)
    {
      CountingValue(g, first, end, i);
    }
  }

  lemma CountingStep(g: LoopText, first: int, end: int, taken: set<HName.Key>, k: nat)
    requires Counts(g, first, end) && FitsInt(first) && FitsInt(end)
    requires HName.Key(g.scopeName, [first + k]) !in taken || first + k >= end
    ensures Iterates(g, taken, k) <==> first + k < end
  {
    CountingValue(g, first, end, k);
    CountingValue(g, first, end, k + 1);
    if first + k < end {
      CountingFresh(g, first, end, taken, k);
    }
  }

  ghost predicate Vacant(g: LoopText, first: int, end: int, taken: set<HName.Key>) {
    forall v :: first <= v < end ==> HName.Key(g.scopeName, [v]) !in taken
  }

  /** Such a loop ends properly exactly when it makes 500000 scopes at the most, namely [first], ..., [end - 1]. */
  lemma CountingLoop(g: LoopText, first: int, end: int, taken: set<HName.Key>, n: nat)
    requires Counts(g, first, end) && FitsInt(first) && FitsInt(end) && Vacant(g, first, end, taken)
    ensures EndsAfter(g, taken, n) <==> n <= 500_000 && n == if first <= end then end - first else 0
    ensures forall k :: 0 <= k < n ==> Values(g, n)[k] == first + k
  {
    forall k | 0 <= k < n
      ensures Iterates(g, taken, k) <==> first + k < end
      ensures Values(g, n)[k] == first + k
    {
      CountingStep(g, first, end, taken, k);
      CountingValue(g, first, end, k);
    }
    CountingValue(g, first, end, n);
    if EndsAfter(g, taken, n) && n > 0 {
      assert Iterates(g, taken, n - 1);
    }
  }

  /** The first k iterations pass, but the loop cannot end after them and does not pass the next. */
  ghost predicate Stuck(g: LoopText, taken: set<HName.Key>, k: nat) {
    && (forall i :: 0 <= i < k ==> Iterates(g, taken, i)) && !Iterates(g, taken, k)
    && (Orbit(g, k).Value? ==> !Fails(g.test(ValueAt(g, k))))
  }

  lemma StuckForever(g: LoopText, taken: set<HName.Key>, k: nat, n: nat)
    requires Stuck(g, taken, k)
    ensures !EndsAfter(g, taken, n)
  {
    assert n < k ==> Iterates(g, taken, n);
  }

  lemma Endless(g: LoopText, taken: set<HName.Key>, k: nat, n: nat)
    requires k > MOST_ITERATIONS && forall i :: 0 <= i < k ==> Iterates(g, taken, i)
    ensures !EndsAfter(g, taken, n)
  {
    assert n < k ==> Iterates(g, taken, n);
  }

  /** The scope that contains the loop. */
  class NetScope {
    var children: map<HName.Key, int>
    var genvarTmp: Option<Name>
    var genvarTmpVal: int
    // the errors of the design
    var errors: nat

    /** The search for the genvar through the scope and its parents */
    method FindGenvar(levels: seq<Level>, name: Name) returns (ok: bool)
      ensures ok <==> Declared(levels, name)
    {
      var k := 0;
      while k < |levels| && name !in levels[k].genvars
        invariant 0 <= k <= |levels|
        invariant forall j :: 0 <= j < k ==> name !in levels[j].symbols && name !in levels[j].genvars
      {
        if name in levels[k].symbols {
          return false;
        }
        k := k + 1;
      }
      assert k < |levels| ==> DeclaredAt(levels, name, k);
      return k < |levels|;
    }

    /** The scopes made for the first k iterations are the new children. */
    twostate predicate Made(g: LoopText, k: nat)
      reads this
    {
      children == After(g, old(children), k) && forall i :: 0 <= i < k ==> Fresh(g, old(children).Keys, i)
    }

    /**
     * PGenerate::generate_scope_loop_. It succeeds exactly when the loop ends properly. Either way it has created
     * one scope for each of the first n values of the genvar, and no more than 500001. The binding of the genvar
     * is removed on success only.
     */
    method GenerateScopeLoop(g: LoopText, levels: seq<Level>) returns (ok: bool, ghost n: nat)
      modifies this
      ensures ok <==> (g.localIndex || Declared(levels, g.index)) && exists k :: EndsAfter(g, old(children.Keys), k)
      ensures ok ==> EndsAfter(g, old(children.Keys), n) && genvarTmp == None && errors == old(errors)
      ensures !ok ==> errors == old(errors) + 1
      ensures n <= MOST_ITERATIONS + 1 && Made(g, n)
      ensures !ok && n > 0 ==> genvarTmp == Some(g.index)
      ensures (forall k :: 0 <= k < n ==> FitsInt(ValueAt(g, k))) ==>
                forall key :: key in children && key !in old(children) <==>
                  ScopeTree.NamesIteration(Values(g, n), g.scopeName, key)
    {
      ok, n := RunLoop(g, levels);
      if forall k :: 0 <= k < n ==> FitsInt(ValueAt(g, k)) {
        forall key
          ensures key in children && key !in old(children) <==>
                  ScopeTree.NamesIteration(Values(g, n), g.scopeName, key)
        {
          AddedByValues(g, old(children), n, key);
        }
      }
    }

    /** The same, with the children as those that there are after n iterations */
    method RunLoop(g: LoopText, levels: seq<Level>) returns (ok: bool, ghost n: nat)
      modifies this
      ensures ok <==> (g.localIndex || Declared(levels, g.index)) && exists k :: EndsAfter(g, old(children.Keys), k)
      ensures ok ==> EndsAfter(g, old(children.Keys), n) && genvarTmp == None && errors == old(errors)
      ensures !ok ==> errors == old(errors) + 1
      ensures n <= MOST_ITERATIONS + 1 && Made(g, n)
      ensures !ok && n > 0 ==> genvarTmp == Some(g.index)
    {
      n := 0;
      if !g.localIndex {
        var declared := FindGenvar(levels, g.index);
        if !declared {
          errors := errors + 1;
          return false, n;
        }
      }
      ghost var taken := children.Keys;
      if !g.init.Value? {
        assert Orbit(g, 0) == g.init;
        Fail(g, taken, 0);
        return false, n;
      }
      var genvar := g.init.v;
      genvarTmp := Some(g.index);
      genvarTmpVal := genvar;
      var test := g.test(genvarTmpVal);
      if !test.Value? {
        assert Orbit(g, 0) == g.init;
        Fail(g, taken, 0);
        return false, n;
      }
      ok, n := Iterate(g, genvar, test);
      if ok {
        genvarTmp := None;
      }
    }

    /** An error message, when iteration k cannot pass */
    method Fail(g: LoopText, ghost taken: set<HName.Key>, ghost k: nat)
      requires Stuck(g, taken, k)
      modifies this`errors
      ensures errors == old(errors) + 1 && forall n :: !EndsAfter(g, taken, n)
    {
      errors := errors + 1;
      forall n: nat
        ensures !EndsAfter(g, taken, n)
      {
        StuckForever(g, taken, k, n);
      }
    }

    /** The first n iterations pass, and have created their scopes. */
    ghost predicate Passed(g: LoopText, base: map<HName.Key, int>, n: nat)
      reads this
    {
      children == After(g, base, n) && forall i :: 0 <= i < n ==> Iterates(g, base.Keys, i)
    }

    /**
     * The loop itself, from the first test on. That a later test is no constant, which the source asserts it is,
     * counts as a failure.
     */
    method Iterate(g: LoopText, first: int, firstTest: Eval) returns (ok: bool, ghost n: nat)
      requires g.init == Value(first) && firstTest == g.test(first) && firstTest.Value?
      requires genvarTmpVal == first
      modifies this`children, this`genvarTmpVal, this`errors
      ensures ok <==> exists k :: EndsAfter(g, old(children.Keys), k)
      ensures ok ==> EndsAfter(g, old(children.Keys), n) && errors == old(errors)
      ensures !ok ==> errors == old(errors) + 1
      ensures n <= MOST_ITERATIONS + 1 && Made(g, n)
    {
      var genvar, test := first, firstTest;
      var loopCount := 1;
      n := 0;
      ghost var base := children;
      while test.v != 0
        invariant loopCount == n + 1 && n <= MOST_ITERATIONS
        invariant Orbit(g, n) == Value(genvar) && genvarTmpVal == genvar
        invariant test == g.test(genvar) && test.Value?
        invariant Passed(g, base, n) && errors == old(errors)
        decreases MOST_ITERATIONS - n
      {
        var passed;
        passed, test, n := Pass(g, genvar, loopCount, base, n);
        if !passed {
          return false, n;
        }
        genvar := genvarTmpVal;
        loopCount := loopCount + 1;
      }
      AllFresh(g, base.Keys, n);
      assert EndsAfter(g, base.Keys, n);
      return true, n;
    }

    /** One iteration, and the test for the next */
    method Pass(g: LoopText, genvar: int, loopCount: nat, ghost base: map<HName.Key, int>, ghost n: nat)
      returns (passed: bool, test: Eval, ghost n': nat)
      requires Passed(g, base, n) && loopCount == n + 1 && n <= MOST_ITERATIONS
      requires Orbit(g, n) == Value(genvar) && genvarTmpVal == genvar && Holds(g.test(genvar))
      modifies this`children, this`genvarTmpVal, this`errors
      ensures passed ==> n' == n + 1 <= MOST_ITERATIONS && Passed(g, base, n') && errors == old(errors)
      ensures passed ==> Orbit(g, n') == Value(genvarTmpVal) && test == g.test(genvarTmpVal) && test.Value?
      ensures !passed ==> errors == old(errors) + 1 && forall k :: !EndsAfter(g, base.Keys, k)
      ensures !passed ==> n <= n' <= n + 1 && children == After(g, base, n')
      ensures !passed ==> forall i :: 0 <= i < n' ==> Fresh(g, base.Keys, i)
    {
      AllFresh(g, base.Keys, n);
      passed, test, n' := false, Undefined, n;
      var useName := ScopeKey(g, genvar);
      AfterKeys(g, base, n, useName);
      if useName in children {
        Fail(g, base.Keys, n);
        return;
      }
      children := children[useName := genvar];
      n' := n + 1;
      assert Fresh(g, base.Keys, n);
      var step := g.step(genvarTmpVal);
      assert Orbit(g, n + 1) == step;
      if !step.Value? || step.v == genvar {
        Fail(g, base.Keys, n);
        return;
      }
      assert Iterates(g, base.Keys, n);
      genvarTmpVal := step.v;
      test := g.test(genvarTmpVal);
      if !test.Value? {
        Fail(g, base.Keys, n');
        return;
      }
      if loopCount > MOST_ITERATIONS {
        forall k: nat
          ensures !EndsAfter(g, base.Keys, k)
        {
          Endless(g, base.Keys, n', k);
        }
        errors := errors + 1;
        return;
      }
      passed := true;
    }
  }

  lemma AllFresh(g: LoopText, taken: set<HName.Key>, n: nat)
    requires forall i :: 0 <= i < n ==> Iterates(g, taken, i)
    ensures forall i :: 0 <= i < n ==> Fresh(g, taken, i)
  {
    forall i | 0 <= i < n
      ensures Fresh(g, taken, i)
    {
      assert Iterates(g, taken, i);
    }
  }
}
