/**
 * Paths in the scope tree, from a scope up to its root, and what the check for recursive instantiation
 * makes of them.
 */
module ScopePaths {
  import opened PowersOfTwo

  type Name = seq<nat>

  /** The type of a scope. Other stands for tasks, functions and named blocks. */
  datatype Kind = Module(name: Name) | GenBlock | Other

  /** A scope and its parents, nearest first. */
  type Path = seq<Kind>

  /** The number of scopes of module m among the first k of the path. */
  function Count(path: Path, m: Name, k: nat): nat
    requires k <= |path|
  {
    if k == 0 then 0 else Count(path, m, k - 1) + (if path[k - 1] == Module(m) then 1 else 0)
  }

  /** There is a generate block among the scopes i, ..., j - 1 of the path. */
  predicate GenBetween(path: Path, i: nat, j: nat)
    requires j <= |path|
  {
    exists k :: i <= k < j && path[k] == GenBlock
  }

  /** Scope i of the path is a module m in which, below scope i, there is no generate block. */
  predicate Offends(path: Path, m: Name, i: nat)
    requires i < |path|
  {
    path[i] == Module(m) && !GenBetween(path, 0, i)
  }

  /** Module m may be instantiated in the scope with this path. */
  predicate Accepted(limit: nat, m: Name, path: Path) {
    && Count(path, m, |path|) <= limit
    && (forall i :: 0 <= i < |path| ==> !Offends(path, m, i))
  }

  /** The places among the first k where there is a scope of module m */
  ghost function Places(path: Path, m: Name, k: nat): set<nat>
    requires k <= |path|
  {
    set i: nat | i < k && path[i] == Module(m)
  }

  lemma {:induction false} CountsPlaces(path: Path, m: Name, k: nat)
    requires k <= |path|
    ensures Count(path, m, k) == |Places(path, m, k)|
  {
    if k == 0 {
    } else {
      CountsPlaces(path, m, k - 1);
      assert Places(path, m, k) == Places(path, m, k - 1) + if path[k - 1] == Module(m) then {k - 1} else {};
    }
  }

  ghost predicate GenBelow(path: Path, i: nat) {
    exists k :: 0 <= k < i && k < |path| && path[k] == GenBlock
  }

  /** On the way up to every scope of module m there is a generate block. */
  ghost predicate BehindGenerate(path: Path, m: Name) {
    forall i :: 0 <= i < |path| && path[i] == Module(m) ==> GenBelow(path, i)
  }

  /**
   * An instance is accepted if there are no more than `limit` scopes of its module above it, and on the way up to each
   * of them a generate block. (The scopes of tasks, functions and named blocks are not enough for that.)
   */
  lemma AcceptedMeans(limit: nat, m: Name, path: Path)
    ensures Accepted(limit, m, path) <==>
            |set i: nat | i < |path| && path[i] == Module(m)| <= limit && BehindGenerate(path, m)
    ensures BehindGenerate(path, m) <==> forall i :: 0 <= i < |path| ==> !Offends(path, m, i)
  {
    CountsPlaces(path, m, |path|);
    assert Places(path, m, |path|) == set i: nat | i < |path| && path[i] == Module(m);
    forall i | 0 <= i < |path|
      ensures Offends(path, m, i) <==> path[i] == Module(m) && !GenBelow(path, i)
    {
    }
  }

  /** No module occurs more than limit + 1 times, and a generate block separates any two scopes of one module. */
  ghost predicate Sound(limit: nat, path: Path) {
    && (forall m :: Count(path, m, |path|) <= limit + 1)
    && (forall i, j :: 0 <= i < j < |path| ==> Separated(path, i, j))
  }

  predicate Separated(path: Path, i: nat, j: nat)
    requires i < j < |path|
  {
    path[i].Module? && path[j] == path[i] ==> GenBetween(path, i, j)
  }

  lemma {:induction false} CountPush(kind: Kind, path: Path, m: Name, k: nat)
    requires k <= |path|
    ensures Count([kind] + path, m, k + 1) == Count(path, m, k) + (if kind == Module(m) then 1 else 0)
  {
    if k == 0 {
    } else {
      CountPush(kind, path, m, k - 1);
    }
  }

  lemma SeparatedPush(kind: Kind, path: Path, i: nat, j: nat)
    requires i < j < |path|
    ensures Separated([kind] + path, i + 1, j + 1) <==> Separated(path, i, j)
  {
    var longer := [kind] + path;
    if GenBetween(longer, i + 1, j + 1) {
      var k :| i + 1 <= k < j + 1 && longer[k] == GenBlock;
      assert path[k - 1] == GenBlock;
    }
    if GenBetween(path, i, j) {
      var k :| i <= k < j && path[k] == GenBlock;
      assert longer[k + 1] == GenBlock;
    }
  }

  lemma SeparatedFirst(m: Name, path: Path, j: nat)
    requires j < |path|
    ensures Separated([Module(m)] + path, 0, j + 1) <==> !Offends(path, m, j)
  {
    var longer := [Module(m)] + path;
    if GenBetween(longer, 0, j + 1) {
      var k :| 0 <= k < j + 1 && longer[k] == GenBlock;
      assert path[k - 1] == GenBlock;
    }
    if GenBetween(path, 0, j) {
      var k :| 0 <= k < j && path[k] == GenBlock;
      assert longer[k + 1] == GenBlock;
    }
  }

  /** A scope that is no module can be added anywhere. */
  lemma BlockKeepsSound(limit: nat, kind: Kind, path: Path)
    requires Sound(limit, path) && !kind.Module?
    ensures Sound(limit, [kind] + path)
  {
    var longer := [kind] + path;
    forall m
      ensures Count(longer, m, |longer|) <= limit + 1
    {
      CountPush(kind, path, m, |path|);
    }
    forall i, j | 0 <= i < j < |longer|
      ensures Separated(longer, i, j)
    {
      if i > 0 {
        SeparatedPush(kind, path, i - 1, j - 1);
      }
    }
  }

  /** The check accepts exactly the instances that keep the bound: nothing too much, nothing too little. */
  lemma AcceptedExactly(limit: nat, m: Name, path: Path)
    requires Sound(limit, path)
    ensures Sound(limit, [Module(m)] + path) <==> Accepted(limit, m, path)
  {
    var longer := [Module(m)] + path;
    CountPush(Module(m), path, m, |path|);
    if Accepted(limit, m, path) {
      forall n
        ensures Count(longer, n, |longer|) <= limit + 1
      {
        CountPush(Module(m), path, n, |path|);
      }
      forall i, j | 0 <= i < j < |longer|
        ensures Separated(longer, i, j)
      {
        if i > 0 {
          SeparatedPush(Module(m), path, i - 1, j - 1);
        } else {
          SeparatedFirst(m, path, j - 1);
        }
      }
    }
    if Sound(limit, longer) {
      forall i | 0 <= i < |path|
        ensures !Offends(path, m, i)
      {
        assert Separated(longer, 0, i + 1);
        SeparatedFirst(m, path, i);
      }
      assert Count(longer, m, |longer|) <= limit + 1;
    }
  }

  // ------------------------------------------------------------ depth

  /** The number of modules on the path. */
  function Modules(path: Path): nat {
    if path == [] then 0 else Modules(path[1..]) + (if path[0].Module? then 1 else 0)
  }

  /** The number of scopes below the nearest module. */
  function Run(path: Path): nat {
    if path == [] || path[0].Module? then 0 else 1 + Run(path[1..])
  }

  /** Every module on the path has one of the names. */
  predicate Known(names: set<Name>, path: Path) {
    forall k :: 0 <= k < |path| && path[k].Module? ==> path[k].name in names
  }

  /** The path without the scopes of module m. */
  function Without(path: Path, m: Name): Path {
    if path == [] then []
    else if path[0] == Module(m) then Without(path[1..], m)
    else [path[0]] + Without(path[1..], m)
  }

  lemma {:induction false} WithoutCounts(path: Path, m: Name, n: Name)
    ensures Modules(path) == Modules(Without(path, m)) + Count(path, m, |path|)
    ensures n != m ==> Count(Without(path, m), n, |Without(path, m)|) == Count(path, n, |path|)
    ensures forall k :: k in Without(path, m) ==> k in path && k != Module(m)
  {
    if path == [] {
    } else {
      WithoutCounts(path[1..], m, n);
      assert path == [path[0]] + path[1..];
      CountPush(path[0], path[1..], m, |path| - 1);
      CountPush(path[0], path[1..], n, |path| - 1);
      CountPush(path[0], Without(path[1..], m), n, |Without(path[1..], m)|);
      assert ([path[0]] + Without(path[1..], m))[1..] == Without(path[1..], m);
    }
  }

  /** So many modules at most are on a path whose modules have these names. */
  lemma {:induction false} ModulesBounded(names: set<Name>, path: Path, each: nat)
    requires Known(names, path) && forall m :: Count(path, m, |path|) <= each
    ensures Modules(path) <= |names| * each
    decreases |names|
  {
    if names == {} {
      NoModules(path);
    } else {
      var m :| m in names;
      var rest := Without(path, m);
      WithoutCounts(path, m, m);
      forall n
        ensures Count(rest, n, |rest|) <= each
      {
        WithoutCounts(path, m, n);
        if n == m { NotCounted(rest, m, |rest|); }
      }
      assert Known(names - {m}, rest) by {
        forall k | 0 <= k < |rest| && rest[k].Module?
          ensures rest[k].name in names - {m}
        {
          assert rest[k] in rest;
        }
      }
      ModulesBounded(names - {m}, rest, each);
      Distribute(|names| - 1, 1, each);
    }
  }

  lemma {:induction false} NoModules(path: Path)
    requires Known({}, path)
    ensures Modules(path) == 0
  {
    if path == [] {
    } else {
      assert !path[0].Module?;
      assert Known({}, path[1..]);
      NoModules(path[1..]);
    }
  }

  lemma {:induction false} NotCounted(path: Path, m: Name, k: nat)
    requires k <= |path| && Module(m) !in path
    ensures Count(path, m, k) == 0
  {
    if k == 0 {
    } else {
      assert path[k - 1] in path;
      NotCounted(path, m, k - 1);
    }
  }

  /** The path starts in a module, and no more than `nest` other scopes are nested in any module. */
  predicate Shallow(path: Path, nest: nat) {
    path != [] && path[|path| - 1].Module? && forall k :: 0 <= k < |path| ==> Run(path[k..]) <= nest
  }

  lemma {:induction false} LengthByRuns(path: Path, nest: nat)
    requires Shallow(path, nest)
    ensures |path| <= Run(path) + Modules(path) + (Modules(path) - 1) * nest
    ensures Modules(path) >= 1
  {
    assert path[0..] == path;
    if |path| <= 1 {
    } else {
      var up := path[1..];
      forall k | 0 <= k < |up|
        ensures Run(up[k..]) <= nest
      {
        assert up[k..] == path[k + 1..];
      }
      LengthByRuns(up, nest);
      if path[0].Module? {
        Distribute(Modules(up) - 1, 1, nest);
        assert up[0..] == up;
      }
    }
  }

  /** The depth of a scope is bounded by the modules there are, the limit, and the nesting within a module. */
  lemma DepthBounded(limit: nat, names: set<Name>, nest: nat, path: Path)
    requires Sound(limit, path) && Known(names, path) && Shallow(path, nest)
    ensures |path| <= |names| * (limit + 1) * (1 + nest)
  {
    ModulesBounded(names, path, limit + 1);
    LengthByRuns(path, nest);
    assert path[0..] == path;
    var n, cap := Modules(path), |names| * (limit + 1);
    Distribute(n - 1, 1, nest);
    assert |path| <= n + n * nest;
    Distribute(n, cap - n, 1 + nest);
    Distribute(1, nest, n);
    TimesNonNegative(cap - n, 1 + nest);
  }
}
