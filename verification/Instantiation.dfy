/**
 * Elaboration of scopes: module instances and generate schemes create scopes, instance arrays and generate
 * schemes by way of a work list.
 */
module Instantiation {
  import opened Options
  import opened ScopeContents
  import opened ScopeNames
  import opened ScopePaths
  import opened ScopeTree
  import HName

  datatype Verdict = Accept | NestedTooDeep | WithinItself

  class Design {
    const src: Source
    // a bound on the nesting of blocks in a module
    ghost const nest: nat

    var scopes: set<NetScope>
    var workList: seq<WorkItem>
    var errors: nat
    // all work that is not done yet: the rest of the current batch, and the work list
    ghost var todo: seq<WorkItem>

    /** The paths of the scopes that may exist. */
    ghost predicate Good(path: Path) {
      Sound(src.limit, path) && Known(src.library.Keys, path) && Shallow(path, nest)
    }

    /** A scope of the design keeps the bounds and has the text of its module. */
    ghost predicate Fit(s: NetScope) {
      && s.Valid() && Good(s.path) && Run(s.path) + NestingAll(s.text) <= nest
      && (s.kind.Module? ==> s.kind.name in src.library && s.text == src.library[s.kind.name])
    }

    ghost predicate Has(s: NetScope)
      reads this`scopes
    {
      s in scopes && Fit(s)
    }

    /** Every scope but the roots was called for by its parent, which is in the design too. */
    ghost predicate Rooted()
      reads this`scopes
    {
      forall s, p :: s in scopes && IsChild(s, p) ==> p in scopes && CalledFor(src, p, CallOf(s))
    }

    /** The item can be run: an instance array was accepted when it was put on the list. */
    ghost predicate Sane(w: WorkItem) {
      if w.Instances? then
        && w.mod in src.library && Accepted(src.limit, w.mod, w.scope.path)
        && Instance(w.mod, w.gate, w.ranges) in w.scope.text
      else w.scope.kind == Module(w.mod)
    }

    ghost predicate Runnable(w: WorkItem)
      reads this`scopes
    {
      Has(w.scope) && Sane(w)
    }

    /** The work list is the end of what is to be done. */
    ghost predicate Aligned(workList: seq<WorkItem>, todo: seq<WorkItem>) {
      |workList| <= |todo| && forall i :: 0 <= i < |workList| ==> workList[i] == todo[|todo| - |workList| + i]
    }

    ghost predicate Valid()
      reads this`scopes, this`workList, this`todo
    {
      && (forall s :: s in scopes ==> Has(s))
      && Rooted()
      && (forall w :: w in todo ==> Runnable(w))
      && Aligned(workList, todo)
      && (forall m :: m in src.library ==> NestingAll(src.library[m]) <= nest)
    }

    ghost function SetOf(work: seq<WorkItem>): set<WorkItem> {
      set w | w in work
    }

    /** The work that is still to be done */
    ghost function Pending(): set<WorkItem>
      reads this`todo
    {
      SetOf(todo)
    }

    /** Every scope but those under construction is complete up to pending work, and settled. */
    ghost predicate CompleteBut(open: set<NetScope>)
      reads this`scopes, this`todo
    {
      forall s :: s in scopes && s !in open ==> Complete(src, s, scopes, Pending()) && Settled(src, s, scopes, todo)
    }

    constructor (src: Source, ghost nest: nat)
      requires forall m :: m in src.library ==> NestingAll(src.library[m]) <= nest
      ensures Valid() && CompleteBut({}) && scopes == {} && workList == [] && todo == [] && this.src == src
    {
      this.src, this.nest := src, nest;
      scopes, workList, errors, todo := {}, [], 0, [];
    }

    /** How many more modules can be nested below a scope. */
    ghost function Budget(path: Path): nat {
      var left := |src.library.Keys| * (src.limit + 1) - Modules(path);
      if left >= 0 then left else 0
    }

    /** Items of smaller measure only are put on the work list by the run of an item. */
    ghost function Measure(w: WorkItem): nat {
      2 * Budget(w.scope.path) + (match w case Root(_, _) => 2 case Schemes(_, _) => 1 case Instances(_, _, _, _) => 0)
    }

    /**
     * Nothing is lost, what is new on the work list has a measure below m, and new scopes are below sc. Work and
     * scopes are new in sc and in new scopes only.
     */
    twostate predicate Grows(sc: NetScope, m: int)
      reads this
    {
      && old(errors) <= errors && |todo| - |workList| == old(|todo| - |workList|)
      && GrownSince(sc, m, old(scopes), old(todo), scopes, todo)
    }

    ghost predicate GrownSince(sc: NetScope, m: int, created: set<NetScope>, before: seq<WorkItem>,
                               created': set<NetScope>, todo': seq<WorkItem>)
    {
      && before <= todo' && NewWork(created, before, todo', sc, m)
      && created <= created' && GrownBelow(created, created', sc)
    }

    ghost predicate NewWork(before: set<NetScope>, todo: seq<WorkItem>, todo': seq<WorkItem>, sc: NetScope, m: int) {
      forall i :: |todo| <= i < |todo'| ==>
        Measure(todo'[i]) < m && (todo'[i].scope == sc || todo'[i].scope !in before)
    }

    ghost predicate GrownBelow(before: set<NetScope>, created: set<NetScope>, sc: NetScope) {
      && (forall s :: s in created && s !in before ==> |s.path| > |sc.path|)
      && (forall s, p :: s in created && s !in before && IsChild(s, p) ==> p == sc || p !in before)
    }

    /** What is new in sc has distinct names. */
    twostate predicate NewUnique(sc: NetScope)
      reads this`scopes
    {
      Unique(sc, scopes - old(scopes))
    }

    /** No work for sc is new. */
    twostate predicate NoWork(sc: NetScope)
      reads this`todo
    {
      forall i :: |old(todo)| <= i < |todo| ==> todo[i].scope != sc
    }

    /** What is new in sc was called for by the item. */
    twostate predicate OnlyFor(item: Item, sc: NetScope)
      reads this`scopes
    {
      forall s :: s in scopes && s !in old(scopes) && s.parent == sc ==> Calls(src, item, sc, CallOf(s))
    }

    /** What is new in sc answers this call. */
    twostate predicate OnlyOne(c: Call, sc: NetScope)
      reads this`scopes
    {
      forall s :: s in scopes && s !in old(scopes) && s.parent == sc ==> CallOf(s) == c
    }

    /** What the item calls for is called for by the text of the scope. */
    ghost predicate Warranted(item: Item, sc: NetScope) {
      forall c :: Calls(src, item, sc, c) ==> CalledFor(src, sc, c)
    }

    ghost predicate SchemesWarranted(items: seq<Item>, sc: NetScope) {
      forall k :: 0 <= k < |items| && items[k].Generate? ==> Warranted(items[k], sc)
    }

    lemma TextIsWarranted(sc: NetScope, k: nat)
      requires k < |sc.text|
      ensures Warranted(sc.text[k], sc)
    {
    }

    /** The scope may get a child of this kind. */
    ghost predicate MayContain(parent: NetScope, kind: Kind)
      reads this`scopes
    {
      Has(parent) &&
      if kind.Module? then kind.name in src.library && Accepted(src.limit, kind.name, parent.path)
      else Run(parent.path) < nest
    }

    lemma ChildIsGood(parent: NetScope, kind: Kind)
      requires MayContain(parent, kind)
      ensures Good([kind] + parent.path)
      ensures Budget([kind] + parent.path) == Budget(parent.path) - if kind.Module? then 1 else 0
      ensures Run([kind] + parent.path) == if kind.Module? then 0 else Run(parent.path) + 1
    {
      var longer := [kind] + parent.path;
      ModulesBounded(src.library.Keys, parent.path, src.limit + 1);
      if kind.Module? {
        AcceptedExactly(src.limit, kind.name, parent.path);
      } else {
        BlockKeepsSound(src.limit, kind, parent.path);
      }
      assert longer[1..] == parent.path;
      forall k | 0 <= k < |longer|
        ensures Run(longer[k..]) <= nest
      {
        if k > 0 { assert longer[k..] == parent.path[k - 1..]; } else { assert longer[0..] == longer; }
      }
      ModulesBounded(src.library.Keys, longer, src.limit + 1);
    }

    /** Scopes and work have been added, and all is kept but for the scopes in `open`. */
    lemma StillComplete(open: set<NetScope>, created: set<NetScope>, before: seq<WorkItem>)
      requires created <= scopes && before <= todo && scopes - created <= open
      requires forall s :: s in created && s !in open ==>
                 && Complete(src, s, created, SetOf(before)) && Settled(src, s, created, before)
                 && NothingNew(s, created, before, scopes, todo)
      ensures CompleteBut(open)
    {
    }

    lemma AddedRooted(created: set<NetScope>, s: NetScope)
      requires scopes == created + {s}
      requires s.parent != null ==> s.parent in created && CalledFor(src, s.parent, CallOf(s))
      requires forall t, p :: t in created && IsChild(t, p) ==> p in created && CalledFor(src, p, CallOf(t))
      ensures Rooted()
    {
    }

    /**
     * If all that is new is one scope in sc and what belongs to that, then it is all that is new in sc, where there
     * is no new work.
     */
    lemma OnlyNew(created: set<NetScope>, s: NetScope, sc: NetScope, c: Call)
      requires Valid() && s in scopes && s !in created && sc in created && Answers(s, sc, c)
      requires |s.path| == |sc.path| + 1 && GrownBelow(created + {s}, scopes, s)
      ensures HasScope(scopes - created, sc, c) && HasScope(scopes, sc, c) && Unique(sc, scopes - created)
      ensures forall t :: t in scopes && t !in created && t.parent == sc ==> CallOf(t) == c
    {
      forall t | t in scopes && t !in created && t.parent == sc
        ensures t == s
      {
        assert IsChild(t, sc);
      }
    }

    lemma GrownThrough(created: set<NetScope>, before: seq<WorkItem>, s: NetScope, sc: NetScope, m: int)
      requires s in scopes && s !in created && sc in created && IsChild(s, sc) && |s.path| == |sc.path| + 1
      requires GrownSince(s, m, created + {s}, before, scopes, todo)
      ensures GrownSince(sc, m, created, before, scopes, todo)
      ensures forall i :: |before| <= i < |todo| ==> todo[i].scope != sc
    {
    }

    /** One more scope keeps what holds of the design. */
    lemma AddedValid(created: set<NetScope>, s: NetScope)
      requires scopes == created + {s} && Fit(s) && Rooted()
      requires forall t :: t in created ==> Fit(t)
      requires forall w :: w in todo ==> w.scope in created && Sane(w)
      requires Aligned(workList, todo)
      requires forall m :: m in src.library ==> NestingAll(src.library[m]) <= nest
      ensures Valid()
    {
    }

    /** A new scope that its parent calls for. Both are under construction. */
    method NewScope(parent: NetScope, c: Call, ghost open: set<NetScope>) returns (s: NetScope)
      requires Valid() && MayContain(parent, c.kind) && CompleteBut(open) && CalledFor(src, parent, c)
      requires parent in open
      requires c.kind.Module? ==> c.text == src.library[c.kind.name]
      requires !c.kind.Module? ==> Run(parent.path) + 1 + NestingAll(c.text) <= nest
      modifies this`scopes
      ensures Valid() && s !in old(scopes) && scopes == old(scopes) + {s} && CompleteBut(open + {s})
      ensures Answers(s, parent, c) && s.path == [c.kind] + parent.path && Untouched(s, scopes, todo)
      ensures Budget(s.path) == Budget(parent.path) - if c.kind.Module? then 1 else 0
    {
      ghost var created := scopes;
      s := new NetScope(parent, c.name, c.kind, c.text);
      scopes := scopes + {s};
      ChildIsGood(parent, c.kind);
      assert CallOf(s) == c;
      AddedRooted(created, s);
      AddedValid(created, s);
      NewIsUntouched(created, s);
      StillComplete(open + {s}, created, todo);
    }

    lemma NewIsUntouched(created: set<NetScope>, s: NetScope)
      requires Valid() && scopes == created + {s} && s !in created && s.parent != s
      requires forall t, p :: t in created && IsChild(t, p) ==> p in created
      requires forall w :: w in todo ==> w.scope in created
      ensures Untouched(s, scopes, todo)
    {
    }

    /** Puts an item on the work list. */
    method Schedule(w: WorkItem, ghost open: set<NetScope>)
      requires Valid() && Runnable(w) && CompleteBut(open) && w.scope in open
      modifies this`workList, this`todo
      ensures Valid() && CompleteBut(open) && workList == old(workList) + [w] && todo == old(todo) + [w]
      ensures w in workList && w in todo
    {
      ghost var list, before := workList, todo;
      workList, todo := workList + [w], todo + [w];
      assert workList[|workList| - 1] == w && todo[|todo| - 1] == w;
      OneMoreAligned(list, before, w);
      StillComplete(open, scopes, before);
    }

    lemma OneMoreAligned(list: seq<WorkItem>, before: seq<WorkItem>, w: WorkItem)
      requires Aligned(list, before)
      ensures Aligned(list + [w], before + [w])
    {
    }

    /** A scope that is complete and settled is no longer under construction. */
    lemma Closed(open: set<NetScope>, s: NetScope)
      requires CompleteBut(open + {s}) && Complete(src, s, scopes, Pending()) && Settled(src, s, scopes, todo)
      ensures CompleteBut(open)
    {
    }

    // ------------------------------------------------------ module instances

    /** The scan for recursive instantiation in PGModule::elaborate_scope_mod_ */
    method CheckRecursion(sc: NetScope, mod: Name) returns (verdict: Verdict)
      requires sc.Valid()
      ensures Judged(src.limit, mod, sc.path, verdict)
      ensures verdict == Accept ==> |set i: nat | i < |sc.path| && sc.path[i] == Module(mod)| <= src.limit
      ensures verdict == WithinItself <==> !BehindGenerate(sc.path, mod)
    {
      AcceptedMeans(src.limit, mod, sc.path);
      verdict := ScanParents(sc, mod);
    }

    /** The scan itself */
    method ScanParents(sc: NetScope, mod: Name) returns (verdict: Verdict)
      requires sc.Valid()
      ensures Judged(src.limit, mod, sc.path, verdict)
    {
      var rlCount := 0;
      var inGenblk := false;
      var scn: NetScope? := sc;
      ghost var path := sc.path;
      ghost var k: nat := 0;
      verdict := Accept;
      while scn != null
        invariant k <= |path| && At(scn, path, k) && verdict == Accept
        invariant Climbed(src.limit, mod, path, k, rlCount, inGenblk)
        decreases |path| - k
      {
        UpOne(scn, path, k);
        verdict, rlCount, inGenblk := CheckScope(scn.kind, mod, rlCount, inGenblk, path, k);
        if verdict != Accept {
          return;
        }
        k := k + 1;
        scn := scn.parent;
      }
    }

    /** One round of the scan: the scope has this kind, and is scope k of the path. */
    method CheckScope(kind: Kind, mod: Name, rlCount: nat, inGenblk: bool, ghost path: Path, ghost k: nat)
      returns (verdict: Verdict, rlCount': nat, inGenblk': bool)
      requires k < |path| && path[k] == kind && Climbed(src.limit, mod, path, k, rlCount, inGenblk)
      ensures verdict == Accept ==> Climbed(src.limit, mod, path, k + 1, rlCount', inGenblk')
      ensures verdict != Accept ==> Judged(src.limit, mod, path, verdict)
    {
      verdict, rlCount', inGenblk' := Accept, rlCount, inGenblk;
      if kind == GenBlock {
        inGenblk' := true;
      } else if kind == Module(mod) {
        if !inGenblk {
          Offended(src.limit, mod, path, k);
          verdict := WithinItself;
          return;
        }
        rlCount' := rlCount + 1;
        if rlCount' > src.limit {
          TooMany(src.limit, mod, path, k);
          verdict := NestedTooDeep;
          return;
        }
      }
      PassedOne(src.limit, mod, path, k);
    }

    /** New work for sc is the array that this item stands for, and then it is all that is new. */
    twostate predicate OnlyWork(item: Item, sc: NetScope)
      reads this`scopes, this`todo
    {
      forall i :: |old(todo)| <= i < |todo| && todo[i].scope == sc ==>
        && item.Instance? && todo[i] == Instances(sc, item.mod, item.gate, item.ranges)
        && scopes == old(scopes) && |todo| == |old(todo)| + 1
    }

    /** PGModule::elaborate_scope_mod_ */
    method ElaborateInstance(sc: NetScope, mod: Name, gate: Name, ranges: nat, ghost open: set<NetScope>)
      requires Valid() && CompleteBut(open) && sc in scopes && sc in open && mod in src.library
      requires Instance(mod, gate, ranges) in sc.text
      modifies `scopes, `workList, `todo, `errors
      ensures Valid() && CompleteBut(open) && Grows(sc, 2 * Budget(sc.path) + 1)
      ensures ItemDone(src, Instance(mod, gate, ranges), sc, scopes, Pending())
      ensures OnlyFor(Instance(mod, gate, ranges), sc) && NewUnique(sc)
      ensures OnlyWork(Instance(mod, gate, ranges), sc)
      ensures !Accepted(src.limit, mod, sc.path) ==>
                errors == old(errors) + 1 && scopes == old(scopes) && workList == old(workList) && todo == old(todo)
      ensures Accepted(src.limit, mod, sc.path) && ranges > 0 ==>
                workList == old(workList) + [Instances(sc, mod, gate, ranges)] && scopes == old(scopes)
      decreases Budget(sc.path), 0, 2
    {
      var verdict := CheckRecursion(sc, mod);
      if verdict != Accept {
        errors := errors + 1;
        return;
      }
      if ranges > 0 {
        Schedule(Instances(sc, mod, gate, ranges), open);
      } else {
        ElaborateInstances(sc, mod, gate, ranges, open);
      }
    }

    /** PGate::calculate_array_size_ */
    method ArraySize(sc: NetScope, gate: Name, ranges: nat) returns (size: nat, high: int, low: int)
      modifies this`errors
      ensures size == SizeOf(src, sc, gate, ranges)
      ensures size > 0 && ranges > 0 ==> RangeEnds(src.choices.range(sc, gate)) == Some((high, low))
      ensures ranges == 1 ==> forall i :: Within(src.choices.range(sc, gate), i) <==>
                                (if high < low then high else low) <= i < (if high < low then high else low) + size
      ensures errors == old(errors) + if ranges > 1 then 1
                                      else if ranges == 1 then RangeErrors(src.choices.range(sc, gate)) else 0
    {
      high, low := 0, 0;
      if ranges > 1 {
        errors := errors + 1;
        return 0, high, low;
      }
      size := 1;
      if ranges == 1 {
        var ok;
        ok, high, low := EvaluateRange(src.choices.range(sc, gate));
        if !ok {
          return 0, high, low;
        }
        if high > low {
          size := high - low + 1;
        } else {
          size := low - high + 1;
        }
      }
    }

    /** evaluate_range */
    method EvaluateRange(range: RangeText) returns (ok: bool, indexL: int, indexR: int)
      modifies this`errors
      ensures ok <==> RangeEnds(range).Some?
      ensures ok ==> RangeEnds(range).value == (indexL, indexR)
      ensures errors == old(errors) + RangeErrors(range)
      ensures ok <==> errors == old(errors) && (exists i :: Within(range, i))
      ensures ok ==> forall i :: Within(range, i) <==> indexL <= i <= indexR || indexR <= i <= indexL
    {
      ok, indexL, indexR := true, 0, 0;
      match range
      case NoRange =>
        ok := false;
        errors := errors + 1;
      case OneSize(size) =>
        if size.None? || size.value <= 0 {
          ok := false;
          errors := errors + 1;
        } else {
          indexR := size.value - 1;
          assert Within(range, 0);
        }
      case Ends(first, second) =>
        if first.None? {
          ok := false;
          errors := errors + 1;
        }
        if second.None? {
          ok := false;
          errors := errors + 1;
        }
        if ok {
          indexL, indexR := first.value, second.value;
        }
      assert ok ==> Within(range, indexL);
    }

    /** The call for instance i. */
    ghost function InstanceCall(sc: NetScope, mod: Name, gate: Name, ranges: nat, i: nat): Call
      requires mod in src.library
    {
      Call(InstanceName(src, sc, gate, ranges, i), Module(mod), src.library[mod])
    }

    /** PGModule::elaborate_scope_mod_instances_ */
    method ElaborateInstances(sc: NetScope, mod: Name, gate: Name, ranges: nat, ghost open: set<NetScope>)
      requires Valid() && CompleteBut(open) && sc in scopes && mod in src.library && Accepted(src.limit, mod, sc.path)
      requires sc in open && Instance(mod, gate, ranges) in sc.text
      modifies `scopes, `workList, `todo, `errors
      ensures Valid() && CompleteBut(open) && Grows(sc, 2 * Budget(sc.path)) && NoWork(sc)
      ensures AllThere(src, Instance(mod, gate, ranges), sc, scopes) && OnlyFor(Instance(mod, gate, ranges), sc)
      ensures NewUnique(sc) && GateBuilt(sc, mod, gate, ranges, scopes - old(scopes))
      ensures SizeOf(src, sc, gate, ranges) == 0 ==> scopes == old(scopes) && workList == old(workList)
      decreases Budget(sc.path), 0, 1
    {
      var count, high, low := ArraySize(sc, gate, ranges);
      for idx := 0 to count
        invariant Valid() && CompleteBut(open) && sc in scopes && Grows(sc, 2 * Budget(sc.path)) && NoWork(sc)
        invariant OnlyFor(Instance(mod, gate, ranges), sc)
        invariant InstancesUpTo(sc, mod, gate, ranges, idx, scopes - old(scopes))
        invariant NamedUpTo(sc, gate, ranges, idx, scopes - old(scopes))
        invariant count == 0 ==> scopes == old(scopes) && workList == old(workList)
      {
        var useName := UseName(sc, gate, ranges, idx, high, low);
        MakeInstance(sc, mod, gate, ranges, idx, useName, open, old(scopes));
      }
      InstancesThere(sc, mod, gate, ranges, scopes - old(scopes), scopes);
      GateIsBuilt(sc, mod, gate, ranges, scopes - old(scopes));
    }

    /** The scopes in sc that are new have the names of the first n instances, one each. */
    ghost predicate NamedUpTo(sc: NetScope, gate: Name, ranges: nat, n: nat, news: set<NetScope>) {
      && Unique(sc, news)
      && forall s :: s in news && IsChild(s, sc) ==>
           exists i: nat :: i < n && s.name == InstanceName(src, sc, gate, ranges, i)
    }

    lemma NamedOneMore(sc: NetScope, gate: Name, ranges: nat, n: nat, created: set<NetScope>, mid: set<NetScope>,
                       created': set<NetScope>)
      requires n < SizeOf(src, sc, gate, ranges) && created <= mid <= created'
      requires NamedUpTo(sc, gate, ranges, n, mid - created) && Unique(sc, created' - mid)
      requires forall s :: s in created' - mid && IsChild(s, sc) ==> s.name == InstanceName(src, sc, gate, ranges, n)
      ensures NamedUpTo(sc, gate, ranges, n + 1, created' - created)
    {
    }

    ghost predicate InstancesUpTo(sc: NetScope, mod: Name, gate: Name, ranges: nat, n: nat, created: set<NetScope>)
      requires mod in src.library
    {
      forall i :: 0 <= i < n ==> HasScope(created, sc, InstanceCall(sc, mod, gate, ranges, i))
    }

    lemma InstancesStay(sc: NetScope, mod: Name, gate: Name, ranges: nat, n: nat, created: set<NetScope>,
                        more: set<NetScope>, created': set<NetScope>)
      requires mod in src.library && created' == created + more && InstancesUpTo(sc, mod, gate, ranges, n, created)
      requires HasScope(more, sc, InstanceCall(sc, mod, gate, ranges, n))
      ensures InstancesUpTo(sc, mod, gate, ranges, n + 1, created')
    {
      HasScopeStays(more, created', sc, InstanceCall(sc, mod, gate, ranges, n));
      forall i | 0 <= i < n
        ensures HasScope(created', sc, InstanceCall(sc, mod, gate, ranges, i))
      {
        assert HasScope(created, sc, InstanceCall(sc, mod, gate, ranges, i));
        HasScopeStays(created, created', sc, InstanceCall(sc, mod, gate, ranges, i));
      }
    }

    lemma HasScopeStays(created: set<NetScope>, created': set<NetScope>, sc: NetScope, c: Call)
      requires created <= created' && HasScope(created, sc, c)
      ensures HasScope(created', sc, c)
    {
    }

    lemma InstancesThere(sc: NetScope, mod: Name, gate: Name, ranges: nat, created: set<NetScope>,
                         created': set<NetScope>)
      requires mod in src.library && created <= created'
      requires InstancesUpTo(sc, mod, gate, ranges, SizeOf(src, sc, gate, ranges), created)
      ensures AllThere(src, Instance(mod, gate, ranges), sc, created')
    {
      forall c | Calls(src, Instance(mod, gate, ranges), sc, c)
        ensures HasScope(created', sc, c)
      {
        var i: nat :| i < SizeOf(src, sc, gate, ranges) && c.name == InstanceName(src, sc, gate, ranges, i);
        assert c == InstanceCall(sc, mod, gate, ranges, i);
        HasScopeStays(created, created', sc, c);
      }
    }

    /** The scopes of all instances of the gate are new: one of each name that its range calls for, and no others. */
    ghost predicate GateBuilt(sc: NetScope, mod: Name, gate: Name, ranges: nat, news: set<NetScope>)
      requires mod in src.library
    {
      forall name :: HasChild(news, sc, name, Module(mod), src.library[mod]) <==>
        || (ranges == 0 && name == HName.Key(gate, []))
        || (ranges == 1 && |name.numbers| == 1 && name == HName.Key(gate, [name.numbers[0]])
            && Within(src.choices.range(sc, gate), name.numbers[0]))
    }

    lemma GateIsBuilt(sc: NetScope, mod: Name, gate: Name, ranges: nat, news: set<NetScope>)
      requires mod in src.library && InstancesUpTo(sc, mod, gate, ranges, SizeOf(src, sc, gate, ranges), news)
      requires NamedUpTo(sc, gate, ranges, SizeOf(src, sc, gate, ranges), news)
      ensures GateBuilt(sc, mod, gate, ranges, news)
    {
      forall name
        ensures HasChild(news, sc, name, Module(mod), src.library[mod]) <==> NamesInstance(src, sc, gate, ranges, name)
        ensures NamesInstance(src, sc, gate, ranges, name) <==>
                || (ranges == 0 && name == HName.Key(gate, []))
                || (ranges == 1 && |name.numbers| == 1 && name == HName.Key(gate, [name.numbers[0]])
                    && Within(src.choices.range(sc, gate), name.numbers[0]))
      {
        IndicesNamed(src, sc, gate, ranges, name);
        ChildAnswers(news, sc, name, Module(mod), src.library[mod]);
        if NamesInstance(src, sc, gate, ranges, name) {
          var i: nat :| i < SizeOf(src, sc, gate, ranges) && name == InstanceName(src, sc, gate, ranges, i);
          assert HasScope(news, sc, InstanceCall(sc, mod, gate, ranges, i));
        }
        if HasChild(news, sc, name, Module(mod), src.library[mod]) {
          var s :| s in news && s.parent == sc && s.name == name;
          assert IsChild(s, sc);
        }
      }
    }

    /** The name that the loop over the instances computes */
    method UseName(sc: NetScope, gate: Name, ranges: nat, idx: nat, high: int, low: int) returns (name: HName.Key)
      requires idx < SizeOf(src, sc, gate, ranges)
      requires ranges > 0 ==> RangeEnds(src.choices.range(sc, gate)) == Some((high, low))
      ensures name == InstanceName(src, sc, gate, ranges, idx)
    {
      name := HName.Key(gate, []);
      if ranges > 0 {
        name := HName.Key(gate, [if low < high then low + idx else low - idx]);
      }
    }

    /** One round of the loop over the instances */
    method MakeInstance(sc: NetScope, mod: Name, gate: Name, ranges: nat, ghost idx: nat, name: HName.Key,
                        ghost open: set<NetScope>, ghost created: set<NetScope>)
      requires Valid() && CompleteBut(open) && sc in scopes && mod in src.library && Accepted(src.limit, mod, sc.path)
      requires Instance(mod, gate, ranges) in sc.text && idx < SizeOf(src, sc, gate, ranges)
      requires name == InstanceName(src, sc, gate, ranges, idx)
      requires InstancesUpTo(sc, mod, gate, ranges, idx, scopes - created)
      requires sc in open && created <= scopes && NamedUpTo(sc, gate, ranges, idx, scopes - created)
      modifies `scopes, `workList, `todo, `errors
      ensures Valid() && CompleteBut(open) && Grows(sc, 2 * Budget(sc.path)) && OnlyFor(Instance(mod, gate, ranges), sc)
      ensures InstancesUpTo(sc, mod, gate, ranges, idx + 1, scopes - created) && NoWork(sc)
      ensures NamedUpTo(sc, gate, ranges, idx + 1, scopes - created)
      decreases Budget(sc.path), 0, 0, 1
    {
      var c := Call(name, Module(mod), src.library[mod]);
      assert Calls(src, Instance(mod, gate, ranges), sc, c);
      MakeModule(sc, c, mod, open);
      InstancesStay(sc, mod, gate, ranges, idx, old(scopes) - created, scopes - old(scopes), scopes - created);
      NamedOneMore(sc, gate, ranges, idx, created, old(scopes), scopes);
    }

    /** The scope of a module instance, with its contents */
    method MakeModule(sc: NetScope, c: Call, mod: Name, ghost open: set<NetScope>)
      requires Valid() && CompleteBut(open) && sc in scopes && mod in src.library && Accepted(src.limit, mod, sc.path)
      requires sc in open && CalledFor(src, sc, c) && c.kind == Module(mod) && c.text == src.library[mod]
      modifies `scopes, `workList, `todo, `errors
      ensures Valid() && CompleteBut(open) && Grows(sc, 2 * Budget(sc.path))
      ensures HasScope(scopes - old(scopes), sc, c) && OnlyOne(c, sc) && NewUnique(sc) && NoWork(sc)
      decreases Budget(sc.path), 0, 0, 0
    {
      ghost var created, before := scopes, todo;
      var scope := NewScope(sc, c, open);
      UntouchedIsSettled(src, scope, scopes, todo);
      ElaborateModule(scope, mod, open + {scope});
      Closed(open, scope);
      OnlyNew(created, scope, sc, c);
      GrownThrough(created, before, scope, sc, 2 * Budget(sc.path));
    }

    /** Module::elaborate_scope: the generate schemes have to wait until the defparams are known. */
    method ElaborateModule(sc: NetScope, mod: Name, ghost open: set<NetScope>)
      requires Valid() && CompleteBut(open) && sc in scopes && sc in open && sc.kind == Module(mod)
      requires Settled(src, sc, scopes, todo) && Free(src, Root(sc, mod), scopes, todo)
      modifies `scopes, `workList, `todo, `errors
      ensures Valid() && CompleteBut(open) && Grows(sc, 2 * Budget(sc.path) + 2)
      ensures forall k :: 0 <= k < |sc.text| ==> ItemDone(src, sc.text[k], sc, scopes, Pending())
      ensures Schemes(sc, mod) in workList && Settled(src, sc, scopes, todo)
      decreases Budget(sc.path), nest + 1, 0
    {
      Schedule(Schemes(sc, mod), open);
      ElaborateItems(sc, src.library[mod], open);
      assert workList[|old(workList)|] == todo[|old(todo)|] == Schemes(sc, mod);
      assert Schemes(sc, mod) in Pending();
      ModuleSettled(src, sc, mod, old(scopes), old(todo), scopes, todo);
    }

    // -------------------------------------------------- the contents of scopes

    /** The instances among the items that are not allowed. */
    ghost function Rejections(items: seq<Item>, path: Path, k: nat): nat
      requires k <= |items|
    {
      if k == 0 then 0
      else
        var i := items[k - 1];
        Rejections(items, path, k - 1)
        + (if i.Instance? && i.mod in src.library && !Accepted(src.limit, i.mod, path) then 1 else 0)
    }

    /** The instances and blocks among the first n items of the scope are done. */
    ghost predicate DoneUpTo(sc: NetScope, n: nat, created: set<NetScope>, pending: set<WorkItem>)
      requires n <= |sc.text|
    {
      forall k :: 0 <= k < n && !sc.text[k].Generate? ==> ItemDone(src, sc.text[k], sc, created, pending)
    }

    lemma StillDone(sc: NetScope, n: nat, created: set<NetScope>, pending: set<WorkItem>)
      requires n <= |sc.text| && created <= scopes && pending <= Pending() && DoneUpTo(sc, n, created, pending)
      ensures DoneUpTo(sc, n, scopes, Pending())
    {
    }

    /** What does not wait for the defparams: instances, and the scopes of tasks, functions and blocks. */
    method ElaborateItems(sc: NetScope, items: seq<Item>, ghost open: set<NetScope>)
      requires Valid() && CompleteBut(open) && sc in scopes && sc in open && items == sc.text
      modifies `scopes, `workList, `todo, `errors
      ensures Valid() && CompleteBut(open) && Grows(sc, 2 * Budget(sc.path) + 1)
      ensures DoneUpTo(sc, |sc.text|, scopes, Pending())
      ensures errors >= old(errors) + Rejections(items, sc.path, |items|)
      ensures Since(src, sc, |sc.text|, old(scopes), |old(todo)|, scopes, todo)
      decreases Budget(sc.path), NestingAll(items), 4
    {
      NothingYet(sc, 2 * Budget(sc.path) + 1);
      for k := 0 to |items|
        invariant Valid() && CompleteBut(open) && sc in scopes && |todo| - |workList| == old(|todo| - |workList|)
        invariant GrownSince(sc, 2 * Budget(sc.path) + 1, old(scopes), old(todo), scopes, todo)
        invariant DoneUpTo(sc, k, scopes, Pending())
        invariant errors >= old(errors) + Rejections(items, sc.path, k)
        invariant Since(src, sc, k, old(scopes), |old(todo)|, scopes, todo)
      {
        ElaborateNext(sc, items, k, open, old(scopes), old(todo));
      }
    }

    lemma NothingYet(sc: NetScope, m: int)
      ensures GrownSince(sc, m, scopes, todo, scopes, todo) && Since(src, sc, 0, scopes, |todo|, scopes, todo)
    {
    }

    /** One round of the loop over the items of a scope */
    method ElaborateNext(sc: NetScope, items: seq<Item>, k: nat, ghost open: set<NetScope>,
                         ghost created: set<NetScope>, ghost before: seq<WorkItem>)
      requires Valid() && CompleteBut(open) && sc in scopes && sc in open && items == sc.text
      requires k < |items| && DoneUpTo(sc, k, scopes, Pending()) && Since(src, sc, k, created, |before|, scopes, todo)
      requires GrownSince(sc, 2 * Budget(sc.path) + 1, created, before, scopes, todo)
      modifies `scopes, `workList, `todo, `errors
      ensures Valid() && CompleteBut(open) && sc in scopes && |todo| - |workList| == old(|todo| - |workList|)
      ensures GrownSince(sc, 2 * Budget(sc.path) + 1, created, before, scopes, todo)
      ensures DoneUpTo(sc, k + 1, scopes, Pending())
      ensures errors - old(errors) >= Rejections(items, sc.path, k + 1) - Rejections(items, sc.path, k)
      ensures Since(src, sc, k + 1, created, |before|, scopes, todo)
      decreases Budget(sc.path), NestingAll(items), 4, 0
    {
      NestingOf(items, k);
      ElaborateItem(sc, items[k], open);
      StillDone(sc, k, old(scopes), old(Pending()));
      SinceOneMore(src, sc, k, created, |before|, old(scopes), old(todo), scopes, todo);
    }

    method ElaborateItem(sc: NetScope, item: Item, ghost open: set<NetScope>)
      requires Valid() && CompleteBut(open) && sc in scopes && item in sc.text && Run(sc.path) + Nesting(item) <= nest
      requires sc in open
      modifies `scopes, `workList, `todo, `errors
      ensures Valid() && CompleteBut(open) && Grows(sc, 2 * Budget(sc.path) + 1) && old(Pending()) <= Pending()
      ensures !item.Generate? ==> ItemDone(src, item, sc, scopes, Pending()) && OnlyFor(item, sc)
      ensures OnlyWork(item, sc) && NewUnique(sc)
      ensures item.Generate? ==> scopes == old(scopes) && todo == old(todo)
      ensures item.Instance? && item.mod in src.library && !Accepted(src.limit, item.mod, sc.path) ==>
                errors > old(errors)
      decreases Budget(sc.path), Nesting(item), 3
    {
      match item
      case Instance(mod, gate, ranges) =>
        if mod in src.library {
          ElaborateInstance(sc, mod, gate, ranges, open);
        }
      case Block(name, nested) =>
        ElaborateBlock(sc, item, open);
      case Generate(_, _, _, _) =>
    }

    /** The scope of a task, function or block */
    method ElaborateBlock(sc: NetScope, item: Item, ghost open: set<NetScope>)
      requires Valid() && CompleteBut(open) && sc in scopes && item in sc.text && Run(sc.path) + Nesting(item) <= nest
      requires sc in open && item.Block?
      modifies `scopes, `workList, `todo, `errors
      ensures Valid() && CompleteBut(open) && Grows(sc, 2 * Budget(sc.path) + 1)
      ensures AllThere(src, item, sc, scopes) && OnlyFor(item, sc) && NewUnique(sc) && NoWork(sc)
      decreases Budget(sc.path), Nesting(item), 2
    {
      var c := Call(HName.Key(item.name, []), Other, item.items);
      assert Calls(src, item, sc, c);
      MakeBlock(sc, c, open);
    }

    /** The scope of a block, with its contents; PGenerate::elaborate_subscope_ */
    method MakeBlock(sc: NetScope, c: Call, ghost open: set<NetScope>)
      requires Valid() && CompleteBut(open) && sc in scopes && sc in open && CalledFor(src, sc, c)
      requires !c.kind.Module? && Run(sc.path) + 1 + NestingAll(c.text) <= nest
      modifies `scopes, `workList, `todo, `errors
      ensures Valid() && CompleteBut(open) && Grows(sc, 2 * Budget(sc.path) + 1)
      ensures HasScope(scopes, sc, c) && OnlyOne(c, sc) && NewUnique(sc) && NoWork(sc)
      decreases Budget(sc.path), NestingAll(c.text), 7
    {
      ghost var created, before := scopes, todo;
      var scope := NewScope(sc, c, open);
      FillScope(scope, c.text, open);
      OnlyNew(created, scope, sc, c);
      GrownThrough(created, before, scope, sc, 2 * Budget(sc.path) + 1);
    }

    /** The contents of a new scope that is no module */
    method FillScope(scope: NetScope, items: seq<Item>, ghost open: set<NetScope>)
      requires Valid() && CompleteBut(open + {scope}) && scope in scopes && items == scope.text && !scope.kind.Module?
      requires Untouched(scope, scopes, todo)
      modifies `scopes, `workList, `todo, `errors
      ensures Valid() && CompleteBut(open) && Grows(scope, 2 * Budget(scope.path) + 1)
      decreases Budget(scope.path), NestingAll(items), 6
    {
      forall k | 0 <= k < |items|
        ensures Warranted(items[k], scope)
      {
        TextIsWarranted(scope, k);
      }
      GenerateAll(scope, items, open + {scope});
      ghost var created, before := scopes, todo;
      ElaborateItems(scope, items, open + {scope});
      BlockSettled(src, scope, old(scopes), old(todo), created, before, scopes, todo);
      forall k | 0 <= k < |scope.text|
        ensures ItemDone(src, scope.text[k], scope, scopes, Pending())
      {
        if scope.text[k].Generate? {
          ThereStays(src, scope.text[k], scope, created, scopes);
        }
      }
      Closed(open, scope);
    }

    /** The scopes that the schemes among the first n items call for are there. */
    ghost predicate GeneratedUpTo(items: seq<Item>, n: nat, sc: NetScope, created: set<NetScope>)
      requires n <= |items|
    {
      forall k :: 0 <= k < n && items[k].Generate? ==> AllThere(src, items[k], sc, created)
    }

    /** The generate schemes among the items: those of a scope, or of a block that is directly nested in it */
    method GenerateAll(sc: NetScope, items: seq<Item>, ghost open: set<NetScope>)
      requires Valid() && CompleteBut(open) && sc in scopes && Run(sc.path) + NestingAll(items) <= nest
      requires sc in open && SchemesWarranted(items, sc)
      modifies `scopes, `workList, `todo, `errors
      ensures Valid() && CompleteBut(open) && Grows(sc, 2 * Budget(sc.path) + 1) && NoWork(sc)
      ensures GeneratedUpTo(items, |items|, sc, scopes) && SchemesUpTo(src, items, |items|, sc, scopes - old(scopes))
      decreases Budget(sc.path), NestingAll(items), 5
    {
      for k := 0 to |items|
        invariant Valid() && CompleteBut(open) && sc in scopes && Grows(sc, 2 * Budget(sc.path) + 1) && NoWork(sc)
        invariant GeneratedUpTo(items, k, sc, scopes) && SchemesUpTo(src, items, k, sc, scopes - old(scopes))
      {
        if items[k].Generate? {
          GenerateNext(sc, items, k, open, old(scopes));
        }
      }
    }

    /** One round of the loop over the schemes */
    method GenerateNext(sc: NetScope, items: seq<Item>, k: nat, ghost open: set<NetScope>, ghost created: set<NetScope>)
      requires Valid() && CompleteBut(open) && sc in scopes && Run(sc.path) + NestingAll(items) <= nest
      requires sc in open && SchemesWarranted(items, sc) && created <= scopes
      requires k < |items| && items[k].Generate? && GeneratedUpTo(items, k, sc, scopes)
      requires SchemesUpTo(src, items, k, sc, scopes - created)
      modifies `scopes, `workList, `todo, `errors
      ensures Valid() && CompleteBut(open) && Grows(sc, 2 * Budget(sc.path) + 1) && NoWork(sc)
      ensures GeneratedUpTo(items, k + 1, sc, scopes) && SchemesUpTo(src, items, k + 1, sc, scopes - created)
      decreases Budget(sc.path), NestingAll(items), 4
    {
      NestingOf(items, k);
      GenerateScope(sc, items[k], open);
      forall i | 0 <= i < k && items[i].Generate?
        ensures AllThere(src, items[i], sc, scopes)
      {
        ThereStays(src, items[i], sc, old(scopes), scopes);
      }
      SchemesOneMore(src, items, k, sc, created, old(scopes), scopes);
    }

    /** The scheme calls for no scope. */
    ghost predicate Idle(sc: NetScope, g: Item) {
      g.Generate? &&
      match g.scheme
      case Loop => src.choices.values(sc, g) == []
      case Condit => !src.choices.taken(sc, g)
      case Case => !(0 <= src.choices.matched(sc, g) < |g.items|)
      case CaseItem => true
      case NBlock => false
    }

    /** PGenerate::generate_scope */
    method GenerateScope(sc: NetScope, g: Item, ghost open: set<NetScope>)
      requires Valid() && CompleteBut(open) && sc in scopes && g.Generate? && Run(sc.path) + Nesting(g) <= nest
      requires sc in open && Warranted(g, sc)
      modifies `scopes, `workList, `todo, `errors
      ensures Valid() && CompleteBut(open) && Grows(sc, 2 * Budget(sc.path) + 1) && NoWork(sc)
      ensures AllThere(src, g, sc, scopes) && OnlyFor(g, sc) && (TidyItem(src, g, sc) ==> NewUnique(sc))
      ensures Idle(sc, g) ==> scopes == old(scopes) && workList == old(workList) && errors == old(errors)
      decreases Budget(sc.path), Nesting(g), 3
    {
      match g.scheme
      case Loop =>
        GenerateLoop(sc, g, open);
      case Condit =>
        if src.choices.taken(sc, g) {
          GenerateAlternative(sc, g, g, open);
        }
      case Case =>
        var m := src.choices.matched(sc, g);
        if 0 <= m < |g.items| && g.items[m].Generate? {
          NestingOf(g.items, m);
          GenerateAlternative(sc, g, g.items[m], open);
        }
      case CaseItem =>
      case NBlock =>
        assert Calls(src, g, sc, Call(HName.Key(g.name, []), GenBlock, g.items));
        MakeBlock(sc, Call(HName.Key(g.name, []), GenBlock, g.items), open);
    }

    /** The scopes of a loop, one for each value of the genvar */
    method GenerateLoop(sc: NetScope, g: Item, ghost open: set<NetScope>)
      requires Valid() && CompleteBut(open) && sc in scopes && g.Generate? && Run(sc.path) + Nesting(g) <= nest
      requires sc in open && Warranted(g, sc) && g.scheme == Loop
      modifies `scopes, `workList, `todo, `errors
      ensures Valid() && CompleteBut(open) && Grows(sc, 2 * Budget(sc.path) + 1) && NoWork(sc)
      ensures AllThere(src, g, sc, scopes) && OnlyFor(g, sc) && (TidyItem(src, g, sc) ==> NewUnique(sc))
      ensures src.choices.values(sc, g) == [] ==>
                scopes == old(scopes) && workList == old(workList) && errors == old(errors)
      decreases Budget(sc.path), Nesting(g), 2
    {
      var values := src.choices.values(sc, g);
      for k := 0 to |values|
        invariant Valid() && CompleteBut(open) && sc in scopes && Grows(sc, 2 * Budget(sc.path) + 1) && NoWork(sc)
        invariant OnlyFor(g, sc) && IterationsUpTo(sc, g, values, k, scopes)
        invariant IteratedUpTo(sc, g, values, k, scopes - old(scopes))
        invariant k == 0 ==> scopes == old(scopes) && workList == old(workList) && errors == old(errors)
      {
        GenerateIteration(sc, g, values, k, open, old(scopes));
      }
      IterationsThere(sc, g, scopes);
    }

    /** One round of the loop */
    method GenerateIteration(sc: NetScope, g: Item, values: seq<int>, k: nat, ghost open: set<NetScope>,
                             ghost created: set<NetScope>)
      requires Valid() && CompleteBut(open) && sc in scopes && g.Generate? && Run(sc.path) + Nesting(g) <= nest
      requires Warranted(g, sc) && g.scheme == Loop && values == src.choices.values(sc, g)
      requires k < |values| && IterationsUpTo(sc, g, values, k, scopes)
      requires sc in open && created <= scopes && IteratedUpTo(sc, g, values, k, scopes - created)
      modifies `scopes, `workList, `todo, `errors
      ensures Valid() && CompleteBut(open) && Grows(sc, 2 * Budget(sc.path) + 1) && NoWork(sc)
      ensures OnlyFor(g, sc) && IterationsUpTo(sc, g, values, k + 1, scopes)
      ensures IteratedUpTo(sc, g, values, k + 1, scopes - created)
      decreases Budget(sc.path), Nesting(g), 1
    {
      assert Calls(src, g, sc, Iteration(g, values[k]));
      MakeBlock(sc, Iteration(g, values[k]), open);
      IterationsStay(sc, g, values, k, old(scopes), scopes);
      IteratedOneMore(sc, g, values, k, created, old(scopes), scopes);
    }

    /** The scopes in sc that are new are those of the first n values; they have distinct names if these differ. */
    ghost predicate IteratedUpTo(sc: NetScope, g: Item, values: seq<int>, n: nat, news: set<NetScope>)
      requires g.Generate? && n <= |values|
    {
      && (forall s :: s in news && IsChild(s, sc) ==> exists i :: 0 <= i < n && CallOf(s) == Iteration(g, values[i]))
      && (DistinctValues(values) ==> Unique(sc, news))
    }

    lemma IteratedOneMore(sc: NetScope, g: Item, values: seq<int>, n: nat, created: set<NetScope>, mid: set<NetScope>,
                          created': set<NetScope>)
      requires g.Generate? && n < |values| && created <= mid <= created'
      requires IteratedUpTo(sc, g, values, n, mid - created) && Unique(sc, created' - mid)
      requires forall s :: s in created' - mid && IsChild(s, sc) ==> CallOf(s) == Iteration(g, values[n])
      ensures IteratedUpTo(sc, g, values, n + 1, created' - created)
    {
    }

    ghost predicate IterationsUpTo(sc: NetScope, g: Item, values: seq<int>, n: nat, created: set<NetScope>)
      requires g.Generate? && n <= |values|
    {
      forall i :: 0 <= i < n ==> HasScope(created, sc, Iteration(g, values[i]))
    }

    lemma IterationsStay(sc: NetScope, g: Item, values: seq<int>, n: nat, created: set<NetScope>,
                         created': set<NetScope>)
      requires g.Generate? && n <= |values| && created <= created' && IterationsUpTo(sc, g, values, n, created)
      ensures IterationsUpTo(sc, g, values, n, created')
    {
    }

    lemma IterationsThere(sc: NetScope, g: Item, created: set<NetScope>)
      requires g.Generate? && g.scheme == Loop
      requires IterationsUpTo(sc, g, src.choices.values(sc, g), |src.choices.values(sc, g)|, created)
      ensures AllThere(src, g, sc, created)
    {
    }

    function Iteration(g: Item, value: int): Call
      requires g.Generate?
    {
      Call(HName.Key(g.name, [value]), GenBlock, g.items)
    }

    /** The branch h of a condition or case g: without a scope of its own when it is directly nested. */
    method GenerateAlternative(sc: NetScope, ghost g: Item, h: Item, ghost open: set<NetScope>)
      requires Valid() && CompleteBut(open) && sc in scopes && h.Generate? && Run(sc.path) + Nesting(h) <= nest
      requires Warranted(g, sc) && forall c :: Calls(src, g, sc, c) <==> CallsAlternative(src, h, sc, c)
      requires sc in open
      modifies `scopes, `workList, `todo, `errors
      ensures Valid() && CompleteBut(open) && Grows(sc, 2 * Budget(sc.path) + 1) && NoWork(sc)
      ensures AllThere(src, g, sc, scopes) && OnlyFor(g, sc) && (TidyAlternative(src, h, sc) ==> NewUnique(sc))
      decreases Budget(sc.path), Nesting(h), 2
    {
      if h.direct {
        DirectWarranted(sc, g, h);
        GenerateAll(sc, h.items, open);
        DirectThere(sc, g, h, scopes);
      } else {
        assert Calls(src, g, sc, Call(HName.Key(h.name, []), GenBlock, h.items));
        MakeBlock(sc, Call(HName.Key(h.name, []), GenBlock, h.items), open);
      }
    }

    lemma DirectWarranted(sc: NetScope, g: Item, h: Item)
      requires h.Generate? && h.direct && Warranted(g, sc)
      requires forall c :: Calls(src, g, sc, c) <==> CallsAlternative(src, h, sc, c)
      ensures SchemesWarranted(h.items, sc)
    {
    }

    lemma DirectThere(sc: NetScope, g: Item, h: Item, created: set<NetScope>)
      requires h.Generate? && h.direct && GeneratedUpTo(h.items, |h.items|, sc, created)
      requires forall c :: Calls(src, g, sc, c) <==> CallsAlternative(src, h, sc, c)
      ensures AllThere(src, g, sc, created)
    {
    }

    // ------------------------------------------------------------ the work list

    /** elaborate_runrun of a work item, which has just been taken off */
    method RunItem(w: WorkItem)
      requires Valid() && CompleteBut({w.scope}) && Runnable(w)
      requires Settled(src, w.scope, scopes, todo) && Free(src, w, scopes, todo)
      modifies `scopes, `workList, `todo, `errors
      ensures Valid() && CompleteBut({w.scope}) && Grows(w.scope, Measure(w)) && Done(src, w, scopes, Pending())
      ensures Settled(src, w.scope, scopes, todo)
    {
      match w
      case Root(sc, mod) =>
        ElaborateModule(sc, mod, {sc});
      case Schemes(sc, mod) =>
        RunSchemes(w, sc, mod);
      case Instances(sc, mod, gate, ranges) =>
        ElaborateInstances(sc, mod, gate, ranges, {sc});
        WorkSettled(src, w, old(scopes), old(todo), scopes, todo);
    }

    /** The generate schemes of a module, when their turn has come */
    method RunSchemes(ghost w: WorkItem, sc: NetScope, mod: Name)
      requires Valid() && CompleteBut({sc}) && w == Schemes(sc, mod) && Runnable(w)
      requires Settled(src, sc, scopes, todo) && Free(src, w, scopes, todo)
      modifies `scopes, `workList, `todo, `errors
      ensures Valid() && CompleteBut({sc}) && Grows(sc, Measure(w)) && Done(src, w, scopes, Pending())
      ensures Settled(src, sc, scopes, todo)
    {
      forall k | 0 <= k < |sc.text|
        ensures Warranted(sc.text[k], sc)
      {
        TextIsWarranted(sc, k);
      }
      GenerateAll(sc, src.library[mod], {sc});
      SchemesNamed(src, w, scopes - old(scopes));
      WorkSettled(src, w, old(scopes), old(todo), scopes, todo);
    }

    ghost function RootCall(mod: Name): Call
      requires mod in src.library
    {
      Call(HName.Key(mod, []), Module(mod), src.library[mod])
    }

    /** The roots among the first k that the source text has have a scope. */
    ghost predicate RootsUpTo(roots: seq<Name>, k: nat, created: set<NetScope>) {
      forall i :: 0 <= i < k && i < |roots| && roots[i] in src.library ==>
        HasScope(created, null, RootCall(roots[i]))
    }

    ghost predicate OnlyRoots(roots: seq<Name>, before: set<NetScope>, created: set<NetScope>) {
      forall s :: s in created && s !in before ==> s.parent == null && s.kind.Module? && s.kind.name in roots
    }

    /** The roots among the first k that the source text does not have. */
    ghost function Missing(roots: seq<Name>, k: nat): nat
      requires k <= |roots|
    {
      if k == 0 then 0 else Missing(roots, k - 1) + if roots[k - 1] in src.library then 0 else 1
    }

    lemma RootsStay(roots: seq<Name>, k: nat, created: set<NetScope>, created': set<NetScope>)
      requires k < |roots| && RootsUpTo(roots, k, created) && created <= created'
      requires roots[k] in src.library ==> HasScope(created', null, RootCall(roots[k]))
      ensures RootsUpTo(roots, k + 1, created')
    {
    }

    /** Scopes for the root modules, with an error for each that is missing; the first part of elaborate() */
    method AddRoots(roots: seq<Name>)
      requires Valid() && CompleteBut({})
      modifies `scopes, `workList, `todo, `errors
      ensures Valid() && CompleteBut({}) && old(scopes) <= scopes
      ensures errors == old(errors) + Missing(roots, |roots|)
      ensures |todo| - |workList| == old(|todo| - |workList|)
      ensures RootsUpTo(roots, |roots|, scopes) && OnlyRoots(roots, old(scopes), scopes)
    {
      for k := 0 to |roots|
        invariant Valid() && CompleteBut({}) && old(scopes) <= scopes
        invariant errors == old(errors) + Missing(roots, k)
        invariant |todo| - |workList| == old(|todo| - |workList|)
        invariant RootsUpTo(roots, k, scopes) && OnlyRoots(roots, old(scopes), scopes)
      {
        AddRoot(roots, k);
      }
    }

    /** One round of the loop over the roots */
    method AddRoot(roots: seq<Name>, k: nat)
      requires Valid() && CompleteBut({}) && k < |roots| && RootsUpTo(roots, k, scopes)
      modifies `scopes, `workList, `todo, `errors
      ensures Valid() && CompleteBut({}) && old(scopes) <= scopes
      ensures errors == old(errors) + Missing(roots, k + 1) - Missing(roots, k)
      ensures errors == old(errors) + if roots[k] in src.library then 0 else 1
      ensures |todo| - |workList| == old(|todo| - |workList|)
      ensures RootsUpTo(roots, k + 1, scopes) && OnlyRoots(roots, old(scopes), scopes)
    {
      if roots[k] !in src.library {
        errors := errors + 1;
        return;
      }
      MakeRoot(roots[k]);
      RootsStay(roots, k, old(scopes), scopes);
    }

    method MakeRoot(mod: Name)
      requires Valid() && CompleteBut({}) && mod in src.library
      modifies `scopes, `workList, `todo
      ensures Valid() && CompleteBut({}) && old(scopes) <= scopes && HasScope(scopes, null, RootCall(mod))
      ensures OnlyRoots([mod], old(scopes), scopes)
      ensures |todo| - |workList| == old(|todo| - |workList|)
    {
      ghost var created := scopes;
      var scope := new NetScope(null, HName.Key(mod, []), Module(mod), src.library[mod]);
      assert scope.path == [Module(mod)];
      RootIsGood(mod);
      scopes := scopes + {scope};
      AddedRooted(created, scope);
      AddedValid(created, scope);
      NewIsUntouched(created, scope);
      assert {} + {scope} == {scope} && scopes - created <= {scope};
      StillComplete({scope}, created, todo);
      Schedule(Root(scope, mod), {scope});
      assert Root(scope, mod) in Pending();
      OneIsSettled(src, Root(scope, mod), scopes, old(todo));
      Closed({}, scope);
      assert Answers(scope, null, RootCall(mod));
    }

    lemma RootIsGood(m: Name)
      requires m in src.library
      ensures Good([Module(m)])
    {
      assert Sound(src.limit, []);
      assert Accepted(src.limit, m, []);
      AcceptedExactly(src.limit, m, []);
      assert [Module(m)] + [] == [Module(m)];
      assert Shallow([Module(m)], nest);
    }

    /** A scope at the top, named after module m, with what is in m */
    ghost predicate IsRootOf(s: NetScope, m: Name)
      requires m in src.library
    {
      s.parent == null && s.name == HName.Key(m, []) && s.kind == Module(m) && s.text == src.library[m]
    }

    /**
     * elaborate(), as far as it creates scopes: the root modules, and what they call for. In the end the tree holds,
     * below its roots, exactly the scopes that the text of each scope in it calls for, and with names of their own
     * where the text calls for none twice.
     */
    method Elaborate(roots: seq<Name>)
      requires Valid() && scopes == {} && workList == [] && todo == []
      modifies this
      ensures Valid() && workList == [] && errors >= old(errors) + Missing(roots, |roots|)
      ensures forall m :: m in roots && m in src.library ==> exists s :: s in scopes && IsRootOf(s, m)
      ensures forall s :: s in scopes && s.parent == null ==> s.kind.Module? && s.kind.name in roots
      ensures forall p, c :: p in scopes ==> (CalledFor(src, p, c) <==> HasScope(scopes, p, c))
      ensures forall p :: p in scopes ==> ModulesIn(src, scopes, p) && BlocksIn(scopes, p)
      ensures forall p :: p in scopes ==> GenerateBlocksIn(src, scopes, p)
      ensures forall p :: p in scopes && Tidy(src, p) ==> Unique(p, scopes)
      ensures forall s :: s in scopes ==> |s.path| <= |src.library.Keys| * (src.limit + 1) * (1 + nest)
    {
      AddRoots(roots);
      ghost var created := scopes;
      RunWorkList();
      forall m | m in roots && m in src.library
        ensures exists s :: s in scopes && IsRootOf(s, m)
      {
        var k :| 0 <= k < |roots| && roots[k] == m;
        assert HasScope(created, null, RootCall(roots[k]));
        var s :| s in created && Answers(s, null, RootCall(m));
        assert IsRootOf(s, m);
      }
    }

    /**
     * Runs the work list until it is empty, one batch after the other. It always becomes empty, whatever the
     * choices are; then the scopes in every scope are exactly those that its text calls for, their names are distinct
     * if the text calls for none twice, and no path is too deep.
     */
    method RunWorkList()
      requires Valid() && CompleteBut({}) && |todo| == |workList|
      modifies this
      ensures Valid() && workList == [] && old(scopes) <= scopes && errors >= old(errors)
      ensures forall p, c :: p in scopes ==> (CalledFor(src, p, c) <==> HasScope(scopes, p, c))
      ensures forall p :: p in scopes ==> ModulesIn(src, scopes, p) && BlocksIn(scopes, p)
      ensures forall p :: p in scopes ==> GenerateBlocksIn(src, scopes, p)
      ensures forall p :: p in scopes && Tidy(src, p) ==> Unique(p, scopes)
      ensures forall s :: s in scopes && s !in old(scopes) ==> |s.path| > 1
      ensures forall s :: s in scopes ==> |s.path| <= |src.library.Keys| * (src.limit + 1) * (1 + nest)
    {
      ghost var bound := MeasureBound(workList);
      while workList != []
        invariant Valid() && CompleteBut({}) && |todo| == |workList|
        invariant old(scopes) <= scopes && errors >= old(errors)
        invariant forall s :: s in scopes && s !in old(scopes) ==> |s.path| > 1
        invariant AllBelow(workList, bound)
        decreases bound
      {
        assert workList[0] in workList;
        RunBatch(bound - 1);
        bound := bound - 1;
      }
      assert Pending() == {};
      ExactlyCalled();
      forall p | p in scopes
        ensures ModulesIn(src, scopes, p) && BlocksIn(scopes, p) && GenerateBlocksIn(src, scopes, p)
      {
        ContentsOf(src, scopes, p);
      }
      AllUnique();
      AllBounded();
    }

    lemma AllUnique()
      requires CompleteBut({})
      ensures forall p :: p in scopes && Tidy(src, p) ==> Unique(p, scopes)
    {
    }

    lemma AllBounded()
      requires Valid()
      ensures forall s :: s in scopes ==> |s.path| <= |src.library.Keys| * (src.limit + 1) * (1 + nest)
    {
      forall s | s in scopes
        ensures |s.path| <= |src.library.Keys| * (src.limit + 1) * (1 + nest)
      {
        assert Has(s);
        DepthBounded(src.limit, src.library.Keys, nest, s.path);
      }
    }

    lemma ExactlyCalled()
      requires Valid() && CompleteBut({}) && Pending() == {}
      ensures forall p, c :: p in scopes ==> (CalledFor(src, p, c) <==> HasScope(scopes, p, c))
    {
      forall p, c | p in scopes
        ensures CalledFor(src, p, c) <==> HasScope(scopes, p, c)
      {
        if CalledFor(src, p, c) {
          CompleteMeans(src, p, scopes, c);
        }
        if HasScope(scopes, p, c) {
          var s :| s in scopes && Answers(s, p, c);
          assert Has(s) && IsChild(s, p) && CallOf(s) == c;
        }
      }
    }

    ghost method MeasureBound(work: seq<WorkItem>) returns (bound: nat)
      ensures AllBelow(work, bound)
    {
      bound := 0;
      for k := 0 to |work|
        invariant forall i :: 0 <= i < k ==> Measure(work[i]) < bound
      {
        assert work[k] in work;
        if Measure(work[k]) >= bound {
          bound := Measure(work[k]) + 1;
        }
      }
    }

    /** What is to be done is the batch, and after it the work list. */
    ghost predicate Batch(curQueue: seq<WorkItem>)
      reads this`workList, this`todo
    {
      |todo| == |curQueue| + |workList| && forall i :: 0 <= i < |curQueue| ==> todo[i] == curQueue[i]
    }

    ghost predicate AllBelow(work: seq<WorkItem>, bound: nat) {
      forall w :: w in work ==> Measure(w) < bound
    }

    /** Takes over the list and runs what is on it; what that puts on the list waits for the next batch. */
    method RunBatch(ghost bound: nat)
      requires Valid() && CompleteBut({}) && |todo| == |workList| && AllBelow(workList, bound + 1)
      modifies this
      ensures Valid() && CompleteBut({}) && |todo| == |workList| && old(scopes) <= scopes && errors >= old(errors)
      ensures forall s :: s in scopes && s !in old(scopes) ==> |s.path| > 1
      ensures AllBelow(workList, bound)
    {
      var curQueue := workList;
      workList := [];
      while curQueue != []
        invariant Valid() && CompleteBut({}) && Batch(curQueue)
        invariant old(scopes) <= scopes && errors >= old(errors)
        invariant forall s :: s in scopes && s !in old(scopes) ==> |s.path| > 1
        invariant AllBelow(curQueue, bound + 1) && AllBelow(workList, bound)
        decreases |curQueue|
      {
        RunNext(curQueue, bound);
        TailBelow(curQueue, bound + 1);
        curQueue := curQueue[1..];
      }
    }

    lemma TailBelow(work: seq<WorkItem>, bound: nat)
      requires work != [] && AllBelow(work, bound)
      ensures AllBelow(work[1..], bound)
    {
      assert forall w :: w in work[1..] ==> w in work;
    }

    /** Takes the first item off the batch and runs it. */
    method RunNext(curQueue: seq<WorkItem>, ghost bound: nat)
      requires Valid() && CompleteBut({}) && curQueue != [] && Batch(curQueue)
      requires AllBelow(curQueue, bound + 1) && AllBelow(workList, bound)
      modifies this
      ensures Valid() && CompleteBut({}) && Batch(curQueue[1..])
      ensures old(scopes) <= scopes && errors >= old(errors)
      ensures forall s :: s in scopes && s !in old(scopes) ==> |s.path| > 1
      ensures AllBelow(workList, bound)
    {
      var w := curQueue[0];
      assert todo[0] == w && w in todo && w in curQueue;
      TakeOff(w);
      ghost var rest := todo;
      RunItem(w);
      Finish(w, old(scopes), old(todo), rest);
      StillBelow(old(workList), rest, workList, todo, bound);
    }

    /** What has been added to a list of work to be done is at the end of the work list. */
    lemma StillBelow(work: seq<WorkItem>, rest: seq<WorkItem>, work': seq<WorkItem>, todo': seq<WorkItem>, bound: nat)
      requires Aligned(work, rest) && Aligned(work', todo') && rest <= todo' && AllBelow(work, bound)
      requires |todo'| - |work'| == |rest| - |work|
      requires forall i :: |rest| <= i < |todo'| ==> Measure(todo'[i]) < bound
      ensures AllBelow(work', bound)
    {
      forall w | w in work'
        ensures Measure(w) < bound
      {
        var i :| 0 <= i < |work'| && work'[i] == w;
        if i < |work| {
          assert work[i] == rest[|rest| - |work| + i] == w;
        }
      }
    }

    /** Takes an item off what is to be done. */
    ghost method TakeOff(w: WorkItem)
      requires Valid() && CompleteBut({}) && |workList| < |todo| && todo[0] == w
      modifies `todo
      ensures TakenOff(w, old(todo), todo) && Valid() && CompleteBut({w.scope}) && Runnable(w)
      ensures Settled(src, w.scope, scopes, todo) && Free(src, w, scopes, todo)
      ensures Complete(src, w.scope, scopes, SetOf(old(todo)))
    {
      assert w in todo && Runnable(w);
      todo := todo[1..];
      assert TakenOff(w, old(todo), todo);
      forall v | v in todo
        ensures v in old(todo)
      {
        var i :| 0 <= i < |todo| && todo[i] == v;
        assert old(todo)[i + 1] == v;
      }
      OthersComplete(w, old(todo));
      TailSettled(src, w.scope, scopes, w, old(todo), todo);
    }

    /** An item has been taken off: only its scope need not be complete any longer. */
    lemma OthersComplete(w: WorkItem, before: seq<WorkItem>)
      requires TakenOff(w, before, todo)
      requires forall s :: s in scopes ==> Complete(src, s, scopes, SetOf(before)) && Settled(src, s, scopes, before)
      ensures CompleteBut({w.scope})
    {
      forall v | v in before
        ensures v in todo || v == w
      {
        var i :| 0 <= i < |before| && before[i] == v;
        if i > 0 {
          assert todo[i - 1] == v;
        }
      }
      forall s | s in scopes && s !in {w.scope}
        ensures Complete(src, s, scopes, Pending()) && Settled(src, s, scopes, todo)
      {
        CompleteCarried(src, s, scopes, SetOf(before), scopes, Pending());
        TailSettled(src, s, scopes, w, before, todo);
      }
    }

    /** Its scope is complete again when it has been run. */
    lemma Finish(w: WorkItem, created: set<NetScope>, before: seq<WorkItem>, rest: seq<WorkItem>)
      requires w.scope in created && created <= scopes && TakenOff(w, before, rest) && rest <= todo
      requires Complete(src, w.scope, created, SetOf(before)) && Done(src, w, scopes, Pending())
      requires CompleteBut({w.scope}) && Settled(src, w.scope, scopes, todo)
      ensures CompleteBut({})
    {
      forall v | v in before
        ensures v in todo || v == w
      {
        var i :| 0 <= i < |before| && before[i] == v;
        if i > 0 {
          assert rest[i - 1] == v && todo[i - 1] == v;
        }
      }
      CompleteCarried(src, w.scope, created, SetOf(before), scopes, Pending());
      assert {} + {w.scope} == {w.scope};
      Closed({}, w.scope);
    }
  }

  /** The climb from the scope with this path has reached scn, its scope k. */
  ghost predicate At(scn: NetScope?, path: Path, k: nat)
    requires k <= |path|
  {
    if scn == null then k == |path| else scn.Valid() && scn.path == path[k..]
  }

  lemma UpOne(scn: NetScope, path: Path, k: nat)
    requires k <= |path| && At(scn, path, k)
    ensures k < |path| && path[k] == scn.kind && At(scn.parent, path, k + 1)
  {
  }

  /** Exactly the instances are accepted that may be, and the two errors are told apart. */
  ghost predicate Judged(limit: nat, m: Name, path: Path, verdict: Verdict) {
    && (verdict.Accept? <==> Accepted(limit, m, path))
    && (verdict.WithinItself? <==> exists i :: 0 <= i < |path| && Offends(path, m, i))
  }

  predicate NoneOffendsBelow(path: Path, m: Name, k: nat)
    requires k <= |path|
  {
    forall i :: 0 <= i < k ==> !Offends(path, m, i)
  }

  /** The climb has passed the first k scopes, with this count and flag. */
  ghost predicate Climbed(limit: nat, m: Name, path: Path, k: nat, rlCount: nat, inGenblk: bool)
    requires k <= |path|
  {
    (inGenblk <==> GenBetween(path, 0, k)) && rlCount == Count(path, m, k) <= limit && NoneOffendsBelow(path, m, k)
  }

  lemma PassedOne(limit: nat, m: Name, path: Path, k: nat)
    requires k < |path| && NoneOffendsBelow(path, m, k) && (path[k] == Module(m) ==> GenBetween(path, 0, k))
    ensures NoneOffendsBelow(path, m, k + 1)
    ensures Count(path, m, k + 1) == Count(path, m, k) + (if path[k] == Module(m) then 1 else 0)
    ensures GenBetween(path, 0, k + 1) <==> GenBetween(path, 0, k) || path[k] == GenBlock
  {
  }

  lemma Offended(limit: nat, m: Name, path: Path, k: nat)
    requires k < |path| && path[k] == Module(m) && !GenBetween(path, 0, k)
    ensures Judged(limit, m, path, WithinItself)
  {
    assert Offends(path, m, k);
  }

  lemma TooMany(limit: nat, m: Name, path: Path, k: nat)
    requires k < |path| && path[k] == Module(m) && Count(path, m, k) + 1 > limit
    requires GenBetween(path, 0, k) && NoneOffendsBelow(path, m, k)
    ensures Judged(limit, m, path, NestedTooDeep)
  {
    CountGrows(path, m, k + 1, |path|);
    NoneOffends(path, m, k);
  }

  lemma {:induction false} CountGrows(path: Path, m: Name, j: nat, k: nat)
    requires j <= k <= |path|
    ensures Count(path, m, j) <= Count(path, m, k)
  {
    if j == k {
    } else {
      CountGrows(path, m, j, k - 1);
    }
  }

  /** A generate block above some place stays above everything farther up. */
  lemma NoneOffends(path: Path, m: Name, k: nat)
    requires k <= |path| && GenBetween(path, 0, k) && NoneOffendsBelow(path, m, k)
    ensures forall i :: 0 <= i < |path| ==> !Offends(path, m, i)
  {
  }
}
