/**
 * The names of the scopes in a scope: when its text calls for none twice, and what elaboration keeps up so that none
 * is given twice.
 */
module ScopeNames {
  import opened Options
  import opened ScopePaths
  import opened ScopeTree
  import HName

  /** An item in scope sc calls for a scope of this name. */
  ghost predicate Names(src: Source, item: Item, sc: NetScope, name: HName.Key) {
    exists c :: Calls(src, item, sc, c) && c.name == name
  }

  ghost predicate Apart(src: Source, i: Item, j: Item, sc: NetScope) {
    forall name :: Names(src, i, sc, name) ==> !Names(src, j, sc, name)
  }

  ghost predicate DistinctValues(values: seq<int>) {
    forall i, j :: 0 <= i < j < |values| ==> values[i] != values[j]
  }

  /** What the item calls for has distinct names. */
  ghost predicate TidyItem(src: Source, item: Item, sc: NetScope)
    decreases item, 1
  {
    match item
    case Instance(_, _, _) => true
    case Block(_, _) => true
    case Generate(scheme, _, _, items) =>
      match scheme
      case Loop => DistinctValues(src.choices.values(sc, item))
      case Condit => src.choices.taken(sc, item) ==> TidyAlternative(src, item, sc)
      case Case =>
        var m := src.choices.matched(sc, item);
        0 <= m < |items| ==> TidyAlternative(src, items[m], sc)
      case CaseItem => true
      case NBlock => true
  }

  ghost predicate TidyAlternative(src: Source, g: Item, sc: NetScope)
    decreases g, 0
  {
    g.Generate? && g.direct ==>
      && SchemesApart(src, g.items, sc)
      && forall k :: 0 <= k < |g.items| && g.items[k].Generate? ==> TidyItem(src, g.items[k], sc)
  }

  ghost predicate SchemesApart(src: Source, items: seq<Item>, sc: NetScope) {
    forall j, k :: 0 <= j < k < |items| && items[j].Generate? && items[k].Generate? ==>
      Apart(src, items[j], items[k], sc)
  }

  ghost predicate TidySchemes(src: Source, items: seq<Item>, sc: NetScope) {
    && SchemesApart(src, items, sc)
    && forall k :: 0 <= k < |items| && items[k].Generate? ==> TidyItem(src, items[k], sc)
  }

  /** The text of a scope calls for every name in it once only. */
  ghost predicate Tidy(src: Source, sc: NetScope) {
    && (forall j, k :: 0 <= j < k < |sc.text| ==> Apart(src, sc.text[j], sc.text[k], sc))
    && forall k :: 0 <= k < |sc.text| ==> TidyItem(src, sc.text[k], sc)
  }

  /** The run of a work item can create a scope of this name in its scope. */
  ghost predicate WorkNames(src: Source, w: WorkItem, name: HName.Key) {
    match w
    case Root(s, _) => exists k :: 0 <= k < |s.text| && Names(src, s.text[k], s, name)
    case Schemes(s, _) => exists k :: 0 <= k < |s.text| && s.text[k].Generate? && Names(src, s.text[k], s, name)
    case Instances(s, mod, gate, ranges) => Names(src, Instance(mod, gate, ranges), s, name)
  }

  ghost predicate WorkApart(src: Source, v: WorkItem, w: WorkItem) {
    forall name :: WorkNames(src, v, name) ==> !WorkNames(src, w, name)
  }

  /** No two of these scopes in p have one name. */
  ghost predicate Unique(p: NetScope, created: set<NetScope>) {
    forall s, t :: s in created && t in created && IsChild(s, p) && IsChild(t, p) && s.name == t.name ==> s == t
  }

  /** No scope yet has a name that the work item can create. */
  ghost predicate NoneNamed(src: Source, w: WorkItem, created: set<NetScope>) {
    forall s :: s in created && IsChild(s, w.scope) ==> !WorkNames(src, w, s.name)
  }

  /** The work on places `from` to `to` has distinct names in p. */
  ghost predicate PendingApart(src: Source, p: NetScope, todo: seq<WorkItem>, from: nat, to: nat)
    requires to <= |todo|
  {
    forall i, j :: from <= i < j < to && todo[i].scope == p && todo[j].scope == p ==> WorkApart(src, todo[i], todo[j])
  }

  /** None of its names is there yet. */
  ghost predicate PendingNew(src: Source, p: NetScope, todo: seq<WorkItem>, from: nat, to: nat, created: set<NetScope>)
    requires to <= |todo|
  {
    forall i :: from <= i < to && todo[i].scope == p ==> NoneNamed(src, todo[i], created)
  }

  /** The names in p are distinct, and pending work can give no name twice, if the text of p calls for none twice. */
  ghost predicate Settled(src: Source, p: NetScope, created: set<NetScope>, todo: seq<WorkItem>) {
    Tidy(src, p) ==>
      Unique(p, created) && PendingApart(src, p, todo, 0, |todo|) && PendingNew(src, p, todo, 0, |todo|, created)
  }

  /** What w can bring is not there, and no other work can bring it. */
  ghost predicate Free(src: Source, w: WorkItem, created: set<NetScope>, todo: seq<WorkItem>) {
    Tidy(src, w.scope) ==>
      && NoneNamed(src, w, created)
      && forall i :: 0 <= i < |todo| && todo[i].scope == w.scope ==> WorkApart(src, w, todo[i])
  }

  /** No scope is in p, and no work is pending for it. */
  ghost predicate Untouched(p: NetScope, created: set<NetScope>, todo: seq<WorkItem>) {
    && (forall s :: s in created ==> !IsChild(s, p))
    && (forall i :: 0 <= i < |todo| ==> todo[i].scope != p)
  }

  lemma UntouchedIsSettled(src: Source, p: NetScope, created: set<NetScope>, todo: seq<WorkItem>)
    requires Untouched(p, created, todo)
    ensures Settled(src, p, created, todo) && forall w: WorkItem :: w.scope == p ==> Free(src, w, created, todo)
  {
  }

  /** One item of work for a scope that was untouched */
  lemma OneIsSettled(src: Source, w: WorkItem, created: set<NetScope>, todo: seq<WorkItem>)
    requires Untouched(w.scope, created, todo)
    ensures Settled(src, w.scope, created, todo + [w])
  {
  }

  /** Nothing new is in p, and no new work. */
  ghost predicate NothingNew(p: NetScope, created: set<NetScope>, todo: seq<WorkItem>, created': set<NetScope>,
                             todo': seq<WorkItem>)
  {
    && created <= created' && todo <= todo'
    && (forall s :: s in created' && IsChild(s, p) ==> s in created)
    && (forall i :: |todo| <= i < |todo'| ==> todo'[i].scope != p)
  }

  /** todo is before without its first item. */
  ghost predicate TakenOff(w: WorkItem, before: seq<WorkItem>, todo: seq<WorkItem>) {
    |before| == |todo| + 1 && before[0] == w && forall i :: 0 <= i < |todo| ==> todo[i] == before[i + 1]
  }

  lemma TailSettled(src: Source, p: NetScope, created: set<NetScope>, w: WorkItem, before: seq<WorkItem>,
                    todo: seq<WorkItem>)
    requires TakenOff(w, before, todo) && Settled(src, p, created, before)
    ensures Settled(src, p, created, todo) && (p == w.scope ==> Free(src, w, created, todo))
  {
  }

  // ------------------------------------------------------ the items of a text

  ghost predicate IsArray(sc: NetScope, item: Item, w: WorkItem) {
    item.Instance? && w == Instances(sc, item.mod, item.gate, item.ranges)
  }

  ghost predicate NewsUpTo(src: Source, sc: NetScope, n: nat, news: set<NetScope>)
    requires n <= |sc.text|
  {
    forall s :: s in news && IsChild(s, sc) ==>
      exists j :: 0 <= j < n && !sc.text[j].Generate? && Calls(src, sc.text[j], sc, CallOf(s))
  }

  ghost predicate WorkUpTo(sc: NetScope, n: nat, todo: seq<WorkItem>, from: nat, to: nat)
    requires n <= |sc.text| && to <= |todo|
  {
    forall i :: from <= i < to && todo[i].scope == sc ==> exists j :: 0 <= j < n && IsArray(sc, sc.text[j], todo[i])
  }

  /**
   * The scopes in sc and the work for it that the first n items of its text have brought, schemes left aside, have
   * distinct names.
   */
  ghost predicate ItemsUpTo(src: Source, sc: NetScope, n: nat, news: set<NetScope>, todo: seq<WorkItem>, from: nat)
    requires n <= |sc.text|
  {
    && NewsUpTo(src, sc, n, news) && WorkUpTo(sc, n, todo, from, |todo|)
    && Unique(sc, news) && PendingApart(src, sc, todo, from, |todo|) && PendingNew(src, sc, todo, from, |todo|, news)
  }

  /** What the first n items have brought to a tidy scope since the scopes were those and the work had that length. */
  ghost predicate Since(src: Source, sc: NetScope, n: nat, created: set<NetScope>, from: nat,
                        created': set<NetScope>, todo': seq<WorkItem>)
    requires n <= |sc.text|
  {
    Tidy(src, sc) ==> ItemsUpTo(src, sc, n, created' - created, todo', from)
  }

  lemma NewName(src: Source, sc: NetScope, n: nat, news: set<NetScope>, s: NetScope) returns (j: nat)
    requires n <= |sc.text| && NewsUpTo(src, sc, n, news) && s in news && IsChild(s, sc)
    ensures j < n && !sc.text[j].Generate? && Names(src, sc.text[j], sc, s.name)
  {
    j :| 0 <= j < n && !sc.text[j].Generate? && Calls(src, sc.text[j], sc, CallOf(s));
  }

  lemma NewWorkNames(src: Source, sc: NetScope, n: nat, todo: seq<WorkItem>, from: nat, i: nat) returns (j: nat)
    requires n <= |sc.text| && WorkUpTo(sc, n, todo, from, |todo|) && from <= i < |todo| && todo[i].scope == sc
    ensures j < n && IsArray(sc, sc.text[j], todo[i])
    ensures forall name :: WorkNames(src, todo[i], name) <==> Names(src, sc.text[j], sc, name)
  {
    j :| 0 <= j < n && IsArray(sc, sc.text[j], todo[i]);
  }

  /** What item n has brought to sc: scopes, or else one piece of work. */
  ghost predicate FromItem(src: Source, sc: NetScope, n: nat, more: set<NetScope>, todo: seq<WorkItem>, from: nat)
    requires n < |sc.text|
  {
    && (forall s :: s in more && IsChild(s, sc) ==>
          !sc.text[n].Generate? && Calls(src, sc.text[n], sc, CallOf(s)))
    && (forall i :: from <= i < |todo| && todo[i].scope == sc ==>
          IsArray(sc, sc.text[n], todo[i]) && |todo| == from + 1 && more == {})
  }

  /** One more item of a text */
  lemma SinceOneMore(src: Source, sc: NetScope, n: nat, created: set<NetScope>, from: nat,
                     mid: set<NetScope>, midTodo: seq<WorkItem>, created': set<NetScope>, todo': seq<WorkItem>)
    requires n < |sc.text| && Since(src, sc, n, created, from, mid, midTodo)
    requires created <= mid <= created' && midTodo <= todo'
    requires Unique(sc, created' - mid) && FromItem(src, sc, n, created' - mid, todo', |midTodo|)
    ensures Since(src, sc, n + 1, created, from, created', todo')
  {
    if Tidy(src, sc) {
      MoreNews(src, sc, n, created, mid, created');
      MoreWork(sc, n, midTodo, todo', from);
      MoreApart(src, sc, n, midTodo, todo', from);
      forall i | from <= i < |todo'| && todo'[i].scope == sc
        ensures NoneNamed(src, todo'[i], created' - created)
      {
        MoreNamed(src, sc, n, created, mid, midTodo, created', todo', from, i);
      }
    }
  }

  lemma MoreNews(src: Source, sc: NetScope, n: nat, created: set<NetScope>, mid: set<NetScope>, created': set<NetScope>)
    requires n < |sc.text| && Tidy(src, sc) && created <= mid <= created'
    requires NewsUpTo(src, sc, n, mid - created) && Unique(sc, mid - created) && Unique(sc, created' - mid)
    requires forall s :: s in created' - mid && IsChild(s, sc) ==>
               !sc.text[n].Generate? && Calls(src, sc.text[n], sc, CallOf(s))
    ensures NewsUpTo(src, sc, n + 1, created' - created) && Unique(sc, created' - created)
  {
    forall s, t | s in mid - created && IsChild(s, sc) && t in created' - mid && IsChild(t, sc)
      ensures s.name != t.name
    {
      var j := NewName(src, sc, n, mid - created, s);
      assert Apart(src, sc.text[j], sc.text[n], sc);
      assert Calls(src, sc.text[n], sc, CallOf(t)) && Names(src, sc.text[n], sc, t.name);
    }
  }

  lemma MoreWork(sc: NetScope, n: nat, midTodo: seq<WorkItem>, todo': seq<WorkItem>, from: nat)
    requires n < |sc.text| && midTodo <= todo' && WorkUpTo(sc, n, midTodo, from, |midTodo|)
    requires forall i :: |midTodo| <= i < |todo'| && todo'[i].scope == sc ==> IsArray(sc, sc.text[n], todo'[i])
    ensures WorkUpTo(sc, n + 1, todo', from, |todo'|)
  {
    forall i | from <= i < |todo'| && todo'[i].scope == sc
      ensures exists j :: 0 <= j < n + 1 && IsArray(sc, sc.text[j], todo'[i])
    {
      if i < |midTodo| {
        assert midTodo[i] == todo'[i];
      }
    }
  }

  lemma MoreApart(src: Source, sc: NetScope, n: nat, midTodo: seq<WorkItem>, todo': seq<WorkItem>, from: nat)
    requires n < |sc.text| && Tidy(src, sc) && midTodo <= todo' && WorkUpTo(sc, n, midTodo, from, |midTodo|)
    requires PendingApart(src, sc, midTodo, from, |midTodo|)
    requires forall i :: |midTodo| <= i < |todo'| && todo'[i].scope == sc ==>
               IsArray(sc, sc.text[n], todo'[i]) && |todo'| == |midTodo| + 1
    ensures PendingApart(src, sc, todo', from, |todo'|)
  {
    forall i, k | from <= i < k < |todo'| && todo'[i].scope == sc && todo'[k].scope == sc
      ensures WorkApart(src, todo'[i], todo'[k])
    {
      assert midTodo[i] == todo'[i];
      if k < |midTodo| {
        assert midTodo[k] == todo'[k];
      } else {
        var j := NewWorkNames(src, sc, n, midTodo, from, i);
        assert Apart(src, sc.text[j], sc.text[n], sc);
      }
    }
  }

  lemma MoreNamed(src: Source, sc: NetScope, n: nat, created: set<NetScope>, mid: set<NetScope>,
                  midTodo: seq<WorkItem>, created': set<NetScope>, todo': seq<WorkItem>, from: nat, i: nat)
    requires n < |sc.text| && Tidy(src, sc) && ItemsUpTo(src, sc, n, mid - created, midTodo, from)
    requires created <= mid <= created' && midTodo <= todo'
    requires FromItem(src, sc, n, created' - mid, todo', |midTodo|) && from <= i < |todo'| && todo'[i].scope == sc
    ensures NoneNamed(src, todo'[i], created' - created)
  {
    forall s | s in created' - created && IsChild(s, sc)
      ensures !WorkNames(src, todo'[i], s.name)
    {
      if i >= |midTodo| {
        assert IsArray(sc, sc.text[n], todo'[i]) && s !in created' - mid;
        var j := NewName(src, sc, n, mid - created, s);
        assert Apart(src, sc.text[j], sc.text[n], sc);
      } else {
        assert midTodo[i] == todo'[i];
        if s !in mid {
          var j := NewWorkNames(src, sc, n, midTodo, from, i);
          assert Apart(src, sc.text[j], sc.text[n], sc);
          assert Calls(src, sc.text[n], sc, CallOf(s)) && Names(src, sc.text[n], sc, s.name);
        }
      }
    }
  }

  /** What is new in sc was called for by one of the schemes among the first n items. */
  ghost predicate NewsOfSchemes(src: Source, items: seq<Item>, n: nat, sc: NetScope, news: set<NetScope>)
    requires n <= |items|
  {
    forall s :: s in news && IsChild(s, sc) ==>
      exists k :: 0 <= k < n && items[k].Generate? && Calls(src, items[k], sc, CallOf(s))
  }

  /** The schemes among the first n items of tidy ones have brought distinct names. */
  ghost predicate SchemesUpTo(src: Source, items: seq<Item>, n: nat, sc: NetScope, news: set<NetScope>)
    requires n <= |items|
  {
    NewsOfSchemes(src, items, n, sc, news) && (TidySchemes(src, items, sc) ==> Unique(sc, news))
  }

  lemma SchemesOneMore(src: Source, items: seq<Item>, n: nat, sc: NetScope, created: set<NetScope>,
                       mid: set<NetScope>, created': set<NetScope>)
    requires n < |items| && created <= mid <= created' && SchemesUpTo(src, items, n, sc, mid - created)
    requires items[n].Generate? && (TidyItem(src, items[n], sc) ==> Unique(sc, created' - mid))
    requires forall s :: s in created' - mid && IsChild(s, sc) ==> Calls(src, items[n], sc, CallOf(s))
    ensures SchemesUpTo(src, items, n + 1, sc, created' - created)
  {
    if TidySchemes(src, items, sc) {
      forall s, t | s in mid - created && IsChild(s, sc) && t in created' - mid && IsChild(t, sc)
        ensures s.name != t.name
      {
        var k :| 0 <= k < n && items[k].Generate? && Calls(src, items[k], sc, CallOf(s));
        assert Apart(src, items[k], items[n], sc);
        assert Names(src, items[k], sc, s.name) && Calls(src, items[n], sc, CallOf(t));
      }
    }
  }

  lemma SchemesNamed(src: Source, w: WorkItem, news: set<NetScope>)
    requires w.Schemes? && SchemesUpTo(src, w.scope.text, |w.scope.text|, w.scope, news)
    ensures forall s :: s in news && IsChild(s, w.scope) ==> WorkNames(src, w, s.name)
    ensures Tidy(src, w.scope) ==> Unique(w.scope, news)
  {
  }

  ghost predicate ClearName(src: Source, sc: NetScope, name: HName.Key) {
    forall j :: 0 <= j < |sc.text| && !sc.text[j].Generate? ==> !Names(src, sc.text[j], sc, name)
  }

  /** No item but the schemes calls for a name that is in sc, or that work for sc can bring. */
  ghost predicate Clear(src: Source, sc: NetScope, created: set<NetScope>, todo: seq<WorkItem>) {
    && (forall s :: s in created && IsChild(s, sc) ==> ClearName(src, sc, s.name))
    && (forall i, name :: 0 <= i < |todo| && todo[i].scope == sc && WorkNames(src, todo[i], name) ==>
          ClearName(src, sc, name))
  }

  lemma SchemeIsClear(src: Source, sc: NetScope, k: nat, name: HName.Key)
    requires Tidy(src, sc) && k < |sc.text| && sc.text[k].Generate? && Names(src, sc.text[k], sc, name)
    ensures ClearName(src, sc, name)
  {
  }

  /** The schemes of a module go on the work list. */
  lemma SchemesJoined(src: Source, sc: NetScope, mod: Name, created: set<NetScope>, before: seq<WorkItem>)
    requires Tidy(src, sc) && Settled(src, sc, created, before) && Free(src, Root(sc, mod), created, before)
    ensures Settled(src, sc, created, before + [Schemes(sc, mod)])
    ensures Clear(src, sc, created, before + [Schemes(sc, mod)])
  {
    var root, schemes := Root(sc, mod), Schemes(sc, mod);
    var todo := before + [schemes];
    assert forall name :: WorkNames(src, schemes, name) ==> WorkNames(src, root, name);
    forall i, name | 0 <= i < |todo| && todo[i].scope == sc && WorkNames(src, todo[i], name)
      ensures ClearName(src, sc, name)
    {
      if i == |before| {
        var k :| 0 <= k < |sc.text| && sc.text[k].Generate? && Names(src, sc.text[k], sc, name);
        SchemeIsClear(src, sc, k, name);
      } else {
        assert WorkApart(src, root, before[i]);
      }
    }
  }

  /** The items of a tidy text can be joined to what is clear of them. */
  lemma ItemsJoined(src: Source, sc: NetScope, created: set<NetScope>, before: seq<WorkItem>,
                    created': set<NetScope>, todo': seq<WorkItem>)
    requires Tidy(src, sc) && Settled(src, sc, created, before) && Clear(src, sc, created, before)
    requires created <= created' && before <= todo' && Since(src, sc, |sc.text|, created, |before|, created', todo')
    ensures Settled(src, sc, created', todo')
  {
    var news := created' - created;
    forall s | s in news && IsChild(s, sc)
      ensures !ClearName(src, sc, s.name)
    {
      var j := NewName(src, sc, |sc.text|, news, s);
    }
    forall i, name | |before| <= i < |todo'| && todo'[i].scope == sc && WorkNames(src, todo'[i], name)
      ensures !ClearName(src, sc, name)
    {
      var j := NewWorkNames(src, sc, |sc.text|, todo', |before|, i);
    }
    JoinedApart(src, sc, before, todo');
    forall i | 0 <= i < |todo'| && todo'[i].scope == sc
      ensures NoneNamed(src, todo'[i], created')
    {
      JoinedNamed(src, sc, created, before, created', todo', i);
    }
  }

  /** From |before| on, all names are those of items. */
  ghost predicate NoneClear(src: Source, sc: NetScope, before: seq<WorkItem>, todo': seq<WorkItem>) {
    forall i, name :: |before| <= i < |todo'| && todo'[i].scope == sc && WorkNames(src, todo'[i], name) ==>
      !ClearName(src, sc, name)
  }

  lemma JoinedApart(src: Source, sc: NetScope, before: seq<WorkItem>, todo': seq<WorkItem>)
    requires before <= todo' && PendingApart(src, sc, before, 0, |before|)
    requires PendingApart(src, sc, todo', |before|, |todo'|) && NoneClear(src, sc, before, todo')
    requires forall i, name :: 0 <= i < |before| && before[i].scope == sc && WorkNames(src, before[i], name) ==>
               ClearName(src, sc, name)
    ensures PendingApart(src, sc, todo', 0, |todo'|)
  {
    forall i, k | 0 <= i < k < |todo'| && todo'[i].scope == sc && todo'[k].scope == sc
      ensures WorkApart(src, todo'[i], todo'[k])
    {
      if i < |before| {
        assert before[i] == todo'[i];
        if k < |before| {
          assert before[k] == todo'[k];
        } else {
          forall name | WorkNames(src, todo'[i], name)
            ensures !WorkNames(src, todo'[k], name)
          {
            assert ClearName(src, sc, name);
          }
        }
      }
    }
  }

  lemma JoinedNamed(src: Source, sc: NetScope, created: set<NetScope>, before: seq<WorkItem>, created': set<NetScope>,
                    todo': seq<WorkItem>, i: nat)
    requires created <= created' && before <= todo' && i < |todo'| && todo'[i].scope == sc
    requires PendingNew(src, sc, before, 0, |before|, created) && Clear(src, sc, created, before)
    requires PendingNew(src, sc, todo', |before|, |todo'|, created' - created) && NoneClear(src, sc, before, todo')
    requires forall s :: s in created' - created && IsChild(s, sc) ==> !ClearName(src, sc, s.name)
    ensures NoneNamed(src, todo'[i], created')
  {
    forall s | s in created' && IsChild(s, sc)
      ensures !WorkNames(src, todo'[i], s.name)
    {
      if i < |before| {
        assert before[i] == todo'[i];
        if s !in created {
          assert !ClearName(src, sc, s.name);
        }
      } else if s in created {
        assert ClearName(src, sc, s.name);
      }
    }
  }

  /** The scope of a module brings the names of its items, some of them by way of new work. */
  lemma ModuleSettled(src: Source, sc: NetScope, mod: Name, created: set<NetScope>, before: seq<WorkItem>,
                      created': set<NetScope>, todo': seq<WorkItem>)
    requires Settled(src, sc, created, before) && Free(src, Root(sc, mod), created, before)
    requires created <= created' && before + [Schemes(sc, mod)] <= todo'
    requires Since(src, sc, |sc.text|, created, |before| + 1, created', todo')
    ensures Settled(src, sc, created', todo')
  {
    if Tidy(src, sc) {
      SchemesJoined(src, sc, mod, created, before);
      ItemsJoined(src, sc, created, before + [Schemes(sc, mod)], created', todo');
    }
  }

  /** First the schemes of a new scope have been run, and then its other items. */
  lemma BlockSettled(src: Source, sc: NetScope, created0: set<NetScope>, todo0: seq<WorkItem>, created: set<NetScope>,
                     before: seq<WorkItem>, created': set<NetScope>, todo': seq<WorkItem>)
    requires Untouched(sc, created0, todo0) && created0 <= created <= created' && todo0 <= before <= todo'
    requires SchemesUpTo(src, sc.text, |sc.text|, sc, created - created0)
    requires forall i :: |todo0| <= i < |before| ==> before[i].scope != sc
    requires Since(src, sc, |sc.text|, created, |before|, created', todo')
    ensures Settled(src, sc, created', todo')
  {
    if Tidy(src, sc) {
      forall s | s in created && IsChild(s, sc)
        ensures s in created - created0 && ClearName(src, sc, s.name)
      {
        var k :| 0 <= k < |sc.text| && sc.text[k].Generate? && Calls(src, sc.text[k], sc, CallOf(s));
        SchemeIsClear(src, sc, k, s.name);
      }
      forall i | 0 <= i < |before|
        ensures before[i].scope != sc
      {
        assert i < |todo0| ==> before[i] == todo0[i];
      }
      ItemsJoined(src, sc, created, before, created', todo');
    }
  }

  /** The run of an item brings distinct names, which nothing else has or will have. */
  lemma WorkSettled(src: Source, w: WorkItem, created: set<NetScope>, before: seq<WorkItem>, created': set<NetScope>,
                    todo': seq<WorkItem>)
    requires Settled(src, w.scope, created, before) && Free(src, w, created, before)
    requires created <= created' && before <= todo'
    requires forall i :: |before| <= i < |todo'| ==> todo'[i].scope != w.scope
    requires forall s :: s in created' - created && IsChild(s, w.scope) ==> WorkNames(src, w, s.name)
    requires Tidy(src, w.scope) ==> Unique(w.scope, created' - created)
    ensures Settled(src, w.scope, created', todo')
  {
    if Tidy(src, w.scope) {
      forall i | 0 <= i < |before| && before[i].scope == w.scope
        ensures NoneNamed(src, before[i], created')
      {
        assert WorkApart(src, w, before[i]);
      }
      assert forall i :: 0 <= i < |before| ==> before[i] == todo'[i];
    }
  }
}
