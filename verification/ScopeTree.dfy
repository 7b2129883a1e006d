/**
 * The scopes of a design, the source text they come from, and what it means for a scope to have everything in it
 * that its text calls for.
 */
module ScopeTree {
  import opened Options
  import opened ScopePaths
  import HName

  /** What a module or a generate block contains, as far as it creates scopes. */
  datatype Item =
    | Instance(mod: Name, gate: Name, ranges: nat)
    | Block(name: Name, items: seq<Item>)
    | Generate(scheme: Scheme, name: Name, direct: bool, items: seq<Item>)

  datatype Scheme = Loop | Condit | Case | CaseItem | NBlock

  /** How deep blocks are nested in the source text. */
  function Nesting(i: Item): nat {
    match i
    case Instance(_, _, _) => 0
    case Block(_, items) => 1 + NestingAll(items)
    case Generate(_, _, _, items) => 1 + NestingAll(items)
  }

  function NestingAll(items: seq<Item>): nat {
    if items == [] then 0
    else
      var n, m := Nesting(items[0]), NestingAll(items[1..]);
      if n >= m then n else m
  }

  lemma {:induction false} NestingOf(items: seq<Item>, k: nat)
    requires k < |items|
    ensures Nesting(items[k]) <= NestingAll(items)
  {
    if k == 0 {
    } else {
      NestingOf(items[1..], k - 1);
    }
  }

  class NetScope {
    const parent: NetScope?
    const name: HName.Key
    const kind: Kind
    ghost const path: Path
    // what the source text has in this scope
    ghost const text: seq<Item>

    ghost predicate Valid()
      decreases |path|
    {
      && path == [kind] + (if parent == null then [] else parent.path)
      && (parent != null ==> parent.Valid())
    }

    constructor (parent: NetScope?, name: HName.Key, kind: Kind, ghost text: seq<Item>)
      requires parent != null ==> parent.Valid()
      ensures Valid() && this.parent == parent && this.name == name && this.kind == kind && this.text == text
    {
      this.parent, this.name, this.kind, this.text := parent, name, kind, text;
      path := [kind] + (if parent == null then [] else parent.path);
    }
  }

  // --------------------------------------------------------------- ranges

  /** The range of an instance array: two ends or one size, which may have no constant value, or neither. */
  datatype RangeText = Ends(first: Option<int>, second: Option<int>) | OneSize(size: Option<int>) | NoRange

  /** The ends that evaluate_range finds. */
  function RangeEnds(r: RangeText): Option<(int, int)> {
    match r
    case Ends(Some(first), Some(second)) => Some((first, second))
    case OneSize(Some(size)) => if size > 0 then Some((0, size - 1)) else None
    case _ => None
  }

  /** The errors that it reports: one for each end without a value. */
  function RangeErrors(r: RangeText): nat {
    match r
    case Ends(first, second) => (if first.None? then 1 else 0) + (if second.None? then 1 else 0)
    case _ => if RangeEnds(r).None? then 1 else 0
  }

  /**
   * What the expressions of the design evaluate to, in each scope: the values that a genvar runs through, whether a
   * condition is met, the alternative of a case (if it is one), and the range of an instance array. Every theorem
   * holds for all choices.
   */
  datatype Choices = Choices(
    values: (NetScope, Item) -> seq<int>,
    taken: (NetScope, Item) -> bool,
    matched: (NetScope, Item) -> int,
    range: (NetScope, Name) -> RangeText)

  /** The modules of the source text, the recursion limit, and the choices. */
  datatype Source = Source(library: map<Name, seq<Item>>, limit: nat, choices: Choices)

  datatype WorkItem =
    | Root(scope: NetScope, mod: Name)
    | Schemes(scope: NetScope, mod: Name)
    | Instances(scope: NetScope, mod: Name, gate: Name, ranges: nat)

  function Distance(low: int, high: int): nat {
    if high > low then high - low else low - high
  }

  /** The number of instances of a gate: none when there is more than one range, or the range has no value. */
  function SizeOf(src: Source, sc: NetScope, gate: Name, ranges: nat): nat {
    if ranges > 1 then 0
    else if ranges == 0 then 1
    else
      match RangeEnds(src.choices.range(sc, gate))
      case None => 0
      case Some((high, low)) => Distance(low, high) + 1
  }

  /** The indices of an array lie between the ends of its range, both included; one size means 0, ..., size - 1. */
  predicate Within(range: RangeText, i: int) {
    match range
    case Ends(Some(first), Some(second)) => first <= i <= second || second <= i <= first
    case OneSize(Some(size)) => 0 <= i < size
    case _ => false
  }

  /** The name of instance i, counted from the low end of the range. */
  function InstanceName(src: Source, sc: NetScope, gate: Name, ranges: nat, i: nat): HName.Key {
    if ranges != 1 then HName.Key(gate, [])
    else
      match RangeEnds(src.choices.range(sc, gate))
      case None => HName.Key(gate, [])
      case Some((high, low)) => HName.Key(gate, if low < high then [low + i] else [low - i])
  }

  // --------------------------------------------------- what a scope calls for

  /** A scope that is called for: its name, its type, and what is to be in it. */
  datatype Call = Call(name: HName.Key, kind: Kind, text: seq<Item>)

  ghost predicate Answers(s: NetScope, parent: NetScope?, c: Call) {
    s.parent == parent && s.name == c.name && s.kind == c.kind && s.text == c.text
  }

  /** An item in scope sc calls for a scope c in sc. */
  ghost predicate Calls(src: Source, item: Item, sc: NetScope, c: Call)
    decreases item, 1
  {
    match item
    case Instance(mod, gate, ranges) =>
      && mod in src.library && Accepted(src.limit, mod, sc.path) && c.kind == Module(mod) && c.text == src.library[mod]
      && NamesInstance(src, sc, gate, ranges, c.name)
    case Block(name, items) => c == Call(HName.Key(name, []), Other, items)
    case Generate(scheme, name, direct, items) =>
      match scheme
      case Loop => c.kind == GenBlock && c.text == items && NamesIteration(src.choices.values(sc, item), name, c.name)
      case Condit => src.choices.taken(sc, item) && CallsAlternative(src, item, sc, c)
      case Case =>
        var m := src.choices.matched(sc, item);
        0 <= m < |items| && CallsAlternative(src, items[m], sc, c)
      case CaseItem => false
      case NBlock => c == Call(HName.Key(name, []), GenBlock, items)
  }

  ghost predicate NamesInstance(src: Source, sc: NetScope, gate: Name, ranges: nat, name: HName.Key) {
    exists i: nat :: i < SizeOf(src, sc, gate, ranges) && name == InstanceName(src, sc, gate, ranges, i)
  }

  /** A gate with one range names an instance for each index, one without a range names a single instance. */
  lemma IndicesNamed(src: Source, sc: NetScope, gate: Name, ranges: nat, name: HName.Key)
    ensures NamesInstance(src, sc, gate, ranges, name) <==>
            || (ranges == 0 && name == HName.Key(gate, []))
            || (ranges == 1 && |name.numbers| == 1 && name == HName.Key(gate, [name.numbers[0]]) &&
                Within(src.choices.range(sc, gate), name.numbers[0]))
  {
    var range := src.choices.range(sc, gate);
    if ranges == 0 {
      assert InstanceName(src, sc, gate, ranges, 0) == HName.Key(gate, []);
    } else if ranges == 1 && |name.numbers| == 1 && RangeEnds(range).Some? {
      var (high, low) := RangeEnds(range).value;
      var i := name.numbers[0];
      if Within(range, i) && name.text == gate {
        var k := if low < high then i - low else low - i;
        assert InstanceName(src, sc, gate, ranges, k) == name;
      }
    }
  }

  ghost predicate NamesIteration(values: seq<int>, name: Name, key: HName.Key) {
    exists i: nat :: i < |values| && key == HName.Key(name, [values[i]])
  }

  /** An alternative calls for a block, or for what its schemes call for when it is directly nested. */
  ghost predicate CallsAlternative(src: Source, g: Item, sc: NetScope, c: Call)
    decreases g, 0
  {
    g.Generate? &&
    if g.direct then exists k :: 0 <= k < |g.items| && g.items[k].Generate? && Calls(src, g.items[k], sc, c)
    else c == Call(HName.Key(g.name, []), GenBlock, g.items)
  }

  /** The text of a scope calls for a scope in it. */
  ghost predicate CalledFor(src: Source, sc: NetScope, c: Call) {
    exists k :: 0 <= k < |sc.text| && Calls(src, sc.text[k], sc, c)
  }

  /** The call that a scope answers. */
  ghost function CallOf(s: NetScope): Call {
    Call(s.name, s.kind, s.text)
  }

  predicate IsChild(s: NetScope, older p: NetScope) {
    s.parent == p
  }

  ghost predicate HasScope(created: set<NetScope>, parent: NetScope?, c: Call) {
    exists s :: s in created && Answers(s, parent, c)
  }

  /** Every scope that an item calls for is there. */
  ghost predicate AllThere(src: Source, item: Item, sc: NetScope, created: set<NetScope>) {
    forall c :: Calls(src, item, sc, c) ==> HasScope(created, sc, c)
  }

  /** Every scope that an item calls for is there, or is pending. */
  ghost predicate ItemDone(src: Source, item: Item, sc: NetScope, created: set<NetScope>, pending: set<WorkItem>) {
    || AllThere(src, item, sc, created)
    || (item.Instance? && Instances(sc, item.mod, item.gate, item.ranges) in pending)
    || (item.Generate? && sc.kind.Module? && Schemes(sc, sc.kind.name) in pending)
  }

  /** A scope has in it everything that its text calls for, except for work that is pending. */
  ghost predicate Complete(src: Source, s: NetScope, created: set<NetScope>, pending: set<WorkItem>) {
    || (s.kind.Module? && Root(s, s.kind.name) in pending)
    || forall k :: 0 <= k < |s.text| ==> ItemDone(src, s.text[k], s, created, pending)
  }

  // ------------------------------------------------------------ progress

  lemma ThereStays(src: Source, item: Item, sc: NetScope, created: set<NetScope>, created': set<NetScope>)
    requires created <= created' && AllThere(src, item, sc, created)
    ensures AllThere(src, item, sc, created')
  {
  }

  /** The work of an item is done. */
  ghost predicate Done(src: Source, w: WorkItem, created: set<NetScope>, pending: set<WorkItem>) {
    match w
    case Root(s, _) => forall k :: 0 <= k < |s.text| ==> ItemDone(src, s.text[k], s, created, pending)
    case Schemes(s, _) =>
      forall k :: 0 <= k < |s.text| && s.text[k].Generate? ==> AllThere(src, s.text[k], s, created)
    case Instances(s, mod, gate, ranges) => AllThere(src, Instance(mod, gate, ranges), s, created)
  }

  /** And so a scope stays complete. */
  lemma CompleteCarried(src: Source, s: NetScope, created: set<NetScope>, pending: set<WorkItem>,
                        created': set<NetScope>, pending': set<WorkItem>)
    requires created <= created' && Complete(src, s, created, pending)
    requires forall w :: w in pending && w.scope == s ==> w in pending' || Done(src, w, created', pending')
    ensures Complete(src, s, created', pending')
  {
  }

  /** When nothing is pending a complete scope has everything in it. */
  lemma CompleteMeans(src: Source, s: NetScope, created: set<NetScope>, c: Call)
    requires Complete(src, s, created, {}) && CalledFor(src, s, c)
    ensures HasScope(created, s, c)
  {
  }
}
