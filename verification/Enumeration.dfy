/** Enumerations: the values that names get, and the errors that are found. */
module Enumeration {
  import opened Options
  import opened PowersOfTwo
  import opened FourState
  import opened Verinum

  type Name = seq<nat>

  /** The expression given for a name: no constant, or a constant that may be a literal in the source text. */
  datatype Parm = NotConstant | Constant(v: Number, literal: bool)

  datatype Entry = Entry(name: Name, parm: Option<Parm>)

  /** The type of the enumeration: its width and sign, and whether it is two-state. */
  datatype Base = Base(width: nat, signed: bool, twoState: bool)

  ghost predicate ValidEntries(entries: seq<Entry>) {
    forall k :: 0 <= k < |entries| && entries[k].parm.Some? && entries[k].parm.value.Constant? ==>
      entries[k].parm.value.v.bits != []
  }

  // ---------------------------------------------------------- explicit values

  /** pad_to_width. (Values that come from strings are not part of this model.) */
  function PadToWidth(n: Number, w: nat): (r: Number)
    requires n.bits != []
    ensures |r.bits| == if |n.bits| >= w then |n.bits| else w
  {
    if |n.bits| >= w then n
    else
      var top := n.bits[|n.bits| - 1];
      var free := !n.hasSign && !n.single;
      var pad := if free && (top == B1 || n.hasLen) then B0 else top;
      Number(n.bits + Fill(pad, w - |n.bits|), n.hasLen, n.hasSign, n.single)
  }

  /** The bits above the enumeration repeat its top bit, or are all zero in an unsigned enumeration. */
  predicate UpperFits(v: Vec, w: nat, signed: bool)
    requires 0 < w <= |v|
  {
    || (forall k :: w <= k < |v| ==> v[k] == v[w - 1])
    || (!signed && forall k :: w <= k < |v| ==> v[k] == B0)
  }

  predicate Negative(n: Number)
    requires n.bits != []
  {
    n.hasSign && n.bits[|n.bits| - 1] == B1
  }

  /** The errors in an explicit value that do not end the enumeration. */
  function SizingErrors(b: Base, n: Number, literal: bool): nat
    requires n.bits != [] && b.width > 0
  {
    var padded := PadToWidth(n, b.width).bits;
    (if b.twoState && !Defined(n.bits) then 1 else 0)
    + (if literal && n.hasLen && |n.bits| != b.width then 1 else 0)
    + (if (|n.bits| != b.width || !n.hasLen) && !b.signed && Negative(n) then 1 else 0)
    + (if !UpperFits(padded, b.width, b.signed) then 1 else 0)
  }

  /**
   * What cannot be told from the integer: '0, '1, 'x and 'z fill the enumeration, and an unsized value whose top bit is
   * undefined is extended by it.
   */
  lemma FilledBits(b: Base, n: Number, k: nat)
    requires 0 < |n.bits| <= k < b.width
    ensures n.single || (!n.hasLen && n.bits[|n.bits| - 1] != B1) || n.hasSign ==>
              SizedValue(b, n)[k] == n.bits[|n.bits| - 1]
  {
  }

  /** An unsigned value with a one just above the enumeration ends the enumeration. */
  predicate Stops(b: Base, n: Number) {
    |n.bits| > b.width && !n.hasSign && n.bits[b.width] == B1
  }

  /** The value that the name gets. */
  function SizedValue(b: Base, n: Number): (v: Vec)
    requires n.bits != []
    ensures |v| == b.width
  {
    PadToWidth(n, b.width).bits[..b.width]
  }

  // ------------------------------------------------------------ what a run does

  datatype State = State(
    cur: Vec, wrapped: bool, values: map<Name, Vec>, scopeNames: set<Name>, errors: nat, stopped: bool)

  /** verinum(1, width), with the sign of the enumeration */
  function One(b: Base): int {
    IntOf(FromNat(1, b.width), b.signed)
  }

  /** The largest value, as it is computed: a power of two minus one_value */
  function MaxValue(b: Base): int
    requires b.width > 0
  {
    Pow2(if b.signed then b.width - 1 else b.width) - One(b)
  }

  function Plus(v: Vec, b: Base): Vec
    requires |v| == b.width
  {
    FromNat(Low(ToNat(v) + One(b), b.width), b.width)
  }

  function Init(b: Base, scopeNames: set<Name>, errors: nat): State {
    State(FromNat(0, b.width), false, map[], scopeNames, errors, false)
  }

  /** The value of an entry, if it gets one. */
  function Chosen(b: Base, st: State, e: Entry): Option<Vec>
    requires e.parm.Some? && e.parm.value.Constant? ==> e.parm.value.v.bits != []
  {
    match e.parm
    case Some(NotConstant) => None
    case Some(Constant(v, _)) => if Stops(b, v) then None else Some(SizedValue(b, v))
    case None => if Defined(st.cur) then Some(st.cur) else None
  }

  /** The errors of an entry before it is entered under its name. */
  function EntryErrors(b: Base, st: State, e: Entry): nat
    requires b.width > 0
    requires e.parm.Some? && e.parm.value.Constant? ==> e.parm.value.v.bits != []
  {
    match e.parm
    case Some(NotConstant) => 1
    case Some(Constant(v, literal)) => SizingErrors(b, v, literal) + (if Stops(b, v) then 1 else 0)
    case None => if Defined(st.cur) then (if st.wrapped then 1 else 0) else 1
  }

  /** The state after a name has been entered with value v. */
  function Enter(b: Base, st: State, name: Name, v: Vec, wrapped: bool, errors: nat): State
    requires |v| == b.width > 0
  {
    State(
      if Defined(v) then Plus(v, b) else v,
      wrapped || (Defined(v) && IntOf(v, b.signed) == MaxValue(b)),
      if name in st.values then st.values else st.values[name := v],
      st.scopeNames + {name},
      errors + (if v in st.values.Values then 1 else 0) + (if name in st.values || name in st.scopeNames then 1 else 0),
      false)
  }

  function Step(b: Base, st: State, e: Entry): State
    requires b.width > 0 && |st.cur| == b.width
    requires e.parm.Some? && e.parm.value.Constant? ==> e.parm.value.v.bits != []
  {
    if st.stopped then st
    else
      var c, errors := Chosen(b, st, e), st.errors + EntryErrors(b, st, e);
      if c.Some? then Enter(b, st, e.name, c.value, e.parm.None? && st.wrapped, errors)
      else st.(errors := errors, stopped := e.parm.Some? && e.parm.value.Constant?)
  }

  function Run(b: Base, entries: seq<Entry>, st: State, k: nat): (r: State)
    requires b.width > 0 && |st.cur| == b.width && ValidEntries(entries) && k <= |entries|
    ensures |r.cur| == b.width
  {
    if k == 0 then st else Step(b, Run(b, entries, st, k - 1), entries[k - 1])
  }

  // ----------------------------------------------------------- no error

  ghost predicate Clean(b: Base, entries: seq<Entry>, st: State, k: nat)
    requires b.width > 0 && |st.cur| == b.width && ValidEntries(entries) && k <= |entries|
  {
    Run(b, entries, st, k).errors == st.errors
  }

  lemma {:induction false} ErrorsStay(b: Base, entries: seq<Entry>, st: State, j: nat, k: nat)
    requires b.width > 0 && |st.cur| == b.width && ValidEntries(entries) && j <= k <= |entries|
    ensures Run(b, entries, st, j).errors <= Run(b, entries, st, k).errors
  {
    if j == k {
    } else {
      ErrorsStay(b, entries, st, j, k - 1);
    }
  }

  /** The value that name i gets. */
  function ValueOf(b: Base, entries: seq<Entry>, st: State, i: nat): Option<Vec>
    requires b.width > 0 && |st.cur| == b.width && ValidEntries(entries) && i < |entries|
  {
    Chosen(b, Run(b, entries, st, i), entries[i])
  }

  /** One entry without an error: it has a value, and neither the value nor the name was there before. */
  lemma CleanStep(b: Base, st: State, e: Entry)
    requires b.width > 0 && |st.cur| == b.width && !st.stopped
    requires e.parm.Some? && e.parm.value.Constant? ==> e.parm.value.v.bits != []
    requires Step(b, st, e).errors == st.errors
    ensures EntryErrors(b, st, e) == 0 && Chosen(b, st, e).Some? && !Step(b, st, e).stopped
    ensures e.name !in st.values && Chosen(b, st, e).value !in st.values.Values
    ensures Step(b, st, e).values == st.values[e.name := Chosen(b, st, e).value]
  {
  }

  /** Entry i adds no error and finds the enumeration still going on. */
  ghost predicate CleanAt(b: Base, entries: seq<Entry>, st: State, i: nat)
    requires b.width > 0 && |st.cur| == b.width && ValidEntries(entries) && i < |entries|
  {
    var here := Run(b, entries, st, i);
    !here.stopped && Step(b, here, entries[i]).errors == here.errors
  }

  lemma {:induction false} CleanRun(b: Base, entries: seq<Entry>, st: State, k: nat, i: nat)
    requires b.width > 0 && |st.cur| == b.width && ValidEntries(entries) && i < k <= |entries|
    requires !st.stopped && Clean(b, entries, st, k)
    ensures CleanAt(b, entries, st, i)
  {
    ErrorsStay(b, entries, st, 0, i);
    ErrorsStay(b, entries, st, i, i + 1);
    ErrorsStay(b, entries, st, i + 1, k);
    if i == 0 {
    } else {
      CleanRun(b, entries, st, k, i - 1);
      CleanStep(b, Run(b, entries, st, i - 1), entries[i - 1]);
    }
  }

  /** The last of k entries without an error. */
  lemma LastEntered(b: Base, entries: seq<Entry>, st: State, k: nat)
    requires b.width > 0 && |st.cur| == b.width && ValidEntries(entries) && 0 < k <= |entries|
    requires !st.stopped && Clean(b, entries, st, k)
    ensures ValueOf(b, entries, st, k - 1).Some? && Clean(b, entries, st, k - 1)
    ensures entries[k - 1].name !in Run(b, entries, st, k - 1).values
    ensures Run(b, entries, st, k).values ==
            Run(b, entries, st, k - 1).values[entries[k - 1].name := ValueOf(b, entries, st, k - 1).value]
  {
    ErrorsStay(b, entries, st, k - 1, k);
    ErrorsStay(b, entries, st, 0, k - 1);
    CleanRun(b, entries, st, k, k - 1);
    CleanStep(b, Run(b, entries, st, k - 1), entries[k - 1]);
  }

  /** Without an error every name has been entered with its own value. */
  lemma {:induction false} Entered(b: Base, entries: seq<Entry>, st: State, k: nat, i: nat)
    requires b.width > 0 && |st.cur| == b.width && ValidEntries(entries) && i < k <= |entries|
    requires !st.stopped && Clean(b, entries, st, k)
    ensures ValueOf(b, entries, st, i).Some?
    ensures var values := Run(b, entries, st, k).values;
            entries[i].name in values && values[entries[i].name] == ValueOf(b, entries, st, i).value
  {
    LastEntered(b, entries, st, k);
    if i == k - 1 {
    } else {
      Entered(b, entries, st, k - 1, i);
      OtherKept(Run(b, entries, st, k - 1).values, entries[i].name, entries[k - 1].name,
                ValueOf(b, entries, st, k - 1).value);
    }
  }

  lemma OtherKept(values: map<Name, Vec>, name: Name, added: Name, v: Vec)
    requires name in values && added !in values
    ensures name in values[added := v] && values[added := v][name] == values[name]
  {
  }

  /** No error: all names and all values are pairwise distinct. */
  lemma DistinctWhenClean(b: Base, entries: seq<Entry>, st: State, i: nat, j: nat)
    requires b.width > 0 && |st.cur| == b.width && ValidEntries(entries) && i < j < |entries|
    requires !st.stopped && Clean(b, entries, st, |entries|)
    ensures ValueOf(b, entries, st, i).Some? && ValueOf(b, entries, st, j).Some?
    ensures entries[i].name != entries[j].name && ValueOf(b, entries, st, i) != ValueOf(b, entries, st, j)
  {
    CleanRun(b, entries, st, |entries|, j);
    CleanStep(b, Run(b, entries, st, j), entries[j]);
    ErrorsStay(b, entries, st, j, |entries|);
    ErrorsStay(b, entries, st, 0, j);
    Entered(b, entries, st, j, i);
    var values := Run(b, entries, st, j).values;
    assert values[entries[i].name] in values.Values;
  }

  // ------------------------------------------------ entries that are left out

  lemma EnteredBy(b: Base, st: State, e: Entry, name: Name)
    requires b.width > 0 && |st.cur| == b.width
    requires e.parm.Some? && e.parm.value.Constant? ==> e.parm.value.v.bits != []
    ensures var values := Step(b, st, e).values;
            name in values ==>
              if name in st.values then values[name] == st.values[name]
              else e.name == name && Chosen(b, st, e) == Some(values[name])
  {
  }

  /** The value of this name comes from one of the first k entries. */
  ghost predicate GivenBy(b: Base, entries: seq<Entry>, st: State, k: nat, name: Name, v: Vec)
    requires b.width > 0 && |st.cur| == b.width && ValidEntries(entries) && k <= |entries|
  {
    exists i :: 0 <= i < k && entries[i].name == name && ValueOf(b, entries, st, i) == Some(v)
  }

  /** A name is entered only by an entry that gives it a value, and with that value. */
  lemma {:induction false} OnlyEntered(b: Base, entries: seq<Entry>, st: State, k: nat, name: Name)
    requires b.width > 0 && |st.cur| == b.width && ValidEntries(entries) && k <= |entries| && name !in st.values
    ensures var values := Run(b, entries, st, k).values;
            name in values ==> GivenBy(b, entries, st, k, name, values[name])
  {
    if k == 0 {
    } else {
      OnlyEntered(b, entries, st, k - 1, name);
      EnteredBy(b, Run(b, entries, st, k - 1), entries[k - 1], name);
      if name in Run(b, entries, st, k).values && name !in Run(b, entries, st, k - 1).values {
        assert ValueOf(b, entries, st, k - 1) == Some(Run(b, entries, st, k).values[name]);
      }
    }
  }

  /**
   * An entry without a constant adds one error and nothing else, and the enumeration goes on. An unsigned value with a
   * one just above the enumeration ends it: neither that entry nor any later one is entered.
   */
  lemma LeftOut(b: Base, entries: seq<Entry>, st: State, i: nat, k: nat)
    requires b.width > 0 && |st.cur| == b.width && ValidEntries(entries) && i < k <= |entries|
    requires !Run(b, entries, st, i).stopped && entries[i].parm.Some?
    ensures var before, after := Run(b, entries, st, i), Run(b, entries, st, i + 1);
            entries[i].parm.value.NotConstant? ==> after == before.(errors := before.errors + 1)
    ensures var before, end := Run(b, entries, st, i), Run(b, entries, st, k);
            entries[i].parm.value.Constant? && Stops(b, entries[i].parm.value.v) ==>
              end.values == before.values && end.scopeNames == before.scopeNames && end.errors > before.errors
  {
    if entries[i].parm.value.Constant? && Stops(b, entries[i].parm.value.v) {
      assert Run(b, entries, st, i + 1).stopped;
      StoppedStays(b, entries, st, i + 1, k);
    }
  }

  // ------------------------------------------------------- implicit values

  /** An implicit first value is 0. */
  lemma FirstIsZero(b: Base, entries: seq<Entry>, st: State)
    requires b.width > 0 && st.cur == FromNat(0, b.width) && ValidEntries(entries) && entries != []
    requires entries[0].parm.None?
    ensures ValueOf(b, entries, st, 0).Some? && IntOf(ValueOf(b, entries, st, 0).value, b.signed) == 0
  {
    FromNatValue(0, b.width);
  }

  lemma LowOfNext(x: nat, w: nat)
    requires x < Pow2(w)
    ensures Low(x + 1, w) == if x + 1 < Pow2(w) then x + 1 else 0
  {
    if x + 1 < Pow2(w) {
      LowSmall(x + 1, w);
    } else {
      RemainderUnique(x + 1, Pow2(w), 1, 0);
    }
  }

  lemma NatOfNext(x: nat, y: int, w: nat)
    requires x < Pow2(w) && y == x + 1
    ensures ToNat(FromNat(Low(y, w), w)) == if x + 1 < Pow2(w) then x + 1 else 0
  {
    LowOfNext(x, w);
    FromNatValue(Low(y, w), w);
  }

  lemma NextNat(v: Vec, b: Base)
    requires |v| == b.width > 0 && (b.signed ==> b.width > 1)
    ensures ToNat(Plus(v, b)) == if ToNat(v) + 1 < Pow2(b.width) then ToNat(v) + 1 else 0
  {
    OneIsOne(b);
    NatOfNext(ToNat(v), ToNat(v) + One(b), b.width);
  }

  /** The increment of the bits is an increment of the integer, unless the largest value wraps. */
  lemma PlusOne(v: Vec, b: Base)
    requires |v| == b.width > 0 && Defined(v) && (b.signed ==> b.width > 1)
    ensures One(b) == 1 && MaxValue(b) == (if b.signed then Pow2(b.width - 1) else Pow2(b.width)) - 1
    ensures IntOf(v, b.signed) != MaxValue(b) ==> IntOf(Plus(v, b), b.signed) == IntOf(v, b.signed) + 1
  {
    OneIsOne(b);
    assert Pow2(b.width) == 2 * Pow2(b.width - 1);
    NextNat(v, b);
  }

  lemma OneIsOne(b: Base)
    requires b.width > 0 && (b.signed ==> b.width > 1)
    ensures One(b) == 1
  {
    Pow2Monotone(1, b.width);
    FromNatValue(1, b.width);
    if b.signed {
      Pow2Monotone(1, b.width - 1);
    }
  }

  /** In a signed enumeration of one bit the increment is -1 and the largest value comes out as 2. */
  lemma OneBit(b: Base)
    requires b.width == 1 && b.signed
    ensures One(b) == -1 && MaxValue(b) == 2
    ensures IntOf([B0], true) == 0 && IntOf([B1], true) == -1 && Plus([B0], b) == [B1] && Plus([B1], b) == [B0]
  {
  }

  /** What an entry without an error leaves for the next one. */
  lemma NextValue(b: Base, st: State, e: Entry)
    requires b.width > 0 && |st.cur| == b.width && !st.stopped
    requires e.parm.Some? && e.parm.value.Constant? ==> e.parm.value.v.bits != []
    requires Step(b, st, e).errors == st.errors
    ensures Chosen(b, st, e).Some?
    ensures var v := Chosen(b, st, e).value;
            && Step(b, st, e).cur == (if Defined(v) then Plus(v, b) else v)
            && (Defined(v) && IntOf(v, b.signed) == MaxValue(b) ==> Step(b, st, e).wrapped)
  {
    CleanStep(b, st, e);
  }

  /** An implicit value without an error is the one that was left for it, and has not wrapped. */
  lemma CleanImplicit(b: Base, st: State, e: Entry)
    requires b.width > 0 && |st.cur| == b.width && !st.stopped && e.parm.None?
    requires Step(b, st, e).errors == st.errors
    ensures Chosen(b, st, e) == Some(st.cur) && Defined(st.cur) && !st.wrapped
  {
    CleanStep(b, st, e);
  }

  lemma ImplicitFollows(b: Base, entries: seq<Entry>, st: State, i: nat)
    requires b.width > 0 && |st.cur| == b.width && ValidEntries(entries) && 0 < i < |entries|
    requires !st.stopped && Clean(b, entries, st, |entries|) && entries[i].parm.None?
    ensures ValueOf(b, entries, st, i - 1).Some? && Defined(ValueOf(b, entries, st, i - 1).value)
    ensures var v := ValueOf(b, entries, st, i - 1).value;
            ValueOf(b, entries, st, i) == Some(Plus(v, b)) && IntOf(v, b.signed) != MaxValue(b)
  {
    CleanRun(b, entries, st, |entries|, i - 1);
    CleanRun(b, entries, st, |entries|, i);
    NextValue(b, Run(b, entries, st, i - 1), entries[i - 1]);
    CleanImplicit(b, Run(b, entries, st, i), entries[i]);
  }

  /**
   * No error: every other implicit value is its predecessor plus one, as an integer, in every enumeration but a
   * signed one of a single bit, where 0 is followed by -1.
   */
  lemma ImplicitIsNext(b: Base, entries: seq<Entry>, st: State, i: nat)
    requires b.width > 0 && |st.cur| == b.width && ValidEntries(entries) && 0 < i < |entries|
    requires !st.stopped && Clean(b, entries, st, |entries|) && entries[i].parm.None?
    ensures ValueOf(b, entries, st, i - 1).Some? && ValueOf(b, entries, st, i).Some?
    ensures var prev, here := ValueOf(b, entries, st, i - 1).value, ValueOf(b, entries, st, i).value;
            IntOf(here, b.signed) == IntOf(prev, b.signed) + 1 <==>
            !(b.signed && b.width == 1 && prev == [B0])
  {
    ImplicitFollows(b, entries, st, i);
    var prev := ValueOf(b, entries, st, i - 1).value;
    if b.signed && b.width == 1 {
      OneBit(b);
      assert prev == [prev[0]];
    } else {
      PlusOne(prev, b);
    }
  }

  /** Such an enumeration: two names without values pass as 0 and -1. */
  lemma OneBitWraps(names: (Name, Name), scopeNames: set<Name>)
    requires names.0 != names.1 && names.0 !in scopeNames && names.1 !in scopeNames
    ensures var b := Base(1, true, true);
            var entries := [Entry(names.0, None), Entry(names.1, None)];
            Run(b, entries, Init(b, scopeNames, 0), 2).errors == 0 &&
            Run(b, entries, Init(b, scopeNames, 0), 2).values == map[names.0 := [B0], names.1 := [B1]]
  {
    var b := Base(1, true, true);
    var entries := [Entry(names.0, None), Entry(names.1, None)];
    OneBit(b);
    var st := Init(b, scopeNames, 0);
    assert st.cur == [B0] by { assert FromNat(0, 0) == []; }
    var st1 := Run(b, entries, st, 1);
    assert st1 == Step(b, Run(b, entries, st, 0), entries[0]);
    assert st1 == State([B1], false, map[names.0 := [B0]], scopeNames + {names.0}, 0, false);
    assert [B1] != [B0] && [B1] !in st1.values.Values;
  }

  // ------------------------------------------------ enumerations without values

  /** The names are distinct and not taken, and none has a value of its own. */
  ghost predicate OnlyNames(entries: seq<Entry>, taken: set<Name>) {
    && (forall i :: 0 <= i < |entries| ==> entries[i].parm.None? && entries[i].name !in taken)
    && (forall i, j :: 0 <= i < j < |entries| ==> entries[i].name != entries[j].name)
  }

  /** How many values an enumeration of this type has from 0 up. */
  function Room(b: Base): nat
    requires b.width > 0
  {
    if b.signed then Pow2(b.width - 1) else Pow2(b.width)
  }

  /** The first k names have got the values from 0 on. */
  ghost predicate Counted(b: Base, entries: seq<Entry>, taken: set<Name>, st: State, k: nat)
    requires b.width > 0 && k <= |entries|
  {
    && !st.stopped && Defined(st.cur) && |st.cur| == b.width && ToNat(st.cur) == Low(k, b.width)
    && (st.wrapped <==> k >= Room(b))
    && (forall name :: name in st.values || name in st.scopeNames ==>
          name in taken || exists i :: 0 <= i < k && entries[i].name == name)
    && (forall name :: name in st.values ==> ToNat(st.values[name]) < k)
  }

  lemma CountedStep(b: Base, entries: seq<Entry>, taken: set<Name>, st: State, k: nat)
    requires b.width > 0 && (b.signed ==> b.width > 1) && OnlyNames(entries, taken) && k < |entries|
    requires Counted(b, entries, taken, st, k) && k < Room(b)
    ensures Step(b, st, entries[k]).errors == st.errors && Counted(b, entries, taken, Step(b, st, entries[k]), k + 1)
  {
    var w := b.width;
    assert Pow2(w) == 2 * Pow2(w - 1);
    LowSmall(k, w);
    LowOfNext(k, w);
    OneIsOne(b);
    NextNat(st.cur, b);
    assert IntOf(st.cur, b.signed) == k;
    assert entries[k].name !in st.values && entries[k].name !in st.scopeNames;
    assert st.cur !in st.values.Values;
  }

  lemma {:induction false} CountedRun(b: Base, entries: seq<Entry>, taken: set<Name>, errors: nat, k: nat)
    requires b.width > 0 && (b.signed ==> b.width > 1) && OnlyNames(entries, taken) && ValidEntries(entries)
    requires k <= |entries| && k <= Room(b)
    ensures var st := Run(b, entries, Init(b, taken, errors), k);
            st.errors == errors && Counted(b, entries, taken, st, k)
  {
    if k == 0 {
      FromNatValue(0, b.width);
      LowSmall(0, b.width);
    } else {
      CountedRun(b, entries, taken, errors, k - 1);
      CountedStep(b, entries, taken, Run(b, entries, Init(b, taken, errors), k - 1), k - 1);
    }
  }

  lemma WrappedIsError(b: Base, st: State, e: Entry)
    requires b.width > 0 && |st.cur| == b.width && Defined(st.cur) && st.wrapped && !st.stopped && e.parm.None?
    ensures Step(b, st, e).errors > st.errors
  {
  }

  lemma ErrorLasts(b: Base, entries: seq<Entry>, st: State, k: nat)
    requires b.width > 0 && |st.cur| == b.width && ValidEntries(entries) && k < |entries|
    requires Step(b, Run(b, entries, st, k), entries[k]).errors > Run(b, entries, st, k).errors
    ensures Run(b, entries, st, |entries|).errors > Run(b, entries, st, k).errors
  {
    ErrorsStay(b, entries, st, k + 1, |entries|);
  }

  lemma NoMoreRoom(b: Base, entries: seq<Entry>, taken: set<Name>, errors: nat)
    requires b.width > 0 && (b.signed ==> b.width > 1) && OnlyNames(entries, taken) && ValidEntries(entries)
    requires Room(b) < |entries|
    ensures !Clean(b, entries, Init(b, taken, errors), |entries|)
  {
    var st, k := Init(b, taken, errors), Room(b);
    CountedRun(b, entries, taken, errors, k);
    WrappedIsError(b, Run(b, entries, st, k), entries[k]);
    ErrorLasts(b, entries, st, k);
  }

  /** Name i of such an enumeration has the value i. */
  lemma CountedValue(b: Base, entries: seq<Entry>, taken: set<Name>, errors: nat, i: nat)
    requires b.width > 0 && (b.signed ==> b.width > 1) && OnlyNames(entries, taken) && ValidEntries(entries)
    requires i < |entries| && i < Room(b)
    ensures var v := ValueOf(b, entries, Init(b, taken, errors), i); v.Some? && IntOf(v.value, b.signed) == i
  {
    CountedRun(b, entries, taken, errors, i);
    assert Pow2(b.width) == 2 * Pow2(b.width - 1);
    LowSmall(i, b.width);
  }

  /** An enumeration of distinct names without values is without error exactly when there is room for all of them. */
  lemma NamesFitExactly(b: Base, entries: seq<Entry>, taken: set<Name>, errors: nat)
    requires b.width > 0 && (b.signed ==> b.width > 1) && OnlyNames(entries, taken) && ValidEntries(entries)
    ensures Clean(b, entries, Init(b, taken, errors), |entries|) <==>
            |entries| <= if b.signed then Pow2(b.width - 1) else Pow2(b.width)
  {
    if |entries| <= Room(b) {
      CountedRun(b, entries, taken, errors, |entries|);
    } else {
      NoMoreRoom(b, entries, taken, errors);
    }
  }

  // ------------------------------------------------------- explicit values

  /**
   * No error: an explicit defined value whose width is not that of the enumeration keeps its integer value,
   * whether it is padded or cut. ('0 and '1 have no width of their own: they fill the enumeration.)
   */
  lemma ExplicitKeepsValue(b: Base, n: Number, literal: bool)
    requires b.width > 0 && n.bits != [] && Defined(n.bits) && |n.bits| != b.width && !n.single
    requires SizingErrors(b, n, literal) == 0 && !Stops(b, n)
    ensures IntOf(SizedValue(b, n), b.signed) == IntOf(n.bits, n.hasSign)
  {
    var w := b.width;
    TopBit(n.bits);
    if |n.bits| < w {
      PaddedKeepsValue(b, n);
    } else {
      CutKeepsValue(b, n);
    }
  }

  /**
   * And such a value, if no length is written with it, has no error exactly when the enumeration can hold its integer.
   */
  lemma FitsExactly(b: Base, n: Number, literal: bool)
    requires b.width > 0 && n.bits != [] && Defined(n.bits) && |n.bits| != b.width && !n.single
    requires !(literal && n.hasLen)
    ensures SizingErrors(b, n, literal) == 0 && !Stops(b, n) <==> InRange(IntOf(n.bits, n.hasSign), b.width, b.signed)
  {
    if SizingErrors(b, n, literal) == 0 && !Stops(b, n) {
      ExplicitKeepsValue(b, n, literal);
      VectorInRange(SizedValue(b, n), b.signed);
    }
    if InRange(IntOf(n.bits, n.hasSign), b.width, b.signed) {
      TopBit(n.bits);
      if |n.bits| > b.width {
        LongFits(b, n);
      }
    }
  }

  lemma VectorInRange(v: Vec, signed: bool)
    requires v != []
    ensures InRange(IntOf(v, signed), |v|, signed)
  {
    AsSignedInRange(ToNat(v), |v|);
  }

  lemma LongFits(b: Base, n: Number)
    requires 0 < b.width < |n.bits| && Defined(n.bits) && InRange(IntOf(n.bits, n.hasSign), b.width, b.signed)
    ensures UpperFits(n.bits, b.width, b.signed) && !Stops(b, n) && (!b.signed ==> !Negative(n))
  {
    var v, w := n.bits, b.width;
    TopBit(v);
    UpperBits(v, w);
    UpperBits(v, w - 1);
    assert Pow2(w) == 2 * Pow2(w - 1);
    Pow2Monotone(w, |v| - 1);
  }

  lemma PaddedKeepsValue(b: Base, n: Number)
    requires n.bits != [] && Defined(n.bits) && |n.bits| < b.width && !n.single && (!b.signed ==> !Negative(n))
    ensures IntOf(SizedValue(b, n), b.signed) == IntOf(n.bits, n.hasSign)
  {
    var w := b.width;
    var v := PadToWidth(n, w).bits;
    assert SizedValue(b, n) == v;
    TopBit(n.bits);
    ExtendKeepsValue(n.bits, w, n.hasSign);
    TopBit(v);
    assert v[w - 1] == B1 ==> n.hasSign;
  }

  lemma CutKeepsValue(b: Base, n: Number)
    requires 0 < b.width < |n.bits| && Defined(n.bits) && (!b.signed ==> !Negative(n))
    requires UpperFits(n.bits, b.width, b.signed) && !Stops(b, n)
    ensures IntOf(SizedValue(b, n), b.signed) == IntOf(n.bits, n.hasSign)
  {
    var v, w := n.bits, b.width;
    assert SizedValue(b, n) == v[..w];
    TopBit(v);
    var top := v[|v| - 1];
    assert forall k :: w <= k < |v| ==> v[k] == top;
    if b.signed {
      assert top == v[w - 1];
    }
    TruncateKeepsValue(v, w, b.signed);
  }

  // --------------------------------------------------------- the elaborator

  class Design {
    var errors: nat
  }

  class NetScope {
    var enumNames: set<Name>

    /** NetScope::add_enumeration_name */
    method AddEnumerationName(name: Name) returns (added: bool)
      modifies this
      ensures enumNames == old(enumNames) + {name} && added == (name !in old(enumNames))
    {
      added := name !in enumNames;
      enumNames := enumNames + {name};
    }
  }

  class NetEnum {
    const base: Base
    var namesMap: map<Name, Vec>

    constructor (base: Base)
      ensures this.base == base && namesMap == map[]
    {
      this.base := base;
      namesMap := map[];
    }

    /** netenum_t::insert_name */
    method InsertName(name: Name, v: Vec) returns (added: bool)
      requires |v| == base.width
      modifies this
      ensures namesMap == if name in old(namesMap) then old(namesMap) else old(namesMap)[name := v]
      ensures added == (name !in old(namesMap))
    {
      added := name !in namesMap;
      if added {
        namesMap := namesMap[name := v];
      }
    }

    /** netenum_t::find_value */
    method FindValue(v: Vec) returns (found: bool)
      ensures found == (v in namesMap.Values)
    {
      var rest := namesMap.Keys;
      while rest != {}
        invariant rest <= namesMap.Keys
        invariant forall n :: n in namesMap.Keys - rest ==> namesMap[n] != v
        decreases |rest|
      {
        var n :| n in rest;
        if namesMap[n] == v { return true; }
        rest := rest - {n};
      }
      return false;
    }
  }

  /** The check of the bits above the enumeration. */
  method CheckUpper(v: Vec, w: nat, signed: bool) returns (ok: bool)
    requires 0 < w <= |v|
    ensures ok == UpperFits(v, w, signed)
  {
    var checkWidth := w - 1;
    for idx := w to |v|
      invariant checkWidth == w - 1 || (checkWidth == w < idx && !signed && v[w] == B0 != v[w - 1])
      invariant forall k :: w <= k < idx ==> v[k] == v[checkWidth]
    {
      if v[idx] != v[checkWidth] {
        if !signed && idx == w && v[idx] == B0 {
          checkWidth := checkWidth + 1;
        } else {
          assert w < idx ==> v[w] == v[checkWidth];
          assert checkWidth == w ==> v[w] != v[w - 1];
          return false;
        }
      }
    }
    return true;
  }

  /** An explicit value is brought to the width of the enumeration, unless it ends the enumeration. */
  method SizeValue(des: Design, b: Base, n: Number, literal: bool) returns (cur: Vec, stops: bool)
    requires n.bits != [] && b.width > 0
    modifies des
    ensures stops == Stops(b, n) && (!stops ==> cur == SizedValue(b, n))
    ensures des.errors == old(des.errors) + SizingErrors(b, n, literal) + (if stops then 1 else 0)
  {
    stops := false;
    if b.twoState && !Defined(n.bits) {
      des.errors := des.errors + 1;
    }
    if literal && n.hasLen && |n.bits| != b.width {
      des.errors := des.errors + 1;
    }
    if (|n.bits| != b.width || !n.hasLen) && !b.signed && Negative(n) {
      des.errors := des.errors + 1;
    }
    cur := n.bits;
    if |cur| < b.width {
      cur := PadToWidth(n, b.width).bits;
    }
    if |cur| > b.width {
      var ok := CheckUpper(cur, b.width, b.signed);
      if !ok {
        des.errors := des.errors + 1;
      }
      if !n.hasSign && cur[b.width] == B1 {
        des.errors := des.errors + 1;
        stops := true;
        return;
      }
      cur := cur[..b.width];
    }
  }

  /** elaborate_scope_enumeration */
  method ElaborateEnumeration(des: Design, scope: NetScope, use: NetEnum, entries: seq<Entry>)
    requires use.base.width > 0 && use.namesMap == map[] && ValidEntries(entries)
    modifies des, scope, use
    ensures var end := Run(use.base, entries, Init(use.base, old(scope.enumNames), old(des.errors)), |entries|);
            use.namesMap == end.values && scope.enumNames == end.scopeNames && des.errors == end.errors
  {
    var b := use.base;
    ghost var st := Init(b, scope.enumNames, des.errors);
    var cur, wrapped := FromNat(0, b.width), false;
    var k := 0;
    var stopped := false;
    while k < |entries| && !stopped
      invariant k <= |entries| && |cur| == b.width
      invariant Run(b, entries, st, k) == State(cur, wrapped, use.namesMap, scope.enumNames, des.errors, stopped)
    {
      cur, wrapped, stopped := ElaborateName(des, scope, use, entries[k], cur, wrapped);
      k := k + 1;
    }
    StoppedStays(b, entries, st, k, |entries|);
  }

  lemma {:induction false} StoppedStays(b: Base, entries: seq<Entry>, st: State, j: nat, k: nat)
    requires b.width > 0 && |st.cur| == b.width && ValidEntries(entries) && j <= k <= |entries|
    requires j < k ==> Run(b, entries, st, j).stopped
    ensures Run(b, entries, st, k) == Run(b, entries, st, j)
  {
    if j == k {
    } else {
      StoppedStays(b, entries, st, j, k - 1);
    }
  }

  /** One round of the loop over the names */
  method ElaborateName(des: Design, scope: NetScope, use: NetEnum, e: Entry, cur: Vec, wrapped: bool)
    returns (cur': Vec, wrapped': bool, stopped: bool)
    requires use.base.width > 0 && |cur| == use.base.width
    requires e.parm.Some? && e.parm.value.Constant? ==> e.parm.value.v.bits != []
    modifies des, scope, use
    ensures |cur'| == use.base.width
    ensures State(cur', wrapped', use.namesMap, scope.enumNames, des.errors, stopped) ==
            Step(use.base, State(cur, wrapped, old(use.namesMap), old(scope.enumNames), old(des.errors), false), e)
  {
    var b := use.base;
    cur', wrapped', stopped := cur, wrapped, false;
    match e.parm {
      case Some(NotConstant) =>
        des.errors := des.errors + 1;
        return;
      case Some(Constant(v, literal)) =>
        cur', stopped := SizeValue(des, b, v, literal);
        if stopped {
          cur' := cur;
          return;
        }
        wrapped' := false;
      case None =>
        if !Defined(cur) {
          des.errors := des.errors + 1;
          return;
        }
        if wrapped {
          des.errors := des.errors + 1;
        }
    }
    cur', wrapped' := EnterName(des, scope, use, e.name, cur', wrapped');
  }

  /** The part of a round that enters a name with its value, and increments the value for the next name */
  method EnterName(des: Design, scope: NetScope, use: NetEnum, name: Name, v: Vec, wrapped: bool)
    returns (cur': Vec, wrapped': bool)
    requires use.base.width > 0 && |v| == use.base.width
    modifies des, scope, use
    ensures |cur'| == use.base.width
    ensures State(cur', wrapped', use.namesMap, scope.enumNames, des.errors, false) ==
            Enter(use.base, State(v, wrapped, old(use.namesMap), old(scope.enumNames), old(des.errors), false),
                  name, v, wrapped, old(des.errors))
  {
    var b := use.base;
    cur', wrapped' := v, wrapped;
    var duplicate := use.FindValue(cur');
    if duplicate {
      des.errors := des.errors + 1;
    }
    var inserted := use.InsertName(name, cur');
    var added := scope.AddEnumerationName(name);
    if !(inserted && added) {
      des.errors := des.errors + 1;
    }
    if Defined(cur') {
      if IntOf(cur', b.signed) == MaxValue(b) {
        wrapped' := true;
      }
      cur' := Plus(cur', b);
    }
  }
}
