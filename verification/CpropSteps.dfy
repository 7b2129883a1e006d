/** Any sequence of rewrites: what it keeps, and why it ends. */
module CpropSteps {
  import opened FourState
  import opened Netlist
  import opened CpropRules
  import opened CpropMerge

  function PartIds(n: Netlist): set<nat> { set id | id in n.nodes && n.nodes[id].PartPV? }
  function ConcatIds(n: Netlist): set<nat> { set id | id in n.nodes && n.nodes[id].Concat? }
  function MuxIds(n: Netlist): set<nat> { set id | id in n.nodes && n.nodes[id].Mux? }

  /** Drops with every counted rewrite: merging k parts costs 2k and pays 1 for the new concatenation. */
  function Potential(n: Netlist): nat {
    2 * |PartIds(n)| + |ConcatIds(n)| + |MuxIds(n)|
  }

  ghost predicate ConcatStep(m: Netlist, n: Netlist) {
    exists id, id' :: ConcatFolded(m, n, id, id')
  }

  ghost predicate MuxStep(m: Netlist, n: Netlist) {
    exists id, id' :: MuxReduced(m, n, id, id')
  }

  ghost predicate MergeStep(m: Netlist, n: Netlist) {
    exists x, c, gaps :: x in m.nexa && Merged(m, n, x, FillOf(m.nexa[x]), c, gaps)
  }

  /** One counted rewrite of the propagation functor. */
  ghost predicate Rewrite(m: Netlist, n: Netlist) {
    ConcatStep(m, n) || MuxStep(m, n) || MergeStep(m, n)
  }

  /** Merging any target that may be merged is not seen. */
  ghost predicate SafeTargets(n: Netlist) {
    forall x :: Mergeable(n, x) ==> Harmless(n, x, FillOf(n.nexa[x]))
  }

  // ------------------------------------------------------------ potential

  lemma ConcatStepKinds(m: Netlist, n: Netlist, id: nat, id': nat)
    requires ConcatFolded(m, n, id, id')
    ensures PartIds(n) == PartIds(m) && ConcatIds(n) == ConcatIds(m) - {id} && MuxIds(n) == MuxIds(m)
    ensures id in ConcatIds(m)
  {
  }

  lemma ConcatStepCost(m: Netlist, n: Netlist, id: nat, id': nat)
    requires ConcatFolded(m, n, id, id')
    ensures Potential(n) == Potential(m) - 1
  {
    ConcatStepKinds(m, n, id, id');
    CardinalityMinus(ConcatIds(m), {id});
  }

  lemma MuxStepKinds(m: Netlist, n: Netlist, id: nat, id': nat)
    requires MuxReduced(m, n, id, id')
    ensures PartIds(n) == PartIds(m) && ConcatIds(n) == ConcatIds(m) && MuxIds(n) == MuxIds(m) - {id}
    ensures id in MuxIds(m)
  {
  }

  lemma MuxStepCost(m: Netlist, n: Netlist, id: nat, id': nat)
    requires MuxReduced(m, n, id, id')
    ensures Potential(n) == Potential(m) - 1
  {
    MuxStepKinds(m, n, id, id');
    CardinalityMinus(MuxIds(m), {id});
  }

  lemma CardinalityMinus(a: set<nat>, b: set<nat>)
    requires b <= a
    ensures |a - b| == |a| - |b|
  {
  }

  lemma MergedKinds(m: Netlist, n: Netlist, x: nat, fill: Bit, c: nat, gaps: map<nat, nat>)
    requires AllParts(m, x) && NewNames(m, c, gaps) && MergedNodes(m, n, x, fill, c, gaps)
    ensures Drivers(m, x) <= PartIds(m) && PartIds(n) == PartIds(m) - Drivers(m, x)
    ensures c !in ConcatIds(m) && ConcatIds(n) == ConcatIds(m) + {c}
    ensures MuxIds(n) == MuxIds(m)
  {
  }

  lemma MergeStepCost(m: Netlist, n: Netlist, x: nat, fill: Bit, c: nat, gaps: map<nat, nat>)
    requires Merged(m, n, x, fill, c, gaps)
    ensures Potential(n) == Potential(m) - 2 * |Drivers(m, x)| + 1 < Potential(m)
  {
    MergedKinds(m, n, x, fill, c, gaps);
    CardinalityMinus(PartIds(m), Drivers(m, x));
  }

  // ------------------------------------------------------------- one step

  /** Nexus x is in n as it is in m, with the drivers that it has there. */
  ghost predicate SameDrivers(m: Netlist, n: Netlist, x: nat) {
    && x in m.nexa && x in n.nexa && n.nexa[x] == m.nexa[x] && Drivers(n, x) == Drivers(m, x)
    && forall id :: id in Drivers(m, x) ==> n.nodes[id] == m.nodes[id]
  }

  /** Every rewrite costs potential, adds nexuses at most, and keeps well-formedness. */
  lemma RewriteProgress(m: Netlist, n: Netlist)
    requires WellFormed(m) && Rewrite(m, n)
    ensures WellFormed(n) && Potential(n) < Potential(m) && m.nexa.Keys <= n.nexa.Keys
  {
    if ConcatStep(m, n) {
      var id, id' :| ConcatFolded(m, n, id, id');
      ConcatFoldedSound(m, n, id, id');
      ConcatStepCost(m, n, id, id');
    } else if MuxStep(m, n) {
      var id, id' :| MuxReduced(m, n, id, id');
      MuxReducedSound(m, n, id, id');
      MuxStepCost(m, n, id, id');
    } else {
      var x, c, gaps :| x in m.nexa && Merged(m, n, x, FillOf(m.nexa[x]), c, gaps);
      MergedWellFormed(m, n, x, FillOf(m.nexa[x]), c, gaps);
      MergeStepCost(m, n, x, FillOf(m.nexa[x]), c, gaps);
    }
  }

  /** A rewrite that fills no gap of a target with 0, unless the target has another source. */
  ghost predicate HarmlessStep(m: Netlist, n: Netlist) {
    || ConcatStep(m, n)
    || MuxStep(m, n)
    || exists x, c, gaps ::
         x in m.nexa && Merged(m, n, x, FillOf(m.nexa[x]), c, gaps) && Harmless(m, x, FillOf(m.nexa[x]))
  }

  /** Such a rewrite keeps all solution values of the nexuses there were. */
  lemma RewriteSound(m: Netlist, n: Netlist)
    requires WellFormed(m) && HarmlessStep(m, n)
    ensures SameMeaning(m, n, m.nexa.Keys)
  {
    if ConcatStep(m, n) {
      var id, id' :| ConcatFolded(m, n, id, id');
      ConcatFoldedSound(m, n, id, id');
    } else if MuxStep(m, n) {
      var id, id' :| MuxReduced(m, n, id, id');
      MuxReducedSound(m, n, id, id');
    } else {
      var x, c, gaps :| x in m.nexa && Merged(m, n, x, FillOf(m.nexa[x]), c, gaps) && Harmless(m, x, FillOf(m.nexa[x]));
      MergedSound(m, n, x, FillOf(m.nexa[x]), c, gaps);
    }
  }

  // ---------------------------------------------------- what became of a target

  /** Valuation v has the right widths, and its constant on every constant nexus. */
  ghost predicate Plausible(n: Netlist, v: Valuation) {
    && (forall g :: g in n.nexa ==> g in v && |v[g]| == Width(n, g))
    && (forall g :: g in n.nexa && DriversConstant(n, g) ==> v[g] == DrivenVector(n, g))
  }

  /** Whatever the inputs are, what the pins join has bit b in place i. */
  ghost predicate PinsShow(n: Netlist, pins: seq<nat>, i: nat, b: Bit) {
    && (forall k :: 0 <= k < |pins| ==> pins[k] in n.nexa)
    && forall v {:trigger Cat(v, pins)} :: Plausible(n, v) ==> i < |Cat(v, pins)| && Cat(v, pins)[i] == b
  }

  /** One node drives x, a concatenation or a constant, and it puts b on bit i. */
  ghost predicate Shows(n: Netlist, x: nat, i: nat, b: Bit) {
    && x in n.nexa
    && exists c :: Drivers(n, x) == {c} && NodeShows(n, n.nodes[c], i, b)
  }

  ghost predicate NodeShows(n: Netlist, d: Node, i: nat, b: Bit) {
    match d
    case Concat(_, pins, _, _) => PinsShow(n, pins, i, b)
    case Const(_, value) => i < |value| && value[i] == b
    case _ => false
  }

  /** In n target x of m is as it was, or it has been merged and shows its fill on the bits that were not driven. */
  ghost predicate Tracked(m: Netlist, n: Netlist, x: nat)
    requires Mergeable(m, x)
  {
    || SameDrivers(m, n, x)
    || (x in n.nexa && n.nexa[x] == m.nexa[x] &&
        forall i: nat :: i < Width(m, x) && !Driven(m, x, i) ==> Shows(n, x, i, FillOf(m.nexa[x])))
  }

  /** Nothing may be merged but what could be merged at the start, and that is tracked. */
  ghost predicate AllTracked(m: Netlist, n: Netlist) {
    && (forall x :: Mergeable(m, x) ==> Tracked(m, n, x))
    && (forall x :: Mergeable(n, x) ==> Mergeable(m, x) && SameDrivers(m, n, x))
  }

  lemma SameMergeable(m: Netlist, n: Netlist, x: nat)
    requires SameDrivers(m, n, x)
    ensures Mergeable(m, x) <==> Mergeable(n, x)
    ensures forall fill :: Harmless(m, x, fill) <==> Harmless(n, x, fill)
    ensures Mergeable(m, x) ==> forall i: nat :: Driven(m, x, i) <==> Driven(n, x, i)
  {
    forall i: nat
      ensures PartDrives(m, x, i) <==> PartDrives(n, x, i)
    {
      if PartDrives(m, x, i) {
        var k :| k in Drivers(m, x) && m.nodes[k].PartPV? && Covers(m.nodes[k], i);
        assert k in Drivers(n, x);
      }
      if PartDrives(n, x, i) {
        var k :| k in Drivers(n, x) && n.nodes[k].PartPV? && Covers(n.nodes[k], i);
        assert k in Drivers(m, x);
      }
    }
  }

  lemma SameConstant(m: Netlist, n: Netlist, g: nat)
    requires SameDrivers(m, n, g) && DriversConstant(m, g)
    ensures DriversConstant(n, g) && DrivenVector(n, g) == DrivenVector(m, g)
  {
  }

  /** A rewrite is done at one nexus. */
  ghost predicate DoneAt(m: Netlist, n: Netlist, t: nat) {
    && t in m.nexa && t in n.nexa && n.nexa[t] == m.nexa[t]
    && (forall z :: z in m.nexa && z != t ==> SameDrivers(m, n, z))
    && !DriversConstant(m, t) && !AllParts(n, t)
    && (forall z :: z in n.nexa && z !in m.nexa ==> !AllParts(n, z))
  }

  lemma ConcatDoneAt(m: Netlist, n: Netlist, id: nat, id': nat)
    requires WellFormed(m) && ConcatFolded(m, n, id, id')
    ensures DoneAt(m, n, m.nodes[id].out)
  {
    assert WellFormedNode(m, m.nodes[id]);
    SwapDoneAt(m, n, id, id');
  }

  lemma MuxDoneAt(m: Netlist, n: Netlist, id: nat, id': nat)
    requires WellFormed(m) && MuxReduced(m, n, id, id')
    ensures DoneAt(m, n, m.nodes[id].out)
  {
    assert WellFormedNode(m, m.nodes[id]);
    SwapDoneAt(m, n, id, id');
  }

  lemma SwapDoneAt(m: Netlist, n: Netlist, id: nat, id': nat)
    requires id in m.nodes && id' !in m.nodes && id' in n.nodes && n.nexa == m.nexa
    requires n.nodes == (m.nodes - {id})[id' := n.nodes[id']] && n.nodes[id'].out == m.nodes[id].out
    requires m.nodes[id].out in m.nexa && (m.nodes[id].Concat? || m.nodes[id].Mux?) && !n.nodes[id'].PartPV?
    ensures DoneAt(m, n, m.nodes[id].out)
  {
  }

  lemma MergeDoneAt(m: Netlist, n: Netlist, x: nat, fill: Bit, c: nat, gaps: map<nat, nat>)
    requires WellFormed(m) && x in m.nexa && Merged(m, n, x, fill, c, gaps)
    ensures DoneAt(m, n, x)
  {
    MergedKind(m, n, x, fill, c, gaps);
    forall z | z in m.nexa && z != x
      ensures SameDrivers(m, n, z)
    {
      OtherDrivers(m, n, x, fill, c, gaps, z);
    }
    forall z | z in n.nexa && z !in m.nexa
      ensures !AllParts(n, z)
    {
      GapIsNoTarget(m, n, x, fill, c, gaps, z);
    }
  }

  lemma MergedKind(m: Netlist, n: Netlist, x: nat, fill: Bit, c: nat, gaps: map<nat, nat>)
    requires x in m.nexa && AllParts(m, x) && Drivers(m, x) != {}
    requires NewNames(m, c, gaps) && MergedNodes(m, n, x, fill, c, gaps)
    ensures !DriversConstant(m, x) && !AllParts(n, x)
  {
  }

  lemma GapIsNoTarget(m: Netlist, n: Netlist, x: nat, fill: Bit, c: nat, gaps: map<nat, nat>, z: nat)
    requires WellFormed(m) && x in m.nexa && z in n.nexa && z !in m.nexa
    requires NewNames(m, c, gaps) && MergedNexa(m, n, gaps) && MergedNodes(m, n, x, fill, c, gaps)
    ensures !AllParts(n, z)
  {
  }

  lemma PlausibleBefore(m: Netlist, n: Netlist, t: nat, v: Valuation)
    requires DoneAt(m, n, t) && Plausible(n, v)
    ensures Plausible(m, v)
  {
    forall g | g in m.nexa
      ensures g in v && |v[g]| == Width(m, g) && (DriversConstant(m, g) ==> v[g] == DrivenVector(m, g))
    {
      if DriversConstant(m, g) {
        SameConstant(m, n, g);
      }
    }
  }

  lemma PinsShowKept(m: Netlist, n: Netlist, t: nat, pins: seq<nat>, i: nat, b: Bit)
    requires DoneAt(m, n, t) && PinsShow(m, pins, i, b)
    ensures PinsShow(n, pins, i, b)
  {
    forall k | 0 <= k < |pins|
      ensures pins[k] in n.nexa
    {
      assert pins[k] in m.nexa;
    }
    forall v | Plausible(n, v)
      ensures i < |Cat(v, pins)| && Cat(v, pins)[i] == b
    {
      PlausibleBefore(m, n, t, v);
    }
  }

  /** What one rewrite elsewhere leaves of a merged target. */
  lemma ShowsKept(m: Netlist, n: Netlist, t: nat, x: nat, i: nat, b: Bit)
    requires DoneAt(m, n, t) && x != t && Shows(m, x, i, b)
    ensures Shows(n, x, i, b)
  {
    var c :| Drivers(m, x) == {c} && NodeShows(m, m.nodes[c], i, b);
    assert SameDrivers(m, n, x) && c in Drivers(m, x);
    match m.nodes[c]
    case Concat(_, pins, _, _) =>
      PinsShowKept(m, n, t, pins, i, b);
    case _ =>
  }

  /** A valuation that gives the constant nexuses their constants. */
  ghost function Default(n: Netlist): Valuation {
    map g | g in n.nexa :: if DriversConstant(n, g) then DrivenVector(n, g) else Rep(BZ, Width(n, g))
  }

  lemma DefaultIsPlausible(n: Netlist)
    requires WellFormed(n)
    ensures Plausible(n, Default(n))
  {
  }

  /** Folding the concatenation that a merge has left keeps what it shows. */
  lemma FoldShows(m: Netlist, n: Netlist, id: nat, id': nat, i: nat, b: Bit)
    requires WellFormed(m) && ConcatFolded(m, n, id, id') && Shows(m, m.nodes[id].out, i, b)
    ensures Shows(n, m.nodes[id].out, i, b)
  {
    var d := m.nodes[id];
    var v := Default(m);
    DefaultIsPlausible(m);
    CatIsDrivenCat(m, (_, _) => [], v, d.ins);
    assert id in Drivers(m, d.out);
    assert PinsShow(m, d.ins, i, b) && i < |Cat(v, d.ins)|;
    assert Drivers(n, d.out) == {id'};
    assert NodeShows(n, n.nodes[id'], i, b);
  }

  /** A merge shows its fill on the bits that the parts did not drive. */
  lemma MergeShows(m: Netlist, n: Netlist, x: nat, fill: Bit, c: nat, gaps: map<nat, nat>, i: nat)
    requires WellFormed(m) && x in m.nexa && Merged(m, n, x, fill, c, gaps) && i < Width(m, x) && !Driven(m, x, i)
    ensures Shows(n, x, i, fill)
  {
    TargetDriver(m, n, x, fill, c, gaps);
    var pins := n.nodes[c].ins;
    forall v | Plausible(n, v)
      ensures i < |Cat(v, pins)| && Cat(v, pins)[i] == fill
    {
      PlausibleInputs(m, n, x, fill, c, gaps, v);
    }
    assert PinsShow(n, pins, i, fill);
    assert NodeShows(n, n.nodes[c], i, fill);
  }

  lemma PlausibleInputs(m: Netlist, n: Netlist, x: nat, fill: Bit, c: nat, gaps: map<nat, nat>, v: Valuation)
    requires WellFormed(m) && x in m.nexa && Merged(m, n, x, fill, c, gaps) && Plausible(n, v)
    ensures Blends(m, x, v, fill, Cat(v, n.nodes[c].ins))
  {
    forall id | id in gaps
      ensures gaps[id] in v && v[gaps[id]] == Rep(fill, Width(n, gaps[id]))
    {
      GapIsConstant(m, n, x, fill, c, gaps, id);
    }
    MergedInputsHold(m, n, x, fill, c, gaps, v);
  }

  lemma GapIsConstant(m: Netlist, n: Netlist, x: nat, fill: Bit, c: nat, gaps: map<nat, nat>, id: nat)
    requires WellFormed(m) && x in m.nexa && id in gaps
    requires NewNames(m, c, gaps) && MergedNexa(m, n, gaps) && MergedNodes(m, n, x, fill, c, gaps)
    ensures gaps[id] in n.nexa && DriversConstant(n, gaps[id])
    ensures DrivenVector(n, gaps[id]) == Rep(fill, Width(n, gaps[id]))
  {
    assert gaps[id] in gaps.Values;
    GapDriver(m, n, x, fill, c, gaps, id);
    assert id in Drivers(n, gaps[id]);
  }

  lemma TrackedStays(m: Netlist, before: Netlist, n: Netlist, t: nat, x: nat)
    requires Mergeable(m, x) && Tracked(m, before, x) && DoneAt(before, n, t) && x != t
    ensures Tracked(m, n, x)
  {
    if !SameDrivers(m, before, x) {
      forall i: nat | i < Width(m, x) && !Driven(m, x, i)
        ensures Shows(n, x, i, FillOf(m.nexa[x]))
      {
        ShowsKept(before, n, t, x, i, FillOf(m.nexa[x]));
      }
    }
  }

  /** A nexus that something else than parts drives is no longer one that is still to be merged. */
  lemma NotAsItWas(m: Netlist, before: Netlist, id: nat)
    requires id in before.nodes && !before.nodes[id].PartPV? && Mergeable(m, before.nodes[id].out)
    ensures !SameDrivers(m, before, before.nodes[id].out)
  {
  }

  lemma ConcatTracked(m: Netlist, before: Netlist, n: Netlist, id: nat, id': nat, x: nat)
    requires WellFormed(before) && ConcatFolded(before, n, id, id') && Mergeable(m, x) && Tracked(m, before, x)
    ensures Tracked(m, n, x)
  {
    ConcatDoneAt(before, n, id, id');
    if x == before.nodes[id].out {
      NotAsItWas(m, before, id);
      forall i: nat | i < Width(m, x) && !Driven(m, x, i)
        ensures Shows(n, x, i, FillOf(m.nexa[x]))
      {
        FoldShows(before, n, id, id', i, FillOf(m.nexa[x]));
      }
    } else {
      TrackedStays(m, before, n, before.nodes[id].out, x);
    }
  }

  lemma MuxTracked(m: Netlist, before: Netlist, n: Netlist, id: nat, id': nat, x: nat)
    requires WellFormed(before) && MuxReduced(before, n, id, id') && Mergeable(m, x) && Tracked(m, before, x)
    ensures Tracked(m, n, x)
  {
    MuxDoneAt(before, n, id, id');
    if x == before.nodes[id].out {
      NotAsItWas(m, before, id);
      assert id in Drivers(before, x);
    } else {
      TrackedStays(m, before, n, before.nodes[id].out, x);
    }
  }

  lemma MergeTracked(m: Netlist, before: Netlist, n: Netlist, y: nat, c: nat, gaps: map<nat, nat>, x: nat)
    requires WellFormed(before) && y in before.nexa && Merged(before, n, y, FillOf(before.nexa[y]), c, gaps)
    requires Mergeable(m, x) && Tracked(m, before, x) && (x == y ==> SameDrivers(m, before, x))
    ensures Tracked(m, n, x)
  {
    MergeDoneAt(before, n, y, FillOf(before.nexa[y]), c, gaps);
    if x == y {
      SameMergeable(m, before, x);
      forall i: nat | i < Width(m, x) && !Driven(m, x, i)
        ensures Shows(n, x, i, FillOf(m.nexa[x]))
      {
        MergeShows(before, n, x, FillOf(m.nexa[x]), c, gaps, i);
      }
    } else {
      TrackedStays(m, before, n, y, x);
    }
  }

  lemma StillMergeable(m: Netlist, before: Netlist, n: Netlist, t: nat, x: nat)
    requires AllTracked(m, before) && DoneAt(before, n, t) && Mergeable(n, x)
    ensures Mergeable(m, x) && SameDrivers(m, n, x)
  {
  }

  lemma RewriteTracked(m: Netlist, before: Netlist, n: Netlist)
    requires WellFormed(before) && AllTracked(m, before) && Rewrite(before, n)
    ensures AllTracked(m, n)
  {
    var t: nat;
    if ConcatStep(before, n) {
      var id, id' :| ConcatFolded(before, n, id, id');
      ConcatDoneAt(before, n, id, id');
      t := before.nodes[id].out;
      forall x | Mergeable(m, x) ensures Tracked(m, n, x) { ConcatTracked(m, before, n, id, id', x); }
    } else if MuxStep(before, n) {
      var id, id' :| MuxReduced(before, n, id, id');
      MuxDoneAt(before, n, id, id');
      t := before.nodes[id].out;
      forall x | Mergeable(m, x) ensures Tracked(m, n, x) { MuxTracked(m, before, n, id, id', x); }
    } else {
      var y, c, gaps :| y in before.nexa && Merged(before, n, y, FillOf(before.nexa[y]), c, gaps);
      MergeDoneAt(before, n, y, FillOf(before.nexa[y]), c, gaps);
      t := y;
      forall x | Mergeable(m, x) ensures Tracked(m, n, x) { MergeTracked(m, before, n, y, c, gaps, x); }
    }
    forall x | Mergeable(n, x)
      ensures Mergeable(m, x) && SameDrivers(m, n, x)
    {
      StillMergeable(m, before, n, t, x);
    }
  }

  lemma SafeStep(m: Netlist, before: Netlist, n: Netlist)
    requires SafeTargets(m) && AllTracked(m, before) && Rewrite(before, n)
    ensures HarmlessStep(before, n)
  {
    if !ConcatStep(before, n) && !MuxStep(before, n) {
      var x, c, gaps :| x in before.nexa && Merged(before, n, x, FillOf(before.nexa[x]), c, gaps);
      assert Mergeable(before, x);
      SameMergeable(m, before, x);
      assert Harmless(m, x, FillOf(m.nexa[x]));
    }
  }

  lemma StepSound(m: Netlist, before: Netlist, n: Netlist)
    requires WellFormed(before) && SafeTargets(m) && AllTracked(m, before) && Rewrite(before, n)
    ensures SameMeaning(before, n, before.nexa.Keys)
  {
    SafeStep(m, before, n);
    RewriteSound(before, n);
  }

  /** In every solution a nexus has the bits that it shows. */
  lemma ShownBit(n: Netlist, beh: Behaviour, w: Valuation, x: nat, i: nat, b: Bit)
    requires WellFormed(n) && Solution(n, beh, w) && Shows(n, x, i, b) && !Free(n.nexa[x]) && i < Width(n, x)
    ensures x in w && i < |w[x]| && w[x][i] == b
  {
    var c :| Drivers(n, x) == {c} && NodeShows(n, n.nodes[c], i, b);
    assert NexusHolds(n, beh, w, x);
    SolutionIsPlausible(n, beh, w);
    ShownDrive(n, n.nodes[c], beh, w, i, b);
    LoneBit(n, beh, w, x, c, i);
  }

  lemma LoneBit(n: Netlist, beh: Behaviour, w: Valuation, x: nat, c: nat, i: nat)
    requires Drivers(n, x) == {c}
    ensures Resolve(DriverBits(n, beh, w, x, i)) == DriveBit(n.nodes[c], beh, w, i)
  {
  }

  lemma ShownDrive(n: Netlist, d: Node, beh: Behaviour, w: Valuation, i: nat, b: Bit)
    requires NodeShows(n, d, i, b) && Plausible(n, w)
    ensures DriveBit(d, beh, w, i) == b
  {
  }

  lemma SolutionIsPlausible(n: Netlist, beh: Behaviour, w: Valuation)
    requires WellFormed(n) && Solution(n, beh, w)
    ensures Plausible(n, w)
  {
    forall g | g in n.nexa
      ensures g in w && |w[g]| == Width(n, g) && (DriversConstant(n, g) ==> w[g] == DrivenVector(n, g))
    {
      assert NexusHolds(n, beh, w, g);
      if DriversConstant(n, g) {
        ConstantNexus(n, beh, w, g);
      }
    }
  }

  ghost predicate NothingToMerge(n: Netlist) {
    forall x :: !Mergeable(n, x)
  }

  /** When nothing is left to merge and some target was not safe, that is seen. */
  lemma UnsafeIsSeen(m: Netlist, n: Netlist, beh: Behaviour, w: Valuation)
    requires WellFormed(n) && AllTracked(m, n) && !SafeTargets(m) && Solution(n, beh, w)
    requires NothingToMerge(n)
    ensures !SameMeaning(m, n, m.nexa.Keys)
  {
    var x :| Mergeable(m, x) && !Harmless(m, x, FillOf(m.nexa[x]));
    assert Tracked(m, n, x);
    if SameDrivers(m, n, x) {
      SameMergeable(m, n, x);
      assert false;
    }
    var i: nat :| i < Width(m, x) && !PartDrives(m, x, i);
    assert !Driven(m, x, i);
    assert Shows(n, x, i, FillOf(m.nexa[x]));
    ShownBit(n, beh, w, x, i, FillOf(m.nexa[x]));
    NotSame(m, n, x, beh, w, i);
  }

  // ------------------------------------------------------------ many steps

  /** A run: each netlist comes from the one before by some rewrite, chosen in any order. */
  ghost predicate Run(ns: seq<Netlist>) {
    ns != [] && forall k :: 0 < k < |ns| ==> StepAt(ns, k)
  }

  ghost predicate StepAt(ns: seq<Netlist>, k: nat)
    requires 0 < k < |ns|
  {
    Rewrite(ns[k - 1], ns[k])
  }

  lemma PrefixRun(ns: seq<Netlist>)
    requires Run(ns) && |ns| > 1
    ensures Run(ns[..|ns| - 1]) && Rewrite(ns[|ns| - 2], ns[|ns| - 1])
  {
    var prefix := ns[..|ns| - 1];
    forall k | 0 < k < |prefix|
      ensures StepAt(prefix, k)
    {
      assert StepAt(ns, k);
    }
    assert StepAt(ns, |ns| - 1);
  }

  lemma {:induction false} RunProgress(ns: seq<Netlist>)
    requires Run(ns) && WellFormed(ns[0])
    ensures WellFormed(ns[|ns| - 1]) && ns[0].nexa.Keys <= ns[|ns| - 1].nexa.Keys
    ensures |ns| - 1 + Potential(ns[|ns| - 1]) <= Potential(ns[0])
    ensures AllTracked(ns[0], ns[|ns| - 1])
  {
    if |ns| == 1 {
    } else {
      var prefix := ns[..|ns| - 1];
      PrefixRun(ns);
      RunProgress(prefix);
      assert prefix[0] == ns[0] && prefix[|prefix| - 1] == ns[|ns| - 2];
      RewriteProgress(ns[|ns| - 2], ns[|ns| - 1]);
      RewriteTracked(ns[0], ns[|ns| - 2], ns[|ns| - 1]);
    }
  }

  /**
   * Any run of concatenation, mux and part rewrites over safe targets, whatever the scan order,
   * keeps exactly the solution values of every nexus that existed at its start; and no run is longer
   * than the potential of its first netlist.
   */
  lemma {:induction false} RunSound(ns: seq<Netlist>)
    requires Run(ns) && WellFormed(ns[0]) && SafeTargets(ns[0])
    ensures SameMeaning(ns[0], ns[|ns| - 1], ns[0].nexa.Keys)
    ensures |ns| - 1 <= Potential(ns[0])
  {
    RunProgress(ns);
    if |ns| == 1 {
      SameMeaningReflexive(ns[0]);
    } else {
      var prefix := ns[..|ns| - 1];
      PrefixRun(ns);
      RunSound(prefix);
      RunProgress(prefix);
      var m, n := ns[|ns| - 2], ns[|ns| - 1];
      assert prefix[0] == ns[0] && prefix[|prefix| - 1] == m;
      StepSound(ns[0], m, n);
      SameMeaningTransitive(ns[0], m, n, ns[0].nexa.Keys, m.nexa.Keys, ns[0].nexa.Keys);
    }
  }

  /**
   * The condition is exact: a run that leaves nothing to merge, and whose result has a solution, keeps those values
   * if and only if all targets were safe.
   */
  lemma RunExact(ns: seq<Netlist>, beh: Behaviour, w: Valuation)
    requires Run(ns) && WellFormed(ns[0])
    requires Solution(ns[|ns| - 1], beh, w) && NothingToMerge(ns[|ns| - 1])
    ensures SameMeaning(ns[0], ns[|ns| - 1], ns[0].nexa.Keys) <==> SafeTargets(ns[0])
  {
    RunProgress(ns);
    if SafeTargets(ns[0]) {
      RunSound(ns);
    } else {
      UnsafeIsSeen(ns[0], ns[|ns| - 1], beh, w);
    }
  }

  /** Some run leads from m to n. */
  ghost predicate Reaches(m: Netlist, n: Netlist) {
    exists ns :: Run(ns) && ns[0] == m && ns[|ns| - 1] == n
  }

  lemma ReachesItself(m: Netlist)
    ensures Reaches(m, m)
  {
    assert Run([m]);
  }

  lemma ReachesOneMore(m: Netlist, before: Netlist, n: Netlist)
    requires Reaches(m, before) && Rewrite(before, n)
    ensures Reaches(m, n)
  {
    var ns :| Run(ns) && ns[0] == m && ns[|ns| - 1] == before;
    var all := ns + [n];
    forall k | 0 < k < |all|
      ensures StepAt(all, k)
    {
      if k < |ns| {
        assert StepAt(ns, k);
      }
    }
    assert Run(all);
  }

  lemma ReachesTransitive(a: Netlist, b: Netlist, c: Netlist)
    requires Reaches(a, b) && Reaches(b, c)
    ensures Reaches(a, c)
  {
    var ns :| Run(ns) && ns[0] == a && ns[|ns| - 1] == b;
    var ms :| Run(ms) && ms[0] == b && ms[|ms| - 1] == c;
    var all := ns + ms[1..];
    forall k | 0 < k < |all|
      ensures StepAt(all, k)
    {
      if k >= |ns| {
        assert StepAt(ms, k - |ns| + 1);
      } else {
        assert StepAt(ns, k);
      }
    }
    assert Run(all) && all[|all| - 1] == c;
  }
}
