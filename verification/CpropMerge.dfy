/**
 * Merging all the part drivers (PV part selects) of one nexus into one concatenation: the layout
 * of the pieces, the rewrite as a relation, and what it keeps.
 */
module CpropMerge {
  import opened FourState
  import opened Netlist
  import opened CpropRules

  predicate OverlapFree(p: Node, q: Node)
    requires p.PartPV? && q.PartPV?
  {
    p.base + p.width <= q.base || q.base + q.width <= p.base
  }

  /** All drivers of x are parts that fit inside it and do not overlap, and there is something to merge. */
  ghost predicate Mergeable(m: Netlist, x: nat) {
    && x in m.nexa
    && AllParts(m, x) && DisjointParts(m, x) && PartsFit(m, x)
    && (|Drivers(m, x)| >= 2 || (|Drivers(m, x)| == 1 && TwoState(m.nexa[x])))
  }

  ghost predicate AllParts(m: Netlist, x: nat) {
    forall id :: id in Drivers(m, x) ==> m.nodes[id].PartPV?
  }

  ghost predicate DisjointParts(m: Netlist, x: nat)
    requires AllParts(m, x)
  {
    forall a, b :: a in Drivers(m, x) && b in Drivers(m, x) && a != b ==> OverlapFree(m.nodes[a], m.nodes[b])
  }

  ghost predicate PartsFit(m: Netlist, x: nat)
    requires AllParts(m, x)
  {
    forall id :: id in Drivers(m, x) ==> m.nodes[id].base + m.nodes[id].width <= Width(m, x)
  }

  /** Some part drives bit i of x. */
  ghost predicate Driven(m: Netlist, x: nat, i: nat)
    requires AllParts(m, x)
  {
    exists id :: id in Drivers(m, x) && Covers(m.nodes[id], i)
  }

  /** The bits that fill the gaps: nothing for a four-state target, zero for a two-state one. */
  function FillOf(nx: Nexus): Bit {
    if TwoState(nx) then B0 else BZ
  }

  predicate Covers(p: Node, i: nat)
    requires p.PartPV?
  {
    p.base <= i < p.base + p.width
  }

  /** The signal that make_const_0 and make_const_z put on the nexus of the constant they create. */
  function GapNexus(w: nat): Nexus {
    Nexus([Net(w, false, true, 0, 0, NotAPort, false)], false)
  }

  /**
   * The vector y, as wide as x, shows on every bit the input of the part covering that bit, and
   * the fill on the bits that no part covers.
   */
  ghost predicate Blends(m: Netlist, x: nat, v: Valuation, fill: Bit, y: Vec)
    requires AllParts(m, x)
  {
    && |y| == Width(m, x)
    && (forall id, i :: id in Drivers(m, x) && 0 <= i < |y| && Covers(m.nodes[id], i) ==>
          y[i] == At(Get(v, m.nodes[id].inp), i - m.nodes[id].base))
    && (forall i :: 0 <= i < |y| && !Driven(m, x, i) ==> y[i] == fill)
  }

  /** Parts drive every bit of x. */
  ghost predicate Gapless(m: Netlist, x: nat) {
    forall i: nat :: i < Width(m, x) ==> PartDrives(m, x, i)
  }

  ghost predicate PartDrives(m: Netlist, x: nat, i: nat) {
    exists id :: id in Drivers(m, x) && m.nodes[id].PartPV? && Covers(m.nodes[id], i)
  }

  /** What the gaps are filled with is not seen: nothing is, or there are none, or x has another source anyhow. */
  ghost predicate Harmless(m: Netlist, x: nat, fill: Bit) {
    fill == BZ || Gapless(m, x) || (x in m.nexa && Free(m.nexa[x]))
  }

  /** The inputs of the parts have their widths and the gap nexuses their constants. */
  ghost predicate MergeInputs(m: Netlist, n: Netlist, x: nat, v: Valuation, fill: Bit, gaps: map<nat, nat>)
    requires AllParts(m, x)
  {
    && (forall id :: id in Drivers(m, x) ==> |Get(v, m.nodes[id].inp)| == m.nodes[id].width)
    && (forall id :: id in gaps ==> Get(v, gaps[id]) == Rep(fill, Width(n, gaps[id])))
  }

  /** The names of the nodes and nexuses that a merge adds. */
  ghost predicate NewNames(m: Netlist, c: nat, gaps: map<nat, nat>) {
    && c !in m.nodes && c !in gaps
    && (forall id :: id in gaps ==> id !in m.nodes && gaps[id] !in m.nexa)
    && (forall a, b :: a in gaps && b in gaps && gaps[a] == gaps[b] ==> a == b)
  }

  /** The parts are gone, the concatenation c and the gap constants are there, the rest is as it was. */
  ghost predicate MergedNodes(m: Netlist, n: Netlist, x: nat, fill: Bit, c: nat, gaps: map<nat, nat>) {
    && n.nodes.Keys == (m.nodes.Keys - Drivers(m, x)) + {c} + gaps.Keys
    && (forall id :: id in m.nodes && m.nodes[id].out != x ==> n.nodes[id] == m.nodes[id])
    && (forall id :: id in gaps ==> n.nodes[id] == Const(gaps[id], Rep(fill, Width(n, gaps[id]))))
    && n.nodes[c].Concat? && n.nodes[c].out == x && n.nodes[c].width == Width(m, x) && !n.nodes[c].transparent
  }

  ghost predicate MergedNexa(m: Netlist, n: Netlist, gaps: map<nat, nat>) {
    && n.nexa.Keys == m.nexa.Keys + gaps.Values
    && (forall g :: g in m.nexa ==> n.nexa[g] == m.nexa[g])
    && (forall id :: id in gaps ==> n.nexa[gaps[id]] == GapNexus(VectorWidth(n.nexa[gaps[id]])))
  }

  /** The pins of the concatenation fill the target exactly, and what they join blends the parts. */
  ghost predicate MergedPins(m: Netlist, n: Netlist, x: nat, fill: Bit, pins: seq<nat>, gaps: map<nat, nat>)
    requires AllParts(m, x)
  {
    && (forall k :: 0 <= k < |pins| ==> pins[k] in n.nexa)
    && TotalWidth(n, pins) == Width(m, x)
    && (forall v :: MergeInputs(m, n, x, v, fill, gaps) ==> Blends(m, x, v, fill, Cat(v, pins)))
  }

  /** The drivers of x became the concatenation c; gaps maps each new constant node to its new nexus. */
  ghost predicate Merged(m: Netlist, n: Netlist, x: nat, fill: Bit, c: nat, gaps: map<nat, nat>) {
    && Mergeable(m, x)
    && NewNames(m, c, gaps) && MergedNexa(m, n, gaps) && MergedNodes(m, n, x, fill, c, gaps)
    && MergedPins(m, n, x, fill, n.nodes[c].ins, gaps)
  }

  // ------------------------------------------------------------- soundness

  /** The resolved value of parts that do not overlap is the blend of their inputs with z in the gaps. */
  lemma PartsResolve(m: Netlist, beh: Behaviour, v: Valuation, x: nat, i: nat)
    requires AllParts(m, x) && DisjointParts(m, x)
    ensures forall k :: k in Drivers(m, x) && Covers(m.nodes[k], i) ==>
              Resolve(DriverBits(m, beh, v, x, i)) == At(Get(v, m.nodes[k].inp), i - m.nodes[k].base)
    ensures !Driven(m, x, i) ==> Resolve(DriverBits(m, beh, v, x, i)) == BZ
  {
  }

  lemma TargetDriver(m: Netlist, n: Netlist, x: nat, fill: Bit, c: nat, gaps: map<nat, nat>)
    requires x in m.nexa && NewNames(m, c, gaps) && MergedNodes(m, n, x, fill, c, gaps)
    ensures Drivers(n, x) == {c}
  {
  }

  lemma OtherDrivers(m: Netlist, n: Netlist, x: nat, fill: Bit, c: nat, gaps: map<nat, nat>, z: nat)
    requires z in m.nexa && z != x && NewNames(m, c, gaps) && MergedNodes(m, n, x, fill, c, gaps)
    ensures Drivers(n, z) == Drivers(m, z)
    ensures forall id :: id in Drivers(m, z) ==> n.nodes[id] == m.nodes[id]
  {
  }

  lemma GapDriver(m: Netlist, n: Netlist, x: nat, fill: Bit, c: nat, gaps: map<nat, nat>, id: nat)
    requires WellFormed(m) && x in m.nexa && NewNames(m, c, gaps) && MergedNodes(m, n, x, fill, c, gaps)
    requires id in gaps
    ensures Drivers(n, gaps[id]) == {id}
  {
  }

  /** A nexus whose one driver is a constant holds that constant, and nothing else. */
  lemma LoneConstant(n: Netlist, beh: Behaviour, w: Valuation, g: nat, id: nat)
    requires g in n.nexa && !Free(n.nexa[g]) && Drivers(n, g) == {id}
    requires n.nodes[id].Const? && |n.nodes[id].value| == Width(n, g)
    ensures NexusHolds(n, beh, w, g) <==> g in w && w[g] == n.nodes[id].value
  {
    var value := n.nodes[id].value;
    forall i | 0 <= i < |value|
      ensures Resolve(DriverBits(n, beh, w, g, i)) == value[i]
    {
      assert DriverBits(n, beh, w, g, i) == {value[i]};
    }
  }

  lemma GapNexusHolds(m: Netlist, n: Netlist, x: nat, fill: Bit, c: nat, gaps: map<nat, nat>,
                      beh: Behaviour, w: Valuation, id: nat)
    requires WellFormed(m) && x in m.nexa && id in gaps
    requires NewNames(m, c, gaps) && MergedNexa(m, n, gaps) && MergedNodes(m, n, x, fill, c, gaps)
    ensures gaps[id] in n.nexa && gaps[id] !in m.nexa
    ensures NexusHolds(n, beh, w, gaps[id]) <==> gaps[id] in w && w[gaps[id]] == Rep(fill, Width(n, gaps[id]))
  {
    assert gaps[id] in gaps.Values;
    GapDriver(m, n, x, fill, c, gaps, id);
    LoneConstant(n, beh, w, gaps[id], id);
  }

  lemma MergedWellFormed(m: Netlist, n: Netlist, x: nat, fill: Bit, c: nat, gaps: map<nat, nat>)
    requires WellFormed(m) && Merged(m, n, x, fill, c, gaps)
    ensures WellFormed(n)
  {
    forall k | k in n.nodes
      ensures WellFormedNode(n, n.nodes[k])
    {
      if k in gaps {
        assert gaps[k] in gaps.Values;
      } else if k != c {
        WellFormedNodeKept(m, n, m.nodes[k]);
      }
    }
    forall g | g in n.nexa
      ensures n.nexa[g].nets != []
    {
      if g !in m.nexa {
        var id :| id in gaps && gaps[id] == g;
      }
    }
  }

  /** A nexus other than the target and the gaps has the same equation before and after. */
  lemma MergedElsewhere(m: Netlist, n: Netlist, x: nat, fill: Bit, c: nat, gaps: map<nat, nat>,
                        beh: Behaviour, v: Valuation, w: Valuation, z: nat)
    requires WellFormed(m) && Merged(m, n, x, fill, c, gaps)
    requires z in m.nexa && z != x && Agree(v, w, m.nexa.Keys)
    ensures NexusHolds(m, beh, v, z) <==> NexusHolds(n, beh, w, z)
  {
    OtherDrivers(m, n, x, fill, c, gaps, z);
    forall i: nat
      ensures DriverBits(m, beh, v, z, i) == DriverBits(n, beh, w, z, i)
    {
      forall id | id in Drivers(m, z)
        ensures DriveBit(m.nodes[id], beh, v, i) == DriveBit(n.nodes[id], beh, w, i)
      {
        assert WellFormedNode(m, m.nodes[id]);
        DriveAgree(m.nodes[id], beh, v, w, i);
      }
    }
  }

  lemma MergedInputsHold(m: Netlist, n: Netlist, x: nat, fill: Bit, c: nat, gaps: map<nat, nat>, v: Valuation)
    requires WellFormed(m) && Merged(m, n, x, fill, c, gaps)
    requires forall z :: z in m.nexa ==> z in v && |v[z]| == Width(m, z)
    requires forall id :: id in gaps ==> gaps[id] in v && v[gaps[id]] == Rep(fill, Width(n, gaps[id]))
    ensures MergeInputs(m, n, x, v, fill, gaps)
    ensures Blends(m, x, v, fill, Cat(v, n.nodes[c].ins))
  {
    forall id | id in Drivers(m, x)
      ensures |Get(v, m.nodes[id].inp)| == m.nodes[id].width
    {
      assert WellFormedNode(m, m.nodes[id]);
      assert Inputs(m.nodes[id])[0] == m.nodes[id].inp;
    }
    assert MergeInputs(m, n, x, v, fill, gaps);
  }

  /** Bit i of the target's old equation. */
  lemma MergedTargetBit(m: Netlist, x: nat, fill: Bit, beh: Behaviour, v: Valuation, w: Valuation, y: Vec, i: nat)
    requires WellFormed(m) && x in m.nexa && AllParts(m, x) && DisjointParts(m, x) && (fill == BZ || Gapless(m, x))
    requires i < |y| && Agree(v, w, m.nexa.Keys) && Blends(m, x, w, fill, y)
    ensures Resolve(DriverBits(m, beh, v, x, i)) == y[i]
  {
    forall id | id in Drivers(m, x)
      ensures DriveBit(m.nodes[id], beh, v, i) == DriveBit(m.nodes[id], beh, w, i)
    {
      assert WellFormedNode(m, m.nodes[id]);
      DriveAgree(m.nodes[id], beh, v, w, i);
    }
    assert DriverBits(m, beh, v, x, i) == DriverBits(m, beh, w, x, i);
    BlendIsResolved(m, beh, w, x, fill, y, i);
  }

  /** A concatenation that is the one driver of its nexus gives it the bits of its inputs. */
  lemma OneDriver(n: Netlist, beh: Behaviour, w: Valuation, x: nat, c: nat, i: nat)
    requires Drivers(n, x) == {c} && n.nodes[c].Concat? && i < |Cat(w, n.nodes[c].ins)|
    ensures Resolve(DriverBits(n, beh, w, x, i)) == Cat(w, n.nodes[c].ins)[i]
  {
  }

  /**
   * The target's new equation: the blend. With z in the gaps, or without gaps, that is the old equation, and a target
   * with another source has none.
   */
  lemma MergedTarget(m: Netlist, n: Netlist, x: nat, fill: Bit, c: nat, gaps: map<nat, nat>,
                     beh: Behaviour, v: Valuation, w: Valuation)
    requires WellFormed(m) && Merged(m, n, x, fill, c, gaps) && Harmless(m, x, fill)
    requires forall z :: z in m.nexa ==> z in w && |w[z]| == Width(m, z)
    requires forall id :: id in gaps ==> gaps[id] in w && w[gaps[id]] == Rep(fill, Width(n, gaps[id]))
    requires Agree(v, w, m.nexa.Keys)
    ensures NexusHolds(m, beh, v, x) <==> NexusHolds(n, beh, w, x)
  {
    if !Free(m.nexa[x]) {
      MergedInputsHold(m, n, x, fill, c, gaps, w);
      var y := Cat(w, n.nodes[c].ins);
      TargetDriver(m, n, x, fill, c, gaps);
      forall i | 0 <= i < |y|
        ensures Resolve(DriverBits(m, beh, v, x, i)) == y[i] == Resolve(DriverBits(n, beh, w, x, i))
      {
        MergedTargetBit(m, x, fill, beh, v, w, y, i);
        OneDriver(n, beh, w, x, c, i);
      }
    }
  }

  /** The solution after the merge that goes with a solution before it. */
  ghost function Extend(m: Netlist, n: Netlist, fill: Bit, v: Valuation): Valuation
    requires m.nexa.Keys <= v.Keys
  {
    map z | z in n.nexa :: if z in m.nexa then v[z] else Rep(fill, Width(n, z))
  }

  /** Every nexus that was there keeps its equation, between valuations that agree on them and fill the gaps. */
  lemma MergedEquations(m: Netlist, n: Netlist, x: nat, fill: Bit, c: nat, gaps: map<nat, nat>, beh: Behaviour,
                        v: Valuation, w: Valuation)
    requires WellFormed(m) && Merged(m, n, x, fill, c, gaps) && Harmless(m, x, fill) && Agree(v, w, m.nexa.Keys)
    requires forall z :: z in m.nexa ==> z in w && |w[z]| == Width(m, z)
    requires forall id :: id in gaps ==> gaps[id] in w && w[gaps[id]] == Rep(fill, Width(n, gaps[id]))
    ensures forall z :: z in m.nexa ==> (NexusHolds(m, beh, v, z) <==> NexusHolds(n, beh, w, z))
  {
    forall z | z in m.nexa
      ensures NexusHolds(m, beh, v, z) <==> NexusHolds(n, beh, w, z)
    {
      if z == x {
        MergedTarget(m, n, x, fill, c, gaps, beh, v, w);
      } else {
        MergedElsewhere(m, n, x, fill, c, gaps, beh, v, w, z);
      }
    }
  }

  lemma GapsHold(m: Netlist, n: Netlist, x: nat, fill: Bit, c: nat, gaps: map<nat, nat>, beh: Behaviour, w: Valuation)
    requires WellFormed(m) && Merged(m, n, x, fill, c, gaps)
    ensures (forall z :: z in n.nexa && z !in m.nexa ==> NexusHolds(n, beh, w, z)) <==>
            forall id :: id in gaps ==> gaps[id] in w && w[gaps[id]] == Rep(fill, Width(n, gaps[id]))
  {
    forall id | id in gaps
      ensures gaps[id] in n.nexa && gaps[id] !in m.nexa
      ensures NexusHolds(n, beh, w, gaps[id]) <==> gaps[id] in w && w[gaps[id]] == Rep(fill, Width(n, gaps[id]))
    {
      GapNexusHolds(m, n, x, fill, c, gaps, beh, w, id);
    }
    forall z | z in n.nexa && z !in m.nexa
      ensures exists id :: id in gaps && gaps[id] == z
    {
      assert z in gaps.Values;
    }
  }

  lemma MergedForward(m: Netlist, n: Netlist, x: nat, fill: Bit, c: nat, gaps: map<nat, nat>, beh: Behaviour,
                      v: Valuation)
    requires WellFormed(m) && Merged(m, n, x, fill, c, gaps) && Harmless(m, x, fill) && Solution(m, beh, v)
    ensures Covered(m, n, beh, v, m.nexa.Keys)
  {
    var w := Extend(m, n, fill, v);
    assert Agree(v, w, m.nexa.Keys);
    forall z | z in m.nexa
      ensures z in w && |w[z]| == Width(m, z)
    {
      assert NexusHolds(m, beh, v, z);
    }
    GapsHold(m, n, x, fill, c, gaps, beh, w);
    MergedEquations(m, n, x, fill, c, gaps, beh, v, w);
    assert Solution(n, beh, w);
  }

  /** The part of a valuation that is about the nexuses of m */
  ghost function Restricted(m: Netlist, w: Valuation): (v: Valuation)
    requires forall z :: z in m.nexa ==> z in w
    ensures v.Keys == m.nexa.Keys && Agree(v, w, m.nexa.Keys) && Agree(w, v, m.nexa.Keys)
  {
    map z | z in m.nexa :: w[z]
  }

  lemma MergedBackward(m: Netlist, n: Netlist, x: nat, fill: Bit, c: nat, gaps: map<nat, nat>, beh: Behaviour,
                       w: Valuation)
    requires WellFormed(m) && Merged(m, n, x, fill, c, gaps) && Harmless(m, x, fill) && Solution(n, beh, w)
    ensures Covered(n, m, beh, w, m.nexa.Keys)
  {
    forall z | z in m.nexa
      ensures z in w && |w[z]| == Width(m, z)
    {
      assert NexusHolds(n, beh, w, z);
    }
    var v := Restricted(m, w);
    GapsHold(m, n, x, fill, c, gaps, beh, w);
    MergedEquations(m, n, x, fill, c, gaps, beh, v, w);
    assert Solution(m, beh, v);
  }

  /**
   * Merging the parts of a four-state target, of a target without gaps, or of one with another source keeps every
   * solution value of every nexus there was.
   */
  lemma MergedSound(m: Netlist, n: Netlist, x: nat, fill: Bit, c: nat, gaps: map<nat, nat>)
    requires WellFormed(m) && Merged(m, n, x, fill, c, gaps) && Harmless(m, x, fill)
    ensures WellFormed(n) && SameMeaning(m, n, m.nexa.Keys)
  {
    MergedWellFormed(m, n, x, fill, c, gaps);
    forall beh: Behaviour, v: Valuation
      ensures Solution(m, beh, v) ==> Covered(m, n, beh, v, m.nexa.Keys)
      ensures Solution(n, beh, v) ==> Covered(n, m, beh, v, m.nexa.Keys)
    {
      if Solution(m, beh, v) {
        MergedForward(m, n, x, fill, c, gaps, beh, v);
      }
      if Solution(n, beh, v) {
        MergedBackward(m, n, x, fill, c, gaps, beh, v);
      }
    }
  }

  lemma MergedTargetIsCat(m: Netlist, n: Netlist, x: nat, fill: Bit, c: nat, gaps: map<nat, nat>,
                          beh: Behaviour, w: Valuation)
    requires WellFormed(m) && Merged(m, n, x, fill, c, gaps) && Solution(n, beh, w) && !Free(m.nexa[x])
    ensures x in w && Blends(m, x, w, fill, w[x])
  {
    forall z | z in m.nexa
      ensures z in w && |w[z]| == Width(m, z)
    {
      assert NexusHolds(n, beh, w, z);
    }
    GapsHold(m, n, x, fill, c, gaps, beh, w);
    MergedInputsHold(m, n, x, fill, c, gaps, w);
    TargetDriver(m, n, x, fill, c, gaps);
    LoneConcat(n, beh, w, x, c);
  }

  /** A nexus whose one driver is a concatenation holds the joined inputs. */
  lemma LoneConcat(n: Netlist, beh: Behaviour, w: Valuation, x: nat, c: nat)
    requires x in n.nexa && !Free(n.nexa[x]) && Drivers(n, x) == {c} && n.nodes[c].Concat?
    requires NexusHolds(n, beh, w, x) && |Cat(w, n.nodes[c].ins)| == Width(n, x)
    ensures w[x] == Cat(w, n.nodes[c].ins)
  {
    var y := Cat(w, n.nodes[c].ins);
    forall i | 0 <= i < |y|
      ensures w[x][i] == y[i]
    {
      assert DriverBits(n, beh, w, x, i) == {y[i]};
    }
  }

  /**
   * Merging into any target that has no other source: in every solution afterwards the driven bits are
   * what the removed parts would have resolved to, and the undriven bits are the fill (0 for two-state).
   */
  lemma MergedTargetValue(m: Netlist, n: Netlist, x: nat, fill: Bit, c: nat, gaps: map<nat, nat>,
                          beh: Behaviour, w: Valuation, i: nat)
    requires WellFormed(m) && Merged(m, n, x, fill, c, gaps) && Solution(n, beh, w)
    requires !Free(m.nexa[x]) && i < Width(m, x)
    ensures x in w && |w[x]| == Width(m, x)
    ensures Driven(m, x, i) ==> w[x][i] == Resolve(DriverBits(m, beh, w, x, i))
    ensures !Driven(m, x, i) ==> w[x][i] == fill && Resolve(DriverBits(m, beh, w, x, i)) == BZ
  {
    MergedTargetIsCat(m, n, x, fill, c, gaps, beh, w);
    BlendResolve(m, beh, w, x, fill, w[x], i);
  }

  lemma BlendIsResolved(m: Netlist, beh: Behaviour, v: Valuation, x: nat, fill: Bit, y: Vec, i: nat)
    requires AllParts(m, x) && DisjointParts(m, x) && Blends(m, x, v, fill, y) && i < |y|
    requires fill == BZ || Gapless(m, x)
    ensures y[i] == Resolve(DriverBits(m, beh, v, x, i))
  {
    BlendResolve(m, beh, v, x, fill, y, i);
    if fill != BZ {
      assert PartDrives(m, x, i);
    }
  }

  lemma BlendResolve(m: Netlist, beh: Behaviour, v: Valuation, x: nat, fill: Bit, y: Vec, i: nat)
    requires AllParts(m, x) && DisjointParts(m, x) && Blends(m, x, v, fill, y) && i < |y|
    ensures Driven(m, x, i) ==> y[i] == Resolve(DriverBits(m, beh, v, x, i))
    ensures !Driven(m, x, i) ==> y[i] == fill && Resolve(DriverBits(m, beh, v, x, i)) == BZ
  {
    PartsResolve(m, beh, v, x, i);
    if Driven(m, x, i) {
      var k :| k in Drivers(m, x) && Covers(m.nodes[k], i);
    }
  }

  lemma UndrivenIsHighZ(m: Netlist, x: nat, beh: Behaviour, v: Valuation, i: nat)
    requires AllParts(m, x) && DisjointParts(m, x) && x in m.nexa && Solution(m, beh, v)
    requires !Free(m.nexa[x]) && i < Width(m, x) && !Driven(m, x, i)
    ensures x in v && |v[x]| == Width(m, x) && v[x][i] == BZ
  {
  }

  /**
   * The condition is exact: filling a gap with 0 is seen as soon as the netlist has any solution, so the merge keeps
   * the meaning just when nothing is filled, or the target has another source.
   */
  lemma FillIsSeen(m: Netlist, n: Netlist, x: nat, fill: Bit, c: nat, gaps: map<nat, nat>, beh: Behaviour, w: Valuation)
    requires WellFormed(m) && Merged(m, n, x, fill, c, gaps) && Solution(n, beh, w)
    ensures SameMeaning(m, n, m.nexa.Keys) <==> Harmless(m, x, fill)
  {
    if Harmless(m, x, fill) {
      MergedSound(m, n, x, fill, c, gaps);
    } else {
      var i: nat :| i < Width(m, x) && !PartDrives(m, x, i);
      assert !Driven(m, x, i);
      MergedTargetValue(m, n, x, fill, c, gaps, beh, w, i);
      NotSame(m, n, x, beh, w, i);
    }
  }

  /** A value other than z where x was not driven shows that the meaning has changed. */
  lemma NotSame(m: Netlist, n: Netlist, x: nat, beh: Behaviour, w: Valuation, i: nat)
    requires x in m.nexa && AllParts(m, x) && DisjointParts(m, x) && !Free(m.nexa[x])
    requires i < Width(m, x) && !Driven(m, x, i)
    requires Solution(n, beh, w) && x in w && i < |w[x]| && w[x][i] != BZ
    ensures !SameMeaning(m, n, m.nexa.Keys)
  {
    if SameMeaning(m, n, m.nexa.Keys) {
      assert Covered(n, m, beh, w, m.nexa.Keys);
      var v :| Solution(m, beh, v) && Agree(w, v, m.nexa.Keys);
      UndrivenIsHighZ(m, x, beh, v, i);
      assert false;
    }
  }
}
