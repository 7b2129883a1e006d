/**
 * What constant propagation finds to do and what it leaves behind, said of the nodes and nexuses alone. The conditions
 * here are written from the point of view of the netlist; those of CpropRules and CpropMerge follow the code.
 */
module CpropResult {
  import opened FourState
  import opened Netlist
  import opened CpropRules
  import opened CpropMerge
  import opened CpropSteps
  import opened CpropSweep

  /** A procedural assignment, a tran, or an input or inout port of a root module can give the nexus any value. */
  lemma OutsideWins(n: Netlist, beh: Behaviour, v: Valuation, x: nat, k: nat)
    requires x in n.nexa && k < |n.nexa[x].nets|
    requires var t := n.nexa[x].nets[k];
             n.nexa[x].tran || t.lrefs > 0 || (t.inRoot && t.port != NotAPort && t.port != POutput)
    ensures NexusHolds(n, beh, v, x) <==> x in v && |v[x]| == n.nexa[x].nets[0].width
    ensures !DriversConstant(n, x)
  {
  }

  // ----------------------------------------------------------- what there is to do

  /** The only node that drives nexus x is a constant, or a pull. */
  ghost predicate OneConstant(n: Netlist, x: nat, c: nat) {
    && c in n.nodes && n.nodes[c].out == x && (n.nodes[c].Const? || n.nodes[c].Pull?)
    && forall id :: id in n.nodes && n.nodes[id].out == x ==> id == c
  }

  ghost predicate Undriven(n: Netlist, x: nat) {
    forall id :: id in n.nodes ==> n.nodes[id].out != x
  }

  /** A concatenation all of whose inputs are constant, or not driven at all. */
  ghost predicate ConcatToFold(n: Netlist, id: nat) {
    && id in n.nodes && n.nodes[id].Concat? && !n.nodes[id].transparent
    && forall k :: 0 <= k < |n.nodes[id].ins| ==>
         var x := n.nodes[id].ins[k];
         x in n.nexa && !Free(n.nexa[x]) && (Undriven(n, x) || exists c :: OneConstant(n, x, c))
  }

  /** A mux of two inputs whose one-bit select is constantly 0 or 1. */
  ghost predicate MuxToReduce(n: Netlist, id: nat) {
    && id in n.nodes && n.nodes[id].Mux? && |n.nodes[id].data| == 2 && n.nodes[id].selWidth == 1
    && n.nodes[id].sel in n.nexa && !Free(n.nexa[n.nodes[id].sel])
    && exists c :: OneConstant(n, n.nodes[id].sel, c) && (n.nodes[c].value == [B0] || n.nodes[c].value == [B1])
  }

  /** Node id is a part of nexus x and drives its bit i. */
  predicate PartAt(n: Netlist, x: nat, id: nat, i: int) {
    && id in n.nodes && n.nodes[id].out == x && n.nodes[id].PartPV?
    && n.nodes[id].base <= i < n.nodes[id].base + n.nodes[id].width
  }

  /** Only parts drive x; they drive bits that x has, and no two of them the same one. */
  ghost predicate PartsOnly(n: Netlist, x: nat) {
    && x in n.nexa
    && (forall id :: id in n.nodes && n.nodes[id].out == x ==> n.nodes[id].PartPV?)
    && (forall id, i :: PartAt(n, x, id, i) ==> i < VectorWidth(n.nexa[x]))
    && (forall a, b, i :: PartAt(n, x, a, i) && PartAt(n, x, b, i) ==> a == b)
  }

  /** Such a nexus with two parts or more, or with one part and a two-state signal. */
  ghost predicate PartsToMerge(n: Netlist, x: nat) {
    && PartsOnly(n, x)
    && exists a, b :: a in n.nodes && b in n.nodes && n.nodes[a].out == n.nodes[b].out == x &&
         (a != b || TwoState(n.nexa[x]))
  }

  lemma FoldableExactly(n: Netlist, id: nat)
    ensures Foldable(n, id) <==> ConcatToFold(n, id)
  {
    if Foldable(n, id) {
      forall k | 0 <= k < |n.nodes[id].ins|
        ensures var x := n.nodes[id].ins[k];
                x in n.nexa && !Free(n.nexa[x]) && (Undriven(n, x) || exists c :: OneConstant(n, x, c))
      {
        ConstantExactly(n, n.nodes[id].ins[k]);
      }
    }
    if ConcatToFold(n, id) {
      forall k | 0 <= k < |n.nodes[id].ins|
        ensures n.nodes[id].ins[k] in n.nexa && DriversConstant(n, n.nodes[id].ins[k])
      {
        ConstantExactly(n, n.nodes[id].ins[k]);
      }
    }
  }

  lemma ConstantExactly(n: Netlist, x: nat)
    requires x in n.nexa
    ensures DriversConstant(n, x) <==> !Free(n.nexa[x]) && (Undriven(n, x) || exists c :: OneConstant(n, x, c))
    ensures forall c: nat :: DriversConstant(n, x) && OneConstant(n, x, c) ==> DrivenVector(n, x) == n.nodes[c].value
    ensures DriversConstant(n, x) && Undriven(n, x) ==> DrivenVector(n, x) == Rep(BZ, Width(n, x))
  {
    if DriversConstant(n, x) && Drivers(n, x) != {} {
      var c :| c in Drivers(n, x);
      assert OneConstant(n, x, c);
    }
    forall c: nat | OneConstant(n, x, c)
      ensures Drivers(n, x) == {c}
    {
    }
    assert Undriven(n, x) <==> Drivers(n, x) == {} by {
      if !Undriven(n, x) {
        var id :| id in n.nodes && n.nodes[id].out == x;
        assert id in Drivers(n, x);
      }
    }
  }

  lemma ReducibleExactly(n: Netlist, id: nat)
    requires WellFormed(n)
    ensures Reducible(n, id) <==> MuxToReduce(n, id)
  {
    if id in n.nodes && n.nodes[id].Mux? && n.nodes[id].sel in n.nexa {
      assert WellFormedNode(n, n.nodes[id]);
      var x := n.nodes[id].sel;
      ConstantExactly(n, x);
      if Reducible(n, id) {
        DrivenVectorLength(n, x);
        var c :| OneConstant(n, x, c);
        assert n.nodes[c].value == [At(n.nodes[c].value, 0)];
      }
    }
  }

  lemma MergeableExactly(n: Netlist, x: nat)
    requires WellFormed(n)
    ensures Mergeable(n, x) <==> PartsToMerge(n, x)
  {
    if x in n.nexa && AllParts(n, x) {
      PartsExactly(n, x);
      ManyDrivers(n, x);
    }
  }

  lemma PartsExactly(n: Netlist, x: nat)
    requires WellFormed(n) && x in n.nexa && AllParts(n, x)
    ensures PartsOnly(n, x) <==> DisjointParts(n, x) && PartsFit(n, x)
  {
    forall id | id in Drivers(n, x)
      ensures n.nodes[id].width > 0
      ensures PartAt(n, x, id, n.nodes[id].base) && PartAt(n, x, id, n.nodes[id].base + n.nodes[id].width - 1)
    {
      assert WellFormedNode(n, n.nodes[id]);
    }
    if PartsOnly(n, x) {
      forall a, b | a in Drivers(n, x) && b in Drivers(n, x) && a != b
        ensures OverlapFree(n.nodes[a], n.nodes[b])
      {
        assert !PartAt(n, x, a, n.nodes[b].base) && !PartAt(n, x, b, n.nodes[a].base);
      }
    }
  }

  /** Two drivers or more, or one and a two-state signal */
  lemma ManyDrivers(n: Netlist, x: nat)
    requires x in n.nexa
    ensures (|Drivers(n, x)| >= 2 || (|Drivers(n, x)| == 1 && TwoState(n.nexa[x]))) <==>
            exists a, b :: a in n.nodes && b in n.nodes && n.nodes[a].out == n.nodes[b].out == x &&
              (a != b || TwoState(n.nexa[x]))
  {
    var s := Drivers(n, x);
    if a, b :| a in s && b in s && a != b {
      assert {a, b} <= s && |{a, b}| == 2;
      assert |s| == |s - {a, b}| + |{a, b}|;
    } else if a :| a in s {
      assert s == {a};
      assert n.nodes[a].out == n.nodes[a].out == x;
    }
  }

  ghost predicate SomePartAt(n: Netlist, x: nat, i: nat) {
    exists id :: PartAt(n, x, id, i)
  }

  /** Every bit of x is driven by some part. */
  ghost predicate FullyDriven(n: Netlist, x: nat) {
    x in n.nexa && forall i: nat :: i < VectorWidth(n.nexa[x]) ==> SomePartAt(n, x, i)
  }

  /** The targets are safe exactly when no two-state one without another source has a gap. */
  lemma SafeTargetsExactly(n: Netlist)
    requires WellFormed(n)
    ensures SafeTargets(n) <==>
            forall x :: PartsToMerge(n, x) && !Free(n.nexa[x]) && TwoState(n.nexa[x]) ==> FullyDriven(n, x)
  {
    forall x
      ensures Mergeable(n, x) <==> PartsToMerge(n, x)
    {
      MergeableExactly(n, x);
    }
    forall x | x in n.nexa
      ensures Gapless(n, x) <==> FullyDriven(n, x)
    {
      GaplessExactly(n, x);
    }
  }

  lemma GaplessExactly(n: Netlist, x: nat)
    requires x in n.nexa
    ensures Gapless(n, x) <==> FullyDriven(n, x)
  {
    forall i: nat
      ensures PartDrives(n, x, i) <==> SomePartAt(n, x, i)
    {
      if PartDrives(n, x, i) {
        var id :| id in Drivers(n, x) && n.nodes[id].PartPV? && Covers(n.nodes[id], i);
        assert PartAt(n, x, id, i);
      }
      if id :| PartAt(n, x, id, i) {
        assert id in Drivers(n, x) && Covers(n.nodes[id], i);
      }
    }
  }

  /** The netlist has nothing left of what propagation looks for. */
  ghost predicate NothingLeft(n: Netlist) {
    && (forall id :: !ConcatToFold(n, id))
    && (forall id :: !MuxToReduce(n, id))
    && (forall x :: !PartsToMerge(n, x))
  }

  // --------------------------------------------------- what has become of the gaps

  /** Bit i of a target is driven by no part, nor from outside. */
  ghost predicate UndrivenBit(n: Netlist, x: nat, i: nat) {
    PartsToMerge(n, x) && !Free(n.nexa[x]) && i < VectorWidth(n.nexa[x]) && !SomePartAt(n, x, i)
  }

  /**
   * In every solution of n the bits that no part drove in m are 0 on the merged targets with a two-state signal, and
   * z on the others.
   */
  ghost predicate GapsFilled(m: Netlist, n: Netlist) {
    forall x, i: nat :: UndrivenBit(m, x, i) ==> AlwaysHas(n, x, i, if TwoState(m.nexa[x]) then B0 else BZ)
  }

  /** Every solution has bit b in place i of nexus x. */
  ghost predicate AlwaysHas(n: Netlist, x: nat, i: nat, b: Bit) {
    forall beh, w :: Solution(n, beh, w) ==> x in w && i < |w[x]| && w[x][i] == b
  }

  lemma GapShows(m: Netlist, n: Netlist, x: nat, i: nat)
    requires WellFormed(m) && AllTracked(m, n) && NothingToMerge(n) && UndrivenBit(m, x, i)
    ensures x in n.nexa && n.nexa[x] == m.nexa[x] && Shows(n, x, i, if TwoState(m.nexa[x]) then B0 else BZ)
  {
    MergeableExactly(m, x);
    assert Tracked(m, n, x);
    if SameDrivers(m, n, x) {
      SameMergeable(m, n, x);
      assert false;
    }
    forall id | id in Drivers(m, x)
      ensures !Covers(m.nodes[id], i)
    {
      assert !PartAt(m, x, id, i);
    }
    assert i < Width(m, x) && !Driven(m, x, i);
  }

  lemma GapIsFilled(m: Netlist, n: Netlist, x: nat, i: nat)
    requires WellFormed(m) && WellFormed(n) && AllTracked(m, n) && NothingToMerge(n) && UndrivenBit(m, x, i)
    ensures AlwaysHas(n, x, i, if TwoState(m.nexa[x]) then B0 else BZ)
  {
    GapShows(m, n, x, i);
    forall beh, w | Solution(n, beh, w)
      ensures x in w && i < |w[x]| && w[x][i] == if TwoState(m.nexa[x]) then B0 else BZ
    {
      ShownBit(n, beh, w, x, i, if TwoState(m.nexa[x]) then B0 else BZ);
    }
  }

  lemma AllGapsFilled(m: Netlist, n: Netlist)
    requires WellFormed(m) && WellFormed(n) && AllTracked(m, n) && NothingToMerge(n)
    ensures GapsFilled(m, n)
  {
    forall x, i: nat | UndrivenBit(m, x, i)
      ensures AlwaysHas(n, x, i, if TwoState(m.nexa[x]) then B0 else BZ)
    {
      GapIsFilled(m, n, x, i);
    }
  }

  /** A run that leaves nothing to merge has filled the gaps. */
  lemma RunFills(ns: seq<Netlist>)
    requires Run(ns) && WellFormed(ns[0]) && NothingToMerge(ns[|ns| - 1])
    ensures GapsFilled(ns[0], ns[|ns| - 1])
  {
    RunProgress(ns);
    AllGapsFilled(ns[0], ns[|ns| - 1]);
  }

  // --------------------------------------------------- what else has changed

  /** Nothing outside the pass knows a nexus of this kind. */
  predicate Hidden(nx: Nexus) {
    forall k :: 0 <= k < |nx.nets| ==> nx.nets[k].local && nx.nets[k].erefs == 0 && nx.nets[k].port == NotAPort
  }

  /** The nexuses there were are as they were; new ones are hidden. */
  ghost predicate Widened(m: Netlist, n: Netlist) {
    && (forall x :: x in m.nexa ==> x in n.nexa && n.nexa[x] == m.nexa[x])
    && (forall x :: x in n.nexa && x !in m.nexa ==> Hidden(n.nexa[x]))
  }

  predicate IsFlop(n: Netlist, id: nat) {
    id in n.nodes && n.nodes[id].FF?
  }

  /** Flip-flops are neither added nor taken away nor changed. */
  ghost predicate SameFlops(m: Netlist, n: Netlist) {
    forall id :: (IsFlop(m, id) <==> IsFlop(n, id)) && (IsFlop(m, id) ==> n.nodes[id] == m.nodes[id])
  }

  lemma SwapFrame(m: Netlist, n: Netlist, id: nat, id': nat)
    requires id in m.nodes && id' !in m.nodes && id' in n.nodes && n.nexa == m.nexa
    requires n.nodes == (m.nodes - {id})[id' := n.nodes[id']] && !m.nodes[id].FF? && !n.nodes[id'].FF?
    ensures Widened(m, n) && SameFlops(m, n)
  {
  }

  lemma RewriteFrame(m: Netlist, n: Netlist)
    requires WellFormed(m) && Rewrite(m, n)
    ensures Widened(m, n) && SameFlops(m, n)
  {
    if ConcatStep(m, n) {
      var id, id' :| ConcatFolded(m, n, id, id');
      SwapFrame(m, n, id, id');
    } else if MuxStep(m, n) {
      var id, id' :| MuxReduced(m, n, id, id');
      SwapFrame(m, n, id, id');
    } else {
      var x, c, gaps :| x in m.nexa && Merged(m, n, x, FillOf(m.nexa[x]), c, gaps);
      MergeFrame(m, n, x, FillOf(m.nexa[x]), c, gaps);
    }
  }

  lemma MergeFrame(m: Netlist, n: Netlist, x: nat, fill: Bit, c: nat, gaps: map<nat, nat>)
    requires x in m.nexa && AllParts(m, x)
    requires NewNames(m, c, gaps) && MergedNexa(m, n, gaps) && MergedNodes(m, n, x, fill, c, gaps)
    ensures Widened(m, n) && SameFlops(m, n)
  {
    forall z | z in n.nexa && z !in m.nexa
      ensures Hidden(n.nexa[z])
    {
      var id :| id in gaps && gaps[id] == z;
    }
    forall id
      ensures (IsFlop(m, id) <==> IsFlop(n, id)) && (IsFlop(m, id) ==> n.nodes[id] == m.nodes[id])
    {
      if id in m.nodes && m.nodes[id].out == x {
        assert id in Drivers(m, x);
      }
    }
  }

  lemma WidenedTwice(a: Netlist, b: Netlist, c: Netlist)
    requires Widened(a, b) && Widened(b, c)
    ensures Widened(a, c)
  {
  }

  // ---------------------------------------------------------------- flip-flops

  /** A flip-flop whose output is its own data input and that nothing sets or clears */
  predicate SelfFed(n: Netlist, id: nat) {
    IsFlop(n, id) && n.nodes[id].dataPin == n.nodes[id].out && !n.nodes[id].controlled
  }

  /** Of the flip-flops of m those are left in n that do not feed themselves, and some of those to be visited. */
  ghost predicate FlopsLeft(m: Netlist, n: Netlist, todo: set<nat>) {
    && (forall id :: IsFlop(n, id) ==> IsFlop(m, id) && n.nodes[id] == m.nodes[id])
    && (forall id :: IsFlop(m, id) && !IsFlop(n, id) ==> SelfFed(m, id))
    && (forall id :: SelfFed(n, id) ==> id in todo)
  }

  lemma FlopsLeftTwice(a: Netlist, b: Netlist, c: Netlist)
    requires FlopsLeft(a, b, {}) && FlopsLeft(b, c, {})
    ensures FlopsLeft(a, c, {}) && SameFlops(b, c)
  {
  }

  /** A flip-flop that nothing sets or clears settles on the value at its data input. */
  ghost predicate Settles(n: Netlist, beh: Behaviour) {
    forall id, ins :: IsFlop(n, id) && !n.nodes[id].controlled && |ins| > 0 ==> beh(n.nodes[id].tag, ins) == ins[0]
  }

  lemma OneMoreDriver(s: set<Bit>)
    ensures Resolve(s + {Resolve(s)}) == Resolve(s)
  {
  }

  /**
   * Removing a flip-flop adds no solution: where it feeds itself, the value that the other drivers give its nexus is
   * one on which it settles, too. (It can take solutions away, namely the other values that it might hold.)
   */
  lemma FlopRemoved(m: Netlist, n: Netlist, id: nat, beh: Behaviour, v: Valuation)
    requires WellFormed(m) && SelfFed(m, id) && n.nexa == m.nexa && n.nodes == m.nodes - {id}
    requires Settles(m, beh) && Solution(n, beh, v)
    ensures Solution(m, beh, v)
  {
    var x := m.nodes[id].out;
    forall z | z in m.nexa
      ensures NexusHolds(m, beh, v, z)
    {
      assert NexusHolds(n, beh, v, z) && Width(m, z) == Width(n, z);
      forall i | 0 <= i < Width(m, z)
        ensures Resolve(DriverBits(m, beh, v, z, i)) == Resolve(DriverBits(n, beh, v, z, i)) || Free(m.nexa[z])
      {
        if z != x {
          assert Drivers(m, z) == Drivers(n, z);
          assert DriverBits(m, beh, v, z, i) == DriverBits(n, beh, v, z, i);
        } else if !Free(m.nexa[z]) {
          SelfFedBits(m, n, id, beh, v, i);
        }
      }
    }
  }

  lemma SelfFedBits(m: Netlist, n: Netlist, id: nat, beh: Behaviour, v: Valuation, i: nat)
    requires SelfFed(m, id) && n.nodes == m.nodes - {id} && Settles(m, beh)
    requires m.nodes[id].out in v && i < |v[m.nodes[id].out]|
    requires v[m.nodes[id].out][i] == Resolve(DriverBits(n, beh, v, m.nodes[id].out, i))
    ensures Resolve(DriverBits(m, beh, v, m.nodes[id].out, i)) == Resolve(DriverBits(n, beh, v, m.nodes[id].out, i))
  {
    var d, x := m.nodes[id], m.nodes[id].out;
    var ins := Vectors(v, [d.dataPin] + d.others);
    assert ins[0] == v[x];
    assert DriveBit(d, beh, v, i) == v[x][i];
    assert Drivers(m, x) == Drivers(n, x) + {id};
    var bits := DriverBits(n, beh, v, x, i);
    forall b
      ensures b in DriverBits(m, beh, v, x, i) <==> b in bits + {v[x][i]}
    {
      if b in DriverBits(m, beh, v, x, i) {
        var k :| k in Drivers(m, x) && b == DriveBit(m.nodes[k], beh, v, i);
        assert k != id ==> k in Drivers(n, x) && n.nodes[k] == m.nodes[k];
      }
      if b in bits {
        var k :| k in Drivers(n, x) && b == DriveBit(n.nodes[k], beh, v, i);
        assert k in Drivers(m, x) && n.nodes[k] == m.nodes[k];
      }
      assert id in Drivers(m, x);
    }
    assert DriverBits(m, beh, v, x, i) == bits + {v[x][i]};
    OneMoreDriver(bits);
  }

  // ------------------------------------------------------------ what is seen

  /** A constant that is z throughout, or that nothing in the design or outside it looks at. */
  ghost predicate Unused(n: Netlist, id: nat) {
    && id in n.nodes && n.nodes[id].Const? && n.nodes[id].out in n.nexa
    && var x := n.nodes[id].out;
       || (forall k :: 0 <= k < |n.nodes[id].value| ==> n.nodes[id].value[k] == BZ)
       || (&& (forall j :: j in n.nodes ==> x !in Inputs(n.nodes[j]))
           && (forall t :: t in n.nexa[x].nets ==> t.local && t.erefs == 0 && (t.inRoot ==> t.port == NotAPort)))
  }

  lemma SweepableExactly(n: Netlist, id: nat)
    ensures Sweepable(n, id) <==> Unused(n, id)
  {
    if id in n.nodes && n.nodes[id].out in n.nexa {
      var x := n.nodes[id].out;
      if HasInput(n, x) {
        var j, k :| j in n.nodes && 0 <= k < |Inputs(n.nodes[j])| && Inputs(n.nodes[j])[k] == x;
        assert x in Inputs(n.nodes[j]);
      }
      if Visible(n.nexa[x]) {
        var k :| 0 <= k < |n.nexa[x].nets| && VisibleNet(n.nexa[x].nets[k]);
        assert n.nexa[x].nets[k] in n.nexa[x].nets;
      }
    }
  }

  /** Nexus x of m has exactly the solution values in n that it had. */
  ghost predicate Kept(m: Netlist, n: Netlist, x: nat) {
    SameMeaning(m, n, {x})
  }

  /**
   * From m to n all nexuses of m keep their values that an expression reads, that have a signal from the source text
   * or a port of a root module, or that some node of n has an input on.
   */
  ghost predicate SeenIsKept(m: Netlist, n: Netlist) {
    && (forall x, t :: x in m.nexa && t in m.nexa[x].nets && t.erefs > 0 ==> Kept(m, n, x))
    && (forall x, t :: x in m.nexa && t in m.nexa[x].nets && !t.local ==> Kept(m, n, x))
    && (forall x, t :: x in m.nexa && t in m.nexa[x].nets && t.inRoot && t.port != NotAPort ==> Kept(m, n, x))
    && (forall id, x :: id in n.nodes && x in Inputs(n.nodes[id]) && x in m.nexa ==> Kept(m, n, x))
  }

  lemma SameMeaningOfOne(m: Netlist, n: Netlist, s: set<nat>, x: nat)
    requires SameMeaning(m, n, s) && x in s && x in m.nexa && x in n.nexa
    ensures Kept(m, n, x)
  {
    SameMeaningReflexive(m);
    SameMeaningReflexive(n);
    SimulatesTransitive(m, n, n, s, n.nexa.Keys, {x});
    SimulatesTransitive(n, m, m, s, m.nexa.Keys, {x});
  }

  lemma ObservableIsSeen(m: Netlist, n: Netlist)
    requires Widened(m, n) && SameMeaning(m, n, m.nexa.Keys * Observable(n))
    ensures SeenIsKept(m, n)
  {
    forall x | x in m.nexa && x in Observable(n)
      ensures Kept(m, n, x)
    {
      SameMeaningOfOne(m, n, m.nexa.Keys * Observable(n), x);
    }
    forall x, t | x in m.nexa && t in m.nexa[x].nets && (!t.local || t.erefs > 0 || (t.inRoot && t.port != NotAPort))
      ensures x in Observable(n)
    {
      var k :| 0 <= k < |m.nexa[x].nets| && m.nexa[x].nets[k] == t;
      assert VisibleNet(n.nexa[x].nets[k]);
    }
    forall id, x | id in n.nodes && x in Inputs(n.nodes[id]) && x in m.nexa
      ensures x in Observable(n)
    {
      var k :| 0 <= k < |Inputs(n.nodes[id])| && Inputs(n.nodes[id])[k] == x;
      assert HasInput(n, x);
    }
  }

  /** Of the constants that the pass has made on nexuses of its own only those are left that some node reads. */
  ghost predicate NoneDangles(m: Netlist, n: Netlist) {
    forall id :: id in n.nodes && n.nodes[id].Const? && n.nodes[id].out !in m.nexa ==>
      exists j :: j in n.nodes && n.nodes[id].out in Inputs(n.nodes[j])
  }

  lemma SweptClean(m: Netlist, before: Netlist, n: Netlist)
    requires Widened(m, before) && WellFormed(before) && n.nexa == before.nexa && Observable(n) == Observable(before)
    requires forall id :: id in n.nodes ==> id in before.nodes && n.nodes[id] == before.nodes[id]
    requires forall id :: id in n.nodes ==> !Sweepable(before, id)
    ensures NoneDangles(m, n)
  {
    forall id | id in n.nodes && n.nodes[id].Const? && n.nodes[id].out !in m.nexa
      ensures exists j :: j in n.nodes && n.nodes[id].out in Inputs(n.nodes[j])
    {
      var x := n.nodes[id].out;
      assert WellFormedNode(before, before.nodes[id]);
      assert x in Observable(n) && Hidden(n.nexa[x]);
      var j, k :| j in n.nodes && 0 <= k < |Inputs(n.nodes[j])| && Inputs(n.nodes[j])[k] == x;
      assert x in Inputs(n.nodes[j]);
    }
  }
}
