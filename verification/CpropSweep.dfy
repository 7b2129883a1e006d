/** The sweep that deletes constants nothing looks at. */
module CpropSweep {
  import opened FourState
  import opened Netlist
  import opened CpropRules

  predicate HasInput(n: Netlist, x: nat) {
    exists id, k :: id in n.nodes && 0 <= k < |Inputs(n.nodes[id])| && Inputs(n.nodes[id])[k] == x
  }

  /** A signal from the source text, one that an expression reads, or a port of a root module. */
  predicate VisibleNet(t: Net) {
    !t.local || t.erefs > 0 || (t.port != NotAPort && t.inRoot)
  }

  predicate Visible(nx: Nexus) {
    exists k :: 0 <= k < |nx.nets| && VisibleNet(nx.nets[k])
  }

  /** The nexuses whose value somebody can see. */
  ghost function Observable(n: Netlist): set<nat> {
    set x | x in n.nexa && (HasInput(n, x) || Visible(n.nexa[x]))
  }

  predicate AllHighZ(value: Vec) {
    forall k :: 0 <= k < |value| ==> value[k] == BZ
  }

  ghost predicate Sweepable(n: Netlist, id: nat) {
    && id in n.nodes && n.nodes[id].Const? && n.nodes[id].out in n.nexa
    && (AllHighZ(n.nodes[id].value) || n.nodes[id].out !in Observable(n))
  }

  ghost predicate Swept(m: Netlist, n: Netlist, id: nat) {
    Sweepable(m, id) && n.nexa == m.nexa && n.nodes == m.nodes - {id}
  }

  lemma SweptKeepsObservers(m: Netlist, n: Netlist, id: nat)
    requires WellFormed(m) && Swept(m, n, id)
    ensures WellFormed(n) && Observable(n) == Observable(m)
  {
    forall x
      ensures HasInput(m, x) <==> HasInput(n, x)
    {
      if HasInput(m, x) {
        var j, k :| j in m.nodes && 0 <= k < |Inputs(m.nodes[j])| && Inputs(m.nodes[j])[k] == x;
        assert j != id && j in n.nodes && n.nodes[j] == m.nodes[j];
      }
    }
    forall j | j in n.nodes
      ensures WellFormedNode(n, n.nodes[j])
    {
      WellFormedNodeKept(m, n, m.nodes[j]);
    }
  }

  /** A driver that is all z is the identity of resolution. */
  lemma HighZIsSilent(m: Netlist, n: Netlist, id: nat, beh: Behaviour, v: Valuation, x: nat, i: nat)
    requires Swept(m, n, id) && AllHighZ(m.nodes[id].value)
    ensures Resolve(DriverBits(m, beh, v, x, i)) == Resolve(DriverBits(n, beh, v, x, i))
  {
    var a, b := DriverBits(m, beh, v, x, i), DriverBits(n, beh, v, x, i);
    forall bit
      ensures bit in b ==> bit in a
      ensures bit in a && bit != BZ ==> bit in b
    {
      if bit in b {
        var j :| j in Drivers(n, x) && bit == DriveBit(n.nodes[j], beh, v, i);
        assert j in Drivers(m, x);
      }
      if bit in a && bit != BZ {
        var j :| j in Drivers(m, x) && bit == DriveBit(m.nodes[j], beh, v, i);
        assert j != id;
        assert j in Drivers(n, x);
      }
    }
  }

  lemma HighZSwept(m: Netlist, n: Netlist, id: nat)
    requires Swept(m, n, id) && AllHighZ(m.nodes[id].value)
    ensures SameMeaning(m, n, m.nexa.Keys)
  {
    forall beh: Behaviour, v: Valuation
      ensures Solution(m, beh, v) <==> Solution(n, beh, v)
    {
      forall x | x in m.nexa
        ensures NexusHolds(m, beh, v, x) <==> NexusHolds(n, beh, v, x)
      {
        assert Width(m, x) == Width(n, x);
        forall i: nat
          ensures Resolve(DriverBits(m, beh, v, x, i)) == Resolve(DriverBits(n, beh, v, x, i))
        {
          HighZIsSilent(m, n, id, beh, v, x, i);
        }
      }
    }
    EqualSolutions(m, n);
  }

  /** m and n differ at most in what drives x, and no node of either has an input on x. */
  ghost predicate DifferAtUnread(m: Netlist, n: Netlist, x: nat) {
    && m.nexa == n.nexa && x in m.nexa
    && !HasInput(m, x) && !HasInput(n, x)
    && forall z :: z != x ==>
         Drivers(m, z) == Drivers(n, z) && forall j :: j in Drivers(m, z) ==> m.nodes[j] == n.nodes[j]
  }

  lemma UnreadBits(n: Netlist, beh: Behaviour, v: Valuation, w: Valuation, x: nat, z: nat, i: nat)
    requires !HasInput(n, x) && forall y :: y != x ==> Get(v, y) == Get(w, y)
    ensures DriverBits(n, beh, v, z, i) == DriverBits(n, beh, w, z, i)
  {
    forall j | j in Drivers(n, z)
      ensures DriveBit(n.nodes[j], beh, v, i) == DriveBit(n.nodes[j], beh, w, i)
    {
      DriveAgree(n.nodes[j], beh, v, w, i);
    }
  }

  lemma UnreadCovered(m: Netlist, n: Netlist, x: nat, beh: Behaviour, v: Valuation, s: set<nat>)
    requires DifferAtUnread(m, n, x) && Solution(m, beh, v) && s <= m.nexa.Keys - {x}
    ensures Covered(m, n, beh, v, s)
  {
    var settled := seq(Width(n, x), i requires 0 <= i < Width(n, x) => Resolve(DriverBits(n, beh, v, x, i)));
    var w := if Free(n.nexa[x]) then v else v[x := settled];
    assert NexusHolds(m, beh, v, x);
    forall z | z in n.nexa
      ensures NexusHolds(n, beh, w, z)
    {
      assert NexusHolds(m, beh, v, z);
      assert Width(m, z) == Width(n, z);
      forall i: nat
        ensures DriverBits(n, beh, v, z, i) == DriverBits(n, beh, w, z, i)
        ensures z != x ==> DriverBits(m, beh, v, z, i) == DriverBits(n, beh, v, z, i)
      {
        UnreadBits(n, beh, v, w, x, z, i);
      }
    }
    assert Solution(n, beh, w);
    assert Agree(v, w, s);
  }

  lemma DanglingSwept(m: Netlist, n: Netlist, id: nat)
    requires Swept(m, n, id) && m.nodes[id].out !in Observable(m)
    ensures SameMeaning(m, n, Observable(m))
  {
    var x := m.nodes[id].out;
    assert !HasInput(m, x);
    assert !HasInput(n, x);
    forall z | z != x
      ensures Drivers(m, z) == Drivers(n, z)
    {
    }
    assert DifferAtUnread(m, n, x) && DifferAtUnread(n, m, x);
    forall beh: Behaviour, v: Valuation
      ensures Solution(m, beh, v) ==> Covered(m, n, beh, v, Observable(m))
      ensures Solution(n, beh, v) ==> Covered(n, m, beh, v, Observable(m))
    {
      if Solution(m, beh, v) {
        UnreadCovered(m, n, x, beh, v, Observable(m));
      }
      if Solution(n, beh, v) {
        UnreadCovered(n, m, x, beh, v, Observable(m));
      }
    }
  }

  /** Deleting one constant that the sweep accepts changes nothing that can be seen. */
  lemma SweptSound(m: Netlist, n: Netlist, id: nat)
    requires WellFormed(m) && Swept(m, n, id)
    ensures WellFormed(n) && Observable(n) == Observable(m) && SameMeaning(m, n, Observable(m))
  {
    SweptKeepsObservers(m, n, id);
    if AllHighZ(m.nodes[id].value) {
      HighZSwept(m, n, id);
      SameMeaningNarrow(m, n, m.nexa.Keys, Observable(m));
    } else {
      DanglingSwept(m, n, id);
    }
  }

  lemma SameMeaningNarrow(m: Netlist, n: Netlist, s: set<nat>, t: set<nat>)
    requires SameMeaning(m, n, s) && t <= s <= m.nexa.Keys == n.nexa.Keys
    ensures SameMeaning(m, n, t)
  {
    SameMeaningReflexive(n);
    SameMeaningTransitive(m, n, n, s, n.nexa.Keys, t);
  }

  // ------------------------------------------------------------ many steps

  ghost predicate SweepStep(m: Netlist, n: Netlist) {
    exists id :: Swept(m, n, id)
  }

  ghost predicate SweepRun(ns: seq<Netlist>) {
    ns != [] && forall k :: 0 < k < |ns| ==> SweepStep(ns[k - 1], ns[k])
  }

  /** Any sequence of accepted deletions, in any order, changes nothing that can be seen. */
  lemma {:induction false} SweepRunSound(ns: seq<Netlist>)
    requires SweepRun(ns) && WellFormed(ns[0])
    ensures WellFormed(ns[|ns| - 1]) && Observable(ns[|ns| - 1]) == Observable(ns[0])
    ensures SameMeaning(ns[0], ns[|ns| - 1], Observable(ns[0]))
  {
    if |ns| == 1 {
      SameMeaningReflexive(ns[0]);
      SameMeaningNarrow(ns[0], ns[0], ns[0].nexa.Keys, Observable(ns[0]));
    } else {
      var prefix := ns[..|ns| - 1];
      SweepRunSound(prefix);
      var m, n := ns[|ns| - 2], ns[|ns| - 1];
      assert prefix[0] == ns[0] && prefix[|prefix| - 1] == m;
      assert SweepStep(m, n);
      var id :| Swept(m, n, id);
      SweptSound(m, n, id);
      SameMeaningTransitive(ns[0], m, n, Observable(ns[0]), Observable(m), Observable(ns[0]));
    }
  }
}
