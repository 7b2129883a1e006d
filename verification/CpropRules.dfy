/**
 * The three rewrites of constant propagation as relations between the netlist before and the
 * netlist after, with what each of them keeps. Nothing here says how a rewrite is computed.
 */
module CpropRules {
  import opened FourState
  import opened Netlist

  // -------------------------------------------------------- concatenation

  ghost predicate Foldable(m: Netlist, id: nat) {
    id in m.nodes && m.nodes[id].Concat? && !m.nodes[id].transparent && ConstantPins(m, m.nodes[id].ins)
  }

  predicate ConstantPins(m: Netlist, ins: seq<nat>) {
    forall k :: 0 <= k < |ins| ==> ins[k] in m.nexa && DriversConstant(m, ins[k])
  }

  /** The constant vectors on a list of pins, joined, the first pin least significant. */
  function DrivenCat(m: Netlist, ins: seq<nat>): Vec
    requires ConstantPins(m, ins)
  {
    if ins == [] then [] else DrivenVector(m, ins[0]) + DrivenCat(m, ins[1..])
  }

  /** The concatenation id became the constant id'; bits that no input supplies stay z. */
  ghost predicate ConcatFolded(m: Netlist, n: Netlist, id: nat, id': nat) {
    && Foldable(m, id) && id' !in m.nodes && n.nexa == m.nexa
    && var d := m.nodes[id];
       var value := DrivenCat(m, d.ins);
       && |value| <= d.width
       && n.nodes == (m.nodes - {id})[id' := Const(d.out, value + Rep(BZ, d.width - |value|))]
  }

  lemma DrivenVectorLength(m: Netlist, x: nat)
    requires WellFormed(m) && x in m.nexa && DriversConstant(m, x)
    ensures |DrivenVector(m, x)| == Width(m, x)
  {
  }

  lemma {:induction false} DrivenCatLength(m: Netlist, ins: seq<nat>)
    requires WellFormed(m)
    requires ConstantPins(m, ins)
    ensures |DrivenCat(m, ins)| == TotalWidth(m, ins)
  {
    if ins == [] {
    } else {
      DrivenVectorLength(m, ins[0]);
      DrivenCatLength(m, ins[1..]);
    }
  }

  lemma {:induction false} DrivenCatAppend(m: Netlist, ins: seq<nat>, x: nat)
    requires ConstantPins(m, ins) && x in m.nexa && DriversConstant(m, x)
    ensures ConstantPins(m, ins + [x])
    ensures DrivenCat(m, ins + [x]) == DrivenCat(m, ins) + DrivenVector(m, x)
  {
    if ins != [] {
      assert (ins + [x])[1..] == ins[1..] + [x];
      DrivenCatAppend(m, ins[1..], x);
    } else {
      assert ins + [x] == [x];
      assert [x][1..] == [];
    }
  }

  /** When every pin has its constant value, the joined pins are the joined constants. */
  lemma {:induction false} CatIsDrivenCat(m: Netlist, beh: Behaviour, v: Valuation, ins: seq<nat>)
    requires WellFormed(m)
    requires ConstantPins(m, ins) && forall k :: 0 <= k < |ins| ==> Get(v, ins[k]) == DrivenVector(m, ins[k])
    ensures Cat(v, ins) == DrivenCat(m, ins)
  {
    if ins == [] {
    } else {
      CatIsDrivenCat(m, beh, v, ins[1..]);
    }
  }

  /** A nexus that node id does not drive keeps its drivers when id is replaced by id'. */
  lemma DriversKept(m: Netlist, n: Netlist, id: nat, id': nat, x: nat)
    requires id in m.nodes && id' !in m.nodes && id' in n.nodes && n.nexa == m.nexa
    requires n.nodes == (m.nodes - {id})[id' := n.nodes[id']]
    requires n.nodes[id'].out == m.nodes[id].out != x
    ensures Drivers(n, x) == Drivers(m, x)
    ensures forall k :: k in Drivers(m, x) ==> n.nodes[k] == m.nodes[k]
    ensures x in m.nexa ==> (DriversConstant(n, x) <==> DriversConstant(m, x))
    ensures x in m.nexa && DriversConstant(m, x) ==> DrivenVector(n, x) == DrivenVector(m, x)
  {
  }

  lemma SwapKeepsWellFormed(m: Netlist, n: Netlist, id: nat, id': nat)
    requires WellFormed(m) && id in m.nodes && id' !in m.nodes && id' in n.nodes && n.nexa == m.nexa
    requires n.nodes == (m.nodes - {id})[id' := n.nodes[id']]
    requires WellFormedNode(n, n.nodes[id'])
    ensures WellFormed(n)
  {
    forall k | k in n.nodes
      ensures WellFormedNode(n, n.nodes[k])
    {
      if k != id' {
        assert WellFormedNode(m, m.nodes[k]);
        WellFormedNodeKept(m, n, m.nodes[k]);
      }
    }
  }

  lemma {:induction false} TotalWidthKept(m: Netlist, n: Netlist, ins: seq<nat>)
    requires forall k :: 0 <= k < |ins| ==> Width(m, ins[k]) == Width(n, ins[k])
    ensures TotalWidth(m, ins) == TotalWidth(n, ins)
  {
    if ins == [] {
    } else {
      assert Width(m, ins[0]) == Width(n, ins[0]);
      TotalWidthKept(m, n, ins[1..]);
    }
  }

  lemma WellFormedNodeKept(m: Netlist, n: Netlist, d: Node)
    requires WellFormedNode(m, d)
    requires m.nexa.Keys <= n.nexa.Keys && forall x :: x in m.nexa ==> n.nexa[x] == m.nexa[x]
    ensures WellFormedNode(n, d)
  {
    forall k | 0 <= k < |Inputs(d)|
      ensures Inputs(d)[k] in n.nexa && Width(m, Inputs(d)[k]) == Width(n, Inputs(d)[k])
    {
      assert Inputs(d)[k] in m.nexa;
    }
    match d
    case Concat(_, pins, _, _) =>
      assert pins == Inputs(d);
      TotalWidthKept(m, n, pins);
    case Mux(_, sel, data, width, _) =>
      assert Inputs(d)[0] == sel;
      forall k | 0 <= k < |data|
        ensures Width(n, data[k]) == width
      {
        assert Inputs(d)[k + 1] == data[k];
      }
    case BufZ(_, inp, _) =>
      assert Inputs(d)[0] == inp;
    case PartPV(_, inp, _, _) =>
      assert Inputs(d)[0] == inp;
    case _ =>
  }

  /** Under a valuation that satisfies the inputs' equations, concatenation and constant drive the same bits. */
  lemma ConcatFoldedSolution(m: Netlist, n: Netlist, id: nat, id': nat, beh: Behaviour, v: Valuation)
    requires WellFormed(m) && WellFormed(n) && ConcatFolded(m, n, id, id')
    requires Solution(m, beh, v) || Solution(n, beh, v)
    ensures Solution(m, beh, v) <==> Solution(n, beh, v)
  {
    var d := m.nodes[id];
    forall k | 0 <= k < |d.ins|
      ensures Get(v, d.ins[k]) == DrivenVector(m, d.ins[k])
    {
      var x := d.ins[k];
      assert id in Drivers(m, d.out);
      DriversKept(m, n, id, id', x);
      if Solution(m, beh, v) {
        ConstantNexus(m, beh, v, x);
      } else {
        ConstantNexus(n, beh, v, x);
      }
    }
    CatIsDrivenCat(m, beh, v, d.ins);
    SwapDriver(m, n, beh, v, id, id');
  }

  /** Folding a concatenation of constants changes no solution. */
  lemma ConcatFoldedSound(m: Netlist, n: Netlist, id: nat, id': nat)
    requires WellFormed(m) && ConcatFolded(m, n, id, id')
    ensures WellFormed(n) && SameMeaning(m, n, m.nexa.Keys)
  {
    assert WellFormedNode(m, m.nodes[id]);
    SwapKeepsWellFormed(m, n, id, id');
    forall beh: Behaviour, v: Valuation
      ensures Solution(m, beh, v) <==> Solution(n, beh, v)
    {
      if Solution(m, beh, v) || Solution(n, beh, v) {
        ConcatFoldedSolution(m, n, id, id', beh, v);
      }
    }
    EqualSolutions(m, n);
  }

  lemma EqualSolutions(m: Netlist, n: Netlist)
    requires m.nexa == n.nexa
    requires forall beh: Behaviour, v: Valuation :: Solution(m, beh, v) <==> Solution(n, beh, v)
    ensures SameMeaning(m, n, m.nexa.Keys)
  {
  }

  // ------------------------------------------------------------ multiplexer

  ghost predicate Reducible(m: Netlist, id: nat) {
    && id in m.nodes && m.nodes[id].Mux? && |m.nodes[id].data| == 2 && m.nodes[id].selWidth == 1
    && m.nodes[id].sel in m.nexa && DriversConstant(m, m.nodes[id].sel)
    && (At(DrivenVector(m, m.nodes[id].sel), 0) == B0 || At(DrivenVector(m, m.nodes[id].sel), 0) == B1)
  }

  /** The 2:1 mux id became the buffer id' of the input that its constant select picks. */
  ghost predicate MuxReduced(m: Netlist, n: Netlist, id: nat, id': nat) {
    && Reducible(m, id) && id' !in m.nodes && n.nexa == m.nexa
    && var d := m.nodes[id];
       var picked := if At(DrivenVector(m, d.sel), 0) == B1 then d.data[1] else d.data[0];
       n.nodes == (m.nodes - {id})[id' := BufZ(d.out, picked, d.width)]
  }

  lemma MuxReducedSolution(m: Netlist, n: Netlist, id: nat, id': nat, beh: Behaviour, v: Valuation)
    requires WellFormed(m) && WellFormed(n) && MuxReduced(m, n, id, id')
    requires Solution(m, beh, v) || Solution(n, beh, v)
    ensures Solution(m, beh, v) <==> Solution(n, beh, v)
  {
    var d := m.nodes[id];
    assert WellFormedNode(m, d);
    assert id in Drivers(m, d.out);
    DriversKept(m, n, id, id', d.sel);
    if Solution(m, beh, v) {
      ConstantNexus(m, beh, v, d.sel);
    } else {
      ConstantNexus(n, beh, v, d.sel);
    }
    DrivenVectorLength(m, d.sel);
    var s := Get(v, d.sel);
    assert s == [B0] || s == [B1];
    forall i: nat
      ensures DriveBit(d, beh, v, i) == DriveBit(n.nodes[id'], beh, v, i)
    {
      SelectedBit(d, beh, v, i);
    }
    SwapDriver(m, n, beh, v, id, id');
  }

  lemma SelectedBit(d: Node, beh: Behaviour, v: Valuation, i: nat)
    requires d.Mux? && |d.data| == 2
    ensures Get(v, d.sel) == [B0] ==> DriveBit(d, beh, v, i) == At(Get(v, d.data[0]), i)
    ensures Get(v, d.sel) == [B1] ==> DriveBit(d, beh, v, i) == At(Get(v, d.data[1]), i)
  {
    assert [B0][1..] == [] && [B1][1..] == [];
    assert SelectIndex([B0]) == 0 && SelectIndex([B1]) == 1;
  }

  /** Replacing a mux whose select is a defined constant changes no solution. */
  lemma MuxReducedSound(m: Netlist, n: Netlist, id: nat, id': nat)
    requires WellFormed(m) && MuxReduced(m, n, id, id')
    ensures WellFormed(n) && SameMeaning(m, n, m.nexa.Keys)
  {
    var d := m.nodes[id];
    assert WellFormedNode(m, d);
    assert Inputs(d)[1] == d.data[0] && Inputs(d)[2] == d.data[1];
    SwapKeepsWellFormed(m, n, id, id');
    forall beh: Behaviour, v: Valuation
      ensures Solution(m, beh, v) <==> Solution(n, beh, v)
    {
      if Solution(m, beh, v) || Solution(n, beh, v) {
        MuxReducedSolution(m, n, id, id', beh, v);
      }
    }
    EqualSolutions(m, n);
  }
}
