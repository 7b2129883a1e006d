/**
 * Constant propagation as the source runs it: a design whose nodes the functor methods replace in
 * place, scans in arbitrary order until one finds nothing to do, and the final sweep of constants.
 */
module Cprop {
  import opened FourState
  import opened Netlist
  import opened CpropRules
  import opened CpropMerge
  import opened CpropLayout
  import opened CpropResult
  import opened CpropSteps
  import opened CpropSweep

  /** Some counted rewrite applies to node id. */
  ghost predicate Eligible(n: Netlist, id: nat) {
    || Foldable(n, id)
    || Reducible(n, id)
    || (id in n.nodes && n.nodes[id].PartPV? && Mergeable(n, n.nodes[id].out))
  }

  /** n is m with some gap constants added, each driving a new nexus of its own. */
  ghost predicate Grown(m: Netlist, n: Netlist, fill: Bit, gaps: map<nat, nat>) {
    GrownNodes(m, n, fill, gaps) && NewGaps(m, gaps) && MergedNexa(m, n, gaps)
  }

  ghost predicate GrownNodes(m: Netlist, n: Netlist, fill: Bit, gaps: map<nat, nat>) {
    && n.nodes.Keys == m.nodes.Keys + gaps.Keys
    && (forall id :: id in m.nodes ==> n.nodes[id] == m.nodes[id])
    && (forall id :: id in gaps ==> n.nodes[id] == Const(gaps[id], Rep(fill, Width(n, gaps[id]))))
  }

  ghost predicate NewGaps(m: Netlist, gaps: map<nat, nat>) {
    && (forall id :: id in gaps ==> id !in m.nodes && gaps[id] !in m.nexa)
    && (forall a, b :: a in gaps && b in gaps && gaps[a] == gaps[b] ==> a == b)
  }

  function Insert<T>(s: seq<T>, at: nat, t: T): (r: seq<T>)
    requires at <= |s|
    ensures |r| == |s| + 1
    ensures forall k :: 0 <= k < |r| ==> r[k] == if k < at then s[k] else if k == at then t else s[k - 1]
  {
    s[..at] + [t] + s[at..]
  }

  lemma InsertSorted(ps: seq<Node>, at: nat, p: Node)
    requires SortedByBase(ps) && p.PartPV? && at <= |ps|
    requires forall j :: 0 <= j < at ==> ps[j].base <= p.base
    requires at < |ps| ==> p.base < ps[at].base
    ensures SortedByBase(Insert(ps, at, p))
  {
  }

  lemma InsertDistinct(ids: seq<nat>, at: nat, id: nat)
    requires at <= |ids| && id !in ids
    requires forall j, k :: 0 <= j < k < |ids| ==> ids[j] != ids[k]
    ensures forall j, k :: 0 <= j < k <= |ids| ==> Insert(ids, at, id)[j] != Insert(ids, at, id)[k]
    ensures forall i :: i in Insert(ids, at, id) <==> i in ids || i == id
  {
  }

  class Design {
    var nodes: map<nat, Node>
    var nexa: map<nat, Nexus>
    var nextNode: nat
    var nextNexus: nat
    /** Counted rewrites of the current scan. */
    var count: nat
    /** Flip-flops removed so far; the source does not count these. */
    var flopsRemoved: nat
    // flopsRemoved when the latest scan began
    ghost var flopsAtScan: nat

    ghost function Net(): Netlist
      reads this
    {
      Netlist(nodes, nexa)
    }

    ghost predicate NamesFree()
      reads this
    {
      (forall id :: id in nodes ==> id < nextNode) && (forall x :: x in nexa ==> x < nextNexus)
    }

    ghost predicate Valid()
      reads this
    {
      WellFormed(Net()) && NamesFree()
    }

    // ------------------------------------------------------- the rewrites

    /** The constant that a concatenation makes of its inputs, if all of them are constant */
    method FoldInputs(obj: Node) returns (ok: bool, result: Vec)
      requires Valid() && obj in nodes.Values && obj.Concat?
      ensures ok <==> ConstantPins(Net(), obj.ins)
      ensures ok ==> |DrivenCat(Net(), obj.ins)| <= obj.width
      ensures ok ==> result == DrivenCat(Net(), obj.ins) + Rep(BZ, obj.width - |DrivenCat(Net(), obj.ins)|)
    {
      ghost var m := Net();
      assert WellFormedNode(m, obj);
      result := Rep(BZ, obj.width);
      var off: nat := 0;
      var idx := 0;
      while idx < |obj.ins|
        invariant 0 <= idx <= |obj.ins|
        invariant ConstantPins(m, obj.ins[..idx])
        invariant Folded(m, obj.ins[..idx], obj.width, result, off)
      {
        var nex := obj.ins[idx];
        assert Inputs(obj)[idx] == nex;
        if !DriversConstant(Netlist(nodes, nexa), nex) {
          return false, result;
        }
        var tmp := DrivenVector(Netlist(nodes, nexa), nex);
        FoldPin(m, obj.ins, idx, obj.width, result, off);
        result := result[..off] + tmp + result[off + |tmp|..];
        off := off + |tmp|;
        idx := idx + 1;
      }
      assert obj.ins[..|obj.ins|] == obj.ins;
      return true, result;
    }

    /** cprop_functor::lpm_concat */
    method LpmConcat(id: nat)
      requires Valid() && id in nodes && nodes[id].Concat?
      modifies `nodes, `nextNode, `count
      ensures Valid()
      ensures Foldable(old(Net()), id) ==>
                ConcatFolded(old(Net()), Net(), id, old(nextNode)) && count == old(count) + 1
      ensures !Foldable(old(Net()), id) ==> Net() == old(Net()) && count == old(count)
      ensures count > old(count) <==> ConcatToFold(old(Net()), id)
    {
      FoldableExactly(Net(), id);
      var obj := nodes[id];
      if obj.transparent {
        return;
      }
      ghost var m := Net();
      var ok, result := FoldInputs(obj);
      if !ok {
        return;
      }
      nodes := (nodes - {id})[nextNode := Const(obj.out, result)];
      count := count + 1;
      ConcatFoldedSound(m, Net(), id, nextNode);
      nextNode := nextNode + 1;
    }

    /** cprop_functor::lpm_mux */
    method LpmMux(id: nat)
      requires Valid() && id in nodes && nodes[id].Mux?
      modifies `nodes, `nextNode, `count
      ensures Valid()
      ensures Reducible(old(Net()), id) ==>
                MuxReduced(old(Net()), Net(), id, old(nextNode)) && count == old(count) + 1
      ensures !Reducible(old(Net()), id) ==> Net() == old(Net()) && count == old(count)
      ensures count > old(count) <==> MuxToReduce(old(Net()), id)
    {
      ReducibleExactly(Net(), id);
      var obj := nodes[id];
      ghost var m := Net();
      assert WellFormedNode(m, obj);
      assert Inputs(obj)[0] == obj.sel;
      if |obj.data| != 2 {
        return;
      }
      if obj.selWidth != 1 {
        return;
      }
      if !DriversConstant(Netlist(nodes, nexa), obj.sel) {
        return;
      }
      var selVal := At(DrivenVector(Netlist(nodes, nexa), obj.sel), 0);
      if selVal == BZ || selVal == BX {
        return;
      }
      var picked := if selVal == B1 then obj.data[1] else obj.data[0];
      nodes := (nodes - {id})[nextNode := BufZ(obj.out, picked, obj.width)];
      count := count + 1;
      MuxReducedSound(m, Net(), id, nextNode);
      nextNode := nextNode + 1;
    }

    /** cprop_functor::lpm_ff */
    method LpmFF(id: nat)
      requires Valid() && id in nodes && nodes[id].FF?
      modifies `nodes, `flopsRemoved
      ensures Valid()
      ensures SelfFed(old(Net()), id) ==>
                nodes == old(nodes) - {id} && flopsRemoved == old(flopsRemoved) + 1
      ensures !SelfFed(old(Net()), id) ==> Net() == old(Net()) && flopsRemoved == old(flopsRemoved)
      ensures id !in nodes <==> old(nodes[id].dataPin == nodes[id].out && !nodes[id].controlled)
    {
      var obj := nodes[id];
      if obj.dataPin == obj.out && !obj.controlled {
        ghost var m := Net();
        nodes := nodes - {id};
        flopsRemoved := flopsRemoved + 1;
        forall k | k in nodes
          ensures WellFormedNode(Net(), nodes[k])
        {
          WellFormedNodeKept(m, Net(), m.nodes[k]);
        }
      }
    }

    // ------------------------------------------------- merging the parts

    /** Whether there is a two-state signal among those on nexus x. */
    method Drives2State(x: nat) returns (output2State: bool)
      requires x in nexa
      ensures output2State <==> exists k :: 0 <= k < |nexa[x].nets| && nexa[x].nets[k].twoState
    {
      var nets := nexa[x].nets;
      output2State := false;
      for k := 0 to |nets|
        invariant output2State <==> exists i :: 0 <= i < k && nets[i].twoState
      {
        if nets[k].twoState {
          output2State := true;
        }
      }
    }

    /** The drivers of nexus x, if all of them are parts. */
    method CollectParts(x: nat) returns (ok: bool, ids: seq<nat>, objSet: seq<Node>)
      requires x in nexa
      ensures ok <==> AllParts(Net(), x)
      ensures ok ==> PartList(Net(), x, ids, objSet) && |objSet| == |Drivers(Net(), x)|
    {
      ids, objSet := [], [];
      var links := Drivers(Netlist(nodes, nexa), x);
      ghost var all := links;
      while links != {}
        invariant links <= all && |ids| + |links| == |all|
        invariant forall id :: id in ids <==> id in all - links
        invariant forall j, k :: 0 <= j < k < |ids| ==> ids[j] != ids[k]
        invariant SamePart(Net(), ids, objSet) && forall k :: 0 <= k < |objSet| ==> objSet[k].PartPV?
        decreases |links|
      {
        var cur :| cur in links;
        if !nodes[cur].PartPV? {
          return false, ids, objSet;
        }
        assert cur !in ids;
        ids, objSet := ids + [cur], objSet + [nodes[cur]];
        links := links - {cur};
      }
      forall id | id in Drivers(Net(), x)
        ensures nodes[id].PartPV?
      {
        assert id in ids;
      }
      return true, ids, objSet;
    }

    /** std::sort with compare_base: the same objects, by increasing base. */
    method SortByBase(x: nat, ids: seq<nat>, ps: seq<Node>) returns (ids': seq<nat>, ps': seq<Node>)
      requires PartList(Net(), x, ids, ps)
      ensures PartList(Net(), x, ids', ps') && |ps'| == |ps| && SortedByBase(ps')
    {
      ids', ps' := [], [];
      for i := 0 to |ids|
        invariant |ids'| == i && SamePart(Net(), ids', ps') && SortedByBase(ps')
        invariant forall id :: id in ids' <==> id in ids[..i]
        invariant forall j, k :: 0 <= j < k < |ids'| ==> ids'[j] != ids'[k]
      {
        assert ids[..i + 1] == ids[..i] + [ids[i]];
        assert ids[i] !in ids[..i];
        ids', ps' := InsertByBase(ids', ps', ids[i], ps[i]);
      }
      assert ids[..|ids|] == ids;
    }

    /** Puts one object in its place among sorted ones. */
    method InsertByBase(ids: seq<nat>, ps: seq<Node>, id: nat, p: Node) returns (ids': seq<nat>, ps': seq<Node>)
      requires SamePart(Net(), ids, ps) && SortedByBase(ps) && id !in ids && p.PartPV?
      requires id in nodes && nodes[id] == p && forall j, k :: 0 <= j < k < |ids| ==> ids[j] != ids[k]
      ensures |ids'| == |ids| + 1 && SamePart(Net(), ids', ps') && SortedByBase(ps')
      ensures forall i :: i in ids' <==> i in ids || i == id
      ensures forall j, k :: 0 <= j < k < |ids'| ==> ids'[j] != ids'[k]
    {
      var at := 0;
      while at < |ps| && ps[at].base <= p.base
        invariant 0 <= at <= |ps|
        invariant forall j :: 0 <= j < at ==> ps[j].base <= p.base
      {
        at := at + 1;
      }
      InsertSorted(ps, at, p);
      InsertDistinct(ids, at, id);
      ids', ps' := Insert(ids, at, id), Insert(ps, at, p);
    }

    /** The overlap loop and the tail check: whether sorted parts fit into w bits one after the other. */
    method CheckLayout(ghost x: nat, ghost ids: seq<nat>, ps: seq<Node>, w: nat) returns (ok: bool)
      requires Valid() && PartList(Net(), x, ids, ps) && SortedByBase(ps) && ps != [] && w == Width(Net(), x)
      ensures ok <==> Tiled(ps, 0, w)
      ensures !ok ==> !(AllParts(Net(), x) && DisjointParts(Net(), x) && PartsFit(Net(), x))
    {
      PartsHaveWidth(Net(), x, ids, ps);
      ok := FitsOneAfterTheOther(ps, w);
      if AllParts(Net(), x) && DisjointParts(Net(), x) && PartsFit(Net(), x) {
        MergeableIsTiled(Net(), x, ids, ps);
      }
    }

    /** make_const_0 and make_const_z: a constant node on a new nexus with a new local signal. */
    method MakeConst(fill: Bit, w: nat) returns (g: nat)
      modifies `nodes, `nexa, `nextNode, `nextNexus
      ensures g == old(nextNexus) && nextNexus == old(nextNexus) + 1 && nextNode == old(nextNode) + 1
      ensures nodes == old(nodes)[old(nextNode) := Const(g, Rep(fill, w))]
      ensures nexa == old(nexa)[g := GapNexus(w)] && Hidden(nexa[g])
    {
      g := nextNexus;
      nodes := nodes[nextNode := Const(g, Rep(fill, w))];
      nexa := nexa[g := GapNexus(w)];
      nextNode := nextNode + 1;
      nextNexus := nextNexus + 1;
    }

    /** Connects the next pin to a new constant of w bits. */
    method ConnectGap(ghost m: Netlist, fill: Bit, w: nat, pins: seq<nat>, concatPin: nat, ghost pieces: seq<Piece>,
                      ghost gaps: map<nat, nat>) returns (pins': seq<nat>, ghost gaps': map<nat, nat>)
      requires NamesFree() && Built(m, Net(), fill, gaps, pins, concatPin, pieces)
      requires concatPin < |pins| && pieces[concatPin] == Gap(w)
      modifies `nodes, `nexa, `nextNode, `nextNexus
      ensures NamesFree() && nextNode == old(nextNode) + 1 && nextNexus == old(nextNexus) + 1
      ensures gaps' == gaps[old(nextNode) := old(nextNexus)]
      ensures Built(m, Net(), fill, gaps', pins', concatPin + 1, pieces)
    {
      ghost var before := Net();
      ghost var id := nextNode;
      var val := MakeConst(fill, w);
      gaps' := gaps[id := val];
      GapPin(m, before, Net(), fill, gaps, pins, concatPin, pieces, id, val, w);
      pins' := pins[concatPin := val];
    }

    /** Connects one part, after a constant for the gap before it if there is one. */
    method ConnectPart(ghost m: Netlist, fill: Bit, part: Node, pins: seq<nat>, concatPin: nat, off: nat,
                       ghost pieces: seq<Piece>, ghost gaps: map<nat, nat>)
      returns (pins': seq<nat>, concatPin': nat, ghost gaps': map<nat, nat>)
      requires NamesFree() && Built(m, Net(), fill, gaps, pins, concatPin, pieces)
      requires part.PartPV? && part.inp in m.nexa && Width(m, part.inp) == part.width && off <= part.base
      requires var k := if off < part.base then concatPin + 1 else concatPin;
               && k < |pieces|
               && (off < part.base ==> pieces[concatPin] == Gap(part.base - off))
               && pieces[k] == Part(part.inp, part.width)
      modifies `nodes, `nexa, `nextNode, `nextNexus
      ensures NamesFree() && nextNode >= old(nextNode)
      ensures forall id :: id in gaps' ==> id in gaps || old(nextNode) <= id < nextNode
      ensures concatPin' == if off < part.base then concatPin + 2 else concatPin + 1
      ensures Built(m, Net(), fill, gaps', pins', concatPin', pieces)
    {
      pins', concatPin', gaps' := pins, concatPin, gaps;
      if part.base > off {
        pins', gaps' := ConnectGap(m, fill, part.base - off, pins, concatPin, pieces, gaps);
        concatPin' := concatPin + 1;
      }
      PartPin(m, Net(), fill, gaps', pins', concatPin', pieces, part.inp, part.width);
      pins' := pins'[concatPin' := part.inp];
      concatPin' := concatPin' + 1;
    }

    /** One round of the loop that connects the inputs */
    method ConnectNext(ps: seq<Node>, sigWidth: nat, fill: Bit, idx: nat, pins: seq<nat>, concatPin: nat, off: nat,
                       ghost m: Netlist, ghost gaps: map<nat, nat>)
      returns (pins': seq<nat>, concatPin': nat, off': nat, ghost gaps': map<nat, nat>)
      requires NamesFree() && Tiled(ps, 0, sigWidth) && PartsOnNexa(m, ps) && idx < |ps|
      requires Connected(m, Net(), ps, sigWidth, fill, idx, pins, concatPin, off, gaps)
      modifies `nodes, `nexa, `nextNode, `nextNexus
      ensures NamesFree() && nextNode >= old(nextNode)
      ensures forall id :: id in gaps' ==> id in gaps || old(nextNode) <= id < nextNode
      ensures Connected(m, Net(), ps, sigWidth, fill, idx + 1, pins', concatPin', off', gaps')
    {
      PieceOfPart(ps, idx, sigWidth);
      pins', concatPin', gaps' := ConnectPart(m, fill, ps[idx], pins, concatPin, off, Pieces(ps, 0, sigWidth), gaps);
      off' := ps[idx].base + ps[idx].width;
    }

    /**
     * The loop that connects the inputs of the concatenation, part by part, with a constant for each
     * gap. Pin 0 of the source's node is its output, so pin k there is pins[k - 1] here.
     */
    method ConnectParts(ps: seq<Node>, sigWidth: nat, fill: Bit, partCount: nat)
      returns (pins: seq<nat>, concatPin: nat, off: nat, ghost gaps: map<nat, nat>)
      requires NamesFree() && Tiled(ps, 0, sigWidth) && partCount == |Pieces(ps, 0, sigWidth)|
      requires PartsOnNexa(Net(), ps)
      modifies `nodes, `nexa, `nextNode, `nextNexus
      ensures NamesFree() && nextNode >= old(nextNode)
      ensures forall id :: id in gaps ==> old(nextNode) <= id < nextNode
      ensures Connected(old(Net()), Net(), ps, sigWidth, fill, |ps|, pins, concatPin, off, gaps)
    {
      ghost var m := Net();
      pins := seq(partCount, _ => 0);
      gaps := map[];
      off := 0;
      concatPin := 0;
      EmptyBuilt(m, fill, pins, Pieces(ps, 0, sigWidth));
      var idx := 0;
      while idx < |ps|
        invariant 0 <= idx <= |ps|
        invariant NamesFree() && nextNode >= old(nextNode)
        invariant Connected(m, Net(), ps, sigWidth, fill, idx, pins, concatPin, off, gaps)
        invariant forall id :: id in gaps ==> old(nextNode) <= id < nextNode
      {
        pins, concatPin, off, gaps := ConnectNext(ps, sigWidth, fill, idx, pins, concatPin, off, m, gaps);
        idx := idx + 1;
      }
    }

    /** The connections of the concatenation, with the constant for the gap at the top if there is one. */
    method BuildPins(ps: seq<Node>, sigWidth: nat, fill: Bit, partCount: nat) returns (pins: seq<nat>)
      requires NamesFree() && Tiled(ps, 0, sigWidth) && partCount == |Pieces(ps, 0, sigWidth)|
      requires PartsOnNexa(Net(), ps)
      modifies `nodes, `nexa, `nextNode, `nextNexus
      ensures NamesFree()
      ensures PinsBuilt(old(Net()), Net(), fill, pins, Pieces(ps, 0, sigWidth))
    {
      ghost var m := Net();
      ghost var gaps;
      var concatPin, off;
      pins, concatPin, off, gaps := ConnectParts(ps, sigWidth, fill, partCount);
      PieceOfTail(ps, sigWidth);
      if off < sigWidth {
        pins, gaps := ConnectGap(m, fill, sigWidth - off, pins, concatPin, Pieces(ps, 0, sigWidth), gaps);
        concatPin := concatPin + 1;
      }
      // the assertion after the loop in the source
      assert concatPin == partCount;
    }

    /** Deletes the listed nodes and adds one. */
    method Replace(ids: seq<nat>, d: Node) returns (c: nat)
      requires NamesFree()
      modifies `nodes, `nextNode
      ensures NamesFree() && c == old(nextNode) && nextNode == c + 1
      ensures nodes == (old(nodes) - (set k | 0 <= k < |ids| :: ids[k]))[c := d]
    {
      c := nextNode;
      nodes := (nodes - (set k | 0 <= k < |ids| :: ids[k]))[c := d];
      nextNode := nextNode + 1;
    }

    /** Counts and connects the inputs of the concatenation for the sorted parts of x. */
    method ConcatPins(x: nat, ids: seq<nat>, ps: seq<Node>, output2State: bool) returns (pins: seq<nat>)
      requires Valid() && x in nexa && output2State == TwoState(nexa[x])
      requires PartList(Net(), x, ids, ps) && Tiled(ps, 0, Width(Net(), x))
      modifies `nodes, `nexa, `nextNode, `nextNexus
      ensures NamesFree()
      ensures PinsBuilt(old(Net()), Net(), FillOf(old(nexa)[x]), pins, Pieces(ps, 0, Width(old(Net()), x)))
    {
      ListedPartsOnNexa(Net(), x, ids, ps);
      var sigWidth := VectorWidth(nexa[x]);
      var partCount := CountPieces(ps, sigWidth);
      pins := BuildPins(ps, sigWidth, if output2State then B0 else BZ, partCount);
    }

    /** Replace the parts by the concatenation, which is connected to these pins. */
    method ReplaceParts(ghost m: Netlist, x: nat, ids: seq<nat>, ghost ps: seq<Node>, pins: seq<nat>, sigWidth: nat)
      requires NamesFree() && WellFormed(m) && Mergeable(m, x) && PartList(m, x, ids, ps)
      requires sigWidth == Width(m, x) && Tiled(ps, 0, sigWidth)
      requires PinsBuilt(m, Net(), FillOf(m.nexa[x]), pins, Pieces(ps, 0, sigWidth))
      modifies `nodes, `nextNode
      ensures Valid() && MergeStep(m, Net())
    {
      ghost var grown := Net();
      var c := Replace(ids, Concat(x, pins, sigWidth, false));
      FinishMerge(m, grown, Net(), x, ids, ps, FillOf(m.nexa[x]), pins, c);
    }

    /** The second half of lpm_part_select: replace the sorted parts of x by a concatenation. */
    method MergeParts(x: nat, ids: seq<nat>, ps: seq<Node>, output2State: bool)
      requires Valid() && x in nexa && output2State == TwoState(nexa[x])
      requires PartList(Net(), x, ids, ps) && Mergeable(Net(), x) && Tiled(ps, 0, Width(Net(), x))
      modifies `nodes, `nexa, `nextNode, `nextNexus, `count
      ensures Valid() && count == old(count) + 1
      ensures MergeStep(old(Net()), Net())
    {
      ghost var m := Net();
      var sigWidth := VectorWidth(nexa[x]);
      var pins := ConcatPins(x, ids, ps, output2State);
      count := count + 1;
      ReplaceParts(m, x, ids, ps, pins, sigWidth);
    }

    /** cprop_functor::lpm_part_select */
    method LpmPartSelect(id: nat)
      requires Valid() && id in nodes && (nodes[id].PartPV? || nodes[id].PartVP?)
      modifies `nodes, `nexa, `nextNode, `nextNexus, `count
      ensures Valid()
      ensures old(nodes[id].PartPV? && Mergeable(Net(), nodes[id].out)) ==>
                MergeStep(old(Net()), Net()) && count == old(count) + 1
      ensures !old(nodes[id].PartPV? && Mergeable(Net(), nodes[id].out)) ==> Net() == old(Net()) && count == old(count)
      ensures count > old(count) <==> old(nodes[id].PartPV? && PartsToMerge(Net(), nodes[id].out))
    {
      MergeableExactly(Net(), nodes[id].out);
      var obj := nodes[id];
      if !obj.PartPV? {
        return;
      }
      ghost var m := Net();
      var x := obj.out;
      assert WellFormedNode(m, obj);
      var output2State := Drives2State(x);
      var parts, ids, ps := CollectParts(x);
      if !parts {
        return;
      }
      if |ps| == 0 || (|ps| == 1 && !output2State) {
        return;
      }
      ids, ps := SortByBase(x, ids, ps);
      var sigWidth := VectorWidth(nexa[x]);
      var tiled := CheckLayout(x, ids, ps, sigWidth);
      if !tiled {
        return;
      }
      TiledIsMergeable(m, x, ids, ps);
      assert Mergeable(m, x);
      MergeParts(x, ids, ps, output2State);
    }

    // ------------------------------------------------------------ scanning

    /** Design::functor on one node. */
    method Visit(id: nat)
      requires Valid() && id in nodes
      modifies `nodes, `nexa, `nextNode, `nextNexus, `count, `flopsRemoved
      ensures Valid()
      ensures Eligible(old(Net()), id) ==> Rewrite(old(Net()), Net()) && count == old(count) + 1
      ensures !Eligible(old(Net()), id) ==> count == old(count) && nexa == old(nexa)
      ensures !Eligible(old(Net()), id) ==>
                nodes == if SelfFed(old(Net()), id) then old(nodes) - {id} else old(nodes)
      ensures flopsRemoved == old(flopsRemoved) + if SelfFed(old(Net()), id) then 1 else 0
    {
      ghost var m := Net();
      match nodes[id]
      case Concat(_, _, _, _) =>
        LpmConcat(id);
      case Mux(_, _, _, _, _) =>
        LpmMux(id);
      case PartPV(_, _, _, _) =>
        LpmPartSelect(id);
      case PartVP(_, _, _, _) =>
        LpmPartSelect(id);
      case FF(_, _, _, _, _) =>
        LpmFF(id);
      case _ =>
      if Eligible(m, id) {
        RewriteProgress(m, Net());
      }
    }

    /** A visit as part of a scan that started at m */
    method ScanVisit(id: nat, ghost m: Netlist, ghost removed: bool, ghost todo: set<nat>)
      requires Valid() && id in nodes && Scanned(m, Net(), count, removed, todo)
      modifies `nodes, `nexa, `nextNode, `nextNexus, `count, `flopsRemoved
      ensures Valid() && flopsRemoved >= old(flopsRemoved) && Potential(Net()) <= old(Potential(Net()))
      ensures Scanned(m, Net(), count, removed || flopsRemoved != old(flopsRemoved), todo - {id})
      ensures Potential(Net()) == old(Potential(Net())) ==> nodes.Keys <= old(nodes.Keys)
    {
      ghost var before, counted := Net(), count;
      Visit(id);
      ScanStep(m, before, Net(), id, counted, removed, todo);
    }

    /**
     * One scan of the design, in an arbitrary order. Nodes deleted before their turn are not visited, and
     * nodes added during the scan may or may not be.
     */
    method Scan()
      requires Valid() && count == 0
      modifies this
      ensures Valid() && flopsRemoved >= flopsAtScan == old(flopsRemoved)
      ensures count + Potential(Net()) <= Potential(old(Net()))
      ensures Propagated(old(Net()), Net(), flopsRemoved > old(flopsRemoved))
      ensures count == 0 && flopsRemoved == flopsAtScan ==>
                Net() == old(Net()) && forall id :: id in nodes ==> !Eligible(Net(), id)
    {
      ghost var m := Net();
      var todo := nodes.Keys;
      flopsAtScan := flopsRemoved;
      ReachesItself(m);
      while todo != {}
        invariant Valid() && flopsRemoved >= flopsAtScan == old(flopsRemoved)
        invariant Scanned(m, Net(), count, flopsRemoved != flopsAtScan, todo)
        decreases Potential(Net()), |todo|
      {
        todo := ScanNext(m, todo);
      }
      assert todo == {};
      NoFlopRemoved(m, Net());
    }

    /** One round of the scan */
    method ScanNext(ghost m: Netlist, todo: set<nat>) returns (todo': set<nat>)
      requires Valid() && todo != {} && flopsRemoved >= flopsAtScan
      requires Scanned(m, Net(), count, flopsRemoved != flopsAtScan, todo)
      modifies `nodes, `nexa, `nextNode, `nextNexus, `count, `flopsRemoved
      ensures Valid() && flopsRemoved >= old(flopsRemoved)
      ensures Scanned(m, Net(), count, flopsRemoved != flopsAtScan, todo')
      ensures Potential(Net()) < old(Potential(Net())) ||
              (Potential(Net()) == old(Potential(Net())) && |todo'| < |todo|)
    {
      var id :| id in todo;
      if id in nodes {
        todo' := VisitNext(id, m, todo);
      } else {
        todo' := todo - {id};
        NotThere(m, Net(), count, flopsRemoved != flopsAtScan, todo, id);
      }
    }

    /** The visit of one node, after which some of the nodes it has added may be waiting for theirs */
    method VisitNext(id: nat, ghost m: Netlist, todo: set<nat>) returns (todo': set<nat>)
      requires Valid() && id in todo && id in nodes && flopsRemoved >= flopsAtScan
      requires Scanned(m, Net(), count, flopsRemoved != flopsAtScan, todo)
      modifies `nodes, `nexa, `nextNode, `nextNexus, `count, `flopsRemoved
      ensures Valid() && flopsRemoved >= old(flopsRemoved)
      ensures Scanned(m, Net(), count, flopsRemoved != flopsAtScan, todo')
      ensures Potential(Net()) < old(Potential(Net())) ||
              (Potential(Net()) == old(Potential(Net())) && |todo'| < |todo|)
    {
      var known := nodes.Keys;
      ScanVisit(id, m, flopsRemoved != flopsAtScan, todo);
      var seen := SomeOf(nodes.Keys - known);
      todo' := todo - {id} + seen;
      MoreToVisit(m, Net(), count, flopsRemoved != flopsAtScan, todo - {id}, todo');
      NoneAdded(nodes.Keys, known, todo, seen, id);
    }

    /** Any of the nodes that were just added, or none */
    static method SomeOf(added: set<nat>) returns (seen: set<nat>)
      ensures seen <= added
    {
      seen := *;
      seen := seen * added;
    }

    /**
     * The do-while of cprop: scan until a scan counts nothing. If that last scan removed no flip-flop either, there is
     * nothing left to rewrite. If no scan removed one, then it has been a run of rewrites, which keeps the meaning
     * exactly when all targets are safe, unless the result has no solution at all, and which fills all gaps. The
     * flip-flops that feed themselves and are not controlled are gone, and no others.
     */
    method Propagate() returns (scans: nat)
      requires Valid()
      modifies this
      ensures Valid() && Widened(old(Net()), Net()) && old(flopsRemoved) <= flopsAtScan <= flopsRemoved
      ensures scans <= Potential(old(Net())) + 1 && (scans > 1 ==> flopsRemoved == flopsAtScan)
      ensures flopsRemoved == flopsAtScan ==> NothingLeft(Net()) && forall id :: id in nodes ==> !Eligible(Net(), id)
      ensures flopsRemoved == old(flopsRemoved) ==> Reaches(old(Net()), Net())
      ensures flopsRemoved == old(flopsRemoved) ==> KeptIfSafe(old(Net()), Net()) && GapsFilled(old(Net()), Net())
      ensures flopsRemoved > old(flopsRemoved) <==> exists id :: SelfFed(old(Net()), id)
      ensures forall id :: id in nodes && nodes[id].FF? <==>
                && id in old(nodes) && old(nodes)[id].FF?
                && !(old(nodes)[id].dataPin == old(nodes)[id].out && !old(nodes)[id].controlled)
      ensures forall id :: id in nodes && nodes[id].FF? ==> nodes[id] == old(nodes)[id]
    {
      ghost var m := Net();
      scans := ScanUntilDone();
      FlopsSpelledOut(m, Net());
      if flopsRemoved == flopsAtScan {
        NoneEligible(Net());
      }
      if flopsRemoved == old(flopsRemoved) {
        ReachedIsKept(m, Net());
      }
    }

    /** The loop itself */
    method ScanUntilDone() returns (scans: nat)
      requires Valid()
      modifies this
      ensures Valid() && old(flopsRemoved) <= flopsAtScan <= flopsRemoved && scans <= Potential(old(Net())) + 1
      ensures Propagated(old(Net()), Net(), flopsRemoved > old(flopsRemoved))
      ensures scans > 1 ==> flopsRemoved == flopsAtScan
      ensures flopsRemoved == flopsAtScan ==> forall id :: id in nodes ==> !Eligible(Net(), id)
    {
      ghost var m := Net();
      count := 0;
      Scan();
      scans := 1;
      while count > 0
        invariant Valid() && old(flopsRemoved) <= flopsAtScan <= flopsRemoved
        invariant scans - 1 + Potential(Net()) + (if count > 0 then 1 else 0) <= Potential(m)
        invariant Propagated(m, Net(), flopsRemoved > old(flopsRemoved))
        invariant scans > 1 ==> flopsRemoved == flopsAtScan
        invariant count == 0 && flopsRemoved == flopsAtScan ==> forall id :: id in nodes ==> !Eligible(Net(), id)
        decreases Potential(Net()) + count
      {
        ghost var before, removed := Net(), flopsRemoved;
        count := 0;
        Scan();
        scans := scans + 1;
        PropagatedTwice(m, before, Net(), removed > old(flopsRemoved), flopsRemoved > removed);
      }
    }

    // --------------------------------------------------- the final sweep

    /** cprop_dc_functor::lpm_const */
    method LpmConst(id: nat)
      requires Valid() && id in nodes && nodes[id].Const?
      modifies `nodes
      ensures Valid()
      ensures Sweepable(old(Net()), id) ==> Swept(old(Net()), Net(), id)
      ensures !Sweepable(old(Net()), id) ==> nodes == old(nodes)
      ensures id !in nodes <==> Unused(old(Net()), id)
    {
      var obj := nodes[id];
      ghost var m := Net();
      SweepableExactly(m, id);
      assert WellFormedNode(m, obj);
      var noop := AllZ(obj.value);
      if noop {
        nodes := nodes - {id};
        SweptKeepsObservers(m, Net(), id);
        return;
      }
      if HasInput(Netlist(nodes, nexa), obj.out) {
        return;
      }
      var seen := AnySeen(nexa[obj.out].nets);
      if seen {
        return;
      }
      nodes := nodes - {id};
      SweptKeepsObservers(m, Net(), id);
    }

    /** The count of the z bits of a constant */
    static method AllZ(value: Vec) returns (noop: bool)
      ensures noop <==> AllHighZ(value)
    {
      var tmp := 0;
      for idx := 0 to |value|
        invariant tmp <= idx
        invariant tmp == idx <==> AllHighZ(value[..idx])
      {
        assert value[..idx + 1] == value[..idx] + [value[idx]];
        if value[idx] == BZ {
          tmp := tmp + 1;
        }
      }
      assert value[..|value|] == value;
      return tmp == |value|;
    }

    /** The search for a signal that makes a constant worth keeping */
    static method AnySeen(nets: seq<Net>) returns (seen: bool)
      ensures seen <==> exists k :: 0 <= k < |nets| && VisibleNet(nets[k])
    {
      for idx := 0 to |nets|
        invariant forall k :: 0 <= k < idx ==> !VisibleNet(nets[k])
      {
        if !nets[idx].local {
          return true;
        }
        if nets[idx].erefs > 0 {
          return true;
        }
        if nets[idx].port != NotAPort && nets[idx].inRoot {
          return true;
        }
      }
      return false;
    }

    /** The second scan of cprop: exactly the constants that nobody sees, or that drive nothing, go. */
    method Sweep()
      requires Valid()
      modifies `nodes
      ensures Valid() && Observable(Net()) == Observable(old(Net()))
      ensures SameMeaning(old(Net()), Net(), Observable(Net()))
      ensures forall id :: id in nodes <==> id in old(nodes) && !Sweepable(old(Net()), id)
      ensures forall id :: id in nodes ==> nodes[id] == old(nodes)[id]
      ensures forall id :: id in nodes <==> id in old(nodes) && !Unused(old(Net()), id)
      ensures SeenIsKept(old(Net()), Net())
    {
      ghost var m := Net();
      var todo := nodes.Keys;
      SameMeaningReflexive(m);
      SameMeaningNarrow(m, m, m.nexa.Keys, Observable(m));
      while todo != {}
        invariant Valid() && todo <= nodes.Keys
        invariant PartlySwept(m, Net(), todo)
        decreases |todo|
      {
        todo := SweepNext(m, todo);
      }
      forall id: nat
        ensures Sweepable(m, id) <==> Unused(m, id)
      {
        SweepableExactly(m, id);
      }
      SameMeaningNarrow(m, Net(), Observable(m), m.nexa.Keys * Observable(m));
      ObservableIsSeen(m, Net());
    }

    /** One round of the sweep */
    method SweepNext(ghost m: Netlist, todo: set<nat>) returns (todo': set<nat>)
      requires Valid() && todo != {} && todo <= nodes.Keys && PartlySwept(m, Net(), todo)
      modifies `nodes
      ensures Valid() && todo' <= nodes.Keys && |todo'| < |todo| && PartlySwept(m, Net(), todo')
    {
      var id :| id in todo;
      ghost var before := Net();
      if nodes[id].Const? {
        LpmConst(id);
      }
      SweepVisit(m, before, Net(), id, todo);
      todo' := todo - {id};
    }

    /** The sweep of a design that has come from m */
    method SweepAfter(ghost m: Netlist)
      requires Valid() && Widened(m, Net())
      modifies `nodes
      ensures Valid() && Widened(m, Net()) && NoneDangles(m, Net())
      ensures SameMeaning(old(Net()), Net(), Observable(Net()))
    {
      ghost var before := Net();
      Sweep();
      SweptClean(m, before, Net());
    }

    /**
     * The whole pass. Over safe targets, and unless a flip-flop was removed, every nexus that existed
     * before and can still be seen afterwards has exactly the solution values it had.
     */
    method Run() returns (scans: nat)
      requires Valid()
      modifies this
      ensures Valid() && scans <= Potential(old(Net())) + 1
      ensures SafeTargets(old(Net())) && flopsRemoved == old(flopsRemoved) ==>
                SameMeaning(old(Net()), Net(), old(nexa.Keys) * Observable(Net())) && SeenIsKept(old(Net()), Net())
      ensures flopsRemoved > old(flopsRemoved) <==> exists id :: SelfFed(old(Net()), id)
      ensures Widened(old(Net()), Net()) && NoneDangles(old(Net()), Net())
    {
      ghost var m := Net();
      scans := Propagate();
      ghost var before := Net();
      SweepAfter(m);
      if SafeTargets(m) && flopsRemoved == old(flopsRemoved) {
        KeptThrough(m, before, Net());
      }
    }
  }

  lemma KeptThrough(m: Netlist, before: Netlist, n: Netlist)
    requires SameMeaning(m, before, m.nexa.Keys) && SameMeaning(before, n, Observable(n)) && Widened(m, n)
    ensures SameMeaning(m, n, m.nexa.Keys * Observable(n)) && SeenIsKept(m, n)
  {
    SameMeaningTransitive(m, before, n, m.nexa.Keys, Observable(n), m.nexa.Keys * Observable(n));
    ObservableIsSeen(m, n);
  }

  method FitsOneAfterTheOther(ps: seq<Node>, w: nat) returns (ok: bool)
    requires SortedByBase(ps) && ps != [] && forall k :: 0 <= k < |ps| ==> ps[k].width > 0
    ensures ok <==> Tiled(ps, 0, w)
  {
    var idx := 1;
    while idx < |ps|
      invariant 1 <= idx <= |ps|
      invariant forall k :: 0 < k < idx ==> ps[k - 1].base + ps[k - 1].width <= ps[k].base
    {
      var top := ps[idx - 1].base + ps[idx - 1].width;
      if top > ps[idx].base {
        if Tiled(ps, 0, w) {
          TiledDisjoint(ps, 0, w, idx - 1, idx);
        }
        return false;
      }
      idx := idx + 1;
    }
    var back := ps[|ps| - 1];
    if back.base + back.width > w {
      if Tiled(ps, 0, w) {
        TiledRange(ps, 0, w);
      }
      return false;
    }
    AdjacentIsTiled(ps, 0, w);
    return true;
  }

  /** Of the constants of m, those still to be visited and those that are not sweepable are left in n. */
  ghost predicate PartlySwept(m: Netlist, n: Netlist, todo: set<nat>) {
    && Observable(n) == Observable(m) && SameMeaning(m, n, Observable(m)) && n.nexa == m.nexa
    && (forall id :: id in n.nodes <==> id in m.nodes && (id in todo || !Sweepable(m, id)))
    && (forall id :: id in n.nodes ==> n.nodes[id] == m.nodes[id])
  }

  lemma SweepVisit(m: Netlist, before: Netlist, n: Netlist, id: nat, todo: set<nat>)
    requires WellFormed(before) && PartlySwept(m, before, todo) && id in todo && id in before.nodes
    requires Sweepable(before, id) ==> Swept(before, n, id)
    requires !Sweepable(before, id) ==> n == before
    ensures PartlySwept(m, n, todo - {id})
  {
    assert Sweepable(before, id) <==> Sweepable(m, id);
    if Sweepable(before, id) {
      SweptSound(before, n, id);
      SameMeaningTransitive(m, before, n, Observable(m), Observable(before), Observable(m));
    }
  }

  lemma FlopStep(m: Netlist, n: Netlist, id: nat)
    requires WellFormed(m) && id in m.nodes && m.nodes[id].FF? && n.nexa == m.nexa && n.nodes == m.nodes - {id}
    ensures Potential(n) == Potential(m)
  {
    assert PartIds(n) == PartIds(m);
    assert ConcatIds(n) == ConcatIds(m);
    assert MuxIds(n) == MuxIds(m);
  }

  /** A scan that started at m has come to n, with so many rewrites counted, and has these nodes still to visit. */
  ghost predicate Scanned(m: Netlist, n: Netlist, count: nat, removed: bool, todo: set<nat>) {
    && Widened(m, n) && FlopsLeft(m, n, todo)
    && count + Potential(n) <= Potential(m)
    && (if removed then exists id :: SelfFed(m, id) else Reaches(m, n) && SameFlops(m, n))
    && (count == 0 && !removed ==> n == m && forall id :: id in m.nodes && id !in todo ==> !Eligible(m, id))
  }

  /** One or more whole scans have led from m to n. They have removed flip-flops if there were such to remove. */
  ghost predicate Propagated(m: Netlist, n: Netlist, removed: bool) {
    && Widened(m, n) && FlopsLeft(m, n, {})
    && (removed <==> exists id :: SelfFed(m, id))
    && (!removed ==> Reaches(m, n))
  }

  lemma PropagatedTwice(a: Netlist, b: Netlist, c: Netlist, first: bool, second: bool)
    requires Propagated(a, b, first) && Propagated(b, c, second)
    ensures Propagated(a, c, first || second) && !second
  {
    WidenedTwice(a, b, c);
    FlopsLeftTwice(a, b, c);
    if !first {
      ReachesTransitive(a, b, c);
    }
  }

  lemma FlopsSpelledOut(m: Netlist, n: Netlist)
    requires FlopsLeft(m, n, {})
    ensures forall id :: id in n.nodes && n.nodes[id].FF? <==>
              && id in m.nodes && m.nodes[id].FF?
              && !(m.nodes[id].dataPin == m.nodes[id].out && !m.nodes[id].controlled)
    ensures forall id :: id in n.nodes && n.nodes[id].FF? ==> n.nodes[id] == m.nodes[id]
  {
    forall id: nat
      ensures IsFlop(n, id) <==> IsFlop(m, id) && !SelfFed(m, id)
    {
      assert !SelfFed(n, id);
    }
  }

  lemma NoneAdded(now: set<nat>, known: set<nat>, todo: set<nat>, seen: set<nat>, id: nat)
    requires seen <= now - known && id in todo
    ensures now <= known ==> |todo - {id} + seen| < |todo|
  {
    if now <= known {
      assert todo - {id} + seen == todo - {id};
    }
  }

  lemma MoreToVisit(m: Netlist, n: Netlist, count: nat, removed: bool, todo: set<nat>, todo': set<nat>)
    requires Scanned(m, n, count, removed, todo) && todo <= todo'
    ensures Scanned(m, n, count, removed, todo')
  {
  }

  /** The meaning of m is kept when all its targets are safe; and only then, if n has a solution. */
  ghost predicate KeptIfSafe(m: Netlist, n: Netlist) {
    && (SafeTargets(m) ==> SameMeaning(m, n, m.nexa.Keys))
    && forall beh: Behaviour, w: Valuation :: Solution(n, beh, w) && SameMeaning(m, n, m.nexa.Keys) ==> SafeTargets(m)
  }

  lemma ReachedIsKept(m: Netlist, n: Netlist)
    requires WellFormed(m) && Reaches(m, n) && forall id :: id in n.nodes ==> !Eligible(n, id)
    ensures KeptIfSafe(m, n) && GapsFilled(m, n)
  {
    var ns :| Run(ns) && ns[0] == m && ns[|ns| - 1] == n;
    RunProgress(ns);
    NoneEligible(n);
    RunFills(ns);
    if SafeTargets(m) {
      RunSound(ns);
    }
    forall beh: Behaviour, w: Valuation | Solution(n, beh, w) && SameMeaning(m, n, m.nexa.Keys)
      ensures SafeTargets(m)
    {
      RunExact(ns, beh, w);
    }
  }

  lemma NoneEligible(n: Netlist)
    requires WellFormed(n) && forall id :: id in n.nodes ==> !Eligible(n, id)
    ensures NothingToMerge(n) && NothingLeft(n)
  {
    forall x
      ensures !Mergeable(n, x) && !PartsToMerge(n, x)
    {
      MergeableExactly(n, x);
      if id :| id in Drivers(n, x) {
        assert !Eligible(n, id);
      }
    }
    forall id: nat
      ensures !ConcatToFold(n, id) && !MuxToReduce(n, id)
    {
      FoldableExactly(n, id);
      ReducibleExactly(n, id);
    }
  }

  /** A scan of a design without a flip-flop that feeds itself removes none, and any other removes one. */
  lemma NoFlopRemoved(m: Netlist, n: Netlist)
    requires FlopsLeft(m, n, {})
    ensures SameFlops(m, n) ==> forall id :: !SelfFed(m, id)
  {
    forall id | IsFlop(m, id) && IsFlop(n, id)
      ensures !SelfFed(n, id)
    {
    }
  }

  /** What one visit does to a scan. */
  lemma ScanStep(m: Netlist, before: Netlist, n: Netlist, id: nat, count: nat, removed: bool, todo: set<nat>)
    requires WellFormed(before) && id in before.nodes && Scanned(m, before, count, removed, todo)
    requires Eligible(before, id) ==> Rewrite(before, n)
    requires !Eligible(before, id) ==> n.nexa == before.nexa
    requires !Eligible(before, id) ==> n.nodes == if SelfFed(before, id) then before.nodes - {id} else before.nodes
    ensures Eligible(before, id) ==> Potential(n) < Potential(before)
    ensures !Eligible(before, id) ==> Potential(n) == Potential(before)
    ensures Scanned(m, n, if Eligible(before, id) then count + 1 else count, removed || SelfFed(before, id),
                    todo - {id})
  {
    if Eligible(before, id) {
      RewriteStep(m, before, n, id, count, removed, todo);
    } else if SelfFed(before, id) {
      FlopVisited(m, before, n, id, count, removed, todo);
    } else {
      assert n == before;
      NothingVisited(m, n, id, count, removed, todo);
    }
  }

  lemma FlopVisited(m: Netlist, before: Netlist, n: Netlist, id: nat, count: nat, removed: bool, todo: set<nat>)
    requires WellFormed(before) && Scanned(m, before, count, removed, todo) && SelfFed(before, id)
    requires n.nexa == before.nexa && n.nodes == before.nodes - {id}
    ensures Potential(n) == Potential(before) && Scanned(m, n, count, true, todo - {id})
  {
    FlopStep(before, n, id);
    FlopGone(m, before, n, id, todo);
  }

  lemma NothingVisited(m: Netlist, n: Netlist, id: nat, count: nat, removed: bool, todo: set<nat>)
    requires Scanned(m, n, count, removed, todo) && !Eligible(n, id) && !SelfFed(n, id)
    ensures Scanned(m, n, count, removed, todo - {id})
  {
  }

  lemma RewriteStep(m: Netlist, before: Netlist, n: Netlist, id: nat, count: nat, removed: bool, todo: set<nat>)
    requires WellFormed(before) && Scanned(m, before, count, removed, todo) && Rewrite(before, n)
    requires !SelfFed(before, id)
    ensures Potential(n) < Potential(before) && Scanned(m, n, count + 1, removed, todo - {id})
  {
    RewriteProgress(before, n);
    RewriteFrame(before, n);
    WidenedTwice(m, before, n);
    FlopsStay(m, before, n, id, todo);
    if !removed {
      ReachesOneMore(m, before, n);
    }
  }

  /** A node that is gone need not be visited. */
  lemma NotThere(m: Netlist, n: Netlist, count: nat, removed: bool, todo: set<nat>, id: nat)
    requires Scanned(m, n, count, removed, todo) && id !in n.nodes
    ensures Scanned(m, n, count, removed, todo - {id})
  {
    assert !SelfFed(n, id);
  }

  lemma FlopsStay(m: Netlist, before: Netlist, n: Netlist, id: nat, todo: set<nat>)
    requires FlopsLeft(m, before, todo) && SameFlops(before, n) && !SelfFed(before, id)
    ensures FlopsLeft(m, n, todo - {id}) && (SameFlops(m, before) ==> SameFlops(m, n))
  {
    forall k
      ensures IsFlop(before, k) <==> IsFlop(n, k)
      ensures SelfFed(before, k) <==> SelfFed(n, k)
    {
    }
  }

  lemma FlopGone(m: Netlist, before: Netlist, n: Netlist, id: nat, todo: set<nat>)
    requires FlopsLeft(m, before, todo) && SelfFed(before, id) && n.nodes == before.nodes - {id}
    ensures FlopsLeft(m, n, todo - {id}) && SelfFed(m, id)
  {
    assert IsFlop(before, id);
    forall k
      ensures IsFlop(n, k) <==> IsFlop(before, k) && k != id
      ensures SelfFed(n, k) ==> SelfFed(before, k)
    {
    }
  }

  lemma ListedPartsOnNexa(m: Netlist, x: nat, ids: seq<nat>, ps: seq<Node>)
    requires WellFormed(m) && PartList(m, x, ids, ps)
    ensures PartsOnNexa(m, ps)
  {
  }

  ghost predicate PinsBuilt(m: Netlist, n: Netlist, fill: Bit, pins: seq<nat>, pieces: seq<Piece>) {
    exists gaps :: Built(m, n, fill, gaps, pins, |pins|, pieces)
  }

  /** Deleting the parts and adding the concatenation completes the merge. */
  lemma FinishMerge(m: Netlist, grown: Netlist, n: Netlist, x: nat, ids: seq<nat>, ps: seq<Node>, fill: Bit,
                    pins: seq<nat>, c: nat)
    requires WellFormed(m) && Mergeable(m, x) && PartList(m, x, ids, ps) && Tiled(ps, 0, Width(m, x))
    requires PinsBuilt(m, grown, fill, pins, Pieces(ps, 0, Width(m, x)))
    requires c !in grown.nodes && n.nexa == grown.nexa
    requires n.nodes == (grown.nodes - (set k | 0 <= k < |ids| :: ids[k]))[c := Concat(x, pins, Width(m, x), false)]
    requires fill == FillOf(m.nexa[x])
    ensures WellFormed(n) && MergeStep(m, n)
  {
    var gaps :| Built(m, grown, fill, gaps, pins, |pins|, Pieces(ps, 0, Width(m, x)));
    BuiltIsMerged(m, grown, n, x, ids, ps, fill, pins, c, gaps);
    MergedWellFormed(m, n, x, fill, c, gaps);
  }

  lemma BuiltNodes(m: Netlist, grown: Netlist, n: Netlist, x: nat, fill: Bit, pins: seq<nat>, c: nat,
                   gaps: map<nat, nat>)
    requires Drivers(m, x) <= m.nodes.Keys && x in m.nexa
    requires Grown(m, grown, fill, gaps) && c !in grown.nodes && n.nexa == grown.nexa
    requires n.nodes == (grown.nodes - Drivers(m, x))[c := Concat(x, pins, Width(m, x), false)]
    ensures MergedNodes(m, n, x, fill, c, gaps)
  {
    BuiltKeys(m.nodes.Keys, gaps.Keys, Drivers(m, x), c);
    BuiltGaps(m, grown, n, x, fill, pins, c, gaps);
    BuiltKept(m, grown, n, x, pins, c);
  }

  lemma BuiltGaps(m: Netlist, grown: Netlist, n: Netlist, x: nat, fill: Bit, pins: seq<nat>, c: nat,
                  gaps: map<nat, nat>)
    requires Drivers(m, x) <= m.nodes.Keys && n.nexa == grown.nexa && c !in grown.nodes
    requires GrownNodes(m, grown, fill, gaps) && NewGaps(m, gaps)
    requires n.nodes == (grown.nodes - Drivers(m, x))[c := Concat(x, pins, Width(m, x), false)]
    ensures forall k :: k in gaps ==> k in n.nodes && n.nodes[k] == Const(gaps[k], Rep(fill, Width(n, gaps[k])))
  {
    forall k | k in gaps
      ensures k in n.nodes && n.nodes[k] == Const(gaps[k], Rep(fill, Width(n, gaps[k])))
    {
      assert k !in m.nodes && k in grown.nodes && Width(n, gaps[k]) == Width(grown, gaps[k]);
    }
  }

  lemma BuiltKept(m: Netlist, grown: Netlist, n: Netlist, x: nat, pins: seq<nat>, c: nat)
    requires (forall k :: k in m.nodes ==> k in grown.nodes && grown.nodes[k] == m.nodes[k]) && c !in grown.nodes
    requires n.nodes == (grown.nodes - Drivers(m, x))[c := Concat(x, pins, Width(m, x), false)]
    ensures forall k :: k in m.nodes && m.nodes[k].out != x ==> k in n.nodes && n.nodes[k] == m.nodes[k]
  {
  }

  lemma BuiltKeys(there: set<nat>, added: set<nat>, gone: set<nat>, c: nat)
    requires gone <= there && added !! there
    ensures there + added - gone + {c} == there - gone + {c} + added
  {
  }

  lemma BuiltNames(m: Netlist, grown: Netlist, fill: Bit, c: nat, gaps: map<nat, nat>)
    requires Grown(m, grown, fill, gaps) && c !in grown.nodes
    ensures NewNames(m, c, gaps)
  {
  }

  lemma ListedAreDrivers(m: Netlist, x: nat, ids: seq<nat>, ps: seq<Node>)
    requires PartList(m, x, ids, ps)
    ensures (set k | 0 <= k < |ids| :: ids[k]) == Drivers(m, x) && Drivers(m, x) <= m.nodes.Keys
  {
  }

  lemma BuiltIsMerged(m: Netlist, grown: Netlist, n: Netlist, x: nat, ids: seq<nat>, ps: seq<Node>, fill: Bit,
                      pins: seq<nat>, c: nat, gaps: map<nat, nat>)
    requires WellFormed(m) && Mergeable(m, x) && PartList(m, x, ids, ps) && Tiled(ps, 0, Width(m, x))
    requires Built(m, grown, fill, gaps, pins, |pins|, Pieces(ps, 0, Width(m, x)))
    requires c !in grown.nodes && n.nexa == grown.nexa
    requires n.nodes == (grown.nodes - (set k | 0 <= k < |ids| :: ids[k]))[c := Concat(x, pins, Width(m, x), false)]
    ensures Merged(m, n, x, fill, c, gaps)
  {
    ListedAreDrivers(m, x, ids, ps);
    BuiltNodes(m, grown, n, x, fill, pins, c, gaps);
    BuiltNames(m, grown, fill, c, gaps);
    forall k | 0 <= k < |pins|
      ensures Carries(n, pins[k], Pieces(ps, 0, Width(m, x))[k], gaps.Values)
    {
      assert Carries(grown, pins[k], Pieces(ps, 0, Width(m, x))[k], gaps.Values);
    }
    CarriedPins(m, n, x, ids, ps, fill, pins, gaps);
  }

  lemma EmptyBuilt(m: Netlist, fill: Bit, pins: seq<nat>, pieces: seq<Piece>)
    requires |pins| == |pieces|
    ensures Built(m, m, fill, map[], pins, 0, pieces)
  {
  }

  ghost predicate PartsOnNexa(m: Netlist, ps: seq<Node>) {
    forall k :: 0 <= k < |ps| ==> ps[k].PartPV? && ps[k].inp in m.nexa && Width(m, ps[k].inp) == ps[k].width
  }

  /** The first pins carry the first pieces, with the gap constants added so far. */
  ghost predicate Built(m: Netlist, n: Netlist, fill: Bit, gaps: map<nat, nat>, pins: seq<nat>, concatPin: nat,
                        pieces: seq<Piece>) {
    && Grown(m, n, fill, gaps)
    && concatPin <= |pins| == |pieces|
    && forall k :: 0 <= k < concatPin ==> Carries(n, pins[k], pieces[k], gaps.Values)
  }

  /** The loop has connected the first idx parts and the gaps before them. */
  ghost predicate Connected(m: Netlist, n: Netlist, ps: seq<Node>, sigWidth: nat, fill: Bit, idx: nat, pins: seq<nat>,
                            concatPin: nat, off: nat, gaps: map<nat, nat>)
    requires Tiled(ps, 0, sigWidth) && idx <= |ps|
  {
    && (forall k :: 0 <= k < |ps| ==> ps[k].PartPV?)
    && off == OffsetBefore(ps, idx) && concatPin == PiecesBefore(ps, idx)
    && Built(m, n, fill, gaps, pins, concatPin, Pieces(ps, 0, sigWidth))
  }

  lemma PartPin(m: Netlist, n: Netlist, fill: Bit, gaps: map<nat, nat>, pins: seq<nat>, concatPin: nat,
                pieces: seq<Piece>, source: nat, size: nat)
    requires Built(m, n, fill, gaps, pins, concatPin, pieces) && concatPin < |pins|
    requires pieces[concatPin] == Part(source, size) && source in m.nexa && Width(m, source) == size
    ensures Built(m, n, fill, gaps, pins[concatPin := source], concatPin + 1, pieces)
  {
  }

  lemma ValuesWithOneMore(gaps: map<nat, nat>, id: nat, g: nat)
    requires id !in gaps
    ensures gaps[id := g].Values == gaps.Values + {g}
  {
    var gaps' := gaps[id := g];
    forall x
      ensures x in gaps'.Values <==> x in gaps.Values + {g}
    {
      if x in gaps.Values {
        var k :| k in gaps && gaps[k] == x;
        assert gaps'[k] == x;
      }
      assert gaps'[id] == g;
    }
  }

  /** One more gap constant on one more nexus. */
  lemma GrownByOne(m: Netlist, before: Netlist, n: Netlist, fill: Bit, gaps: map<nat, nat>, id: nat, g: nat, w: nat)
    requires Grown(m, before, fill, gaps) && id !in before.nodes && g !in before.nexa
    requires n.nodes == before.nodes[id := Const(g, Rep(fill, w))] && n.nexa == before.nexa[g := GapNexus(w)]
    ensures Grown(m, n, fill, gaps[id := g]) && gaps.Values <= gaps[id := g].Values && g in gaps[id := g].Values
    ensures Width(n, g) == w
  {
    ValuesWithOneMore(gaps, id, g);
    NexaByOne(m, before, n, gaps, id, g, w);
    NodesByOne(m, before, n, fill, gaps, id, g, w);
    NewGapsByOne(m, gaps, id, g);
  }

  /** A pin on a new constant carries the gap that is due. */
  lemma GapPin(m: Netlist, before: Netlist, n: Netlist, fill: Bit, gaps: map<nat, nat>, pins: seq<nat>, concatPin: nat,
               pieces: seq<Piece>, id: nat, g: nat, w: nat)
    requires Built(m, before, fill, gaps, pins, concatPin, pieces) && concatPin < |pins| && pieces[concatPin] == Gap(w)
    requires id !in before.nodes && g !in before.nexa
    requires n.nodes == before.nodes[id := Const(g, Rep(fill, w))] && n.nexa == before.nexa[g := GapNexus(w)]
    ensures Built(m, n, fill, gaps[id := g], pins[concatPin := g], concatPin + 1, pieces)
  {
    GrownByOne(m, before, n, fill, gaps, id, g, w);
    CarriesKept(before, n, pins, concatPin, pieces, gaps.Values, gaps[id := g].Values);
  }

  lemma NewGapsByOne(m: Netlist, gaps: map<nat, nat>, id: nat, g: nat)
    requires NewGaps(m, gaps) && id !in gaps && id !in m.nodes && g !in m.nexa && g !in gaps.Values
    ensures NewGaps(m, gaps[id := g])
  {
  }

  lemma NodesByOne(m: Netlist, before: Netlist, n: Netlist, fill: Bit, gaps: map<nat, nat>, id: nat, g: nat, w: nat)
    requires GrownNodes(m, before, fill, gaps) && id !in before.nodes
    requires n.nodes == before.nodes[id := Const(g, Rep(fill, w))] && Width(n, g) == w
    requires forall x :: x in before.nexa ==> Width(n, x) == Width(before, x)
    requires forall k :: k in gaps ==> gaps[k] in before.nexa
    ensures GrownNodes(m, n, fill, gaps[id := g])
  {
  }

  lemma NexaByOne(m: Netlist, before: Netlist, n: Netlist, gaps: map<nat, nat>, id: nat, g: nat, w: nat)
    requires MergedNexa(m, before, gaps) && id !in gaps && g !in before.nexa
    requires n.nexa == before.nexa[g := GapNexus(w)]
    ensures MergedNexa(m, n, gaps[id := g]) && Width(n, g) == w
    ensures g !in m.nexa && g !in gaps.Values && forall k :: k in gaps ==> gaps[k] in before.nexa
    ensures forall x :: x in before.nexa ==> Width(n, x) == Width(before, x)
  {
    ValuesWithOneMore(gaps, id, g);
    forall k | k in gaps
      ensures gaps[k] in before.nexa && gaps[k] != g && n.nexa[gaps[k]] == before.nexa[gaps[k]]
    {
      assert gaps[k] in gaps.Values;
    }
  }

  lemma CarriesKept(before: Netlist, n: Netlist, pins: seq<nat>, upTo: nat, pieces: seq<Piece>, s: set<nat>,
                    t: set<nat>)
    requires before.nexa.Keys <= n.nexa.Keys && (forall x :: x in before.nexa ==> n.nexa[x] == before.nexa[x]) && s <= t
    requires upTo <= |pins| && upTo <= |pieces|
    requires forall k :: 0 <= k < upTo ==> Carries(before, pins[k], pieces[k], s)
    ensures forall k :: 0 <= k < upTo ==> Carries(n, pins[k], pieces[k], t)
  {
  }

  /** The loop that counts how many inputs the concatenation needs. */
  method CountPieces(ps: seq<Node>, sigWidth: nat) returns (partCount: nat)
    requires Tiled(ps, 0, sigWidth)
    ensures partCount == |Pieces(ps, 0, sigWidth)|
  {
    TiledRange(ps, 0, sigWidth);
    partCount := 0;
    var off: nat := 0;
    for idx := 0 to |ps|
      invariant off == OffsetBefore(ps, idx) && partCount == PiecesBefore(ps, idx)
    {
      PieceOfPart(ps, idx, sigWidth);
      if ps[idx].base > off {
        off := ps[idx].base;
        partCount := partCount + 1;
      }
      off := off + ps[idx].width;
      partCount := partCount + 1;
    }
    PieceOfTail(ps, sigWidth);
    if off < sigWidth {
      partCount := partCount + 1;
    }
  }

  /** The first pins' constants are in place, off bits of them, and the rest of the result is still z. */
  ghost predicate Folded(m: Netlist, ins: seq<nat>, width: nat, result: Vec, off: nat)
    requires ConstantPins(m, ins)
  {
    && off == |DrivenCat(m, ins)| <= width
    && result == DrivenCat(m, ins) + Rep(BZ, width - off)
  }

  lemma FoldPin(m: Netlist, ins: seq<nat>, idx: nat, width: nat, result: Vec, off: nat)
    requires WellFormed(m) && idx < |ins| && TotalWidth(m, ins) <= width
    requires ConstantPins(m, ins[..idx]) && ins[idx] in m.nexa && DriversConstant(m, ins[idx])
    requires Folded(m, ins[..idx], width, result, off)
    ensures ConstantPins(m, ins[..idx + 1])
    ensures var tmp := DrivenVector(m, ins[idx]);
            && off + |tmp| <= |result| == width
            && Folded(m, ins[..idx + 1], width, result[..off] + tmp + result[off + |tmp|..], off + |tmp|)
  {
    var nex := ins[idx];
    var tmp := DrivenVector(m, nex);
    var before := DrivenCat(m, ins[..idx]);
    assert ins[..idx + 1] == ins[..idx] + [nex];
    DrivenCatAppend(m, ins[..idx], nex);
    DrivenCatLength(m, ins[..idx + 1]);
    TotalWidthPrefix(m, ins, idx + 1);
    assert result[..off] == before;
    assert result[off + |tmp|..] == Rep(BZ, width - off - |tmp|);
  }

  lemma {:induction false} TotalWidthPrefix(m: Netlist, ins: seq<nat>, k: nat)
    requires k <= |ins|
    ensures TotalWidth(m, ins[..k]) <= TotalWidth(m, ins)
  {
    if k == 0 {
    } else {
      assert ins[..k][1..] == ins[1..][..k - 1];
      TotalWidthPrefix(m, ins[1..], k - 1);
    }
  }
}
