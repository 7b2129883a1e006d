/**
 * The netlist that constant propagation works on: nodes whose pins are joined by nexuses, and
 * what such a netlist means, namely the set of values of all nexuses that satisfy every node.
 * Loops through nodes are allowed: a netlist may have no solution, one, or many.
 */
module Netlist {
  import opened FourState

  datatype PortType = NotAPort | PInput | POutput | PInout

  /** A signal (NetNet) attached to a nexus. */
  datatype Net = Net(width: nat, twoState: bool, local: bool, erefs: nat, lrefs: nat, port: PortType, inRoot: bool)

  datatype Nexus = Nexus(nets: seq<Net>, tran: bool)

  /**
   * A node drives exactly one nexus, `out`. Pull is the implicit driver that a supply or tri0/tri1
   * net is; FF and Other stand for one output of a device whose behaviour is not looked at, named by tag.
   */
  datatype Node =
    | Const(out: nat, value: Vec)
    | Pull(out: nat, value: Vec)
    | Concat(out: nat, ins: seq<nat>, width: nat, transparent: bool)
    | Mux(out: nat, sel: nat, data: seq<nat>, width: nat, selWidth: nat)
    | BufZ(out: nat, inp: nat, width: nat)
    | PartPV(out: nat, inp: nat, base: nat, width: nat)
    | PartVP(out: nat, inp: nat, base: nat, width: nat)
    | FF(out: nat, dataPin: nat, others: seq<nat>, controlled: bool, tag: nat)
    | Other(out: nat, ins: seq<nat>, tag: nat)

  datatype Netlist = Netlist(nodes: map<nat, Node>, nexa: map<nat, Nexus>)

  /** The nexuses that the input pins of a node are on. */
  function Inputs(d: Node): seq<nat> {
    match d
    case Const(_, _) => []
    case Pull(_, _) => []
    case Concat(_, ins, _, _) => ins
    case Mux(_, sel, data, _, _) => [sel] + data
    case BufZ(_, inp, _) => [inp]
    case PartPV(_, inp, _, _) => [inp]
    case PartVP(_, inp, _, _) => [inp]
    case FF(_, data, others, _, _) => [data] + others
    case Other(_, ins, _) => ins
  }

  /** Nexus::vector_width: the width of the first signal found. */
  function VectorWidth(nx: Nexus): nat {
    if nx.nets == [] then 0 else nx.nets[0].width
  }

  predicate TwoState(nx: Nexus) {
    exists k :: 0 <= k < |nx.nets| && nx.nets[k].twoState
  }

  /**
   * A nexus whose value comes from outside the node equations: a target of procedural assignment,
   * an input or inout port of a root module, or one end of a tran.
   */
  predicate Free(nx: Nexus) {
    || nx.tran
    || exists k :: 0 <= k < |nx.nets| &&
         (nx.nets[k].lrefs > 0 || (nx.nets[k].inRoot && (nx.nets[k].port == PInput || nx.nets[k].port == PInout)))
  }

  function Width(n: Netlist, x: nat): nat {
    if x in n.nexa then VectorWidth(n.nexa[x]) else 0
  }

  function TotalWidth(n: Netlist, ins: seq<nat>): nat {
    if ins == [] then 0 else Width(n, ins[0]) + TotalWidth(n, ins[1..])
  }

  /** Widths of the pins of a node fit each other, as elaboration makes them. */
  predicate WellFormedNode(n: Netlist, d: Node) {
    && d.out in n.nexa
    && (forall k :: 0 <= k < |Inputs(d)| ==> Inputs(d)[k] in n.nexa)
    && match d
       case Const(out, value) => |value| == Width(n, out)
       case Pull(out, value) => |value| == Width(n, out)
       case Concat(out, ins, width, _) => width == Width(n, out) && TotalWidth(n, ins) <= width
       case Mux(out, sel, data, width, selWidth) =>
         && width == Width(n, out) && selWidth == Width(n, sel)
         && forall k :: 0 <= k < |data| ==> Width(n, data[k]) == width
       case BufZ(out, inp, width) => width == Width(n, out) == Width(n, inp)
       case PartPV(out, inp, base, width) => width == Width(n, inp) && width > 0
       case PartVP(out, inp, base, width) => width == Width(n, out) && width > 0
       case FF(_, _, _, _, _) => true
       case Other(_, _, _) => true
  }

  predicate WellFormed(n: Netlist) {
    && (forall x :: x in n.nexa ==> n.nexa[x].nets != [])
    && (forall id :: id in n.nodes ==> WellFormedNode(n, n.nodes[id]))
  }

  // ---------------------------------------------------------------- meaning

  /** A value for every nexus. */
  type Valuation = map<nat, Vec>

  /** What the devices that are not looked at do with their inputs. */
  type Behaviour = (nat, seq<Vec>) -> Vec

  function Get(v: Valuation, x: nat): Vec {
    if x in v then v[x] else []
  }

  /** The vectors on a list of pins, the first one least significant. */
  function Cat(v: Valuation, ins: seq<nat>): Vec {
    if ins == [] then [] else Get(v, ins[0]) + Cat(v, ins[1..])
  }

  function Vectors(v: Valuation, ins: seq<nat>): seq<Vec> {
    seq(|ins|, k requires 0 <= k < |ins| => Get(v, ins[k]))
  }

  /** The number a defined select vector denotes. */
  function SelectIndex(s: Vec): int {
    if s == [] then 0
    else if s[0] == B0 then 2 * SelectIndex(s[1..])
    else if s[0] == B1 then 1 + 2 * SelectIndex(s[1..])
    else -1 - |s|
  }

  predicate Defined(s: Vec) {
    forall k :: 0 <= k < |s| ==> s[k] == B0 || s[k] == B1
  }

  /** What node d puts on bit i of the nexus it drives. */
  function DriveBit(d: Node, beh: Behaviour, v: Valuation, i: nat): Bit {
    match d
    case Const(_, value) => At(value, i)
    case Pull(_, value) => At(value, i)
    case Concat(_, ins, _, _) => At(Cat(v, ins), i)
    case Mux(_, sel, data, _, _) =>
      if Defined(Get(v, sel)) then
        var k := SelectIndex(Get(v, sel));
        if 0 <= k < |data| then At(Get(v, data[k]), i) else BX
      else if |data| > 0 && forall k :: 0 <= k < |data| ==> At(Get(v, data[k]), i) == At(Get(v, data[0]), i) then
        At(Get(v, data[0]), i)
      else BX
    case BufZ(_, inp, _) => At(Get(v, inp), i)
    case PartPV(_, inp, base, width) =>
      if base <= i < base + width then At(Get(v, inp), i - base) else BZ
    case PartVP(_, inp, base, width) =>
      if base + i < |Get(v, inp)| then Get(v, inp)[base + i] else BX
    case FF(_, data, others, _, tag) => At(beh(tag, Vectors(v, [data] + others)), i)
    case Other(_, ins, tag) => At(beh(tag, Vectors(v, ins)), i)
  }

  function Drivers(n: Netlist, x: nat): (r: set<nat>)
    ensures forall id :: id in r <==> id in n.nodes && n.nodes[id].out == x
  {
    set id | id in n.nodes && n.nodes[id].out == x
  }

  function DriverBits(n: Netlist, beh: Behaviour, v: Valuation, x: nat, i: nat): set<Bit> {
    set id | id in Drivers(n, x) :: DriveBit(n.nodes[id], beh, v, i)
  }

  /** Valuation v gives nexus x exactly what its drivers resolve to. */
  ghost predicate NexusHolds(n: Netlist, beh: Behaviour, v: Valuation, x: nat)
    requires x in n.nexa
  {
    && x in v && |v[x]| == Width(n, x)
    && (Free(n.nexa[x]) || forall i :: 0 <= i < Width(n, x) ==> v[x][i] == Resolve(DriverBits(n, beh, v, x, i)))
  }

  /** v is a solution of netlist n. */
  ghost predicate Solution(n: Netlist, beh: Behaviour, v: Valuation) {
    && v.Keys == n.nexa.Keys
    && forall x :: x in n.nexa ==> NexusHolds(n, beh, v, x)
  }

  ghost predicate Agree(v: Valuation, w: Valuation, s: set<nat>) {
    forall x :: x in s ==> x in v && x in w && v[x] == w[x]
  }

  ghost predicate Covered(m: Netlist, n: Netlist, beh: Behaviour, v: Valuation, s: set<nat>) {
    exists w :: Solution(n, beh, w) && Agree(v, w, s)
  }

  /** Every solution of m is matched by one of n with the same values on the nexuses in s. */
  ghost predicate Simulates(m: Netlist, n: Netlist, s: set<nat>) {
    forall beh: Behaviour, v: Valuation {:trigger Covered(m, n, beh, v, s)} ::
      Solution(m, beh, v) ==> Covered(m, n, beh, v, s)
  }

  /** Netlists m and n have exactly the same solution values on the nexuses in s, whatever the devices do. */
  ghost predicate SameMeaning(m: Netlist, n: Netlist, s: set<nat>) {
    Simulates(m, n, s) && Simulates(n, m, s)
  }

  lemma SameMeaningReflexive(m: Netlist)
    ensures SameMeaning(m, m, m.nexa.Keys)
  {
  }

  lemma SimulatesTransitive(a: Netlist, b: Netlist, c: Netlist, s: set<nat>, t: set<nat>, u: set<nat>)
    requires Simulates(a, b, s) && Simulates(b, c, t) && u <= s && u <= t
    ensures Simulates(a, c, u)
  {
    forall beh: Behaviour, v: Valuation | Solution(a, beh, v)
      ensures Covered(a, c, beh, v, u)
    {
      assert Covered(a, b, beh, v, s);
      var w :| Solution(b, beh, w) && Agree(v, w, s);
      assert Covered(b, c, beh, w, t);
      var z :| Solution(c, beh, z) && Agree(w, z, t);
      assert Agree(v, z, u);
    }
  }

  lemma SameMeaningTransitive(a: Netlist, b: Netlist, c: Netlist, s: set<nat>, t: set<nat>, u: set<nat>)
    requires SameMeaning(a, b, s) && SameMeaning(b, c, t) && u <= s && u <= t
    ensures SameMeaning(a, c, u)
  {
    SimulatesTransitive(a, b, c, s, t, u);
    SimulatesTransitive(c, b, a, t, s, u);
  }

  // ------------------------------------------------------ constant nexuses

  /** Nexus::drivers_constant, without its cache and without NetSubstitute drivers. */
  predicate DriversConstant(n: Netlist, x: nat)
    requires x in n.nexa
  {
    && !Free(n.nexa[x])
    && (forall id :: id in Drivers(n, x) ==> n.nodes[id].Const? || n.nodes[id].Pull?)
    && (forall a, b :: a in Drivers(n, x) && b in Drivers(n, x) ==> a == b)
  }

  /** Nexus::driven_vector: the value of the only driver, or high impedance when there is none. */
  function DrivenVector(n: Netlist, x: nat): Vec
    requires x in n.nexa && DriversConstant(n, x)
  {
    if Drivers(n, x) == {} then Rep(BZ, Width(n, x))
    else
      var id :| id in Drivers(n, x);
      n.nodes[id].value
  }

  /** The contract that rewriting relies on: a constant nexus has that vector in every solution. */
  lemma ConstantNexus(n: Netlist, beh: Behaviour, v: Valuation, x: nat)
    requires WellFormed(n) && x in n.nexa && NexusHolds(n, beh, v, x) && DriversConstant(n, x)
    ensures v[x] == DrivenVector(n, x)
  {
    var c := DrivenVector(n, x);
    if Drivers(n, x) == {} {
      forall i | 0 <= i < Width(n, x)
        ensures v[x][i] == BZ
      {
        assert DriverBits(n, beh, v, x, i) == {};
      }
      assert v[x] == c;
    } else {
      var id :| id in Drivers(n, x);
      assert n.nodes[id].value == c;
      assert WellFormedNode(n, n.nodes[id]);
      forall i | 0 <= i < Width(n, x)
        ensures v[x][i] == c[i]
      {
        assert Drivers(n, x) == {id};
        assert DriverBits(n, beh, v, x, i) == {c[i]};
      }
      assert v[x] == c;
    }
  }

  // --------------------------------------------------------- small lemmas

  lemma {:induction false} CatAgree(v: Valuation, w: Valuation, ins: seq<nat>)
    requires forall k :: 0 <= k < |ins| ==> Get(v, ins[k]) == Get(w, ins[k])
    ensures Cat(v, ins) == Cat(w, ins)
  {
    if ins == [] {
    } else {
      assert Get(v, ins[0]) == Get(w, ins[0]);
      CatAgree(v, w, ins[1..]);
    }
  }

  /** What a node drives depends on its inputs only. */
  lemma DriveAgree(d: Node, beh: Behaviour, v: Valuation, w: Valuation, i: nat)
    requires forall k :: 0 <= k < |Inputs(d)| ==> Get(v, Inputs(d)[k]) == Get(w, Inputs(d)[k])
    ensures DriveBit(d, beh, v, i) == DriveBit(d, beh, w, i)
  {
    var ins := Inputs(d);
    match d
    case Concat(_, pins, _, _) =>
      CatAgree(v, w, pins);
    case Mux(_, sel, data, _, _) =>
      assert ins[0] == sel && Get(v, ins[0]) == Get(w, ins[0]);
      forall k | 0 <= k < |data|
        ensures Get(v, data[k]) == Get(w, data[k])
      {
        assert ins[k + 1] == data[k];
      }
    case BufZ(_, inp, _) =>
      assert ins[0] == inp;
    case PartPV(_, inp, _, _) =>
      assert ins[0] == inp;
    case PartVP(_, inp, _, _) =>
      assert ins[0] == inp;
    case FF(_, _, _, _, _) =>
      assert Vectors(v, ins) == Vectors(w, ins);
    case Other(_, _, _) =>
      assert Vectors(v, ins) == Vectors(w, ins);
    case _ =>
  }

  /** A node replaced by another that drives the same bits leaves the equations as they were. */
  lemma SwapDriver(m: Netlist, n: Netlist, beh: Behaviour, v: Valuation, id: nat, id': nat)
    requires id in m.nodes && id' !in m.nodes && id' in n.nodes && n.nexa == m.nexa
    requires n.nodes == (m.nodes - {id})[id' := n.nodes[id']]
    requires n.nodes[id'].out == m.nodes[id].out
    requires forall i: nat :: DriveBit(m.nodes[id], beh, v, i) == DriveBit(n.nodes[id'], beh, v, i)
    ensures forall x, i: nat :: DriverBits(m, beh, v, x, i) == DriverBits(n, beh, v, x, i)
    ensures Solution(m, beh, v) <==> Solution(n, beh, v)
  {
    forall x, i: nat
      ensures DriverBits(m, beh, v, x, i) == DriverBits(n, beh, v, x, i)
    {
      forall b | b in DriverBits(m, beh, v, x, i)
        ensures b in DriverBits(n, beh, v, x, i)
      {
        var k :| k in Drivers(m, x) && b == DriveBit(m.nodes[k], beh, v, i);
        var k' := if k == id then id' else k;
        assert k' in Drivers(n, x) && b == DriveBit(n.nodes[k'], beh, v, i);
      }
      forall b | b in DriverBits(n, beh, v, x, i)
        ensures b in DriverBits(m, beh, v, x, i)
      {
        var k :| k in Drivers(n, x) && b == DriveBit(n.nodes[k], beh, v, i);
        var k' := if k == id' then id else k;
        assert k' in Drivers(m, x) && b == DriveBit(m.nodes[k'], beh, v, i);
      }
    }
    forall x | x in m.nexa
      ensures NexusHolds(m, beh, v, x) <==> NexusHolds(n, beh, v, x)
    {
      assert Width(m, x) == Width(n, x);
    }
  }
}
