/**
 * Concatenations as l-values: the chain of assignments that procedural code uses, and the part selects that
 * nets use.
 */
module Lvalues {
  import opened Options
  import opened PowersOfTwo

  /**
   * An l-value. A leaf is a whole variable or net; `ok` says whether it elaborates, `packed` whether its type may
   * be part of a concatenation. An operand of a concatenation may be missing.
   */
  datatype Lvalue =
    | Leaf(sig: nat, width: nat, ok: bool, packed: bool)
    | Concat(repeat: bool, parms: seq<Option<Lvalue>>)

  datatype Target = Target(sig: nat, width: nat)

  /** What an l-value assigns to, most significant first. */
  function Targets(e: Lvalue): seq<Target>
    decreases e, 0
  {
    match e
    case Leaf(sig, width, ok, _) => if ok then [Target(sig, width)] else []
    case Concat(repeat, parms) => if repeat then [] else AllTargets(parms, |parms|)
  }

  /** The targets of the first k operands */
  function AllTargets(parms: seq<Option<Lvalue>>, k: nat): seq<Target>
    requires k <= |parms|
    decreases parms, k
  {
    if k == 0 then []
    else AllTargets(parms, k - 1) + OperandTargets(parms[k - 1])
  }

  function OperandTargets(p: Option<Lvalue>): seq<Target>
    decreases p
  {
    if p.None? || (p.value.Leaf? && !p.value.packed) then [] else Targets(p.value)
  }

  /** The errors that the elaboration of an l-value reports; one for each operand that has no place in the result. */
  function Faults(e: Lvalue): nat
    decreases e, 0
  {
    match e
    case Leaf(_, _, ok, _) => if ok then 0 else 1
    case Concat(repeat, parms) => if repeat then 1 else AllFaults(parms, |parms|)
  }

  function AllFaults(parms: seq<Option<Lvalue>>, k: nat): nat
    requires k <= |parms|
    decreases parms, k
  {
    if k == 0 then 0 else AllFaults(parms, k - 1) + OperandFaults(parms[k - 1])
  }

  function OperandFaults(p: Option<Lvalue>): nat
    decreases p
  {
    if p.None? then 1
    else Faults(p.value) + (if p.value.Leaf? && p.value.ok && !p.value.packed then 1 else 0)
  }

  /** Everything in the l-value elaborates, and no operand of a concatenation is missing or not packed. */
  ghost predicate Faultless(e: Lvalue)
    decreases e, 0
  {
    match e
    case Leaf(_, _, ok, _) => ok
    case Concat(repeat, parms) =>
      !repeat && forall i :: 0 <= i < |parms| ==> OperandFaultless(parms[i])
  }

  ghost predicate OperandFaultless(p: Option<Lvalue>)
    decreases p
  {
    p.Some? && Faultless(p.value) && (p.value.Leaf? ==> p.value.packed)
  }

  lemma {:induction false} NoFaultsExactly(e: Lvalue)
    ensures Faults(e) == 0 <==> Faultless(e)
    decreases e, 1
  {
    match e
    case Leaf(_, _, _, _) =>
    case Concat(_, parms) =>
      NoFaultsUpTo(parms, |parms|);
  }

  lemma {:induction false} NoFaultsUpTo(parms: seq<Option<Lvalue>>, k: nat)
    requires k <= |parms|
    ensures AllFaults(parms, k) == 0 <==> forall i :: 0 <= i < k ==> OperandFaultless(parms[i])
    decreases parms, k
  {
    if k == 0 {
    } else {
      NoFaultsUpTo(parms, k - 1);
      OperandNoFaults(parms[k - 1]);
    }
  }

  lemma {:induction false} OperandNoFaults(p: Option<Lvalue>)
    ensures OperandFaults(p) == 0 <==> OperandFaultless(p)
    decreases p
  {
    if p.Some? {
      NoFaultsExactly(p.value);
    }
  }

  /** The targets of a concatenation of variables are these variables, from left to right. */
  lemma {:induction false} VariablesInOrder(parms: seq<Option<Lvalue>>, k: nat, i: nat)
    requires i < k <= |parms|
    requires forall j :: 0 <= j < k ==> parms[j].Some? && parms[j].value.Leaf? && OperandFaultless(parms[j])
    ensures |AllTargets(parms, k)| == k
    ensures AllTargets(parms, k)[i] == Target(parms[i].value.sig, parms[i].value.width)
  {
    var last := parms[k - 1].value;
    assert OperandFaultless(parms[k - 1]) && Faultless(last);
    assert last.ok && Targets(last) == OperandTargets(parms[k - 1]) == [Target(last.sig, last.width)];
    if k == 1 {
      assert AllTargets(parms, 0) == [];
    } else {
      VariablesInOrder(parms, k - 1, if i < k - 1 then i else 0);
    }
  }

  function Reversed(ts: seq<Target>): (r: seq<Target>)
    ensures |r| == |ts|
  {
    if ts == [] then [] else Reversed(ts[1..]) + [ts[0]]
  }

  lemma {:induction false} ReversedAppend(a: seq<Target>, b: seq<Target>)
    ensures Reversed(a + b) == Reversed(b) + Reversed(a)
  {
    if a == [] {
      assert a + b == b && Reversed(b) + [] == Reversed(b);
    } else {
      assert (a + b)[1..] == a[1..] + b;
      ReversedAppend(a[1..], b);
      assert (Reversed(b) + Reversed(a[1..])) + [a[0]] == Reversed(b) + (Reversed(a[1..]) + [a[0]]);
    }
  }

  function Total(ts: seq<Target>): nat {
    if ts == [] then 0 else ts[0].width + Total(ts[1..])
  }

  lemma {:induction false} TotalAppend(a: seq<Target>, b: seq<Target>)
    ensures Total(a + b) == Total(a) + Total(b)
  {
    if a == [] {
      assert a + b == b;
    } else {
      assert (a + b)[1..] == a[1..] + b;
      TotalAppend(a[1..], b);
    }
  }

  lemma {:induction false} TotalReversed(ts: seq<Target>)
    ensures Total(Reversed(ts)) == Total(ts)
  {
    if ts == [] {
    } else {
      TotalReversed(ts[1..]);
      TotalAppend(Reversed(ts[1..]), [ts[0]]);
      assert [ts[0]][1..] == [];
    }
  }

  // ----------------------------------------------------------- the chain

  class Design {
    var errors: nat
  }

  class NetAssign {
    const target: Target
    const packed: bool
    var more: NetAssign?
    var signed: bool

    constructor (target: Target, packed: bool, signed: bool)
      ensures this.target == target && this.packed == packed && more == null && this.signed == signed
    {
      this.target, this.packed, this.signed := target, packed, signed;
      more := null;
    }
  }

  ghost predicate LinkedAt(nodes: seq<NetAssign>, i: nat)
    requires i < |nodes|
    reads nodes
  {
    nodes[i].more == if i + 1 < |nodes| then nodes[i + 1] else null
  }

  /** The chain that starts at p consists of these nodes, in this order. */
  ghost predicate Chain(p: NetAssign?, nodes: seq<NetAssign>)
    reads nodes
  {
    && (p == if nodes == [] then null else nodes[0])
    && (forall i :: 0 <= i < |nodes| ==> LinkedAt(nodes, i))
    && (forall i, j :: 0 <= i < j < |nodes| ==> nodes[i] != nodes[j])
  }

  ghost function TargetsOf(nodes: seq<NetAssign>): (ts: seq<Target>)
    ensures |ts| == |nodes| && forall i :: 0 <= i < |nodes| ==> ts[i] == nodes[i].target
  {
    seq(|nodes|, i requires 0 <= i < |nodes| => nodes[i].target)
  }

  lemma TargetsOfAppend(a: seq<NetAssign>, b: seq<NetAssign>)
    ensures TargetsOf(a + b) == TargetsOf(a) + TargetsOf(b)
  {
  }

  /** The nodes from k on have no sign. */
  ghost predicate UnsignedFrom(nodes: seq<NetAssign>, k: nat)
    reads nodes
  {
    forall i :: k <= i < |nodes| ==> !nodes[i].signed
  }

  /** The nodes can, or cannot, be part of a concatenation. */
  ghost predicate AllPacked(nodes: seq<NetAssign>, packed: bool) {
    forall i :: 0 <= i < |nodes| ==> nodes[i].packed == packed
  }

  ghost predicate Apart(a: seq<NetAssign>, b: seq<NetAssign>) {
    forall i, j :: 0 <= i < |a| && 0 <= j < |b| ==> a[i] != b[j]
  }

  /**
   * elaborate_lval: the chain lists the targets in reverse, least significant first. Inside a concatenation all
   * of them are unsigned.
   */
  method ElaborateLval(des: Design, e: Lvalue, signed: bool) returns (res: NetAssign?, ghost nodes: seq<NetAssign>)
    modifies des
    ensures fresh(nodes) && Chain(res, nodes) && TargetsOf(nodes) == Reversed(Targets(e))
    ensures des.errors == old(des.errors) + Faults(e)
    ensures UnsignedFrom(nodes, if e.Concat? then 0 else 1) && AllPacked(nodes, e.Concat? || e.packed)
    decreases e, 0
  {
    res, nodes := null, [];
    match e
    case Leaf(sig, width, ok, packed) =>
      if ok {
        res := new NetAssign(Target(sig, width), packed, signed);
        nodes := [res];
        assert Reversed([Target(sig, width)]) == [Target(sig, width)];
      } else {
        des.errors := des.errors + 1;
      }
    case Concat(repeat, parms) =>
      if repeat {
        des.errors := des.errors + 1;
        return;
      }
      for idx := 0 to |parms|
        invariant fresh(nodes) && Chain(res, nodes) && UnsignedFrom(nodes, 0) && AllPacked(nodes, true)
        invariant TargetsOf(nodes) == Reversed(AllTargets(parms, idx))
        invariant des.errors == old(des.errors) + AllFaults(parms, idx)
      {
        ReversedAppend(AllTargets(parms, idx), OperandTargets(parms[idx]));
        ghost var linked := nodes;
        res, nodes := AddOperand(des, parms[idx], signed, res, nodes);
        assert forall i :: 0 <= i < |nodes| ==> nodes[i] in linked || fresh(nodes[i]);
      }
  }

  /** One round of the loop over the operands: link the new l-value to the previous one. */
  method AddOperand(des: Design, p: Option<Lvalue>, signed: bool, res: NetAssign?, ghost nodes: seq<NetAssign>)
    returns (res': NetAssign?, ghost nodes': seq<NetAssign>)
    requires Chain(res, nodes) && UnsignedFrom(nodes, 0) && AllPacked(nodes, true)
    modifies des
    ensures (forall i :: 0 <= i < |nodes'| ==> nodes'[i] in nodes || fresh(nodes'[i])) && Chain(res', nodes')
    ensures UnsignedFrom(nodes', 0) && AllPacked(nodes', true)
    ensures TargetsOf(nodes') == Reversed(OperandTargets(p)) + TargetsOf(nodes)
    ensures des.errors == old(des.errors) + OperandFaults(p)
    decreases p
  {
    res', nodes' := res, nodes;
    if p.None? {
      des.errors := des.errors + 1;
      return;
    }
    var tmp, added := ElaborateLval(des, p.value, signed);
    if tmp == null {
      assert TargetsOf(added) == [];
      return;
    }
    if !tmp.packed {
      des.errors := des.errors + 1;
      return;
    }
    LinkBefore(tmp, added, res, nodes);
    TargetsOfAppend(added, nodes);
    res', nodes' := tmp, added + nodes;
  }

  /** Make the head of a chain unsigned and append the chain at `res`, after the end has been found. */
  method LinkBefore(tmp: NetAssign, ghost added: seq<NetAssign>, res: NetAssign?, ghost nodes: seq<NetAssign>)
    requires Chain(tmp, added) && Chain(res, nodes) && Apart(added, nodes)
    requires UnsignedFrom(added, 1) && UnsignedFrom(nodes, 0)
    modifies added
    ensures Chain(tmp, added + nodes) && UnsignedFrom(added + nodes, 0)
  {
    tmp.signed := false;
    var last := tmp;
    ghost var k: nat := 0;
    while last.more != null
      invariant k < |added| && last == added[k]
      decreases |added| - k
    {
      assert old(LinkedAt(added, k));
      last := last.more;
      k := k + 1;
    }
    assert old(LinkedAt(added, k));
    last.more := res;
    ghost var all := added + nodes;
    forall i | 0 <= i < |all|
      ensures LinkedAt(all, i)
    {
      if i < |added| {
        assert old(LinkedAt(added, i));
        assert i < k ==> added[i] != last;
      } else {
        assert old(LinkedAt(nodes, i - |added|));
      }
    }
  }

  // ------------------------------------------------- writing and reading back

  /** Assigning x to a chain: the first node takes the low bits, the next ones what is left. */
  function Write(chain: seq<Target>, x: nat, store: map<nat, nat>): map<nat, nat> {
    if chain == [] then store
    else Write(chain[1..], High(x, chain[0].width), store[chain[0].sig := Low(x, chain[0].width)])
  }

  /** The value of a concatenation as an expression: its operands side by side. */
  function Read(ts: seq<Target>, store: map<nat, nat>): nat
    requires forall i :: 0 <= i < |ts| ==> ts[i].sig in store
  {
    if ts == [] then 0
    else
      assert forall i :: 0 <= i < |ts| - 1 ==> ts[1..][i] == ts[i + 1];
      TimesNat(store[ts[0].sig], Pow2(Total(ts[1..])));
      store[ts[0].sig] * Pow2(Total(ts[1..])) + Read(ts[1..], store)
  }

  lemma TimesNat(a: nat, b: nat)
    ensures a * b >= 0
  {
  }

  predicate Distinct(ts: seq<Target>) {
    forall i, j :: 0 <= i < j < |ts| ==> ts[i].sig != ts[j].sig
  }

  ghost predicate Contains(ts: seq<Target>, sig: nat) {
    exists i :: 0 <= i < |ts| && ts[i].sig == sig
  }

  lemma {:induction false} WriteFrame(chain: seq<Target>, x: nat, store: map<nat, nat>, sig: nat)
    requires !Contains(chain, sig)
    ensures sig in Write(chain, x, store) <==> sig in store
    ensures sig in store ==> Write(chain, x, store)[sig] == store[sig]
  {
    if chain == [] {
    } else {
      forall i | 0 <= i < |chain| - 1
        ensures chain[1..][i].sig != sig
      {
        assert chain[1..][i] == chain[i + 1];
      }
      WriteFrame(chain[1..], High(x, chain[0].width), store[chain[0].sig := Low(x, chain[0].width)], sig);
    }
  }

  /** An assignment depends on as many bits as the chain has. */
  lemma {:induction false} WriteLow(chain: seq<Target>, x: nat, n: nat, store: map<nat, nat>)
    requires Total(chain) <= n
    ensures Write(chain, Low(x, n), store) == Write(chain, x, store)
  {
    if chain == [] {
    } else {
      var w := chain[0].width;
      LowLow(x, n, w);
      HighOfLow(x, n, w);
      WriteLow(chain[1..], High(x, w), n - w, store[chain[0].sig := Low(x, w)]);
    }
  }

  lemma {:induction false} WriteAppend(a: seq<Target>, b: seq<Target>, x: nat, store: map<nat, nat>)
    ensures Write(a + b, x, store) == Write(b, High(x, Total(a)), Write(a, x, store))
  {
    if a == [] {
      assert a + b == b;
    } else {
      assert (a + b)[1..] == a[1..] + b;
      var w := a[0].width;
      WriteAppend(a[1..], b, High(x, w), store[a[0].sig := Low(x, w)]);
      HighHigh(x, w, Total(a[1..]));
    }
  }

  lemma {:induction false} ReadAppend(a: seq<Target>, b: seq<Target>, store: map<nat, nat>)
    requires forall i :: 0 <= i < |a| ==> a[i].sig in store
    requires forall i :: 0 <= i < |b| ==> b[i].sig in store
    ensures forall i :: 0 <= i < |a + b| ==> (a + b)[i].sig in store
    ensures Read(a + b, store) == Read(a, store) * Pow2(Total(b)) + Read(b, store)
  {
    if a == [] {
      assert a + b == b;
    } else {
      assert (a + b)[1..] == a[1..] + b;
      ReadAppend(a[1..], b, store);
      TotalAppend(a[1..], b);
      Pow2Add(Total(a[1..]), Total(b));
      var v := store[a[0].sig];
      MulAssociates(v, Pow2(Total(a[1..])), Pow2(Total(b)));
      Distribute(v * Pow2(Total(a[1..])), Read(a[1..], store), Pow2(Total(b)));
    }
  }

  lemma NotRepeated(ts: seq<Target>, last: Target)
    requires Distinct(ts + [last])
    ensures Distinct(ts) && !Contains(Reversed(ts), last.sig)
  {
    var all := ts + [last];
    forall i, j | 0 <= i < j < |ts|
      ensures ts[i].sig != ts[j].sig
    {
      assert all[i].sig != all[j].sig;
    }
    forall i | 0 <= i < |ts|
      ensures Reversed(ts)[i].sig != last.sig
    {
      ReversedAt(ts, i);
      assert all[|ts| - 1 - i].sig != all[|ts|].sig;
    }
  }

  lemma {:induction false} ReversedAt(ts: seq<Target>, i: nat)
    requires i < |ts|
    ensures Reversed(ts)[i] == ts[|ts| - 1 - i]
  {
    if i == |ts| - 1 {
    } else {
      ReversedAt(ts[1..], i);
    }
  }

  /** Writing to the chain of distinct targets and reading them side by side gives back the bits written. */
  lemma {:induction false} ChainRoundTrip(ts: seq<Target>, x: nat, store: map<nat, nat>)
    requires Distinct(ts)
    ensures var after := Write(Reversed(ts), x, store);
            (forall i :: 0 <= i < |ts| ==> ts[i].sig in after) && Read(ts, after) == Low(x, Total(ts))
    decreases |ts|
  {
    if ts == [] {
      RemainderUnique(x, 1, x, 0);
    } else {
      var init, last := ts[..|ts| - 1], ts[|ts| - 1];
      assert ts == init + [last];
      ReversedAppend(init, [last]);
      assert Reversed([last]) == [last];
      var chain := Reversed(ts);
      assert chain == [last] + Reversed(init) && chain[1..] == Reversed(init);
      var w := last.width;
      var store1 := store[last.sig := Low(x, w)];
      var after := Write(Reversed(init), High(x, w), store1);
      assert after == Write(chain, x, store);
      NotRepeated(init, last);
      ChainRoundTrip(init, High(x, w), store1);
      WriteFrame(Reversed(init), High(x, w), store1, last.sig);
      ReadAppend(init, [last], after);
      TotalAppend(init, [last]);
      ReadOne(last, after);
      HighHigh(x, w, Total(init));
    }
  }

  lemma ReadOne(t: Target, store: map<nat, nat>)
    requires t.sig in store
    ensures Read([t], store) == store[t.sig] && Total([t]) == t.width
  {
  }

  lemma ReversedAround(head: seq<Target>, t: Target, tail: seq<Target>)
    ensures Reversed(head + ([t] + tail)) == Reversed(tail) + ([t] + Reversed(head))
  {
    assert ([t] + tail)[1..] == tail;
    ReversedAppend(head, [t] + tail);
    Regrouped(Reversed(tail), t, Reversed(head));
  }

  lemma Regrouped(a: seq<Target>, t: Target, b: seq<Target>)
    ensures (a + [t]) + b == a + ([t] + b)
  {
  }

  lemma NotAmongEarlier(ts: seq<Target>, i: nat)
    requires Distinct(ts) && i < |ts|
    ensures !Contains(Reversed(ts[..i]), ts[i].sig)
  {
    forall k | 0 <= k < i
      ensures Reversed(ts[..i])[k].sig != ts[i].sig
    {
      ReversedAt(ts[..i], k);
    }
  }

  /** Every target gets the bits of x that are above those of all later targets. */
  lemma PlaceOfTarget(ts: seq<Target>, x: nat, store: map<nat, nat>, i: nat)
    requires Distinct(ts) && i < |ts|
    ensures var after := Write(Reversed(ts), x, store);
            ts[i].sig in after && after[ts[i].sig] == Low(High(x, Total(ts[i + 1..])), ts[i].width)
  {
    var t, later, earlier := ts[i], Reversed(ts[i + 1..]), Reversed(ts[..i]);
    ReversedAround(ts[..i], t, ts[i + 1..]);
    assert ts == ts[..i] + ([t] + ts[i + 1..]);
    WriteAppend(later, [t] + earlier, x, store);
    TotalReversed(ts[i + 1..]);
    var y, store1 := High(x, Total(ts[i + 1..])), Write(later, x, store);
    assert ([t] + earlier)[1..] == earlier;
    NotAmongEarlier(ts, i);
    WriteFrame(earlier, High(y, t.width), store1[t.sig := Low(y, t.width)], t.sig);
  }

  /** A value assigned to a concatenation of distinct variables, however nested, is read back modulo 2^width. */
  lemma RoundTrip(e: Lvalue, nodes: seq<NetAssign>, x: nat, store: map<nat, nat>)
    requires TargetsOf(nodes) == Reversed(Targets(e)) && Distinct(Targets(e))
    ensures var after := Write(TargetsOf(nodes), x, store);
            && (forall i :: 0 <= i < |Targets(e)| ==> Targets(e)[i].sig in after)
            && Read(Targets(e), after) == Low(x, Total(Targets(e)))
            && forall i :: 0 <= i < |Targets(e)| ==>
                 after[Targets(e)[i].sig] == Low(High(x, Total(Targets(e)[i + 1..])), Targets(e)[i].width)
  {
    ChainRoundTrip(Targets(e), x, store);
    forall i | 0 <= i < |Targets(e)|
      ensures var after := Write(TargetsOf(nodes), x, store);
              Targets(e)[i].sig in after &&
              after[Targets(e)[i].sig] == Low(High(x, Total(Targets(e)[i + 1..])), Targets(e)[i].width)
    {
      PlaceOfTarget(Targets(e), x, store, i);
    }
  }
}
