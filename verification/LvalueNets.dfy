/** Concatenations as structural l-values: part selects that hand the bits of one net on to the operands. */
module LvalueNets {
  import opened Options
  import opened PowersOfTwo
  import opened Lvalues

  /** A net to drive: a signal, or the input net of a concatenation with the part selects that leave it. */
  datatype Net = Signal(target: Target, packed: bool) | Joined(vectorWidth: nat, selects: seq<PartSelect>)

  datatype PartSelect = PartSelect(off: nat, wid: nat, net: Net)

  function WidthOf(n: Net): nat {
    match n
    case Signal(target, _) => target.width
    case Joined(width, _) => width
  }

  predicate PackedNet(n: Net) {
    n.Joined? || n.packed
  }

  /** What the signals behind a net get when it is driven with x: every part select hands on its own bits. */
  function Drive(n: Net, x: nat, store: map<nat, nat>): map<nat, nat>
    decreases n, 0
  {
    match n
    case Signal(t, _) => store[t.sig := Low(x, t.width)]
    case Joined(_, selects) => DriveFrom(selects, 0, x, store)
  }

  function DriveFrom(selects: seq<PartSelect>, k: nat, x: nat, store: map<nat, nat>): map<nat, nat>
    requires k <= |selects|
    decreases selects, |selects| - k
  {
    if k == |selects| then store
    else
      DriveSelect(selects[k], x, DriveFrom(selects, k + 1, x, store))
  }

  function DriveSelect(ps: PartSelect, x: nat, store: map<nat, nat>): map<nat, nat>
    decreases ps
  {
    Drive(ps.net, Low(High(x, ps.off), ps.wid), store)
  }

  // --------------------------------------------------- the net of an l-value

  /** The targets of the operands from k on */
  function TargetsFrom(parms: seq<Option<Lvalue>>, k: nat): seq<Target>
    requires k <= |parms|
    decreases |parms| - k
  {
    if k == |parms| then [] else OperandTargets(parms[k]) + TargetsFrom(parms, k + 1)
  }

  lemma {:induction false} TargetsSplit(parms: seq<Option<Lvalue>>, k: nat)
    requires k <= |parms|
    ensures AllTargets(parms, |parms|) == AllTargets(parms, k) + TargetsFrom(parms, k)
    decreases |parms| - k
  {
    if k == |parms| {
    } else {
      TargetsSplit(parms, k + 1);
      assert AllTargets(parms, k) + (OperandTargets(parms[k]) + TargetsFrom(parms, k + 1)) ==
             (AllTargets(parms, k) + OperandTargets(parms[k])) + TargetsFrom(parms, k + 1);
    }
  }

  /** The net of an l-value: each operand takes the bits above those of all later operands. */
  function NetOf(e: Lvalue): Net
    decreases e, 0
  {
    match e
    case Leaf(sig, width, _, packed) => Signal(Target(sig, width), packed)
    case Concat(_, parms) =>
      Joined(Total(Targets(e)), seq(|parms|, k requires 0 <= k < |parms| => SelectAt(parms, k)))
  }

  function SelectAt(parms: seq<Option<Lvalue>>, k: nat): PartSelect
    requires k < |parms|
    decreases parms, 0
  {
    PartSelect(Total(TargetsFrom(parms, k + 1)), Total(OperandTargets(parms[k])),
               NetOfOperand(parms[k]))
  }

  function NetOfOperand(p: Option<Lvalue>): Net
    decreases p
  {
    if p.Some? then NetOf(p.value) else Joined(0, [])
  }

  lemma {:induction false} NoFaults(parms: seq<Option<Lvalue>>, n: nat, k: nat)
    requires k < n <= |parms| && AllFaults(parms, n) == 0
    ensures OperandFaults(parms[k]) == 0
  {
    if k == n - 1 {
    } else {
      NoFaults(parms, n - 1, k);
    }
  }

  /**
   * The part selects and the chain give every target the same bits. Here the l-value elaborates without error;
   * an operand of a concatenation without fault is there and is packed.
   */
  lemma {:induction false} SelectsAgreeWithChain(e: Lvalue, x: nat, store: map<nat, nat>)
    requires Faults(e) == 0
    ensures Drive(NetOf(e), x, store) == Write(Reversed(Targets(e)), x, store)
    decreases e, 0
  {
    match e
    case Leaf(sig, width, _, _) =>
      var t := Target(sig, width);
      assert Reversed([t]) == [t] && [t][1..] == [];
    case Concat(_, parms) =>
      TargetsSplit(parms, 0);
      assert [] + TargetsFrom(parms, 0) == TargetsFrom(parms, 0);
      OperandsAgree(parms, NetOf(e).selects, 0, x, store);
  }

  lemma {:induction false} OperandsAgree(parms: seq<Option<Lvalue>>, selects: seq<PartSelect>, k: nat, x: nat,
                                         store: map<nat, nat>)
    requires k <= |parms| == |selects| && AllFaults(parms, |parms|) == 0
    requires forall i :: 0 <= i < |parms| ==> selects[i] == SelectAt(parms, i)
    ensures DriveFrom(selects, k, x, store) == Write(Reversed(TargetsFrom(parms, k)), x, store)
    decreases parms, |parms| - k
  {
    if k == |parms| {
    } else {
      NoFaults(parms, |parms|, k);
      var rest := TargetsFrom(parms, k + 1);
      OperandsAgree(parms, selects, k + 1, x, store);
      OperandAgrees(parms[k], Total(rest), x, Write(Reversed(rest), x, store));
      TotalReversed(rest);
      ReversedAppend(OperandTargets(parms[k]), rest);
      WriteAppend(Reversed(rest), Reversed(OperandTargets(parms[k])), x, store);
    }
  }

  lemma {:induction false} OperandAgrees(p: Option<Lvalue>, off: nat, x: nat, store: map<nat, nat>)
    requires OperandFaults(p) == 0
    ensures DriveSelect(PartSelect(off, Total(OperandTargets(p)), NetOfOperand(p)), x, store) ==
            Write(Reversed(OperandTargets(p)), High(x, off), store)
    decreases p
  {
    var ts := OperandTargets(p);
    SelectsAgreeWithChain(p.value, Low(High(x, off), Total(ts)), store);
    TotalReversed(ts);
    WriteLow(Reversed(ts), High(x, off), Total(ts), store);
  }

  /** The part selects tile the input net: they start at the top, follow one another, and end at bit 0. */
  lemma SelectsTile(parms: seq<Option<Lvalue>>, k: nat)
    requires k < |parms|
    ensures var ps := SelectAt(parms, k);
            && ps.off + ps.wid == (if k == 0 then Total(AllTargets(parms, |parms|)) else SelectAt(parms, k - 1).off)
            && (k == |parms| - 1 ==> ps.off == 0)
  {
    TotalAppend(OperandTargets(parms[k]), TargetsFrom(parms, k + 1));
    if k == 0 {
      TargetsSplit(parms, 0);
      assert [] + TargetsFrom(parms, 0) == TargetsFrom(parms, 0);
    }
  }

  // ------------------------------------------------------------ elaboration

  /** elaborate_lnet: succeeds exactly when there is no fault, with the net that belongs to the l-value. */
  method ElaborateLnet(des: Design, e: Lvalue) returns (net: Option<Net>)
    modifies des
    ensures net == if Faults(e) == 0 then Some(NetOf(e)) else None
    ensures Faults(e) > 0 ==> des.errors > old(des.errors)
    ensures Faults(e) == 0 ==> des.errors == old(des.errors)
    decreases e
  {
    match e
    case Leaf(sig, width, ok, packed) =>
      if !ok {
        des.errors := des.errors + 1;
        return None;
      }
      return Some(Signal(Target(sig, width), packed));
    case Concat(repeat, parms) =>
      if repeat {
        des.errors := des.errors + 1;
        return None;
      }
      var nets: seq<Option<Net>> := [];
      var width, errors := 0, 0;
      for idx := 0 to |parms|
        invariant |nets| == idx
        invariant errors > 0 <==> AllFaults(parms, idx) > 0
        invariant des.errors >= old(des.errors) && (errors == 0 ==> des.errors == old(des.errors))
        invariant errors == 0 ==> width == Total(AllTargets(parms, idx))
        invariant errors == 0 ==> forall i :: 0 <= i < idx ==> parms[i].Some? && nets[i] == Some(NetOf(parms[i].value))
      {
        if parms[idx].None? {
          errors := errors + 1;
          nets := nets + [None];
          continue;
        }
        var net := ElaborateLnet(des, parms[idx].value);
        nets := nets + [net];
        TotalAppend(AllTargets(parms, idx), OperandTargets(parms[idx]));
        if net.None? {
          errors := errors + 1;
        } else if !PackedNet(net.value) {
          errors := errors + 1;
        } else {
          NetWidth(parms[idx].value);
          width := width + WidthOf(net.value);
        }
      }
      if errors > 0 {
        des.errors := des.errors + errors;
        return None;
      }
      TargetsSplit(parms, 0);
      assert [] + TargetsFrom(parms, 0) == TargetsFrom(parms, 0);
      var selects := MakeSelects(nets, width, parms);
      SelectsOfNet(e, selects);
      net := Some(Joined(width, selects));
  }

  lemma SelectsOfNet(e: Lvalue, selects: seq<PartSelect>)
    requires e.Concat? && |selects| == |e.parms| && Selecting(e.parms, selects)
    ensures selects == NetOf(e).selects
  {
  }

  lemma NetWidth(e: Lvalue)
    requires Faults(e) == 0
    ensures WidthOf(NetOf(e)) == Total(Targets(e))
  {
  }

  lemma SelectStep(parms: seq<Option<Lvalue>>, k: nat)
    requires k < |parms| && AllFaults(parms, |parms|) == 0 && parms[k].Some?
    ensures WidthOf(NetOf(parms[k].value)) == Total(OperandTargets(parms[k]))
    ensures Total(TargetsFrom(parms, k)) == Total(OperandTargets(parms[k])) + Total(TargetsFrom(parms, k + 1))
  {
    NoFaults(parms, |parms|, k);
    NetWidth(parms[k].value);
    TotalAppend(OperandTargets(parms[k]), TargetsFrom(parms, k + 1));
  }

  ghost predicate NetsOf(parms: seq<Option<Lvalue>>, nets: seq<Option<Net>>) {
    && |nets| == |parms| && AllFaults(parms, |parms|) == 0
    && forall i :: 0 <= i < |parms| ==> parms[i].Some? && nets[i] == Some(NetOf(parms[i].value))
  }

  /** The part selects are those of the first operands. */
  ghost predicate Selecting(parms: seq<Option<Lvalue>>, selects: seq<PartSelect>) {
    |selects| <= |parms| && forall k :: 0 <= k < |selects| ==> SelectedAt(parms, k, selects[k])
  }

  ghost predicate SelectedAt(parms: seq<Option<Lvalue>>, k: nat, ps: PartSelect)
    requires k < |parms|
  {
    ps == SelectAt(parms, k)
  }

  lemma SelectsWithOneMore(parms: seq<Option<Lvalue>>, selects: seq<PartSelect>, ps: PartSelect)
    requires Selecting(parms, selects) && |selects| < |parms| && SelectedAt(parms, |selects|, ps)
    ensures Selecting(parms, selects + [ps])
  {
  }

  /** The loop that makes the part selects: `width` is what is left for the operands from idx on. */
  method MakeSelects(nets: seq<Option<Net>>, total: nat, ghost parms: seq<Option<Lvalue>>)
    returns (selects: seq<PartSelect>)
    requires NetsOf(parms, nets) && total == Total(TargetsFrom(parms, 0))
    ensures |selects| == |parms| && Selecting(parms, selects)
  {
    var width := total;
    selects := [];
    for idx := 0 to |nets|
      invariant width == Total(TargetsFrom(parms, idx))
      invariant |selects| == idx && Selecting(parms, selects)
    {
      var ps;
      ps, width := MakeSelect(nets, idx, width, parms);
      SelectsWithOneMore(parms, selects, ps);
      selects := selects + [ps];
    }
    assert width == 0;
  }

  method MakeSelect(nets: seq<Option<Net>>, idx: nat, width: nat, ghost parms: seq<Option<Lvalue>>)
    returns (ps: PartSelect, rest: nat)
    requires NetsOf(parms, nets) && idx < |nets| && width == Total(TargetsFrom(parms, idx))
    ensures SelectedAt(parms, idx, ps) && rest == Total(TargetsFrom(parms, idx + 1))
  {
    SelectStep(parms, idx);
    var wid := WidthOf(nets[idx].value);
    assert wid <= width;
    var off := width - wid;
    ps := PartSelect(off, wid, nets[idx].value);
    rest := width - wid;
  }
}
