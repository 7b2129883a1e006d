/** The pieces of the concatenation that replaces a sorted list of part drivers. */
module CpropLayout {
  import opened FourState
  import opened Netlist
  import opened CpropMerge

  datatype Piece = Gap(size: nat) | Part(source: nat, size: nat)

  /** The parts lie one after the other between off and w, in this order and without overlap. */
  predicate Tiled(ps: seq<Node>, off: nat, w: nat) {
    if ps == [] then off <= w
    else ps[0].PartPV? && ps[0].width > 0 && off <= ps[0].base && Tiled(ps[1..], ps[0].base + ps[0].width, w)
  }

  /** Gap, part, gap, part, ... from bit off up to bit w; there is no piece for an empty gap. */
  function Pieces(ps: seq<Node>, off: nat, w: nat): seq<Piece>
    requires Tiled(ps, off, w)
  {
    if ps == [] then
      if off < w then [Gap(w - off)] else []
    else
      var tail := [Part(ps[0].inp, ps[0].width)] + Pieces(ps[1..], ps[0].base + ps[0].width, w);
      if off < ps[0].base then [Gap(ps[0].base - off)] + tail else tail
  }

  /** The bit at which the part idx, or the gap before it, starts. */
  function OffsetBefore(ps: seq<Node>, idx: nat): nat
    requires idx <= |ps| && forall k :: 0 <= k < |ps| ==> ps[k].PartPV?
  {
    if idx == 0 then 0 else ps[idx - 1].base + ps[idx - 1].width
  }

  /** The number of pieces before the part idx and the gap before it. */
  function PiecesBefore(ps: seq<Node>, idx: nat): nat
    requires idx <= |ps| && forall k :: 0 <= k < |ps| ==> ps[k].PartPV?
  {
    if idx == 0 then 0
    else PiecesBefore(ps, idx - 1) + (if OffsetBefore(ps, idx - 1) < ps[idx - 1].base then 2 else 1)
  }

  /** The pieces from position at on are those of the parts from idx on, starting at bit off. */
  ghost predicate Remaining(ps: seq<Node>, idx: nat, off: nat, w: nat, pieces: seq<Piece>, at: nat)
    requires idx <= |ps|
  {
    Tiled(ps[idx..], off, w) && at <= |pieces| && pieces[at..] == Pieces(ps[idx..], off, w)
  }

  /** What the next part adds to the pieces. */
  lemma NextPieces(ps: seq<Node>, idx: nat, off: nat, w: nat, pieces: seq<Piece>, at: nat)
    requires idx < |ps| && Remaining(ps, idx, off, w, pieces, at)
    ensures ps[idx].PartPV? && off <= ps[idx].base
    ensures off < ps[idx].base ==> at < |pieces| && pieces[at] == Gap(ps[idx].base - off)
    ensures var k := if off < ps[idx].base then at + 1 else at;
            k < |pieces| && pieces[k] == Part(ps[idx].inp, ps[idx].width)
    ensures off < ps[idx].base ==> Remaining(ps, idx + 1, ps[idx].base + ps[idx].width, w, pieces, at + 2)
    ensures off == ps[idx].base ==> Remaining(ps, idx + 1, ps[idx].base + ps[idx].width, w, pieces, at + 1)
  {
  }

  /** After the last part there is a piece left just when bits are left. */
  lemma LastPieces(ps: seq<Node>, off: nat, w: nat, pieces: seq<Piece>, at: nat)
    requires Remaining(ps, |ps|, off, w, pieces, at)
    ensures off <= w
    ensures off < w ==> |pieces| == at + 1 && pieces[at] == Gap(w - off)
    ensures off == w ==> |pieces| == at
  {
  }

  lemma {:induction false} RemainingFrom(ps: seq<Node>, idx: nat, w: nat)
    requires Tiled(ps, 0, w) && idx <= |ps|
    ensures forall k :: 0 <= k < |ps| ==> ps[k].PartPV?
    ensures Remaining(ps, idx, OffsetBefore(ps, idx), w, Pieces(ps, 0, w), PiecesBefore(ps, idx))
  {
    TiledRange(ps, 0, w);
    if idx == 0 {
      assert ps[0..] == ps && Pieces(ps, 0, w)[0..] == Pieces(ps, 0, w);
    } else {
      RemainingFrom(ps, idx - 1, w);
      RemainingAfter(ps, idx, w);
    }
  }

  lemma RemainingAfter(ps: seq<Node>, idx: nat, w: nat)
    requires 0 < idx <= |ps| && (forall k :: 0 <= k < |ps| ==> ps[k].PartPV?) && Tiled(ps, 0, w)
    requires Remaining(ps, idx - 1, OffsetBefore(ps, idx - 1), w, Pieces(ps, 0, w), PiecesBefore(ps, idx - 1))
    ensures Remaining(ps, idx, OffsetBefore(ps, idx), w, Pieces(ps, 0, w), PiecesBefore(ps, idx))
  {
  }

  /** Where the part idx and the gap before it are among the pieces. */
  lemma PieceOfPart(ps: seq<Node>, idx: nat, w: nat)
    requires Tiled(ps, 0, w) && idx < |ps|
    ensures forall k :: 0 <= k < |ps| ==> ps[k].PartPV?
    ensures var pieces, off, at := Pieces(ps, 0, w), OffsetBefore(ps, idx), PiecesBefore(ps, idx);
            && off <= ps[idx].base && PiecesBefore(ps, idx + 1) <= |pieces|
            && (off < ps[idx].base ==> pieces[at] == Gap(ps[idx].base - off))
            && pieces[PiecesBefore(ps, idx + 1) - 1] == Part(ps[idx].inp, ps[idx].width)
  {
    RemainingFrom(ps, idx, w);
    NextPieces(ps, idx, OffsetBefore(ps, idx), w, Pieces(ps, 0, w), PiecesBefore(ps, idx));
  }

  /** There is a piece after the last part just when bits are left. */
  lemma PieceOfTail(ps: seq<Node>, w: nat)
    requires Tiled(ps, 0, w)
    ensures forall k :: 0 <= k < |ps| ==> ps[k].PartPV?
    ensures var pieces, off, at := Pieces(ps, 0, w), OffsetBefore(ps, |ps|), PiecesBefore(ps, |ps|);
            && off <= w
            && (off < w ==> |pieces| == at + 1 && pieces[at] == Gap(w - off))
            && (off == w ==> |pieces| == at)
  {
    RemainingFrom(ps, |ps|, w);
    LastPieces(ps, OffsetBefore(ps, |ps|), w, Pieces(ps, 0, w), PiecesBefore(ps, |ps|));
  }

  function PieceVec(v: Valuation, p: Piece, fill: Bit): Vec {
    match p
    case Gap(size) => Rep(fill, size)
    case Part(source, _) => Get(v, source)
  }

  function PiecesVec(v: Valuation, pieces: seq<Piece>, fill: Bit): Vec {
    if pieces == [] then [] else PieceVec(v, pieces[0], fill) + PiecesVec(v, pieces[1..], fill)
  }

  function PiecesSize(pieces: seq<Piece>): nat {
    if pieces == [] then 0 else pieces[0].size + PiecesSize(pieces[1..])
  }

  lemma {:induction false} TiledRange(ps: seq<Node>, off: nat, w: nat)
    requires Tiled(ps, off, w)
    ensures off <= w
    ensures forall k :: 0 <= k < |ps| ==>
              ps[k].PartPV? && off <= ps[k].base && ps[k].base + ps[k].width <= w && ps[k].width > 0
  {
    if ps == [] {
    } else {
      TiledRange(ps[1..], ps[0].base + ps[0].width, w);
      forall k | 0 <= k < |ps|
        ensures ps[k].PartPV? && off <= ps[k].base && ps[k].base + ps[k].width <= w && ps[k].width > 0
      {
        if k > 0 { assert ps[k] == ps[1..][k - 1]; }
      }
    }
  }

  lemma {:induction false} TiledDisjoint(ps: seq<Node>, off: nat, w: nat, j: nat, k: nat)
    requires Tiled(ps, off, w) && j < k < |ps|
    ensures ps[j].PartPV? && ps[k].PartPV? && ps[j].base + ps[j].width <= ps[k].base
  {
    if j == 0 {
      TiledRange(ps[1..], ps[0].base + ps[0].width, w);
      assert ps[k] == ps[1..][k - 1];
    } else {
      TiledDisjoint(ps[1..], ps[0].base + ps[0].width, w, j - 1, k - 1);
    }
  }

  /** What the two checks of the source establish is exactly that the parts are tiled. */
  lemma {:induction false} AdjacentIsTiled(ps: seq<Node>, off: nat, w: nat)
    requires forall k :: 0 <= k < |ps| ==> ps[k].PartPV? && ps[k].width > 0
    requires forall k :: 0 < k < |ps| ==> ps[k - 1].base + ps[k - 1].width <= ps[k].base
    requires ps != [] ==> off <= ps[0].base && ps[|ps| - 1].base + ps[|ps| - 1].width <= w
    requires ps == [] ==> off <= w
    ensures Tiled(ps, off, w)
  {
    if ps == [] {
    } else {
      forall k | 0 < k < |ps[1..]|
        ensures ps[1..][k - 1].base + ps[1..][k - 1].width <= ps[1..][k].base
      {
        assert ps[1..][k - 1] == ps[k] && ps[1..][k] == ps[k + 1];
      }
      AdjacentIsTiled(ps[1..], ps[0].base + ps[0].width, w);
    }
  }

  lemma {:induction false} PiecesFill(ps: seq<Node>, off: nat, w: nat)
    requires Tiled(ps, off, w)
    ensures off <= w && PiecesSize(Pieces(ps, off, w)) == w - off
  {
    if ps != [] {
      var rest := Pieces(ps[1..], ps[0].base + ps[0].width, w);
      PiecesFill(ps[1..], ps[0].base + ps[0].width, w);
      var tail := [Part(ps[0].inp, ps[0].width)] + rest;
      assert tail[1..] == rest;
      assert ([Gap(ps[0].base - off)] + tail)[1..] == tail;
      assert off == ps[0].base ==> Pieces(ps, off, w) == tail;
      assert off < ps[0].base ==> Pieces(ps, off, w) == [Gap(ps[0].base - off)] + tail;
    } else if off < w {
      assert Pieces(ps, off, w)[1..] == [];
    }
  }

  ghost predicate InputsFit(ps: seq<Node>, v: Valuation) {
    forall k :: 0 <= k < |ps| ==> ps[k].PartPV? && |Get(v, ps[k].inp)| == ps[k].width
  }

  lemma PiecesUnfold(ps: seq<Node>, off: nat, w: nat, v: Valuation, fill: Bit)
    requires ps != [] && Tiled(ps, off, w) && InputsFit(ps, v)
    ensures PiecesVec(v, Pieces(ps, off, w), fill) ==
            Rep(fill, ps[0].base - off) +
            (Get(v, ps[0].inp) + PiecesVec(v, Pieces(ps[1..], ps[0].base + ps[0].width, w), fill))
  {
  }

  lemma {:induction false} PiecesVecLength(ps: seq<Node>, off: nat, w: nat, v: Valuation, fill: Bit)
    requires Tiled(ps, off, w) && InputsFit(ps, v)
    ensures off <= w && |PiecesVec(v, Pieces(ps, off, w), fill)| == w - off
  {
    if ps == [] {
      if off < w {
        assert Pieces(ps, off, w)[1..] == [];
      }
    } else {
      PiecesUnfold(ps, off, w, v, fill);
      PiecesVecLength(ps[1..], ps[0].base + ps[0].width, w, v, fill);
    }
  }

  lemma JoinAt(a: Vec, b: Vec, c: Vec, j: nat)
    ensures |a| <= j < |a| + |b| ==> (a + (b + c))[j] == b[j - |a|]
    ensures |a| + |b| <= j < |a| + |b| + |c| ==> (a + (b + c))[j] == c[j - |a| - |b|]
  {
  }

  /** Bit i of the joined pieces is the bit of the part that covers it. */
  lemma {:induction false} CoveredBit(ps: seq<Node>, off: nat, w: nat, v: Valuation, fill: Bit, k: nat, i: nat)
    requires Tiled(ps, off, w) && InputsFit(ps, v) && k < |ps| && Covers(ps[k], i)
    ensures off <= i < w && i - off < |PiecesVec(v, Pieces(ps, off, w), fill)|
    ensures PiecesVec(v, Pieces(ps, off, w), fill)[i - off] == At(Get(v, ps[k].inp), i - ps[k].base)
  {
    TiledRange(ps, off, w);
    if k == 0 {
      FirstBit(ps, off, w, v, fill, i);
    } else {
      TiledDisjoint(ps, off, w, 0, k);
      CoveredBit(ps[1..], ps[0].base + ps[0].width, w, v, fill, k - 1, i);
      LaterBit(ps, off, w, v, fill, i);
    }
  }

  /** A bit of the first part */
  lemma FirstBit(ps: seq<Node>, off: nat, w: nat, v: Valuation, fill: Bit, i: nat)
    requires ps != [] && Tiled(ps, off, w) && InputsFit(ps, v) && ps[0].base <= i < ps[0].base + ps[0].width && i < w
    ensures off <= w && |PiecesVec(v, Pieces(ps, off, w), fill)| == w - off
    ensures PiecesVec(v, Pieces(ps, off, w), fill)[i - off] == Get(v, ps[0].inp)[i - ps[0].base]
  {
    var end := ps[0].base + ps[0].width;
    PiecesVecLength(ps, off, w, v, fill);
    PiecesUnfold(ps, off, w, v, fill);
    JoinAt(Rep(fill, ps[0].base - off), Get(v, ps[0].inp), PiecesVec(v, Pieces(ps[1..], end, w), fill), i - off);
  }

  /** A bit above it */
  lemma LaterBit(ps: seq<Node>, off: nat, w: nat, v: Valuation, fill: Bit, i: nat)
    requires ps != [] && Tiled(ps, off, w) && InputsFit(ps, v) && ps[0].base + ps[0].width <= i < w
    ensures off <= w && |PiecesVec(v, Pieces(ps, off, w), fill)| == w - off
    ensures var end := ps[0].base + ps[0].width;
            var rest := PiecesVec(v, Pieces(ps[1..], end, w), fill);
            i - end < |rest| && PiecesVec(v, Pieces(ps, off, w), fill)[i - off] == rest[i - end]
  {
    var end := ps[0].base + ps[0].width;
    PiecesVecLength(ps, off, w, v, fill);
    PiecesVecLength(ps[1..], end, w, v, fill);
    PiecesUnfold(ps, off, w, v, fill);
    JoinAt(Rep(fill, ps[0].base - off), Get(v, ps[0].inp), PiecesVec(v, Pieces(ps[1..], end, w), fill), i - off);
  }

  ghost predicate NoneCovers(ps: seq<Node>, i: nat) {
    forall k :: 0 <= k < |ps| ==> ps[k].PartPV? && !Covers(ps[k], i)
  }

  lemma NoneCoversTail(ps: seq<Node>, i: nat)
    requires ps != [] && NoneCovers(ps, i)
    ensures NoneCovers(ps[1..], i) && ps[0].PartPV? && !Covers(ps[0], i)
  {
  }

  /** A bit below the first part, or above all parts, is the fill. */
  lemma GapBit(ps: seq<Node>, off: nat, w: nat, v: Valuation, fill: Bit, i: nat)
    requires Tiled(ps, off, w) && InputsFit(ps, v) && off <= i < w && (ps != [] ==> i < ps[0].base)
    ensures i - off < |PiecesVec(v, Pieces(ps, off, w), fill)|
    ensures PiecesVec(v, Pieces(ps, off, w), fill)[i - off] == fill
  {
  }

  /** A bit that no part covers is the fill. */
  lemma {:induction false} UncoveredBit(ps: seq<Node>, off: nat, w: nat, v: Valuation, fill: Bit, i: nat)
    requires Tiled(ps, off, w) && InputsFit(ps, v) && off <= i < w && NoneCovers(ps, i)
    ensures i - off < |PiecesVec(v, Pieces(ps, off, w), fill)|
    ensures PiecesVec(v, Pieces(ps, off, w), fill)[i - off] == fill
  {
    if ps == [] || i < ps[0].base {
      GapBit(ps, off, w, v, fill, i);
    } else {
      NoneCoversTail(ps, i);
      LaterBit(ps, off, w, v, fill, i);
      UncoveredBit(ps[1..], ps[0].base + ps[0].width, w, v, fill, i);
    }
  }

  /** Pin x of the concatenation carries piece p. */
  ghost predicate Carries(n: Netlist, x: nat, p: Piece, gapNexa: set<nat>) {
    && x in n.nexa && Width(n, x) == p.size
    && match p
       case Gap(_) => x in gapNexa
       case Part(source, _) => x == source
  }

  lemma {:induction false} CarriedCat(n: Netlist, pins: seq<nat>, pieces: seq<Piece>, gapNexa: set<nat>, v: Valuation,
                                      fill: Bit)
    requires |pins| == |pieces|
    requires forall k :: 0 <= k < |pins| ==> Carries(n, pins[k], pieces[k], gapNexa)
    requires forall x :: x in gapNexa ==> Get(v, x) == Rep(fill, Width(n, x))
    ensures Cat(v, pins) == PiecesVec(v, pieces, fill)
  {
    if pins == [] {
    } else {
      assert Carries(n, pins[0], pieces[0], gapNexa);
      forall k | 0 <= k < |pins[1..]|
        ensures Carries(n, pins[1..][k], pieces[1..][k], gapNexa)
      {
        assert Carries(n, pins[k + 1], pieces[k + 1], gapNexa);
      }
      CarriedCat(n, pins[1..], pieces[1..], gapNexa, v, fill);
    }
  }

  lemma {:induction false} CarriedWidth(n: Netlist, pins: seq<nat>, pieces: seq<Piece>, gapNexa: set<nat>)
    requires |pins| == |pieces|
    requires forall k :: 0 <= k < |pins| ==> Carries(n, pins[k], pieces[k], gapNexa)
    ensures TotalWidth(n, pins) == PiecesSize(pieces)
  {
    if pins == [] {
    } else {
      assert Carries(n, pins[0], pieces[0], gapNexa);
      forall k | 0 <= k < |pins[1..]|
        ensures Carries(n, pins[1..][k], pieces[1..][k], gapNexa)
      {
        assert Carries(n, pins[k + 1], pieces[k + 1], gapNexa);
      }
      CarriedWidth(n, pins[1..], pieces[1..], gapNexa);
    }
  }

  /** The list ps holds exactly the drivers of x, each once. */
  ghost predicate Lists(m: Netlist, x: nat, ids: seq<nat>) {
    && (forall id :: id in Drivers(m, x) <==> id in ids)
    && (forall j, k :: 0 <= j < k < |ids| ==> ids[j] != ids[k])
  }

  ghost predicate SamePart(m: Netlist, ids: seq<nat>, ps: seq<Node>) {
    && |ids| == |ps|
    && forall k :: 0 <= k < |ids| ==> ids[k] in m.nodes && m.nodes[ids[k]] == ps[k]
  }

  /** ids names every driver of x once, and ps holds those drivers, all of them parts. */
  ghost predicate PartList(m: Netlist, x: nat, ids: seq<nat>, ps: seq<Node>) {
    Lists(m, x, ids) && SamePart(m, ids, ps) && forall k :: 0 <= k < |ps| ==> ps[k].PartPV?
  }

  predicate SortedByBase(ps: seq<Node>) {
    && (forall k :: 0 <= k < |ps| ==> ps[k].PartPV?)
    && (forall j, k :: 0 <= j < k < |ps| ==> ps[j].base <= ps[k].base)
  }

  lemma PartsHaveWidth(m: Netlist, x: nat, ids: seq<nat>, ps: seq<Node>)
    requires WellFormed(m) && PartList(m, x, ids, ps)
    ensures forall k :: 0 <= k < |ps| ==> ps[k].width > 0 && ids[k] in Drivers(m, x)
  {
  }

  /** Sorted parts that fit and do not overlap lie one after the other. */
  lemma MergeableIsTiled(m: Netlist, x: nat, ids: seq<nat>, ps: seq<Node>)
    requires WellFormed(m) && x in m.nexa && PartList(m, x, ids, ps) && SortedByBase(ps)
    requires AllParts(m, x) && DisjointParts(m, x) && PartsFit(m, x)
    ensures Tiled(ps, 0, Width(m, x))
  {
    PartsHaveWidth(m, x, ids, ps);
    forall k | 0 < k < |ps|
      ensures ps[k - 1].base + ps[k - 1].width <= ps[k].base
    {
      assert OverlapFree(m.nodes[ids[k - 1]], m.nodes[ids[k]]);
    }
    AdjacentIsTiled(ps, 0, Width(m, x));
  }

  lemma TiledIsMergeable(m: Netlist, x: nat, ids: seq<nat>, ps: seq<Node>)
    requires Lists(m, x, ids) && SamePart(m, ids, ps) && Tiled(ps, 0, Width(m, x))
    ensures AllParts(m, x) && DisjointParts(m, x) && PartsFit(m, x)
  {
    TiledRange(ps, 0, Width(m, x));
    forall id | id in Drivers(m, x)
      ensures m.nodes[id].PartPV? && m.nodes[id].base + m.nodes[id].width <= Width(m, x)
    {
      var k :| 0 <= k < |ids| && ids[k] == id;
    }
    forall a, b | a in Drivers(m, x) && b in Drivers(m, x) && a != b
      ensures OverlapFree(m.nodes[a], m.nodes[b])
    {
      var j :| 0 <= j < |ids| && ids[j] == a;
      var k :| 0 <= k < |ids| && ids[k] == b;
      if j < k {
        TiledDisjoint(ps, 0, Width(m, x), j, k);
      } else {
        TiledDisjoint(ps, 0, Width(m, x), k, j);
      }
    }
  }

  /** Pins that carry the pieces of a tiled list of all the drivers blend those drivers. */
  lemma CarriedPins(m: Netlist, n: Netlist, x: nat, ids: seq<nat>, ps: seq<Node>, fill: Bit, pins: seq<nat>,
                    gaps: map<nat, nat>)
    requires Lists(m, x, ids) && SamePart(m, ids, ps) && Tiled(ps, 0, Width(m, x))
    requires |pins| == |Pieces(ps, 0, Width(m, x))|
    requires forall k :: 0 <= k < |pins| ==> Carries(n, pins[k], Pieces(ps, 0, Width(m, x))[k], gaps.Values)
    ensures AllParts(m, x) && MergedPins(m, n, x, fill, pins, gaps)
  {
    var w := Width(m, x);
    var pieces := Pieces(ps, 0, w);
    TiledIsMergeable(m, x, ids, ps);
    TiledRange(ps, 0, w);
    PiecesFill(ps, 0, w);
    CarriedWidth(n, pins, pieces, gaps.Values);
    forall k | 0 <= k < |pins|
      ensures pins[k] in n.nexa
    {
      assert Carries(n, pins[k], pieces[k], gaps.Values);
    }
    forall v | MergeInputs(m, n, x, v, fill, gaps)
      ensures Blends(m, x, v, fill, Cat(v, pins))
    {
      forall g | g in gaps.Values
        ensures Get(v, g) == Rep(fill, Width(n, g))
      {
        var id :| id in gaps && gaps[id] == g;
      }
      CarriedCat(n, pins, pieces, gaps.Values, v, fill);
      TiledBlends(m, x, ids, ps, v, fill);
    }
  }

  lemma ListedInputsFit(m: Netlist, x: nat, ids: seq<nat>, ps: seq<Node>, v: Valuation)
    requires Lists(m, x, ids) && SamePart(m, ids, ps) && AllParts(m, x)
    requires forall id :: id in Drivers(m, x) ==> |Get(v, m.nodes[id].inp)| == m.nodes[id].width
    ensures InputsFit(ps, v)
  {
  }

  lemma DrivenByNone(m: Netlist, x: nat, ids: seq<nat>, ps: seq<Node>, i: nat)
    requires Lists(m, x, ids) && SamePart(m, ids, ps) && AllParts(m, x) && !Driven(m, x, i)
    ensures NoneCovers(ps, i)
  {
  }

  lemma TiledBlends(m: Netlist, x: nat, ids: seq<nat>, ps: seq<Node>, v: Valuation, fill: Bit)
    requires Lists(m, x, ids) && SamePart(m, ids, ps) && Tiled(ps, 0, Width(m, x)) && AllParts(m, x)
    requires forall id :: id in Drivers(m, x) ==> |Get(v, m.nodes[id].inp)| == m.nodes[id].width
    ensures Blends(m, x, v, fill, PiecesVec(v, Pieces(ps, 0, Width(m, x)), fill))
  {
    var w := Width(m, x);
    ListedInputsFit(m, x, ids, ps, v);
    PiecesVecLength(ps, 0, w, v, fill);
    var y := PiecesVec(v, Pieces(ps, 0, w), fill);
    forall id, i | id in Drivers(m, x) && 0 <= i < |y| && Covers(m.nodes[id], i)
      ensures y[i] == At(Get(v, m.nodes[id].inp), i - m.nodes[id].base)
    {
      var k :| 0 <= k < |ids| && ids[k] == id;
      CoveredBit(ps, 0, w, v, fill, k, i);
    }
    forall i | 0 <= i < |y| && !Driven(m, x, i)
      ensures y[i] == fill
    {
      DrivenByNone(m, x, ids, ps, i);
      UncoveredBit(ps, 0, w, v, fill, i);
    }
  }
}
