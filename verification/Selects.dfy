/** Constant selects of a packed vector: where the bits that they name are. */
module Selects {
  import opened PowersOfTwo
  import opened FourState

  datatype Range = Range(msb: int, lsb: int)

  predicate Descending(r: Range) {
    r.msb >= r.lsb
  }

  function Width(r: Range): (w: nat)
    ensures w >= 1
  {
    if Descending(r) then r.msb - r.lsb + 1 else r.lsb - r.msb + 1
  }

  predicate Inside(r: Range, i: int) {
    if Descending(r) then r.lsb <= i <= r.msb else r.msb <= i <= r.lsb
  }

  /** The place of index i in its dimension, counted from the least significant end. */
  function Offset(r: Range, i: int): int {
    if Descending(r) then i - r.lsb else r.lsb - i
  }

  /** The canonical bit of a full list of indices: a number whose digits are the offsets, outermost first. */
  function Canonical(dims: seq<Range>, indices: seq<int>): int
    requires |indices| == |dims|
  {
    if dims == [] then 0
    else
      var n := |dims| - 1;
      Canonical(dims[..n], indices[..n]) * Width(dims[n]) + Offset(dims[n], indices[n])
  }

  function VectorWidth(dims: seq<Range>): (w: nat)
    ensures w >= 1
  {
    if dims == [] then 1
    else
      AtLeastOnce(VectorWidth(dims[..|dims| - 1]), Width(dims[|dims| - 1]));
      VectorWidth(dims[..|dims| - 1]) * Width(dims[|dims| - 1])
  }

  /** Indices inside their dimensions name bits of the vector, and different ones name different bits. */
  lemma {:induction false} CanonicalInside(dims: seq<Range>, indices: seq<int>)
    requires |indices| == |dims| && forall k :: 0 <= k < |dims| ==> Inside(dims[k], indices[k])
    ensures 0 <= Canonical(dims, indices) < VectorWidth(dims)
  {
    if dims == [] {
    } else {
      var n := |dims| - 1;
      CanonicalInside(dims[..n], indices[..n]);
      var outer := Canonical(dims[..n], indices[..n]);
      DigitFits(outer, VectorWidth(dims[..n]), Offset(dims[n], indices[n]), Width(dims[n]));
    }
  }

  /** The right ends of all dimensions name bit 0 and the left ends the top bit. */
  lemma {:induction false} CanonicalEnds(dims: seq<Range>)
    ensures Canonical(dims, seq(|dims|, k requires 0 <= k < |dims| => dims[k].lsb)) == 0
    ensures Canonical(dims, seq(|dims|, k requires 0 <= k < |dims| => dims[k].msb)) == VectorWidth(dims) - 1
  {
    if dims == [] {
    } else {
      var n := |dims| - 1;
      CanonicalEnds(dims[..n]);
      var lsbs := seq(|dims|, k requires 0 <= k < |dims| => dims[k].lsb);
      var msbs := seq(|dims|, k requires 0 <= k < |dims| => dims[k].msb);
      assert lsbs[..n] == seq(|dims[..n]|, k requires 0 <= k < |dims[..n]| => dims[..n][k].lsb);
      assert msbs[..n] == seq(|dims[..n]|, k requires 0 <= k < |dims[..n]| => dims[..n][k].msb);
      Distribute(VectorWidth(dims[..n]), -1, Width(dims[n]));
    }
  }

  /** An index is inside its dimension exactly when it is one of as many places as the dimension has. */
  lemma InsideExactly(r: Range, i: int)
    ensures Inside(r, i) <==> 0 <= Canonical([r], [i]) < VectorWidth([r])
  {
    assert [r][..0] == [] && [i][..0] == [];
  }

  lemma DigitFits(a: int, n: int, d: int, w: int)
    requires 0 <= a < n && 0 <= d < w
    ensures 0 <= a * w + d < n * w
  {
    Distribute(n - a, a, w);
    AtLeastOnce(n - a, w);
    assert a * w >= 0;
  }

  lemma {:induction false} CanonicalInjective(dims: seq<Range>, p: seq<int>, q: seq<int>)
    requires |p| == |q| == |dims| && p != q
    requires forall k :: 0 <= k < |dims| ==> Inside(dims[k], p[k]) && Inside(dims[k], q[k])
    ensures Canonical(dims, p) != Canonical(dims, q)
  {
    var n := |dims| - 1;
    var a, b, w := Canonical(dims[..n], p[..n]), Canonical(dims[..n], q[..n]), Width(dims[n]);
    if Canonical(dims, p) == Canonical(dims, q) {
      RemainderUnique(a * w + Offset(dims[n], p[n]), w, a, Offset(dims[n], p[n]));
      RemainderUnique(b * w + Offset(dims[n], q[n]), w, b, Offset(dims[n], q[n]));
      assert p == p[..n] + [p[n]] && q == q[..n] + [q[n]];
      CanonicalInjective(dims[..n], p[..n], q[..n]);
    }
  }

  /** NetNet::sb_to_idx, which works from the innermost dimension outward */
  method SbToIdx(dims: seq<Range>, prefix: seq<int>, sb: int) returns (off: int)
    requires |prefix| + 1 == |dims|
    ensures off == Canonical(dims, prefix + [sb])
  {
    var cur := |dims| - 1;
    var accWid := Width(dims[cur]);
    off := if dims[cur].msb >= dims[cur].lsb then sb - dims[cur].lsb else dims[cur].lsb - sb;
    assert dims[..|dims|] == dims;
    assert (prefix + [sb])[..cur] == prefix[..cur];
    while cur != 0
      invariant 0 <= cur <= |prefix|
      invariant Canonical(dims, prefix + [sb]) == Canonical(dims[..cur], prefix[..cur]) * accWid + off
    {
      cur := cur - 1;
      ghost var outer := Canonical(dims[..cur], prefix[..cur]);
      assert dims[..cur + 1][..cur] == dims[..cur] && prefix[..cur + 1][..cur] == prefix[..cur];
      var tmpOff := if dims[cur].msb >= dims[cur].lsb then prefix[cur] - dims[cur].lsb else dims[cur].lsb - prefix[cur];
      Distribute(outer * Width(dims[cur]), tmpOff, accWid);
      MulAssociates(outer, Width(dims[cur]), accWid);
      off := off + tmpOff * accWid;
      accWid := Width(dims[cur]) * accWid;
    }
  }

  // ------------------------------------------------------------- sub-arrays

  /** The number of dimensions that a prefix and one more index use up leaves sub-arrays of this many bits. */
  function SliceWidth(dims: seq<Range>, prefix: seq<int>): (w: nat)
    requires |prefix| < |dims|
    ensures w >= 1
  {
    VectorWidth(dims[|prefix| + 1..])
  }

  /** Which sub-array index i names after the prefix, counted from the least significant one. */
  function Address(dims: seq<Range>, prefix: seq<int>, i: int): int
    requires |prefix| < |dims|
  {
    Canonical(dims[..|prefix| + 1], prefix + [i])
  }

  /** The lowest canonical bit of that sub-array. */
  function BitOf(dims: seq<Range>, prefix: seq<int>, i: int): int
    requires |prefix| < |dims|
  {
    Address(dims, prefix, i) * SliceWidth(dims, prefix)
  }

  lemma {:induction false} VectorWidthSplit(dims: seq<Range>, n: nat)
    requires n <= |dims|
    ensures VectorWidth(dims) == VectorWidth(dims[..n]) * VectorWidth(dims[n..])
    decreases |dims| - n
  {
    var m := |dims| - 1;
    if n == |dims| {
      assert dims[..n] == dims && dims[n..] == [];
    } else {
      var rest := dims[n..];
      assert rest[..|rest| - 1] == dims[..m][n..] && rest[|rest| - 1] == dims[m];
      assert dims[..m][..n] == dims[..n];
      VectorWidthSplit(dims[..m], n);
      MulAssociates(VectorWidth(dims[..n]), VectorWidth(dims[..m][n..]), Width(dims[m]));
    }
  }

  /** prefix_to_slice: the sub-array that index sb names, unless sb is outside its dimension */
  method SbToSlice(dims: seq<Range>, prefix: seq<int>, sb: int) returns (ok: bool, loff: int, lwid: nat)
    requires |prefix| < |dims|
    ensures ok <==> Inside(dims[|prefix|], sb)
    ensures ok ==> loff == BitOf(dims, prefix, sb) && lwid == SliceWidth(dims, prefix)
  {
    var accWid := 1;
    var cur := |dims|;
    loff := 0;
    assert dims[|dims|..] == [];
    for idx := |prefix| + 1 to |dims|
      invariant cur == |dims| + |prefix| + 1 - idx
      invariant accWid == VectorWidth(dims[cur..])
    {
      cur := cur - 1;
      VectorWidthSplit(dims[cur..], 1);
      assert dims[cur..][1..] == dims[cur + 1..] && dims[cur..][..1] == [dims[cur]];
      OneDimension(dims[cur]);
      accWid := Width(dims[cur]) * accWid;
    }
    lwid := accWid;
    cur := cur - 1;
    if (sb < dims[cur].msb && sb < dims[cur].lsb) || (sb > dims[cur].msb && sb > dims[cur].lsb) {
      return false, loff, lwid;
    }
    ok := true;
    loff := AccumulateSlice(dims, prefix, sb, lwid);
  }

  lemma OneDimension(r: Range)
    ensures VectorWidth([r]) == Width(r)
  {
  }

  /** One dimension more: what the digits outside it contribute, and its own digit */
  lemma OneDigit(outer: int, width: int, digit: int, accWid: int)
    ensures (outer * width + digit) * accWid == outer * (width * accWid) + digit * accWid
  {
    Distribute(outer * width, digit, accWid);
    MulAssociates(outer, width, accWid);
  }

  /** The canonical number of the first indices, one more of them */
  lemma CanonicalDigit(dims: seq<Range>, indices: seq<int>, cur: nat)
    requires cur < |dims| && cur < |indices|
    ensures Canonical(dims[..cur + 1], indices[..cur + 1]) ==
            Canonical(dims[..cur], indices[..cur]) * Width(dims[cur]) + Offset(dims[cur], indices[cur])
  {
    assert dims[..cur + 1][..cur] == dims[..cur] && indices[..cur + 1][..cur] == indices[..cur];
  }

  /** The second loop of prefix_to_slice, from the indexed dimension outward */
  method AccumulateSlice(dims: seq<Range>, prefix: seq<int>, sb: int, lwid: nat) returns (off: int)
    requires |prefix| < |dims|
    ensures off == Address(dims, prefix, sb) * lwid
  {
    var cur := |prefix|;
    var accWid := lwid;
    off := (if dims[cur].msb >= dims[cur].lsb then sb - dims[cur].lsb else dims[cur].lsb - sb) * accWid;
    ghost var all := prefix + [sb];
    assert all[..cur + 1] == all && all[..cur] == prefix[..cur];
    CanonicalDigit(dims, all, cur);
    OneDigit(Canonical(dims[..cur], prefix[..cur]), Width(dims[cur]), Offset(dims[cur], sb), accWid);
    while cur != 0
      invariant 0 <= cur <= |prefix|
      invariant Address(dims, prefix, sb) * lwid
                  == Canonical(dims[..cur], prefix[..cur]) * (Width(dims[cur]) * accWid) + off
    {
      accWid := Width(dims[cur]) * accWid;
      cur := cur - 1;
      CanonicalDigit(dims, prefix, cur);
      var tmpOff := if dims[cur].msb >= dims[cur].lsb then prefix[cur] - dims[cur].lsb else dims[cur].lsb - prefix[cur];
      OneDigit(Canonical(dims[..cur], prefix[..cur]), Width(dims[cur]), tmpOff, accWid);
      off := off + tmpOff * accWid;
    }
  }

  // -------------------------------------------------------- indexed selects

  /** An indexed select [base +: wid] or [base -: wid], after a prefix of indices. It selects wid sub-arrays or bits. */
  datatype Indexed = Indexed(base: int, wid: nat, up: bool)

  /** The index of the select that is k places from its lowest. */
  function IndexOf(s: Indexed, k: nat): int {
    if s.up then s.base + k else s.base - s.wid + 1 + k
  }

  /** The index of the select that is k places from its right end. */
  function FromRight(r: Range, s: Indexed, k: nat): int
    requires k < s.wid
  {
    IndexOf(s, if Descending(r) then k else s.wid - 1 - k)
  }

  /** [base +: wid] names base, ..., base + wid - 1, and [base -: wid] names base - wid + 1, ..., base. */
  lemma IndicesOf(s: Indexed, i: int)
    ensures (exists k: nat :: k < s.wid && IndexOf(s, k) == i) <==>
            if s.up then s.base <= i < s.base + s.wid else s.base - s.wid < i <= s.base
    ensures s.wid >= 1 ==> FarEnd(s) == (if s.up then s.base + (s.wid - 1) else s.base - (s.wid - 1))
  {
    var k := if s.up then i - s.base else i - (s.base - s.wid + 1);
    if 0 <= k < s.wid {
      assert IndexOf(s, k) == i;
    }
  }

  /** One index more is one sub-array higher where the dimension descends, and one lower where it ascends. */
  lemma BitDiffers(dims: seq<Range>, prefix: seq<int>, i: int, j: int)
    requires |prefix| < |dims|
    ensures BitOf(dims, prefix, j) - BitOf(dims, prefix, i) ==
            (if Descending(dims[|prefix|]) then j - i else i - j) * SliceWidth(dims, prefix)
  {
  }

  /** low is the lowest canonical bit of the select. */
  ghost predicate IsLowest(dims: seq<Range>, prefix: seq<int>, s: Indexed, low: int)
    requires |prefix| < |dims|
  {
    && (forall k :: 0 <= k < s.wid ==> low <= BitOf(dims, prefix, IndexOf(s, k)))
    && (exists k :: 0 <= k < s.wid && low == BitOf(dims, prefix, IndexOf(s, k)))
  }

  /** The lowest bit belongs to the right end of the select. */
  lemma LowestAtEnd(dims: seq<Range>, prefix: seq<int>, s: Indexed, low: int)
    requires |prefix| < |dims| && s.wid >= 1
    ensures IsLowest(dims, prefix, s, low) <==> low == BitOf(dims, prefix, FromRight(dims[|prefix|], s, 0))
  {
    var r := dims[|prefix|];
    var at := BitOf(dims, prefix, FromRight(r, s, 0));
    forall k | 0 <= k < s.wid
      ensures at <= BitOf(dims, prefix, IndexOf(s, k))
    {
      BitDiffers(dims, prefix, FromRight(r, s, 0), IndexOf(s, k));
      TimesNonNegative(if Descending(r) then k else s.wid - 1 - k, SliceWidth(dims, prefix));
    }
    assert IndexOf(s, if Descending(r) then 0 else s.wid - 1) == FromRight(r, s, 0);
    assert IsLowest(dims, prefix, s, at);
  }

  /** Sub-array k from the right starts k sub-arrays above the lowest bit. */
  lemma BitFromRight(dims: seq<Range>, prefix: seq<int>, s: Indexed, low: int, k: nat)
    requires |prefix| < |dims| && k < s.wid && IsLowest(dims, prefix, s, low)
    ensures BitOf(dims, prefix, FromRight(dims[|prefix|], s, k)) == low + k * SliceWidth(dims, prefix)
  {
    LowestAtEnd(dims, prefix, s, low);
    BitDiffers(dims, prefix, FromRight(dims[|prefix|], s, 0), FromRight(dims[|prefix|], s, k));
  }

  /** What a select of a vector comes to: the vector itself, some bits of it, nothing, or an error. */
  datatype Select = Whole | Part(base: int, wid: nat) | Outside | Refused

  /** The first bit and the number of bits that a select covers. */
  function Bits(s: Select, width: nat): (int, nat) {
    match s
    case Whole => (0, width)
    case Part(base, wid) => (base, wid)
    case _ => (0, 0)
  }

  /** The select covers exactly the sub-arrays with the indices of s. */
  ghost predicate Covers(dims: seq<Range>, prefix: seq<int>, s: Indexed, sel: Select)
    requires |prefix| < |dims|
  {
    && (sel.Whole? || sel.Part?)
    && IsLowest(dims, prefix, s, Bits(sel, VectorWidth(dims)).0)
    && Bits(sel, VectorWidth(dims)).1 == s.wid * SliceWidth(dims, prefix)
  }

  /** An unsigned base that does not fit a 32-bit int is taken to be outside the vector. */
  predicate Wraps(base: int, signed: bool) {
    !signed && base % 0x1_0000_0000 >= 0x8000_0000
  }

  /** That is, the low 32 bits of the base are those of a negative int. */
  lemma WrapsNegative(base: int, signed: bool)
    ensures Wraps(base, signed) <==> !signed && Interpret(Low(base, 32), 32, true) < 0
  {
    Pow2Of32();
    assert Pow2(32) == 2 * Pow2(31);
  }

  /** More than one dimension is left after the prefix, so that sub-arrays are selected. */
  predicate OfSubArrays(dims: seq<Range>, prefix: seq<int>) {
    |prefix| + 1 < |dims|
  }

  /** The other end of an indexed select. */
  function FarEnd(s: Indexed): int {
    if s.up then s.base + s.wid - 1 else s.base - s.wid + 1
  }

  predicate EndsInside(dims: seq<Range>, prefix: seq<int>, s: Indexed)
    requires |prefix| < |dims|
  {
    Inside(dims[|prefix|], s.base) && Inside(dims[|prefix|], FarEnd(s))
  }

  /** Of both ends of a select the right one has the lower bits. */
  lemma LowerEnd(dims: seq<Range>, prefix: seq<int>, s: Indexed)
    requires |prefix| < |dims| && s.wid >= 1
    ensures var a, b := BitOf(dims, prefix, s.base), BitOf(dims, prefix, FarEnd(s));
            && IsLowest(dims, prefix, s, if a > b then b else a)
            && (if a > b then a - b else b - a) == (s.wid - 1) * SliceWidth(dims, prefix)
  {
    var a, b := BitOf(dims, prefix, s.base), BitOf(dims, prefix, FarEnd(s));
    BitDiffers(dims, prefix, s.base, FarEnd(s));
    TimesNonNegative(s.wid - 1, SliceWidth(dims, prefix));
    NegatedProduct(s.wid - 1, SliceWidth(dims, prefix));
    LowestAtEnd(dims, prefix, s, if a > b then b else a);
    LowestOfEnds(dims, prefix, s);
  }

  lemma NegatedProduct(a: int, b: int)
    ensures (-a) * b == -(a * b)
  {
  }

  lemma LowestOfEnds(dims: seq<Range>, prefix: seq<int>, s: Indexed)
    requires |prefix| < |dims| && s.wid >= 1
    ensures var a, b := BitOf(dims, prefix, s.base), BitOf(dims, prefix, FarEnd(s));
            var right := BitOf(dims, prefix, FromRight(dims[|prefix|], s, 0));
            (right == a && a <= b) || (right == b && b <= a)
  {
  }

  /** Two sub-arrays at the ends of a select span it. */
  lemma EndsSpan(dims: seq<Range>, prefix: seq<int>, s: Indexed)
    requires |prefix| < |dims| && s.wid >= 1
    ensures var a, b := BitOf(dims, prefix, s.base), BitOf(dims, prefix, FarEnd(s));
            (if a > b then a - b else b - a) + SliceWidth(dims, prefix) == s.wid * SliceWidth(dims, prefix)
  {
    LowerEnd(dims, prefix, s);
    Distribute(s.wid - 1, 1, SliceWidth(dims, prefix));
  }

  lemma LastDimension(dims: seq<Range>, prefix: seq<int>, i: int)
    requires |prefix| + 1 == |dims|
    ensures SliceWidth(dims, prefix) == 1 && BitOf(dims, prefix, i) == Canonical(dims, prefix + [i])
  {
    assert dims[|dims|..] == [] && dims[..|dims|] == dims;
  }

  /** The offset rule of expressions and of procedural l-values, when bits are selected. */
  lemma OffsetRule(dims: seq<Range>, prefix: seq<int>, s: Indexed, offset: int)
    requires |prefix| + 1 == |dims| && s.wid >= 1 && (offset == 0 || offset == 1 - s.wid)
    ensures var low := BitOf(dims, prefix, s.base) + offset;
            IsLowest(dims, prefix, s, low) <==>
            s.wid == 1 || (offset == 0) == (s.up == Descending(dims[|prefix|]))
  {
    LastDimension(dims, prefix, s.base);
    BitDiffers(dims, prefix, s.base, FromRight(dims[|prefix|], s, 0));
    LowestAtEnd(dims, prefix, s, BitOf(dims, prefix, s.base) + offset);
  }

  /** If the select covers exactly the entire vector it is left out. */
  function SelectOf(dims: seq<Range>, relBase: int, wid: nat): Select {
    if relBase == 0 && wid == VectorWidth(dims) then Whole else Part(relBase, wid)
  }

  /**
   * A constant indexed select as an expression; elaborate_expr_net_idx_up_do_. The width in bits is the one that
   * test_width has calculated.
   */
  method RvalueSelect(dims: seq<Range>, prefix: seq<int>, s: Indexed, signed: bool) returns (sel: Select)
    requires |prefix| < |dims| && s.wid >= 1
    ensures sel == Outside <==> !signed && Interpret(Low(s.base, 32), 32, true) < 0
    ensures sel == Refused <==> !Wraps(s.base, signed) && OfSubArrays(dims, prefix) && !EndsInside(dims, prefix, s)
    ensures sel.Whole? || sel.Part? ==>
              (Covers(dims, prefix, s, sel) <==>
               OfSubArrays(dims, prefix) || dims[|prefix|].msb != dims[|prefix|].lsb || s.wid == 1)
  {
    WrapsNegative(s.base, signed);
    if Wraps(s.base, signed) {
      return Outside;
    }
    var swid := SliceWidth(dims, prefix);
    TimesNonNegative(s.wid, swid);
    var wid := s.wid * swid;
    var relBase;
    if |prefix| + 1 < |dims| {
      QuotientOfProduct(s.wid, swid);
      var lsv := if s.up then s.base + (wid / swid - 1) else s.base - (wid / swid - 1);
      var mrc, moff, mwid := SbToSlice(dims, prefix, s.base);
      var lrc, loff, lwid := SbToSlice(dims, prefix, lsv);
      if !mrc || !lrc {
        return Refused;
      }
      relBase := if moff > loff then loff else moff;
      LowerEnd(dims, prefix, s);
    } else {
      var offset := 0;
      var rng := dims[|dims| - 1];
      if (rng.msb > rng.lsb) != s.up {
        offset := 0 - s.wid + 1;
      }
      var at := SbToIdx(dims, prefix, s.base);
      relBase := at + offset;
      LastDimension(dims, prefix, s.base);
      OffsetRule(dims, prefix, s, offset);
    }
    return SelectOf(dims, relBase, wid);
  }

  lemma QuotientOfProduct(a: nat, b: nat)
    requires b > 0
    ensures (a * b) / b == a
  {
    RemainderUnique(a * b, b, a, 0);
  }

  /** A constant indexed select as a procedural l-value; elaborate_lval_net_idx_ */
  method LvalueSelect(dims: seq<Range>, prefix: seq<int>, s: Indexed, signed: bool) returns (sel: Select)
    requires |prefix| < |dims| && s.wid >= 1
    ensures sel == Outside <==> !signed && Interpret(Low(s.base, 32), 32, true) < 0
    ensures sel == Refused <==> !Wraps(s.base, signed) && OfSubArrays(dims, prefix) && !EndsInside(dims, prefix, s)
    ensures sel.Whole? || sel.Part? ==>
              (Covers(dims, prefix, s, sel) <==>
               OfSubArrays(dims, prefix) || dims[|prefix|].msb != dims[|prefix|].lsb || s.wid == 1 || s.up)
  {
    WrapsNegative(s.base, signed);
    if Wraps(s.base, signed) {
      return Outside;
    }
    var wid := s.wid;
    var relBase;
    if |prefix| + 1 < |dims| {
      var mrc, moff, mwid := SbToSlice(dims, prefix, s.base);
      var lrc, loff, lwid := SbToSlice(dims, prefix, if s.up then s.base + s.wid - 1 else s.base - s.wid + 1);
      if !mrc || !lrc {
        return Refused;
      }
      if moff > loff {
        relBase := loff;
        wid := moff + mwid - loff;
      } else {
        relBase := moff;
        wid := loff + lwid - moff;
      }
      LowerEnd(dims, prefix, s);
      EndsSpan(dims, prefix, s);
    } else {
      var offset := 0;
      var rng := dims[|dims| - 1];
      if (rng.msb < rng.lsb && s.up) || (rng.msb > rng.lsb && !s.up) {
        offset := 0 - s.wid + 1;
      }
      var at := SbToIdx(dims, prefix, s.base);
      relBase := at + offset;
      LastDimension(dims, prefix, s.base);
      OffsetRule(dims, prefix, s, offset);
    }
    return SelectOf(dims, relBase, wid);
  }

  /** A constant indexed select as a net l-value; PEIdent::eval_part_select_ */
  method NetSelect(dims: seq<Range>, prefix: seq<int>, s: Indexed, signed: bool)
    returns (ok: bool, midx: int, lidx: int)
    requires |prefix| < |dims| && s.wid >= 1
    ensures ok ==> IsLowest(dims, prefix, s, lidx) && midx == lidx + s.wid * SliceWidth(dims, prefix) - 1
    ensures ok <==> (signed || Interpret(Low(s.base, 32), 32, true) >= 0) &&
                    if OfSubArrays(dims, prefix) then EndsInside(dims, prefix, s) else SomeInside(dims, prefix, s)
  {
    midx, lidx := 0, 0;
    WrapsNegative(s.base, signed);
    if Wraps(s.base, signed) {
      return false, midx, lidx;
    }
    if |prefix| + 1 < |dims| {
      var mrc, moff, mwid := SbToSlice(dims, prefix, s.base);
      var lrc, loff, lwid := SbToSlice(dims, prefix, if s.up then s.base + s.wid - 1 else s.base - s.wid + 1);
      if !mrc || !lrc {
        return false, midx, lidx;
      }
      if moff > loff {
        lidx := loff;
        midx := moff + mwid - 1;
      } else {
        lidx := moff;
        midx := loff + lwid - 1;
      }
      LowerEnd(dims, prefix, s);
      EndsSpan(dims, prefix, s);
      return true, midx, lidx;
    }
    ok, midx, lidx := NetBits(dims, prefix, s);
  }

  /** Some of the selected bits are in the vector. */
  ghost predicate SomeInside(dims: seq<Range>, prefix: seq<int>, s: Indexed)
    requires |prefix| < |dims|
  {
    exists k :: 0 <= k < s.wid && 0 <= BitOf(dims, prefix, IndexOf(s, k)) < VectorWidth(dims)
  }

  /** The part of eval_part_select_ for bits */
  method NetBits(dims: seq<Range>, prefix: seq<int>, s: Indexed) returns (ok: bool, midx: int, lidx: int)
    requires |prefix| + 1 == |dims| && s.wid >= 1
    ensures IsLowest(dims, prefix, s, lidx) && midx == lidx + s.wid - 1
    ensures SliceWidth(dims, prefix) == 1 && (ok <==> SomeInside(dims, prefix, s))
  {
    midx := SbToIdx(dims, prefix, s.base);
    if s.up {
      lidx := SbToIdx(dims, prefix, s.base + s.wid - 1);
    } else {
      lidx := SbToIdx(dims, prefix, s.base - s.wid + 1);
    }
    LastDimension(dims, prefix, s.base);
    LastDimension(dims, prefix, FarEnd(s));
    LowerEnd(dims, prefix, s);
    if midx < lidx {
      var tmp := midx;
      midx := lidx;
      lidx := tmp;
    }
    ok := !(lidx >= VectorWidth(dims) || midx < 0);
    SpanMeets(dims, prefix, s, lidx);
  }

  lemma SpanMeets(dims: seq<Range>, prefix: seq<int>, s: Indexed, low: int)
    requires |prefix| + 1 == |dims| && s.wid >= 1 && IsLowest(dims, prefix, s, low)
    ensures SomeInside(dims, prefix, s) <==> low < VectorWidth(dims) && low + s.wid > 0
  {
    LastDimension(dims, prefix, s.base);
    var r := dims[|prefix|];
    forall k | 0 <= k < s.wid
      ensures BitOf(dims, prefix, IndexOf(s, k)) == low + (if Descending(r) then k else s.wid - 1 - k)
    {
      BitFromRight(dims, prefix, s, low, if Descending(r) then k else s.wid - 1 - k);
      assert IndexOf(s, k) == FromRight(r, s, if Descending(r) then k else s.wid - 1 - k);
    }
    if low < VectorWidth(dims) && low + s.wid > 0 {
      var d := if low < 0 then -low else 0;
      var k := if Descending(r) then d else s.wid - 1 - d;
      assert BitOf(dims, prefix, IndexOf(s, k)) == low + d;
    }
  }

  /** The three computations agree wherever they are right: there is one lowest bit. */
  lemma LowestIsUnique(dims: seq<Range>, prefix: seq<int>, s: Indexed, low: int, low': int)
    requires |prefix| < |dims|
    requires IsLowest(dims, prefix, s, low) && IsLowest(dims, prefix, s, low')
    ensures low == low'
  {
  }

  // ------------------------------------------------------------ part selects

  /** The indices of a part select that runs in the direction of its dimension, from the right end. */
  function PartAsIndexed(r: Range, msb: int, lsb: int): Indexed
    requires if Descending(r) then msb >= lsb else msb <= lsb
  {
    if Descending(r) then Indexed(lsb, msb - lsb + 1, true) else Indexed(lsb, lsb - msb + 1, false)
  }

  predicate Reversed(r: Range, msb: int, lsb: int) {
    if Descending(r) then msb < lsb else msb > lsb
  }

  /** A part select [msb : lsb] as a procedural l-value; elaborate_lval_net_part_ */
  method LvaluePart(dims: seq<Range>, prefix: seq<int>, msb: int, lsb: int) returns (sel: Select)
    requires |prefix| < |dims|
    ensures sel == Refused <==>
              || (OfSubArrays(dims, prefix) && !(Inside(dims[|prefix|], msb) && Inside(dims[|prefix|], lsb)))
              || Reversed(dims[|prefix|], msb, lsb)
    ensures sel != Refused ==> Covers(dims, prefix, PartAsIndexed(dims[|prefix|], msb, lsb), sel)
  {
    var loff, moff;
    if |prefix| + 1 < |dims| {
      var lrc, lwid, mrc, mwid;
      lrc, loff, lwid := SbToSlice(dims, prefix, lsb);
      mrc, moff, mwid := SbToSlice(dims, prefix, msb);
      if !mrc || !lrc {
        return Refused;
      }
      moff := moff + mwid - 1;
    } else {
      loff := SbToIdx(dims, prefix, lsb);
      moff := SbToIdx(dims, prefix, msb);
      LastDimension(dims, prefix, lsb);
      LastDimension(dims, prefix, msb);
    }
    PartSpan(dims, prefix, msb, lsb);
    if moff < loff {
      return Refused;
    }
    sel := SelectOf(dims, loff, moff - loff + 1);
  }

  lemma PartSpan(dims: seq<Range>, prefix: seq<int>, msb: int, lsb: int)
    requires |prefix| < |dims|
    ensures var moff, loff := BitOf(dims, prefix, msb) + SliceWidth(dims, prefix) - 1, BitOf(dims, prefix, lsb);
            && (moff < loff <==> Reversed(dims[|prefix|], msb, lsb))
            && (moff >= loff ==>
                 var s := PartAsIndexed(dims[|prefix|], msb, lsb);
                 IsLowest(dims, prefix, s, loff) && moff - loff + 1 == s.wid * SliceWidth(dims, prefix))
  {
    var w := SliceWidth(dims, prefix);
    BitDiffers(dims, prefix, lsb, msb);
    if Reversed(dims[|prefix|], msb, lsb) {
      var d := if Descending(dims[|prefix|]) then lsb - msb else msb - lsb;
      AtLeastOnce(d, w);
      NegatedProduct(d, w);
    } else {
      var s := PartAsIndexed(dims[|prefix|], msb, lsb);
      TimesNonNegative(s.wid - 1, w);
      Distribute(s.wid - 1, 1, w);
      LowestAtEnd(dims, prefix, s, BitOf(dims, prefix, lsb));
    }
  }

  // ----------------------------------------------------- writing and reading

  /** The vector after the bits x have been written from bit `base` on; bits that fall outside are lost. */
  function WriteBits(v: Vec, base: int, x: Vec): (r: Vec)
    ensures |r| == |v|
  {
    seq(|v|, j requires 0 <= j < |v| => if base <= j < base + |x| then x[j - base] else v[j])
  }

  /** The bits from `base` on; outside the vector they are undefined. */
  function ReadBits(v: Vec, base: int, wid: nat): (r: Vec)
    ensures |r| == wid
  {
    seq(wid, k requires 0 <= k < wid => if 0 <= base + k < |v| then v[base + k] else BX)
  }

  /** Bit a of the vector is bit j of the sub-array that is k places from the right end of the select. */
  predicate BitAt(dims: seq<Range>, prefix: seq<int>, s: Indexed, k: nat, j: nat, a: int)
    requires |prefix| < |dims|
  {
    k < s.wid && j < SliceWidth(dims, prefix) && a == BitOf(dims, prefix, FromRight(dims[|prefix|], s, k)) + j
  }

  /** The bit is in no sub-array that the select names. */
  ghost predicate NotNamed(dims: seq<Range>, prefix: seq<int>, s: Indexed, a: int)
    requires |prefix| < |dims|
  {
    forall k: nat, j: nat :: !BitAt(dims, prefix, s, k, j, a)
  }

  /** The bit is written and read back; outside the vector it is lost, and reads as undefined. */
  predicate Returned(dims: seq<Range>, prefix: seq<int>, x: Vec, after: Vec, back: Vec, k: nat, j: nat, a: int)
    requires |prefix| < |dims|
  {
    var i := k * SliceWidth(dims, prefix) + j;
    0 <= i < |x| == |back| && if 0 <= a < |after| then after[a] == x[i] == back[i] else back[i] == BX
  }

  /**
   * What is written through one select that covers its indices and read through another gives back what was
   * written, as far as it lies inside the vector, and every bit that the indices do not name is as it was.
   */
  lemma SelectRoundTrip(dims: seq<Range>, prefix: seq<int>, s: Indexed, to: Select, from: Select, v: Vec, x: Vec)
    requires |prefix| < |dims| && |v| == VectorWidth(dims) && |x| == s.wid * SliceWidth(dims, prefix)
    requires Covers(dims, prefix, s, to) && Covers(dims, prefix, s, from)
    ensures var after := WriteBits(v, Bits(to, |v|).0, x);
            var back := ReadBits(after, Bits(from, |v|).0, Bits(from, |v|).1);
            && (forall k: nat, j: nat, a: int :: BitAt(dims, prefix, s, k, j, a) ==>
                  Returned(dims, prefix, x, after, back, k, j, a))
            && (forall a :: 0 <= a < |v| && NotNamed(dims, prefix, s, a) ==> after[a] == v[a])
  {
    var low := Bits(to, |v|).0;
    LowestIsUnique(dims, prefix, s, low, Bits(from, |v|).0);
    var after := WriteBits(v, low, x);
    forall k: nat, j: nat, a: int | BitAt(dims, prefix, s, k, j, a)
      ensures Returned(dims, prefix, x, after, ReadBits(after, low, |x|), k, j, a)
    {
      BitReturned(dims, prefix, s, low, v, x, k, j, a);
    }
    forall a | 0 <= a < |v| && NotNamed(dims, prefix, s, a)
      ensures after[a] == v[a]
    {
      NotInSpan(dims, prefix, s, low, a);
    }
  }

  lemma BitReturned(dims: seq<Range>, prefix: seq<int>, s: Indexed, low: int, v: Vec, x: Vec, k: nat, j: nat, a: int)
    requires |prefix| < |dims| && |x| == s.wid * SliceWidth(dims, prefix)
    requires IsLowest(dims, prefix, s, low) && BitAt(dims, prefix, s, k, j, a)
    ensures var after := WriteBits(v, low, x);
            Returned(dims, prefix, x, after, ReadBits(after, low, |x|), k, j, a)
  {
    PlaceInSelect(dims, prefix, s, low, k, j, a);
    ReadBack(v, low, x, k * SliceWidth(dims, prefix) + j);
  }

  lemma ReadBack(v: Vec, low: int, x: Vec, i: nat)
    requires i < |x|
    ensures var after := WriteBits(v, low, x);
            var back := ReadBits(after, low, |x|);
            if 0 <= low + i < |v| then after[low + i] == x[i] == back[i] else back[i] == BX
  {
  }

  lemma NotInSpan(dims: seq<Range>, prefix: seq<int>, s: Indexed, low: int, a: int)
    requires |prefix| < |dims| && IsLowest(dims, prefix, s, low) && NotNamed(dims, prefix, s, a)
    ensures !(low <= a < low + s.wid * SliceWidth(dims, prefix))
  {
    if low <= a < low + s.wid * SliceWidth(dims, prefix) {
      var k, j := PlaceOf(dims, prefix, s, low, a);
    }
  }

  lemma PlaceInSelect(dims: seq<Range>, prefix: seq<int>, s: Indexed, low: int, k: nat, j: nat, a: int)
    requires |prefix| < |dims| && IsLowest(dims, prefix, s, low) && BitAt(dims, prefix, s, k, j, a)
    ensures var i := k * SliceWidth(dims, prefix) + j; 0 <= i < s.wid * SliceWidth(dims, prefix) && a == low + i
  {
    BitFromRight(dims, prefix, s, low, k);
    DigitFits(k, s.wid, j, SliceWidth(dims, prefix));
  }

  lemma QuotientBelow(d: nat, n: nat, w: nat)
    requires w > 0 && d < n * w
    ensures 0 <= d / w < n
  {
  }

  /** Every bit of the span belongs to some index. */
  lemma PlaceOf(dims: seq<Range>, prefix: seq<int>, s: Indexed, low: int, a: int) returns (k: nat, j: nat)
    requires |prefix| < |dims| && IsLowest(dims, prefix, s, low)
    requires low <= a < low + s.wid * SliceWidth(dims, prefix)
    ensures BitAt(dims, prefix, s, k, j, a)
  {
    var w := SliceWidth(dims, prefix);
    QuotientBelow(a - low, s.wid, w);
    k, j := (a - low) / w, (a - low) % w;
    BitFromRight(dims, prefix, s, low, k);
  }
}
