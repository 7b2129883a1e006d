/** Constant selects of a parameter that is not a string. */
module ParamSelects {
  import opened Options
  import opened FourState
  import opened Verinum
  import opened Selects

  /** The bit of a parameter at a place counted from its least significant bit. */
  function BitAt(par: Number, off: int): Bit
    requires par.bits != []
  {
    if off < 0 then BX
    else if off < |par.bits| then par.bits[off]
    else if par.hasLen then BX
    else if par.hasSign then par.bits[|par.bits| - 1]
    else B0
  }

  /** The bits with the indices `right`, and so on to the left, wid of them in all. */
  function Selected(par: Number, r: Range, right: int, wid: nat): (v: Vec)
    requires par.bits != []
    ensures |v| == wid
  {
    seq(wid, k requires 0 <= k < wid => BitAt(par, Offset(r, if Descending(r) then right + k else right - k)))
  }

  /** param_part_select_bits */
  method PartSelectBits(par: Number, wid: nat, lsv: int) returns (result: Vec)
    requires par.bits != []
    ensures |result| == wid && forall k :: 0 <= k < wid ==> result[k] == BitAt(par, k + lsv)
  {
    var bits := new Bit[wid](_ => BX);
    for idx := 0 to wid
      invariant forall k :: 0 <= k < idx ==> bits[k] == BitAt(par, k + lsv)
      invariant forall k :: idx <= k < wid ==> bits[k] == BX
    {
      var off := idx + lsv;
      if off < 0 {
        continue;
      } else if off < |par.bits| {
        bits[idx] := par.bits[off];
      } else if par.hasLen {
        continue;
      } else {
        bits[idx] := if par.hasSign then par.bits[|par.bits| - 1] else B0;
      }
    }
    result := bits[..];
  }

  /** The value of a bit select. */
  function BitResult(par: Number, r: Range, sel: int): Bit
    requires par.bits != []
  {
    BitAt(par, Offset(r, sel))
  }

  /** The value of a part select, which fails when the indices run against the direction of the parameter. */
  function PartResult(par: Number, r: Range, msb: int, lsb: int): Option<Vec>
    requires par.bits != []
  {
    if Reversed(r, msb, lsb) then None
    else Some(Selected(par, r, lsb, (if msb >= lsb then msb - lsb else lsb - msb) + 1))
  }

  /** The value of an indexed select. */
  function IndexedResult(par: Number, r: Range, s: Indexed): Vec
    requires par.bits != [] && s.wid >= 1
  {
    Selected(par, r, FromRight(r, s, 0), s.wid)
  }

  /** A bit select; elaborate_expr_param_bit_ */
  method BitSelect(par: Number, r: Range, sel: int) returns (bit: Bit)
    requires par.bits != []
    ensures bit == BitResult(par, r, sel)
  {
    var selV := sel;
    if r.msb >= r.lsb {
      selV := selV - r.lsb;
    } else {
      selV := r.lsb - selV;
    }
    bit := BX;
    if selV >= 0 && selV < |par.bits| {
      bit := par.bits[selV];
    } else if selV >= 0 && !par.hasLen {
      if par.hasSign {
        bit := par.bits[|par.bits| - 1];
      } else {
        bit := B0;
      }
    }
  }

  /** A part select; elaborate_expr_param_part_ */
  method PartSelect(par: Number, r: Range, msb: int, lsb: int) returns (result: Option<Vec>)
    requires par.bits != []
    ensures result == PartResult(par, r, msb, lsb)
    ensures result.None? <==> if r.msb >= r.lsb then msb < lsb else msb > lsb
  {
    if (msb > lsb && r.msb < r.lsb) || (msb < lsb && r.msb >= r.lsb) {
      return None;
    }
    var wid := 1 + if msb >= lsb then msb - lsb else lsb - msb;
    var base;
    if r.msb < r.lsb {
      base := r.lsb - lsb;
    } else {
      base := lsb - r.lsb;
    }
    var bits := PartSelectBits(par, wid, base);
    assert bits == Selected(par, r, lsb, wid);
    return Some(bits);
  }

  /** An indexed select; elaborate_expr_param_idx_up_do_ */
  method IndexedSelect(par: Number, r: Range, s: Indexed) returns (result: Vec)
    requires par.bits != [] && s.wid >= 1
    ensures result == IndexedResult(par, r, s)
  {
    var lsv := s.base;
    var parBase := r.lsb;
    if !s.up {
      parBase := parBase + s.wid - 1;
    }
    if r.msb < r.lsb {
      parBase := lsv;
      lsv := r.lsb;
      if s.up {
        lsv := lsv - (s.wid - 1);
      }
    }
    result := PartSelectBits(par, s.wid, lsv - parBase);
    assert result == IndexedResult(par, r, s);
  }

  /**
   * A part select [m : l] gives what the bit selects of its indices give: from the right, of l, l + 1, ..., m where
   * the parameter descends, and of l, l - 1, ..., m where it ascends. A bit outside the parameter is x when the
   * parameter is sized or the bit is below it, and otherwise extends it.
   */
  lemma PartIsBitByBit(par: Number, r: Range, msb: int, lsb: int, k: nat)
    requires par.bits != [] && !Reversed(r, msb, lsb) && k <= if Descending(r) then msb - lsb else lsb - msb
    ensures var part := PartResult(par, r, msb, lsb);
            && part.Some? && |part.value| == (if Descending(r) then msb - lsb else lsb - msb) + 1
            && part.value[k] == BitResult(par, r, if Descending(r) then lsb + k else lsb - k)
    ensures var off := Offset(r, lsb) + k;
            && (off < 0 || (off >= |par.bits| && par.hasLen) ==> PartResult(par, r, msb, lsb).value[k] == BX)
            && (0 <= off < |par.bits| ==> PartResult(par, r, msb, lsb).value[k] == par.bits[off])
            && (off >= |par.bits| && !par.hasLen ==>
                  PartResult(par, r, msb, lsb).value[k] == if par.hasSign then par.bits[|par.bits| - 1] else B0)
  {
  }

  /**
   * [b +: w] gives what the part select of b, ..., b + w - 1 gives, and [b -: w] what that of b - w + 1, ..., b
   * gives, written in the direction of the parameter; so an indexed select is never out of order.
   */
  lemma IndexedIsPart(par: Number, r: Range, b: int, w: nat)
    requires par.bits != [] && w >= 1
    ensures Some(IndexedResult(par, r, Indexed(b, w, true))) ==
            if Descending(r) then PartResult(par, r, b + w - 1, b) else PartResult(par, r, b, b + w - 1)
    ensures Some(IndexedResult(par, r, Indexed(b, w, false))) ==
            if Descending(r) then PartResult(par, r, b, b - w + 1) else PartResult(par, r, b - w + 1, b)
  {
  }
}
