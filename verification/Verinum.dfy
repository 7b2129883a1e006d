/** Constant vectors, and the integers that they stand for. */
module Verinum {
  import opened PowersOfTwo
  import opened FourState

  /** A constant: its bits, whether it has a definite length, its sign, and whether it is '0, '1, 'x or 'z. */
  datatype Number = Number(bits: Vec, hasLen: bool, hasSign: bool, single: bool)

  predicate Defined(v: Vec) {
    forall k :: 0 <= k < |v| ==> v[k] == B0 || v[k] == B1
  }

  function Digit(b: Bit): nat {
    if b == B1 then 1 else 0
  }

  /** The bits as an unsigned integer. */
  function ToNat(v: Vec): (r: nat)
    ensures r < Pow2(|v|)
  {
    if v == [] then 0 else Digit(v[0]) + 2 * ToNat(v[1..])
  }

  /** The low w bits of n. */
  function FromNat(n: nat, w: nat): (v: Vec)
    ensures |v| == w && Defined(v)
  {
    if w == 0 then [] else [if n % 2 == 1 then B1 else B0] + FromNat(n / 2, w - 1)
  }

  /** The integer that a vector stands for. */
  function IntOf(v: Vec, signed: bool): int {
    Interpret(ToNat(v), |v|, signed)
  }

  /** w copies of a bit */
  function Fill(b: Bit, w: nat): (v: Vec)
    ensures |v| == w && forall k :: 0 <= k < w ==> v[k] == b
  {
    if w == 0 then [] else Fill(b, w - 1) + [b]
  }

  lemma {:induction false} FromNatValue(n: nat, w: nat)
    requires n < Pow2(w)
    ensures ToNat(FromNat(n, w)) == n
  {
    if w == 0 {
    } else {
      FromNatValue(n / 2, w - 1);
      assert FromNat(n, w)[1..] == FromNat(n / 2, w - 1);
    }
  }

  lemma {:induction false} ToNatAppend(v: Vec, u: Vec)
    ensures ToNat(v + u) == ToNat(v) + Pow2(|v|) * ToNat(u)
  {
    if v == [] {
      assert v + u == u;
    } else {
      assert (v + u)[1..] == v[1..] + u;
      ToNatAppend(v[1..], u);
      MulAssociates(2, Pow2(|v| - 1), ToNat(u));
    }
  }

  lemma {:induction false} ToNatFill(b: Bit, w: nat)
    ensures ToNat(Fill(b, w)) == if b == B1 then Pow2(w) - 1 else 0
  {
    if w == 0 {
    } else {
      ToNatFill(b, w - 1);
      ToNatAppend(Fill(b, w - 1), [b]);
      assert [b][1..] == [];
      assert ToNat([b]) == Digit(b);
    }
  }

  /** The top bit of a defined vector tells whether its value is in the upper half. */
  lemma TopBit(v: Vec)
    requires v != [] && Defined(v)
    ensures v[|v| - 1] == B1 <==> ToNat(v) >= Pow2(|v| - 1)
  {
  }

  /** Extension by the sign bit, or by zero, keeps the integer. */
  lemma ExtendKeepsValue(v: Vec, w: nat, signed: bool)
    requires v != [] && Defined(v) && |v| <= w
    ensures var pad := if signed then v[|v| - 1] else B0;
            IntOf(v + Fill(pad, w - |v|), signed) == IntOf(v, signed)
  {
    var pad := if signed then v[|v| - 1] else B0;
    ToNatAppend(v, Fill(pad, w - |v|));
    ToNatFill(pad, w - |v|);
    TopBit(v);
    if signed && pad == B1 {
      Pow2Add(|v|, w - |v|);
      Distribute(Pow2(w - |v|), -1, Pow2(|v|));
      Pow2Monotone(|v|, w);
      assert Pow2(w) == 2 * Pow2(w - 1) && Pow2(|v|) == 2 * Pow2(|v| - 1);
    } else if signed {
      Pow2Monotone(|v| - 1, w - 1);
    }
  }

  /** If the bits from w on extend the lower ones, cutting them off keeps the integer. */
  lemma TruncateKeepsValue(v: Vec, w: nat, signed: bool)
    requires Defined(v) && 0 < w <= |v|
    requires forall k :: w <= k < |v| ==> v[k] == if signed then v[w - 1] else B0
    ensures IntOf(v[..w], signed) == IntOf(v, signed)
  {
    var pad := if signed then v[w - 1] else B0;
    assert v == v[..w] + Fill(pad, |v| - w);
    ExtendKeepsValue(v[..w], |v|, signed);
  }

  lemma {:induction false} ZeroBits(v: Vec)
    requires Defined(v) && ToNat(v) == 0
    ensures forall k :: 0 <= k < |v| ==> v[k] == B0
  {
    if v == [] {
    } else {
      ZeroBits(v[1..]);
      assert forall k :: 0 < k < |v| ==> v[k] == v[1..][k - 1];
    }
  }

  lemma {:induction false} OneBits(v: Vec)
    requires Defined(v) && ToNat(v) == Pow2(|v|) - 1
    ensures forall k :: 0 <= k < |v| ==> v[k] == B1
  {
    if v == [] {
    } else {
      OneBits(v[1..]);
      assert forall k :: 0 < k < |v| ==> v[k] == v[1..][k - 1];
    }
  }

  lemma HighPart(low: nat, high: nat, p: int, q: int)
    requires low < p && high < q
    ensures low + p * high < p ==> high == 0
    ensures low + p * high >= p * q - p ==> high == q - 1
  {
    if high >= 1 {
      AtLeastOnce(high, p);
    }
    if high < q - 1 {
      Distribute(high, 2, p);
      Distribute(q - (high + 2), high + 2, p);
      TimesNonNegative(q - (high + 2), p);
    }
  }

  lemma SplitValue(v: Vec, w: nat)
    requires w <= |v|
    ensures ToNat(v) == ToNat(v[..w]) + Pow2(w) * ToNat(v[w..]) && Pow2(|v|) == Pow2(w) * Pow2(|v| - w)
  {
    assert v == v[..w] + v[w..];
    ToNatAppend(v[..w], v[w..]);
    Pow2Add(w, |v| - w);
  }

  lemma ValueAbove(v: Vec, w: nat)
    requires w <= |v|
    ensures ToNat(v) < Pow2(w) ==> ToNat(v[w..]) == 0
    ensures ToNat(v) >= Pow2(|v|) - Pow2(w) ==> ToNat(v[w..]) == Pow2(|v| - w) - 1
  {
    SplitValue(v, w);
    HighPart(ToNat(v[..w]), ToNat(v[w..]), Pow2(w), Pow2(|v| - w));
  }

  /** The bits from w on of a small number are zero, and those of a small negative one are ones. */
  lemma UpperBits(v: Vec, w: nat)
    requires Defined(v) && w <= |v|
    ensures ToNat(v) < Pow2(w) ==> forall k :: w <= k < |v| ==> v[k] == B0
    ensures ToNat(v) >= Pow2(|v|) - Pow2(w) ==> forall k :: w <= k < |v| ==> v[k] == B1
  {
    var high := v[w..];
    ValueAbove(v, w);
    forall k | w <= k < |v|
      ensures v[k] == high[k - w]
    {
    }
    if ToNat(v) < Pow2(w) {
      ZeroBits(high);
    }
    if ToNat(v) >= Pow2(|v|) - Pow2(w) {
      OneBits(high);
    }
  }
}
