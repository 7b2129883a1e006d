/** Four-state bits and vectors, and the resolution of several drivers of one wire. */
module FourState {

  datatype Bit = B0 | B1 | BX | BZ

  /** A vector, least significant bit first, as the bits of a verinum are. */
  type Vec = seq<Bit>

  /** The wire/tri truth table of IEEE 1364-2005 section 4.6.1 for two drivers of equal strength. */
  function Resolve2(a: Bit, b: Bit): Bit {
    match (a, b)
    case (BZ, _) => b
    case (_, BZ) => a
    case (B0, B0) => B0
    case (B1, B1) => B1
    case _ => BX
  }

  /** Resolution of any number of drivers. Order and repetition do not matter, so a set is enough. */
  function Resolve(drivers: set<Bit>): Bit {
    if BX in drivers || (B0 in drivers && B1 in drivers) then BX
    else if B1 in drivers then B1
    else if B0 in drivers then B0
    else BZ
  }

  /** Resolving a set is resolving its members two at a time with the standard's table, in any grouping. */
  lemma ResolveIsTheTable(s: set<Bit>, t: set<Bit>, b: Bit, c: Bit)
    ensures Resolve({}) == BZ
    ensures Resolve({b}) == b
    ensures Resolve({b, c}) == if b == c || c == BZ then b else if b == BZ then c else BX
    ensures Resolve(s + t) == Resolve2(Resolve(s), Resolve(t))
    ensures Resolve(s + {BZ}) == Resolve(s)
  {
  }

  function Rep(b: Bit, n: nat): (r: Vec)
    ensures |r| == n
    ensures forall i :: 0 <= i < n ==> r[i] == b
  {
    seq(n, _ => b)
  }

  /** Bit i of a vector; a bit past its end is not driven. */
  function At(s: Vec, i: nat): Bit {
    if i < |s| then s[i] else BZ
  }
}
