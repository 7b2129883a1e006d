/** Components of hierarchical names, and the order in which a scope keeps its children. */
module HName {

  /** The text of a name, as its character codes. */
  type Text = seq<nat>

  /** a and b agree up to place k. */
  ghost predicate Agree(a: seq<int>, b: seq<int>, k: nat) {
    k <= |a| && k <= |b| && forall i :: 0 <= i < k ==> a[i] == b[i]
  }

  /** a and b agree up to place k, and there a ends or is smaller. */
  ghost predicate PrecedesAt(a: seq<int>, b: seq<int>, k: nat) {
    Agree(a, b, k) && k < |b| && (k < |a| ==> a[k] < b[k])
  }

  ghost predicate Precedes(a: seq<int>, b: seq<int>) {
    exists k: nat :: PrecedesAt(a, b, k)
  }

  /** strcmp */
  function Strcmp(a: Text, b: Text): (r: int)
    ensures r < 0 <==> Precedes(a, b)
    ensures r == 0 <==> a == b
  {
    if a == [] || b == [] then
      assert a == [] && b != [] ==> PrecedesAt(a, b, 0);
      |a| - |b|
    else if a[0] != b[0] then
      assert a[0] < b[0] ==> PrecedesAt(a, b, 0);
      a[0] - b[0]
    else
      PrecedesTail(a, b);
      assert a == b <==> a[1..] == b[1..] by {
        assert a == [a[0]] + a[1..] && b == [b[0]] + b[1..];
      }
      Strcmp(a[1..], b[1..])
  }

  lemma PrecedesTail(a: seq<int>, b: seq<int>)
    requires a != [] && b != [] && a[0] == b[0]
    ensures Precedes(a, b) <==> Precedes(a[1..], b[1..])
  {
    if Precedes(a, b) {
      var k: nat :| PrecedesAt(a, b, k);
      assert PrecedesAt(a[1..], b[1..], k - 1);
    }
    if Precedes(a[1..], b[1..]) {
      var k: nat :| PrecedesAt(a[1..], b[1..], k);
      forall i | 0 <= i < k + 1
        ensures a[i] == b[i]
      {
        assert i > 0 ==> a[i] == a[1..][i - 1] && b[i] == b[1..][i - 1];
      }
      assert PrecedesAt(a, b, k + 1);
    }
  }

  /** The value of a name: its text and its indices. */
  datatype Key = Key(text: Text, numbers: seq<int>)

  /** The order of names: by text, then by indices. */
  ghost predicate Less(a: Key, b: Key) {
    Precedes(a.text, b.text) || (a.text == b.text && Precedes(a.numbers, b.numbers))
  }

  class HName {
    var name: Text
    var number: seq<int>

    constructor (text: Text, nums: seq<int>)
      ensures Value() == Key(text, nums)
    {
      name, number := text, nums;
    }

    function Value(): Key
      reads this
    {
      Key(name, number)
    }

    /** operator = */
    method Assign(that: HName)
      modifies this
      ensures Value() == that.Value() == old(that.Value())
    {
      name := that.name;
      number := that.number;
    }

    /** operator < */
    method LessThan(r: HName) returns (less: bool)
      ensures less <==> Less(Value(), r.Value())
    {
      var cmp := Strcmp(name, r.name);
      if cmp < 0 { return true; }
      if cmp > 0 { return false; }
      var idx := 0;
      while |number| > idx || |r.number| > idx
        invariant Agree(number, r.number, idx)
        decreases |number| + |r.number| - idx
      {
        if |number| <= idx {
          assert PrecedesAt(number, r.number, idx);
          return true;
        }
        if |r.number| <= idx {
          NotBefore(number, r.number, idx);
          return false;
        }
        if number[idx] < r.number[idx] {
          assert PrecedesAt(number, r.number, idx);
          return true;
        }
        if number[idx] > r.number[idx] {
          NotBefore(number, r.number, idx);
          return false;
        }
        idx := idx + 1;
      }
      return false;
    }

    /** operator == */
    method EqualTo(r: HName) returns (equal: bool)
      ensures equal <==> Value() == r.Value()
    {
      if name == r.name {
        if |number| != |r.number| { return false; }
        for idx := 0 to |number|
          invariant Agree(number, r.number, idx)
        {
          if number[idx] != r.number[idx] { return false; }
        }
        return true;
      }
      return false;
    }
  }

  // ------------------------------------------------------- a strict total order

  lemma NotBefore(a: seq<int>, b: seq<int>, k: nat)
    requires PrecedesAt(b, a, k)
    ensures !Precedes(a, b)
  {
  }

  lemma PrecedesIrreflexive(a: seq<int>)
    ensures !Precedes(a, a)
  {
  }

  lemma PrecedesTransitive(a: seq<int>, b: seq<int>, c: seq<int>)
    requires Precedes(a, b) && Precedes(b, c)
    ensures Precedes(a, c)
  {
    var j: nat :| PrecedesAt(a, b, j);
    var k: nat :| PrecedesAt(b, c, k);
    assert PrecedesAt(a, c, if j < k then j else k);
  }

  lemma {:induction false} PrecedesTotal(a: seq<int>, b: seq<int>)
    ensures a == b || Precedes(a, b) || Precedes(b, a)
    decreases |a|
  {
    if a == [] || b == [] || a[0] != b[0] {
      assert a != b ==> PrecedesAt(a, b, 0) || PrecedesAt(b, a, 0);
    } else {
      PrecedesTotal(a[1..], b[1..]);
      PrecedesTail(a, b);
      PrecedesTail(b, a);
      assert a == [a[0]] + a[1..] && b == [b[0]] + b[1..];
    }
  }

  lemma LessTransitive(a: Key, b: Key, c: Key)
    requires Less(a, b) && Less(b, c)
    ensures Less(a, c)
  {
    if Precedes(a.text, b.text) && Precedes(b.text, c.text) {
      PrecedesTransitive(a.text, b.text, c.text);
    } else if a.text == b.text == c.text {
      PrecedesTransitive(a.numbers, b.numbers, c.numbers);
    }
  }

  /** Of two names exactly one of less, equal and greater holds; so no name is less than itself. */
  lemma LessTrichotomy(a: Key, b: Key)
    ensures Less(a, b) || a == b || Less(b, a)
    ensures !(Less(a, b) && a == b) && !(Less(a, b) && Less(b, a)) && !(a == b && Less(b, a))
  {
    PrecedesTotal(a.text, b.text);
    PrecedesTotal(a.numbers, b.numbers);
    if Less(a, b) && Less(b, a) {
      LessTransitive(a, b, a);
    }
    PrecedesIrreflexive(a.text);
    PrecedesIrreflexive(a.numbers);
  }

  /**
   * A text that is a prefix comes first, and otherwise the first place where two texts differ decides. With equal texts
   * the same is true of the indices.
   */
  lemma WhatDecides(a: Text, more: Text, c: nat, d: nat, rest: Text, rest': Text, m: seq<int>, n: seq<int>, i: int,
                    j: int, tail: seq<int>, tail': seq<int>)
    ensures more != [] ==> Less(Key(a, m), Key(a + more, n))
    ensures c < d ==> Less(Key(a + [c] + rest, m), Key(a + [d] + rest', n))
    ensures n != [] ==> Less(Key(a, m), Key(a, m + n))
    ensures i < j ==> Less(Key(a, m + [i] + tail), Key(a, m + [j] + tail'))
  {
    if more != [] {
      assert PrecedesAt(a, a + more, |a|);
    }
    if c < d {
      assert PrecedesAt(a + [c] + rest, a + [d] + rest', |a|);
    }
    if n != [] {
      assert PrecedesAt(m, m + n, |m|);
    }
    if i < j {
      assert PrecedesAt(m + [i] + tail, m + [j] + tail', |m|);
    }
  }
}
