/** A root of the algebra, as in froots/root.py: an integer vector (of
    length 3 in use) with the bookkeeping fields `mult`, `coMult` and `norm`
    that the root-system construction assigns.

    The vector is a numpy array of machine integers in the source; here its
    components are unbounded `int`s in an `array<int>`, and only the hash,
    which works on 64-bit words, wraps them. */
module Roots {
  import opened Wrappers
  import opened NumberTheory
  import Fractions

  /** The sum of the components. */
  function Sum(s: seq<int>): int
  {
    if s == [] then 0 else s[0] + Sum(s[1..])
  }

  /** The largest component of a non-empty vector. */
  function Max(s: seq<int>): (m: int)
    requires |s| > 0
    ensures m in s
    ensures forall i :: 0 <= i < |s| ==> s[i] <= m
  {
    if |s| == 1 then s[0]
    else
      var rest := Max(s[1..]);
      assert forall i :: 1 <= i < |s| ==> s[i] == s[1..][i - 1];
      if s[0] >= rest then s[0] else rest
  }

  /** In a vector without negative components every component, and so the
      largest, is at most the sum. */
  lemma {:induction false} SumDominates(s: seq<int>)
    requires forall i :: 0 <= i < |s| ==> s[i] >= 0
    ensures Sum(s) >= 0
    ensures forall i :: 0 <= i < |s| ==> s[i] <= Sum(s)
  {
    if s != [] {
      SumDominates(s[1..]);
      forall i | 1 <= i < |s|
        ensures s[i] <= Sum(s)
      {
        assert s[i] == s[1..][i - 1];
      }
    }
  }

  /** The height of a rank-3 root vector. */
  lemma SumOfThree(s: seq<int>)
    requires |s| == 3
    ensures Sum(s) == s[0] + s[1] + s[2]
  {
    assert Sum(s[2..]) == s[2] + Sum(s[3..]);
    assert Sum(s[1..]) == s[1] + Sum(s[2..]);
  }

  /** Multiplying every component by `f` multiplies the sum by `f`. */
  lemma {:induction false} SumScaled(s: seq<int>, t: seq<int>, f: int)
    requires |t| == |s| && forall i :: 0 <= i < |s| ==> t[i] == s[i] * f
    ensures Sum(t) == f * Sum(s)
  {
    if s != [] {
      SumScaled(s[1..], t[1..], f);
      assert t[0] + f * Sum(s[1..]) == f * (s[0] + Sum(s[1..]));
    }
  }

  const Two64: int := 0x1_0000_0000_0000_0000
  const SignBit: bv64 := 0x8000_0000_0000_0000

  /** A component as a numpy `int64` word: two's complement, wrapping. */
  function ToWord(x: int): bv64
  {
    (x % Two64) as bv64
  }

  /** A 64-bit word read as a signed `int64`. */
  function ToSigned(w: bv64): (v: int)
    ensures -Two64 / 2 <= v < Two64 / 2
    ensures v % Two64 == w as int
  {
    var u := w as int;
    if u < Two64 / 2 then
      DivModUnique(u, Two64, 0, u);
      u
    else
      DivModUnique(u - Two64, Two64, -1, u);
      u - Two64
  }

  /** One round of `__hash__`: shift left by one (wrapping), set the lowest
      bit when the shifted word is negative, then xor in the component. */
  function HashStep(h: bv64, w: bv64): bv64
  {
    var shifted := h << 1;
    var marked := if shifted & SignBit != 0 then shifted | 1 else shifted;
    marked ^ w
  }

  /** The hash word after folding in every component from left to right. */
  function HashWord(s: seq<int>): bv64
  {
    if s == [] then 0 else HashStep(HashWord(s[..|s| - 1]), ToWord(s[|s| - 1]))
  }

  lemma HashWordPrefix(s: seq<int>, i: nat)
    requires i < |s|
    ensures HashWord(s[..i + 1]) == HashStep(HashWord(s[..i]), ToWord(s[i]))
  {
    assert s[..i + 1][..i] == s[..i];
  }

  /** The value `__hash__` returns: the final word as a signed integer. It is
      a function of the components alone. */
  function HashOf(s: seq<int>): (h: int)
    ensures -Two64 / 2 <= h < Two64 / 2
    ensures h % Two64 == HashWord(s) as int
  {
    ToSigned(HashWord(s))
  }

  class Root {
    /** The root vector; the root owns it, as the constructor copies. */
    const vector: array<int>
    /** The multiplicity, assigned by the construction. */
    var mult: int
    /** The co-multiplicity, unset (`None`) until the construction assigns it. */
    var coMult: Option<Fractions.Fraction>
    /** The norm, assigned by the construction. */
    var norm: int

    /** `Root(root_vector)`: a copy of the vector, `mult` and `norm` 0 and
        `coMult` unset. */
    constructor (rootVector: array<int>)
      ensures fresh(vector) && vector[..] == rootVector[..]
      ensures mult == 0 && coMult == None && norm == 0
    {
      vector := new int[rootVector.Length](i reads rootVector
                                             requires 0 <= i < rootVector.Length => rootVector[i]);
      mult, coMult, norm := 0, None, 0;
    }

    /** `height`: the sum of the components. */
    function Height(): (h: int)
      reads vector
      ensures vector.Length == 3 ==> h == vector[0] + vector[1] + vector[2]
      ensures (forall i :: 0 <= i < vector.Length ==> vector[i] >= 0) ==>
                h >= 0 && forall i :: 0 <= i < vector.Length ==> vector[i] <= h
    {
      var s := vector[..];
      if |s| == 3 then SumOfThree(s); Sum(s)
      else if forall i :: 0 <= i < |s| ==> s[i] >= 0 then SumDominates(s); Sum(s)
      else Sum(s)
    }

    /** `highest`: the largest component, which is one of the components. */
    function Highest(): (h: int)
      reads vector
      requires vector.Length > 0
      ensures exists i :: 0 <= i < vector.Length && vector[i] == h
      ensures forall i :: 0 <= i < vector.Length ==> vector[i] <= h
    {
      var m := Max(vector[..]);
      assert m in vector[..];
      m
    }

    /** `div`: a new root whose components are those of this one divided by
        `factor`, or `None` as soon as one component is not divisible. */
    method Div(factor: int) returns (r: Option<Root>)
      requires factor != 0
      ensures r.None? <==> exists i :: 0 <= i < vector.Length && vector[i] % factor != 0
      ensures r.Some? ==> fresh(r.value) && fresh(r.value.vector)
      ensures r.Some? ==> r.value.vector.Length == vector.Length &&
                          forall i :: 0 <= i < vector.Length ==> r.value.vector[i] == vector[i] / factor
      ensures r.Some? ==> r.value.mult == 0 && r.value.coMult == None && r.value.norm == 0
    {
      var newVector := new int[vector.Length](_ => 0);
      for i := 0 to vector.Length
        invariant forall j :: 0 <= j < i ==> vector[j] % factor == 0
        invariant forall j :: 0 <= j < i ==> newVector[j] == vector[j] / factor
      {
        if vector[i] % factor != 0 {
          return None;
        }
        newVector[i] := vector[i] / factor;
      }
      var root := new Root(newVector);
      return Some(root);
    }

    /** `times`: a new root whose components are those of this one
        multiplied by `factor`. */
    method Times(factor: int) returns (r: Root)
      ensures fresh(r) && fresh(r.vector)
      ensures r.vector.Length == vector.Length &&
              forall i :: 0 <= i < vector.Length ==> r.vector[i] == vector[i] * factor
      ensures r.mult == 0 && r.coMult == None && r.norm == 0
    {
      var newVector := new int[vector.Length](_ => 0);
      for i := 0 to vector.Length
        invariant forall j :: 0 <= j < i ==> newVector[j] == vector[j] * factor
      {
        newVector[i] := vector[i] * factor;
      }
      r := new Root(newVector);
    }

    /** `__eq__`: equal exactly when the other root has the same components. */
    method Equals(other: Root?) returns (equal: bool)
      ensures equal <==> other != null && other.vector[..] == vector[..]
    {
      if other == this {
        return true;
      }
      if other == null {
        return false;
      }
      if vector.Length != other.vector.Length {
        return false;
      }
      for i := 0 to vector.Length
        invariant forall j :: 0 <= j < i ==> vector[j] == other.vector[j]
      {
        if vector[i] != other.vector[i] {
          return false;
        }
      }
      assert vector[..] == other.vector[..];
      return true;
    }

    /** `__hash__`: the shift-and-xor fold of the components on 64-bit words. */
    method Hash() returns (h: int)
      ensures h == HashOf(vector[..])
    {
      var hashVal: bv64 := 0;
      for i := 0 to vector.Length
        invariant hashVal == HashWord(vector[..i])
      {
        hashVal := HashStep(hashVal, ToWord(vector[i]));
        HashWordPrefix(vector[..], i);
      }
      assert vector[..vector.Length] == vector[..];
      h := ToSigned(hashVal);
    }
  }

  /** `__eq__` is reflexive. */
  method EqualsReflexive(a: Root) returns (equal: bool)
    ensures equal
  {
    equal := a.Equals(a);
  }

  /** `__eq__` is symmetric. */
  method EqualsSymmetric(a: Root, b: Root) returns (ab: bool, ba: bool)
    ensures ab == ba
  {
    ab := a.Equals(b);
    ba := b.Equals(a);
  }

  /** Roots that `__eq__` calls equal have equal `__hash__` values, so they
      can serve as dictionary keys. */
  method EqualRootsHashEqually(a: Root, b: Root) returns (equal: bool, ha: int, hb: int)
    ensures equal ==> ha == hb
  {
    equal := a.Equals(b);
    ha := a.Hash();
    hb := b.Hash();
  }

  /** `r.times(f).div(f)` succeeds and gives back the components of `r`. */
  method TimesThenDiv(r: Root, f: int) returns (q: Option<Root>)
    requires f != 0
    ensures q.Some? && q.value.vector[..] == r.vector[..]
  {
    var scaled := r.Times(f);
    forall i | 0 <= i < scaled.vector.Length
      ensures scaled.vector[i] % f == 0 && scaled.vector[i] / f == r.vector[i]
    {
      MulDivCancel(f, r.vector[i]);
    }
    q := scaled.Div(f);
  }

  /** When `r.div(f)` succeeds, multiplying its result by `f` gives back the
      components of `r`. */
  method DivThenTimes(r: Root, f: int) returns (back: Option<Root>)
    requires f != 0
    ensures back.Some? <==> forall i :: 0 <= i < r.vector.Length ==> Divides(f, r.vector[i])
    ensures back.Some? ==> back.value.vector[..] == r.vector[..]
  {
    var q := r.Div(f);
    if q.None? {
      return None;
    }
    var t := q.value.Times(f);
    forall i | 0 <= i < r.vector.Length
      ensures t.vector[i] == r.vector[i]
    {
      DividesWitness(f, r.vector[i]);
    }
    return Some(t);
  }

  /** Multiplying a root by `f` multiplies its height by `f`. */
  method TimesScalesHeight(r: Root, f: int) returns (scaled: Root)
    ensures scaled.Height() == f * r.Height()
  {
    scaled := r.Times(f);
    SumScaled(r.vector[..], scaled.vector[..], f);
  }
}
