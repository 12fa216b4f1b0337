/**
 Polynomials over the two-element field: a polynomial is the set of exponents
 whose coefficient is one, so addition is the symmetric difference.
 */
module Gf2Polynomials {
  type Poly = set<nat>

  function Add(p: Poly, q: Poly): Poly {
    (p - q) + (q - p)
  }

  /** Multiplication by x^k. */
  function Shift(p: Poly, k: nat): Poly {
    set i | i in p :: i + k
  }

  /** The terms of `q` that meet a term of `g` at exponent `j`. */
  function Pairs(q: Poly, g: Poly, j: nat): set<nat> {
    set i | i in q && i <= j && j - i in g
  }

  /** `p` is the product of `q` and `g`: each coefficient is the sum, modulo
      two, of the pairs that meet there. */
  ghost predicate IsProduct(p: Poly, q: Poly, g: Poly) {
    forall j: nat :: j in p <==> |Pairs(q, g, j)| % 2 == 1
  }

  ghost predicate Congruent(a: Poly, b: Poly, g: Poly) {
    exists q: Poly :: IsProduct(Add(a, b), q, g)
  }

  /** `g` has degree `d`. */
  ghost predicate HasDegree(g: Poly, d: nat) {
    d in g && forall i :: i in g ==> i <= d
  }

  /** `r` is what division of `a` by `g`, of degree `d`, leaves over. */
  ghost predicate IsRemainder(r: Poly, a: Poly, g: Poly, d: nat) {
    (forall i :: i in r ==> i < d) && Congruent(a, r, g)
  }

  // ----- Products ------------------------------------------------------------------

  lemma ParityOfSum(s: set<nat>, t: set<nat>)
    ensures |Add(s, t)| % 2 == (|s| + |t|) % 2
  {
    assert s == (s - t) + (s * t) && t == (t - s) + (s * t);
    assert |s| == |s - t| + |s * t|;
    assert |t| == |t - s| + |s * t|;
    assert |Add(s, t)| == |s - t| + |t - s|;
  }

  lemma ProductOfSum(p: Poly, q: Poly, p': Poly, q': Poly, g: Poly)
    requires IsProduct(p, q, g) && IsProduct(p', q', g)
    ensures IsProduct(Add(p, p'), Add(q, q'), g)
  {
    forall j: nat ensures j in Add(p, p') <==> |Pairs(Add(q, q'), g, j)| % 2 == 1 {
      assert Pairs(Add(q, q'), g, j) == Add(Pairs(q, g, j), Pairs(q', g, j));
      ParityOfSum(Pairs(q, g, j), Pairs(q', g, j));
      assert j in p <==> |Pairs(q, g, j)| % 2 == 1;
      assert j in p' <==> |Pairs(q', g, j)| % 2 == 1;
    }
  }

  lemma ShiftMember(p: Poly, k: nat, j: nat)
    ensures j in Shift(p, k) <==> j >= k && j - k in p
  {
    if j >= k && j - k in p {
      assert j == (j - k) + k;
    }
  }

  lemma {:induction false} ShiftKeepsSize(s: set<nat>, k: nat)
    ensures |Shift(s, k)| == |s|
  {
    if s != {} {
      var i :| i in s;
      ShiftKeepsSize(s - {i}, k);
      forall j ensures j in Shift(s, k) <==> j in Shift(s - {i}, k) + {i + k} {
        ShiftMember(s, k, j);
        ShiftMember(s - {i}, k, j);
      }
      assert Shift(s, k) == Shift(s - {i}, k) + {i + k};
      ShiftMember(s - {i}, k, i + k);
    }
  }

  lemma ProductOfShift(p: Poly, q: Poly, g: Poly)
    requires IsProduct(p, q, g)
    ensures IsProduct(Shift(p, 1), Shift(q, 1), g)
  {
    forall j: nat ensures j in Shift(p, 1) <==> |Pairs(Shift(q, 1), g, j)| % 2 == 1 {
      if j == 0 {
        assert Pairs(Shift(q, 1), g, j) == {};
      } else {
        forall i ensures i in Pairs(Shift(q, 1), g, j) <==> i in Shift(Pairs(q, g, j - 1), 1) {
          ShiftMember(q, 1, i);
          ShiftMember(Pairs(q, g, j - 1), 1, i);
        }
        assert Pairs(Shift(q, 1), g, j) == Shift(Pairs(q, g, j - 1), 1);
        ShiftKeepsSize(Pairs(q, g, j - 1), 1);
        ShiftMember(p, 1, j);
      }
    }
  }

  lemma ProductOfZero(g: Poly)
    ensures IsProduct({}, {}, g)
  {
    forall j: nat ensures |Pairs({}, g, j)| == 0 {
      assert Pairs({}, g, j) == {};
    }
  }

  lemma PairsOfOne(g: Poly, j: nat)
    ensures Pairs({0}, g, j) == if j in g then {0} else {}
  {
    assert j - 0 == j;
  }

  lemma ProductOfOne(g: Poly)
    ensures IsProduct(g, {0}, g)
  {
    forall j: nat ensures j in g <==> |Pairs({0}, g, j)| % 2 == 1 {
      PairsOfOne(g, j);
      if j in g {
        assert |Pairs({0}, g, j)| == 1;
      } else {
        assert |Pairs({0}, g, j)| == 0;
      }
    }
  }

  // ----- Congruence ------------------------------------------------------------------

  lemma CongruentRefl(a: Poly, g: Poly)
    ensures Congruent(a, a, g)
  {
    ProductOfZero(g);
    assert Add(a, a) == {};
  }

  lemma CongruentTrans(a: Poly, b: Poly, c: Poly, g: Poly)
    requires Congruent(a, b, g) && Congruent(b, c, g)
    ensures Congruent(a, c, g)
  {
    var q :| IsProduct(Add(a, b), q, g);
    var q' :| IsProduct(Add(b, c), q', g);
    ProductOfSum(Add(a, b), q, Add(b, c), q', g);
    assert Add(Add(a, b), Add(b, c)) == Add(a, c);
  }

  lemma CongruentAdd(a: Poly, b: Poly, c: Poly, g: Poly)
    requires Congruent(a, b, g)
    ensures Congruent(Add(a, c), Add(b, c), g)
  {
    assert Add(Add(a, c), Add(b, c)) == Add(a, b);
  }

  lemma ShiftOfSum(a: Poly, b: Poly, k: nat)
    ensures Shift(Add(a, b), k) == Add(Shift(a, k), Shift(b, k))
  {
  }

  lemma ShiftOfShift(a: Poly, k: nat, m: nat)
    ensures Shift(Shift(a, k), m) == Shift(a, k + m)
  {
    forall i | i in Shift(a, k + m) ensures i in Shift(Shift(a, k), m) {
      assert i - m in Shift(a, k);
    }
  }

  lemma {:induction false} CongruentShift(a: Poly, b: Poly, k: nat, g: Poly)
    requires Congruent(a, b, g)
    ensures Congruent(Shift(a, k), Shift(b, k), g)
  {
    if k == 0 {
      assert Shift(a, 0) == a && Shift(b, 0) == b;
    } else {
      CongruentShift(a, b, k - 1, g);
      var a', b' := Shift(a, k - 1), Shift(b, k - 1);
      var q :| IsProduct(Add(a', b'), q, g);
      ProductOfShift(Add(a', b'), q, g);
      ShiftOfSum(a', b', 1);
      ShiftOfShift(a, k - 1, 1);
      ShiftOfShift(b, k - 1, 1);
    }
  }

  // ----- Remainders are unique ------------------------------------------------------------

  lemma {:induction false} Largest(q: Poly) returns (m: nat)
    requires q != {}
    ensures HasDegree(q, m)
  {
    var i :| i in q;
    if q == {i} {
      m := i;
    } else {
      var k := Largest(q - {i});
      m := if k < i then i else k;
      assert forall n :: n in q ==> n == i || n in q - {i};
    }
  }

  lemma NonzeroProductIsHigh(p: Poly, q: Poly, g: Poly, d: nat)
    requires IsProduct(p, q, g) && HasDegree(g, d) && q != {}
    ensures exists e :: e in p && e >= d
  {
    var m := Largest(q);
    assert Pairs(q, g, m + d) == {m};
    assert m + d in p;
  }

  /** Division by a polynomial of degree `d` leaves one remainder. */
  lemma RemainderIsUnique(r: Poly, s: Poly, a: Poly, g: Poly, d: nat)
    requires HasDegree(g, d) && IsRemainder(r, a, g, d) && IsRemainder(s, a, g, d)
    ensures r == s
  {
    assert Add(r, a) == Add(a, r);
    CongruentTrans(r, a, s, g);
    var q :| IsProduct(Add(r, s), q, g);
    if q != {} {
      NonzeroProductIsHigh(Add(r, s), q, g, d);
    } else {
      forall j: nat ensures j !in Add(r, s) {
        assert Pairs({}, g, j) == {};
      }
    }
    assert r == s by {
      assert forall i :: i in r <==> i in s by {
        assert forall i :: i in r && i !in s ==> i in Add(r, s);
        assert forall i :: i in s && i !in r ==> i in Add(r, s);
      }
    }
  }
}
