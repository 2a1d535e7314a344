/**
 Why the roots are chosen as they are: two different blocks that pass the check of a Reed-Solomon reader differ in more
 places than there are error correction bytes, so a block with few wrong bytes determines the right one.
 */
module BlockDistance {
  import opened Bits
  import opened GaloisField
  import opened FieldOrder
  import opened ReedSolomon

  function Power(x: byte, k: nat): byte {
    if k == 0 then 1 else Mul(Power(x, k - 1), x)
  }

  // ---- Sums of powers

  /** A coefficient and a point. */
  datatype Term = Term(coef: byte, point: byte)

  /** The sum of coef * point^k. */
  function PowerSum(terms: seq<Term>, k: nat): byte {
    if terms == [] then 0
    else
      var last := terms[|terms| - 1];
      Add(PowerSum(terms[..|terms| - 1], k), Mul(last.coef, Power(last.point, k)))
  }

  ghost predicate DistinctPoints(terms: seq<Term>) {
    forall i, j | 0 <= i < j < |terms| :: terms[i].point != terms[j].point
  }

  /** The terms with their coefficients multiplied by point - x, which takes the point x out of the sums. */
  function Reduced(terms: seq<Term>, x: byte): (r: seq<Term>)
    ensures |r| == |terms|
    ensures forall j | 0 <= j < |terms| :: r[j] == Term(Mul(terms[j].coef, Add(terms[j].point, x)), terms[j].point)
  {
    seq(|terms|, j requires 0 <= j < |terms| => Term(Mul(terms[j].coef, Add(terms[j].point, x)), terms[j].point))
  }

  lemma {:induction false} ReducedSum(terms: seq<Term>, x: byte, k: nat)
    ensures PowerSum(Reduced(terms, x), k) == Add(PowerSum(terms, k + 1), Mul(x, PowerSum(terms, k)))
  {
    hide Mul, Add, Power;
    if terms == [] {
      MulZeroLeft(x);
      MulCommutes(x, 0);
      AddLaws(0, 0, 0);
    } else {
      var n := |terms| - 1;
      var init, last := terms[..n], terms[n];
      ReducedSum(init, x, k);
      assert Reduced(terms, x)[..n] == Reduced(init, x);
      ReducedTerm(last.coef, last.point, x, k);
      MulDistributes(x, PowerSum(init, k), Mul(last.coef, Power(last.point, k)));
      AddExchange(PowerSum(init, k + 1), Mul(x, PowerSum(init, k)),
                  Mul(last.coef, Power(last.point, k + 1)), Mul(x, Mul(last.coef, Power(last.point, k))));
    }
  }

  lemma ReducedTerm(c: byte, y: byte, x: byte, k: nat)
    ensures Mul(Mul(c, Add(y, x)), Power(y, k)) == Add(Mul(c, Power(y, k + 1)), Mul(x, Mul(c, Power(y, k))))
  {
    hide Mul, Add;
    var p := Power(y, k);
    MulDistributes(c, y, x);
    MulLinear(Mul(c, y), Mul(c, x), p);
    MulAssociates(c, y, p);
    MulCommutes(y, p);
    MulCommutes(c, x);
    MulAssociates(x, c, p);
  }

  lemma PowerSumSnoc(terms: seq<Term>, k: nat)
    requires terms != []
    ensures var n := |terms| - 1;
            PowerSum(terms, k) == Add(PowerSum(terms[..n], k), Mul(terms[n].coef, Power(terms[n].point, k)))
  {
  }

  lemma {:induction false} ZeroSum(terms: seq<Term>, k: nat)
    requires forall j | 0 <= j < |terms| :: terms[j].coef == 0
    ensures PowerSum(terms, k) == 0
  {
    hide Mul, Add;
    if terms != [] {
      ZeroSum(terms[..|terms| - 1], k);
      MulZeroLeft(Power(terms[|terms| - 1].point, k));
      AddLaws(0, 0, 0);
    }
  }

  lemma AddIsZero(a: byte, b: byte)
    requires Add(a, b) == 0
    ensures a == b
  {
    EqualWhenXorZero(a, b);
  }

  /** As many sums of powers as there are points determine the coefficients: if all are 0, so are they. */
  lemma {:induction false} Independent(terms: seq<Term>)
    requires DistinctPoints(terms) && forall k: nat | k < |terms| :: PowerSum(terms, k) == 0
    ensures forall j | 0 <= j < |terms| :: terms[j].coef == 0
    decreases |terms|
  {
    hide Mul, Add, Power, PowerSum;
    if terms != [] {
      var n := |terms| - 1;
      var init, c, x := terms[..n], terms[n].coef, terms[n].point;
      forall k: nat | k < n
        ensures PowerSum(Reduced(init, x), k) == 0
      {
        ReducedSumIsZero(terms, k);
      }
      Independent(Reduced(init, x));
      forall j | 0 <= j < n
        ensures init[j].coef == 0
      {
        CoefIsZero(Reduced(init, x)[j].coef, init[j].coef, init[j].point, x);
      }
      ZeroSum(init, 0);
      LastCoefIsZero(terms);
    }
  }

  lemma ReducedSumIsZero(terms: seq<Term>, k: nat)
    requires terms != [] && PowerSum(terms, k) == 0 && PowerSum(terms, k + 1) == 0
    ensures PowerSum(Reduced(terms[..|terms| - 1], terms[|terms| - 1].point), k) == 0
  {
    hide Mul, Add, PowerSum;
    var n := |terms| - 1;
    var init, c, x := terms[..n], terms[n].coef, terms[n].point;
    ReducedSum(init, x, k);
    PowerSumSnoc(terms, k);
    PowerSumSnoc(terms, k + 1);
    AddIsZero(PowerSum(init, k), Mul(c, Power(x, k)));
    AddIsZero(PowerSum(init, k + 1), Mul(c, Power(x, k + 1)));
    MulCommutes(x, Mul(c, Power(x, k)));
    MulAssociates(c, Power(x, k), x);
    AddLaws(PowerSum(init, k + 1), 0, 0);
  }

  lemma CoefIsZero(reduced: byte, c: byte, y: byte, x: byte)
    requires reduced == 0 && reduced == Mul(c, Add(y, x)) && y != x
    ensures c == 0
  {
    hide Mul, Add;
    NoZeroDivisors(c, Add(y, x));
    if Add(y, x) == 0 {
      AddIsZero(y, x);
    }
  }

  lemma LastCoefIsZero(terms: seq<Term>)
    requires terms != [] && PowerSum(terms, 0) == 0 && PowerSum(terms[..|terms| - 1], 0) == 0
    ensures terms[|terms| - 1].coef == 0
  {
    hide Mul, Add;
    var c := terms[|terms| - 1].coef;
    AddLaws(Mul(c, 1), 0, 0);
    MulCommutes(c, 1);
    MulOneLeft(c);
  }

  // ---- The terms of a polynomial

  function Weight(p: poly): nat {
    if p == [] then 0 else (if p[0] == 0 then 0 else 1) + Weight(p[1..])
  }

  /** The coefficients of p that are not 0, each with the power of 2 that belongs to its place. */
  function TermsOf(p: poly): (t: seq<Term>)
    ensures |t| == Weight(p)
  {
    if p == [] then []
    else TermsOf(p[1..]) + (if p[0] == 0 then [] else [Term(p[0], Root(|p| - 1))])
  }

  lemma {:induction false} PowerOfRoot(i: nat, k: nat)
    ensures Power(Root(i), k) == Root(i * k) == Power(Root(k), i)
    decreases i + k
  {
    hide Mul, Root;
    PowersAgree(i, k);
    PowersAgree(k, i);
    assert i * k == k * i;
  }

  lemma {:induction false} PowersAgree(i: nat, k: nat)
    ensures Power(Root(i), k) == Root(i * k)
  {
    hide Mul;
    if k == 0 {
      assert i * k == 0;
    } else {
      PowersAgree(i, k - 1);
      RootSum(i * (k - 1), i);
      assert i * (k - 1) + i == i * k;
    }
  }

  lemma {:induction false} EvalCons(p: poly, x: byte)
    requires p != []
    ensures Eval(p, x) == Add(Mul(p[0], Power(x, |p| - 1)), Eval(p[1..], x))
  {
    hide Mul, Add;
    var n := |p| - 1;
    if n == 0 {
      assert p[..0] == [] && p[1..] == [];
      MulZeroLeft(x);
      MulCommutes(p[0], 1);
      MulOneLeft(p[0]);
      AddLaws(0, p[0], 0);
      AddLaws(p[0], 0, 0);
    } else {
      EvalCons(p[..n], x);
      var head, rest := Mul(p[0], Power(x, n - 1)), Eval(p[..n][1..], x);
      assert p[..n][1..] == p[1..][..n - 1];
      MulLinear(head, rest, x);
      MulAssociates(p[0], Power(x, n - 1), x);
      AddLaws(Mul(head, x), Mul(rest, x), p[n]);
    }
  }

  /** Evaluating at the k-th root is the k-th sum of powers. */
  lemma {:induction false} EvalIsPowerSum(p: poly, k: nat)
    ensures PowerSum(TermsOf(p), k) == Eval(p, Root(k))
  {
    hide Mul, Add, Power, Eval, Root;
    if p == [] {
      EvalOfNothing(Root(k));
    } else {
      var rest := TermsOf(p[1..]);
      EvalIsPowerSum(p[1..], k);
      EvalCons(p, Root(k));
      var e, head := Eval(p[1..], Root(k)), Mul(p[0], Power(Root(k), |p| - 1));
      AddLaws(head, e, 0);
      if p[0] == 0 {
        MulZeroLeft(Power(Root(k), |p| - 1));
        AddLaws(e, 0, 0);
        assert rest + [] == rest;
      } else {
        var t := Term(p[0], Root(|p| - 1));
        PowerOfRoot(|p| - 1, k);
        assert (rest + [t])[..|rest|] == rest;
      }
    }
  }

  lemma EvalOfNothing(x: byte)
    ensures Eval([], x) == 0
  {
  }

  lemma {:induction false} PointsOf(p: poly)
    requires |p| <= ORDER
    ensures DistinctPoints(TermsOf(p))
    ensures forall t | t in TermsOf(p) :: t.coef != 0 && IsRootBelow(t.point, |p|)
  {
    hide Root, IsRootBelow;
    if p != [] {
      var rest := TermsOf(p[1..]);
      PointsOf(p[1..]);
      RootBelow(|p| - 1);
      forall t | t in rest
        ensures IsRootBelow(t.point, |p|) && t.point != Root(|p| - 1)
      {
        RootAbove(t.point, |p| - 1);
      }
    }
  }

  lemma RootBelow(n: nat)
    ensures IsRootBelow(Root(n), n + 1)
  {
  }

  lemma RootAbove(x: byte, n: nat)
    requires IsRootBelow(x, n) && n < ORDER
    ensures IsRootBelow(x, n + 1) && x != Root(n)
  {
    hide Root;
    var i: nat :| i < n && x == Root(i);
    RootsDiffer(i, n);
  }

  /** A polynomial of at most 255 coefficients that is 0 at the first roots has more coefficients than that, or none. */
  lemma MinimumWeight(p: poly, degree: nat)
    requires |p| <= ORDER && Weight(p) > 0 && forall k: nat | k < degree :: Eval(p, Root(k)) == 0
    ensures Weight(p) > degree
  {
    hide Root, Eval, PowerSum, TermsOf;
    if Weight(p) <= degree {
      var t := TermsOf(p);
      PointsOf(p);
      assert t[0] in t && t[0].coef != 0;
      forall k: nat | k < |t|
        ensures PowerSum(t, k) == 0
      {
        EvalIsPowerSum(p, k);
      }
      Independent(t);
    }
  }

  // ---- Distance

  /** The number of places in which two words differ. */
  function WrongPlaces(a: poly, b: poly): nat
    requires |a| == |b|
  {
    if a == [] then 0 else (if a[0] == b[0] then 0 else 1) + WrongPlaces(a[1..], b[1..])
  }

  lemma {:induction false} DistanceIsWeight(a: poly, b: poly)
    requires |a| == |b|
    ensures Weight(Sum(a, b)) == WrongPlaces(a, b) && (WrongPlaces(a, b) == 0 ==> a == b)
  {
    hide Add;
    if a != [] {
      var s := Sum(a, b);
      assert s[1..] == Sum(a[1..], b[1..]);
      DistanceIsWeight(a[1..], b[1..]);
      AddLaws(a[0], 0, 0);
      if Add(a[0], b[0]) == 0 {
        AddIsZero(a[0], b[0]);
      }
      assert a == [a[0]] + a[1..] && b == [b[0]] + b[1..];
    }
  }

  lemma {:induction false} Triangle(a: poly, r: poly, b: poly)
    requires |a| == |r| == |b|
    ensures WrongPlaces(a, b) <= WrongPlaces(a, r) + WrongPlaces(r, b) && WrongPlaces(a, r) == WrongPlaces(r, a)
  {
    if a != [] {
      Triangle(a[1..], r[1..], b[1..]);
    }
  }

  ghost predicate Passes(word: poly, degree: nat) {
    forall k: nat | k < degree :: Eval(word, Root(k)) == 0
  }

  /** Two different words of at most 255 bytes that pass the check differ in more places than there are roots. */
  lemma WordsAreFar(a: poly, b: poly, degree: nat)
    requires |a| == |b| <= ORDER && a != b && Passes(a, degree) && Passes(b, degree)
    ensures WrongPlaces(a, b) > degree
  {
    hide Root, Eval, Add;
    forall k: nat | k < degree
      ensures Eval(Sum(a, b), Root(k)) == 0
    {
      EvalSum(a, b, Root(k));
      AddLaws(0, 0, 0);
    }
    DistanceIsWeight(a, b);
    MinimumWeight(Sum(a, b), degree);
  }

  /** Whatever word is received, at most one data block is within half the number of error correction bytes of it. */
  lemma DamagedBlockDetermines(first: poly, second: poly, degree: nat, received: poly)
    requires degree > 0 && |first| == |second| && |first| + degree == |received| <= ORDER
    requires 2 * WrongPlaces(received, Codeword(first, degree)) <= degree
    requires 2 * WrongPlaces(received, Codeword(second, degree)) <= degree
    ensures first == second
  {
    hide Root, Eval, Remainder, WrongPlaces;
    var a, b := Codeword(first, degree), Codeword(second, degree);
    forall k: nat | k < degree
      ensures Eval(a, Root(k)) == 0 && Eval(b, Root(k)) == 0
    {
      CodewordVanishesAtRoots(first, degree, k);
      CodewordVanishesAtRoots(second, degree, k);
    }
    Triangle(a, received, b);
    if a != b {
      WordsAreFar(a, b, degree);
    }
    assert a[..|first|] == first && b[..|second|] == second;
  }
}
