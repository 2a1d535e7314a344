/**
 Reed-Solomon error correction: section 7.5 of ISO/IEC 18004:2015.

 A polynomial over GF(2^8) is the sequence of its coefficients, highest power first.
 */
module ReedSolomon {
  import opened Bits
  import opened GaloisField

  type poly = seq<byte>

  const DEGREE_MAX := 30

  // ---- Polynomials

  function Zeros(n: nat): (z: poly)
    ensures |z| == n && forall k | 0 <= k < n :: z[k] == 0
  {
    seq(n, _ => 0)
  }

  function Sum(p: poly, q: poly): (r: poly)
    requires |p| == |q|
    ensures |r| == |p| && forall k | 0 <= k < |r| :: r[k] == Add(p[k], q[k])
  {
    seq(|p|, k requires 0 <= k < |p| => Add(p[k], q[k]))
  }

  function Multiple(f: byte, p: poly): (r: poly)
    ensures |r| == |p| && forall k | 0 <= k < |r| :: r[k] == Mul(p[k], f)
  {
    seq(|p|, k requires 0 <= k < |p| => Mul(p[k], f))
  }

  /** The product of q and m, long multiplication by one coefficient of q at a time. */
  function Product(q: poly, m: poly): (r: poly)
    requires |m| > 0
    ensures |r| == |q| + |m| - 1
  {
    if q == [] then Zeros(|m| - 1)
    else
      var n := |q| - 1;
      Sum(Product(q[..n], m) + [0], Zeros(n) + Multiple(q[n], m))
  }

  /** The value of p at the point x. */
  function Eval(p: poly, x: byte): byte {
    if p == [] then 0 else Add(Mul(Eval(p[..|p| - 1], x), x), p[|p| - 1])
  }

  /** The coefficient of x^e in p. */
  function Coef(p: poly, e: nat): byte {
    if e < |p| then p[|p| - 1 - e] else 0
  }

  // ---- The generator polynomial

  /** 2^i in the field: the i-th root. */
  function Root(i: nat): byte {
    if i == 0 then 1 else Mul(Root(i - 1), 2)
  }

  /** p * (x - r). */
  function TimesLinear(p: poly, r: byte): (q: poly)
    ensures |q| == |p| + 1
  {
    Sum(p + [0], [0] + Multiple(r, p))
  }

  /** (x - 2^0) * (x - 2^1) * ... * (x - 2^(n-1)). */
  function RootProduct(n: nat): (p: poly)
    ensures |p| == n + 1
  {
    if n == 0 then [1] else TimesLinear(RootProduct(n - 1), Root(n - 1))
  }

  /** The same product, of values instead of polynomials. */
  function Differences(n: nat, x: byte): byte {
    if n == 0 then 1 else Mul(Differences(n - 1, x), Add(x, Root(n - 1)))
  }

  /** The coefficients of p below x^degree, highest power first. */
  function CoefsBelow(p: poly, degree: nat): (r: poly)
    ensures |r| == degree && forall k | 0 <= k < degree :: r[k] == Coef(p, degree - 1 - k)
  {
    seq(degree, k requires 0 <= k < degree => Coef(p, degree - 1 - k))
  }

  ghost predicate Holds(a: seq<byte>, degree: nat, p: poly) {
    degree <= |a| && a[..degree] == CoefsBelow(p, degree)
  }

  /** reedSolomonComputeDivisor: the generator polynomial without its leading 1. */
  method ComputeDivisor(degree: nat, result: array<byte>)
    requires 1 <= degree <= DEGREE_MAX && degree <= result.Length
    modifies result
    ensures result[..degree] == RootProduct(degree)[1..]
    ensures forall k | degree <= k < result.Length :: result[k] == old(result[k])
  {
    hide Mul, Add, TimesLinear;
    forall k | 0 <= k < degree {
      result[k] := 0;
    }
    result[degree - 1] := 1;
    var root: byte := 1;
    for i := 0 to degree
      invariant root == Root(i)
      invariant Holds(result[..], degree, RootProduct(i))
      invariant forall k | degree <= k < result.Length :: result[k] == old(result[k])
    {
      MultiplyByLinear(degree, result, root, RootProduct(i));
      root := Multiply(root, 2);
    }
  }

  /** The inner loop of reedSolomonComputeDivisor: multiplies the current product by x - root. */
  method MultiplyByLinear(degree: nat, result: array<byte>, root: byte, ghost p: poly)
    requires 1 <= degree <= result.Length
    requires Holds(result[..], degree, p)
    modifies result
    ensures Holds(result[..], degree, TimesLinear(p, root))
    ensures forall k | degree <= k < result.Length :: result[k] == old(result[k])
  {
    hide Mul, Add;
    ghost var before := result[..];
    ghost var after := CoefsBelow(TimesLinear(p, root), degree);
    for j := 0 to degree
      invariant forall k | 0 <= k < j :: result[k] == after[k]
      invariant forall k | j <= k < result.Length :: result[k] == before[k]
    {
      var product := Multiply(result[j], root);
      if j + 1 < degree {
        product := Add(product, result[j + 1]);
      }
      assert product == LinearStep(p, root, degree - 1 - j);
      CoefOfTimesLinear(p, root, degree - 1 - j);
      assert product == after[j];
      result[j] := product;
    }
  }

  /** One coefficient of p * (x - r), as the inner loop computes it. */
  function LinearStep(p: poly, r: byte, e: nat): byte {
    var product := Mul(Coef(p, e), r);
    if e == 0 then product else Add(product, Coef(p, e - 1))
  }

  lemma CoefTimesLinear(p: poly, r: byte, e: nat)
    requires e <= |p|
    ensures Coef(TimesLinear(p, r), e) == LinearStep(p, r, e)
  {
    var n := |p|;
    var high := if e == 0 then 0 else Coef(p, e - 1);
    var low := if e == n then 0 else Mul(Coef(p, e), r);
    assert (p + [0])[n - e] == high;
    assert ([0] + Multiple(r, p))[n - e] == low;
    assert Coef(TimesLinear(p, r), e) == Add(high, low);
    AddLaws(high, low, 0);
    AddLaws(low, 0, 0);
    MulZeroLeft(r);
  }

  lemma CoefBeyond(p: poly, r: byte, e: nat)
    requires e > |p|
    ensures Coef(TimesLinear(p, r), e) == LinearStep(p, r, e)
  {
    MulZeroLeft(r);
    AddLaws(0, 0, 0);
  }

  lemma CoefOfTimesLinear(p: poly, r: byte, e: nat)
    ensures Coef(TimesLinear(p, r), e) == LinearStep(p, r, e)
  {
    if e <= |p| {
      CoefTimesLinear(p, r, e);
    } else {
      CoefBeyond(p, r, e);
    }
  }

  lemma {:induction false} RootProductIsMonic(n: nat)
    ensures RootProduct(n)[0] == 1
  {
    if n > 0 {
      RootProductIsMonic(n - 1);
      AddLaws(1, 0, 0);
    }
  }

  // ---- Evaluation is a homomorphism

  lemma EvalAppend(p: poly, c: byte, x: byte)
    ensures Eval(p + [c], x) == Add(Mul(Eval(p, x), x), c)
  {
    assert (p + [c])[..|p|] == p;
  }

  lemma {:induction false} EvalSum(p: poly, q: poly, x: byte)
    requires |p| == |q|
    ensures Eval(Sum(p, q), x) == Add(Eval(p, x), Eval(q, x))
  {
    if p == [] {
      AddLaws(0, 0, 0);
    } else {
      var n := |p| - 1;
      var p', q' := p[..n], q[..n];
      EvalSum(p', q', x);
      assert Sum(p, q) == Sum(p', q') + [Add(p[n], q[n])];
      EvalAppend(Sum(p', q'), Add(p[n], q[n]), x);
      MulLinear(Eval(p', x), Eval(q', x), x);
      AddExchange(Mul(Eval(p', x), x), Mul(Eval(q', x), x), p[n], q[n]);
    }
  }

  lemma {:induction false} EvalMultiple(f: byte, p: poly, x: byte)
    ensures Eval(Multiple(f, p), x) == Mul(Eval(p, x), f)
  {
    if p == [] {
      MulZeroLeft(f);
    } else {
      var n := |p| - 1;
      var e := Eval(p[..n], x);
      EvalMultiple(f, p[..n], x);
      assert Multiple(f, p) == Multiple(f, p[..n]) + [Mul(p[n], f)];
      EvalAppend(Multiple(f, p[..n]), Mul(p[n], f), x);
      MulAssociates(e, f, x);
      MulCommutes(f, x);
      MulAssociates(e, x, f);
      MulLinear(Mul(e, x), p[n], f);
    }
  }

  lemma {:induction false} EvalPadded(n: nat, p: poly, x: byte)
    ensures Eval(Zeros(n) + p, x) == Eval(p, x)
  {
    if |p| > 0 {
      var m := |p| - 1;
      EvalPadded(n, p[..m], x);
      assert Zeros(n) + p == (Zeros(n) + p[..m]) + [p[m]];
      EvalAppend(Zeros(n) + p[..m], p[m], x);
    } else if n > 0 {
      EvalPadded(n - 1, [], x);
      assert Zeros(n) + p == (Zeros(n - 1) + []) + [0];
      EvalAppend(Zeros(n - 1) + [], 0, x);
      MulZeroLeft(x);
      AddLaws(0, 0, 0);
    } else {
      assert Zeros(n) + p == [];
    }
  }

  lemma {:induction false} EvalProduct(q: poly, m: poly, x: byte)
    requires |m| > 0
    ensures Eval(Product(q, m), x) == Mul(Eval(q, x), Eval(m, x))
  {
    var em := Eval(m, x);
    if q == [] {
      EvalPadded(|m| - 1, [], x);
      assert Zeros(|m| - 1) + [] == Zeros(|m| - 1);
      MulZeroLeft(em);
    } else {
      var n := |q| - 1;
      var p := Product(q[..n], m);
      var e := Eval(q[..n], x);
      EvalProduct(q[..n], m, x);
      EvalSum(p + [0], Zeros(n) + Multiple(q[n], m), x);
      EvalAppend(p, 0, x);
      AddLaws(Mul(Eval(p, x), x), 0, 0);
      EvalPadded(n, Multiple(q[n], m), x);
      EvalMultiple(q[n], m, x);
      MulCommutes(em, q[n]);
      MulAssociates(e, em, x);
      MulCommutes(em, x);
      MulAssociates(e, x, em);
      MulLinear(Mul(e, x), q[n], em);
    }
  }

  lemma EvalOne(x: byte)
    ensures Eval([1], x) == 1
  {
    EvalAppend([], 1, x);
    assert [] + [1 as byte] == [1];
    MulZeroLeft(x);
    AddLaws(1, 0, 0);
  }

  lemma EvalTimesLinear(p: poly, r: byte, x: byte)
    ensures Eval(TimesLinear(p, r), x) == Mul(Eval(p, x), Add(x, r))
  {
    EvalSum(p + [0], [0] + Multiple(r, p), x);
    EvalAppend(p, 0, x);
    AddLaws(Mul(Eval(p, x), x), 0, 0);
    EvalPadded(1, Multiple(r, p), x);
    assert Zeros(1) + Multiple(r, p) == [0] + Multiple(r, p);
    EvalMultiple(r, p, x);
    MulDistributes(Eval(p, x), x, r);
  }

  /** Evaluation turns the product of the polynomials x - 2^i into the product of their values. */
  lemma {:induction false} RootProductEval(n: nat, x: byte)
    ensures Eval(RootProduct(n), x) == Differences(n, x)
  {
    if n == 0 {
      EvalOne(x);
    } else {
      RootProductEval(n - 1, x);
      EvalTimesLinear(RootProduct(n - 1), Root(n - 1), x);
    }
  }

  lemma {:induction false} DifferencesAtRoot(n: nat, i: nat)
    requires i < n
    ensures Differences(n, Root(i)) == 0
  {
    if i == n - 1 {
      AddLaws(Root(i), 0, 0);
    } else {
      DifferencesAtRoot(n - 1, i);
      MulZeroLeft(Add(Root(i), Root(n - 1)));
    }
  }

  /** reedSolomonComputeDivisor yields the product of the x - 2^i for i < degree: its values show it. */
  lemma GeneratorVanishesAtRoots(degree: nat, i: nat)
    requires i < degree
    ensures Eval(RootProduct(degree), Root(i)) == 0
  {
    RootProductEval(degree, Root(i));
    DifferencesAtRoot(degree, i);
  }

  // ---- Division

  /** One step of the division: the remainder after the next data byte b. */
  function RemainderStep(rem: poly, b: byte, g: poly): (r: poly)
    requires |rem| == |g| > 0
    ensures |r| == |g|
  {
    Sum(rem[1..] + [0], Multiple(Add(b, rem[0]), g))
  }

  /** The remainder of data * x^|g| modulo the monic polynomial [1] + g. */
  function Remainder(data: poly, g: poly): (r: poly)
    requires |g| > 0
    ensures |r| == |g|
  {
    if data == [] then Zeros(|g|)
    else
      var n := |data| - 1;
      RemainderStep(Remainder(data[..n], g), data[n], g)
  }

  /** The factors by which the divisor is taken off, which form the quotient. */
  function QuotientOf(data: poly, g: poly): (q: poly)
    requires |g| > 0
    ensures |q| == |data|
  {
    if data == [] then []
    else
      var n := |data| - 1;
      QuotientOf(data[..n], g) + [Add(data[n], Remainder(data[..n], g)[0])]
  }

  /** reedSolomonComputeRemainder, over the bytes data[start..start + dataLen], into result[at..at + degree]. */
  method ComputeRemainder(data: array<byte>, start: nat, dataLen: nat, generator: array<byte>, degree: nat,
                          result: array<byte>, at: nat)
    requires 1 <= degree <= DEGREE_MAX && degree <= generator.Length
    requires start + dataLen <= data.Length && at + degree <= result.Length
    requires generator != result && (data == result ==> start + dataLen <= at)
    modifies result
    ensures result[at..at + degree] == Remainder(old(data[start..start + dataLen]), old(generator[..degree]))
    ensures forall k | 0 <= k < result.Length && !(at <= k < at + degree) :: result[k] == old(result[k])
  {
    hide Mul, Add, Remainder, RemainderStep;
    ghost var g, d := generator[..degree], data[start..start + dataLen];
    forall k | 0 <= k < degree {
      result[at + k] := 0;
    }
    RemainderOfNothing(g);
    assert d[..0] == [] && result[at..at + degree] == Zeros(degree);
    for i := 0 to dataLen
      invariant generator[..degree] == g && data[start..start + dataLen] == d
      invariant result[at..at + degree] == Remainder(d[..i], g)
      invariant forall k | 0 <= k < result.Length && !(at <= k < at + degree) :: result[k] == old(result[k])
    {
      RemainderNext(d, i, g);
      assert data[start + i] == d[i];
      DivideOneByte(data[start + i], generator, degree, result, at);
    }
    assert d[..dataLen] == d;
  }

  lemma RemainderOfNothing(g: poly)
    requires |g| > 0
    ensures Remainder([], g) == Zeros(|g|)
  {
  }

  lemma RemainderNext(d: poly, i: nat, g: poly)
    requires |g| > 0 && i < |d|
    ensures Remainder(d[..i + 1], g) == RemainderStep(Remainder(d[..i], g), d[i], g)
  {
    hide RemainderStep;
    assert d[..i + 1][..i] == d[..i];
  }

  /** The body of the division loop: takes in one data byte. */
  method DivideOneByte(b: byte, generator: array<byte>, degree: nat, result: array<byte>, at: nat)
    requires 1 <= degree <= generator.Length && at + degree <= result.Length
    requires generator != result
    modifies result
    ensures result[at..at + degree] == RemainderStep(old(result[at..at + degree]), b, generator[..degree])
    ensures forall k | 0 <= k < result.Length && !(at <= k < at + degree) :: result[k] == old(result[k])
  {
    hide Mul, Add, RemainderStep;
    var factor := Add(b, result[at]);
    ghost var before, g := result[at..at + degree], generator[..degree];
    ghost var after := RemainderStep(before, b, g);
    ShiftLeft(result, at, degree);
    ghost var shifted := before[1..] + [0];
    forall k | 0 <= k < degree
      ensures result[at + k] == shifted[k]
    {
      assert result[at..at + degree][k] == shifted[k];
    }
    for j := 0 to degree
      invariant generator[..degree] == g
      invariant forall k | 0 <= k < j :: result[at + k] == after[k]
      invariant forall k | j <= k < degree :: result[at + k] == shifted[k]
      invariant forall k | 0 <= k < result.Length && !(at <= k < at + degree) :: result[k] == old(result[k])
    {
      var term := Multiply(generator[j], factor);
      RemainderStepAt(before, b, g, j);
      result[at + j] := Add(result[at + j], term);
    }
    assert result[at..at + degree] == after;
  }

  /** The memmove of one coefficient, which brings in a zero. */
  method ShiftLeft(result: array<byte>, at: nat, degree: nat)
    requires degree >= 1 && at + degree <= result.Length
    modifies result
    ensures result[at..at + degree] == old(result[at..at + degree])[1..] + [0]
    ensures forall k | 0 <= k < result.Length && !(at <= k < at + degree) :: result[k] == old(result[k])
  {
    forall k | 0 <= k < degree - 1 {
      result[at + k] := result[at + k + 1];
    }
    result[at + degree - 1] := 0;
  }

  lemma RemainderStepAt(rem: poly, b: byte, g: poly, j: nat)
    requires |rem| == |g| > j
    ensures RemainderStep(rem, b, g)[j] == Add((rem[1..] + [0])[j], Mul(g[j], Add(b, rem[0])))
  {
    hide Mul, Add;
  }

  // ---- What the division computes

  /**
   The defining property of the remainder: data * x^d is a multiple of the monic divisor [1] + g
   plus the remainder, whose degree is below d.
   */
  lemma {:induction false} DivisionIdentity(data: poly, g: poly)
    requires |g| > 0
    ensures data + Zeros(|g|) == Sum(Product(QuotientOf(data, g), [1] + g), Zeros(|data|) + Remainder(data, g))
  {
    hide Mul, Add, RemainderStep, Product;
    if data == [] {
      EmptyIdentity(g);
    } else {
      var n := |data| - 1;
      DivisionIdentity(data[..n], g);
      DivisionStep(data[..n], data[n], g);
      assert data == data[..n] + [data[n]];
    }
  }

  lemma EmptyIdentity(g: poly)
    requires |g| > 0
    ensures [] + Zeros(|g|) == Sum(Product(QuotientOf([], g), [1] + g), Zeros(0) + Remainder([], g))
  {
    AddLaws(0, 0, 0);
    assert [] + Zeros(|g|) == Sum(Zeros(|g|), Zeros(0) + Zeros(|g|));
  }

  lemma DivisionStep(data: poly, b: byte, g: poly)
    requires |g| > 0
    requires data + Zeros(|g|) == Sum(Product(QuotientOf(data, g), [1] + g), Zeros(|data|) + Remainder(data, g))
    ensures data + [b] + Zeros(|g|) ==
              Sum(Product(QuotientOf(data + [b], g), [1] + g), Zeros(|data| + 1) + Remainder(data + [b], g))
  {
    hide Mul, Add, QuotientOf, Remainder, RemainderStep, Product;
    var n, d := |data|, |g|;
    var q, rem := QuotientOf(data, g), Remainder(data, g);
    var f := Add(b, rem[0]);
    var p := Product(q, [1] + g);
    OneMoreByte(data, b, g);
    ProductSnoc(q, f, [1] + g);
    var left, right := data + [b] + Zeros(d), Sum(Product(q + [f], [1] + g), Zeros(n + 1) + Remainder(data + [b], g));
    forall k | 0 <= k < n + 1 + d
      ensures left[k] == right[k]
    {
      DivisionStepAt(data, b, g, p, k);
    }
  }

  lemma OneMoreByte(data: poly, b: byte, g: poly)
    requires |g| > 0
    ensures Remainder(data + [b], g) == RemainderStep(Remainder(data, g), b, g)
    ensures QuotientOf(data + [b], g) == QuotientOf(data, g) + [Add(b, Remainder(data, g)[0])]
  {
    hide RemainderStep, Add;
    assert (data + [b])[..|data|] == data;
  }

  lemma ProductSnoc(q: poly, f: byte, m: poly)
    requires |m| > 0
    ensures Product(q + [f], m) == Sum(Product(q, m) + [0], Zeros(|q|) + Multiple(f, m))
  {
    assert (q + [f])[..|q|] == q;
  }

  /** The identity before the next data byte, at one coefficient. */
  lemma IdentityAt(data: poly, g: poly, p: poly, k: nat)
    requires |g| > 0 && |p| == |data| + |g| && k < |data| + |g|
    requires data + Zeros(|g|) == Sum(p, Zeros(|data|) + Remainder(data, g))
    ensures k < |data| ==> Add(p[k], 0) == data[k]
    ensures k >= |data| ==> Add(p[k], Remainder(data, g)[k - |data|]) == 0
  {
    hide Add, Remainder;
    assert (data + Zeros(|g|))[k] == Add(p[k], (Zeros(|data|) + Remainder(data, g))[k]);
  }

  /** The identity after one more data byte, at one coefficient. */
  lemma DivisionStepAt(data: poly, b: byte, g: poly, p: poly, k: nat)
    requires |g| > 0 && |p| == |data| + |g| && k < |data| + 1 + |g|
    requires data + Zeros(|g|) == Sum(p, Zeros(|data|) + Remainder(data, g))
    ensures var n, f := |data|, Add(b, Remainder(data, g)[0]);
            (data + [b] + Zeros(|g|))[k] ==
            Add(Add((p + [0])[k], (Zeros(n) + Multiple(f, [1] + g))[k]),
                (Zeros(n + 1) + RemainderStep(Remainder(data, g), b, g))[k])
  {
    hide Mul, Add, Remainder, RemainderStep, Sum;
    var n, d, rem := |data|, |g|, Remainder(data, g);
    var f := Add(b, rem[0]);
    if k < n + d {
      IdentityAt(data, g, p, k);
    }
    if k < n {
      AddLaws(data[k], 0, 0);
    } else if k == n {
      MulOneLeft(f);
      CancelLeading(p[n], rem[0], b);
      AddLaws(b, 0, 0);
    } else {
      var j := k - n - 1;
      RemainderStepAt(rem, b, g, j);
      AddLaws(0, 0, 0);
      CancelTerm((p + [0])[k], Mul(g[j], f), (rem[1..] + [0])[j]);
    }
  }

  lemma CancelLeading(p: byte, r: byte, b: byte)
    requires Add(p, r) == 0
    ensures Add(p, Add(b, r)) == b
  {
    AddLaws(b, r, 0);
    AddLaws(p, r, b);
    AddLaws(0, 0, 0);
    AddLaws(b, 0, 0);
  }

  lemma CancelTerm(p: byte, t: byte, s: byte)
    requires Add(p, s) == 0
    ensures Add(Add(p, t), Add(s, t)) == 0
  {
    AddExchange(p, t, s, t);
    AddLaws(t, t, 0);
    AddLaws(0, 0, 0);
  }

  /** A data block followed by its error correction bytes. */
  function Codeword(data: poly, degree: nat): poly
    requires degree > 0
  {
    data + Remainder(data, RootProduct(degree)[1..])
  }

  /** Every codeword is a multiple of the generator polynomial. */
  lemma CodewordIsMultiple(data: poly, degree: nat)
    requires degree > 0
    ensures Codeword(data, degree) == Product(QuotientOf(data, RootProduct(degree)[1..]), RootProduct(degree))
  {
    var g := RootProduct(degree)[1..];
    var p := Product(QuotientOf(data, g), [1] + g);
    RootProductIsMonic(degree);
    assert RootProduct(degree) == [1] + g;
    DivisionIdentity(data, g);
    var word, padded := Codeword(data, degree), Zeros(|data|) + Remainder(data, g);
    forall k | 0 <= k < |word|
      ensures word[k] == p[k]
    {
      assert (data + Zeros(degree))[k] == Add(p[k], padded[k]);
      AddLaws(p[k], padded[k], padded[k]);
      AddLaws(padded[k], 0, 0);
      AddLaws(p[k], 0, 0);
    }
  }

  /** The syndromes of every data block with its error correction bytes are zero. */
  lemma CodewordVanishesAtRoots(data: poly, degree: nat, i: nat)
    requires i < degree
    ensures Eval(Codeword(data, degree), Root(i)) == 0
  {
    CodewordIsMultiple(data, degree);
    EvalProduct(QuotientOf(data, RootProduct(degree)[1..]), RootProduct(degree), Root(i));
    GeneratorVanishesAtRoots(degree, i);
  }
}
