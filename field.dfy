/** Arithmetic in the prime field GF(p) and on polynomials over it.

    A field element is an int in [0, p). A polynomial is its coefficient
    list, constant coefficient first, as `Poly(coeffs)` takes it. The field
    and polynomial library itself is not part of this model: what the core
    uses of it (addition, subtraction, multiplication, evaluation at a point)
    is written out here. */
module Field {

  ghost predicate IsElem(p: int, x: int) {
    0 <= x < p
  }

  function Add(p: int, a: int, b: int): (r: int)
    requires p >= 2
    ensures IsElem(p, r)
  {
    (a + b) % p
  }

  function Sub(p: int, a: int, b: int): (r: int)
    requires p >= 2
    ensures IsElem(p, r) && (r + b) % p == a % p
  {
    ModAddCongruent(p, a - b, b);
    (a - b) % p
  }

  function Mul(p: int, a: int, b: int): (r: int)
    requires p >= 2
    ensures IsElem(p, r)
  {
    (a * b) % p
  }

  /** x^e over the integers. */
  function Pow(x: int, e: nat): int {
    if e == 0 then 1 else x * Pow(x, e - 1)
  }

  /** Evaluation of the polynomial with coefficients `cs` at `x`, by Horner's
      rule, reducing mod p after every step: `P(x)` in the library. */
  function Eval(p: int, cs: seq<int>, x: int): (r: int)
    requires p >= 2
    ensures IsElem(p, r)
  {
    if cs == [] then 0 else (cs[0] + x * Eval(p, cs[1..], x)) % p
  }

  /** The reference meaning of a coefficient list: sum over k of
      cs[k] * x^(e + k), over the integers. */
  function PowerSum(cs: seq<int>, x: int, e: nat): int {
    if cs == [] then 0 else cs[0] * Pow(x, e) + PowerSum(cs[1..], x, e + 1)
  }

  // ---------------------------------------------------------------------
  // Modular arithmetic

  lemma ModOfMultiple(p: int, a: int, k: int)
    requires p >= 2
    ensures (a + k * p) % p == a % p
  {
    var q, r := a / p, a % p;
    assert a == q * p + r;
    assert a + k * p == (q + k) * p + r;
    ModUnique(p, a + k * p, q + k, r);
  }

  lemma ModUnique(p: int, a: int, q: int, r: int)
    requires p >= 2 && 0 <= r < p && a == q * p + r
    ensures a % p == r
  {
    var q', r' := a / p, a % p;
    var d := q' - q;
    assert d * p == r - r';
    if d >= 1 {
      MulAtLeast(d, p);
      assert false;
    } else if d <= -1 {
      MulAtLeast(-d, p);
      assert false;
    }
  }

  lemma MulAtLeast(d: int, p: int)
    requires d >= 1 && p >= 0
    ensures d * p >= p
  {
    assert d * p == (d - 1) * p + p;
  }

  /** Reducing one summand first does not change the sum mod p. */
  lemma ModAddCongruent(p: int, a: int, b: int)
    requires p >= 2
    ensures (a % p + b) % p == (a + b) % p
  {
    ModOfMultiple(p, a % p + b, a / p);
    assert a % p + b + (a / p) * p == a + b;
  }

  /** Reducing x mod p changes it by a multiple of p. */
  lemma ReducedCongruent(p: int, x: int)
    requires p >= 2
    ensures (x % p - x) % p == 0
  {
    ModAddCongruent(p, x, -x);
  }

  /** Reducing one factor first does not change the product mod p. */
  lemma ModMulCongruent(p: int, a: int, b: int)
    requires p >= 2
    ensures (a * (b % p)) % p == (a * b) % p
  {
    var q, r := b / p, b % p;
    assert b == q * p + r;
    assert a * b == a * r + (a * q) * p;
    ModOfMultiple(p, a * r, a * q);
  }

  // ---------------------------------------------------------------------
  // Evaluation

  lemma {:induction false} PowerSumShift(cs: seq<int>, x: int, e: nat)
    ensures x * PowerSum(cs, x, e) == PowerSum(cs, x, e + 1)
    decreases |cs|
  {
    if cs != [] {
      PowerSumShift(cs[1..], x, e + 1);
      var a, b := cs[0] * Pow(x, e), PowerSum(cs[1..], x, e + 1);
      assert PowerSum(cs, x, e) == a + b;
      assert x * (a + b) == x * a + x * b;
      assert x * a == cs[0] * Pow(x, e + 1);
    }
  }

  /** Horner evaluation mod p is the power sum of the coefficients mod p:
      `Eval(p, cs, x)` is f(x) for f = sum of cs[k] * x^k. */
  lemma {:induction false} EvalIsPowerSum(p: int, cs: seq<int>, x: int)
    requires p >= 2
    ensures Eval(p, cs, x) == PowerSum(cs, x, 0) % p
    decreases |cs|
  {
    if cs != [] {
      var rest := PowerSum(cs[1..], x, 0);
      EvalIsPowerSum(p, cs[1..], x);
      ModMulCongruent(p, x, rest);
      ModAddCongruent(p, x * (rest % p), cs[0]);
      ModAddCongruent(p, x * rest, cs[0]);
      PowerSumShift(cs[1..], x, 0);
      assert PowerSum(cs, x, 0) == cs[0] + x * rest;
    }
  }

  /** A polynomial's value at 0 is its constant coefficient (0 for the empty
      coefficient list). */
  lemma EvalAtZero(p: int, cs: seq<int>)
    requires p >= 2
    ensures Eval(p, cs, 0) == if cs == [] then 0 else cs[0] % p
  {
  }

  // ---------------------------------------------------------------------
  // Polynomial arithmetic, as reference definitions for the lemmas below

  /** Coefficient-wise sum of two polynomials. */
  function PolyAdd(f: seq<int>, g: seq<int>): (h: seq<int>)
    ensures |h| == if |f| < |g| then |g| else |f|
  {
    if f == [] then g
    else if g == [] then f
    else [f[0] + g[0]] + PolyAdd(f[1..], g[1..])
  }

  /** The polynomial c * f. */
  function PolyScale(c: int, f: seq<int>): (h: seq<int>)
    ensures |h| == |f|
  {
    if f == [] then [] else [c * f[0]] + PolyScale(c, f[1..])
  }

  /** The values of the polynomials `fs` at `y`, in order. */
  function Values(p: int, fs: seq<seq<int>>, y: int): (vs: seq<int>)
    requires p >= 2
    ensures |vs| == |fs|
    ensures forall k :: 0 <= k < |fs| ==> vs[k] == Eval(p, fs[k], y)
  {
    if fs == [] then [] else [Eval(p, fs[0], y)] + Values(p, fs[1..], y)
  }

  /** The polynomial in y that is sum over k of x^k * fs[k](y): the
      bivariate polynomial F(x, y) = sum of x^k * fs[k](y) with x fixed. */
  function Combine(fs: seq<seq<int>>, x: int): seq<int> {
    if fs == [] then [] else PolyAdd(fs[0], PolyScale(x, Combine(fs[1..], x)))
  }

  lemma {:induction false} PowerSumAdd(f: seq<int>, g: seq<int>, x: int, e: nat)
    ensures PowerSum(PolyAdd(f, g), x, e) == PowerSum(f, x, e) + PowerSum(g, x, e)
    decreases |f|
  {
    if f != [] && g != [] {
      PowerSumAdd(f[1..], g[1..], x, e + 1);
      assert PolyAdd(f, g)[1..] == PolyAdd(f[1..], g[1..]);
      assert (f[0] + g[0]) * Pow(x, e) == f[0] * Pow(x, e) + g[0] * Pow(x, e);
    }
  }

  lemma {:induction false} PowerSumScale(c: int, f: seq<int>, x: int, e: nat)
    ensures PowerSum(PolyScale(c, f), x, e) == c * PowerSum(f, x, e)
    decreases |f|
  {
    if f != [] {
      PowerSumScale(c, f[1..], x, e + 1);
      assert PolyScale(c, f)[1..] == PolyScale(c, f[1..]);
      assert (c * f[0]) * Pow(x, e) == c * (f[0] * Pow(x, e));
    }
  }

  /** Evaluation is additive: (f + g)(x) == f(x) + g(x) in GF(p). */
  lemma EvalPolyAdd(p: int, f: seq<int>, g: seq<int>, x: int)
    requires p >= 2
    ensures Eval(p, PolyAdd(f, g), x) == Add(p, Eval(p, f, x), Eval(p, g, x))
  {
    var a, b := PowerSum(f, x, 0), PowerSum(g, x, 0);
    EvalIsPowerSum(p, f, x);
    EvalIsPowerSum(p, g, x);
    EvalIsPowerSum(p, PolyAdd(f, g), x);
    PowerSumAdd(f, g, x, 0);
    ModAddCongruent(p, a, b % p);
    ModAddCongruent(p, b, a);
  }

  /** Evaluation is homogeneous: (c * f)(x) == c * f(x) in GF(p). */
  lemma EvalPolyScale(p: int, c: int, f: seq<int>, x: int)
    requires p >= 2
    ensures Eval(p, PolyScale(c, f), x) == Mul(p, c, Eval(p, f, x))
  {
    EvalIsPowerSum(p, f, x);
    EvalIsPowerSum(p, PolyScale(c, f), x);
    PowerSumScale(c, f, x, 0);
    ModMulCongruent(p, c, PowerSum(f, x, 0));
  }

  /** Evaluating F(x, .) at y is evaluating, at x, the polynomial whose
      coefficients are the values fs[k](y): the two ways of evaluating the
      bivariate polynomial F agree. */
  lemma {:induction false} EvalCombine(p: int, fs: seq<seq<int>>, x: int, y: int)
    requires p >= 2
    ensures Eval(p, Combine(fs, x), y) == Eval(p, Values(p, fs, y), x)
    decreases |fs|
  {
    if fs != [] {
      var rest := Combine(fs[1..], x);
      EvalCombine(p, fs[1..], x, y);
      EvalPolyAdd(p, fs[0], PolyScale(x, rest), y);
      EvalPolyScale(p, x, rest, y);
      assert Values(p, fs, y)[1..] == Values(p, fs[1..], y);
      ModAddCongruent(p, x * Eval(p, rest, y), Eval(p, fs[0], y));
    }
  }

  /** F(x, .) has no more coefficients than the longest of the fs. */
  lemma {:induction false} CombineLength(fs: seq<seq<int>>, x: int, m: nat)
    requires forall k :: 0 <= k < |fs| ==> |fs[k]| <= m
    ensures |Combine(fs, x)| <= m
    decreases |fs|
  {
    if fs != [] {
      CombineLength(fs[1..], x, m);
    }
  }

  /** Evaluation turns coefficient-wise difference into field subtraction. */
  lemma EvalPolySub(p: int, f: seq<int>, g: seq<int>, x: int)
    requires p >= 2
    ensures Eval(p, PolyAdd(f, PolyScale(-1, g)), x) == Sub(p, Eval(p, f, x), Eval(p, g, x))
  {
    var a, b := Eval(p, f, x), Eval(p, g, x);
    EvalPolyScale(p, -1, g, x);
    EvalPolyAdd(p, f, PolyScale(-1, g), x);
    assert -1 * b == -b;
    ModAddCongruent(p, -b, a);
  }

  /** Adding a constant to the constant coefficient adds it to every value. */
  lemma EvalAddConstant(p: int, f: seq<int>, e: int, x: int)
    requires p >= 2
    ensures Eval(p, PolyAdd(f, [e]), x) == Add(p, Eval(p, f, x), e)
  {
    var y := Eval(p, f, x);
    EvalPolyAdd(p, f, [e], x);
    assert Eval(p, [e], x) == e % p by {
      assert [e][1..] == [];
      assert Eval(p, [], x) == 0;
      assert x * 0 == 0;
    }
    assert Eval(p, PolyAdd(f, [e]), x) == (y + e % p) % p;
    ModAddCongruent(p, e, y);
    assert e % p + y == y + e % p;
    assert e + y == y + e;
  }
}
