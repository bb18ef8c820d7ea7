/** Division of polynomials over the field of two elements. A polynomial is the sequence of its
    coefficients, the highest power first. */
module PolynomialDivision {

  type Poly = seq<bool>

  function Zeros(n: nat): (p: Poly)
    ensures |p| == n && forall i :: 0 <= i < n ==> !p[i]
  {
    seq(n, _ => false)
  }

  function Add(p: Poly, q: Poly): (r: Poly)
    requires |p| == |q|
    ensures |r| == |p| && forall i :: 0 <= i < |r| ==> r[i] == (p[i] != q[i])
  {
    seq(|p|, i requires 0 <= i < |p| => p[i] != q[i])
  }

  /** t * p for a single coefficient t */
  function Scale(t: bool, p: Poly): (r: Poly)
    ensures |r| == |p| && forall i :: 0 <= i < |r| ==> r[i] == (t && p[i])
  {
    if t then p else Zeros(|p|)
  }

  /** q * g, by Horner's rule: the product so far times x, plus the next coefficient times g. */
  function Times(q: Poly, g: Poly): (p: Poly)
    requires |g| > 0
    ensures |p| == |q| + |g| - 1
  {
    if q == [] then Zeros(|g| - 1)
    else
      var n := |q| - 1;
      Add(Times(q[..n], g) + [false], Zeros(n) + Scale(q[n], g))
  }

  /** `r`, with fewer coefficients than g, is what remains when m * x^w is divided by g, where w is the
      degree of g, and q is the quotient. */
  ghost predicate Divides(m: Poly, g: Poly, q: Poly, r: Poly) {
    && |g| > 0 && |q| == |m| && |r| == |g| - 1
    && Add(Times(q, g), Zeros(|m|) + r) == m + Zeros(|g| - 1)
  }

  // ---------------------------------------------------------------- a shift register

  /** One more coefficient of the dividend enters a register holding a remainder. */
  function Shift(r: Poly, b: bool, g: Poly): (s: Poly)
    requires |r| + 1 == |g| && |r| > 0
    ensures |s| == |r|
  {
    Add(r[1..] + [false], Scale(r[0] != b, g[1..]))
  }

  /** The register after all of `m` entered it. */
  function Run(r: Poly, m: Poly, g: Poly): (s: Poly)
    requires |r| + 1 == |g| && |r| > 0
    ensures |s| == |r|
  {
    if m == [] then r else Shift(Run(r, m[..|m| - 1], g), m[|m| - 1], g)
  }

  lemma {:induction false} RunSplit(r: Poly, m: Poly, n: Poly, g: Poly)
    requires |r| + 1 == |g| && |r| > 0
    ensures Run(r, m + n, g) == Run(Run(r, m, g), n, g)
  {
    hide Shift;
    if n == [] {
      assert m + n == m;
    } else {
      var init, whole := n[..|n| - 1], m + n;
      RunSplit(r, m, init, g);
      assert whole[..|whole| - 1] == m + init && whole[|whole| - 1] == n[|n| - 1];
    }
  }

  function Register(m: Poly, g: Poly): (r: Poly)
    requires |g| > 1
    ensures |r| == |g| - 1
  {
    Run(Zeros(|g| - 1), m, g)
  }

  function Quotient(m: Poly, g: Poly): (q: Poly)
    requires |g| > 1
    ensures |q| == |m|
  {
    if m == [] then []
    else Quotient(m[..|m| - 1], g) + [Register(m[..|m| - 1], g)[0] != m[|m| - 1]]
  }

  lemma TimesUnfolds(q: Poly, t: bool, g: Poly)
    requires |g| > 0
    ensures Times(q + [t], g) == Add(Times(q, g) + [false], Zeros(|q|) + Scale(t, g))
  {
  }

  lemma TimesGrows(q: Poly, t: bool, g: Poly, i: nat)
    requires |g| > 1 && i < |q| + |g|
    ensures Times(q + [t], g)[i] == ((i < |q| + |g| - 1 && Times(q, g)[i]) != (i >= |q| && t && g[i - |q|]))
  {
    TimesUnfolds(q, t, g);
    hide Times;
    var low, high := Times(q, g) + [false], Zeros(|q|) + Scale(t, g);
    assert Add(low, high)[i] == (low[i] != high[i]);
  }

  /** What a division says about one coefficient. */
  lemma DividesAt(m: Poly, g: Poly, q: Poly, r: Poly, i: nat)
    requires Divides(m, g, q, r) && i < |m| + |r|
    ensures Times(q, g)[i] == ((i < |m| && m[i]) != (i >= |m| && r[i - |m|]))
  {
  }

  lemma ShiftAt(r: Poly, b: bool, g: Poly, k: nat)
    requires |r| + 1 == |g| && k < |r|
    ensures Shift(r, b, g)[k] == ((k + 1 < |r| && r[k + 1]) != (r[0] != b && g[k + 1]))
  {
  }

  lemma ShiftDividesAt(m: Poly, b: bool, g: Poly, q: Poly, r: Poly, i: nat)
    requires |g| > 1 && g[0] && Divides(m, g, q, r) && |q| == |m| && |r| + 1 == |g| && i < |m| + |g|
    ensures (Times(q + [r[0] != b], g)[i] != (i > |m| && Shift(r, b, g)[i - |m| - 1]))
            == (if i < |m| then m[i] else i == |m| && b)
  {
    hide Times, Shift, Divides;
    TimesGrows(q, r[0] != b, g, i);
    if i < |m| + |r| {
      DividesAt(m, g, q, r, i);
    }
    if i > |m| {
      ShiftAt(r, b, g, i - |m| - 1);
    }
  }

  /** The shift register divides: this is one step of it. */
  lemma ShiftDivides(m: Poly, b: bool, g: Poly, q: Poly, r: Poly)
    requires |g| > 1 && g[0] && Divides(m, g, q, r)
    ensures Divides(m + [b], g, q + [r[0] != b], Shift(r, b, g))
  {
    var n, w, q', s := |m|, |g| - 1, q + [r[0] != b], Shift(r, b, g);
    hide Times, Shift;
    var left, right := Add(Times(q', g), Zeros(n + 1) + s), m + [b] + Zeros(w);
    forall i | 0 <= i < n + 1 + w ensures left[i] == right[i] {
      ShiftDividesAt(m, b, g, q, r, i);
    }
    assert left == right;
  }

  lemma NothingDivides(g: Poly)
    requires |g| > 1
    ensures Divides([], g, Quotient([], g), Register([], g))
  {
  }

  lemma RegisterUnfolds(m: Poly, b: bool, g: Poly)
    requires |g| > 1
    ensures Register(m + [b], g) == Shift(Register(m, g), b, g)
    ensures Quotient(m + [b], g) == Quotient(m, g) + [Register(m, g)[0] != b]
  {
  }

  lemma {:induction false} RegisterDivides(m: Poly, g: Poly)
    requires |g| > 1 && g[0]
    ensures Divides(m, g, Quotient(m, g), Register(m, g))
  {
    hide Divides, Shift, Register, Quotient;
    if m == [] {
      NothingDivides(g);
    } else {
      var init, b := m[..|m| - 1], m[|m| - 1];
      assert m == init + [b];
      RegisterDivides(init, g);
      RegisterUnfolds(init, b, g);
      ShiftDivides(init, b, g, Quotient(init, g), Register(init, g));
    }
  }

  // ---------------------------------------------------------------- uniqueness

  lemma {:induction false} TimesPrefix(q: Poly, g: Poly, i: nat)
    requires |g| > 1 && g[0] && i < |q|
    ensures Times(q, g)[i] == (Times(q[..i], g)[i] != q[i])
    decreases |q|
  {
    var n := |q| - 1;
    if i == n {
    } else {
      TimesPrefix(q[..n], g, i);
      assert q[..n][..i] == q[..i];
    }
  }

  lemma {:induction false} SamePrefix(m: Poly, g: Poly, q: Poly, r: Poly, q': Poly, r': Poly, i: nat)
    requires |g| > 1 && g[0] && Divides(m, g, q, r) && Divides(m, g, q', r') && i <= |m| == |q| == |q'|
    ensures q[..i] == q'[..i]
  {
    hide Times, Divides;
    if i > 0 {
      var k := i - 1;
      SamePrefix(m, g, q, r, q', r', k);
      TimesPrefix(q, g, k);
      TimesPrefix(q', g, k);
      DividesAt(m, g, q, r, k);
      DividesAt(m, g, q', r', k);
      assert q[..i] == q[..k] + [q[k]] && q'[..i] == q'[..k] + [q'[k]];
    }
  }

  /** A monic divisor leaves one quotient and one remainder. */
  lemma DivisionIsUnique(m: Poly, g: Poly, q: Poly, r: Poly, q': Poly, r': Poly)
    requires |g| > 1 && g[0] && Divides(m, g, q, r) && Divides(m, g, q', r')
    ensures q == q' && r == r'
  {
    SamePrefix(m, g, q, r, q', r', |m|);
    assert q[..|m|] == q && q'[..|m|] == q';
    var n := |m|;
    forall k | 0 <= k < |r| ensures r[k] == r'[k] {
      assert Add(Times(q, g), Zeros(n) + r)[n + k] == Add(Times(q, g), Zeros(n) + r')[n + k];
    }
  }
}
