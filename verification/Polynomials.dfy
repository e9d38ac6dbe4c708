/** Polynomials over the two-element field, as the sequences of their
    coefficients, the highest power first. */
module Polynomials {

  type Poly = seq<bool>

  function Zeros(n: nat): Poly { seq(n, _ => false) }

  function Plus(a: Poly, b: Poly): (r: Poly)
    requires |a| == |b|
    ensures |r| == |a|
  {
    seq(|a|, i requires 0 <= i < |a| => a[i] != b[i])
  }

  /** The product, with one coefficient for each power that may occur. */
  function Times(q: Poly, g: Poly): (r: Poly)
    requires g != []
    ensures |r| == |q| + |g| - 1
    decreases q
  {
    if q == [] then Zeros(|g| - 1)
    else Plus((if q[0] then g else Zeros(|g|)) + Zeros(|q| - 1), [false] + Times(q[1..], g))
  }

  /** r is what division of d by g leaves: d == q * g + r for some q, and r has
      a lower degree than g. */
  ghost predicate Remainder(d: Poly, g: Poly, r: Poly)
    requires g != []
  {
    |r| == |g| - 1 && exists q :: Quotient(d, g, r, q)
  }

  ghost predicate Quotient(d: Poly, g: Poly, r: Poly, q: Poly)
    requires g != []
  {
    |r| == |g| - 1 && |d| == |q| + |r| && d == Plus(Times(q, g), Zeros(|q|) + r)
  }

  /** One step of long division. */
  lemma NextQuotient(d: Poly, d': Poly, g: Poly, r: Poly, q: Poly, t: bool)
    requires g != [] && Quotient(d', g, r, q) && |d| == |d'| + 1
    requires d == Plus((if t then g else Zeros(|g|)) + Zeros(|q|), [false] + d')
    ensures Quotient(d, g, r, [t] + q)
  {
    hide Times;
    var p := Times(q, g);
    assert ([t] + q)[1..] == q;
    TimesFirst(t, q, g);
    assert d == Plus(Times([t] + q, g), Zeros(|q| + 1) + r);
  }

  lemma TimesFirst(t: bool, q: Poly, g: Poly)
    requires g != []
    ensures Times([t] + q, g) == Plus((if t then g else Zeros(|g|)) + Zeros(|q|), [false] + Times(q, g))
  {
    assert ([t] + q)[1..] == q;
  }

  /** A remainder is unique. */
  lemma {:induction false} OneQuotient(d: Poly, g: Poly, r: Poly, q: Poly, r': Poly, q': Poly)
    requires g != [] && g[0] && Quotient(d, g, r, q) && Quotient(d, g, r', q')
    ensures q == q' && r == r'
    decreases q
  {
    if q == [] {
      assert q' == [];
      forall i | 0 <= i < |r| ensures r[i] == r'[i] {
        assert d[i] == (Times(q, g)[i] != (Zeros(|q|) + r)[i]);
        assert d[i] == (Times(q', g)[i] != (Zeros(|q'|) + r')[i]);
      }
    } else {
      var low, low' := q[1..], q'[1..];
      assert q == [q[0]] + low && q' == [q'[0]] + low';
      Below(d, g, r, q);
      Below(d, g, r', q');
      var lead := (if q[0] then g else Zeros(|g|)) + Zeros(|q| - 1);
      OneQuotient(Plus(d, lead)[1..], g, r, low, r', low');
    }
  }

  /** What is left to divide after the first step. */
  lemma Below(d: Poly, g: Poly, r: Poly, q: Poly)
    requires g != [] && g[0] && Quotient(d, g, r, q) && q != []
    ensures q[0] == d[0]
    ensures Quotient(Plus(d, (if d[0] then g else Zeros(|g|)) + Zeros(|q| - 1))[1..], g, r, q[1..])
  {
    hide Times;
    var low := q[1..];
    assert q == [q[0]] + low;
    TimesFirst(q[0], low, g);
    var lead := (if q[0] then g else Zeros(|g|)) + Zeros(|q| - 1);
    assert d[0] == (Times(q, g)[0] != (Zeros(|q|) + r)[0]);
    assert Plus(d, lead)[1..] == Plus(Times(low, g), Zeros(|low|) + r);
  }

  lemma RemainderUnique(d: Poly, g: Poly, r: Poly, r': Poly)
    requires g != [] && g[0] && Remainder(d, g, r) && Remainder(d, g, r')
    ensures r == r'
  {
    hide Quotient;
    var q :| Quotient(d, g, r, q);
    var q' :| Quotient(d, g, r', q');
    OneQuotient(d, g, r, q, r', q');
  }
}
