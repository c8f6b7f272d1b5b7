/** Fractional parts of the multiples of a number: they get as small as one likes, however late
    one starts to look.  For a rational number some multiple is whole; for an irrational one the
    parts come close to zero without reaching it. */
module Fractions {

  function Frac(x: real): (f: real)
    ensures 0.0 <= f < 1.0
  {
    x - x.Floor as real
  }

  lemma FracIs(x: real, n: int, f: real)
    requires x == n as real + f && 0.0 <= f < 1.0
    ensures Frac(x) == f && x.Floor == n
  {
  }

  /** Adding less than one carries at most once. */
  lemma FracAdd(x: real, y: real)
    requires 0.0 <= y < 1.0
    ensures var sum := Frac(x) + y;
            if sum >= 1.0 then (x + y).Floor == x.Floor + 1 && Frac(x + y) == sum - 1.0
            else (x + y).Floor == x.Floor && Frac(x + y) == sum
  {
    var sum := Frac(x) + y;
    if sum >= 1.0 {
      FracIs(x + y, x.Floor + 1, sum - 1.0);
    } else {
      FracIs(x + y, x.Floor, sum);
    }
  }

  function Times(r: real, w: int): real {
    r * (w as real)
  }

  lemma TimesTimes(r: real, w: int, n: int)
    ensures Times(r, w * n) == n as real * Times(r, w)
  {
    assert (w * n) as real == w as real * n as real;
    assert r * (w as real * n as real) == n as real * (r * w as real);
  }

  lemma DivideTimes(a: real, b: real)
    requires b > 0.0
    ensures a / b * b == a
  {
  }

  /** A quotient is ordered like its numerator's multiples. */
  lemma QuotientBetween(a: real, b: real, low: real, high: real)
    requires b > 0.0
    ensures low * b <= a ==> low <= a / b
    ensures a <= high * b ==> a / b <= high
  {
    DivideTimes(a, b);
    if a / b < low {
      StrictProductOrder(a / b, low, b);
    }
    if high < a / b {
      StrictProductOrder(high, a / b, b);
    }
  }

  lemma FloorTimes(q: real, f: real)
    requires f > 0.0
    ensures Times(f, q.Floor) <= q * f < Times(f, q.Floor + 1)
  {
    ProductOrder(q.Floor as real, q, f);
    StrictProductOrder(q, (q.Floor + 1) as real, f);
  }

  /** How often a part fits into one. */
  lemma Fit(f: real) returns (n: nat)
    requires 0.0 < f < 1.0
    ensures n >= 1 && Times(f, n) <= 1.0 < Times(f, n + 1) == Times(f, n) + f
  {
    hide Times;
    var q := 1.0 / f;
    DivideTimes(1.0, f);
    QuotientBetween(1.0, f, 1.0, q);
    n := q.Floor;
    FloorTimes(q, f);
    TimesNext(f, n);
  }

  lemma TimesNext(r: real, n: int)
    ensures Times(r, n + 1) == Times(r, n) + r
  {
  }

  lemma ProductOrder(a: real, b: real, f: real)
    requires a <= b && f >= 0.0
    ensures a * f <= b * f
  {
    assert (b - a) * f >= 0.0;
  }

  lemma StrictProductOrder(a: real, b: real, f: real)
    requires a < b && f > 0.0
    ensures a * f < b * f
  {
    assert (b - a) * f > 0.0;
  }

  /** A multiple whose part is just short of one is brought down to less than what it lacks. */
  lemma FromBelow(r: real, v: nat, n: int, lack: real) returns (w: nat)
    requires 0.0 < lack < 1.0 && Times(r, v) == n as real - lack
    ensures w >= v && Frac(Times(r, w)) <= lack
  {
    hide Times, Frac;
    var j := Fit(lack);
    w := v * j;
    TimesTimes(r, v, j);
    Expand(j, n, -lack);
    TimesNegated(lack, j);
    NoLessThan(v, j);
    TimesPositive(lack, j);
    FracIs(Times(r, w), j * n - 1, 1.0 - Times(lack, j));
  }

  lemma TimesNegated(r: real, n: int)
    ensures Times(-r, n) == -Times(r, n)
  {
  }

  lemma TimesPositive(r: real, n: int)
    requires r > 0.0 && n >= 1
    ensures Times(r, n) > 0.0
  {
  }

  lemma NoLessThan(v: nat, j: nat)
    requires j >= 1
    ensures v * j >= v
  {
    assert v * (j - 1) >= 0;
  }

  /** A whole number of times a sum of a whole number and a part. */
  lemma Expand(j: nat, n: int, f: real)
    ensures j as real * (n as real + f) == (j * n) as real + Times(f, j)
  {
    assert (j * n) as real == j as real * n as real;
  }

  /** The multiples just over and just under a whole number that m + 1 and m steps lead to. */
  lemma AroundWhole(r: real, w: nat, m: nat, n: int, f: real) returns (over: nat, under: nat, top: int)
    requires m >= 1 && Times(r, w) == n as real + f
    ensures over >= w && Times(r, over) == top as real + (Times(f, m + 1) - 1.0)
    ensures under >= w && Times(r, under) == (top - n) as real - (1.0 - Times(f, m))
  {
    hide Times;
    over, under, top := w * (m + 1), w * m, (m + 1) * n + 1;
    TimesTimes(r, w, m + 1);
    TimesTimes(r, w, m);
    Expand(m + 1, n, f);
    Expand(m, n, f);
    NoLessThan(w, m);
    NoLessThan(w, m + 1);
    assert m * n + n == (m + 1) * n;
  }

  /** A later multiple has at most half the part. */
  lemma Halve(r: real, w: nat) returns (w': nat)
    requires Frac(Times(r, w)) > 0.0
    ensures w' >= w && Frac(Times(r, w')) <= Frac(Times(r, w)) / 2.0
  {
    var n, f := Times(r, w).Floor, Frac(Times(r, w));
    assert Times(r, w) == n as real + f;
    hide Times, Frac;
    var m := Fit(f);
    var past, lack := Times(f, m + 1) - 1.0, 1.0 - Times(f, m);
    var over, under, top := AroundWhole(r, w, m, n, f);
    if past <= f / 2.0 {
      w' := over;
      FracIs(Times(r, over), top, past);
    } else if lack > 0.0 {
      w' := FromBelow(r, under, top - n, lack);
    } else {
      w' := under;
      FracIs(Times(r, under), top - n, 0.0);
    }
  }

  /** From any start on, some multiple has a part below `limit`. */
  lemma {:induction false} SmallFraction(r: real, start: nat, limit: real) returns (w: nat)
    requires limit > 0.0
    ensures w >= start && Frac(Times(r, w)) < limit
    decreases (Frac(Times(r, start)) / limit).Floor
  {
    var f := Frac(Times(r, start));
    if f < limit {
      w := start;
    } else {
      var next := Halve(r, start);
      var g := Frac(Times(r, next));
      HalfFloor(f, g, limit);
      w := SmallFraction(r, next, limit);
    }
  }

  lemma HalfFloor(f: real, g: real, limit: real)
    requires limit > 0.0 && f >= limit && 0.0 <= g <= f / 2.0
    ensures 0 <= (g / limit).Floor < (f / limit).Floor
  {
    var x := f / limit;
    DivideTimes(f, limit);
    QuotientBetween(f, limit, 1.0, x);
    assert x / 2.0 * limit == f / 2.0;
    QuotientBetween(g, limit, 0.0, x / 2.0);
  }
}
