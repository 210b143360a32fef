/** Brightness in percent and in device steps: the request, which both programs convert alike, and the two read-backs. */
module Brightness {

  /** The device value of a requested percent. */
  function Raw(percent: nat, maximum: nat): nat {
    (percent * maximum + 50) / 100
  }

  /** The native percent of a device value; every operand is non-negative, so C division is Dafny's. */
  function Percent(raw: nat, maximum: nat): nat
    requires maximum > 0
  {
    (raw * 100 + maximum / 2) / maximum
  }

  /** Python's `round` of an exact quotient. */
  function Round(n: nat, d: nat): nat
    requires d > 0
  {
    var q, r := n / d, n % d;
    if 2 * r < d then q else if 2 * r > d then q + 1 else q + q % 2
  }

  function PythonPercent(raw: nat, maximum: nat): nat
    requires maximum > 0
  {
    Round(raw * 100, maximum)
  }

  // Quotients

  lemma QuotientIs(n: nat, d: nat, q: nat)
    requires d > 0 && q * d <= n < q * d + d
    ensures n / d == q && n % d == n - q * d
  {
    var p, r := n / d, n % d;
    assert n == p * d + r && 0 <= r < d;
    if p < q {
      assert (p + 1) * d <= q * d by { Times(p + 1, q, d); }
    } else if p > q {
      assert (q + 1) * d <= p * d by { Times(q + 1, p, d); }
    }
  }

  lemma Times(a: nat, b: nat, d: nat)
    requires a <= b
    ensures a * d <= b * d
  {
    assert b * d == a * d + (b - a) * d;
  }

  /** Nearest, and even when two integers are equally near. */
  predicate NearestEven(n: nat, d: nat, r: nat) {
    && 2 * n - d <= 2 * (d * r) <= 2 * n + d
    && (2 * (d * r) == 2 * n - d || 2 * (d * r) == 2 * n + d ==> r % 2 == 0)
  }

  lemma RoundIsNearestEven(n: nat, d: nat)
    requires d > 0
    ensures NearestEven(n, d, Round(n, d))
  {
    var q, r := n / d, n % d;
    assert n == d * q + r;
    assert d * (q + 1) == d * q + d;
  }

  /** Of two integers that far apart, only neighbours can be equally near, and then one of them is odd. */
  lemma NotBothNearest(n: nat, d: nat, r: nat, k: nat)
    requires d > 0 && r < k && NearestEven(n, d, r)
    ensures !NearestEven(n, d, k)
  {
    var gap := d * (k - r);
    assert d * k == d * r + gap;
    Times(1, k - r, d);
    if k - r > 1 { Times(2, k - r, d); }
  }

  /** Only one integer is. */
  lemma NearestEvenIsRound(n: nat, d: nat, r: nat)
    requires d > 0 && NearestEven(n, d, r)
    ensures r == Round(n, d)
  {
    hide NearestEven, Round;
    RoundIsNearestEven(n, d);
    if r < Round(n, d) { NotBothNearest(n, d, r, Round(n, d)); }
    if Round(n, d) < r { NotBothNearest(n, d, Round(n, d), r); }
  }

  // The request

  /** Requests stay in the device's range, keep its ends, and never get darker for a higher percent. */
  lemma RawIsMonotone(p: nat, q: nat, maximum: nat)
    requires p <= q <= 100
    ensures Raw(p, maximum) <= Raw(q, maximum) <= maximum
    ensures Raw(0, maximum) == 0 && Raw(100, maximum) == maximum
  {
    Times(p, q, maximum);
    Times(q, 100, maximum);
  }

  /** The device value is within half a percent of what was asked. */
  lemma RawIsNear(percent: nat, maximum: nat)
    ensures percent * maximum - 50 < 100 * Raw(percent, maximum) <= percent * maximum + 50
  {
  }

  // The read-backs

  lemma NearGivesBack(percent: nat, maximum: nat)
    requires maximum >= 100
    ensures Percent(Raw(percent, maximum), maximum) == percent
    ensures PythonPercent(Raw(percent, maximum), maximum) == percent
  {
    var raw := Raw(percent, maximum);
    RawIsNear(percent, maximum);
    if maximum == 100 {
      assert raw == percent;
    }
    QuotientIs(raw * 100 + maximum / 2, maximum, percent);
    assert maximum * percent == percent * maximum;
    NearestEvenIsRound(raw * 100, maximum, percent);
  }

  /** Two percents that a coarse device cannot tell apart. */
  function Blurred(maximum: nat): nat
    requires maximum < 100
  {
    if maximum < 50 then 0 else 50 / (100 - maximum)
  }

  lemma StepsBelow(w: nat, d: nat)
    requires 0 < d <= 50 && w == 50 / d
    ensures w * d <= 50 < w * d + d && w <= 50
  {
    Times(1, d, w);
  }

  lemma SameStep(w: nat, d: nat)
    requires d <= 50 && w * d <= 50 < w * d + d
    ensures Raw(w, 100 - d) == w == Raw(w + 1, 100 - d)
  {
    assert w * (100 - d) == 100 * w - w * d;
    assert (w + 1) * (100 - d) == 100 * w - w * d + 100 - d;
  }

  lemma BlurredRaw(maximum: nat)
    requires maximum < 100
    ensures Blurred(maximum) < 100
    ensures Raw(Blurred(maximum), maximum) == Raw(Blurred(maximum) + 1, maximum)
  {
    if maximum >= 50 {
      StepsBelow(Blurred(maximum), 100 - maximum);
      SameStep(Blurred(maximum), 100 - maximum);
    }
  }

  ghost predicate EveryPercentReadBack(maximum: nat)
    requires maximum > 0
  {
    forall p | 0 <= p <= 100 :: Percent(Raw(p, maximum), maximum) == p
  }

  ghost predicate EveryPercentReadBackByPython(maximum: nat)
    requires maximum > 0
  {
    forall p | 0 <= p <= 100 :: PythonPercent(Raw(p, maximum), maximum) == p
  }

  /** Both programs read back every requested percent exactly on the devices with at least a hundred steps. */
  lemma ReadBackExactlyFrom100(maximum: nat)
    requires maximum > 0
    ensures EveryPercentReadBack(maximum) <==> maximum >= 100
    ensures EveryPercentReadBackByPython(maximum) <==> maximum >= 100
  {
    hide Raw, Percent, PythonPercent;
    if maximum >= 100 {
      forall p | 0 <= p <= 100
        ensures Percent(Raw(p, maximum), maximum) == p && PythonPercent(Raw(p, maximum), maximum) == p
      {
        NearGivesBack(p, maximum);
      }
    } else {
      var w := Blurred(maximum);
      BlurredRaw(maximum);
      var one, other := Raw(w, maximum), Raw(w + 1, maximum);
      assert one == other;
    }
  }

  /** C rounds to the nearest integer, and up on a tie. */
  lemma PercentIs(raw: nat, maximum: nat)
    requires maximum > 0
    ensures var q, r := raw * 100 / maximum, raw * 100 % maximum;
            Percent(raw, maximum) == if 2 * r < maximum then q else q + 1
  {
    var n := raw * 100;
    var q, r := n / maximum, n % maximum;
    assert n == q * maximum + r;
    if 2 * r < maximum {
      QuotientIs(n + maximum / 2, maximum, q);
    } else {
      assert (q + 1) * maximum == q * maximum + maximum;
      QuotientIs(n + maximum / 2, maximum, q + 1);
    }
  }

  /** The two read-backs differ exactly on the ties between an even percent and the next one, where C rounds up. */
  lemma ReadBacksDiffer(raw: nat, maximum: nat)
    requires maximum > 0
    ensures Percent(raw, maximum) != PythonPercent(raw, maximum)
            <==> 2 * (raw * 100 % maximum) == maximum && raw * 100 / maximum % 2 == 0
    ensures Percent(raw, maximum) != PythonPercent(raw, maximum)
            ==> Percent(raw, maximum) == PythonPercent(raw, maximum) + 1
  {
    hide Percent;
    PercentIs(raw, maximum);
  }

  /** One step of a 200-step device: 1 percent natively, 0 percent in Python. */
  lemma ReadBacksCanDiffer()
    ensures Percent(1, 200) == 1 && PythonPercent(1, 200) == 0
  {
  }
}
