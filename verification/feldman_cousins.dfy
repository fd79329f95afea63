/** The approximation of the Feldman–Cousins 90% upper limit the half-life
    module uses: the number of signal events excluded given an expected
    number of background events. Below 29 background events it is a
    fifth-degree polynomial fit; from 29 on it is the Gaussian
    1.64 * sqrt(n). The square root of the C library is a parameter. */
module FeldmanCousins {
  import opened Wrappers

  /** The background count from which the Gaussian form is used. */
  const Boundary: real := 29.0

  /** The polynomial fit used below `Boundary`. */
  function Polynomial(x: real): real {
    2.5617 + 0.747661 * x - 0.0666176 * x * x + 0.00432457 * x * x * x
    - 0.000139343 * x * x * x * x + 0.00000171509 * x * x * x * x * x
  }

  /** `sqrt` returns the non-negative square root of `n`. */
  predicate IsRoot(sqrt: real -> real, n: real) {
    sqrt(n) >= 0.0 && sqrt(n) * sqrt(n) == n
  }

  /** `get_number_of_excluded_events`; a NaN count fails `n < 29` and goes
      to the square root, which returns NaN. */
  function ExcludedEvents(n: Value, sqrt: real -> real): Value {
    if n.None? then None
    else if n.value < Boundary then Some(Polynomial(n.value))
    else Some(1.64 * sqrt(n.value))
  }

  /** With no expected background, 2.5617 events are excluded. */
  lemma NoBackground(sqrt: real -> real)
    ensures ExcludedEvents(Some(0.0), sqrt) == Some(2.5617)
  {
  }

  /** From the boundary on, the excluded count squared is 1.64^2 times
      the background: the Gaussian one-sided 95% bound. */
  lemma GaussianRegime(n: real, sqrt: real -> real)
    requires n >= Boundary && IsRoot(sqrt, n)
    ensures ExcludedEvents(Some(n), sqrt).Some?
    ensures ExcludedEvents(Some(n), sqrt).value >= 0.0
    ensures ExcludedEvents(Some(n), sqrt).value * ExcludedEvents(Some(n), sqrt).value == 2.6896 * n
  {
    var s := sqrt(n);
    assert (1.64 * s) * (1.64 * s) == 2.6896 * (s * s);
  }

  /** In the Gaussian regime more background excludes more events. */
  lemma GaussianMonotone(a: real, b: real, sqrt: real -> real)
    requires Boundary <= a <= b && IsRoot(sqrt, a) && IsRoot(sqrt, b)
    ensures ExcludedEvents(Some(a), sqrt).value <= ExcludedEvents(Some(b), sqrt).value
  {
    var sa, sb := sqrt(a), sqrt(b);
    if sa > sb {
      assert sa * sa > sb * sa >= sb * sb;
    }
  }

  /** The two forms do not meet at the boundary: half an event below it
      the polynomial already excludes more than 10.1 events, while at the
      boundary the Gaussian form gives fewer than 8.86, so the excluded
      count drops by more than 1.2 events there. */
  lemma DropAtBoundary(sqrt: real -> real)
    requires IsRoot(sqrt, Boundary)
    ensures ExcludedEvents(Some(Boundary - 0.5), sqrt).Some?
    ensures ExcludedEvents(Some(Boundary - 0.5), sqrt).value > 10.1
    ensures ExcludedEvents(Some(Boundary), sqrt).value < 8.86
  {
    var s := sqrt(Boundary);
    assert (s - 5.4) * (s + 5.4) == s * s - 29.16;
    NegativeFactor(s - 5.4, s + 5.4);
  }

  lemma NegativeFactor(a: real, b: real)
    requires b > 0.0 && a * b < 0.0
    ensures a < 0.0
  {
  }
}
