/** Fixed five-decimal rounding used after every balance change:
    `Math.round(x*100000)/100000.0` in
    Geldautomat/src/main/java/com/geldautomat/model/Konto.java:87 and the
    sites that repeat it (Girokonto, Sparkonto, the transfer controller and the
    lenient importer). Money is an exact `real`; `Math.round` is floor(x + 1/2). */
module Money {

  /** Half a unit of the fifth decimal place: the largest rounding error. */
  const Half: real := 1.0 / 200000.0

  /** x is a whole number of hundred-thousandths. */
  predicate HasFiveDecimals(x: real)
  {
    (x * 100000.0).Floor as real == x * 100000.0
  }

  /** Round half up to five decimals. The result is the unique five-decimal
      value r with r - Half <= x < r + Half (see Round5Unique). */
  function Round5(x: real): (r: real)
    ensures HasFiveDecimals(r)
    ensures r - Half <= x < r + Half
  {
    var k := (x * 100000.0 + 0.5).Floor;
    assert (k as real / 100000.0) * 100000.0 == k as real;
    k as real / 100000.0
  }

  /** Any five-decimal value within the half-open rounding window of x is
      Round5(x): the window pins the result down. */
  lemma Round5Unique(x: real, y: real)
    requires HasFiveDecimals(y)
    requires y - Half <= x < y + Half
    ensures Round5(x) == y
  {
    var k := (y * 100000.0).Floor;
    assert k as real <= x * 100000.0 + 0.5 < k as real + 1.0;
    assert (x * 100000.0 + 0.5).Floor == k;
  }

  /** A value that already has five decimals is left alone. */
  lemma Round5Exact(x: real)
    requires HasFiveDecimals(x)
    ensures Round5(x) == x
  {
    Round5Unique(x, x);
  }

  /** Rounding twice is rounding once. */
  lemma Round5Idempotent(x: real)
    ensures Round5(Round5(x)) == Round5(x)
  {
    Round5Exact(Round5(x));
  }

  /** Rounding preserves the order of its arguments (not strictly). */
  lemma Round5Monotonic(x: real, y: real)
    requires x <= y
    ensures Round5(x) <= Round5(y)
  {
    var kx := (x * 100000.0 + 0.5).Floor;
    var ky := (y * 100000.0 + 0.5).Floor;
    assert kx as real < ky as real + 1.0;
    assert kx <= ky;
  }

  /** Five-decimal values are closed under sum, difference and negation. */
  lemma FiveDecimalsClosed(x: real, y: real)
    requires HasFiveDecimals(x) && HasFiveDecimals(y)
    ensures HasFiveDecimals(x + y) && HasFiveDecimals(x - y) && HasFiveDecimals(-x)
  {
    var a := (x * 100000.0).Floor;
    var b := (y * 100000.0).Floor;
    ScaledExact(x + y, a + b);
    ScaledExact(x - y, a - b);
    ScaledExact(-x, -a);
  }

  /** A value whose scaled form is the whole number n has five decimals. */
  lemma ScaledExact(x: real, n: int)
    requires x * 100000.0 == n as real
    ensures HasFiveDecimals(x)
  {
  }

  /** Every whole number has five decimals. */
  lemma IntegerHasFiveDecimals(n: int)
    ensures HasFiveDecimals(n as real)
  {
    assert (n as real) * 100000.0 == (n * 100000) as real;
  }
}
