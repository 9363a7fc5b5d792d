/**
 * What the congestion-control classes share: Java `long` arithmetic that
 * differs from Dafny's, the CongestionState enum and the four window
 * settings of CongestionConfig.
 */
module CongestionCommon {

  const LongMax: int := 0x7FFF_FFFF_FFFF_FFFF
  const LongMin: int := -0x8000_0000_0000_0000

  function Abs(x: int): nat {
    if x < 0 then -x else x
  }

  function Max(a: int, b: int): (m: int)
    ensures m >= a && m >= b && (m == a || m == b)
  {
    if a >= b then a else b
  }

  function Min(a: int, b: int): (m: int)
    ensures m <= a && m <= b && (m == a || m == b)
  {
    if a <= b then a else b
  }

  /** Java's integer `/`: the quotient is truncated toward zero. */
  function JavaDiv(a: int, b: int): (q: int)
    requires b != 0
    ensures Abs(q) * Abs(b) <= Abs(a) < (Abs(q) + 1) * Abs(b)
    ensures q != 0 ==> ((q < 0) <==> ((a < 0) != (b < 0)))
  {
    var m := Abs(a) / Abs(b);
    DivBounds(Abs(a), Abs(b));
    if (a < 0) != (b < 0) then -m else m
  }

  lemma DivBounds(x: nat, y: nat)
    requires y > 0
    ensures (x / y) * y <= x < (x / y + 1) * y
  {
    var m := x / y;
    assert x == m * y + x % y;
    assert (m + 1) * y == m * y + y;
  }

  lemma MulCancel(a: int, b: int, c: int)
    requires c > 0 && a * c < b * c
    ensures a < b
  {
    assert (a - b) * c == a * c - b * c;
  }

  lemma MulMono(a: int, b: int, c: int)
    requires a <= b && c >= 0
    ensures a * c <= b * c
  {
    assert b * c - a * c == (b - a) * c;
  }

  /**
   * A truncated quotient of n by k lies between lo and hi when n does
   * between k * lo and k * hi.
   */
  lemma QuotientBetween(n: int, k: int, lo: int, hi: int, q: int)
    requires k > 0 && k * lo <= n <= k * hi
    requires q * k <= n < (q + 1) * k
    ensures lo <= q <= hi
  {
    if q < lo {
      MulMono(q + 1, lo, k);
    }
    if q > hi {
      MulMono(hi + 1, q, k);
    }
  }

  /** On a non-negative dividend and a positive divisor Java's `/` is Dafny's. */
  lemma JavaDivNonNegative(a: int, b: int)
    requires a >= 0 && b > 0
    ensures JavaDiv(a, b) == a / b
  {
  }

  /** Java's `%`: the remainder takes the sign of the dividend. */
  function JavaRem(a: int, b: int): (r: int)
    requires b != 0
    ensures a == JavaDiv(a, b) * b + r
    ensures Abs(r) < Abs(b)
  {
    a - JavaDiv(a, b) * b
  }

  /**
   * `(long) (n / (double) d)` for integer `n` and `d`: truncation toward zero,
   * with the division by zero of floating point (infinity saturates the
   * cast, NaN becomes 0).  Rounding of operands beyond 2^53 is not modelled.
   */
  function TruncatedQuotient(n: int, d: int): (q: int)
    ensures d != 0 ==> q == JavaDiv(n, d)
    ensures d == 0 ==> q == (if n > 0 then LongMax else if n < 0 then LongMin else 0)
  {
    if d != 0 then JavaDiv(n, d)
    else if n > 0 then LongMax
    else if n < 0 then LongMin
    else 0
  }

  /** The CongestionState enum. */
  datatype CongestionState =
    | SlowStart
    | CongestionAvoidance
    | FastRecovery
    | BbrStartup
    | BbrDrain
    | BbrProbeBw
    | BbrProbeRtt

  /** The window settings of CongestionConfig (bytes). */
  datatype Config = Config(initialCwnd: int, ssthresh: int, maxCwnd: int, minCwnd: int)

  /** CongestionConfig's defaults: 10 MiB initial window, 50 MiB threshold, 100 MiB max, 1 MiB min. */
  const DefaultConfig: Config := Config(10485760, 52428800, 104857600, 1048576)

  /** `Math.max(min, Math.min(cwnd, max))`, the window clamp of every onAck. */
  function Clamp(cwnd: int, cfg: Config): (r: int)
    ensures r >= cfg.minCwnd
    ensures cfg.minCwnd <= cfg.maxCwnd ==> r <= cfg.maxCwnd
    ensures cfg.minCwnd <= cwnd <= cfg.maxCwnd ==> r == cwnd
    ensures cwnd > cfg.maxCwnd ==> r == Max(cfg.minCwnd, cfg.maxCwnd)
    ensures cwnd < cfg.minCwnd ==> r == cfg.minCwnd
  {
    Max(cfg.minCwnd, Min(cwnd, cfg.maxCwnd))
  }

  /** getRate of Reno and Vegas: bytes per second from the window and the RTT, with the RTT taken as at least 1 ms. */
  function Rate(cwnd: int, rtt: int): (r: int)
    ensures cwnd >= 0 ==> r * Max(rtt, 1) <= cwnd * 1000 < (r + 1) * Max(rtt, 1)
  {
    JavaDiv(cwnd * 1000, Max(rtt, 1))
  }

  /**
   * `queue.offer(x)` followed by a single `poll()` when the queue has grown
   * past `cap`: the bounded sample windows of the congestion classes.
   */
  function BoundedAppend<T>(q: seq<T>, x: T, cap: nat): (r: seq<T>)
    requires cap > 0
    ensures |r| > 0 && r[|r| - 1] == x
    ensures |q| <= cap ==> |r| <= cap
    ensures |q| < cap ==> r == q + [x]
    ensures |q| >= cap ==> r == (q + [x])[1..] && |r| == |q|
  {
    var q' := q + [x];
    if |q'| > cap then q'[1..] else q'
  }
}
