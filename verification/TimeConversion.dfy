/** Conversion between clock ticks and microseconds (core/include/ktimer.h).  The product is split
    at the quotient so that no intermediate value leaves 64 bits. */
module TimeConversion {
  import opened Arithmetic

  const USECS_PER_SEC: nat := 1_000_000

  const S64: int := 0x8000_0000_0000_0000

  /** What is left of `x` after its whole multiples of `from`. */
  function Remainder(x: nat, from: nat): (r: nat)
    requires from > 0
    ensures r < from
  {
    SplitRemainder(x, from);
    x - x / from * from
  }

  lemma ProductNat(a: nat, b: nat)
    ensures a * b >= 0
  {
  }

  lemma QuotientNat(a: nat, b: nat)
    requires b > 0
    ensures a / b >= 0
  {
  }

  /** `x` units, of which `from` make a second, in units of which `to` do. */
  function Rescale(x: nat, from: nat, to: nat): nat
    requires from > 0
  {
    ProductNat(x / from, to);
    ProductNat(Remainder(x, from), to);
    x / from * to + Remainder(x, from) * to / from
  }

  function HwtimeToDuration(t: nat, hz: nat): nat
    requires hz > 0
  {
    Rescale(t, hz, USECS_PER_SEC)
  }

  function DurationToHwtime(d: nat, hz: nat): nat {
    Rescale(d, USECS_PER_SEC, hz)
  }

  lemma SplitRemainder(x: nat, from: nat)
    requires from > 0
    ensures 0 <= x - x / from * from < from
  {
    assert x == x / from * from + x % from;
  }

  lemma {:induction false} MulMonotone(a: nat, b: nat, m: nat)
    requires a <= b
    ensures a * m <= b * m
  {
    assert b * m == a * m + (b - a) * m;
  }

  /** The split product is the exact floor. */
  lemma RescaleIsFloor(x: nat, from: nat, to: nat)
    requires from > 0
    ensures Rescale(x, from, to) == x * to / from
  {
    var s, r := x / from, Remainder(x, from);
    assert x * to == s * to * from + r * to by {
      ScaleSplit(s, from, r, to);
    }
    AddMultiple(s * to, r * to, from);
  }

  lemma ScaleSplit(s: nat, from: nat, r: nat, to: nat)
    ensures (s * from + r) * to == s * to * from + r * to
  {
    assert (s * from + r) * to == s * from * to + r * to;
  }

  lemma AddMultiple(a: nat, n: nat, m: nat)
    requires m > 0
    ensures (a * m + n) / m == a + n / m
  {
    var q := n / m;
    assert n == q * m + n % m;
    assert (a + q) * m == a * m + q * m;
    DivModUnique(a * m + n, m, a + q, n % m);
  }

  /** Nothing overflows as long as the result and one second's worth of product fit. */
  lemma RescaleFits(x: nat, from: nat, to: nat)
    requires from > 0 && Rescale(x, from, to) < S64 && from * to < S64
    ensures x / from * from <= x
    ensures x / from * to < S64
    ensures 0 <= Remainder(x, from) * to < S64
    ensures Remainder(x, from) * to / from < S64
  {
    MulMonotone(Remainder(x, from), from, to);
    SplitRemainder(x, from);
    ProductNat(Remainder(x, from), to);
    QuotientNat(Remainder(x, from) * to, from);
  }

  lemma FloorRoundTrip(x: nat, from: nat, to: nat, d: nat, y: nat)
    requires from > 0 && to > 0 && d == x * to / from && y == d * from / to
    ensures y <= x && (x - y) * to < from + to
  {
    assert x * to == d * from + x * to % from;
    assert d * from == y * to + d * from % to;
    assert (y - x) * to == y * to - x * to && (x - y) * to == x * to - y * to;
    if y > x {
      MulAtLeast(y - x, to);
    }
  }

  /** Converting there and back loses less than one unit of each kind, and never gains any. */
  lemma RescaleRoundTrip(x: nat, from: nat, to: nat)
    requires from > 0 && to > 0
    ensures var y := Rescale(Rescale(x, from, to), to, from);
            y <= x && (x - y) * to < from + to
  {
    var d := Rescale(x, from, to);
    RescaleIsFloor(x, from, to);
    RescaleIsFloor(d, to, from);
    FloorRoundTrip(x, from, to, d, Rescale(d, to, from));
  }

  /** Ticks to microseconds and back: at most a microsecond's worth of ticks and one more are lost. */
  lemma HwtimeRoundTrip(t: nat, hz: nat)
    requires hz > 0
    ensures var t' := DurationToHwtime(HwtimeToDuration(t, hz), hz);
            t' <= t && (t - t') * USECS_PER_SEC < hz + USECS_PER_SEC
  {
    RescaleRoundTrip(t, hz, USECS_PER_SEC);
  }

  lemma ConversionsAreFloors(x: nat, hz: nat)
    requires hz > 0
    ensures HwtimeToDuration(x, hz) == x * USECS_PER_SEC / hz
    ensures DurationToHwtime(x, hz) == x * hz / USECS_PER_SEC
  {
    RescaleIsFloor(x, hz, USECS_PER_SEC);
    RescaleIsFloor(x, USECS_PER_SEC, hz);
  }
}
