/** timespec arithmetic as the timer code performs it (utility.hpp).

    `+=` normalises only when the nanoseconds EXCEED one second, so a sum may hold
    exactly 1_000_000_000 of them.  The lemmas show which operand forms each
    operator is exact for. */
module Clock {

  datatype Timespec = Timespec(sec: int, nsec: int) {
    /** The instant in nanoseconds. */
    function Value(): int { sec * 1_000_000_000 + nsec }

    predicate Normal() { 0 <= nsec < 1_000_000_000 }

    predicate WeaklyNormal() { 0 <= nsec <= 1_000_000_000 }
  }

  /** C's integer division: the quotient is truncated toward zero. */
  function TruncDiv(a: int, b: int): (q: int)
    requires b > 0
    ensures 0 <= a ==> q * b <= a < q * b + b
    ensures a < 0 ==> q * b - b < a <= q * b && q <= 0
    ensures -b < a < b <==> q == 0
  {
    DivisionBounds(if a < 0 then -a else a, b);
    if a < 0 then -((-a) / b) else a / b
  }

  lemma DivisionBounds(a: nat, b: int)
    requires b > 0
    ensures a / b * b <= a < a / b * b + b
    ensures -(a / b) * b == -(a / b * b)
    ensures a < b <==> a / b == 0
  {
    var q, r := a / b, a % b;
    assert a == q * b + r && 0 <= r < b;
    NegatedProduct(q, b);
    if q >= 1 {
      ProductOrder(1, q, b);
    }
  }

  lemma NegatedProduct(x: int, y: int)
    ensures (-x) * y == -(x * y)
  {
  }

  lemma ProductOrder(x: int, y: int, z: int)
    requires x <= y && z >= 0
    ensures x * z <= y * z
  {
  }

  /** operator+= */
  function Plus(left: Timespec, right: Timespec): Timespec {
    var sec, nsec := left.sec + right.sec, left.nsec + right.nsec;
    if nsec > 1_000_000_000 then Timespec(sec + nsec / 1_000_000_000, nsec % 1_000_000_000)
    else Timespec(sec, nsec)
  }

  /** operator-= */
  function Minus(left: Timespec, right: Timespec): Timespec {
    var sec := left.sec - right.sec;
    if left.nsec < right.nsec then Timespec(sec - 1, left.nsec + 1_000_000_000 - right.nsec)
    else Timespec(sec, left.nsec - right.nsec)
  }

  /** operator<= */
  predicate AtMost(left: Timespec, right: Timespec) {
    if left.sec > right.sec then false
    else if left.sec == right.sec then left.nsec <= right.nsec
    else true
  }

  function Millisecs(t: Timespec): int {
    t.sec * 1000 + TruncDiv(t.nsec, 1_000_000)
  }

  /** `+=` is exact and keeps the weak normal form, whatever non-negative step is
      added; the strong normal form is lost exactly when the nanoseconds sum to one
      second. */
  lemma PlusIsExact(left: Timespec, right: Timespec)
    requires left.WeaklyNormal() && right.nsec >= 0
    ensures Plus(left, right).Value() == left.Value() + right.Value()
    ensures Plus(left, right).WeaklyNormal()
    ensures Plus(left, right).Normal() <==> left.nsec + right.nsec != 1_000_000_000
  {
    var nsec := left.nsec + right.nsec;
    assert nsec == nsec / 1_000_000_000 * 1_000_000_000 + nsec % 1_000_000_000;
  }

  /** The epoch after n rounds of `epoch += incr`. */
  function Ticks(epoch: Timespec, incr: Timespec, n: nat): Timespec
    decreases n
  {
    if n == 0 then epoch else Ticks(Plus(epoch, incr), incr, n - 1)
  }

  lemma {:induction false} TicksAreExact(epoch: Timespec, incr: Timespec, n: nat)
    requires epoch.WeaklyNormal() && incr.nsec >= 0
    ensures Ticks(epoch, incr, n).WeaklyNormal()
    ensures Ticks(epoch, incr, n).Value() == epoch.Value() + n * incr.Value()
    decreases n
  {
    if n > 0 {
      PlusIsExact(epoch, incr);
      TicksAreExact(Plus(epoch, incr), incr, n - 1);
      OneMore(n - 1, incr.Value());
    }
  }

  lemma OneMore(n: int, step: int)
    ensures (n + 1) * step == n * step + step
  {
  }

  /** `<=` on weakly normal operands is the numeric order except on one pair of
      spellings of the same instant; with a normal right operand it is exact. */
  lemma AtMostIsOrder(left: Timespec, right: Timespec)
    requires left.WeaklyNormal() && right.WeaklyNormal()
    ensures AtMost(left, right) <==>
            left.Value() <= right.Value() &&
            !(left == Timespec(right.sec + 1, 0) && right.nsec == 1_000_000_000)
    ensures right.Normal() ==> (AtMost(left, right) <==> left.Value() <= right.Value())
  {
    if left.sec < right.sec {
      assert left.sec + 1 <= right.sec;
    }
  }

  /** `-=` with a weakly normal right operand is exact, and its result is normal. */
  lemma MinusIsExact(left: Timespec, right: Timespec)
    requires left.Normal() && right.WeaklyNormal()
    ensures Minus(left, right).Normal()
    ensures Minus(left, right).Value() == left.Value() - right.Value()
  {
  }

  /** millisecs() of a normal value is the true floor, for negative instants too. */
  lemma MillisecsIsFloor(t: Timespec)
    requires t.Normal()
    ensures Millisecs(t) * 1_000_000 <= t.Value() < Millisecs(t) * 1_000_000 + 1_000_000
  {
  }
}
