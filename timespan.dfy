/**
 * `TimeSpan`: a signed 64-bit count of 100-nanosecond ticks, its range-checked
 * hour/minute/second constructor, its component accessors (which use C++'s
 * truncating division), its comparisons, and `+`/`-` with overflow detection.
 */
module TimeSpans {
  import opened Ints

  /** The two exceptions the sources throw. */
  datatype Error = InvalidArgument | OverflowError

  datatype Result<T> = Ok(value: T) | Err(error: Error)

  const TicksPerMillisecond: int := 10000
  const TicksPerSecond: int := TicksPerMillisecond * 1000
  const TicksPerMinute: int := TicksPerSecond * 60

  /** Largest and smallest whole number of seconds whose tick count fits in a `long`. */
  const MaxSeconds: int := TruncDiv(MaxLong, TicksPerSecond)
  const MinSeconds: int := TruncDiv(MinLong, TicksPerSecond)

  /** The value type: `getTicks()` is the field `ticks`, `TimeSpan(long)` the constructor. */
  datatype TimeSpan = TimeSpan(ticks: int64)

  /** `TimeSpan::Zero`, which is also what the default constructor yields (`m_ticks{0}`). */
  const Zero: TimeSpan := TimeSpan(0)

  // ---------------------------------------------------------------------------
  // C++ integer division and remainder (truncation toward zero)
  // ---------------------------------------------------------------------------

  /** `a / b` in C++: the quotient rounded toward zero. */
  function TruncDiv(a: int, b: int): (q: int)
    requires b > 0
    ensures a >= 0 ==> 0 <= q && q * b <= a < q * b + b
    ensures a <= 0 ==> q <= 0 && q * b - b < a <= q * b
  {
    if a >= 0 then a / b else -((-a) / b)
  }

  /** `a % b` in C++: what remains after `TruncDiv`, carrying the sign of `a`. */
  function TruncMod(a: int, b: int): (r: int)
    requires b > 0
    ensures -b < r < b
    ensures a >= 0 ==> r >= 0
    ensures a <= 0 ==> r <= 0
  {
    a - TruncDiv(a, b) * b
  }

  /** Truncation is symmetric in the sign of the dividend, unlike Euclidean division. */
  lemma TruncNegate(a: int, b: int)
    requires b > 0
    ensures TruncDiv(-a, b) == -TruncDiv(a, b)
    ensures TruncMod(-a, b) == -TruncMod(a, b)
  {
  }

  // ---------------------------------------------------------------------------
  // The hour/minute/second constructor
  // ---------------------------------------------------------------------------

  /** `(long)hour * 3600 + (long)minute * 60 + (long)second`: the 64-bit sum never overflows. */
  function TotalSeconds(hour: int32, minute: int32, second: int32): (total: int64)
    ensures total == hour * 3600 + minute * 60 + second
  {
    hour * 3600 + minute * 60 + second
  }

  /** `MaxSeconds`/`MinSeconds` are the extreme whole numbers of seconds whose tick counts fit in a `long`. */
  lemma SecondsLimits()
    ensures InInt64(MaxSeconds * TicksPerSecond) && !InInt64((MaxSeconds + 1) * TicksPerSecond)
    ensures InInt64(MinSeconds * TicksPerSecond) && !InInt64((MinSeconds - 1) * TicksPerSecond)
  {
  }

  /**
   * `toTicks`: the range check on whole seconds is exactly the condition that
   * the tick count is representable, and on success it is that tick count.
   */
  function ToTicks(hour: int32, minute: int32, second: int32): (r: Result<int64>)
    ensures r.Ok? <==> InInt64((hour * 3600 + minute * 60 + second) * TicksPerSecond)
    ensures r.Ok? ==> r.value == (hour * 3600 + minute * 60 + second) * TicksPerSecond
    ensures r.Err? ==> r.error == InvalidArgument
  {
    var totalSeconds := TotalSeconds(hour, minute, second);
    if totalSeconds > MaxSeconds || totalSeconds < MinSeconds then
      Err(InvalidArgument)
    else
      Ok(totalSeconds * TicksPerSecond)
  }

  /** `TimeSpan(hour, minute, second)`, whose `invalid_argument` becomes `Err`. */
  function FromClock(hour: int32, minute: int32, second: int32): (r: Result<TimeSpan>)
    ensures r.Ok? <==> ToTicks(hour, minute, second).Ok?
    ensures r.Ok? ==> r.value.ticks == ToTicks(hour, minute, second).value
  {
    match ToTicks(hour, minute, second)
    case Ok(ticks) => Ok(TimeSpan(ticks))
    case Err(e) => Err(e)
  }

  // ---------------------------------------------------------------------------
  // Component accessors
  // ---------------------------------------------------------------------------

  /** `getMilliseconds()`: the millisecond component, signed like the span. */
  function Milliseconds(t: TimeSpan): (r: int32)
    ensures -1000 < r < 1000
    ensures t.ticks >= 0 ==> r >= 0
    ensures t.ticks <= 0 ==> r <= 0
  {
    TruncMod(TruncDiv(t.ticks, TicksPerMillisecond), 1000)
  }

  /** `getMinutes()`: the minute component, signed like the span. */
  function Minutes(t: TimeSpan): (r: int32)
    ensures -60 < r < 60
    ensures t.ticks >= 0 ==> r >= 0
    ensures t.ticks <= 0 ==> r <= 0
  {
    TruncMod(TruncDiv(t.ticks, TicksPerMinute), 60)
  }

  /** `getSeconds()`: the second component, signed like the span. */
  function Seconds(t: TimeSpan): (r: int32)
    ensures -60 < r < 60
    ensures t.ticks >= 0 ==> r >= 0
    ensures t.ticks <= 0 ==> r <= 0
  {
    TruncMod(TruncDiv(t.ticks, TicksPerSecond), 60)
  }

  /** One component, `(a / unit) % range` in C++, changes sign with `a`. */
  lemma ComponentNegation(a: int, unit: int, range: int)
    requires unit > 0 && range > 0
    ensures TruncMod(TruncDiv(-a, unit), range) == -TruncMod(TruncDiv(a, unit), range)
  {
    TruncNegate(a, unit);
    TruncNegate(TruncDiv(a, unit), range);
  }

  /** Negating a span negates each of its components. */
  lemma ComponentsOfNegation(t: TimeSpan)
    requires InInt64(-(t.ticks as int))
    ensures Milliseconds(TimeSpan(-t.ticks)) == -Milliseconds(t)
    ensures Seconds(TimeSpan(-t.ticks)) == -Seconds(t)
    ensures Minutes(TimeSpan(-t.ticks)) == -Minutes(t)
  {
    ComponentNegation(t.ticks, TicksPerMillisecond, 1000);
    ComponentNegation(t.ticks, TicksPerSecond, 60);
    ComponentNegation(t.ticks, TicksPerMinute, 60);
  }

  /** A non-negative span built from a clock reading gives back its minutes and seconds. */
  lemma {:induction false} ClockComponents(hour: int32, minute: int32, second: int32)
    requires 0 <= hour && 0 <= minute < 60 && 0 <= second < 60
    requires FromClock(hour, minute, second).Ok?
    ensures Minutes(FromClock(hour, minute, second).value) == minute
    ensures Seconds(FromClock(hour, minute, second).value) == second
    ensures Milliseconds(FromClock(hour, minute, second).value) == 0
  {
    var total := hour * 3600 + minute * 60 + second;
    var wholeMinutes := hour * 60 + minute;
    var ticks := FromClock(hour, minute, second).value.ticks;
    assert TicksPerMillisecond == 10000 && TicksPerSecond == 10000000 && TicksPerMinute == 600000000;
    assert ticks == total * 10000000;
    assert ticks == wholeMinutes * 600000000 + second * 10000000;
    // seconds: ticks / 10^7 == total, total % 60 == second
    assert ticks / 10000000 == total;
    assert total == wholeMinutes * 60 + second;
    assert total / 60 == wholeMinutes;
    // minutes: ticks / (6 * 10^8) == wholeMinutes, wholeMinutes % 60 == minute
    assert ticks / 600000000 == wholeMinutes;
    assert wholeMinutes / 60 == hour;
    // milliseconds: ticks / 10^4 == total * 1000, a multiple of 1000
    assert ticks / 10000 == total * 1000;
    assert (total * 1000) / 1000 == total;
  }

  // ---------------------------------------------------------------------------
  // Comparisons
  // ---------------------------------------------------------------------------

  predicate Eq(left: TimeSpan, right: TimeSpan) { left.ticks == right.ticks }
  predicate Ne(left: TimeSpan, right: TimeSpan) { left.ticks != right.ticks }
  predicate Lt(left: TimeSpan, right: TimeSpan) { left.ticks < right.ticks }
  predicate Gt(left: TimeSpan, right: TimeSpan) { left.ticks > right.ticks }
  predicate Le(left: TimeSpan, right: TimeSpan) { left.ticks <= right.ticks }
  predicate Ge(left: TimeSpan, right: TimeSpan) { left.ticks >= right.ticks }

  /** The six operators agree with one another and `==` is equality of spans. */
  lemma ComparisonsConsistent(a: TimeSpan, b: TimeSpan)
    ensures Eq(a, b) <==> a == b
    ensures Ne(a, b) <==> !Eq(a, b)
    ensures Gt(a, b) <==> Lt(b, a)
    ensures Le(a, b) <==> Lt(a, b) || Eq(a, b)
    ensures Ge(a, b) <==> !Lt(a, b)
  {
  }

  /** `<` is a strict total order. */
  lemma LtStrictTotalOrder(a: TimeSpan, b: TimeSpan, c: TimeSpan)
    ensures !Lt(a, a)
    ensures Lt(a, b) && Lt(b, c) ==> Lt(a, c)
    ensures Lt(a, b) || a == b || Lt(b, a)
  {
  }

  // ---------------------------------------------------------------------------
  // Addition and subtraction with overflow detection
  // ---------------------------------------------------------------------------

  /** Two's-complement wrap of an exact result into 64 bits. */
  function Wrap(x: int): (w: int64)
    ensures InInt64(x) ==> w == x
    ensures MaxLong < x <= 2 * MaxLong + 1 ==> w == x - Modulus64
    ensures 2 * MinLong <= x < MinLong ==> w == x + Modulus64
  {
    var m := (x - MinLong) % Modulus64;
    m + MinLong
  }

  /** `v >> 63` on a signed `long`: an arithmetic shift, i.e. floor division by 2^63. */
  function SignShift(v: int64): (s: int)
    ensures s == if v < 0 then -1 else 0
  {
    v / 0x8000_0000_0000_0000
  }

  /** The test of `operator+`: equal operand signs and a result sign that differs. */
  predicate AddOverflowTest(left: int64, right: int64) {
    var result := Wrap(left + right);
    SignShift(left) == SignShift(right) && SignShift(left) != SignShift(result)
  }

  /** The test of `operator-`: operand signs that differ and a result sign unlike the left one. */
  predicate SubOverflowTest(left: int64, right: int64) {
    var result := Wrap(left - right);
    SignShift(left) != SignShift(right) && SignShift(left) != SignShift(result)
  }

  /** The sign-bit test on the wrapped sum fires exactly when the exact sum leaves 64 bits. */
  lemma AddOverflowTestExact(left: int64, right: int64)
    ensures AddOverflowTest(left, right) <==> !InInt64(left + right)
  {
    var sum := left + right;
    if InInt64(sum) {
      assert Wrap(sum) == sum;
    } else if sum > MaxLong {
      assert Wrap(sum) == sum - Modulus64;
    } else {
      assert Wrap(sum) == sum + Modulus64;
    }
  }

  /** The sign-bit test on the wrapped difference fires exactly when the exact difference leaves 64 bits. */
  lemma SubOverflowTestExact(left: int64, right: int64)
    ensures SubOverflowTest(left, right) <==> !InInt64(left - right)
  {
    var diff := left - right;
    if InInt64(diff) {
      assert Wrap(diff) == diff;
    } else if diff > MaxLong {
      assert Wrap(diff) == diff - Modulus64;
    } else {
      assert Wrap(diff) == diff + Modulus64;
    }
  }

  /** `operator+`: the exact sum, or `overflow_error` exactly when it does not fit. */
  function Add(left: TimeSpan, right: TimeSpan): (r: Result<TimeSpan>)
    ensures r.Ok? <==> InInt64(left.ticks + right.ticks)
    ensures r.Ok? ==> r.value.ticks == left.ticks + right.ticks
    ensures r.Err? ==> r.error == OverflowError
  {
    AddOverflowTestExact(left.ticks, right.ticks);
    if AddOverflowTest(left.ticks, right.ticks) then Err(OverflowError)
    else Ok(TimeSpan(Wrap(left.ticks + right.ticks)))
  }

  /** `operator-`: the exact difference, or `overflow_error` exactly when it does not fit. */
  function Sub(left: TimeSpan, right: TimeSpan): (r: Result<TimeSpan>)
    ensures r.Ok? <==> InInt64(left.ticks - right.ticks)
    ensures r.Ok? ==> r.value.ticks == left.ticks - right.ticks
    ensures r.Err? ==> r.error == OverflowError
  {
    SubOverflowTestExact(left.ticks, right.ticks);
    if SubOverflowTest(left.ticks, right.ticks) then Err(OverflowError)
    else Ok(TimeSpan(Wrap(left.ticks - right.ticks)))
  }

  /** `Zero` is a two-sided identity that never overflows. */
  lemma ZeroIdentity(t: TimeSpan)
    ensures Add(t, Zero) == Ok(t) && Add(Zero, t) == Ok(t)
    ensures Sub(t, Zero) == Ok(t)
  {
  }

  /**
   * `operator+=`: `left = left + right`. The reference parameter becomes the
   * in-value `left` and the out-value `updated`; `ok` is false when `+` threw,
   * in which case the assignment never happened.
   */
  method AddAssign(left: TimeSpan, right: TimeSpan) returns (updated: TimeSpan, ok: bool)
    ensures ok <==> InInt64(left.ticks + right.ticks)
    ensures ok ==> updated.ticks == left.ticks + right.ticks
    ensures !ok ==> updated == left
  {
    var sum := Add(left, right);
    if sum.Ok? {
      updated, ok := sum.value, true;
    } else {
      updated, ok := left, false;
    }
  }

  /** `operator-=`: `left = left - right`, leaving `left` as it was when `-` threw. */
  method SubAssign(left: TimeSpan, right: TimeSpan) returns (updated: TimeSpan, ok: bool)
    ensures ok <==> InInt64(left.ticks - right.ticks)
    ensures ok ==> updated.ticks == left.ticks - right.ticks
    ensures !ok ==> updated == left
  {
    var difference := Sub(left, right);
    if difference.Ok? {
      updated, ok := difference.value, true;
    } else {
      updated, ok := left, false;
    }
  }
}
