/**
 * The overall-attendance card and its target calculator. For a target percentage chosen on a
 * slider (1 to 100) the card shows either how many lectures can still be missed or how many
 * must still be attended. The source computes both in floating point; here the arithmetic is
 * exact, and the one place where the source divides by zero (target 100) yields an explicit
 * infinite or NaN value, as JavaScript does.
 */
module AttendanceCard {
  import Wrappers
  import Text
  import AttendanceSummary

  /** The card's input: the aggregate summary. `percent` is the server's `Percent` text as a number. */
  datatype Summary = Summary(present: int, total: int, percent: real)

  /** A JavaScript number after a division that may be by zero. */
  datatype Extended = Finite(v: int) | PosInf | NegInf | NaN

  /** What `calculateRequiredLectures` returns: a count, the "impossible" text, or the count behind an emoji. */
  datatype Required = Lectures(n: int) | Unachievable | Teased(n: int)

  /** What the calculator panel shows. */
  datatype Advice = CanMiss(count: int) | Needs(required: Required)

  const SliderMin: int := 1
  const SliderMax: int := 100
  const DefaultTarget: int := 75
  const TeasingTarget: int := 69

  predicate ValidTarget(target: int)
  {
    SliderMin <= target <= SliderMax
  }

  /** Attending `x` more lectures, and missing none, brings attendance to at least `target` percent. */
  ghost predicate Reaches(present: int, total: int, target: int, x: int)
  {
    100 * (present + x) >= target * (total + x)
  }

  /** `x` is the fewest further lectures to attend that reach the target. */
  ghost predicate LeastReaching(present: int, total: int, target: int, x: int)
  {
    x >= 0 && Reaches(present, total, target, x)
    && forall y :: 0 <= y < x ==> !Reaches(present, total, target, y)
  }

  /** `Math.ceil(a / b)` for a positive divisor. */
  function CeilDiv(a: int, b: int): (q: int)
    requires b > 0
    ensures q * b >= a && (q - 1) * b < a
  {
    var f := (-a) / b;
    assert f * b <= -a < (f + 1) * b;
    -f
  }

  /**
   * `Math.ceil((target/100 * total - present) / (1 - target/100))`, scaled by 100 above and
   * below the fraction bar; at target 100 the divisor is zero.
   */
  function RawRequired(present: int, total: int, target: int): Extended
    requires ValidTarget(target)
  {
    var num := target * total - 100 * present;
    var den := 100 - target;
    if den > 0 then Finite(CeilDiv(num, den))
    else if num > 0 then PosInf
    else if num < 0 then NegInf
    else NaN
  }

  /** `x <= 0` on a JavaScript number: false for NaN and +Infinity, true for -Infinity. */
  predicate AtMostZero(e: Extended)
  {
    (e.Finite? && e.v <= 0) || e.NegInf?
  }

  /** Reaching the target after `x` lectures is a linear condition on `x`. */
  lemma ReachesLinear(present: int, total: int, target: int, x: int)
    ensures Reaches(present, total, target, x) <==> x * (100 - target) >= target * total - 100 * present
  {
    assert target * (total + x) == target * total + target * x;
    assert x * (100 - target) == 100 * x - target * x;
  }

  lemma MulMonotonic(y: int, n: int, d: int)
    requires d > 0 && y <= n
    ensures y * d <= n * d
  {
    assert n * d - y * d == (n - y) * d;
  }

  lemma RawRequiredIsLeast(present: int, total: int, target: int)
    requires ValidTarget(target)
    ensures var e := RawRequired(present, total, target);
      target < 100 ==> e.Finite? && LeastReaching(present, total, target, if e.v <= 0 then 0 else e.v)
  {
    if target == 100 {
      return;
    }
    var num := target * total - 100 * present;
    var den := 100 - target;
    var n := CeilDiv(num, den);
    assert RawRequired(present, total, target) == Finite(n);
    if n <= 0 {
      MulMonotonic(n, 0, den);
      ReachesLinear(present, total, target, 0);
    } else {
      ReachesLinear(present, total, target, n);
      forall y | 0 <= y < n
        ensures !Reaches(present, total, target, y)
      {
        MulMonotonic(y, n - 1, den);
        ReachesLinear(present, total, target, y);
      }
    }
  }

  /**
   * Lectures still to attend. Below 100 the count is the least number of further lectures
   * that reaches the target (0 when it is already reached); at 69 a positive count is shown
   * behind an emoji. At 100 the target is out of reach unless more lectures were attended
   * than held, because the `<= 0` test runs before the finiteness test.
   */
  function RequiredLectures(present: int, total: int, target: int): (r: Required)
    requires ValidTarget(target)
    ensures target < 100 ==> !r.Unachievable? && LeastReaching(present, total, target, r.n)
    ensures target < 100 ==> (r.Teased? <==> target == TeasingTarget && r.n > 0)
    ensures target == 100 ==> (r == Unachievable <==> total >= present)
    ensures target == 100 ==> (r == Lectures(0) <==> present > total)
  {
    var additional := RawRequired(present, total, target);
    RawRequiredIsLeast(present, total, target);
    if AtMostZero(additional) then Lectures(0)
    else if !additional.Finite? then Unachievable
    else if target == TeasingTarget then Teased(additional.v)
    else Lectures(additional.v)
  }

  /** The text the panel shows for a required count. */
  function RequiredText(r: Required): (text: string)
    ensures r.Lectures? ==> Text.ParseInt(text) == Wrappers.Some(r.n)
    ensures r.Teased? ==> |text| > 1 && text[0] == '\U{1F924}' && Text.ParseInt(text[1..]) == Wrappers.Some(r.n)
    ensures r.Unachievable? ==> text == "Its Impossible, Infinite"
  {
    match r
    case Lectures(n) => Text.ParseIntRoundTrip(n); Text.IntToString(n)
    case Unachievable => "Its Impossible, Infinite"
    case Teased(n) =>
      var text := "\U{1F924}" + Text.IntToString(n);
      assert text[1..] == Text.IntToString(n);
      Text.ParseIntRoundTrip(n);
      text
  }

  /**
   * `Math.floor(present / (target/100) - total)`: the greatest number of further lectures that
   * can be missed while attendance stays at or above the target (negative when it is already below).
   */
  function LeavingLectures(present: int, total: int, target: int): (x: int)
    requires ValidTarget(target)
    ensures 100 * present >= target * (total + x)
    ensures 100 * present < target * (total + x + 1)
  {
    var q := (100 * present - target * total) / target;
    assert target * (total + q) == target * total + q * target;
    assert target * (total + q + 1) == target * total + q * target + target;
    q
  }

  /**
   * The panel shows the leaving count iff the displayed percentage has reached the target:
   * the greatest number of lectures that can be missed, or else the required count.
   */
  function Advise(s: Summary, target: int): (a: Advice)
    requires ValidTarget(target)
    ensures a.CanMiss? <==> s.percent >= target as real
    ensures a.CanMiss? ==> 100 * s.present >= target * (s.total + a.count)
    ensures a.CanMiss? ==> 100 * s.present < target * (s.total + a.count + 1)
    ensures a.Needs? ==> a.required == RequiredLectures(s.present, s.total, target)
    ensures a.Needs? && target < 100 ==> !a.required.Unachievable? && LeastReaching(s.present, s.total, target, a.required.n)
  {
    if s.percent >= target as real then CanMiss(LeavingLectures(s.present, s.total, target))
    else Needs(RequiredLectures(s.present, s.total, target))
  }

  /** The percentage agrees with the counts: `percent = 100 * present / total`. */
  ghost predicate Consistent(s: Summary)
  {
    s.total > 0 && s.percent * (s.total as real) == (100 * s.present) as real
  }

  /**
   * With a percentage that agrees with the counts, the panel never advises missing a negative
   * number of lectures, and when it advises attending, at least one more lecture is needed
   * (or, at 100, the target is out of reach).
   */
  lemma ConsistentAdvice(s: Summary, target: int)
    requires ValidTarget(target) && Consistent(s)
    ensures var a := Advise(s, target);
      && (a.CanMiss? ==> a.count >= 0)
      && (a.Needs? && target < 100 ==> !a.required.Unachievable? && a.required.n >= 1)
      && (a.Needs? && target == 100 ==> a.required == Unachievable)
  {
    ReachedIff(s, target);
    if s.percent < target as real {
      ReachesLinear(s.present, s.total, target, 0);
    }
  }

  /** With consistent counts, the displayed percentage reaches the target iff the counts do. */
  lemma ReachedIff(s: Summary, target: int)
    requires Consistent(s)
    ensures s.percent >= target as real <==> 100 * s.present >= target * s.total
  {
    var t := s.total as real;
    RealScale(s.percent, target as real, t);
    assert (target * s.total) as real == (target as real) * t;
  }

  lemma RealScale(a: real, b: real, t: real)
    requires t > 0.0
    ensures a >= b <==> a * t >= b * t
  {
    assert a * t - b * t == (a - b) * t;
  }

  /** Lectures held but not attended, as the card shows them. */
  function Absent(s: Summary): (a: int)
    ensures a + s.present == s.total
  {
    s.total - s.present
  }

  /** The card colours its percentage with the shared thresholds. */
  function CardColor(s: Summary): (c: AttendanceSummary.Color)
    ensures c == AttendanceSummary.Green <==> s.percent >= 85.0
    ensures c == AttendanceSummary.Red <==> s.percent < 75.0
  {
    AttendanceSummary.ColorFor(s.percent)
  }
}
