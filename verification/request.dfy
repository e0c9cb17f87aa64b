/** Validation of a video request (src/responses/mapvideo.ts): the `days`
    and `duration` route values, the frame rate and the first frame of the
    video. */
module Request {
  import opened Wrappers

  /** A route value after numeric conversion: `NaN` or an integer. */
  datatype Param = NotANumber | Num(n: int)

  /** A JavaScript `Math.floor(n / d)` for integers `n` and `d`: finite,
      or an infinity or `NaN` when `d` is zero. */
  datatype Quotient = Finite(q: int) | PosInfinity | NegInfinity | NaN

  /** `Math.floor(n / d)`. Dafny's `/` rounds down only for a positive
      divisor, so a negative divisor is turned around first. */
  function FloorDiv(n: int, d: int): (r: Quotient)
    ensures d > 0 ==> r.Finite? && r.q * d <= n < r.q * d + d
    ensures d < 0 ==> r.Finite? && r.q * d >= n > r.q * d + d
    ensures d == 0 ==> (r == PosInfinity <==> n > 0) && (r == NegInfinity <==> n < 0) && (r == NaN <==> n == 0)
  {
    if d > 0 then Finite(n / d)
    else if d < 0 then Finite((-n) / (-d))
    else if n > 0 then PosInfinity
    else if n < 0 then NegInfinity
    else NaN
  }

  /** `q < k`; every comparison with `NaN` is false. */
  predicate Below(q: Quotient, k: int)
  {
    match q
    case Finite(v) => v < k
    case NegInfinity => true
    case _ => false
  }

  /** `q > k`; every comparison with `NaN` is false. */
  predicate Above(q: Quotient, k: int)
  {
    match q
    case Finite(v) => v > k
    case PosInfinity => true
    case _ => false
  }

  /** The fewest days a video may show when `days` is given. */
  const MinDays: int := 100
  /** The frame rate bounds. */
  const MinFrameRate: int := 5
  const MaxFrameRate: int := 25

  /** The errors of a request: `TypeError` for a value that is not a
      number, `RangeError` with the bounds its message reports. `days` in
      the duration error is the requested value, `None` printing as
      "unlimited". */
  datatype RequestError =
    | DaysNotANumber
    | DaysOutOfRange(min: int, max: int)
    | DurationNotANumber
    | DurationOutOfRange(min: int, max: int, days: Option<int>)

  /** An accepted request as the source computes it: the number of frames,
      the frame rate (which may be `NaN`) and the first frame number. */
  datatype RawPlan = RawPlan(days: int, frameRate: Quotient, firstFrame: int)

  /** An accepted request: the number of frames, an integral frame rate and
      the first frame number. */
  datatype Plan = Plan(days: int, frameRate: int, firstFrame: int)

  /** The number of frames, or the error of the `days` checks. An omitted
      value is the whole history and has no lower bound. */
  function FrameCount(total: nat, days: Option<Param>): (r: Result<int, RequestError>)
    ensures days.None? ==> r == Success(total)
    ensures days == Some(Param.NotANumber) ==> r == Failure(DaysNotANumber)
    ensures days.Some? && days.value.Num? ==>
      if MinDays <= days.value.n <= total then r == Success(days.value.n)
      else r == Failure(DaysOutOfRange(MinDays, total))
  {
    match days
    case None => Success(total)
    case Some(NotANumber) => Failure(DaysNotANumber)
    case Some(Num(d)) =>
      if d > total || d < MinDays then Failure(DaysOutOfRange(MinDays, total)) else Success(d)
  }

  /** The source's validation, checks in the source's order: `days` first,
      then `duration`. The error reports `floor(n/25) + 1` as the shortest
      duration, and a `NaN` quotient passes both range checks. */
  function ValidateAsWritten(total: nat, days: Option<Param>, duration: Param): (r: Result<RawPlan, RequestError>)
    ensures r.Success? ==>
      && FrameCount(total, days) == Success(r.value.days)
      && duration.Num? && duration.n >= 0
      && (r.value.frameRate.Finite? ==> MinFrameRate <= r.value.frameRate.q <= MaxFrameRate)
      && r.value.firstFrame == total - r.value.days + 1
      && 1 <= r.value.firstFrame
  {
    match FrameCount(total, days)
    case Failure(e) => Failure(e)
    case Success(n) =>
      match duration
      case NotANumber => Failure(DurationNotANumber)
      case Num(t) =>
        var q := FloorDiv(n, t);
        if Below(q, MinFrameRate) || Above(q, MaxFrameRate) then
          Failure(DurationOutOfRange(n / MaxFrameRate + 1, n / MinFrameRate, DaysLabel(days)))
        else
          var rate := if Below(q, MinFrameRate) then Finite(MinFrameRate)
                      else if Above(q, MaxFrameRate) then Finite(MaxFrameRate)
                      else q;
          Success(RawPlan(n, rate, total - n + 1))
  }

  /** The requested days as the error message prints them (`oldDays`). */
  function DaysLabel(days: Option<Param>): Option<int>
  {
    match days
    case Some(Num(d)) => if d != 0 then Some(d) else None
    case _ => None
  }

  /** The shortest and longest accepted durations for `n` frames. */
  function ShortestDuration(n: int): int
  {
    n / (MaxFrameRate + 1) + 1
  }

  function LongestDuration(n: int): int
  {
    n / MinFrameRate
  }

  /** The validation with both defects removed: the error reports the
      true shortest duration, and a quotient that is not a finite number
      is out of range. */
  function Validate(total: nat, days: Option<Param>, duration: Param): (r: Result<Plan, RequestError>)
    ensures r.Success? ==>
      && FrameCount(total, days) == Success(r.value.days)
      && duration.Num?
      && MinFrameRate <= r.value.frameRate <= MaxFrameRate
      && r.value.frameRate * duration.n <= r.value.days < (r.value.frameRate + 1) * duration.n
      && r.value.firstFrame == total - r.value.days + 1
      && 1 <= r.value.firstFrame
  {
    match FrameCount(total, days)
    case Failure(e) => Failure(e)
    case Success(n) =>
      match duration
      case NotANumber => Failure(DurationNotANumber)
      case Num(t) =>
        match FloorDiv(n, t)
        case Finite(q) =>
          if q < MinFrameRate || q > MaxFrameRate then
            Failure(DurationOutOfRange(ShortestDuration(n), LongestDuration(n), DaysLabel(days)))
          else
            Success(Plan(n, q, total - n + 1))
        case _ =>
          Failure(DurationOutOfRange(ShortestDuration(n), LongestDuration(n), DaysLabel(days)))
  }

  /** A duration is accepted exactly when it lies between the bounds the
      error message reports; so every rejected duration is reported with
      the bounds that would have been accepted. */
  lemma DurationBoundsExact(total: nat, days: Option<Param>, t: int)
    requires FrameCount(total, days).Success?
    ensures var n := FrameCount(total, days).value;
      Validate(total, days, Num(t)).Success? <==> ShortestDuration(n) <= t <= LongestDuration(n)
    ensures var n := FrameCount(total, days).value;
      Validate(total, days, Num(t)).Failure? ==>
        Validate(total, days, Num(t)).error == DurationOutOfRange(ShortestDuration(n), LongestDuration(n), DaysLabel(days))
  {
    var n := FrameCount(total, days).value;
    assert n >= 0;
    if t > 0 {
      var q := n / t;
      if ShortestDuration(n) <= t <= LongestDuration(n) {
        assert 5 * t <= n by { DivLower(n, 5, t); }
        assert n < 26 * t by { DivUpper(n, 26, t); }
        assert 5 <= q <= 25 by { QuotientBounds(n, t); }
      } else {
        assert q < 5 || q > 25 by { QuotientOutside(n, t); }
      }
    }
  }

  /** `t <= n / k` means `k * t <= n`, for positive `k`. */
  lemma DivLower(n: int, k: int, t: int)
    requires n >= 0 && k > 0 && t <= n / k
    ensures k * t <= n
  {
    assert k * t <= k * (n / k);
  }

  /** `n / k + 1 <= t` means `n < k * t`, for positive `k`. */
  lemma DivUpper(n: int, k: int, t: int)
    requires n >= 0 && k > 0 && n / k + 1 <= t
    ensures n < k * t
  {
    assert k * (n / k + 1) <= k * t;
  }

  /** For positive `t`, `5t <= n < 26t` puts `n / t` between 5 and 25. */
  lemma QuotientBounds(n: int, t: int)
    requires t > 0 && 5 * t <= n < 26 * t
    ensures 5 <= n / t <= 25
  {
    var q := n / t;
    assert q * t <= n < q * t + t;
    MulCancel(5, q + 1, t);
    MulCancel(q, 26, t);
  }

  /** Cancelling a positive factor keeps a strict order. */
  lemma MulCancel(a: int, b: int, t: int)
    requires t > 0 && a * t < b * t
    ensures a < b
  {
  }

  /** For positive `t` outside the bounds, `n / t` is outside [5, 25]. */
  lemma QuotientOutside(n: int, t: int)
    requires n >= 0 && t > 0
    requires !(n / (MaxFrameRate + 1) + 1 <= t <= n / MinFrameRate)
    ensures n / t < 5 || n / t > 25
  {
    var q := n / t;
    assert q * t <= n < q * t + t;
    if t > n / 5 {
      assert n < 5 * t by {
        assert 5 * (n / 5) + 5 > n;
        assert 5 * t >= 5 * (n / 5) + 5;
      }
      MulCancel(q, 5, t);
    } else {
      assert t <= n / 26;
      assert 26 * t <= n by { DivLower(n, 26, t); }
      MulCancel(26, q + 1, t);
    }
  }

  /** The corrected validation changes nothing but the two defects: where
      the source yields a finite frame rate the results agree, and every
      request the corrected validation accepts the source accepts too. */
  lemma ValidateRefinesAsWritten(total: nat, days: Option<Param>, duration: Param)
    ensures Validate(total, days, duration).Success? ==>
      ValidateAsWritten(total, days, duration) ==
        Success(RawPlan(Validate(total, days, duration).value.days, Finite(Validate(total, days, duration).value.frameRate), Validate(total, days, duration).value.firstFrame))
    ensures ValidateAsWritten(total, days, duration).Success? && ValidateAsWritten(total, days, duration).value.frameRate.Finite? ==>
      Validate(total, days, duration).Success?
    ensures ValidateAsWritten(total, days, duration).Failure? ==>
      Validate(total, days, duration).Failure? &&
      (Validate(total, days, duration).error.DurationOutOfRange? <==> ValidateAsWritten(total, days, duration).error.DurationOutOfRange?)
  {
  }

  /** The source's message overstates the shortest duration: with 100
      days a 4-second video is accepted (25 frames per second), yet a
      3-second request is told the shortest duration is 5 seconds. */
  lemma DurationMessageOverstatesMinimum()
    ensures ValidateAsWritten(100, Some(Num(100)), Num(4)) == Success(RawPlan(100, Finite(25), 1))
    ensures ValidateAsWritten(100, Some(Num(100)), Num(3)) == Failure(DurationOutOfRange(5, 20, Some(100)))
    ensures Validate(100, Some(Num(100)), Num(3)) == Failure(DurationOutOfRange(4, 20, Some(100)))
  {
    assert FrameCount(100, Some(Num(100))) == Success(100);
  }

  /** With no days given, an empty history and a duration of 0 the
      quotient is `0 / 0 = NaN`, which fails neither range check: the
      source accepts the request with a `NaN` frame rate. */
  lemma NaNFrameRateAccepted()
    ensures ValidateAsWritten(0, None, Num(0)) == Success(RawPlan(0, NaN, 1))
    ensures Validate(0, None, Num(0)) == Failure(DurationOutOfRange(1, 0, None))
  {
  }
}
