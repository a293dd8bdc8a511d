/**
 * `TimecodeRange` of `posttools/timecode.py`: a non-empty run of frames given by a start
 * timecode and a duration of the same rate and mode, the end being derived as
 * `start + duration`. Built from two of start, end and duration; asked whether it holds
 * a timecode or another range; iterated frame by frame.
 */
module TimecodeRanges {
  import opened Results
  import opened Arith
  import opened Timecodes

  datatype TimecodeRange = TimecodeRange(start: Timecode, duration: Timecode) {
    /** What a constructed range satisfies: compatible start and duration, at least one frame long. */
    predicate Valid()
    {
      start.Valid() && IsCompatible(start, duration) && duration.frameNumber >= 1
    }

    function Rate(): int { start.rate }

    function Mode(): Mode { start.mode }
  }

  /** A keyword argument of the constructor: present only when it is a timecode. */
  predicate ValidArg(t: Option<Timecode>) { t.Some? ==> t.value.Valid() }

  /** The right operand of `in`, `==`, `<` and `>`: a range, a timecode or anything else. */
  datatype Item = RangeItem(range: TimecodeRange) | TimecodeItem(tc: Timecode) | OtherItem {
    predicate Valid()
    {
      && (RangeItem? ==> range.Valid())
      && (TimecodeItem? ==> tc.Valid())
    }
  }

  // ---------- Construction ----------

  /** `end`: `start + duration`, at the range's rate and mode. */
  function End(r: TimecodeRange): (e: Timecode)
    requires r.Valid()
    ensures Add(r.start, Tc(r.duration)) == Ok(e)
    ensures e.Valid() && IsCompatible(r.start, e)
    ensures e.frameNumber - r.start.frameNumber == r.duration.frameNumber
  {
    CoerceCompatible(r.start, r.duration);
    Add(r.start, Tc(r.duration)).value
  }

  /**
   * The first part of `__init__`: take start and duration (checking a given end against
   * their sum), else start and end, else end and duration, checking compatibility.
   */
  function Bounds(start: Option<Timecode>, end: Option<Timecode>, duration: Option<Timecode>): (r: Result<TimecodeRange, Error>)
    requires ValidArg(start) && ValidArg(end) && ValidArg(duration)
    ensures r.Ok? ==> r.value.start.Valid() && IsCompatible(r.value.start, r.value.duration)
  {
    if start.Some? && duration.Some? then
      if !IsCompatible(start.value, duration.value) then Err(IncompatibleTimecode(RateOrModeMismatch))
      else
        match Add(start.value, Tc(duration.value))
        case Err(e) => Err(e)
        case Ok(sum) =>
          match (if end.Some? then Ne(end.value, Tc(sum)) else Ok(false))
          case Err(e) => Err(e)
          case Ok(differs) =>
            if differs then Err(IncompatibleTimecode(EndDisagrees))
            else Ok(TimecodeRange(start.value, duration.value))
    else if start.Some? && end.Some? then
      if !IsCompatible(start.value, end.value) then Err(IncompatibleTimecode(RateOrModeMismatch))
      else
        match Sub(end.value, Tc(start.value))
        case Err(e) => Err(e)
        case Ok(d) => Ok(TimecodeRange(start.value, d))
    else if duration.Some? && end.Some? then
      if !IsCompatible(duration.value, end.value) then Err(IncompatibleTimecode(RateOrModeMismatch))
      else
        match Sub(end.value, Tc(duration.value))
        case Err(e) => Err(e)
        case Ok(s) => Ok(TimecodeRange(s, duration.value))
    else Err(ValueError)
  }

  /** `TimecodeRange(start=..., end=..., duration=...)`: the bounds, then `duration < 1` is refused. */
  function NewRange(start: Option<Timecode>, end: Option<Timecode>, duration: Option<Timecode>): (r: Result<TimecodeRange, Error>)
    requires ValidArg(start) && ValidArg(end) && ValidArg(duration)
    ensures r.Ok? ==> r.value.Valid()
    ensures r.Ok? && start.Some? ==> r.value.start == start.value
    ensures r.Ok? && duration.Some? ==> r.value.duration == duration.value
    ensures r.Ok? && end.Some? ==> End(r.value) == end.value
    ensures r == Err(ValueError) <==> (start.None? && end.None?) || (start.None? && duration.None?) || (end.None? && duration.None?)
  {
    match Bounds(start, end, duration)
    case Err(e) => Err(e)
    case Ok(b) =>
      match Lt(b.duration, Raw(FromInt(1)))
      case Err(e) => Err(e)
      case Ok(tooShort) => if tooShort then Err(IncompatibleTimecode(NotAfterStart)) else Ok(b)
  }

  /**
   * Construction succeeds exactly when two of the three are given, the pair the constructor
   * uses is compatible, a given end equals start plus duration, and the duration is at
   * least one frame.
   */
  lemma NewRangeOk(start: Option<Timecode>, end: Option<Timecode>, duration: Option<Timecode>)
    requires ValidArg(start) && ValidArg(end) && ValidArg(duration)
    ensures NewRange(start, end, duration).Ok? <==>
      || (&& start.Some? && duration.Some? && IsCompatible(start.value, duration.value)
          && (end.Some? ==> end.value == Timecode(start.value.frameNumber + duration.value.frameNumber,
                                                   start.value.rate, start.value.mode))
          && duration.value.frameNumber >= 1)
      || (&& start.Some? && duration.None? && end.Some? && IsCompatible(start.value, end.value)
          && end.value.frameNumber - start.value.frameNumber >= 1)
      || (&& start.None? && duration.Some? && end.Some? && IsCompatible(duration.value, end.value)
          && duration.value.frameNumber >= 1)
  {
    if start.Some? && duration.Some? && IsCompatible(start.value, duration.value) {
      CoerceCompatible(start.value, duration.value);
      if end.Some? {
        var sum := Add(start.value, Tc(duration.value)).value;
        EqIsIdentity(end.value, sum);
      }
    } else if start.Some? && end.Some? && IsCompatible(start.value, end.value) {
      CoerceCompatible(end.value, start.value);
    } else if duration.Some? && end.Some? && IsCompatible(duration.value, end.value) {
      CoerceCompatible(end.value, duration.value);
    }
  }

  /** The reasons construction fails, in the order the constructor checks them. */
  lemma NewRangeErrors(start: Option<Timecode>, end: Option<Timecode>, duration: Option<Timecode>)
    requires ValidArg(start) && ValidArg(end) && ValidArg(duration)
    ensures start.Some? && duration.Some? && !IsCompatible(start.value, duration.value) ==>
      NewRange(start, end, duration) == Err(IncompatibleTimecode(RateOrModeMismatch))
    ensures start.Some? && duration.Some? && IsCompatible(start.value, duration.value) && end.Some?
            && end.value != Timecode(start.value.frameNumber + duration.value.frameNumber, start.value.rate, start.value.mode) ==>
      NewRange(start, end, duration) == Err(IncompatibleTimecode(EndDisagrees))
    ensures start.Some? && duration.Some? && IsCompatible(start.value, duration.value)
            && (end.Some? ==> end.value == Timecode(start.value.frameNumber + duration.value.frameNumber, start.value.rate, start.value.mode))
            && duration.value.frameNumber < 1 ==>
      NewRange(start, end, duration) == Err(IncompatibleTimecode(NotAfterStart))
    ensures start.Some? && duration.None? && end.Some? && IsCompatible(start.value, end.value)
            && end.value.frameNumber <= start.value.frameNumber ==>
      NewRange(start, end, duration) == Err(IncompatibleTimecode(NotAfterStart))
  {
    if start.Some? && duration.Some? && IsCompatible(start.value, duration.value) {
      CoerceCompatible(start.value, duration.value);
      if end.Some? {
        var sum := Add(start.value, Tc(duration.value)).value;
        EqIsIdentity(end.value, sum);
      }
    } else if start.Some? && end.Some? && IsCompatible(start.value, end.value) {
      CoerceCompatible(end.value, start.value);
    }
  }

  /** From start and end the duration is `end - start`; from end and duration the start is `end - duration`. */
  lemma NewRangeDerived(s: Timecode, e: Timecode, d: Timecode)
    requires s.Valid() && e.Valid() && d.Valid()
    ensures NewRange(Some(s), Some(e), None).Ok? ==>
      NewRange(Some(s), Some(e), None).value.duration == Timecode(e.frameNumber - s.frameNumber, s.rate, s.mode)
    ensures NewRange(None, Some(e), Some(d)).Ok? ==>
      NewRange(None, Some(e), Some(d)).value.start == Timecode(e.frameNumber - d.frameNumber, e.rate, e.mode)
  {
    if IsCompatible(s, e) {
      CoerceCompatible(e, s);
    }
    if IsCompatible(d, e) {
      CoerceCompatible(e, d);
    }
  }

  // ---------- Properties ----------

  /** `frames` and `__len__`: the duration in frames, which is the distance from start to end. */
  function Len(r: TimecodeRange): (n: int)
    requires r.Valid()
    ensures n >= 1 && n == End(r).frameNumber - r.start.frameNumber
  {
    r.duration.frameNumber
  }

  /** `resample`: start and duration resampled alike, then a range built from them. */
  function ResampleRange(r: TimecodeRange, rate: Option<int>, mode: Option<Mode>): (res: Result<TimecodeRange, Error>)
    requires r.Valid()
    ensures res.Ok? ==> res.value.Valid()
    ensures res.Ok? ==> Resample(r.start, rate, mode) == Ok(res.value.start)
    ensures res.Ok? ==> Resample(r.duration, rate, mode) == Ok(res.value.duration)
  {
    var s :- Resample(r.start, rate, mode);
    var d :- Resample(r.duration, rate, mode);
    NewRange(Some(s), None, Some(d))
  }

  /** Resampling to the range's own rate and mode gives the range back. */
  lemma ResampleRangeIdentity(r: TimecodeRange)
    requires r.Valid()
    ensures ResampleRange(r, Some(r.Rate()), Some(r.Mode())) == Ok(r)
    ensures ResampleRange(r, None, None) == Ok(r)
  {
    ResampleIdentity(r.start, Some(r.Rate()), Some(r.Mode()));
    ResampleIdentity(r.duration, Some(r.Rate()), Some(r.Mode()));
    ResampleIdentity(r.start, None, None);
    ResampleIdentity(r.duration, None, None);
    NewRangeOk(Some(r.start), None, Some(r.duration));
  }

  /** A drop-frame range cannot be resampled to another rate or mode. */
  lemma ResampleRangeDropFrame(r: TimecodeRange, rate: int, mode: Mode)
    requires r.Valid() && (r.Mode() == DF || mode == DF)
    requires rate != 0 && (rate != r.Rate() || mode != r.Mode())
    ensures ResampleRange(r, Some(rate), Some(mode)) == Err(NotImplementedError)
  {
    ResampleDropFrame(r.start, rate, mode);
  }

  /** Resampling an NDF range to a multiple of its rate scales start, duration and end alike. */
  lemma ResampleRangeMultiple(r: TimecodeRange, k: int)
    requires r.Valid() && r.Mode() == NDF && k >= 2
    ensures ResampleRange(r, Some(k * r.Rate()), None)
      == Ok(TimecodeRange(Timecode(r.start.frameNumber * k, k * r.Rate(), NDF),
                          Timecode(r.duration.frameNumber * k, k * r.Rate(), NDF)))
  {
    ResampleRoundTrip(r.start, k);
    ResampleRoundTrip(r.duration, k);
    var s := Timecode(r.start.frameNumber * k, k * r.Rate(), NDF);
    var d := Timecode(r.duration.frameNumber * k, k * r.Rate(), NDF);
    MulAtLeast(k, r.Rate());
    assert d.frameNumber >= 1 by {
      MulAtLeast(r.duration.frameNumber, k);
      assert r.duration.frameNumber * k == k * r.duration.frameNumber;
    }
    NewRangeOk(Some(s), None, Some(d));
  }

  // ---------- Comparison and containment ----------

  /** `__eq__`: another range with an equal start and an equal duration; anything else is unequal. */
  function RangeEq(a: TimecodeRange, x: Item): (eq: bool)
    requires a.Valid() && x.Valid()
    ensures eq ==> x.RangeItem?
  {
    match x
    case RangeItem(o) => Eq(a.start, Tc(o.start)).value && Eq(a.duration, Tc(o.duration)).value
    case _ => false
  }

  /** Range equality is equality of the values, and equal ranges end together. */
  lemma RangeEqIsIdentity(a: TimecodeRange, b: TimecodeRange)
    requires a.Valid() && b.Valid()
    ensures RangeEq(a, RangeItem(b)) <==> a == b
    ensures RangeEq(a, RangeItem(b)) ==> End(a) == End(b)
  {
    EqIsIdentity(a.start, b.start);
    EqIsIdentity(a.duration, b.duration);
  }

  /** `__lt__`: ranges order by their starts; anything else is not less. */
  function RangeLt(a: TimecodeRange, x: Item): (lt: bool)
    requires a.Valid() && x.Valid()
    ensures lt <==> x.RangeItem? && LtTc(a.start, x.range.start)
  {
    match x
    case RangeItem(o) => Lt(a.start, Tc(o.start)).value
    case _ => false
  }

  /** `__gt__`: ranges order by their starts; anything else is not greater. */
  function RangeGt(a: TimecodeRange, x: Item): (gt: bool)
    requires a.Valid() && x.Valid()
    ensures gt <==> x.RangeItem? && LtTc(x.range.start, a.start)
  {
    LtIsLexicographic(a.start, if x.RangeItem? then x.range.start else a.start);
    match x
    case RangeItem(o) => Gt(a.start, Tc(o.start)).value
    case _ => false
  }

  /**
   * `__contains__`: a compatible range lies within when it starts no earlier and ends no
   * later; a compatible timecode lies within when it is between start and end, end included.
   */
  function Contains(r: TimecodeRange, x: Item): bool
    requires r.Valid() && x.Valid()
  {
    match x
    case RangeItem(o) =>
      if IsCompatible(r.start, o.start) then Le(r.start, Tc(o.start)).value && Ge(End(r), Tc(End(o))).value
      else false
    case TimecodeItem(t) =>
      if IsCompatible(r.start, t) then Le(r.start, Tc(t)).value && Le(t, Tc(End(r))).value
      else false
    case OtherItem => false
  }

  /** A compatible range is contained exactly when its frames lie within this range's frames. */
  lemma ContainsRange(r: TimecodeRange, o: TimecodeRange)
    requires r.Valid() && o.Valid()
    ensures Contains(r, RangeItem(o)) <==>
      && IsCompatible(r.start, o.start)
      && r.start.frameNumber <= o.start.frameNumber
      && End(o).frameNumber <= End(r).frameNumber
  {
    if IsCompatible(r.start, o.start) {
      LeGeCompatible(r.start, o.start);
      LeGeCompatible(End(r), End(o));
    }
  }

  /** A compatible timecode is contained exactly when it lies between start and end, end included. */
  lemma ContainsTimecode(r: TimecodeRange, t: Timecode)
    requires r.Valid() && t.Valid()
    ensures Contains(r, TimecodeItem(t)) <==>
      IsCompatible(r.start, t) && r.start.frameNumber <= t.frameNumber <= End(r).frameNumber
  {
    if IsCompatible(r.start, t) {
      LeGeCompatible(r.start, t);
      LeGeCompatible(t, End(r));
    }
  }

  /** Every range contains itself, its start and its end. */
  lemma ContainsReflexive(r: TimecodeRange)
    requires r.Valid()
    ensures Contains(r, RangeItem(r))
    ensures Contains(r, TimecodeItem(r.start)) && Contains(r, TimecodeItem(End(r)))
  {
    ContainsRange(r, r);
    ContainsTimecode(r, r.start);
    ContainsTimecode(r, End(r));
  }

  /** A range strictly inside another is contained in it, and the larger one is not contained in it. */
  lemma ContainsNested(small: TimecodeRange, large: TimecodeRange)
    requires small.Valid() && large.Valid() && IsCompatible(small.start, large.start)
    requires large.start.frameNumber < small.start.frameNumber && End(small).frameNumber < End(large).frameNumber
    ensures Contains(large, RangeItem(small))
    ensures !Contains(small, RangeItem(large))
  {
    ContainsRange(large, small);
    ContainsRange(small, large);
  }

  /** Containment of ranges is transitive. */
  lemma ContainsTransitive(a: TimecodeRange, b: TimecodeRange, c: TimecodeRange)
    requires a.Valid() && b.Valid() && c.Valid()
    requires Contains(a, RangeItem(b)) && Contains(b, RangeItem(c))
    ensures Contains(a, RangeItem(c))
  {
    ContainsRange(a, b);
    ContainsRange(b, c);
    ContainsRange(a, c);
  }

  /** A value of another rate or mode, or of another type, is never contained. */
  lemma ContainsIncompatible(r: TimecodeRange, x: Item)
    requires r.Valid() && x.Valid()
    requires x.OtherItem? || (x.TimecodeItem? && !IsCompatible(r.start, x.tc))
             || (x.RangeItem? && !IsCompatible(r.start, x.range.start))
    ensures !Contains(r, x)
  {
  }

  // ---------- Iteration ----------

  /** `__iter__`: one timecode per frame from the start up to, not including, the end. */
  method Iterate(r: TimecodeRange) returns (tcs: seq<Timecode>)
    requires r.Valid()
    ensures |tcs| == Len(r)
    ensures forall i :: 0 <= i < |tcs| ==> tcs[i] == Timecode(r.start.frameNumber + i, r.Rate(), r.Mode())
  {
    var e := End(r);
    tcs := [];
    for frame := r.start.frameNumber to e.frameNumber
      invariant |tcs| == frame - r.start.frameNumber
      invariant forall i :: 0 <= i < |tcs| ==> tcs[i] == Timecode(r.start.frameNumber + i, r.Rate(), r.Mode())
    {
      tcs := tcs + [Timecode(frame, r.Rate(), r.Mode())];
    }
  }

  /** Every timecode the iteration yields is contained in the range and comes before its end. */
  lemma IteratedContained(r: TimecodeRange, i: int)
    requires r.Valid() && 0 <= i < Len(r)
    ensures var t := Timecode(r.start.frameNumber + i, r.Rate(), r.Mode());
      t.Valid() && Contains(r, TimecodeItem(t)) && LtTc(t, End(r))
  {
    ContainsTimecode(r, Timecode(r.start.frameNumber + i, r.Rate(), r.Mode()));
  }
}
