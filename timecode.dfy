/**
 * The `Timecode` value of `posttools/timecode.py`: a frame number counted at an
 * integer frame rate in non-drop-frame (NDF) or drop-frame (DF) mode, how it is read
 * from `[+-]hh:mm:ss:ff` text and written back, resampled to another rate, combined
 * with other operands and compared.
 *
 * Python's exceptions are the `Err` cases of a `Result`; a Python `Timecode` object
 * has always passed `_validate`, which is `Timecode.Valid()` here.
 */
module Timecodes {
  import opened Results
  import opened Arith
  import opened Strings
  import DropFrame

  // ---------- Data model ----------

  /** `Timecode.Mode`, an `IntEnum` whose values order NDF before DF. */
  datatype Mode = NDF | DF {
    function Value(): int { if this == NDF then 1 else 2 }
  }

  /** Why `InvalidTimecode` was raised. */
  datatype InvalidReason =
    | BadFormat           // "Timecode string is formatted incorrectly"
    | RateNotPositive     // "Frame rate must be a positive number"
    | DropFrameRate       // "Drop-frame mode only valid for rates divisible by 30"
    | NotStringOrInteger  // "Timecode must be provided as a string or integer value"

  /** Why `IncompatibleTimecode` was raised (by `TimecodeRange`). */
  datatype IncompatibleReason =
    | RateOrModeMismatch  // "... must be of the same rate and mode"
    | EndDisagrees        // "End timecode does not agree with given start and duration"
    | NotAfterStart       // "End timecode must occur after start timecode"

  /** The exceptions the timecode code raises. */
  datatype Error =
    | InvalidTimecode(reason: InvalidReason)
    | IncompatibleTimecode(why: IncompatibleReason)
    | NotImplementedError
    | ZeroDivisionError
    | AttributeError
    | ValueError

  datatype Timecode = Timecode(frameNumber: int, rate: int, mode: Mode) {
    /** What `_validate` accepts: a positive rate, and a multiple of 30 in DF mode. */
    predicate Valid() { rate >= 1 && (mode == DF ==> rate % 30 == 0) }

    predicate IsNegative() { frameNumber < 0 }
  }

  /** The `timecode` argument of the constructor: an `int`, a `str`, or anything else. */
  datatype Source = FromInt(n: int) | FromString(s: string) | FromOther

  /** The right operand of an operator: a `Timecode`, or a value to coerce into one. */
  datatype Operand = Tc(tc: Timecode) | Raw(source: Source) {
    predicate Valid() { Tc? ==> tc.Valid() }
  }

  // ---------- Recognising timecode text ----------

  /** Python's `$` also matches just before one final newline. */
  function WithoutFinalNewline(s: string): (t: string)
    ensures t == s || (|s| > 0 && s[|s| - 1] == '\n' && t == s[..|s| - 1])
  {
    if |s| > 0 && s[|s| - 1] == '\n' then s[..|s| - 1] else s
  }

  /** What a successful match of `pat_tc` yields: whether group 1 is `-`, and group 2. */
  datatype Match = Match(negative: bool, body: string)

  /** Group 2 with `;` read as `:`, the leading separator stripped, split at separators. */
  function BodyGroups(body: string): (g: seq<string>)
    ensures |g| >= 1
  {
    if |body| > 0 && IsSep(body[0]) then Split(body[1..]) else Split(body)
  }

  /** Group 2 of the pattern: an optional separator, then 1 to 4 digit runs joined by single separators. */
  predicate WellFormedBody(body: string)
  {
    var g := BodyGroups(body);
    |body| > 0 && |g| <= 4 && DigitRuns(g)
  }

  /** `pat_tc.match(timecode)`: an optional sign, then a well-formed body, up to the end. */
  function Recognise(s: string): (r: Option<Match>)
    ensures r.Some? ==> WellFormedBody(r.value.body)
  {
    var t := WithoutFinalNewline(s);
    var signed := |t| > 0 && (t[0] == '+' || t[0] == '-');
    var body := if signed then t[1..] else t;
    if WellFormedBody(body) then Some(Match(signed && t[0] == '-', body)) else None
  }

  /** `[int(x) for x in ...split(':')]`: the values of the digit groups, highest order first. */
  function GroupValues(body: string): (v: seq<nat>)
    requires WellFormedBody(body)
    ensures |v| == |BodyGroups(body)| && 1 <= |v| <= 4
    ensures forall i :: 0 <= i < |v| ==> v[i] == DigitsValue(BodyGroups(body)[i])
  {
    var g := BodyGroups(body);
    seq(|g|, i requires 0 <= i < |g| => DigitsValue(g[i]))
  }

  // ---------- Text to frame number ----------

  /** The frames one unit of a group is worth while `k` groups remain: hours, minutes, seconds, frames. */
  function GroupWeight(k: nat, rate: int): int
  {
    if k == 4 then 60 * 60 * rate
    else if k == 3 then 60 * rate
    else if k == 2 then rate
    else 1
  }

  /** What the `while` loop of `_setFromString` adds up for the groups `g`. */
  function FrameCount(g: seq<nat>, rate: int): int
    requires |g| <= 4
  {
    if g == [] then 0 else g[0] * GroupWeight(|g|, rate) + FrameCount(g[1..], rate)
  }

  /** `_setFromString`: the frame count the text denotes at `rate`, or `InvalidTimecode`. */
  function ParseFrames(s: string, rate: int): (r: Result<int, Error>)
    ensures r.Err? <==> Recognise(s).None?
    ensures r.Err? ==> r.error == InvalidTimecode(BadFormat)
  {
    match Recognise(s)
    case None => Err(InvalidTimecode(BadFormat))
    case Some(m) =>
      var n := FrameCount(GroupValues(m.body), rate);
      Ok(if m.negative then -n else n)
  }

  /** `_setFromString` as written: pops the groups one by one, weighing each by how many remain. */
  method SetFromString(timecode: string, rate: int) returns (r: Result<int, Error>)
    ensures r == ParseFrames(timecode, rate)
  {
    var m := Recognise(timecode);
    if m.None? {
      return Err(InvalidTimecode(BadFormat));
    }
    var groups := GroupValues(m.value.body);
    var framenumber := 0;
    while |groups| > 0
      invariant |groups| <= 4
      invariant framenumber + FrameCount(groups, rate) == FrameCount(GroupValues(m.value.body), rate)
      decreases |groups|
    {
      if |groups| == 4 {
        framenumber := framenumber + groups[0] * 60 * 60 * rate;
      } else if |groups| == 3 {
        framenumber := framenumber + groups[0] * 60 * rate;
      } else if |groups| == 2 {
        framenumber := framenumber + groups[0] * rate;
      } else {
        framenumber := framenumber + groups[0];
      }
      groups := groups[1..];
    }
    if m.value.negative {
      framenumber := framenumber * -1;
    }
    return Ok(framenumber);
  }

  /**
   * The groups read right to left as frames, seconds, minutes and hours, missing
   * high-order groups counting as 0.
   */
  lemma {:induction false} FrameCountByFields(g: seq<nat>, rate: int)
    requires |g| <= 4
    ensures var p := seq(4 - |g|, _ => 0) + g;
      FrameCount(g, rate) == p[0] * (3600 * rate) + p[1] * (60 * rate) + p[2] * rate + p[3]
  {
    var p := seq(4 - |g|, _ => 0) + g;
    if |g| >= 1 {
      var t := g[|g| - 1..];
      assert FrameCount(t, rate) == g[|g| - 1] by {
        assert t[1..] == [];
      }
    }
    if |g| >= 2 {
      var t := g[|g| - 2..];
      assert t[1..] == g[|g| - 1..];
      assert FrameCount(t, rate) == g[|g| - 2] * rate + g[|g| - 1];
    }
    if |g| >= 3 {
      var t := g[|g| - 3..];
      assert t[1..] == g[|g| - 2..];
      assert FrameCount(t, rate) == g[|g| - 3] * (60 * rate) + g[|g| - 2] * rate + g[|g| - 1];
    }
    if |g| == 4 {
      assert g[1..] == g[|g| - 3..] && g[0..] == g;
      assert FrameCount(g, rate) == g[0] * (3600 * rate) + FrameCount(g[1..], rate);
    } else if |g| == 3 {
      assert g[0..] == g;
    } else if |g| == 2 {
      assert g[0..] == g;
    } else if |g| == 1 {
      assert g[0..] == g;
    }
  }

  // ---------- Construction ----------

  /** `_validate`: the rate check first, then the drop-frame check. */
  function ValidationError(rate: int, mode: Mode): (r: Option<Error>)
    ensures r.None? <==> Timecode(0, rate, mode).Valid()
  {
    if rate < 1 then Some(InvalidTimecode(RateNotPositive))
    else if mode == DF && rate % 30 != 0 then Some(InvalidTimecode(DropFrameRate))
    else None
  }

  /** The frame number `__init__` reads from its `timecode` argument. */
  function SourceFrames(source: Source, rate: int): Result<int, Error>
  {
    match source
    case FromString(s) => ParseFrames(s, rate)
    case FromInt(n) => Ok(n)
    case FromOther => Err(InvalidTimecode(NotStringOrInteger))
  }

  /** `Timecode(timecode, rate, mode)`: read the frame number, then validate. */
  function New(source: Source, rate: int, mode: Mode): (r: Result<Timecode, Error>)
    ensures r.Ok? ==> r.value.Valid() && r.value.rate == rate && r.value.mode == mode
    ensures r.Ok? <==> SourceFrames(source, rate).Ok? && Timecode(0, rate, mode).Valid()
    ensures r.Ok? ==> r.value.frameNumber == SourceFrames(source, rate).value
  {
    var n :- SourceFrames(source, rate);
    var t := Timecode(n, rate, mode);
    match ValidationError(rate, mode)
    case Some(e) => Err(e)
    case None => Ok(t)
  }

  /** `__init__` as written: set rate and mode, read the frame number, validate. */
  method Construct(source: Source, rate: int, mode: Mode) returns (r: Result<Timecode, Error>)
    ensures r == New(source, rate, mode)
  {
    var framenumber: int;
    match source {
      case FromString(s) =>
        var parsed := SetFromString(s, rate);
        if parsed.Err? {
          return Err(parsed.error);
        }
        framenumber := parsed.value;
      case FromInt(n) =>
        framenumber := n;
      case FromOther =>
        return Err(InvalidTimecode(NotStringOrInteger));
    }
    var check := ValidationError(rate, mode);
    if check.Some? {
      return Err(check.value);
    }
    return Ok(Timecode(framenumber, rate, mode));
  }

  /**
   * Construction fails in exactly four ways, reported in this order: an argument that is
   * neither text nor an integer or text that does not match the pattern, then a rate
   * below 1, then drop-frame at a rate not divisible by 30.
   */
  lemma NewFails(source: Source, rate: int, mode: Mode)
    ensures New(source, rate, mode).Err? <==>
      || source.FromOther?
      || (source.FromString? && Recognise(source.s).None?)
      || rate < 1
      || (mode == DF && rate % 30 != 0)
    ensures source.FromOther? ==> New(source, rate, mode) == Err(InvalidTimecode(NotStringOrInteger))
    ensures source.FromString? && Recognise(source.s).None? ==>
      New(source, rate, mode) == Err(InvalidTimecode(BadFormat))
    ensures (source.FromInt? || (source.FromString? && Recognise(source.s).Some?)) && rate < 1 ==>
      New(source, rate, mode) == Err(InvalidTimecode(RateNotPositive))
    ensures (source.FromInt? || (source.FromString? && Recognise(source.s).Some?)) && rate >= 1 && mode == DF && rate % 30 != 0 ==>
      New(source, rate, mode) == Err(InvalidTimecode(DropFrameRate))
  {
  }

  /** The mode never affects the frame count read from text. */
  lemma NewModeIndependent(s: string, rate: int)
    requires rate >= 1 && rate % 30 == 0 && Recognise(s).Some?
    ensures New(FromString(s), rate, NDF).Ok? && New(FromString(s), rate, DF).Ok?
    ensures New(FromString(s), rate, NDF).value.frameNumber == New(FromString(s), rate, DF).value.frameNumber
  {
  }

  // ---------- Drop-frame offset and label fields ----------

  /** `_df_offset(force_offset)`: the labels to skip, for negative frame numbers with the literal `rate // 30` term. */
  function DfOffset(tc: Timecode, forceOffset: bool := false): int
    requires tc.rate >= 1
  {
    if tc.mode != DF && !forceOffset then 0
    else
      var neg := if tc.IsNegative() then -1 else 1;
      DropFrame.Compensation(Abs(tc.frameNumber), tc.rate) * neg + (if tc.IsNegative() then tc.rate / 30 else 0)
  }

  /** `abs(framenumber) + df_offset`, the number every label field is computed from. */
  function LabelNumber(tc: Timecode): int
    requires tc.rate >= 1
  {
    Abs(tc.frameNumber) + DfOffset(tc)
  }

  /** The sign the `hours`, `minutes`, `seconds` and `frames` properties multiply by. */
  function Sign(tc: Timecode): int { if tc.IsNegative() then -1 else 1 }

  /** `frames`: the frame field, signed like the timecode. */
  function Frames(tc: Timecode): int
    requires tc.rate >= 1
  {
    (LabelNumber(tc) % tc.rate) * Sign(tc)
  }

  /** `seconds`: the seconds field, signed like the timecode. */
  function Seconds(tc: Timecode): int
    requires tc.rate >= 1
  {
    (LabelNumber(tc) / tc.rate % 60) * Sign(tc)
  }

  /** `minutes`: the minutes field, signed like the timecode. */
  function Minutes(tc: Timecode): int
    requires tc.rate >= 1
  {
    (LabelNumber(tc) / tc.rate / 60 % 60) * Sign(tc)
  }

  /** `hours`: the hours field, signed like the timecode; hours never roll over. */
  function Hours(tc: Timecode): int
    requires tc.rate >= 1
  {
    (LabelNumber(tc) / tc.rate / 60 / 60) * Sign(tc)
  }

  /** `sign`, four zero-padded fields and the separator before the frames. */
  function Label(negative: bool, h: nat, m: nat, s: nat, f: nat, sep: char): string
  {
    (if negative then "-" else "") + Pad2(h) + ":" + Pad2(m) + ":" + Pad2(s) + [sep] + Pad2(f)
  }

  /** `formatted` (and `__str__`): the label text, `;` before the frames in DF mode. */
  function Formatted(tc: Timecode): string
    requires tc.rate >= 1
  {
    Label(tc.IsNegative(), Abs(Hours(tc)), Abs(Minutes(tc)), Abs(Seconds(tc)),
          Abs(Frames(tc)), if tc.mode == DF then ';' else ':')
  }

  /** The offset is 0 in NDF mode unless forced. */
  lemma DfOffsetNdf(tc: Timecode)
    requires tc.rate >= 1 && tc.mode == NDF
    ensures DfOffset(tc) == 0 && LabelNumber(tc) == Abs(tc.frameNumber)
  {
  }

  /** In DF mode the first minute has no offset, and the first frame of minute one skips `2 * rate / 30` labels. */
  lemma DfOffsetFirstMinute(tc: Timecode)
    requires tc.rate >= 1 && tc.mode == DF && 0 <= tc.frameNumber <= 60 * tc.rate
    ensures tc.frameNumber < 60 * tc.rate ==> DfOffset(tc) == 0
    ensures tc.frameNumber == 60 * tc.rate ==> DfOffset(tc) == 2 * tc.rate / 30
  {
    if tc.frameNumber < 60 * tc.rate {
      DropFrame.CompensationZeroInFirstMinute(tc.frameNumber, tc.rate);
    } else {
      DropFrame.CompensationAtFirstDrop(tc.rate);
    }
  }

  /**
   * For non-negative DF timecodes the offset is the SMPTE drop-frame compensation: it never
   * decreases, label numbers strictly increase, and the labels skipped between two
   * consecutive frames are exactly the dropped ones.
   */
  lemma DfOffsetIsDropFrame(a: Timecode, b: Timecode)
    requires a.rate >= 1 && a.mode == DF && b.rate == a.rate && b.mode == DF
    requires 0 <= a.frameNumber <= b.frameNumber
    ensures DfOffset(a) == DropFrame.SmpteCompensation(a.frameNumber, a.rate)
    ensures DfOffset(a) <= DfOffset(b)
    ensures a.frameNumber < b.frameNumber ==> LabelNumber(a) < LabelNumber(b)
    ensures !DropFrame.IsDroppedLabel(LabelNumber(a), a.rate)
    ensures b.frameNumber == a.frameNumber + 1 ==>
      forall l :: LabelNumber(a) < l < LabelNumber(b) ==> DropFrame.IsDroppedLabel(l, a.rate)
  {
    DropFrame.CompensationMatchesSmpte(a.frameNumber, a.rate);
    DropFrame.CompensationMonotone(a.frameNumber, b.frameNumber, a.rate);
    DropFrame.LabelsSkipOnlyDropped(a.frameNumber, a.rate);
  }

  /** The label number is never negative, in either mode and for either sign. */
  lemma LabelNumberNonNegative(tc: Timecode)
    requires tc.rate >= 1
    ensures LabelNumber(tc) >= 0
  {
    if tc.mode == DF {
      DropFrame.CompensationAtMost(Abs(tc.frameNumber), tc.rate);
    }
  }

  /**
   * The four fields are a mixed-radix split of the label number: frames below the rate,
   * seconds and minutes below 60, all carrying the timecode's sign.
   */
  lemma FieldsDecompose(tc: Timecode)
    requires tc.rate >= 1
    ensures Abs(Frames(tc)) < tc.rate && Abs(Seconds(tc)) < 60 && Abs(Minutes(tc)) < 60
    ensures Abs(Hours(tc)) * (3600 * tc.rate) + Abs(Minutes(tc)) * (60 * tc.rate)
            + Abs(Seconds(tc)) * tc.rate + Abs(Frames(tc)) == LabelNumber(tc)
    ensures tc.IsNegative() ==> Hours(tc) <= 0 && Minutes(tc) <= 0 && Seconds(tc) <= 0 && Frames(tc) <= 0
    ensures !tc.IsNegative() ==> Hours(tc) >= 0 && Minutes(tc) >= 0 && Seconds(tc) >= 0 && Frames(tc) >= 0
  {
    LabelNumberNonNegative(tc);
    MixedRadix(LabelNumber(tc), tc.rate);
  }

  /** Seconds, minutes and hours split off a non-negative count of frames at `r` per second. */
  lemma MixedRadix(x: int, r: int)
    requires x >= 0 && r >= 1
    ensures x % r < r && x / r % 60 < 60 && x / r / 60 % 60 < 60
    ensures x / r >= 0 && x / r / 60 >= 0 && x / r / 60 / 60 >= 0
    ensures x / r / 60 / 60 * (3600 * r) + x / r / 60 % 60 * (60 * r) + x / r % 60 * r + x % r == x
  {
    var secs := x / r;
    var mins := secs / 60;
    var hrs := mins / 60;
    DivNonNegative(x, r);
    DivNonNegative(secs, 60);
    DivNonNegative(mins, 60);
    assert x == secs * r + x % r;
    assert secs == mins * 60 + secs % 60;
    assert mins == hrs * 60 + mins % 60;
    assert secs * r == mins * (60 * r) + (secs % 60) * r;
    assert mins * (60 * r) == hrs * (3600 * r) + (mins % 60) * (60 * r);
  }

  // ---------- Resampling ----------

  /** `resample(rate, mode)`: 0 or no rate and no mode keep the timecode's own. */
  function Resample(tc: Timecode, rate: Option<int>, mode: Option<Mode>): (r: Result<Timecode, Error>)
    requires tc.Valid()
    ensures r.Ok? ==> r.value.Valid()
  {
    var newRate := if rate.Some? && rate.value != 0 then rate.value else tc.rate;
    var newMode := if mode.Some? then mode.value else tc.mode;
    if newRate == tc.rate && newMode == tc.mode then Ok(tc)
    else if tc.mode == DF || newMode == DF then Err(NotImplementedError)
    else New(FromInt(RoundHalfEven(tc.frameNumber * newRate, tc.rate)), newRate, newMode)
  }

  /** Resampling to the timecode's own rate and mode, or with no arguments, returns it unchanged. */
  lemma ResampleIdentity(tc: Timecode, rate: Option<int>, mode: Option<Mode>)
    requires tc.Valid()
    requires rate == None || rate == Some(0) || rate == Some(tc.rate)
    requires mode == None || mode == Some(tc.mode)
    ensures Resample(tc, rate, mode) == Ok(tc)
  {
  }

  /** Any change of rate or mode that involves DF raises `NotImplementedError`. */
  lemma ResampleDropFrame(tc: Timecode, rate: int, mode: Mode)
    requires tc.Valid() && (tc.mode == DF || mode == DF)
    requires rate != 0 && (rate != tc.rate || mode != tc.mode)
    ensures Resample(tc, Some(rate), Some(mode)) == Err(NotImplementedError)
  {
  }

  /**
   * Between NDF rates the result is the nearest frame number at the new rate (ties to even),
   * and the resample fails only for a negative rate.
   */
  lemma ResampleNearest(tc: Timecode, rate: int)
    requires tc.Valid() && tc.mode == NDF && rate != 0 && rate != tc.rate
    ensures Resample(tc, Some(rate), None).Ok? <==> rate >= 1
    ensures rate < 1 ==> Resample(tc, Some(rate), None) == Err(InvalidTimecode(RateNotPositive))
    ensures Resample(tc, Some(rate), None).Ok? ==>
      var t := Resample(tc, Some(rate), None).value;
      && t.rate == rate && t.mode == NDF
      && 2 * Abs(tc.frameNumber * rate - t.frameNumber * tc.rate) <= tc.rate
      && (2 * Abs(tc.frameNumber * rate - t.frameNumber * tc.rate) == tc.rate ==> t.frameNumber % 2 == 0)
  {
  }

  /** Resampling to a multiple of the rate and back returns the original timecode. */
  lemma {:induction false} ResampleRoundTrip(tc: Timecode, k: int)
    requires tc.Valid() && tc.mode == NDF && k >= 2
    ensures var up := Resample(tc, Some(k * tc.rate), None);
      && up == Ok(Timecode(tc.frameNumber * k, k * tc.rate, NDF))
      && Resample(up.value, Some(tc.rate), None) == Ok(tc)
  {
    var r, n := tc.rate, tc.frameNumber;
    MulAtLeast(k, r);
    assert k * r != r by {
      MulLe(r, 2, k);
    }
    assert n * (k * r) == (n * k) * r;
    RoundHalfEvenExact(n * k, r);
    assert (n * k) * r == n * (k * r);
    RoundHalfEvenExact(n, k * r);
  }

  // ---------- Operands ----------

  /** `is_compatible`: the same rate and mode. */
  predicate IsCompatible(a: Timecode, b: Timecode)
  {
    a.mode == b.mode && a.rate == b.rate
  }

  /** `_cmp_normalize`: a timecode as it is; anything else read at this timecode's rate and mode. */
  function Normalize(self: Timecode, other: Operand): (r: Result<Timecode, Error>)
    requires self.Valid() && other.Valid()
    ensures r.Ok? ==> r.value.Valid()
    ensures other.Raw? && r.Ok? ==> IsCompatible(self, r.value)
  {
    match other
    case Tc(t) => Ok(t)
    case Raw(source) => New(source, self.rate, self.mode)
  }

  /** The right operand of `+ - * /`: normalised, then resampled to the left operand's rate and mode. */
  function Coerce(self: Timecode, other: Operand): (r: Result<Timecode, Error>)
    requires self.Valid() && other.Valid()
    ensures r.Ok? ==> r.value.Valid() && IsCompatible(self, r.value)
  {
    var t :- Normalize(self, other);
    Resample(t, Some(self.rate), Some(self.mode))
  }

  function Add(a: Timecode, b: Operand): (r: Result<Timecode, Error>)
    requires a.Valid() && b.Valid()
    ensures r.Ok? <==> Coerce(a, b).Ok?
    ensures r.Ok? ==> r.value == Timecode(a.frameNumber + Coerce(a, b).value.frameNumber, a.rate, a.mode)
  {
    var o :- Coerce(a, b);
    New(FromInt(a.frameNumber + o.frameNumber), a.rate, a.mode)
  }

  function Sub(a: Timecode, b: Operand): (r: Result<Timecode, Error>)
    requires a.Valid() && b.Valid()
    ensures r.Ok? <==> Coerce(a, b).Ok?
    ensures r.Ok? ==> r.value == Timecode(a.frameNumber - Coerce(a, b).value.frameNumber, a.rate, a.mode)
  {
    var o :- Coerce(a, b);
    New(FromInt(a.frameNumber - o.frameNumber), a.rate, a.mode)
  }

  function Mul(a: Timecode, b: Operand): (r: Result<Timecode, Error>)
    requires a.Valid() && b.Valid()
    ensures r.Ok? <==> Coerce(a, b).Ok?
    ensures r.Ok? ==> r.value == Timecode(a.frameNumber * Coerce(a, b).value.frameNumber, a.rate, a.mode)
  {
    var o :- Coerce(a, b);
    New(FromInt(a.frameNumber * o.frameNumber), a.rate, a.mode)
  }

  /** `round(n / d)` for the exact quotient, with either sign of divisor. */
  function RoundedQuotient(n: int, d: int): (q: int)
    requires d != 0
    ensures 2 * Abs(n - q * d) <= Abs(d)
  {
    if d > 0 then RoundHalfEven(n, d)
    else
      var q := RoundHalfEven(-n, -d);
      assert -n - q * -d == -(n - q * d);
      q
  }

  /** `__truediv__`: the rounded quotient, or `ZeroDivisionError` for a zero divisor. */
  function Div(a: Timecode, b: Operand): (r: Result<Timecode, Error>)
    requires a.Valid() && b.Valid()
    ensures r.Ok? <==> Coerce(a, b).Ok? && Coerce(a, b).value.frameNumber != 0
    ensures Coerce(a, b).Ok? && Coerce(a, b).value.frameNumber == 0 ==> r == Err(ZeroDivisionError)
    ensures r.Ok? ==>
      && r.value.rate == a.rate && r.value.mode == a.mode
      && 2 * Abs(a.frameNumber - r.value.frameNumber * Coerce(a, b).value.frameNumber)
         <= Abs(Coerce(a, b).value.frameNumber)
  {
    var o :- Coerce(a, b);
    if o.frameNumber == 0 then Err(ZeroDivisionError)
    else New(FromInt(RoundedQuotient(a.frameNumber, o.frameNumber)), a.rate, a.mode)
  }

  /** A timecode operand of the same rate and mode is used as it is. */
  lemma CoerceCompatible(a: Timecode, b: Timecode)
    requires a.Valid() && b.Valid() && IsCompatible(a, b)
    ensures Coerce(a, Tc(b)) == Ok(b)
  {
  }

  /** An `int` operand counts frames at the left operand's rate and mode. */
  lemma CoerceInt(a: Timecode, n: int)
    requires a.Valid()
    ensures Coerce(a, Raw(FromInt(n))) == Ok(Timecode(n, a.rate, a.mode))
  {
  }

  /** A text operand is parsed at the left operand's rate; malformed text raises `InvalidTimecode`. */
  lemma CoerceText(a: Timecode, s: string)
    requires a.Valid()
    ensures ParseFrames(s, a.rate).Ok? ==> Coerce(a, Raw(FromString(s))) == Ok(Timecode(ParseFrames(s, a.rate).value, a.rate, a.mode))
    ensures ParseFrames(s, a.rate).Err? ==> Coerce(a, Raw(FromString(s))) == Err(InvalidTimecode(BadFormat))
  {
  }

  /** A timecode at another NDF rate is converted to the left operand's rate first. */
  lemma CoerceResampled(a: Timecode, b: Timecode)
    requires a.Valid() && b.Valid() && a.mode == NDF && b.mode == NDF && a.rate != b.rate
    ensures Coerce(a, Tc(b)) == Ok(Timecode(RoundHalfEven(b.frameNumber * a.rate, b.rate), a.rate, NDF))
  {
  }

  /** Subtracting what was added gives back the left operand. */
  lemma SubUndoesAdd(a: Timecode, b: Timecode)
    requires a.Valid() && b.Valid() && IsCompatible(a, b)
    ensures Add(a, Tc(b)).Ok?
    ensures Sub(Add(a, Tc(b)).value, Tc(b)) == Ok(a)
  {
  }

  /** Dividing by what was multiplied gives back the left operand. */
  lemma DivUndoesMul(a: Timecode, n: int)
    requires a.Valid() && n != 0
    ensures Mul(a, Raw(FromInt(n))).Ok?
    ensures Div(Mul(a, Raw(FromInt(n))).value, Raw(FromInt(n))) == Ok(a)
  {
    var p := a.frameNumber * n;
    if n > 0 {
      RoundHalfEvenExact(a.frameNumber, n);
    } else {
      assert -p == a.frameNumber * -n;
      RoundHalfEvenExact(a.frameNumber, -n);
    }
    assert RoundedQuotient(p, n) == a.frameNumber;
  }

  // ---------- Equality and ordering ----------

  /** `__eq__`: the normalised operand has the same rate, mode and frame number. */
  function Eq(a: Timecode, b: Operand): (r: Result<bool, Error>)
    requires a.Valid() && b.Valid()
    ensures r.Ok? <==> Normalize(a, b).Ok?
    ensures r.Ok? ==> (r.value <==> Normalize(a, b).value == a)
  {
    var o :- Normalize(a, b);
    Ok(IsCompatible(a, o) && a.frameNumber == o.frameNumber)
  }

  /** `__ne__`, which Python derives from `__eq__`. */
  function Ne(a: Timecode, b: Operand): (r: Result<bool, Error>)
    requires a.Valid() && b.Valid()
    ensures r.Ok? <==> Eq(a, b).Ok?
    ensures r.Ok? ==> r.value == !Eq(a, b).value
  {
    var e :- Eq(a, b);
    Ok(!e)
  }

  /** Equality between timecodes is equality of the values: mode, rate and frame number. */
  lemma EqIsIdentity(a: Timecode, b: Timecode)
    requires a.Valid() && b.Valid()
    ensures Eq(a, Tc(b)) == Ok(a == b)
  {
  }

  /** A timecode equals an `int` when its frame number does. */
  lemma EqInt(a: Timecode, n: int)
    requires a.Valid()
    ensures Eq(a, Raw(FromInt(n))) == Ok(a.frameNumber == n)
  {
  }

  /** `<` between timecodes: mode first (NDF before DF), then rate, then frame number. */
  predicate LtTc(a: Timecode, b: Timecode)
  {
    if a.mode != b.mode then a.mode.Value() < b.mode.Value()
    else if a.rate != b.rate then a.rate < b.rate
    else a.frameNumber < b.frameNumber
  }

  /** `>` between timecodes, with the same precedence. */
  predicate GtTc(a: Timecode, b: Timecode)
  {
    if a.mode != b.mode then a.mode.Value() > b.mode.Value()
    else if a.rate != b.rate then a.rate > b.rate
    else a.frameNumber > b.frameNumber
  }

  /** `<=` as written: false when the left mode or the left rate is greater, each checked on its own. */
  predicate LeTc(a: Timecode, b: Timecode)
  {
    if a.mode.Value() > b.mode.Value() then false
    else if a.rate > b.rate then false
    else a.frameNumber <= b.frameNumber
  }

  /** `>=` as written: false when the left mode or the left rate is smaller, each checked on its own. */
  predicate GeTc(a: Timecode, b: Timecode)
  {
    if a.mode.Value() < b.mode.Value() then false
    else if a.rate < b.rate then false
    else a.frameNumber >= b.frameNumber
  }

  function Lt(a: Timecode, b: Operand): (r: Result<bool, Error>)
    requires a.Valid() && b.Valid()
    ensures r.Ok? <==> Normalize(a, b).Ok?
    ensures r.Ok? ==> r.value == LtTc(a, Normalize(a, b).value)
  {
    var o :- Normalize(a, b);
    Ok(LtTc(a, o))
  }

  function Gt(a: Timecode, b: Operand): (r: Result<bool, Error>)
    requires a.Valid() && b.Valid()
    ensures r.Ok? <==> Normalize(a, b).Ok?
    ensures r.Ok? ==> r.value == GtTc(a, Normalize(a, b).value)
  {
    var o :- Normalize(a, b);
    Ok(GtTc(a, o))
  }

  function Le(a: Timecode, b: Operand): (r: Result<bool, Error>)
    requires a.Valid() && b.Valid()
    ensures r.Ok? <==> Normalize(a, b).Ok?
    ensures r.Ok? ==> r.value == LeTc(a, Normalize(a, b).value)
  {
    var o :- Normalize(a, b);
    Ok(LeTc(a, o))
  }

  /** `__ge__` does not normalise: an operand that is not a timecode has no `_mode`. */
  function Ge(a: Timecode, b: Operand): (r: Result<bool, Error>)
    requires a.Valid() && b.Valid()
    ensures r.Ok? <==> b.Tc?
    ensures r.Err? ==> r.error == AttributeError
    ensures r.Ok? ==> r.value == GeTc(a, b.tc)
  {
    match b
    case Tc(o) => Ok(GeTc(a, o))
    case Raw(_) => Err(AttributeError)
  }

  /** The key `<` orders by, as the docstrings state the precedence. */
  function SortKey(t: Timecode): (int, int, int)
  {
    (t.mode.Value(), t.rate, t.frameNumber)
  }

  predicate KeyLess(x: (int, int, int), y: (int, int, int))
  {
    x.0 < y.0 || (x.0 == y.0 && (x.1 < y.1 || (x.1 == y.1 && x.2 < y.2)))
  }

  /** `<` is the lexicographic order on (mode, rate, frame number), and `>` is its converse. */
  lemma LtIsLexicographic(a: Timecode, b: Timecode)
    ensures LtTc(a, b) <==> KeyLess(SortKey(a), SortKey(b))
    ensures GtTc(a, b) <==> LtTc(b, a)
  {
  }

  /** `<` is a strict total order on timecodes, which sorting relies on. */
  lemma LtStrictTotalOrder(a: Timecode, b: Timecode, c: Timecode)
    ensures !LtTc(a, a)
    ensures LtTc(a, b) && LtTc(b, c) ==> LtTc(a, c)
    ensures LtTc(a, b) || a == b || LtTc(b, a)
    ensures LtTc(a, b) ==> !LtTc(b, a) && a != b
  {
  }

  /** Any NDF timecode sorts before any DF one, whatever their rates and frame numbers. */
  lemma ModePrecedence(a: Timecode, b: Timecode)
    requires a.mode == NDF && b.mode == DF
    ensures LtTc(a, b) && GtTc(b, a) && !LtTc(b, a)
  {
  }

  /** For the same rate and mode, `<=` and `>=` compare frame numbers and agree with `<` or `==`. */
  lemma LeGeCompatible(a: Timecode, b: Timecode)
    requires IsCompatible(a, b)
    ensures LeTc(a, b) <==> a.frameNumber <= b.frameNumber
    ensures GeTc(a, b) <==> a.frameNumber >= b.frameNumber
    ensures LeTc(a, b) <==> LtTc(a, b) || a == b
    ensures GeTc(a, b) <==> GtTc(a, b) || a == b
  {
  }
}
