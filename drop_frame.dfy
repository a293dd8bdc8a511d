/**
 * The drop-frame compensation computed by `Timecode._df_offset` for a non-negative
 * frame count, and what it guarantees: counting frames 0, 1, 2, ... it produces the
 * label numbers of SMPTE ST 12-1 drop-frame timecode, which leaves out the first
 * `2 * rate / 30` labels of every minute except the minutes divisible by ten.
 */
module DropFrame {
  import opened Arith

  /** Labels dropped at a dropping minute: 2 per 30 frames per second. */
  function DropOffset(rate: int): int { 2 * rate / 30 }

  /** Frames in a minute that drops nothing. */
  function FullMinute(rate: int): int { rate * 60 }

  /** Frames in a minute that drops `DropOffset(rate)` labels. */
  function DropMinute(rate: int): int { FullMinute(rate) - DropOffset(rate) }

  /** Frames in ten minutes: one full minute and nine dropping ones. */
  function DropSegment(rate: int): int { FullMinute(rate) + DropMinute(rate) * 9 }

  lemma Constants(rate: int)
    requires rate >= 1
    ensures 0 <= DropOffset(rate) < rate
    ensures DropMinute(rate) > 0 && DropMinute(rate) + DropOffset(rate) == FullMinute(rate)
    ensures DropSegment(rate) + 9 * DropOffset(rate) == 10 * FullMinute(rate)
    ensures FullMinute(rate) <= DropSegment(rate)
  {
  }

  /** The compensation for the frames past the last ten-minute boundary (`remaining_frames`). */
  function SegmentCompensation(remainingFrames: int, rate: int): int
    requires rate >= 1
  {
    Constants(rate);
    var remainingDropFrames := Max(remainingFrames - FullMinute(rate) + 1, 0);
    var dropMinutesElapsed := remainingDropFrames / DropMinute(rate);
    var remainder := if remainingDropFrames % DropMinute(rate) != 0 then DropOffset(rate) else 0;
    dropMinutesElapsed * DropOffset(rate) + remainder
  }

  /** The drop-frame offset `_df_offset` adds to a frame count `n >= 0` before splitting it into fields. */
  function Compensation(n: nat, rate: int): int
    requires rate >= 1
  {
    Constants(rate);
    var segmentsElapsed := n / DropSegment(rate);
    segmentsElapsed * (9 * DropOffset(rate)) + SegmentCompensation(n % DropSegment(rate), rate)
  }

  /** The label number frame `n` is shown with. */
  function LabelOf(n: nat, rate: int): int
    requires rate >= 1
  {
    n + Compensation(n, rate)
  }

  /**
   * A label whose minute is not divisible by ten, whose second is 0 and whose frame is
   * below the drop count: a label drop-frame counting leaves out. The fields are those
   * `Timecode.minutes`, `seconds` and `frames` compute from a label number.
   */
  predicate IsDroppedLabel(lab: int, rate: int)
    requires rate >= 1
  {
    (lab / rate / 60 % 60) % 10 != 0 && lab / rate % 60 == 0 && lab % rate < DropOffset(rate)
  }

  // ---------- The compensation inside one ten-minute segment ----------

  lemma SegmentCompensationClosedForm(rem: int, rate: int)
    requires rate >= 1 && 0 <= rem
    ensures rem < FullMinute(rate) ==> SegmentCompensation(rem, rate) == 0
    ensures rem >= FullMinute(rate) ==>
      SegmentCompensation(rem, rate) == DropOffset(rate) * ((rem - FullMinute(rate)) / DropMinute(rate) + 1)
  {
    Constants(rate);
    var F, d, dm := FullMinute(rate), DropOffset(rate), DropMinute(rate);
    if rem >= F {
      var x := rem - F;
      var k, y := x / dm, x % dm;
      assert x == k * dm + y;
      if y + 1 < dm {
        DivModUnique(x + 1, dm, k, y + 1);
      } else {
        assert x + 1 == (k + 1) * dm;
        DivModUnique(x + 1, dm, k + 1, 0);
        assert SegmentCompensation(rem, rate) == (k + 1) * d;
      }
    } else {
      DivModUnique(0, dm, 0, 0);
    }
  }

  /** Splitting a frame count at ten-minute boundaries. */
  lemma LabelInSegment(n: nat, rate: int)
    requires rate >= 1
    ensures LabelOf(n, rate) ==
      10 * FullMinute(rate) * (n / DropSegment(rate)) + n % DropSegment(rate)
      + SegmentCompensation(n % DropSegment(rate), rate)
  {
    Constants(rate);
    var S, d, F := DropSegment(rate), DropOffset(rate), FullMinute(rate);
    var q := n / S;
    assert n == q * S + n % S;
    assert q * S + q * (9 * d) == q * (10 * F) by {
      assert q * S + q * (9 * d) == q * (S + 9 * d);
    }
  }

  // ---------- A segment's labels over plain parameters ----------
  //
  // The lemmas below take the frames of a full minute `F`, the drop count `d` and the
  // frames of a dropping minute `dm` as plain integers, so that the solver reasons
  // about a linear relation between them instead of products of the rate.

  /**
   * The label of frame `rem` of a ten-minute segment: the first minute keeps its
   * labels, and frame `y` of dropping minute `k + 1` is label `y + d` of that minute.
   */
  function SegmentLabelOf(rem: int, F: int, d: int, dm: int): int
    requires dm > 0
  {
    if rem < F then rem else F * ((rem - F) / dm + 1) + ((rem - F) % dm + d)
  }

  /** The shape of the frames `x` past the first minute of a segment: `k` whole dropping minutes and `y` frames. */
  lemma DropMinutesShape(x: int, F: int, d: int, dm: int)
    requires dm > 0 && 0 <= x < 9 * dm && F == dm + d
    ensures 0 <= x / dm <= 8 && 0 <= x % dm < dm
    ensures F + x + d * (x / dm + 1) == F * (x / dm + 1) + (x % dm + d)
  {
    var k, y := x / dm, x % dm;
    assert x == k * dm + y;
    if k > 8 {
      MulLe(dm, 9, k);
    }
    assert k * dm + k * d == k * F;
  }

  /** Frame `rem` past the first minute: `k` whole dropping minutes and `y` frames, shifted by `k + 1` drops. */
  lemma SegmentParts(rem: int, F: int, d: int, dm: int) returns (k: int, y: int)
    requires dm > 0 && d >= 0 && F == dm + d && F <= rem < F + 9 * dm
    ensures 0 <= k <= 8 && 0 <= y < dm && rem == F + k * dm + y
    ensures SegmentLabelOf(rem, F, d, dm) == F * (k + 1) + (y + d)
    ensures SegmentLabelOf(rem, F, d, dm) == rem + d * (k + 1)
  {
    var x := rem - F;
    DropMinutesShape(x, F, d, dm);
    k, y := x / dm, x % dm;
    assert x == k * dm + y;
  }

  /** Label `m * F + f` has minute `m` and frame `f`. */
  lemma LabelMinuteFrame(l: int, F: int, d: int, m: int, f: int)
    requires F > 0 && 0 <= f < F && l == m * F + f && (f < d ==> m % 10 == 0)
    ensures l % F < d ==> (l / F) % 10 == 0
  {
    DivModUnique(l, F, m, f);
  }

  /** Minute `j` of segment `q` starts at label `(10 * q + j) * F`. */
  lemma SegmentStartMinute(F: int, q: int, j: int)
    ensures 10 * F * q + F * j == (10 * q + j) * F
  {
  }

  /** A label in the first minute of a segment lies in a minute divisible by ten; any other has frame at least `d`. */
  lemma SegmentLabelNotDropped(rem: int, F: int, d: int, dm: int, q: int)
    requires dm > 0 && d >= 0 && F == dm + d && 0 <= rem < F + 9 * dm
    ensures var l := 10 * F * q + SegmentLabelOf(rem, F, d, dm);
      l % F < d ==> (l / F) % 10 == 0
  {
    if rem < F {
      SegmentStartMinute(F, q, 0);
      DivAddMultiple(0, q, 10);
      LabelMinuteFrame(10 * F * q + SegmentLabelOf(rem, F, d, dm), F, d, 10 * q, rem);
    } else {
      var k, y := SegmentParts(rem, F, d, dm);
      SegmentStartMinute(F, q, k + 1);
      LabelMinuteFrame(10 * F * q + SegmentLabelOf(rem, F, d, dm), F, d, 10 * q + k + 1, y + d);
    }
  }

  /** A label `j` minutes into a segment, `0 < j < 10`, starts a minute not divisible by ten. */
  lemma MinuteStart(t: int, F: int, q: int, j: int)
    requires F > 0 && 1 <= j <= 9 && t == 10 * F * q + j * F
    ensures t % F == 0 && (t / F) % 10 != 0
  {
    assert t == (10 * q + j) * F + 0;
    DivModUnique(t, F, 10 * q + j, 0);
    DivAddMultiple(j, q, 10);
    DivModUnique(j, 10, 0, j);
  }

  /** Within a dropping minute the labels are consecutive. */
  lemma StepInsideDroppingMinute(x: int, F: int, d: int, dm: int)
    requires dm > 0 && d >= 0 && F == dm + d && 0 <= x && x + 1 < 9 * dm && x % dm + 1 < dm
    ensures SegmentLabelOf(F + x + 1, F, d, dm) == SegmentLabelOf(F + x, F, d, dm) + 1
  {
    var k, y := x / dm, x % dm;
    assert x == k * dm + y;
    DivModUnique(x + 1, dm, k, y + 1);
  }

  /** From the last frame of a dropping minute to the next one, `d` labels are left out. */
  lemma StepToNextDroppingMinute(x: int, F: int, d: int, dm: int) returns (j: int)
    requires dm > 0 && d >= 0 && F == dm + d && 0 <= x && x + 1 < 9 * dm && x % dm + 1 == dm
    ensures SegmentLabelOf(F + x + 1, F, d, dm) == SegmentLabelOf(F + x, F, d, dm) + 1 + d
    ensures 1 <= j <= 9 && SegmentLabelOf(F + x, F, d, dm) + 1 == j * F
  {
    var k, y := x / dm, x % dm;
    assert x == k * dm + y;
    DivModUnique(x + 1, dm, k + 1, 0);
    if k + 1 >= 9 {
      MulLe(dm, 9, k + 1);
    }
    j := k + 2;
    assert SegmentLabelOf(F + x, F, d, dm) == F * (k + 1) + (dm - 1 + d);
    assert SegmentLabelOf(F + x + 1, F, d, dm) == F * (k + 2) + d;
  }

  /** Inside a segment the next frame's label is one more, or `1 + d` more at the start of a dropping minute. */
  lemma SegmentLabelStep(rem: int, F: int, d: int, dm: int) returns (j: int)
    requires dm > 0 && d >= 0 && F == dm + d && 0 <= rem && rem + 1 < F + 9 * dm
    ensures || SegmentLabelOf(rem + 1, F, d, dm) == SegmentLabelOf(rem, F, d, dm) + 1
            || (&& SegmentLabelOf(rem + 1, F, d, dm) == SegmentLabelOf(rem, F, d, dm) + 1 + d
                && 1 <= j <= 9 && SegmentLabelOf(rem, F, d, dm) + 1 == j * F)
  {
    j := 1;
    if rem + 1 == F {
      DivModUnique(0, dm, 0, 0);
      assert SegmentLabelOf(rem + 1, F, d, dm) == F * 1 + d;
    } else if rem >= F {
      var x := rem - F;
      if x % dm + 1 < dm {
        StepInsideDroppingMinute(x, F, d, dm);
      } else {
        assert 0 <= x % dm < dm;
        j := StepToNextDroppingMinute(x, F, d, dm);
      }
    }
  }

  /** The last frame of a segment carries the last label of its ten minutes. */
  lemma SegmentLabelLast(F: int, d: int, dm: int)
    requires dm > 0 && d >= 0 && F == dm + d
    ensures SegmentLabelOf(F + 9 * dm - 1, F, d, dm) == 10 * F - 1
  {
    assert 9 * dm - 1 == 8 * dm + (dm - 1);
    DivModUnique(9 * dm - 1, dm, 8, dm - 1);
  }

  /** `k + 1` dropping minutes of `d` labels are at most 9 of them, and fewer than the frames counted. */
  lemma DropBoundsArith(k: int, y: int, d: int, dm: int)
    requires 0 <= k <= 8 && 0 <= y && 0 <= d <= dm
    ensures 0 <= d * (k + 1) <= 9 * d
    ensures d * (k + 1) <= (dm + d) + k * dm + y
  {
    MulLe(d, 0, k + 1);
    MulLe(d, k + 1, 9);
    MulLe(k, d, dm);
    assert d * (k + 1) == k * d + d;
  }

  /** The offset a segment adds is at most the frames it has counted. */
  lemma SegmentLabelBounds(rem: int, F: int, d: int, dm: int)
    requires dm > 0 && 0 <= d <= dm && F == dm + d && 0 <= rem < F + 9 * dm
    ensures 0 <= SegmentLabelOf(rem, F, d, dm) - rem <= 9 * d
    ensures SegmentLabelOf(rem, F, d, dm) - rem <= rem
  {
    if rem >= F {
      var k, y := SegmentParts(rem, F, d, dm);
      DropBoundsArith(k, y, d, dm);
    }
  }

  /** The label of frame `n` with segments of `S` frames, as `LabelOf` computes it. */
  function LabelFromParts(n: int, S: int, F: int, d: int, dm: int): int
    requires S > 0 && dm > 0
  {
    10 * F * (n / S) + SegmentLabelOf(n % S, F, d, dm)
  }

  lemma PartsStepInSegment(n: int, S: int, F: int, d: int, dm: int)
    requires dm > 0 && d >= 0 && F == dm + d && S == F + 9 * dm && n % S + 1 < S
    ensures || LabelFromParts(n + 1, S, F, d, dm) == LabelFromParts(n, S, F, d, dm) + 1
            || (&& LabelFromParts(n + 1, S, F, d, dm) == LabelFromParts(n, S, F, d, dm) + 1 + d
                && (LabelFromParts(n, S, F, d, dm) + 1) % F == 0
                && ((LabelFromParts(n, S, F, d, dm) + 1) / F) % 10 != 0)
  {
    var q, rem := n / S, n % S;
    DivModUnique(n + 1, S, q, rem + 1);
    var h, h' := SegmentLabelOf(rem, F, d, dm), SegmentLabelOf(rem + 1, F, d, dm);
    assert LabelFromParts(n, S, F, d, dm) == 10 * F * q + h;
    assert LabelFromParts(n + 1, S, F, d, dm) == 10 * F * q + h';
    var j := SegmentLabelStep(rem, F, d, dm);
    if h' != h + 1 {
      MinuteStart(10 * F * q + h + 1, F, q, j);
    }
  }

  lemma PartsStepAcrossSegments(n: int, S: int, F: int, d: int, dm: int)
    requires dm > 0 && d >= 0 && F == dm + d && S == F + 9 * dm && n % S + 1 == S
    ensures LabelFromParts(n + 1, S, F, d, dm) == LabelFromParts(n, S, F, d, dm) + 1
  {
    var q, rem := n / S, n % S;
    assert n == q * S + rem;
    DivModUnique(n + 1, S, q + 1, 0);
    SegmentLabelLast(F, d, dm);
    assert LabelFromParts(n, S, F, d, dm) == 10 * F * q + (10 * F - 1);
    assert LabelFromParts(n + 1, S, F, d, dm) == 10 * F * (q + 1) + 0;
    assert 10 * F * (q + 1) == 10 * F * q + 10 * F;
  }

  lemma PartsStep(n: int, S: int, F: int, d: int, dm: int)
    requires dm > 0 && d >= 0 && F == dm + d && S == F + 9 * dm
    ensures || LabelFromParts(n + 1, S, F, d, dm) == LabelFromParts(n, S, F, d, dm) + 1
            || (&& LabelFromParts(n + 1, S, F, d, dm) == LabelFromParts(n, S, F, d, dm) + 1 + d
                && (LabelFromParts(n, S, F, d, dm) + 1) % F == 0
                && ((LabelFromParts(n, S, F, d, dm) + 1) / F) % 10 != 0)
  {
    if n % S + 1 < S {
      PartsStepInSegment(n, S, F, d, dm);
    } else {
      PartsStepAcrossSegments(n, S, F, d, dm);
    }
  }

  lemma PartsBounds(n: int, S: int, F: int, d: int, dm: int)
    requires 0 <= n && dm > 0 && 0 <= d <= dm && F == dm + d && S == F + 9 * dm
    ensures 0 <= LabelFromParts(n, S, F, d, dm) - n <= n
  {
    var q, rem := n / S, n % S;
    var c := SegmentLabelOf(rem, F, d, dm) - rem;
    assert n == q * S + rem;
    DivNonNegative(n, S);
    SegmentLabelBounds(rem, F, d, dm);
    var T := 10 * F;
    assert LabelFromParts(n, S, F, d, dm) == T * q + (rem + c);
    assert T == S + 9 * d;
    assert T * q == S * q + (9 * d) * q;
    MulLe(q, 0, 9 * d);
    MulLe(q, 9 * d, S);
  }

  // ---------- The segment form of the compensation ----------

  /**
   * Within a segment, the first minute keeps its labels and every later minute `k + 1`
   * starts `DropOffset(rate)` labels late.
   */
  lemma SegmentLabel(rem: int, rate: int)
    requires rate >= 1 && 0 <= rem < DropSegment(rate)
    ensures rem + SegmentCompensation(rem, rate) ==
      SegmentLabelOf(rem, FullMinute(rate), DropOffset(rate), DropMinute(rate))
  {
    Constants(rate);
    SegmentCompensationClosedForm(rem, rate);
    if rem >= FullMinute(rate) {
      DropMinutesShape(rem - FullMinute(rate), FullMinute(rate), DropOffset(rate), DropMinute(rate));
    }
  }

  /** Frame `n`'s label: whole ten-minute segments, then its place inside the current one. */
  lemma LabelBySegment(n: nat, rate: int)
    requires rate >= 1
    ensures LabelOf(n, rate) == LabelFromParts(n, DropSegment(rate), FullMinute(rate), DropOffset(rate), DropMinute(rate))
  {
    Constants(rate);
    LabelInSegment(n, rate);
    SegmentLabel(n % DropSegment(rate), rate);
  }

  // ---------- Label numbers in minute terms ----------

  /** A dropped label, stated with the minute count `lab / FullMinute(rate)`. */
  predicate DroppedInMinutes(lab: int, rate: int)
    requires rate >= 1
  {
    (lab / FullMinute(rate)) % 10 != 0 && lab % FullMinute(rate) < DropOffset(rate)
  }

  lemma DroppedLabelInMinutes(lab: int, rate: int)
    requires rate >= 1
    ensures IsDroppedLabel(lab, rate) <==> DroppedInMinutes(lab, rate)
  {
    Constants(rate);
    var F, d := FullMinute(rate), DropOffset(rate);
    DivDiv(lab, rate, 60);
    var z := lab / F;
    assert z == 60 * (z / 60) + z % 60;
    DivAddMultiple(z % 60, 6 * (z / 60), 10);
    assert (z % 60) % 10 == z % 10;
    var m := lab % F;
    assert lab == rate * (60 * z) + m;
    DivAddMultiple(m, 60 * z, rate);
    assert lab % rate == m % rate;
    assert lab / rate % 60 == m / rate;
    if m < d {
      DivModUnique(m, rate, 0, m);
    } else if m / rate == 0 {
      assert m == rate * (m / rate) + m % rate;
    }
  }

  /** Frame `n` is shown with a label that is not dropped ... */
  lemma LabelNotDroppedInMinutes(n: nat, rate: int)
    requires rate >= 1
    ensures !DroppedInMinutes(LabelOf(n, rate), rate)
  {
    Constants(rate);
    LabelBySegment(n, rate);
    SegmentLabelNotDropped(n % DropSegment(rate), FullMinute(rate), DropOffset(rate), DropMinute(rate), n / DropSegment(rate));
  }

  /**
   * ... and the next frame's label either follows it directly, or follows it after a full
   * block of dropped labels: the first `DropOffset(rate)` labels of a minute not divisible by ten.
   */
  lemma LabelStep(n: nat, rate: int)
    requires rate >= 1
    ensures || LabelOf(n + 1, rate) == LabelOf(n, rate) + 1
            || (&& LabelOf(n + 1, rate) == LabelOf(n, rate) + 1 + DropOffset(rate)
                && (LabelOf(n, rate) + 1) % FullMinute(rate) == 0
                && ((LabelOf(n, rate) + 1) / FullMinute(rate)) % 10 != 0)
  {
    Constants(rate);
    LabelBySegment(n, rate);
    LabelBySegment(n + 1, rate);
    PartsStep(n, DropSegment(rate), FullMinute(rate), DropOffset(rate), DropMinute(rate));
  }

  // ---------- What the compensation guarantees ----------

  /** In the first minute nothing is dropped yet: the offset is 0. */
  lemma CompensationZeroInFirstMinute(n: nat, rate: int)
    requires rate >= 1 && n < FullMinute(rate)
    ensures Compensation(n, rate) == 0
  {
    Constants(rate);
    DivModUnique(n, DropSegment(rate), 0, n);
    SegmentCompensationClosedForm(n, rate);
  }

  /** At the first frame of minute one the offset is `2 * rate / 30`. */
  lemma CompensationAtFirstDrop(rate: int)
    requires rate >= 1
    ensures Compensation(FullMinute(rate), rate) == 2 * rate / 30
  {
    Constants(rate);
    var F := FullMinute(rate);
    if F < DropSegment(rate) {
      DivModUnique(F, DropSegment(rate), 0, F);
    } else {
      DivModUnique(F, DropSegment(rate), 1, 0);
    }
    SegmentCompensationClosedForm(F % DropSegment(rate), rate);
    DivModUnique(0, DropMinute(rate), 0, 0);
  }

  /**
   * The usual closed form of the SMPTE drop-frame rule: with D complete ten-minute
   * segments and M frames after them, the offset is 9 * drop * D, plus
   * drop * ((M - drop) / (frames in a dropping minute)) when M > drop.
   */
  function SmpteCompensation(n: nat, rate: int): int
    requires rate >= 1
  {
    Constants(rate);
    var d := DropOffset(rate);
    var D, M := n / DropSegment(rate), n % DropSegment(rate);
    9 * d * D + (if M > d then d * ((M - d) / DropMinute(rate)) else 0)
  }

  lemma CompensationMatchesSmpte(n: nat, rate: int)
    requires rate >= 1
    ensures Compensation(n, rate) == SmpteCompensation(n, rate)
  {
    Constants(rate);
    var F, d, dm := FullMinute(rate), DropOffset(rate), DropMinute(rate);
    var M := n % DropSegment(rate);
    SegmentCompensationClosedForm(M, rate);
    if M >= F {
      DivAddMultiple(M - F, 1, dm);
      assert M - d == (M - F) + 1 * dm;
    } else if M > d {
      DivModUnique(M - d, dm, 0, M - d);
    }
  }

  /** The offset never exceeds the frame count, so label numbers of negative timecodes stay non-negative. */
  lemma CompensationAtMost(n: nat, rate: int)
    requires rate >= 1
    ensures 0 <= Compensation(n, rate) <= n
  {
    Constants(rate);
    LabelBySegment(n, rate);
    PartsBounds(n, DropSegment(rate), FullMinute(rate), DropOffset(rate), DropMinute(rate));
  }

  /** Each frame adds 0 or `DropOffset(rate)` to the offset. */
  lemma CompensationStep(n: nat, rate: int)
    requires rate >= 1
    ensures Compensation(n + 1, rate) - Compensation(n, rate) in {0, DropOffset(rate)}
  {
    LabelStep(n, rate);
  }

  /** The offset never decreases and the label number strictly increases with the frame count. */
  lemma {:induction false} CompensationMonotone(a: nat, b: nat, rate: int)
    requires rate >= 1 && a <= b
    ensures Compensation(a, rate) <= Compensation(b, rate)
    ensures a < b ==> LabelOf(a, rate) < LabelOf(b, rate)
    decreases b - a
  {
    if a < b {
      CompensationStep(b - 1, rate);
      Constants(rate);
      CompensationMonotone(a, b - 1, rate);
    }
  }

  /**
   * Counting frames 0, 1, 2, ... enumerates exactly the labels drop-frame keeps, in order:
   * frame 0 is label 0, no frame gets a dropped label, and every label strictly between
   * two consecutive frames' labels is a dropped one.
   */
  lemma LabelsSkipOnlyDropped(n: nat, rate: int)
    requires rate >= 1
    ensures LabelOf(0, rate) == 0
    ensures !IsDroppedLabel(LabelOf(n, rate), rate)
    ensures LabelOf(n, rate) < LabelOf(n + 1, rate)
    ensures forall l :: LabelOf(n, rate) < l < LabelOf(n + 1, rate) ==> IsDroppedLabel(l, rate)
  {
    Constants(rate);
    CompensationZeroInFirstMinute(0, rate);
    LabelNotDroppedInMinutes(n, rate);
    DroppedLabelInMinutes(LabelOf(n, rate), rate);
    LabelStep(n, rate);
    forall lab | LabelOf(n, rate) < lab < LabelOf(n + 1, rate)
      ensures IsDroppedLabel(lab, rate)
    {
      DroppedInJump(LabelOf(n, rate), LabelOf(n + 1, rate), lab, rate);
    }
  }

  /** A label skipped by a jump over the head of a minute not divisible by ten is a dropped one. */
  lemma DroppedInJump(l: int, next: int, lab: int, rate: int)
    requires rate >= 1 && l < lab < next
    requires next == l + 1 + DropOffset(rate)
    requires (l + 1) % FullMinute(rate) == 0 && ((l + 1) / FullMinute(rate)) % 10 != 0
    ensures IsDroppedLabel(lab, rate)
  {
    Constants(rate);
    var F := FullMinute(rate);
    var minute := (l + 1) / F;
    assert l + 1 == minute * F;
    DivModUnique(lab, F, minute, lab - (l + 1));
    DroppedLabelInMinutes(lab, rate);
  }
}
