/**
 * Timecode text: the pattern `pat_tc` of `posttools/timecode.py` written as the regular
 * expression it is, checked against the hand recogniser `Recognise`, and the round trips
 * between `ParseFrames` and `Formatted`.
 */
module TimecodeText {
  import opened Results
  import opened Arith
  import opened Strings
  import opened Timecodes
  import DropFrame

  // ---------- The pattern as a regular expression ----------

  /** One repetition of `(?:[:;]?\d+)`. */
  predicate IsItem(w: string)
  {
    if |w| > 0 && IsSep(w[0]) then IsDigitRun(w[1..]) else IsDigitRun(w)
  }

  /** `(?:[:;]?\d+){1,n}` matches all of `w`: a first repetition, then at most `n - 1` more. */
  predicate Repeats(w: string, n: nat)
    decreases n
  {
    n >= 1 && exists i :: 0 < i <= |w| && IsItem(w[..i]) && (i == |w| || Repeats(w[i..], n - 1))
  }

  predicate IsSignChar(c: char) { c == '+' || c == '-' }

  /** `([\+\-])?((?:[:;]?\d+){1,4})` matches all of `t`. */
  predicate SignedMatch(t: string)
  {
    Repeats(t, 4) || (|t| > 0 && IsSignChar(t[0]) && Repeats(t[1..], 4))
  }

  /** `pat_tc.match(s)` succeeds: `$` matches at the end or before one final newline. */
  predicate PatternMatches(s: string)
  {
    SignedMatch(s) || (|s| > 0 && s[|s| - 1] == '\n' && SignedMatch(s[..|s| - 1]))
  }

  /** A digit run followed by a body that starts with a separator: the run is a group of its own. */
  lemma JoinAtSep(d: string, rest: string)
    requires IsDigitRun(d) && rest != [] && IsSep(rest[0])
    ensures Split(d + rest) == [d] + BodyGroups(rest)
  {
    assert d + rest == d + [rest[0]] + rest[1..];
    SplitAtSep(d, rest[0], rest[1..]);
  }

  /** A digit run followed by a body that starts with a digit: the run joins its first group. */
  lemma JoinAtDigit(d: string, rest: string)
    requires IsDigitRun(d) && rest != [] && !IsSep(rest[0])
    ensures Split(d + rest) == [d + BodyGroups(rest)[0]] + BodyGroups(rest)[1..]
  {
    SplitJoin(d, rest);
  }

  /** The digit run inside one repetition. */
  lemma ItemDigits(u: string) returns (lead: nat)
    requires IsItem(u)
    ensures lead <= 1 && lead < |u| && (lead == 1 <==> IsSep(u[0])) && IsDigitRun(u[lead..])
    ensures IsSep(u[0]) || IsDigit(u[0])
    ensures IsDigit(u[|u| - 1])
  {
    lead := if |u| > 0 && IsSep(u[0]) then 1 else 0;
    assert u[|u| - 1] == u[lead..][|u| - 1 - lead];
    assert lead == 0 ==> u[0] == u[lead..][0];
  }

  /** A single repetition is a body of one digit group. */
  lemma ItemAlone(u: string)
    requires IsItem(u)
    ensures |BodyGroups(u)| == 1 && DigitRuns(BodyGroups(u))
  {
    var lead := ItemDigits(u);
    var d := u[lead..];
    assert BodyGroups(u) == Split(d);
    SplitNoSep(d);
    DigitRunsCons(d, []);
  }

  /** A repetition in front of a well-formed body adds at most one group to it. */
  lemma ItemThenBody(u: string, rest: string)
    requires IsItem(u) && |rest| > 0 && (IsSep(rest[0]) || IsDigit(rest[0]))
    requires DigitRuns(BodyGroups(rest))
    ensures |BodyGroups(u + rest)| <= 1 + |BodyGroups(rest)| && DigitRuns(BodyGroups(u + rest))
  {
    var lead := ItemDigits(u);
    var d := u[lead..];
    var g := BodyGroups(rest);
    assert BodyGroups(u + rest) == Split(d + rest) by {
      assert (u + rest)[0] == u[0];
      assert (u + rest)[lead..] == d + rest;
    }
    if IsSep(rest[0]) {
      JoinAtSep(d, rest);
      DigitRunsCons(d, g);
    } else {
      JoinAtDigit(d, rest);
      assert [g[0]] + g[1..] == g;
      DigitRunsCons(g[0], g[1..]);
      DigitRunsCons(d + g[0], g[1..]);
    }
  }

  /** What the repetitions match is a well-formed body with at most `n` groups. */
  lemma {:induction false} RepeatsIsWellFormed(w: string, n: nat)
    requires Repeats(w, n)
    ensures |w| > 0 && (IsSep(w[0]) || IsDigit(w[0])) && IsDigit(w[|w| - 1])
    ensures |BodyGroups(w)| <= n && DigitRuns(BodyGroups(w))
    decreases n
  {
    var i :| 0 < i <= |w| && IsItem(w[..i]) && (i == |w| || Repeats(w[i..], n - 1));
    var u, rest := w[..i], w[i..];
    assert w == u + rest;
    var _ := ItemDigits(u);
    if i == |w| {
      assert u == w;
      ItemAlone(u);
    } else {
      RepeatsIsWellFormed(rest, n - 1);
      ItemThenBody(u, rest);
    }
  }

  /** The first piece of `c` runs up to its first separator; the other pieces follow that separator. */
  lemma FirstPiece(c: string) returns (j: nat)
    ensures j <= |c| && Split(c) == [c[..j]] + Split(c)[1..]
    ensures j < |c| ==> IsSep(c[j]) && Split(c)[1..] == Split(c[j + 1..])
    ensures j == |c| ==> |Split(c)| == 1
  {
    SplitFirst(c);
    j := SepIndex(c);
    if j == |c| {
      assert c[..j] == c;
    }
  }

  /** The first group of a well-formed body, with its optional separator, is one repetition. */
  lemma FirstItem(w: string) returns (k: nat)
    requires |w| > 0 && DigitRuns(BodyGroups(w))
    ensures 0 < k <= |w| && IsItem(w[..k])
    ensures k < |w| ==> |w[k..]| > 0 && BodyGroups(w[k..]) == BodyGroups(w)[1..]
    ensures k == |w| ==> |BodyGroups(w)| == 1
  {
    var lead := if IsSep(w[0]) then 1 else 0;
    var c := w[lead..];
    var j := FirstPiece(c);
    var groups := Split(c);
    assert groups == BodyGroups(w);
    DigitRunsCons(c[..j], groups[1..]);
    k := lead + j;
    assert w[..k][lead..] == c[..j];
    if j < |c| {
      assert w[k..] == [c[j]] + c[j + 1..];
    }
  }

  /** A well-formed body with at most `n` groups is matched by the repetitions. */
  lemma {:induction false} WellFormedRepeats(w: string, n: nat)
    requires |w| > 0 && |BodyGroups(w)| <= n && DigitRuns(BodyGroups(w))
    ensures Repeats(w, n)
    decreases |w|
  {
    var k := FirstItem(w);
    if k < |w| {
      var g := BodyGroups(w);
      assert DigitRuns(g[1..]) by {
        assert [g[0]] + g[1..] == g;
        DigitRunsCons(g[0], g[1..]);
      }
      WellFormedRepeats(w[k..], n - 1);
    }
    RepeatsIntro(w, n, k);
  }

  /** One repetition followed by at most `n - 1` more is at most `n` repetitions. */
  lemma RepeatsIntro(w: string, n: nat, k: nat)
    requires n >= 1 && 0 < k <= |w| && IsItem(w[..k]) && (k == |w| || Repeats(w[k..], n - 1))
    ensures Repeats(w, n)
  {
  }

  /** The hand recogniser accepts exactly the text the pattern matches (`\d` as ASCII digits), and reads the sign from group 1. */
  lemma RecogniseIsPattern(s: string)
    ensures Recognise(s).Some? <==> PatternMatches(s)
    ensures Recognise(s).Some? ==>
      var t := WithoutFinalNewline(s);
      Recognise(s).value.negative <==> t[0] == '-'
  {
    var t := WithoutFinalNewline(s);
    var signed := |t| > 0 && IsSignChar(t[0]);
    var body := if signed then t[1..] else t;
    if Recognise(s).Some? {
      WellFormedRepeats(body, 4);
      assert SignedMatch(t);
      assert t == s || t == s[..|s| - 1];
    }
    if PatternMatches(s) {
      if |s| > 0 && s[|s| - 1] == '\n' {
        if SignedMatch(s) {
          if Repeats(s, 4) {
            RepeatsIsWellFormed(s, 4);
          } else {
            RepeatsIsWellFormed(s[1..], 4);
          }
        }
        assert SignedMatch(t);
      }
      assert t == s || SignedMatch(t);
      assert SignedMatch(t);
      if Repeats(t, 4) {
        RepeatsIsWellFormed(t, 4);
        assert !signed;
      } else {
        RepeatsIsWellFormed(t[1..], 4);
      }
    }
  }

  // ---------- Reading a label ----------

  /** A digit run holds no separator. */
  lemma DigitRunNoSep(d: string)
    requires IsDigitRun(d)
    ensures NoSep(d) && !IsSep(d[0])
  {
  }

  /** The four fields of a label body are its four groups. */
  lemma LabelBodyGroups(ph: string, pm: string, ps: string, pf: string, sep: char)
    requires IsDigitRun(ph) && IsDigitRun(pm) && IsDigitRun(ps) && IsDigitRun(pf) && IsSep(sep)
    ensures BodyGroups(ph + ":" + pm + ":" + ps + [sep] + pf) == [ph, pm, ps, pf]
  {
    DigitRunNoSep(ph);
    DigitRunNoSep(pm);
    DigitRunNoSep(ps);
    DigitRunNoSep(pf);
    var tail := ps + [sep] + pf;
    var mid := pm + [':'] + tail;
    var body := ph + [':'] + mid;
    SplitNoSep(pf);
    SplitAtSep(ps, sep, pf);
    assert Split(tail) == [ps, pf];
    SplitAtSep(pm, ':', tail);
    assert Split(mid) == [pm, ps, pf];
    SplitAtSep(ph, ':', mid);
    assert Split(body) == [ph, pm, ps, pf];
    assert body[0] == ph[0];
    assert BodyGroups(body) == Split(body);
    assert ph + ":" + pm + ":" + ps + [sep] + pf == body;
  }

  /** A label is recognised, signed exactly when it starts with `-`. */
  lemma RecogniseLabel(negative: bool, h: nat, m: nat, s: nat, f: nat, sep: char)
    requires IsSep(sep)
    ensures Recognise(Label(negative, h, m, s, f, sep)) ==
      Some(Match(negative, Pad2(h) + ":" + Pad2(m) + ":" + Pad2(s) + [sep] + Pad2(f)))
  {
    var ph, pm, ps, pf := Pad2(h), Pad2(m), Pad2(s), Pad2(f);
    var body := ph + ":" + pm + ":" + ps + [sep] + pf;
    var text := Label(negative, h, m, s, f, sep);
    LabelBodyGroups(ph, pm, ps, pf, sep);
    assert WellFormedBody(body) by {
      var g := BodyGroups(body);
      assert g == [ph, pm, ps, pf];
      forall k | 0 <= k < |g|
        ensures IsDigitRun(g[k])
      {
      }
    }
    assert text == (if negative then "-" else "") + body;
    assert body[|body| - 1] == pf[|pf| - 1];
    var t := WithoutFinalNewline(text);
    assert t == text;
    assert IsDigit(body[0]) by {
      assert body[0] == ph[0];
    }
    var signed := |t| > 0 && (t[0] == '+' || t[0] == '-');
    assert signed == negative;
    var b := if signed then t[1..] else t;
    assert b == body;
  }

  /** A label is read back as the frame count its fields denote, with its sign. */
  lemma ParseLabel(negative: bool, h: nat, m: nat, s: nat, f: nat, sep: char, rate: int, n: int)
    requires IsSep(sep) && n == h * (3600 * rate) + m * (60 * rate) + s * rate + f
    ensures ParseFrames(Label(negative, h, m, s, f, sep), rate) == Ok(if negative then -n else n)
  {
    var body := Pad2(h) + ":" + Pad2(m) + ":" + Pad2(s) + [sep] + Pad2(f);
    RecogniseLabel(negative, h, m, s, f, sep);
    LabelBodyGroups(Pad2(h), Pad2(m), Pad2(s), Pad2(f), sep);
    var g := GroupValues(body);
    assert g == [h, m, s, f];
    FrameCountByFields(g, rate);
    assert seq(4 - |g|, _ => 0) + g == g;
  }

  /** Reading a formatted timecode back gives its label number, with the timecode's sign. */
  lemma ParseFormatted(tc: Timecode)
    requires tc.rate >= 1
    ensures ParseFrames(Formatted(tc), tc.rate) == Ok(Sign(tc) * LabelNumber(tc))
  {
    var x := LabelNumber(tc);
    var h, m, s, f := Abs(Hours(tc)), Abs(Minutes(tc)), Abs(Seconds(tc)), Abs(Frames(tc));
    var sep := if tc.mode == DF then ';' else ':';
    FieldsDecompose(tc);
    assert Formatted(tc) == Label(tc.IsNegative(), h, m, s, f, sep);
    ParseLabel(tc.IsNegative(), h, m, s, f, sep, tc.rate, x);
    assert Sign(tc) * x == if tc.IsNegative() then -x else x;
  }

  /** In NDF mode formatting then parsing gives back the frame number. */
  lemma ParseFormattedNdf(tc: Timecode)
    requires tc.rate >= 1 && tc.mode == NDF
    ensures ParseFrames(Formatted(tc), tc.rate) == Ok(tc.frameNumber)
    ensures New(FromString(Formatted(tc)), tc.rate, NDF) == Ok(tc)
  {
    ParseFormatted(tc);
    DfOffsetNdf(tc);
    assert Sign(tc) * LabelNumber(tc) == tc.frameNumber;
  }

  // ---------- Writing a label ----------

  /** A label as `formatted` writes it: minutes and seconds below 60, frames below the rate, no `-00:00:00:00`. */
  predicate CanonicalLabel(negative: bool, h: nat, m: nat, s: nat, f: nat, rate: int)
  {
    m < 60 && s < 60 && f < rate && !(negative && h == 0 && m == 0 && s == 0 && f == 0)
  }

  /** The fields of a label number are unique: splitting `h, m, s, f` back off gives the same fields. */
  lemma FieldsUnique(h: nat, m: nat, s: nat, f: nat, r: int)
    requires r >= 1 && m < 60 && s < 60 && f < r
    ensures var x := h * (3600 * r) + m * (60 * r) + s * r + f;
      x % r == f && x / r % 60 == s && x / r / 60 % 60 == m && x / r / 60 / 60 == h
  {
    var x := h * (3600 * r) + m * (60 * r) + s * r + f;
    var secs := h * 3600 + m * 60 + s;
    assert x == secs * r + f;
    DivModUnique(x, r, secs, f);
    var mins := h * 60 + m;
    assert secs == mins * 60 + s;
    DivModUnique(secs, 60, mins, s);
    DivModUnique(mins, 60, h, m);
  }

  /** A timecode whose label number has the fields `h, m, s, f` is written with those fields. */
  lemma FormattedFields(tc: Timecode, h: nat, m: nat, s: nat, f: nat)
    requires tc.rate >= 1 && m < 60 && s < 60 && f < tc.rate
    requires LabelNumber(tc) == h * (3600 * tc.rate) + m * (60 * tc.rate) + s * tc.rate + f
    ensures Formatted(tc) == Label(tc.IsNegative(), h, m, s, f, if tc.mode == DF then ';' else ':')
  {
    var x, r := LabelNumber(tc), tc.rate;
    FieldsUnique(h, m, s, f, r);
    assert x % r == f && x / r % 60 == s && x / r / 60 % 60 == m && x / r / 60 / 60 == h;
    assert Abs(Frames(tc)) == f && Abs(Seconds(tc)) == s && Abs(Minutes(tc)) == m && Abs(Hours(tc)) == h;
  }

  /** Fields denote a non-negative frame count, and 0 frames only when they are all 0. */
  lemma FieldsTotal(h: nat, m: nat, s: nat, f: nat, r: int)
    requires r >= 1
    ensures h * (3600 * r) + m * (60 * r) + s * r + f >= 0
    ensures h * (3600 * r) + m * (60 * r) + s * r + f == 0 ==> h == 0 && m == 0 && s == 0 && f == 0
  {
    MulLe(h, 0, 3600 * r);
    MulLe(m, 0, 60 * r);
    MulLe(s, 0, r);
    if h != 0 { MulAtLeast(h, 3600 * r); }
    if m != 0 { MulAtLeast(m, 60 * r); }
    if s != 0 { MulAtLeast(s, r); }
  }

  /** In NDF mode a canonical label is read and written back unchanged. */
  lemma FormatParsedNdf(negative: bool, h: nat, m: nat, s: nat, f: nat, rate: int)
    requires rate >= 1 && CanonicalLabel(negative, h, m, s, f, rate)
    ensures New(FromString(Label(negative, h, m, s, f, ':')), rate, NDF).Ok?
    ensures Formatted(New(FromString(Label(negative, h, m, s, f, ':')), rate, NDF).value) == Label(negative, h, m, s, f, ':')
  {
    var n := h * (3600 * rate) + m * (60 * rate) + s * rate + f;
    ParseLabel(negative, h, m, s, f, ':', rate, n);
    FieldsTotal(h, m, s, f, rate);
    var tc := Timecode(if negative then -n else n, rate, NDF);
    assert New(FromString(Label(negative, h, m, s, f, ':')), rate, NDF) == Ok(tc);
    DfOffsetNdf(tc);
    assert tc.IsNegative() == negative;
    FormattedFields(tc, h, m, s, f);
  }

  /** A frame count in the first minute is `s` seconds and `f` frames. */
  lemma FirstMinuteFields(n: int, rate: int)
    requires rate >= 1 && 0 <= n < 60 * rate
    ensures 0 <= n / rate < 60 && n == 0 * (3600 * rate) + 0 * (60 * rate) + n / rate * rate + n % rate
  {
    var s := n / rate;
    assert n == s * rate + n % rate;
    DivNonNegative(n, rate);
    if s >= 60 {
      MulLe(rate, 60, s);
    }
  }

  /** A non-negative timecode in its first minute whose label number is its frame number. */
  lemma FirstMinuteFormatted(tc: Timecode)
    requires tc.rate >= 1 && 0 <= tc.frameNumber < 60 * tc.rate && LabelNumber(tc) == tc.frameNumber
    ensures Formatted(tc) == Label(false, 0, 0, tc.frameNumber / tc.rate, tc.frameNumber % tc.rate,
                                   if tc.mode == DF then ';' else ':')
  {
    FirstMinuteFields(tc.frameNumber, tc.rate);
    FormattedFields(tc, 0, 0, tc.frameNumber / tc.rate, tc.frameNumber % tc.rate);
  }

  /** In the first minute a DF label shows the NDF fields, with `;` before the frames. */
  lemma FirstMinuteDropFrame(n: int, rate: int)
    requires rate >= 1 && 0 <= n < 60 * rate
    ensures Formatted(Timecode(n, rate, NDF)) == Label(false, 0, 0, n / rate, n % rate, ':')
    ensures Formatted(Timecode(n, rate, DF)) == Label(false, 0, 0, n / rate, n % rate, ';')
  {
    var ndf, df := Timecode(n, rate, NDF), Timecode(n, rate, DF);
    DfOffsetNdf(ndf);
    FirstMinuteFormatted(ndf);
    assert Formatted(ndf) == Label(false, 0, 0, n / rate, n % rate, ':');
    DfOffsetFirstMinute(df);
    FirstMinuteFormatted(df);
    assert Formatted(df) == Label(false, 0, 0, n / rate, n % rate, ';');
  }

  // ---------- Examples ----------

  /** "01:00:00:00" at 24 fps is frame 86400, and 86400 is written "01:00:00:00". */
  lemma ExampleOneHour()
    ensures ParseFrames("01:00:00:00", 24) == Ok(86400)
    ensures Formatted(Timecode(86400, 24, NDF)) == "01:00:00:00"
  {
    assert Label(false, 1, 0, 0, 0, ':') == "01:00:00:00";
    ParseLabel(false, 1, 0, 0, 0, ':', 24, 86400);
    FormatParsedNdf(false, 1, 0, 0, 0, 24);
  }

  /** Frame -1 at 24 fps is written "-00:00:00:01". */
  lemma ExampleMinusOne()
    ensures Formatted(Timecode(-1, 24, NDF)) == "-00:00:00:01"
  {
    assert Label(true, 0, 0, 0, 1, ':') == "-00:00:00:01";
    ParseLabel(true, 0, 0, 0, 1, ':', 24, 1);
    FormatParsedNdf(true, 0, 0, 0, 1, 24);
  }

  /** In DF mode "01:00:00;00" at 30 fps reads as frame 108000: reading never compensates. */
  lemma ExampleDropFrameText()
    ensures New(FromString("01:00:00;00"), 30, DF) == Ok(Timecode(108000, 30, DF))
  {
    assert Label(false, 1, 0, 0, 0, ';') == "01:00:00;00";
    ParseLabel(false, 1, 0, 0, 0, ';', 30, 108000);
  }

  /** A lone leading separator is allowed: ":15" is 15 frames. */
  lemma ExampleLeadingSeparator()
    ensures ParseFrames(":15", 15) == Ok(15)
  {
    var body := ":15";
    SplitNoSep("15");
    assert body[1..] == "15";
    assert BodyGroups(body) == ["15"];
    assert DigitsValue("15") == 15 by {
      assert "15"[..1] == "1";
      assert "1"[..0] == [];
    }
    assert Recognise(body) == Some(Match(false, body));
    assert GroupValues(body) == [15];
  }

  /** Frame 1800 at 30 fps DF is the first frame of minute one, written "00:01:00;02". */
  lemma ExampleFirstDrop()
    ensures Formatted(Timecode(1800, 30, DF)) == "00:01:00;02"
  {
    var tc := Timecode(1800, 30, DF);
    DfOffsetFirstMinute(tc);
    assert LabelNumber(tc) == 0 * (3600 * 30) + 1 * (60 * 30) + 0 * 30 + 2;
    FormattedFields(tc, 0, 1, 0, 2);
    assert Label(false, 0, 1, 0, 2, ';') == "00:01:00;02";
  }


  /** "00:01:00;02" at 30 fps DF reads as frame 1802, two frames past the first frame of minute one. */
  lemma ExampleDropFrameRead()
    ensures New(FromString("00:01:00;02"), 30, DF) == Ok(Timecode(1802, 30, DF))
  {
    assert Label(false, 0, 1, 0, 2, ';') == "00:01:00;02";
    ParseLabel(false, 0, 1, 0, 2, ';', 30, 1802);
  }

  /** Frame 1802 at 30 fps DF is shifted by the two dropped labels of minute one. */
  lemma CompensationAt1802()
    ensures DropFrame.Compensation(1802, 30) == 2
  {
    DropFrame.SegmentCompensationClosedForm(1802, 30);
    assert DropFrame.SegmentCompensation(1802, 30) == 2;
  }

  /**
   * Reading does not compensate but writing does, so a label is not read back as itself:
   * frame 1802, read from "00:01:00;02", is written "00:01:00;04".
   */
  lemma ExampleDropFrameShift()
    ensures Formatted(Timecode(1802, 30, DF)) == "00:01:00;04"
  {
    var tc := Timecode(1802, 30, DF);
    CompensationAt1802();
    assert LabelNumber(tc) == 0 * (3600 * 30) + 1 * (60 * 30) + 0 * 30 + 4;
    FormattedFields(tc, 0, 1, 0, 4);
    assert Label(false, 0, 1, 0, 4, ';') == "00:01:00;04";
  }

  /** Six ten-minute segments at 30 fps DF drop 108 labels. */
  lemma CompensationAtOneHour()
    ensures DropFrame.Compensation(108000, 30) == 108
  {
    DropFrame.SegmentCompensationClosedForm(108, 30);
    assert DropFrame.DropSegment(30) == 17982;
  }

  /** Frame 108000 at 30 fps DF, read from "01:00:00;00", is shifted by 108 labels and written "01:00:03;18". */
  lemma ExampleDropFrameOneHour()
    ensures Formatted(Timecode(108000, 30, DF)) == "01:00:03;18"
  {
    var tc := Timecode(108000, 30, DF);
    CompensationAtOneHour();
    assert LabelNumber(tc) == 1 * (3600 * 30) + 0 * (60 * 30) + 3 * 30 + 18;
    FormattedFields(tc, 1, 0, 3, 18);
    assert Label(false, 1, 0, 3, 18, ';') == "01:00:03;18";
  }
}
