# posttools timecodes and EDL headers, in Dafny

This project models the core of `posttools`, a Python library for post-production
timecodes and CMX3600 Edit Decision Lists, and proves properties of that model.

- `Timecode` (`posttools/timecode.py`) is a signed frame number at an integer frame rate,
  counted in non-drop-frame (NDF) or drop-frame (DF) mode. It is read from
  `[+-]hh:mm:ss:ff` text, written back with the drop-frame compensation of `_df_offset`,
  resampled to another rate, combined with `+ - * /` and compared.
- `TimecodeRange` is built from two of start, end and duration. It answers `in`, compares
  by its start, resamples, and iterates over its frames.
- `Edl` (`posttools/edl.py`) holds a title, a frame counting mode (`Fcm`) and a list of
  events. `from_file` reads the `TITLE:` and `FCM:` header lines. `write` prints them back,
  and the `title` setter validates a new title.

Python exceptions are the `Err` cases of a `Result`. A Python `Timecode` object has always
passed `_validate`, and that is `Timecode.Valid()` here.

Files and modules:

- `results.dfy` (`Results`): `Option` and `Result`.
- `arith.dfy` (`Arith`): Euclidean division facts, and Python's `round` of an exact
  quotient, which rounds half to even.
- `strings.dfy` (`Strings`): digits, splitting at `:`/`;`, and ASCII `lower`, `strip` and
  `splitlines`.
- `timecode.dfy` (`Timecodes`): the `Timecode` value and its operations. `_setFromString`
  is a method with a `while` loop, and `__init__` a method that calls it. Each is proved
  equal to a reference function.
- `drop_frame.dfy` (`DropFrame`): the `_df_offset` compensation for non-negative frame
  counts, proved to be the SMPTE ST 12-1 drop-frame count.
- `timecode_text.dfy` (`TimecodeText`): the hand-written recogniser, proved equal to an
  ASCII-digit reading of the pattern `^([\+\-])?((?:[:;]?\d+){1,4})$` (`\d` taken as
  `0`-`9`), and the round trips between text and frames.
- `timecode_range.dfy` (`TimecodeRanges`): `TimecodeRange`. `__iter__` is a method with
  a loop.
- `edl.dfy` (`Edls`): `Fcm`, the header parsers, the `from_file` loop, and the `Edl` class
  with its `title`, `fcm` and `events` fields.

Where the code and its own tests (`tests_timecode.py`) disagree, the model follows the code:

- Text is read without any drop-frame compensation. `tests_timecode.py:37-39` expects
  `00:01:00;00`, `00:01:00;01` and `00:01:00;02` at 30 fps DF all to be written
  `00:01:00;02`. In the code, `00:01:00;00` is frame 1800, written `00:01:00;02`
  (`ExampleFirstDrop`), but `00:01:00;02` is frame 1802, written `00:01:00;04`
  (`ExampleDropFrameRead`, `ExampleDropFrameShift`).
- For the same reason the DF round trips of `tests_timecode.py:43`, `47` and `49` are not
  claimed. `01:00:00;00` at 30 fps DF is frame 108000 (`ExampleDropFrameText`), which is
  written `01:00:03;18` (`ExampleDropFrameOneHour`).
- `tests_timecode.py:145` compares a DF timecode with the integer 108000 and marks it as
  resting on the DF text-to-frame arithmetic. The model keeps the code's rule: equality
  against an `int` compares frame numbers at the left operand's rate and mode (`EqInt`).
- For negative DF frame numbers, `_df_offset` negates the compensation of `abs(n)` and
  adds `rate // 30` (`timecode.py:117`). The model keeps this formula as written and
  proves the SMPTE properties only for `n >= 0`.
- `__ge__` does not call `_cmp_normalize`. Against an `int` or `str` it fails on
  `other._mode` (`Ge` returns `AttributeError`), where `__le__` coerces the operand.
- `__le__` and `__ge__` test the mode and the rate each on their own, so they are not
  the lexicographic order that `__lt__` and `__gt__` use. They agree with `<` and `==`
  only for compatible timecodes (`LeGeCompatible`).

## Model

| member | source | states |
|---|---|---|
| Timecodes.WithoutFinalNewline | posttools/timecode.py:12 | Python's `$` also matches before one final newline: the text is unchanged, or loses exactly one trailing `\n` |
| Timecodes.Recognise | posttools/timecode.py:49-53 | a successful match has a well-formed group 2: 1 to 4 digit runs joined by single separators, with an optional leading one |
| TimecodeText.RecogniseIsPattern | posttools/timecode.py:12 | the hand recogniser accepts exactly the strings `pat_tc` matches, and reports a negative sign exactly when group 1 is `-` |
| TimecodeText.RepeatsIsWellFormed | posttools/timecode.py:12 | whatever `(?:[:;]?\d+){1,n}` matches splits into at most `n` digit groups |
| TimecodeText.WellFormedRepeats | posttools/timecode.py:12 | a body of at most `n` digit groups is matched by `(?:[:;]?\d+){1,n}` |
| Timecodes.GroupValues | posttools/timecode.py:54 | one integer per group of `replace(';',':').strip(':').split(':')`, each the decimal value of its digits, 1 to 4 of them |
| Strings.SplitNoSep | posttools/timecode.py:54 | text without a separator is one piece |
| Strings.SplitAtSep | posttools/timecode.py:54 | a separator ends the first piece, and the rest is split on its own |
| Strings.SplitJoin | posttools/timecode.py:54 | text without a separator in front of more text joins the first piece of that text |
| Timecodes.ParseFrames | posttools/timecode.py:45-73 | text fails with `InvalidTimecode` exactly when the pattern does not match |
| Timecodes.SetFromString | posttools/timecode.py:45-73 | the `while` loop that pops groups and weighs each by how many remain computes `ParseFrames`, the sign applied last |
| Timecodes.FrameCountByFields | posttools/timecode.py:57-69 | the groups are read right to left as frames, seconds, minutes and hours, and missing high-order groups count as 0 |
| Timecodes.ValidationError | posttools/timecode.py:75-84 | `_validate` passes exactly when the rate is at least 1 and a DF rate is divisible by 30 |
| Timecodes.New | posttools/timecode.py:19-42 | construction succeeds exactly when the frame number can be read and the rate and mode are valid, and keeps the given rate and mode |
| Timecodes.Construct | posttools/timecode.py:19-42 | `__init__` as a method: reads the frame number, then validates, and agrees with `New` |
| Timecodes.NewFails | posttools/timecode.py:28-84 | construction fails in exactly four ways, reported in source order: an argument that is neither `int` nor `str` or unmatched text, then a rate below 1, then DF at a rate not divisible by 30; each with its own `InvalidTimecode` reason |
| Timecodes.NewModeIndependent | posttools/timecode.py:28-30 | the mode never changes the frame number read from text |
| Timecodes.DfOffsetNdf | posttools/timecode.py:89-90 | in NDF mode the offset is 0 and the label number is `abs(framenumber)` |
| Timecodes.DfOffsetFirstMinute | posttools/timecode.py:97-117 | in DF mode the first minute has no offset, and frame `60 * rate` skips `2 * rate // 30` labels |
| Timecodes.DfOffsetIsDropFrame | posttools/timecode.py:86-117 | for `n >= 0` the DF offset equals the SMPTE compensation, never decreases, gives strictly increasing labels, never shows a dropped label, and skips only dropped labels between consecutive frames |
| Timecodes.LabelNumberNonNegative | posttools/timecode.py:86-117 | `abs(framenumber) + df_offset` is never negative, for either mode and sign |
| Timecodes.FieldsDecompose | posttools/timecode.py:148-175 | `frames`, `seconds`, `minutes` and `hours` are a mixed-radix split of the label number: frames below the rate, seconds and minutes below 60, all carrying the timecode's sign |
| Timecodes.MixedRadix | posttools/timecode.py:154-175 | splitting a non-negative count into seconds, minutes and hours loses nothing |
| DropFrame.Constants | posttools/timecode.py:97-101 | the drop count is below the rate, and a ten-minute segment plus 9 drops is ten full minutes |
| DropFrame.SegmentCompensationClosedForm | posttools/timecode.py:107-114 | inside a ten-minute segment the compensation is 0 in the first minute, then `drop_offset` times the dropping minutes begun |
| DropFrame.LabelBySegment | posttools/timecode.py:103-117 | the label of frame `n` is its segment's ten minutes of labels plus its place inside the segment |
| DropFrame.CompensationZeroInFirstMinute | posttools/timecode.py:108 | frames of the first minute get no compensation (the `+ 1` of `remaining_drop_frames`) |
| DropFrame.CompensationAtFirstDrop | posttools/timecode.py:108-114 | the first frame of minute one gets `2 * rate // 30` |
| DropFrame.CompensationMatchesSmpte | posttools/timecode.py:103-117 | the compensation equals the SMPTE drop-frame formula: `drop_offset` times the minutes elapsed less the tenth minutes elapsed |
| DropFrame.CompensationAtMost | posttools/timecode.py:103-117 | the compensation is non-negative and at most the frame count |
| DropFrame.CompensationStep | posttools/timecode.py:103-117 | from one frame to the next the compensation grows by 0 or by `drop_offset` |
| DropFrame.CompensationMonotone | posttools/timecode.py:103-117 | the compensation never decreases as frames go on |
| DropFrame.LabelStep | posttools/timecode.py:103-117 | the next frame's label is one more, or `1 + drop_offset` more at the start of a dropping minute |
| DropFrame.LabelNotDroppedInMinutes | posttools/timecode.py:95-117 | no frame is shown with a dropped label |
| DropFrame.DroppedLabelInMinutes | posttools/timecode.py:95-97 | a label is dropped exactly when its minute is not divisible by ten and its place in that minute is below `drop_offset` |
| DropFrame.LabelsSkipOnlyDropped | posttools/timecode.py:95-117 | labels strictly increase from frame to frame, and every label skipped is a dropped one |
| Timecodes.Resample | posttools/timecode.py:188-219 | a successful resample is a valid timecode |
| Timecodes.ResampleIdentity | posttools/timecode.py:190-194 | the timecode's own rate and mode, or no arguments, or rate 0, give the same timecode back |
| Timecodes.ResampleDropFrame | posttools/timecode.py:212-213 | any change of rate or mode that involves DF raises `NotImplementedError` |
| Timecodes.ResampleNearest | posttools/timecode.py:196-219 | between NDF rates the result is the frame number nearest `n * new_rate / rate`, ties to even; only a negative rate fails |
| Timecodes.ResampleRoundTrip | posttools/timecode.py:188-219 | resampling to `k` times the rate multiplies the frame number by `k`, and resampling back gives the original |
| Arith.RoundHalfEven | posttools/timecode.py:219 | `round(n / d)`: within half a unit of the quotient, and even on a tie |
| Arith.RoundHalfEvenUnique | posttools/timecode.py:219 | an integer strictly within half a unit of `n / d` is the rounded quotient |
| Arith.RoundHalfEvenExact | posttools/timecode.py:219 | an exact quotient is returned unrounded |
| Timecodes.Normalize | posttools/timecode.py:233-241 | a timecode operand is kept; an `int` or `str` becomes a timecode at the left operand's rate and mode |
| Timecodes.Coerce | posttools/timecode.py:248 | the right operand of an operator ends up valid and compatible with the left one |
| Timecodes.CoerceCompatible | posttools/timecode.py:233-248 | a compatible timecode operand is used unchanged |
| Timecodes.CoerceInt | posttools/timecode.py:239-241 | an `int` operand is that many frames at the left operand's rate and mode |
| Timecodes.CoerceText | posttools/timecode.py:239-241 | a text operand is parsed at the left operand's rate; malformed text raises `InvalidTimecode` |
| Timecodes.CoerceResampled | posttools/timecode.py:248 | an NDF operand at another rate is first resampled to the left operand's rate |
| Timecodes.Add | posttools/timecode.py:243-249 | `+` fails exactly when the coercion does, and otherwise adds frame numbers at the left operand's rate and mode |
| Timecodes.Sub | posttools/timecode.py:251-257 | `-` fails exactly when the coercion does, and otherwise subtracts frame numbers |
| Timecodes.Mul | posttools/timecode.py:259-265 | `*` fails exactly when the coercion does, and otherwise multiplies frame numbers |
| Timecodes.RoundedQuotient | posttools/timecode.py:273 | the rounded quotient is within half the divisor, for either sign of divisor |
| Timecodes.Div | posttools/timecode.py:267-273 | `/` raises `ZeroDivisionError` for a zero divisor, and otherwise gives the frame number nearest the exact quotient |
| Timecodes.SubUndoesAdd | posttools/timecode.py:243-257 | subtracting a compatible timecode that was added gives back the left operand |
| Timecodes.DivUndoesMul | posttools/timecode.py:259-273 | dividing by the non-zero integer that was multiplied gives back the left operand |
| Timecodes.Eq | posttools/timecode.py:275-278 | `==` fails only when the coercion does, and holds exactly when the coerced operand is the same value |
| Timecodes.Ne | posttools/timecode.py:275-278 | `!=` is the negation of `==` |
| Timecodes.EqIsIdentity | posttools/timecode.py:275-278 | between timecodes, `==` is equality of mode, rate and frame number |
| Timecodes.EqInt | posttools/timecode.py:239-278 | a timecode equals an `int` exactly when its frame number does |
| Timecodes.Lt | posttools/timecode.py:280-292 | `<` compares the mode, then the rate, then the frame number of the coerced operand |
| Timecodes.Gt | posttools/timecode.py:294-306 | `>` compares with the same precedence, reversed |
| Timecodes.Le | posttools/timecode.py:308-319 | `<=` is false when the left mode or the left rate is greater, and otherwise compares frame numbers |
| Timecodes.Ge | posttools/timecode.py:321-331 | `>=` raises `AttributeError` for an operand that is not a timecode, and otherwise mirrors `<=` |
| Timecodes.LtIsLexicographic | posttools/timecode.py:280-306 | `<` is the lexicographic order on (mode, rate, frame number) and `>` is its converse |
| Timecodes.LtStrictTotalOrder | posttools/timecode.py:280-292 | `<` is irreflexive, transitive, asymmetric and total on distinct timecodes |
| Timecodes.ModePrecedence | posttools/timecode.py:283-288 | every NDF timecode sorts before every DF one |
| Timecodes.LeGeCompatible | posttools/timecode.py:308-331 | for compatible timecodes `<=` and `>=` compare frame numbers and agree with `<` or `==` |
| TimecodeText.RecogniseLabel | posttools/timecode.py:136-140 | every label `formatted` writes matches the pattern, signed exactly when it starts with `-` |
| TimecodeText.ParseLabel | posttools/timecode.py:45-73 | a label is read as the frame count its four fields denote, with its sign |
| TimecodeText.ParseFormatted | posttools/timecode.py:130-140 | reading `formatted` back gives the signed label number |
| TimecodeText.ParseFormattedNdf | posttools/timecode.py:130-140 | in NDF mode, reading `formatted` back gives the same timecode |
| TimecodeText.FieldsUnique | posttools/timecode.py:148-175 | fields in range are recovered from the frame count they denote |
| TimecodeText.FormattedFields | posttools/timecode.py:130-140 | a label number with fields `h, m, s, f` is written with exactly those fields |
| TimecodeText.FieldsTotal | posttools/timecode.py:57-69 | fields denote a non-negative count, 0 only when all fields are 0 |
| TimecodeText.FormatParsedNdf | posttools/timecode.py:130-140 | in NDF mode a canonical label is read and written back unchanged |
| TimecodeText.FirstMinuteDropFrame | posttools/timecode.py:130-140 | in the first minute, DF shows the NDF fields with `;` before the frames |
| TimecodeText.ExampleOneHour | posttools/timecode.py:45-73 | `01:00:00:00` at 24 fps is frame 86400, and frame 86400 is written back the same |
| TimecodeText.ExampleMinusOne | posttools/timecode.py:136-140 | frame -1 at 24 fps is written `-00:00:00:01` |
| TimecodeText.ExampleDropFrameText | posttools/timecode.py:28-30 | `01:00:00;00` at 30 fps DF reads as frame 108000, without compensation |
| TimecodeText.ExampleLeadingSeparator | posttools/timecode.py:54 | a lone leading separator is stripped: `:15` is 15 frames |
| TimecodeText.ExampleFirstDrop | posttools/timecode.py:130-140 | frame 1800 at 30 fps DF is written `00:01:00;02` |
| TimecodeText.ExampleDropFrameRead | posttools/timecode.py:28-30 | `00:01:00;02` at 30 fps DF reads as frame 1802 |
| TimecodeText.ExampleDropFrameShift | posttools/timecode.py:130-140 | frame 1802 at 30 fps DF is written `00:01:00;04` |
| TimecodeText.ExampleDropFrameOneHour | posttools/timecode.py:130-140 | frame 108000 at 30 fps DF is written `01:00:03;18` |
| TimecodeRanges.End | posttools/timecode.py:384-387 | `end` is `start + duration`: compatible with the start, `duration` frames after it |
| TimecodeRanges.Bounds | posttools/timecode.py:344-369 | a start and duration derived from two of the three arguments are compatible |
| TimecodeRanges.NewRange | posttools/timecode.py:341-373 | a constructed range is valid, keeps the given start and duration, ends at the given end, and raises `ValueError` exactly when fewer than two arguments are given |
| TimecodeRanges.NewRangeOk | posttools/timecode.py:341-373 | construction succeeds exactly when the given values are compatible, agree, and give a positive duration |
| TimecodeRanges.NewRangeErrors | posttools/timecode.py:344-373 | each `IncompatibleTimecode` reason is raised in the order the constructor checks it |
| TimecodeRanges.NewRangeDerived | posttools/timecode.py:354-366 | from start and end the duration is `end - start`; from end and duration the start is `end - duration` |
| TimecodeRanges.Len | posttools/timecode.py:394-397 | `frames` and `len` are at least 1 and equal the distance from start to end |
| TimecodeRanges.ResampleRange | posttools/timecode.py:375-377 | a resampled range is valid, with its start and duration resampled alike |
| TimecodeRanges.ResampleRangeIdentity | posttools/timecode.py:375-377 | the range's own rate and mode, or no arguments, give the same range back |
| TimecodeRanges.ResampleRangeDropFrame | posttools/timecode.py:375-377 | a resample involving DF raises `NotImplementedError` |
| TimecodeRanges.ResampleRangeMultiple | posttools/timecode.py:375-377 | resampling an NDF range to `k` times its rate scales start, duration and end by `k` |
| TimecodeRanges.RangeEq | posttools/timecode.py:409-410 | only a range can be equal, and only with an equal start and duration |
| TimecodeRanges.RangeEqIsIdentity | posttools/timecode.py:409-410 | range equality is equality of the values, and equal ranges end together |
| TimecodeRanges.RangeLt | posttools/timecode.py:412-413 | `<` holds exactly for a range whose start is greater |
| TimecodeRanges.RangeGt | posttools/timecode.py:415-416 | `>` holds exactly for a range whose start is smaller |
| TimecodeRanges.ContainsRange | posttools/timecode.py:418-420 | a range is `in` another exactly when it is compatible and its frames lie within the other's |
| TimecodeRanges.ContainsTimecode | posttools/timecode.py:421-422 | a timecode is `in` a range exactly when it is compatible and lies from start to end, end included |
| TimecodeRanges.ContainsReflexive | posttools/timecode.py:418-424 | a range contains itself, its start and its end |
| TimecodeRanges.ContainsNested | posttools/timecode.py:418-420 | a range strictly inside another is in it, and the larger one is not in the smaller |
| TimecodeRanges.ContainsTransitive | posttools/timecode.py:418-420 | containment of ranges is transitive |
| TimecodeRanges.ContainsIncompatible | posttools/timecode.py:418-424 | a timecode of another rate or mode, or a value of another type, is never contained |
| TimecodeRanges.Iterate | posttools/timecode.py:432-434 | iteration yields `len` timecodes, one per frame from the start, at the range's rate and mode |
| TimecodeRanges.IteratedContained | posttools/timecode.py:432-434 | every timecode the iteration yields is in the range and before its end |
| Edls.Fcm.Value | posttools/edl.py:8-11 | each mode's value is a non-empty, stripped header text |
| Edls.FcmOf | posttools/edl.py:72 | `Fcm(text)` finds the member whose value is exactly `text`, and fails for any other text |
| Edls.FcmOfValue | posttools/edl.py:8-11 | each mode is found again from its value |
| Edls.ParseTitle | posttools/edl.py:54-63 | a line without a case-insensitive `title:` prefix is refused; the title is the stripped rest, refused when empty |
| Edls.ParseFcm | posttools/edl.py:65-75 | a line without a case-insensitive `fcm:` prefix is refused; it succeeds exactly when the stripped rest is an `Fcm` value |
| Edls.ParseTitleIgnoresCase | posttools/edl.py:58 | the `title:` prefix is recognised whatever the case of its letters |
| Edls.ParseFcmIgnoresCase | posttools/edl.py:69 | the `fcm:` prefix is recognised whatever the case of its letters |
| Edls.ParseTitleLine | posttools/edl.py:80 | the title line `write` prints is read back as the same title |
| Edls.ParseFcmLine | posttools/edl.py:81 | the FCM line `write` prints is read back as the same mode |
| Edls.ReadHeader | posttools/edl.py:33-50 | the `from_file` loop reads the title from line 1 and the mode from line 2, stops at line 3, and reports a failure with its 1-based line number |
| Edls.HeaderIgnoresRest | posttools/edl.py:46-47 | lines after the second never change the result |
| Edls.HeaderErrorLine | posttools/edl.py:49-50 | a failure names line 1 or line 2, with the error of that line's parser |
| Edls.HeaderErrorMessage | posttools/edl.py:49-50 | the `ValueError` of a header failure on line 1 or 2 reads `Line 1: ` or `Line 2: ` followed by the parser's message |
| Edls.HeaderRoundTrip | posttools/edl.py:77-84 | the header `write` prints for a single-line title the setter accepts is read back as the same title and mode, whatever lines follow |
| Edls.DefaultTitleSettable | posttools/edl.py:23 | the default title `Untitled EDL` is one the `title` setter accepts unchanged |
| Edls.Edl.constructor | posttools/edl.py:23-27 | a new EDL has the given title and mode and no events; the title is not validated |
| Edls.Edl.FromFile | posttools/edl.py:29-52 | `from_file` fails exactly when the header does, and otherwise builds a new EDL with that header and no events |
| Edls.Edl.SetTitle | posttools/edl.py:91-103 | the setter stores the stripped title, refuses an empty or multi-line one, and leaves the title unchanged on failure |
| Edls.Edl.Write | posttools/edl.py:77-84 | `write` prints the title line, the FCM line, then one line per event |
| Strings.Strip | posttools/edl.py:60 | `strip()` leaves no whitespace at either end and never lengthens the text |
| Strings.StripOfStripped | posttools/edl.py:95 | stripping a stripped text changes nothing |
| Strings.StripAfterSpaces | posttools/edl.py:60 | whitespace in front of a stripped text is all that `strip()` removes |
| Strings.SplitLinesOfStripped | posttools/edl.py:100 | `splitlines()` of a stripped, non-empty title has more than one line exactly when the title holds a line break |

## Left out

- Timecodes.Recognise: `\d` is taken as the ASCII digits `0`-`9`. Python's `str` pattern also matches other Unicode decimal digits, and `int()` reads them, so `Timecode("١٢")` is frame 12 in Python but `InvalidTimecode` here.
- TimecodeText.RecogniseIsPattern: the equivalence is proved with the ASCII reading of `\d` described above, not with Python's Unicode one.
- `Timecode(x, rate, mode=None)` raises `ValueError` from `self.Mode(None)` (`timecode.py:25`), despite the `Optional[Mode]` annotation. The model's `Mode` has no `None`, so this failure is not modelled.
- Edls.HeaderRoundTrip: the round trip is stated for titles without a line break. The constructor does not validate its title, and `write` would print a title with a line break as several file lines. The model takes each printed string as one line, so it does not split them.
- Floating-point rates are left out. `round(rate)` is applied by the caller, and every rate is an integer.
- The `timecode` argument of `__init__` that is neither `int` nor `str` is modelled only by its failure (`FromOther`). Objects that `round()` accepts, such as floats, are left out.
- Timecodes.Resample: `new_rate / self._rate` is a float in Python. The model rounds the exact rational `n * new_rate / rate` half to even, which agrees with Python whenever the float product is exact.
- Timecodes.Div: `__truediv__` passes a float to `Timecode(...)`, which rounds it. The model rounds the exact quotient half to even, and float rounding error is not modelled.
- Timecodes.FieldsDecompose: the fields use integer `//` and `%`. Python's `int(x / rate ...)` goes through floats, which agrees only while the label number is exactly representable.
- Timecodes.DfOffsetIsDropFrame: the drop-frame properties are proved for `n >= 0` only. The negative branch of `_df_offset` is modelled as written but has no further property.
- DF text is read without compensation, so DF round trips of text are not claimed. Only the NDF round trips and the DF examples are.
- The `force_offset` argument of `_df_offset` is modelled. The `df_offset` arguments of the `frames`, `seconds`, `minutes` and `hours` properties are left out, because a property is always called without arguments.
- The `rollover` and `signed` flags of `formatted` are unimplemented TODOs in the source.
- `__hash__`, `__repr__`, `__str__` (which is `formatted`), and the `TimecodeRange` `__repr__` and `__str__` are text and hashing only, so they are left out.
- The getters `rate`, `framenumber`, `mode`, `is_negative`, `is_positive`, `start`, `duration` and `TimecodeRange.mode`/`rate` are fields or one-line predicates of the datatypes.
- `__iter__` is a generator. The model returns the whole sequence it yields.
- The `fcm` setter of `Edl` refers to `self.Fcm`, which does not exist, so every call raises `AttributeError`. It is left out.
- `Event.pat_event` is never used by `edl.py`. `Event` carries no data, and `write` prints each event through a `show` parameter that stands for `print(event)`.
- `from_file` reads a file object. The model takes the list of lines with their final `\n` already removed.
- A file of fewer than two lines makes `from_file` raise `UnboundLocalError`. The model reports it as `TitleUnbound` or `FcmUnbound`, without the Python message.
- `lower`, `strip` and `splitlines` are modelled for ASCII whitespace and line breaks. Unicode case mapping and Unicode line separators are left out.
- `Edl.__str__` and `Edl.__repr__` are text only, so they are left out.
- The rest of the repository is not part of this model: the event and statement grammar, the shot and clip hierarchy, and the command-line tools.
