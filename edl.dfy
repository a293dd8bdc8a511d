/**
 * The EDL header handling of `posttools/edl.py`: the `TITLE:` and `FCM:` lines an Edit
 * Decision List starts with, how `Edl.from_file` reads them from the first two lines,
 * the validating `title` setter, and `write`, which emits them again.
 *
 * Python's `str.lower`, `str.strip` and `str.splitlines` are taken over ASCII (see the
 * `Strings` module). A file is the sequence of its lines without their final `'\n'`.
 */
module Edls {
  import opened Results
  import opened Strings

  // ---------- Frame counting mode ----------

  /** `Fcm`: the frame counting mode of an EDL, an enum whose values are the header texts. */
  datatype Fcm = NonDropFrame | DropFrame {
    function Value(): (v: string)
      ensures v != [] && Stripped(v)
    {
      if this == NonDropFrame then "NON-DROP FRAME" else "DROP FRAME"
    }
  }

  /** `Fcm(text)`: the member whose value is exactly `text`, if any. */
  function FcmOf(text: string): (r: Option<Fcm>)
    ensures r.Some? ==> r.value.Value() == text
    ensures r.None? ==> text != NonDropFrame.Value() && text != DropFrame.Value()
  {
    if text == NonDropFrame.Value() then Some(NonDropFrame)
    else if text == DropFrame.Value() then Some(DropFrame)
    else None
  }

  /** Each mode is found again from its value. */
  lemma FcmOfValue(f: Fcm)
    ensures FcmOf(f.Value()) == Some(f)
  {
    assert NonDropFrame.Value() != DropFrame.Value() by {
      assert |NonDropFrame.Value()| != |DropFrame.Value()|;
    }
  }

  // ---------- Header lines ----------

  /** The `ValueError`s the header parsers raise. */
  datatype HeaderError =
    | TitleExpected  // "Title was expected, but not found"
    | TitleEmpty     // "Title is empty"
    | FcmExpected    // "FCM was expected, but not found"
    | InvalidFcm     // "Invalid FCM specified"

  function HeaderMessage(e: HeaderError): string
  {
    match e
    case TitleExpected => "Title was expected, but not found"
    case TitleEmpty => "Title is empty"
    case FcmExpected => "FCM was expected, but not found"
    case InvalidFcm => "Invalid FCM specified"
  }

  /** `line.lower().startswith(prefix)` for a lower-case `prefix`. */
  predicate HasPrefixIgnoringCase(line: string, prefix: string)
  {
    StartsWith(Lower(line), prefix)
  }

  /** `_parse_title`: the stripped text after a case-insensitive `title:`, which must not be empty. */
  function ParseTitle(line: string): (r: Result<string, HeaderError>)
    ensures !HasPrefixIgnoringCase(line, "title:") ==> r == Err(TitleExpected)
    ensures HasPrefixIgnoringCase(line, "title:") ==>
      if Strip(line[6..]) == [] then r == Err(TitleEmpty) else r == Ok(Strip(line[6..]))
    ensures r.Ok? ==> r.value != [] && Stripped(r.value)
  {
    if !HasPrefixIgnoringCase(line, "title:") then Err(TitleExpected)
    else
      var title := Strip(line[6..]);
      if |title| == 0 then Err(TitleEmpty) else Ok(title)
  }

  /** `_parse_fcm`: the stripped text after a case-insensitive `fcm:`, which must be an `Fcm` value. */
  function ParseFcm(line: string): (r: Result<Fcm, HeaderError>)
    ensures !HasPrefixIgnoringCase(line, "fcm:") ==> r == Err(FcmExpected)
    ensures HasPrefixIgnoringCase(line, "fcm:") && r.Err? ==> r == Err(InvalidFcm)
    ensures r.Ok? <==> HasPrefixIgnoringCase(line, "fcm:") && FcmOf(Strip(line[4..])).Some?
    ensures r.Ok? ==> r.value.Value() == Strip(line[4..])
  {
    if !HasPrefixIgnoringCase(line, "fcm:") then Err(FcmExpected)
    else
      var fcm := FcmOf(Strip(line[4..]));
      if fcm.None? then Err(InvalidFcm) else Ok(fcm.value)
  }

  /** The `title:` prefix is recognised whatever the case of its letters. */
  lemma ParseTitleIgnoresCase(p: string, q: string, rest: string)
    requires |p| == 6 && |q| == 6 && Lower(p) == Lower(q)
    ensures ParseTitle(p + rest) == ParseTitle(q + rest)
  {
    LowerAppend(p, rest);
    LowerAppend(q, rest);
    assert (p + rest)[6..] == rest && (q + rest)[6..] == rest;
    assert Lower(p + rest)[..6] == Lower(p) && Lower(q + rest)[..6] == Lower(q);
  }

  /** The `fcm:` prefix is recognised whatever the case of its letters. */
  lemma ParseFcmIgnoresCase(p: string, q: string, rest: string)
    requires |p| == 4 && |q| == 4 && Lower(p) == Lower(q)
    ensures ParseFcm(p + rest) == ParseFcm(q + rest)
  {
    LowerAppend(p, rest);
    LowerAppend(q, rest);
    assert (p + rest)[4..] == rest && (q + rest)[4..] == rest;
    assert Lower(p + rest)[..4] == Lower(p) && Lower(q + rest)[..4] == Lower(q);
  }

  lemma LowerAppend(a: string, b: string)
    ensures Lower(a + b) == Lower(a) + Lower(b)
  {
  }

  /** The two lines `write` starts with. */
  function HeaderLines(title: string, fcm: Fcm): seq<string>
  {
    ["TITLE: " + title, "FCM: " + fcm.Value()]
  }

  /** The title line `write` emits is read back as the same title, when that title is stripped and not empty. */
  lemma {:induction false} ParseTitleLine(title: string)
    requires title != [] && Stripped(title)
    ensures ParseTitle("TITLE: " + title) == Ok(title)
  {
    var line := "TITLE: " + title;
    LowerAppend("TITLE:", " " + title);
    assert line == "TITLE:" + (" " + title);
    assert Lower("TITLE:") == "title:";
    assert Lower(line)[..6] == "title:";
    assert line[6..] == " " + title;
    assert AllSpace(" ");
    StripAfterSpaces(" ", title);
  }

  /** The FCM line `write` emits is read back as the same mode. */
  lemma {:induction false} ParseFcmLine(fcm: Fcm)
    ensures ParseFcm("FCM: " + fcm.Value()) == Ok(fcm)
  {
    var line := "FCM: " + fcm.Value();
    LowerAppend("FCM:", " " + fcm.Value());
    assert line == "FCM:" + (" " + fcm.Value());
    assert Lower("FCM:") == "fcm:";
    assert Lower(line)[..4] == "fcm:";
    assert line[4..] == " " + fcm.Value();
    assert AllSpace(" ");
    StripAfterSpaces(" ", fcm.Value());
    FcmOfValue(fcm);
  }

  // ---------- Reading a file ----------

  /** `_ParseModes`: where `from_file` is; only the first three are ever entered. */
  datatype ParseMode = Start | TitleMode | FcmMode | EventStart | EventDetails

  /** What `from_file` raises. */
  datatype FileError =
    | LineError(lineNumber: nat, cause: HeaderError)  // ValueError "Line {n}: {cause}", `n` counted from 1
    | TitleUnbound                                    // UnboundLocalError: an empty file
    | FcmUnbound                                      // UnboundLocalError: a file of one line

  /** The message of the `ValueError` that names the failing line. */
  function FileMessage(e: FileError): string
    requires e.LineError?
  {
    "Line " + NatDigits(e.lineNumber) + ": " + HeaderMessage(e.cause)
  }

  /** The title and frame counting mode an EDL file declares. */
  datatype Header = Header(title: string, fcm: Fcm)

  /**
   * What `from_file` reads: the title from line 1 and the mode from line 2, each failure
   * reported with its 1-based line number; a file too short leaves a name unbound.
   */
  function HeaderOf(lines: seq<string>): Result<Header, FileError>
  {
    if |lines| == 0 then Err(TitleUnbound)
    else
      match ParseTitle(lines[0])
      case Err(e) => Err(LineError(1, e))
      case Ok(title) =>
        if |lines| == 1 then Err(FcmUnbound)
        else
          match ParseFcm(lines[1])
          case Err(e) => Err(LineError(2, e))
          case Ok(fcm) => Ok(Header(title, fcm))
  }

  /** The loop of `from_file`: read the title, then the mode, and stop at the third line. */
  method ReadHeader(lines: seq<string>) returns (r: Result<Header, FileError>)
    ensures r == HeaderOf(lines)
  {
    var mode := Start;
    var title: Option<string> := None;
    var fcm: Option<Fcm> := None;
    var lineNum := 0;
    while lineNum < |lines|
      invariant 0 <= lineNum <= 2 && lineNum <= |lines|
      invariant mode == (if lineNum == 0 then Start else if lineNum == 1 then TitleMode else FcmMode)
      invariant lineNum == 0 <==> title.None?
      invariant lineNum >= 1 ==> ParseTitle(lines[0]) == Ok(title.value)
      invariant lineNum < 2 <==> fcm.None?
      invariant lineNum == 2 ==> ParseFcm(lines[1]) == Ok(fcm.value)
      decreases |lines| - lineNum
    {
      var line := lines[lineNum];
      if mode == Start {
        mode := TitleMode;
        var parsed := ParseTitle(line);
        if parsed.Err? {
          return Err(LineError(lineNum + 1, parsed.error));
        }
        title := Some(parsed.value);
      } else if mode == TitleMode {
        mode := FcmMode;
        var parsed := ParseFcm(line);
        if parsed.Err? {
          return Err(LineError(lineNum + 1, parsed.error));
        }
        fcm := Some(parsed.value);
      } else if mode == FcmMode {
        break;
      }
      lineNum := lineNum + 1;
    }
    if title.None? {
      return Err(TitleUnbound);
    }
    if fcm.None? {
      return Err(FcmUnbound);
    }
    return Ok(Header(title.value, fcm.value));
  }

  /** Only the first two lines matter: whatever follows them is ignored. */
  lemma HeaderIgnoresRest(lines: seq<string>, rest: seq<string>)
    requires |lines| >= 2
    ensures HeaderOf(lines + rest) == HeaderOf(lines[..2])
  {
    assert (lines + rest)[0] == lines[..2][0] && (lines + rest)[1] == lines[..2][1];
  }

  /** A header failure names line 1 or line 2, and the error of that line's parser. */
  lemma HeaderErrorLine(lines: seq<string>)
    ensures HeaderOf(lines).Err? && HeaderOf(lines).error.LineError? ==>
      var e := HeaderOf(lines).error;
      && (e.lineNumber == 1 ==> ParseTitle(lines[0]) == Err(e.cause))
      && (e.lineNumber == 2 ==> ParseTitle(lines[0]).Ok? && ParseFcm(lines[1]) == Err(e.cause))
      && (e.lineNumber == 1 || e.lineNumber == 2)
  {
    if |lines| > 0 {
      var title := ParseTitle(lines[0]);
      if title.Ok? && |lines| > 1 {
        var fcm := ParseFcm(lines[1]);
        assert fcm.Err? ==> HeaderOf(lines) == Err(LineError(2, fcm.error));
      } else if title.Err? {
        assert HeaderOf(lines) == Err(LineError(1, title.error));
      }
    }
  }

  /**
   * The `ValueError` of a header failure, which names line 1 or 2 (`HeaderErrorLine`), reads
   * "Line 1: " or "Line 2: " followed by the parser's message.
   */
  lemma HeaderErrorMessage(e: FileError)
    requires e.LineError? && (e.lineNumber == 1 || e.lineNumber == 2)
    ensures FileMessage(e) == (if e.lineNumber == 1 then "Line 1: " else "Line 2: ") + HeaderMessage(e.cause)
  {
    var digits := if e.lineNumber == 1 then "1" else "2";
    assert NatDigits(e.lineNumber) == digits;
    assert "Line " + digits + ": " == (if e.lineNumber == 1 then "Line 1: " else "Line 2: ");
  }

  /**
   * The header `write` emits for a single-line title (one the `title` setter accepts) is
   * read back as the same title and mode, whatever lines follow.
   */
  lemma HeaderRoundTrip(title: string, fcm: Fcm, rest: seq<string>)
    requires SettableTitle(title)
    ensures HeaderOf(HeaderLines(title, fcm) + rest) == Ok(Header(title, fcm))
  {
    var all := HeaderLines(title, fcm) + rest;
    assert all[0] == "TITLE: " + title && all[1] == "FCM: " + fcm.Value();
    ParseTitleLine(title);
    ParseFcmLine(fcm);
  }

  // ---------- The document ----------

  /** `Event`: `edl.py` gives an event no data of its own. */
  datatype Event = Event

  /** Why the `title` setter raised `ValueError`. */
  datatype TitleError =
    | EmptyTitle      // "The title cannot be an empty string"
    | MultiLineTitle  // "The title must not contain line breaks"

  /** A title the setter accepts as it is: stripped, not empty, on one line. */
  predicate SettableTitle(t: string)
  {
    t != [] && Stripped(t) && !HasLineBreak(t)
  }

  lemma DefaultTitleSettable()
    ensures SettableTitle("Untitled EDL")
  {
    var t := "Untitled EDL";
    assert !IsLineBreak(t[0]) && !IsLineBreak(t[1]) && !IsLineBreak(t[2]) && !IsLineBreak(t[3]);
    assert !IsLineBreak(t[4]) && !IsLineBreak(t[5]) && !IsLineBreak(t[6]) && !IsLineBreak(t[7]);
    assert !IsLineBreak(t[8]) && !IsLineBreak(t[9]) && !IsLineBreak(t[10]) && !IsLineBreak(t[11]);
  }

  class Edl {
    var title: string
    var fcm: Fcm
    var events: seq<Event>

    /** `Edl(title=..., fcm=...)`: no events; the title is taken as given. */
    constructor (title: string := "Untitled EDL", fcm: Fcm := NonDropFrame)
      ensures this.title == title && this.fcm == fcm && events == []
    {
      this.title := title;
      this.fcm := fcm;
      events := [];
    }

    /** `Edl.from_file`: an EDL with the header of `lines` and no events. */
    static method FromFile(lines: seq<string>) returns (r: Result<Edl, FileError>)
      ensures r.Ok? <==> HeaderOf(lines).Ok?
      ensures r.Err? ==> r.error == HeaderOf(lines).error
      ensures r.Ok? ==> && fresh(r.value)
                        && r.value.title == HeaderOf(lines).value.title
                        && r.value.fcm == HeaderOf(lines).value.fcm
                        && r.value.events == []
    {
      var header := ReadHeader(lines);
      if header.Err? {
        return Err(header.error);
      }
      var edl := new Edl(header.value.title, header.value.fcm);
      return Ok(edl);
    }

    /** The `title` setter: stores the stripped title, refusing an empty one and one of several lines. */
    method SetTitle(t: string) returns (r: Result<(), TitleError>)
      modifies this`title
      ensures r.Ok? <==> Strip(t) != [] && !HasLineBreak(Strip(t))
      ensures Strip(t) == [] ==> r == Err(EmptyTitle)
      ensures Strip(t) != [] && HasLineBreak(Strip(t)) ==> r == Err(MultiLineTitle)
      ensures r.Ok? ==> title == Strip(t) && SettableTitle(title)
      ensures r.Err? ==> title == old(title)
    {
      var stripped := Strip(t);
      if |stripped| == 0 {
        return Err(EmptyTitle);
      }
      SplitLinesOfStripped(stripped);
      if |SplitLines(stripped)| > 1 {
        return Err(MultiLineTitle);
      }
      title := stripped;
      return Ok(());
    }

    /** `write`: the title line, the FCM line, then one line per event as `show` prints it. */
    function Write(show: Event -> string): (lines: seq<string>)
      reads this
      ensures |lines| == 2 + |events|
      ensures lines[..2] == HeaderLines(title, fcm)
      ensures forall i :: 0 <= i < |events| ==> lines[2 + i] == show(events[i])
    {
      HeaderLines(title, fcm) + seq(|events|, i requires 0 <= i < |events| reads this => show(events[i]))
    }
  }
}
