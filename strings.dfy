/**
 * The string handling the timecode and EDL code relies on: ASCII decimal digits as
 * read by `int()` and written by `{:02d}`, splitting on timecode separators, and ASCII
 * versions of Python's `str.lower`, `str.strip` and `str.splitlines`.
 */
module Strings {

  // ---------- Decimal digits ----------

  /** An ASCII decimal digit; Python's `\d` on `str` also accepts other Unicode decimal digits. */
  predicate IsDigit(c: char) { '0' <= c <= '9' }

  predicate AllDigits(s: string) { forall i :: 0 <= i < |s| ==> IsDigit(s[i]) }

  /** A non-empty run of ASCII digits: `\d+` with `\d` read as `0`-`9` only. */
  predicate IsDigitRun(s: string) { |s| > 0 && AllDigits(s) }

  /** Every piece is a digit run. */
  predicate DigitRuns(g: seq<string>) { forall i :: 0 <= i < |g| ==> IsDigitRun(g[i]) }

  lemma DigitRunsCons(a: string, g: seq<string>)
    ensures DigitRuns([a] + g) <==> IsDigitRun(a) && DigitRuns(g)
  {
    var s := [a] + g;
    if DigitRuns(s) {
      assert IsDigitRun(s[0]);
      forall i | 0 <= i < |g|
        ensures IsDigitRun(g[i])
      {
        assert s[i + 1] == g[i];
      }
    }
    if IsDigitRun(a) && DigitRuns(g) {
      forall i | 0 <= i < |s|
        ensures IsDigitRun(s[i])
      {
        if i > 0 {
          assert s[i] == g[i - 1];
        }
      }
    }
  }

  function DigitValue(c: char): (v: nat)
    requires IsDigit(c)
    ensures v < 10
  {
    c as int - '0' as int
  }

  function DigitChar(v: nat): (c: char)
    requires v < 10
    ensures IsDigit(c) && DigitValue(c) == v
  {
    (v + '0' as int) as char
  }

  /** `int(s)` for a string of ASCII digits (leading zeros allowed). */
  function DigitsValue(s: string): nat
    requires AllDigits(s)
  {
    if s == [] then 0 else DigitsValue(s[..|s| - 1]) * 10 + DigitValue(s[|s| - 1])
  }

  /** The decimal representation of `n`, without leading zeros. */
  function NatDigits(n: nat): (s: string)
    ensures IsDigitRun(s)
    ensures DigitsValue(s) == n
  {
    if n < 10 then [DigitChar(n)]
    else
      var s := NatDigits(n / 10) + [DigitChar(n % 10)];
      assert s[..|s| - 1] == NatDigits(n / 10);
      s
  }

  /** Python's `f"{n:02d}"` for `n >= 0`: zero-padded to at least two digits. */
  function Pad2(n: nat): (s: string)
    ensures IsDigitRun(s) && |s| >= 2
    ensures DigitsValue(s) == n
  {
    if n < 10 then
      var s := ['0', DigitChar(n)];
      assert s[..1] == ['0'] && ['0'][..0] == [];
      assert DigitsValue(['0']) == 0;
      s
    else NatDigits(n)
  }

  // ---------- Timecode group separators ----------

  predicate IsSep(c: char) { c == ':' || c == ';' }

  predicate NoSep(s: string) { forall i :: 0 <= i < |s| ==> !IsSep(s[i]) }

  /** `s.replace(';', ':').split(':')`: the pieces between separators, empty ones included. */
  function Split(s: string): (r: seq<string>)
    ensures |r| >= 1
  {
    if s == [] then [[]]
    else if IsSep(s[0]) then [[]] + Split(s[1..])
    else
      var t := Split(s[1..]);
      [[s[0]] + t[0]] + t[1..]
  }

  lemma {:induction false} SplitNoSep(a: string)
    requires NoSep(a)
    ensures Split(a) == [a]
  {
    if a != [] {
      SplitNoSep(a[1..]);
      assert [a[0]] + a[1..] == a;
    }
  }

  lemma {:induction false} SplitAtSep(a: string, c: char, b: string)
    requires NoSep(a) && IsSep(c)
    ensures Split(a + [c] + b) == [a] + Split(b)
  {
    var s := a + [c] + b;
    if a == [] {
      assert s[1..] == b;
    } else {
      assert s[1..] == a[1..] + [c] + b;
      SplitAtSep(a[1..], c, b);
      assert [a[0]] + a[1..] == a;
    }
  }

  /** A separator-free prefix joins the first piece of what follows it. */
  lemma {:induction false} SplitJoin(a: string, b: string)
    requires NoSep(a)
    ensures Split(a + b) == [a + Split(b)[0]] + Split(b)[1..]
  {
    if a != [] {
      assert (a + b)[1..] == a[1..] + b;
      SplitJoin(a[1..], b);
      assert [a[0]] + (a[1..] + Split(b)[0]) == a + Split(b)[0];
    } else {
      assert a + b == b;
      assert a + Split(b)[0] == Split(b)[0];
      assert Split(b) == [Split(b)[0]] + Split(b)[1..];
    }
  }

  /** The index of the first separator in `s`, or `|s|` when there is none. */
  function SepIndex(s: string): (i: nat)
    ensures i <= |s| && NoSep(s[..i])
    ensures i < |s| ==> IsSep(s[i])
  {
    if s == [] || IsSep(s[0]) then 0
    else
      var j := SepIndex(s[1..]);
      assert s[..1 + j] == [s[0]] + s[1..][..j];
      1 + j
  }

  /** `Split` cuts at the first separator, or returns the whole string when there is none. */
  lemma {:induction false} SplitFirst(s: string)
    ensures var i := SepIndex(s);
      if i == |s| then Split(s) == [s] else Split(s) == [s[..i]] + Split(s[i + 1..])
  {
    var i := SepIndex(s);
    if i == |s| {
      assert s[..i] == s;
      SplitNoSep(s);
    } else {
      assert s == s[..i] + [s[i]] + s[i + 1..];
      SplitAtSep(s[..i], s[i], s[i + 1..]);
    }
  }

  // ---------- ASCII case folding ----------

  function LowerChar(c: char): char
  {
    if 'A' <= c <= 'Z' then (c as int + 32) as char else c
  }

  /** `str.lower()` restricted to ASCII letters. */
  function Lower(s: string): (r: string)
    ensures |r| == |s|
  {
    seq(|s|, i requires 0 <= i < |s| => LowerChar(s[i]))
  }

  predicate StartsWith(s: string, prefix: string)
  {
    |prefix| <= |s| && s[..|prefix|] == prefix
  }

  // ---------- ASCII whitespace, str.strip() ----------

  /** The ASCII characters for which Python's `str.isspace()` holds. */
  predicate IsSpace(c: char)
  {
    c == ' ' || (9 <= c as int <= 13) || (28 <= c as int <= 31)
  }

  predicate AllSpace(s: string) { forall i :: 0 <= i < |s| ==> IsSpace(s[i]) }

  /** No whitespace at either end: what `str.strip()` returns. */
  predicate Stripped(s: string)
  {
    s == [] || (!IsSpace(s[0]) && !IsSpace(s[|s| - 1]))
  }

  function StripStart(s: string): (r: string)
    ensures |r| <= |s| && r == s[|s| - |r|..]
    ensures r == [] || !IsSpace(r[0])
    ensures AllSpace(s[..|s| - |r|])
  {
    if s != [] && IsSpace(s[0]) then StripStart(s[1..]) else s
  }

  function StripEnd(s: string): (r: string)
    ensures |r| <= |s| && r == s[..|r|]
    ensures r == [] || !IsSpace(r[|r| - 1])
    ensures AllSpace(s[|r|..])
  {
    if s != [] && IsSpace(s[|s| - 1]) then StripEnd(s[..|s| - 1]) else s
  }

  /** `str.strip()` with ASCII whitespace. */
  function Strip(s: string): (r: string)
    ensures Stripped(r) && |r| <= |s|
  {
    var t := StripStart(s);
    var r := StripEnd(t);
    assert r != [] ==> r[0] == t[0];
    r
  }

  lemma {:induction false} StripOfStripped(t: string)
    requires Stripped(t)
    ensures Strip(t) == t
  {
    assert StripStart(t) == t;
  }

  lemma {:induction false} StripStartOfSpaces(ws: string, t: string)
    requires AllSpace(ws) && (t == [] || !IsSpace(t[0]))
    ensures StripStart(ws + t) == t
  {
    if ws != [] {
      assert (ws + t)[1..] == ws[1..] + t;
      StripStartOfSpaces(ws[1..], t);
    } else {
      assert ws + t == t;
    }
  }

  /** Whitespace put in front of an already stripped string is removed again. */
  lemma StripAfterSpaces(ws: string, t: string)
    requires AllSpace(ws) && Stripped(t)
    ensures Strip(ws + t) == t
  {
    StripStartOfSpaces(ws, t);
    StripOfStripped(t);
  }

  // ---------- str.splitlines() ----------

  /** The ASCII line boundaries of `str.splitlines()`: \n \v \f \r \x1c \x1d \x1e. */
  predicate IsLineBreak(c: char)
  {
    (10 <= c as int <= 13) || (28 <= c as int <= 30)
  }

  predicate HasLineBreak(s: string) { exists i :: 0 <= i < |s| && IsLineBreak(s[i]) }

  /** The index of the first line boundary in `s`, or `|s|` when there is none. */
  function LineEnd(s: string): (i: nat)
    ensures i <= |s|
    ensures forall j :: 0 <= j < i ==> !IsLineBreak(s[j])
    ensures i < |s| ==> IsLineBreak(s[i])
  {
    if s == [] || IsLineBreak(s[0]) then 0 else 1 + LineEnd(s[1..])
  }

  /** `str.splitlines()`: "\r\n" ends one line, a final boundary opens no empty line. */
  function SplitLines(s: string): (r: seq<string>)
    ensures s != [] ==> |r| >= 1
    decreases |s|
  {
    if s == [] then []
    else
      var i := LineEnd(s);
      if i == |s| then [s]
      else
        var next := if s[i] == '\r' && i + 1 < |s| && s[i + 1] == '\n' then i + 2 else i + 1;
        [s[..i]] + SplitLines(s[next..])
  }

  /** A stripped, non-empty string splits into more than one line exactly when it holds a line boundary. */
  lemma SplitLinesOfStripped(s: string)
    requires Stripped(s) && s != []
    ensures |SplitLines(s)| > 1 <==> HasLineBreak(s)
  {
    var i := LineEnd(s);
    if i < |s| {
      assert IsSpace(s[i]);
      if s[i] == '\r' && i + 1 < |s| && s[i + 1] == '\n' {
        assert IsSpace(s[i + 1]);
        assert s[i + 2..] != [];
      } else {
        assert s[i + 1..] != [];
      }
    } else {
      assert !HasLineBreak(s);
    }
  }
}
