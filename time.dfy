/**
 * The clock display and the rest-duration text of src/utils/time.js:
 * formatTime turns seconds into mm:ss, parseRestTime reads the editor's rest
 * field ("30秒", "2分鐘", "1分30秒") as seconds, formatRestTime writes seconds
 * back in that form.
 */
module Time {
  import opened Wrappers
  import opened JsString

  /** JavaScript's % on integers: the remainder has the sign of the dividend. */
  function JsRem(a: int, b: int): (r: int)
    requires b > 0
    ensures -b < r < b
    ensures a == b * JsQuot(a, b) + r
  {
    if a >= 0 then a % b else -((-a) % b)
  }

  /** Division truncated toward zero, the quotient that goes with JsRem. */
  function JsQuot(a: int, b: int): int
    requires b > 0
  {
    if a >= 0 then a / b else -((-a) / b)
  }

  function Pad2(s: string): string {
    PadStart(s, 2, '0')
  }

  /**
   * formatTime: Math.floor(seconds / 60) and seconds % 60, each written by
   * String and padded on the left with '0' to two characters, joined by ':'.
   */
  function FormatTime(seconds: int): (r: string)
    ensures |r| >= 5
  {
    var mins := seconds / 60;  // floor division: the divisor is positive
    var secs := JsRem(seconds, 60);
    Pad2(IntToString(mins)) + ":" + Pad2(IntToString(secs))
  }

  /** Below 100 minutes the display is exactly mm:ss. */
  lemma FormatTimeWidth(seconds: int)
    requires 0 <= seconds < 6000
    ensures |FormatTime(seconds)| == 5 && FormatTime(seconds)[2] == ':'
  {
    var m := IntToString(seconds / 60);
    var s := IntToString(JsRem(seconds, 60));
    NatToStringBelow100(seconds / 60);
    NatToStringBelow100(JsRem(seconds, 60));
    Pad2Width(m);
    Pad2Width(s);
    ColonJoin(Pad2(m), Pad2(s));
  }

  lemma Pad2Width(s: string)
    requires |s| <= 2
    ensures |Pad2(s)| == 2
  {
  }

  lemma ColonJoin(a: string, b: string)
    ensures |a + ":" + b| == |a| + 1 + |b|
    ensures (a + ":" + b)[|a|] == ':'
    ensures (a + ":" + b)[..|a|] == a && (a + ":" + b)[|a| + 1..] == b
  {
  }

  lemma NatToStringBelow100(n: nat)
    requires n < 100
    ensures |NatToString(n)| <= 2
  {
    if n >= 10 {
      assert NatToString(n) == NatToString(n / 10) + [DigitChar(n % 10)];
    }
  }

  /** Zeros in front of a numeral do not change its value. */
  lemma {:induction false} LeadingZerosIgnored(z: string, d: string)
    requires forall i :: 0 <= i < |z| ==> z[i] == '0'
    ensures DigitsValue(z + d, 10) == DigitsValue(d, 10)
  {
    if d == [] {
      assert z + d == z;
      AllZerosValue(z);
    } else {
      var n := |d| - 1;
      assert (z + d)[..|z + d| - 1] == z + d[..n];
      LeadingZerosIgnored(z, d[..n]);
    }
  }

  lemma {:induction false} AllZerosValue(z: string)
    requires forall i :: 0 <= i < |z| ==> z[i] == '0'
    ensures DigitsValue(z, 10) == 0
  {
    if z != [] {
      AllZerosValue(z[..|z| - 1]);
    }
  }

  /**
   * For a non-negative count, the text formatTime shows reads back as the
   * count: the digits before the colon are whole minutes, the two after it are
   * the seconds below 60.
   */
  lemma FormatTimeReadsBack(seconds: nat)
    ensures var r := FormatTime(seconds);
      && r[|r| - 3] == ':'
      && AllDigits(r[..|r| - 3], 10) && AllDigits(r[|r| - 2..], 10)
      && DigitsValue(r[|r| - 2..], 10) < 60
      && DigitsValue(r[..|r| - 3], 10) * 60 + DigitsValue(r[|r| - 2..], 10) == seconds
  {
    var mins, secs := seconds / 60, seconds % 60;
    assert JsRem(seconds, 60) == secs;
    var m, s := NatToString(mins), NatToString(secs);
    NatToStringBelow100(secs);
    Pad2Width(s);
    var pm, ps := Pad2(m), Pad2(s);
    ColonJoin(pm, ps);
    assert FormatTime(seconds) == pm + ":" + ps;
    PaddedNumeral(mins);
    PaddedNumeral(secs);
  }

  /** A padded numeral is all digits and keeps its value. */
  lemma PaddedNumeral(n: nat)
    ensures AllDigits(Pad2(NatToString(n)), 10)
    ensures DigitsValue(Pad2(NatToString(n)), 10) == n
  {
    var m := NatToString(n);
    var p := Pad2(m);
    assert p == p[..|p| - |m|] + m;
    LeadingZerosIgnored(p[..|p| - |m|], m);
  }

  // ------------------------------------------------------ rest durations

  const MinuteMark: char := '分'
  const ClockMark: char := '鐘'
  const SecondMark: char := '秒'

  /** The character class /[分分鐘]/ that parseRestTime splits on. */
  const MinuteSeparators: set<char> := {MinuteMark, ClockMark}

  /**
   * parseRestTime: the trimmed text is read as minutes and seconds when it
   * mentions 分, as seconds when it mentions only 秒, and as the default 30
   * otherwise. Every parseInt that yields NaN or 0 counts as 0.
   */
  function ParseRestTime(restTime: string): int {
    ParseTrimmedRestTime(Trim(restTime))
  }

  function ParseTrimmedRestTime(timeStr: string): int {
    if Contains(timeStr, "分鐘") || Contains(timeStr, "分") then
      MinutesAndSeconds(SplitOn(timeStr, MinuteSeparators))
    else if Contains(timeStr, "秒") then
      OrElse(ParseInt(RemoveFirst(timeStr, SecondMark)), 0)
    else
      DefaultRestSeconds
  }

  /** The minutes branch of parseRestTime, given the parts of the split. */
  function MinutesAndSeconds(parts: seq<string>): int
    requires |parts| >= 1
  {
    if |parts| >= 2 then
      var minutes := OrElse(ParseInt(parts[0]), 0);
      var seconds := OrElse(ParseInt(Trim(RemoveFirst(parts[1], SecondMark))), 0);
      minutes * 60 + seconds
    else
      // parseInt(parts[0]) * 60 || 0
      var m := ParseInt(parts[0]);
      OrElse(if m.Some? then Some(m.value * 60) else None, 0)
  }

  const DefaultRestSeconds := 30

  /** formatRestTime: "n秒" below a minute, "m分鐘" for whole minutes, "m分s秒" otherwise. */
  function FormatRestTime(seconds: int): string {
    if seconds < 60 then IntToString(seconds) + "秒"
    else
      var mins := seconds / 60;
      var secs := seconds % 60;
      if secs == 0 then NatToString(mins) + "分鐘"
      else NatToString(mins) + "分" + NatToString(secs) + "秒"
  }

  /**
   * The marks the formatter writes: 分 exactly from one minute up, so the
   * text takes parseRestTime's minutes branch exactly then, and 秒 exactly
   * when there is a seconds part to read.
   */
  lemma FormatRestTimeMarks(seconds: int)
    ensures MinuteMark in FormatRestTime(seconds) <==> seconds >= 60
    ensures SecondMark in FormatRestTime(seconds) <==> seconds < 60 || seconds % 60 != 0
    ensures ClockMark in FormatRestTime(seconds) <==> seconds >= 60 && seconds % 60 == 0
  {
    NumeralHasNoMarks(seconds);
    NumeralHasNoMarks(seconds / 60);
    NumeralHasNoMarks(seconds % 60);
    var r := FormatRestTime(seconds);
    if seconds < 60 {
      assert r == IntToString(seconds) + [SecondMark];
    } else if seconds % 60 == 0 {
      assert r == IntToString(seconds / 60) + [MinuteMark, ClockMark];
    } else {
      assert r == IntToString(seconds / 60) + [MinuteMark] + IntToString(seconds % 60) + [SecondMark];
    }
  }

  // ------------------------------------------------- facts about parsing

  lemma MarksAreNotNumeric(c: char)
    requires c == MinuteMark || c == ClockMark || c == SecondMark
    ensures !IsDigit(c, 10) && c != '-' && c != 'x' && c != 'X' && !IsWhitespace(c)
  {
  }

  /** A character of Trim(s) is a character of s. */
  lemma TrimKeepsChars(s: string, c: char)
    requires c in Trim(s)
    ensures c in s
  {
    var t := TrimStart(s);
    assert Trim(s) == t[..|Trim(s)|];
    TrimStartIsSuffix(s);
  }

  /** includes('分鐘') || includes('分') is the same test as includes('分'). */
  lemma MentionsMinutes(t: string)
    ensures (Contains(t, "分鐘") || Contains(t, "分")) <==> MinuteMark in t
  {
    ContainsChar(t, MinuteMark);
    assert "分" == [MinuteMark];
    if Contains(t, "分鐘") {
      ContainsHasChars(t, "分鐘", 0);
    }
  }

  /** The seconds branch, taken when the trimmed text has 秒 and no 分. */
  lemma SecondsBranch(t: string)
    requires MinuteMark !in t && SecondMark in t
    ensures ParseTrimmedRestTime(t) == OrElse(ParseInt(RemoveFirst(t, SecondMark)), 0)
  {
    MentionsMinutes(t);
    ContainsChar(t, SecondMark);
    assert "秒" == [SecondMark];
  }

  /** The minutes branch, taken when the trimmed text has 分. */
  lemma MinutesBranch(t: string)
    requires MinuteMark in t
    ensures ParseTrimmedRestTime(t) == MinutesAndSeconds(SplitOn(t, MinuteSeparators))
  {
    MentionsMinutes(t);
  }

  /** A numeral written by String(n) holds none of the three marks. */
  lemma NumeralHasNoMarks(n: int)
    ensures MinuteMark !in IntToString(n) && ClockMark !in IntToString(n) && SecondMark !in IntToString(n)
  {
    var d := IntToString(n);
    forall i | 0 <= i < |d| ensures d[i] != MinuteMark && d[i] != ClockMark && d[i] != SecondMark {
      MarksAreNotNumeric(MinuteMark);
      MarksAreNotNumeric(ClockMark);
      MarksAreNotNumeric(SecondMark);
    }
  }

  /** A numeral followed by a mark has nothing to trim. */
  lemma NumeralThenMarkIsTrimmed(d: string, tail: string)
    requires d != [] && (d[0] == '-' || IsDigit(d[0], 10))
    requires tail != [] && (tail[|tail| - 1] == ClockMark || tail[|tail| - 1] == SecondMark)
    ensures Trim(d + tail) == d + tail
  {
    var s := d + tail;
    assert s[0] == d[0];
    assert s[|s| - 1] == tail[|tail| - 1];
    MarksAreNotNumeric(ClockMark);
    MarksAreNotNumeric(SecondMark);
    TrimOfUnpadded(s);
  }

  /** parseInt(String(n)) || 0 is n. */
  lemma ReadNumeral(n: int)
    ensures OrElse(ParseInt(IntToString(n)), 0) == n
  {
    ParseIntOfIntToString(n, []);
    assert IntToString(n) + [] == IntToString(n);
  }

  /** Surrounding whitespace never changes the parsed duration. */
  lemma ParseRestTimeIgnoresPadding(a: string, s: string, b: string)
    requires AllWhitespace(a) && AllWhitespace(b)
    ensures ParseRestTime(a + s + b) == ParseRestTime(s)
  {
    TrimIgnoresPadding(a, s, b);
  }

  /** Text that mentions neither 分 nor 秒 gets the default rest of 30 seconds. */
  lemma ParseRestTimeDefault(s: string)
    requires MinuteMark !in s && SecondMark !in s
    ensures ParseRestTime(s) == 30
  {
    var t := Trim(s);
    if MinuteMark in t { TrimKeepsChars(s, MinuteMark); }
    if SecondMark in t { TrimKeepsChars(s, SecondMark); }
    MentionsMinutes(t);
    ContainsChar(t, SecondMark);
    assert "秒" == [SecondMark];
  }

  /**
   * Whenever 分 is present the split has at least two parts, so the branch of
   * parseRestTime that multiplies parts[0] alone by 60 is never taken.
   */
  lemma MinuteTextSplitsInTwo(s: string)
    requires MinuteMark in Trim(s)
    ensures |SplitOn(Trim(s), MinuteSeparators)| >= 2
  {
    var t := Trim(s);
    var k :| 0 <= k < |t| && t[k] == MinuteMark;
    SplitOnSeparatorGivesTwo(t, MinuteSeparators, k);
  }

  /** When the trimmed text has 秒 and no 分 and starts with no digit or sign, the duration is 0. */
  lemma ParseRestTimeNoNumber(s: string)
    requires var t := Trim(s); MinuteMark !in t && SecondMark in t
    requires var t := Trim(s); t != [] && !IsDigit(t[0], 10) && t[0] != '-' && t[0] != '+' && t[0] != SecondMark
    ensures ParseRestTime(s) == 0
  {
    var t := Trim(s);
    SecondsBranch(t);
    var u := RemoveFirst(t, SecondMark);
    assert u[0] == t[0];
    NoLeadingDigitIsNaN(u);
  }

  /** parseInt of text that starts with neither a digit nor a sign is NaN. */
  lemma NoLeadingDigitIsNaN(u: string)
    requires u != [] && !IsWhitespace(u[0]) && !IsDigit(u[0], 10) && u[0] != '-' && u[0] != '+'
    ensures ParseInt(u) == None
  {
    TrimStartOfUnpadded(u);
    assert DigitsAfterSign(u) == (u, 10);
  }

  // "n秒": one lemma per step, so that no proof sees all of the definitions at once.

  lemma SecondsFormTrimmed(n: int)
    ensures Trim(IntToString(n) + [SecondMark]) == IntToString(n) + [SecondMark]
  {
    NumeralThenMarkIsTrimmed(IntToString(n), [SecondMark]);
  }

  lemma SecondsFormNeedsNoTrim(n: int)
    ensures ParseRestTime(IntToString(n) + [SecondMark]) == ParseTrimmedRestTime(IntToString(n) + [SecondMark])
  {
    SecondsFormTrimmed(n);
  }

  lemma SecondsFormBranch(n: int)
    ensures var s := IntToString(n) + [SecondMark];
      ParseTrimmedRestTime(s) == OrElse(ParseInt(RemoveFirst(s, SecondMark)), 0)
  {
    var s := IntToString(n) + [SecondMark];
    NumeralHasNoMarks(n);
    assert s[|s| - 1] == SecondMark;
    SecondsBranch(s);
  }

  /** Dropping the first 秒 of "n秒" leaves the numeral. */
  lemma MarkRemoved(d: string, c: char)
    requires c !in d
    ensures RemoveFirst(d + [c], c) == d
  {
    RemoveFirstOccurrence(d, c, []);
    assert d + [] == d;
    assert d + [c] + [] == d + [c];
  }

  /** "n秒" parses to n, for every integer n. */
  lemma ParseSecondsForm(n: int)
    ensures ParseRestTime(IntToString(n) + [SecondMark]) == n
  {
    SecondsFormNeedsNoTrim(n);
    SecondsFormBranch(n);
    NumeralHasNoMarks(n);
    MarkRemoved(IntToString(n), SecondMark);
    ReadNumeral(n);
  }

  // "m分鐘"

  lemma WholeMinutesTrimmed(m: nat)
    ensures Trim(NatToString(m) + [MinuteMark, ClockMark]) == NatToString(m) + [MinuteMark, ClockMark]
  {
    NumeralThenMarkIsTrimmed(NatToString(m), [MinuteMark, ClockMark]);
  }

  lemma WholeMinutesNeedsNoTrim(m: nat)
    ensures ParseRestTime(NatToString(m) + [MinuteMark, ClockMark])
         == ParseTrimmedRestTime(NatToString(m) + [MinuteMark, ClockMark])
  {
    WholeMinutesTrimmed(m);
  }

  lemma WholeMinutesBranch(m: nat)
    ensures var s := NatToString(m) + [MinuteMark, ClockMark];
      ParseTrimmedRestTime(s) == MinutesAndSeconds(SplitOn(s, MinuteSeparators))
  {
    var d := NatToString(m);
    var s := d + [MinuteMark, ClockMark];
    assert s[|d|] == MinuteMark;
    MinutesBranch(s);
  }

  lemma WholeMinutesSplit(m: nat)
    ensures SplitOn(NatToString(m) + [MinuteMark, ClockMark], MinuteSeparators) == [NatToString(m), "", ""]
  {
    var d := NatToString(m);
    NumeralHasNoMarks(m);
    assert d + [MinuteMark, ClockMark] == d + [MinuteMark] + [ClockMark];
    SplitOnFirstSeparator(d, MinuteMark, [ClockMark], MinuteSeparators);
    assert [ClockMark] == [] + [ClockMark] + [];
    SplitOnFirstSeparator([], ClockMark, [], MinuteSeparators);
    SplitOnWithoutSeparator([], MinuteSeparators);
  }

  lemma WholeMinutesParts(m: nat)
    ensures MinutesAndSeconds([NatToString(m), "", ""]) == m * 60
  {
    MinutesAndSecondsOfParts([NatToString(m), "", ""]);
    ReadNatNumeral(m);
    EmptySecondsField();
  }

  /** With two parts or more, the minutes come from the first and the seconds from the second. */
  lemma MinutesAndSecondsOfParts(parts: seq<string>)
    requires |parts| >= 2
    ensures MinutesAndSeconds(parts)
         == OrElse(ParseInt(parts[0]), 0) * 60 + OrElse(ParseInt(Trim(RemoveFirst(parts[1], SecondMark))), 0)
  {
  }

  lemma ReadNatNumeral(m: nat)
    ensures OrElse(ParseInt(NatToString(m)), 0) == m
  {
    ReadNumeral(m);
  }

  /** An empty seconds field counts as 0. */
  lemma EmptySecondsField()
    ensures OrElse(ParseInt(Trim(RemoveFirst("", SecondMark))), 0) == 0
  {
    assert RemoveFirst("", SecondMark) == "";
    assert TrimEnd("") == "" && TrimStart("") == "";
    assert ParseInt("") == None;
  }

  /** A seconds field "s秒" counts as s. */
  lemma SecondsField(sec: nat)
    ensures OrElse(ParseInt(Trim(RemoveFirst(NatToString(sec) + [SecondMark], SecondMark))), 0) == sec
  {
    var e := NatToString(sec);
    NumeralHasNoMarks(sec);
    MarkRemoved(e, SecondMark);
    TrimOfUnpadded(e);
    ReadNatNumeral(sec);
  }

  /** "m分鐘" parses to m minutes. */
  lemma ParseWholeMinutesForm(m: nat)
    ensures ParseRestTime(NatToString(m) + [MinuteMark, ClockMark]) == m * 60
  {
    WholeMinutesNeedsNoTrim(m);
    WholeMinutesBranch(m);
    WholeMinutesSplit(m);
    WholeMinutesParts(m);
  }

  // "m分s秒"

  function MinutesSecondsText(m: nat, sec: nat): string {
    NatToString(m) + [MinuteMark] + NatToString(sec) + [SecondMark]
  }

  lemma MinutesSecondsTrimmed(m: nat, sec: nat)
    ensures Trim(MinutesSecondsText(m, sec)) == MinutesSecondsText(m, sec)
  {
    var d, e := NatToString(m), NatToString(sec);
    assert MinutesSecondsText(m, sec) == d + ([MinuteMark] + e + [SecondMark]);
    NumeralThenMarkIsTrimmed(d, [MinuteMark] + e + [SecondMark]);
  }

  lemma MinutesSecondsNeedsNoTrim(m: nat, sec: nat)
    ensures ParseRestTime(MinutesSecondsText(m, sec)) == ParseTrimmedRestTime(MinutesSecondsText(m, sec))
  {
    MinutesSecondsTrimmed(m, sec);
  }

  lemma MinutesSecondsBranch(m: nat, sec: nat)
    ensures var s := MinutesSecondsText(m, sec);
      ParseTrimmedRestTime(s) == MinutesAndSeconds(SplitOn(s, MinuteSeparators))
  {
    var s := MinutesSecondsText(m, sec);
    assert s[|NatToString(m)|] == MinuteMark;
    MinutesBranch(s);
  }

  lemma MinutesSecondsSplit(m: nat, sec: nat)
    ensures SplitOn(MinutesSecondsText(m, sec), MinuteSeparators)
         == [NatToString(m), NatToString(sec) + [SecondMark]]
  {
    var d, e := NatToString(m), NatToString(sec);
    NumeralHasNoMarks(m);
    NumeralHasNoMarks(sec);
    assert MinutesSecondsText(m, sec) == d + [MinuteMark] + (e + [SecondMark]);
    SplitOnFirstSeparator(d, MinuteMark, e + [SecondMark], MinuteSeparators);
    SplitOnWithoutSeparator(e + [SecondMark], MinuteSeparators);
  }

  lemma MinutesSecondsParts(m: nat, sec: nat)
    ensures MinutesAndSeconds([NatToString(m), NatToString(sec) + [SecondMark]]) == m * 60 + sec
  {
    MinutesAndSecondsOfParts([NatToString(m), NatToString(sec) + [SecondMark]]);
    ReadNatNumeral(m);
    SecondsField(sec);
  }

  /** "m分s秒" parses to m minutes and s seconds. */
  lemma ParseMinutesSecondsForm(m: nat, sec: nat)
    ensures ParseRestTime(MinutesSecondsText(m, sec)) == m * 60 + sec
  {
    MinutesSecondsNeedsNoTrim(m, sec);
    MinutesSecondsBranch(m, sec);
    MinutesSecondsSplit(m, sec);
    MinutesSecondsParts(m, sec);
  }

  /** parseRestTime reads back every duration formatRestTime writes. */
  lemma RestTimeRoundTrip(seconds: int)
    ensures ParseRestTime(FormatRestTime(seconds)) == seconds
  {
    if seconds < 60 {
      ParseSecondsForm(seconds);
    } else if seconds % 60 == 0 {
      ParseWholeMinutesForm(seconds / 60);
    } else {
      ParseMinutesSecondsForm(seconds / 60, seconds % 60);
      assert FormatRestTime(seconds) == MinutesSecondsText(seconds / 60, seconds % 60);
    }
  }

  /** The three forms written in the editor's placeholder text, and padding around one. */
  lemma ParseRestTimeExamples()
    ensures ParseRestTime("45秒") == 45
    ensures ParseRestTime("2分鐘") == 120
    ensures ParseRestTime("1分30秒") == 90
    ensures ParseRestTime(" 30秒 ") == 30
  {
    ExampleSeconds();
    ExampleMinutes();
    ExampleMinutesSeconds();
    ExamplePadded();
  }

  lemma ExampleSeconds()
    ensures ParseRestTime("45秒") == 45
  {
    ParseSecondsForm(45);
    SecondsText45();
  }

  lemma ExampleMinutes()
    ensures ParseRestTime("2分鐘") == 120
  {
    ParseWholeMinutesForm(2);
    WholeMinutesText();
  }

  lemma ExampleMinutesSeconds()
    ensures ParseRestTime("1分30秒") == 90
  {
    ParseMinutesSecondsForm(1, 30);
    MinutesSecondsTextExample();
  }

  lemma ExamplePadded()
    ensures ParseRestTime(" 30秒 ") == 30
  {
    ExampleThirtySeconds();
    PaddedThirty();
  }

  lemma ExampleThirtySeconds()
    ensures ParseRestTime("30秒") == 30
  {
    ParseSecondsForm(30);
    SecondsText30();
  }

  lemma PaddedThirty()
    ensures ParseRestTime(" 30秒 ") == ParseRestTime("30秒")
  {
    assert " " + "30秒" + " " == " 30秒 ";
    ParseRestTimeIgnoresPadding(" ", "30秒", " ");
  }

  lemma SecondsText45()
    ensures IntToString(45) + [SecondMark] == "45秒"
  {
    assert NatToString(45) == NatToString(4) + [DigitChar(5)];
  }

  lemma SecondsText30()
    ensures IntToString(30) + [SecondMark] == "30秒"
  {
    assert NatToString(30) == NatToString(3) + [DigitChar(0)];
  }

  lemma WholeMinutesText()
    ensures NatToString(2) + [MinuteMark, ClockMark] == "2分鐘"
  {
  }

  lemma MinutesSecondsTextExample()
    ensures MinutesSecondsText(1, 30) == "1分30秒"
  {
    assert NatToString(30) == NatToString(3) + [DigitChar(0)];
  }
}
