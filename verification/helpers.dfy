/** The string helpers: truncation, 12-hour time formatting, word
    capitalisation, HTML tag stripping and the status colour map. */
module Helpers {
  import opened Wrappers
  import opened Seqs
  import opened Text

  // ---------------------------------------------------------------------
  // truncateString

  /** The length `truncateString` uses when the caller gives none. */
  const DefaultTruncateLength := 50

  /** The end index `s.slice(0, end)` stops at: a negative end counts from
      the back, and both are clamped to the string. */
  function SliceEnd(len: nat, end: int): (k: nat)
    ensures k <= len
    ensures 0 <= end ==> k == if end < len then end else len
    ensures end < 0 ==> k == if len + end < 0 then 0 else len + end
  {
    if end < 0 then (if len + end < 0 then 0 else len + end)
    else if end < len then end else len
  }

  /** `''` for the empty string, the string itself when it fits, otherwise
      its first `length` characters followed by `"..."`. */
  function TruncateString(s: string, length: int): (r: string)
    ensures s == [] ==> r == []
    ensures s != [] && |s| <= length ==> r == s
    ensures s != [] && |s| > length ==> |r| >= 3 && r[|r| - 3..] == "..." && r[..|r| - 3] <= s
    ensures s != [] && 0 <= length < |s| ==> |r| == length + 3
    ensures s != [] && length < 0 ==> |r| == 3 + if |s| + length < 0 then 0 else |s| + length
  {
    if s == [] then []
    else if |s| <= length then s
    else
      var k := SliceEnd(|s|, length);
      var r := s[..k] + "...";
      assert |r| == k + 3 && r[..k] == s[..k] && r[k..] == "...";
      r
  }

  /** `truncateString(str)`: the length defaults to 50. */
  function TruncateDefault(s: string): (r: string)
    ensures |s| <= DefaultTruncateLength ==> r == s
    ensures |s| > DefaultTruncateLength ==> r == s[..DefaultTruncateLength] + "..."
  {
    TruncateKeepsLongestPrefix(s, DefaultTruncateLength);
    TruncateString(s, DefaultTruncateLength)
  }

  /** With a non-negative length the result never exceeds it by more than
      the ellipsis, and it keeps the longest prefix that fits. */
  lemma TruncateKeepsLongestPrefix(s: string, length: nat)
    ensures |TruncateString(s, length)| <= length + 3
    ensures |s| > length ==> TruncateString(s, length) == s[..length] + "..."
  {
  }

  // ---------------------------------------------------------------------
  // formatTime

  /** The leading run of decimal digits. */
  function LeadingDigits(s: string): (r: string)
    ensures r <= s
    ensures forall i :: 0 <= i < |r| ==> IsDigit(s[i])
    ensures |r| < |s| ==> !IsDigit(s[|r|])
    decreases |s|
  {
    if s != [] && IsDigit(s[0]) then [s[0]] + LeadingDigits(s[1..]) else []
  }

  /** `parseInt(s, 10)`: optional leading whitespace, an optional sign, then
      the longest run of digits; `None` stands for `NaN`. */
  function ParseInt(s: string): (r: Option<int>)
    ensures r.None? <==> LeadingDigits(SignStripped(TrimStart(s))) == []
  {
    var t := TrimStart(s);
    var negative := t != [] && t[0] == '-';
    var digits := LeadingDigits(SignStripped(t));
    if digits == [] then None
    else
      var value: int := DecimalValue(digits);
      Some(if negative then -value else value)
  }

  /** The text after an optional leading sign. */
  function SignStripped(t: string): string {
    if t != [] && (t[0] == '-' || t[0] == '+') then t[1..] else t
  }

  /** A run of digits is its own leading run. */
  lemma {:induction false} LeadingDigitsOfDigits(s: string)
    requires forall i :: 0 <= i < |s| ==> IsDigit(s[i])
    ensures LeadingDigits(s) == s
    decreases |s|
  {
    if s != [] {
      LeadingDigitsOfDigits(s[1..]);
      assert [s[0]] + s[1..] == s;
    }
  }

  /** A non-empty string of digits parses to the number it denotes. */
  lemma ParseIntOfDigits(s: string)
    requires s != [] && forall i :: 0 <= i < |s| ==> IsDigit(s[i])
    ensures ParseInt(s) == Some(DecimalValue(s))
  {
    DigitIsNotWhitespace(s[0]);
    assert TrimStart(s) == s;
    assert SignStripped(s) == s;
    LeadingDigitsOfDigits(s);
  }

  lemma DigitIsNotWhitespace(c: char)
    requires IsDigit(c)
    ensures !IsWhitespace(c)
  {
  }

  /** JavaScript's `%`: the remainder takes the sign of the dividend. */
  function JsRem(a: int, b: int): (r: int)
    requires b > 0
    ensures -b < r < b
    ensures a >= 0 ==> r == a % b
    ensures a < 0 ==> r <= 0
  {
    if a >= 0 then a % b else -((-a) % b)
  }

  /** Splits at `':'`, parses the hours and prints `h:mm AM|PM` with the
      hour on a 12-hour clock. A missing minutes part prints as
      `undefined`, unparsable hours as `NaN`. */
  function FormatTime(t: string): (r: string)
    ensures t == [] <==> r == []
  {
    if t == [] then []
    else
      var parts := Split(t, ':');
      RenderTime(ParseInt(parts[0]), if |parts| >= 2 then parts[1] else "undefined")
  }

  /** The template `${formattedHour}:${minutes} ${period}`. */
  function RenderTime(hour: Option<int>, minutes: string): (r: string)
    ensures r != []
  {
    match hour
    case None => "NaN:" + minutes + " AM"
    case Some(h) =>
      var rem := JsRem(h, 12);
      IntToString(if rem == 0 then 12 else rem) + ":" + minutes + " " + (if h >= 12 then "PM" else "AM")
  }

  /** The hour a 12-hour clock shows for a 24-hour hour. */
  function ClockHour(h: int): (r: int)
    requires 0 <= h <= 23
    ensures 1 <= r <= 12
    ensures h == 0 || h == 12 ==> r == 12
    ensures 13 <= h ==> r == h - 12
  {
    if h == 0 then 12 else if h <= 12 then h else h - 12
  }

  /** The hour `formatTime` prints, `hour % 12 === 0 ? 12 : hour % 12`,
      is the clock hour for every hour of the day. */
  lemma ShownHourIsClockHour(h: int)
    requires 0 <= h <= 23
    ensures (if JsRem(h, 12) == 0 then 12 else JsRem(h, 12)) == ClockHour(h)
  {
  }

  /** Digits contain no colon. */
  lemma DigitsHaveNoColon(hh: string)
    requires forall i :: 0 <= i < |hh| ==> IsDigit(hh[i])
    ensures ':' !in hh
  {
    forall i | 0 <= i < |hh| ensures hh[i] != ':' { assert IsDigit(hh[i]); }
  }

  /** How a clock shows hour `h` of the day with the given minutes. */
  function ClockTime(h: int, minutes: string): string
    requires 0 <= h <= 23
  {
    IntToString(ClockHour(h)) + ":" + minutes + " " + (if h >= 12 then "PM" else "AM")
  }

  /** For an hour of the day the template shows the clock hour, and `PM`
      exactly from hour 12 on. */
  lemma RenderClockHour(h: int, minutes: string)
    requires 0 <= h <= 23
    ensures RenderTime(Some(h), minutes) == ClockTime(h, minutes)
  {
    ShownHourIsClockHour(h);
  }

  /** On `HH:MM` input with an hour from 0 to 23 the result is the clock
      hour, the minutes verbatim, and `PM` exactly from hour 12 on. */
  lemma FormatTimeOfClockTime(hh: string, mm: string)
    requires hh != [] && forall i :: 0 <= i < |hh| ==> IsDigit(hh[i])
    requires DecimalValue(hh) <= 23
    requires ':' !in mm
    ensures FormatTime(hh + ":" + mm) == ClockTime(DecimalValue(hh), mm)
  {
    SplitClock(hh, mm);
    ParseIntOfDigits(hh);
    FormatTimeOfParts(hh + ":" + mm, DecimalValue(hh), mm);
    RenderClockHour(DecimalValue(hh), mm);
  }

  /** Hours and minutes separated by the one colon split into two parts. */
  lemma SplitClock(hh: string, mm: string)
    requires forall i :: 0 <= i < |hh| ==> IsDigit(hh[i])
    requires ':' !in mm
    ensures Split(hh + ":" + mm, ':') == [hh, mm]
  {
    DigitsHaveNoColon(hh);
    SplitAtFirstSeparator(hh, mm, ':');
    SplitWithoutSeparator(mm, ':');
    assert hh + ":" + mm == hh + [':'] + mm;
  }

  /** Without a colon the minutes print as `undefined`. */
  lemma FormatTimeWithoutColon(hh: string)
    requires hh != [] && forall i :: 0 <= i < |hh| ==> IsDigit(hh[i])
    requires DecimalValue(hh) <= 23
    ensures FormatTime(hh) == ClockTime(DecimalValue(hh), "undefined")
  {
    DigitsHaveNoColon(hh);
    SplitWithoutSeparator(hh, ':');
    ParseIntOfDigits(hh);
    FormatTimeOfParts(hh, DecimalValue(hh), "undefined");
    RenderClockHour(DecimalValue(hh), "undefined");
  }

  /** `formatTime` renders the parsed hour and the minutes part. */
  lemma FormatTimeOfParts(t: string, h: int, minutes: string)
    requires t != [] && ParseInt(Split(t, ':')[0]) == Some(h)
    requires minutes == if |Split(t, ':')| >= 2 then Split(t, ':')[1] else "undefined"
    ensures FormatTime(t) == RenderTime(Some(h), minutes)
  {
  }

  // ---------------------------------------------------------------------
  // capitalizeWords

  /** `word.charAt(0).toUpperCase() + word.slice(1).toLowerCase()`. */
  function CapitalizeWord(w: string): (r: string)
    ensures |r| == |w|
    ensures w != [] ==> r[0] == UpperChar(w[0])
    ensures forall i :: 1 <= i < |w| ==> r[i] == LowerChar(w[i])
    ensures ' ' !in w ==> ' ' !in r
    ensures r != [] ==> !IsLowerAscii(r[0])
    ensures forall i :: 1 <= i < |r| ==> !IsUpperAscii(r[i])
  {
    if w == [] then [] else [UpperChar(w[0])] + Lower(w[1..])
  }

  /** Splits on single spaces, capitalises each piece, joins with single
      spaces. */
  function CapitalizeWords(s: string): (r: string)
    ensures s == [] ==> r == []
  {
    if s == [] then [] else Join(Map(CapitalizeWord, Split(s, ' ')), ' ')
  }

  /** Capitalising a capitalised word changes nothing. */
  lemma CapitalizeWordIdempotent(w: string)
    ensures CapitalizeWord(CapitalizeWord(w)) == CapitalizeWord(w)
  {
    if w != [] {
      var r := CapitalizeWord(w);
      assert r[1..] == Lower(w[1..]);
      assert Lower(r[1..]) == r[1..];
    }
  }

  /** The result has exactly the words of the input, each capitalised: the
      word count is preserved. */
  lemma CapitalizeWordsKeepsWords(s: string)
    ensures Split(CapitalizeWords(s), ' ') == Map(CapitalizeWord, Split(s, ' '))
    ensures |Split(CapitalizeWords(s), ' ')| == |Split(s, ' ')|
  {
    var ws := Map(CapitalizeWord, Split(s, ' '));
    if s == [] {
      assert Split(s, ' ') == [[]];
      assert ws == [[]];
    } else {
      SplitJoin(ws, ' ');
    }
  }

  /** Capitalising twice is the same as capitalising once. */
  lemma CapitalizeWordsIdempotent(s: string)
    ensures CapitalizeWords(CapitalizeWords(s)) == CapitalizeWords(s)
  {
    var r := CapitalizeWords(s);
    if r != [] {
      CapitalizeWordsKeepsWords(s);
      var ws := Map(CapitalizeWord, Split(s, ' '));
      assert Map(CapitalizeWord, ws) == ws by {
        forall i | 0 <= i < |ws| ensures CapitalizeWord(ws[i]) == ws[i] {
          CapitalizeWordIdempotent(Split(s, ' ')[i]);
        }
      }
      JoinSplit(r, ' ');
    }
  }

  // ---------------------------------------------------------------------
  // stripHtml

  /** `html.replace(/<[^>]*>/g, '')`: scanning left to right, every `<`
      with a later `>` is removed together with the text up to the first
      such `>`; a `<` with no `>` after it stays, and so does everything
      after it. */
  function StripHtml(s: string): (r: string)
    ensures |r| <= |s|
    ensures '<' !in s ==> r == s
    decreases |s|
  {
    if s == [] then []
    else if s[0] == '<' then
      match IndexOfChar(s[1..], '>')
      case None => s
      case Some(j) => StripHtml(s[j + 2..])
    else [s[0]] + StripHtml(s[1..])
  }

  /** No `<` has a `>` anywhere after it: nothing is left for the pattern
      to match. */
  predicate TagFree(s: string) {
    forall i, j :: 0 <= i < j < |s| && s[i] == '<' ==> s[j] != '>'
  }

  /** A string with no `>` after its first character is tag-free. */
  lemma TagFreeWithoutClose(s: string)
    requires s != [] && '>' !in s[1..]
    ensures TagFree(s)
  {
    forall i, j | 0 <= i < j < |s| && s[i] == '<' ensures s[j] != '>' {
      assert s[j] == s[1..][j - 1];
    }
  }

  /** Putting a character other than `<` in front keeps a string tag-free. */
  lemma TagFreeCons(c: char, t: string)
    requires c != '<' && TagFree(t)
    ensures TagFree([c] + t)
  {
    var u := [c] + t;
    forall i, j | 0 <= i < j < |u| && u[i] == '<' ensures u[j] != '>' {
      assert u[i] == t[i - 1] && u[j] == t[j - 1];
    }
  }

  /** The result is tag-free. */
  lemma {:induction false} StripHtmlTagFree(s: string)
    ensures TagFree(StripHtml(s))
    decreases |s|
  {
    if s != [] {
      if s[0] == '<' {
        match IndexOfChar(s[1..], '>')
        case None =>
          TagFreeWithoutClose(s);
        case Some(j) =>
          assert StripHtml(s) == StripHtml(s[j + 2..]);
          StripHtmlTagFree(s[j + 2..]);
      } else {
        StripHtmlTagFree(s[1..]);
        assert StripHtml(s) == [s[0]] + StripHtml(s[1..]);
        TagFreeCons(s[0], StripHtml(s[1..]));
      }
    }
  }

  /** Tag-free text passes through unchanged. */
  lemma {:induction false} StripHtmlKeepsTagFree(s: string)
    requires TagFree(s)
    ensures StripHtml(s) == s
    decreases |s|
  {
    if s != [] {
      if s[0] == '<' {
        match IndexOfChar(s[1..], '>')
        case None =>
        case Some(j) =>
          assert false;
      } else {
        StripHtmlKeepsTagFree(s[1..]);
        assert [s[0]] + s[1..] == s;
      }
    }
  }

  /** Stripping twice is the same as stripping once. */
  lemma StripHtmlIdempotent(s: string)
    ensures StripHtml(StripHtml(s)) == StripHtml(s)
  {
    StripHtmlTagFree(s);
    StripHtmlKeepsTagFree(StripHtml(s));
  }

  // ---------------------------------------------------------------------
  // getStatusColor

  /** The statuses with a colour of their own. */
  const StatusColors: map<string, string> := map[
    "proposed" := "warning", "in-progress" := "info", "approved" := "success",
    "rejected" := "danger", "upcoming" := "success", "completed" := "secondary",
    "cancelled" := "danger"]

  /** `statusMap[status] || 'secondary'`. */
  function GetStatusColor(status: string): (r: string)
    ensures status in StatusColors ==> r == StatusColors[status]
    ensures status !in StatusColors ==> r == "secondary"
    ensures r in {"warning", "info", "success", "danger", "secondary"}
  {
    if status in StatusColors then StatusColors[status] else "secondary"
  }
}
