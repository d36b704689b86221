/** `formatNumber`: `number.toString()` with every match of
    `/\B(?=(\d{3})+(?!\d))/g` replaced by a comma. The regular expression
    is modelled on any string; `RefGroup` is thousands grouping defined
    independently, from the right. */
module NumberFormat {
  import opened Wrappers
  import opened Seqs
  import opened Text

  /** Length of the run of digits starting at `p`. */
  function DigitRun(s: string, p: nat): (n: nat)
    requires p <= |s|
    ensures p + n <= |s|
    decreases |s| - p
  {
    if p < |s| && IsDigit(s[p]) then 1 + DigitRun(s, p + 1) else 0
  }

  /** `\w` holds at index `i` (false outside the string). */
  predicate WordAt(s: string, i: int) {
    0 <= i < |s| && IsWordChar(s[i])
  }

  /** The pattern matches, with zero width, at position `p`: `\B` (no word
      boundary between `p - 1` and `p`) and, looking ahead, the digits from
      `p` on come in whole groups of three up to a non-digit or the end. */
  predicate CommaBefore(s: string, p: nat)
    requires p <= |s|
  {
    && (WordAt(s, p - 1) <==> WordAt(s, p))
    && DigitRun(s, p) > 0 && DigitRun(s, p) % 3 == 0
  }

  /** The output for the first `q` characters: each character, preceded by
      a comma where the pattern matches in the original string. */
  function GroupPrefix(s: string, q: nat): string
    requires q <= |s|
    decreases q
  {
    if q == 0 then []
    else GroupPrefix(s, q - 1) + (if CommaBefore(s, q - 1) then "," else "") + [s[q - 1]]
  }

  /** The global replacement on the whole string. */
  function GroupThousands(s: string): string {
    GroupPrefix(s, |s|)
  }

  /** Thousands grouping of a digit string, built from the right. */
  function RefGroup(d: string): string
    decreases |d|
  {
    if |d| <= 3 then d else RefGroup(d[..|d| - 3]) + "," + d[|d| - 3..]
  }

  /** `formatNumber` on an integer; `None` is `undefined` or `null`. */
  function FormatNumber(n: Option<int>): (r: string)
    ensures n.None? ==> r == []
    ensures n.Some? && n.value >= 0 ==> r == RefGroup(Decimal(n.value))
    ensures n.Some? && n.value < 0 ==> r == "-" + RefGroup(Decimal(-n.value))
  {
    match n
    case None => []
    case Some(i) =>
      var r := GroupThousands(IntToString(i));
      if i >= 0 then GroupDigits(Decimal(i)); r
      else GroupNegative(Decimal(-i)); r
  }

  // ---------------------------------------------------------------------
  // The pattern on digit strings

  /** From a position where only digits follow, the run reaches the end. */
  lemma {:induction false} DigitRunToEnd(s: string, p: nat)
    requires p <= |s|
    requires forall i :: p <= i < |s| ==> IsDigit(s[i])
    ensures DigitRun(s, p) == |s| - p
    decreases |s| - p
  {
    if p < |s| {
      DigitRunToEnd(s, p + 1);
    }
  }

  /** In a digit string the pattern matches exactly at the positions with a
      positive multiple of three digits after them, except the first. */
  lemma CommaInDigits(s: string, p: nat)
    requires AllDigits(s) && p < |s|
    ensures CommaBefore(s, p) <==> 0 < p && (|s| - p) % 3 == 0
  {
    DigitRunToEnd(s, p);
    assert IsDigit(s[p]);
    if p > 0 {
      assert IsDigit(s[p - 1]);
    }
  }

  /** Two strings that agree on the characters and on the match positions
      of a prefix produce the same output for it. */
  lemma {:induction false} GroupPrefixAgrees(s: string, t: string, q: nat)
    requires q <= |s| && q <= |t|
    requires forall p :: 0 <= p < q ==> s[p] == t[p] && (CommaBefore(s, p) <==> CommaBefore(t, p))
    ensures GroupPrefix(s, q) == GroupPrefix(t, q)
    decreases q
  {
    if q > 0 {
      GroupPrefixAgrees(s, t, q - 1);
    }
  }

  /** Up to three digits get no comma. */
  lemma {:induction false} GroupShortDigits(s: string, q: nat)
    requires AllDigits(s) && |s| <= 3 && q <= |s|
    ensures GroupPrefix(s, q) == s[..q]
    decreases q
  {
    if q > 0 {
      GroupShortDigits(s, q - 1);
      CommaInDigits(s, q - 1);
      assert s[..q] == s[..q - 1] + [s[q - 1]];
    }
  }

  /** The last three digits come out as they are, after a comma when more
      digits precede them. */
  lemma GroupLastThree(s: string)
    requires AllDigits(s) && |s| >= 3
    ensures GroupPrefix(s, |s|)
         == GroupPrefix(s, |s| - 3) + (if |s| > 3 then "," else "") + [s[|s| - 3]] + [s[|s| - 2]] + [s[|s| - 1]]
  {
    var n := |s|;
    var front := GroupPrefix(s, n - 3);
    var sep: string := if n > 3 then "," else "";
    CommaInDigits(s, n - 3);
    assert GroupPrefix(s, n - 2) == front + sep + [s[n - 3]];
    CommaInDigits(s, n - 2);
    GroupStepWithoutComma(s, n - 2, front + sep + [s[n - 3]]);
    CommaInDigits(s, n - 1);
    GroupStepWithoutComma(s, n - 1, front + sep + [s[n - 3]] + [s[n - 2]]);
  }

  lemma CommaThenLastThree(x: string, s: string)
    requires |s| >= 3
    ensures x + "," + [s[|s| - 3]] + [s[|s| - 2]] + [s[|s| - 1]] == x + "," + s[|s| - 3..]
  {
    assert s[|s| - 3..] == [s[|s| - 3]] + [s[|s| - 2]] + [s[|s| - 1]];
  }

  /** A position where the pattern does not match adds just its character. */
  lemma GroupStepWithoutComma(s: string, q: nat, before: string)
    requires q < |s| && GroupPrefix(s, q) == before && !CommaBefore(s, q)
    ensures GroupPrefix(s, q + 1) == before + [s[q]]
  {
  }

  /** On a digit string the replacement is exactly thousands grouping. */
  lemma {:induction false} GroupDigits(d: string)
    requires AllDigits(d)
    ensures GroupThousands(d) == RefGroup(d)
    decreases |d|
  {
    var n := |d|;
    if n <= 3 {
      GroupShortDigits(d, n);
      assert d[..n] == d;
    } else {
      var front := d[..n - 3];
      DigitsSplit(d, n - 3);
      GroupDigits(front);
      GroupFront(d, n - 3);
      GroupLastThree(d);
      CommaThenLastThree(GroupPrefix(d, n - 3), d);
      RefGroupStep(d);
    }
  }

  /** Cutting a multiple of three digits off the end leaves the match
      positions of the front unchanged. */
  lemma GroupFront(d: string, k: nat)
    requires AllDigits(d) && k <= |d| && (|d| - k) % 3 == 0
    ensures GroupPrefix(d, k) == GroupThousands(d[..k])
  {
    var front := d[..k];
    DigitsSplit(d, k);
    forall p | 0 <= p < k
      ensures d[p] == front[p] && (CommaBefore(d, p) <==> CommaBefore(front, p))
    {
      CommaInDigits(d, p);
      CommaInDigits(front, p);
    }
    GroupPrefixAgrees(d, front, k);
  }

  /** A leading minus sign is never followed by a comma, and shifts every
      other position by one. */
  lemma {:induction false} GroupAfterMinus(d: string, q: nat)
    requires AllDigits(d) && 1 <= q <= |d| + 1
    ensures GroupPrefix("-" + d, q) == "-" + GroupPrefix(d, q - 1)
    decreases q
  {
    var s := "-" + d;
    if q == 1 {
      assert !WordAt(s, 0);
      assert !CommaBefore(s, 0);
    } else {
      GroupAfterMinus(d, q - 1);
      var p := q - 1;
      DigitRunToEnd(s, p);
      DigitRunToEnd(d, p - 1);
      assert WordAt(s, p) <==> WordAt(d, p - 1);
      assert WordAt(s, p - 1) <==> WordAt(d, p - 2);
      assert CommaBefore(s, p) <==> CommaBefore(d, p - 1);
    }
  }

  lemma GroupNegative(d: string)
    requires AllDigits(d)
    ensures GroupThousands("-" + d) == "-" + RefGroup(d)
  {
    GroupAfterMinus(d, |d| + 1);
    GroupDigits(d);
  }

  // ---------------------------------------------------------------------
  // What the grouping looks like

  function IsNotComma(c: char): bool {
    c != ','
  }

  lemma RefGroupStep(d: string)
    requires |d| > 3
    ensures RefGroup(d) == RefGroup(d[..|d| - 3]) + "," + d[|d| - 3..]
  {
  }

  /** Deleting the commas of a grouped digit string gives the digits back. */
  lemma {:induction false} RefGroupRemoveCommas(d: string)
    requires AllDigits(d)
    ensures Filter(IsNotComma, RefGroup(d)) == d
    decreases |d|
  {
    var n := |d|;
    if n <= 3 {
      NoCommaInDigits(d);
      FilterKeepsAll(IsNotComma, d);
    } else {
      var front, last := d[..n - 3], d[n - 3..];
      DigitsSplit(d, n - 3);
      RefGroupRemoveCommas(front);
      NoCommaInDigits(last);
      RemoveCommasAroundComma(RefGroup(front), front, last);
      RefGroupStep(d);
      assert front + last == d;
    }
  }

  lemma NoCommaInDigits(d: string)
    requires AllDigits(d)
    ensures forall i :: 0 <= i < |d| ==> IsNotComma(d[i])
  {
    forall i | 0 <= i < |d| ensures IsNotComma(d[i]) { assert IsDigit(d[i]); }
  }

  lemma DigitsSplit(d: string, k: nat)
    requires AllDigits(d) && k <= |d|
    ensures AllDigits(d[..k]) && AllDigits(d[k..])
  {
    forall i | 0 <= i < k ensures IsDigit(d[..k][i]) { assert d[..k][i] == d[i]; }
    forall i | 0 <= i < |d| - k ensures IsDigit(d[k..][i]) { assert d[k..][i] == d[k + i]; }
  }

  /** Joining with a comma and deleting commas again concatenates. */
  lemma RemoveCommasAroundComma(g: string, front: string, last: string)
    requires Filter(IsNotComma, g) == front
    requires forall i :: 0 <= i < |last| ==> IsNotComma(last[i])
    ensures Filter(IsNotComma, g + "," + last) == front + last
  {
    FilterAppend(IsNotComma, g + ",", last);
    FilterAppend(IsNotComma, g, ",");
    assert Filter(IsNotComma, ",") == [];
    assert Filter(IsNotComma, g + ",") == front + [] == front;
    FilterKeepsAll(IsNotComma, last);
  }

  /** The comma-separated groups: the first has one to three digits, every
      later one exactly three. */
  predicate WellGrouped(r: string) {
    var g := Split(r, ',');
    && 1 <= |g[0]| <= 3
    && (forall i :: 1 <= i < |g| ==> |g[i]| == 3)
    && (forall i :: 0 <= i < |g| ==> AllDigits(g[i]))
  }

  lemma {:induction false} RefGroupWellGrouped(d: string)
    requires AllDigits(d) && d != []
    ensures WellGrouped(RefGroup(d))
    decreases |d|
  {
    var n := |d|;
    if n <= 3 {
      DigitsAvoid(d, ',');
      SplitWithoutSeparator(d, ',');
    } else {
      var front, last := d[..n - 3], d[n - 3..];
      DigitsSplit(d, n - 3);
      RefGroupWellGrouped(front);
      RefGroupStep(d);
      WellGroupedAppend(RefGroup(front), last);
    }
  }

  /** A well-grouped string followed by a comma and three digits is well
      grouped. */
  lemma WellGroupedAppend(x: string, last: string)
    requires WellGrouped(x) && AllDigits(last) && |last| == 3
    ensures WellGrouped(x + "," + last)
  {
    DigitsAvoid(last, ',');
    SplitAtLastSeparator(x, last, ',');
    assert x + "," + last == x + [','] + last;
    var gx := Split(x, ',');
    var g := Split(x + "," + last, ',');
    assert g == gx + [last];
    assert g[0] == gx[0];
    forall i | 1 <= i < |g| ensures |g[i]| == 3 {
      if i < |gx| { assert g[i] == gx[i]; }
    }
    forall i | 0 <= i < |g| ensures AllDigits(g[i]) {
      if i < |gx| { assert g[i] == gx[i]; }
    }
  }

  /** The properties `formatNumber` promises on a non-negative integer:
      deleting the commas gives the decimal digits back, and the groups are
      well formed. */
  lemma FormatNumberGroupsDigits(n: nat)
    ensures Filter(IsNotComma, FormatNumber(Some(n))) == Decimal(n)
    ensures WellGrouped(FormatNumber(Some(n)))
  {
    RefGroupRemoveCommas(Decimal(n));
    RefGroupWellGrouped(Decimal(n));
  }

  // ---------------------------------------------------------------------
  // Fractions

  /** The pattern is applied to the whole rendering, fraction included:
      `formatNumber(0.1234)` gives `"0.1,234"`. */
  lemma FractionDigitsGetGrouped()
    ensures GroupThousands("0.1234") == "0.1,234"
    ensures GroupThousands("0.1234") != GroupIntegerPart("0.1234")
  {
    var s := "0.1234";
    GroupFractionExample();
    IndexOfCharAt(s, '.', 1);
    assert s[..1] == "0" && s[1..] == ".1234";
    GroupShortDigits("0", 1);
    assert GroupIntegerPart(s) == "0" + ".1234";
  }

  lemma GroupFractionExample()
    ensures GroupThousands("0.1234") == "0.1,234"
  {
    var s := "0.1234";
    assert DigitRun(s, 5) == 1;
    assert DigitRun(s, 3) == 3;
    assert DigitRun(s, 1) == 0;
    assert !CommaBefore(s, 0) && !CommaBefore(s, 1) && !CommaBefore(s, 2);
    assert CommaBefore(s, 3) && !CommaBefore(s, 4) && !CommaBefore(s, 5);
    assert GroupPrefix(s, 3) == "0.1";
  }

  /** Grouping confined to the integer part: everything from the first `.`
      on is kept as it is. */
  function GroupIntegerPart(s: string): (r: string)
    ensures '.' !in s ==> r == GroupThousands(s)
  {
    match IndexOfChar(s, '.')
    case None => GroupThousands(s)
    case Some(k) => GroupThousands(s[..k]) + s[k..]
  }

  /** `digits.fraction` keeps its fraction and groups only its integer digits. */
  lemma GroupIntegerPartOfDecimal(a: string, f: string)
    requires AllDigits(a) && AllDigits(f)
    ensures GroupIntegerPart(a + "." + f) == RefGroup(a) + "." + f
  {
    var s := a + "." + f;
    DigitsAvoid(a, '.');
    assert s[|a|] == '.' && s[..|a|] == a && s[|a|..] == "." + f;
    IndexOfCharAt(s, '.', |a|);
    assert GroupIntegerPart(s) == GroupThousands(a) + ("." + f);
    GroupDigits(a);
  }

  lemma DigitsAvoid(d: string, c: char)
    requires AllDigits(d) && !IsDigit(c)
    ensures c !in d
  {
    forall i | 0 <= i < |d| ensures d[i] != c { assert IsDigit(d[i]); }
  }

  /** The first occurrence is found. */
  lemma {:induction false} IndexOfCharAt(s: string, c: char, k: nat)
    requires k < |s| && s[k] == c && c !in s[..k]
    ensures IndexOfChar(s, c) == Some(k)
    decreases k
  {
    if k > 0 {
      assert s[..k][0] == s[0];
      assert s[1..][..k - 1] == s[..k][1..];
      IndexOfCharAt(s[1..], c, k - 1);
    }
  }

  /** The corrected formatter on a rendered number. */
  function FormatDecimal(rendered: Option<string>): (r: string)
    ensures rendered.None? ==> r == []
  {
    match rendered
    case None => []
    case Some(s) => GroupIntegerPart(s)
  }

  /** On integers the correction changes nothing. */
  lemma FormatDecimalAgreesOnIntegers(i: int)
    ensures FormatDecimal(Some(IntToString(i))) == FormatNumber(Some(i))
  {
    assert '.' !in IntToString(i) by {
      var r := IntToString(i);
      forall k | 0 <= k < |r| ensures r[k] != '.' {
        if i < 0 && k > 0 {
          assert r[k] == Decimal(-i)[k - 1];
        }
      }
    }
  }
}
