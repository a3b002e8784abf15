/**
 The file-name filter `(\d{4}-\d{2}-\d{2})\.csv$` compiled with IGNORECASE
 (app.py:10) and its group 1, the date. The expression is modelled as a
 fixed sequence of character classes; `DATE_SUFFIX_RE.search` as a
 left-to-right scan over start positions.
 */
module DateSuffix {
  import opened Wrappers
  import opened Text

  /** One position of the expression. */
  datatype CharClass =
    | Digit               // `\d`
    | Literal(c: char)    // a literal character, matched ignoring case

  /** The characters `c` matches under IGNORECASE: `s` also matches LATIN SMALL LETTER LONG S. */
  predicate LiteralMatches(c: char, ch: char)
  {
    if c == 'c' then ch in "cC"
    else if c == 's' then ch in "sS\U{17F}"
    else if c == 'v' then ch in "vV"
    else ch == c
  }

  predicate ClassMatches(k: CharClass, ch: char)
  {
    match k
    case Digit => IsDigit(ch)
    case Literal(c) => LiteralMatches(c, ch)
  }

  /** `\d{4}-\d{2}-\d{2}\.csv`, position by position. */
  const Pattern: seq<CharClass> := [
    Digit, Digit, Digit, Digit, Literal('-'), Digit, Digit, Literal('-'), Digit, Digit,
    Literal('.'), Literal('c'), Literal('s'), Literal('v')
  ]

  /** Group 1 covers the first `DateLength` positions of the pattern. */
  const DateLength := 10

  /** The pattern, followed by `$`, matches `name` starting at `i`. */
  predicate MatchesAt(name: string, i: nat)
  {
    i + |Pattern| == |name|
    && forall k :: 0 <= k < |Pattern| ==> ClassMatches(Pattern[k], name[i + k])
  }

  /** Group 1 of the search: the date before the extension, if the name has one. */
  function MatchDate(name: string): (m: Option<string>)
  {
    if |name| >= |Pattern| && MatchesAt(name, |name| - |Pattern|)
    then Some(name[|name| - |Pattern| .. |name| - |Pattern| + DateLength])
    else None
  }

  /** Ten characters shaped `YYYY-MM-DD`: digits and two dashes, with no calendar check. */
  predicate IsDateShape(d: string)
  {
    && |d| == 10
    && IsDigit(d[0]) && IsDigit(d[1]) && IsDigit(d[2]) && IsDigit(d[3])
    && d[4] == '-'
    && IsDigit(d[5]) && IsDigit(d[6])
    && d[7] == '-'
    && IsDigit(d[8]) && IsDigit(d[9])
  }

  /** `.csv` in any letter case. */
  predicate IsCsvExtension(e: string)
  {
    |e| == 4 && e[0] == '.' && LiteralMatches('c', e[1]) && LiteralMatches('s', e[2]) && LiteralMatches('v', e[3])
  }

  /** The name ends with a date shape followed by the `.csv` extension. */
  predicate HasDateSuffix(name: string)
  {
    |name| >= 14 && IsDateShape(name[|name| - 14 .. |name| - 4]) && IsCsvExtension(name[|name| - 4 ..])
  }

  /**
   A name is kept exactly when it ends in a date shape and `.csv`, and the
   extracted date is the ten characters in front of the extension.
   */
  lemma MatchDateSpec(name: string)
    ensures MatchDate(name).Some? <==> HasDateSuffix(name)
    ensures MatchDate(name).Some? ==>
      && MatchDate(name).value == name[|name| - 14 .. |name| - 4]
      && IsDateShape(MatchDate(name).value)
  {
    if |name| >= 14 {
      var i := |name| - 14;
      var d, e := name[i .. i + 10], name[i + 10 ..];
      assert forall k :: 0 <= k < 10 ==> d[k] == name[i + k];
      assert forall k :: 0 <= k < 4 ==> e[k] == name[i + 10 + k];
      if HasDateSuffix(name) {
        forall k | 0 <= k < |Pattern|
          ensures ClassMatches(Pattern[k], name[i + k])
        {
          if k < 10 {
            assert name[i + k] == d[k];
          } else {
            assert name[i + k] == e[k - 10];
          }
        }
      }
      if MatchesAt(name, i) {
        assert ClassMatches(Pattern[0], name[i]) && ClassMatches(Pattern[1], name[i + 1]);
        assert ClassMatches(Pattern[2], name[i + 2]) && ClassMatches(Pattern[3], name[i + 3]);
        assert ClassMatches(Pattern[4], name[i + 4]) && ClassMatches(Pattern[5], name[i + 5]);
        assert ClassMatches(Pattern[6], name[i + 6]) && ClassMatches(Pattern[7], name[i + 7]);
        assert ClassMatches(Pattern[8], name[i + 8]) && ClassMatches(Pattern[9], name[i + 9]);
        assert ClassMatches(Pattern[10], name[i + 10]) && ClassMatches(Pattern[11], name[i + 11]);
        assert ClassMatches(Pattern[12], name[i + 12]) && ClassMatches(Pattern[13], name[i + 13]);
      }
    }
  }

  /**
   Any date-shaped string in front of `.csv` is accepted and extracted as is,
   whatever comes before it and whether or not it is a calendar date.
   */
  lemma AnyDateShapeAccepted(prefix: string, d: string, ext: string)
    requires IsDateShape(d) && IsCsvExtension(ext)
    ensures MatchDate(prefix + d + ext) == Some(d)
  {
  }

  /**
   `DATE_SUFFIX_RE.search(name)`: try each start position from the left and
   return group 1 of the first match.
   */
  method Search(name: string) returns (m: Option<string>)
    ensures m == MatchDate(name)
    ensures m.Some? ==> IsDateShape(m.value) && HasDateSuffix(name)
    ensures m.None? ==> !HasDateSuffix(name)
  {
    MatchDateSpec(name);
    var i := 0;
    while i <= |name|
      invariant 0 <= i <= |name| + 1
      invariant forall j :: 0 <= j < i ==> !MatchesAt(name, j)
    {
      if i + |Pattern| == |name| && MatchesAllAt(name, i) {
        return Some(name[i .. i + DateLength]);
      }
      i := i + 1;
    }
    return None;
  }

  /** Tries the fourteen character classes at `i`, stopping at the first mismatch. */
  function MatchesAllAt(name: string, i: nat): (b: bool)
    requires i + |Pattern| <= |name|
    ensures b <==> forall k :: 0 <= k < |Pattern| ==> ClassMatches(Pattern[k], name[i + k])
  {
    MatchesFrom(name, i, 0)
  }

  function MatchesFrom(name: string, i: nat, k: nat): (b: bool)
    requires i + |Pattern| <= |name| && k <= |Pattern|
    ensures b <==> forall j :: k <= j < |Pattern| ==> ClassMatches(Pattern[j], name[i + j])
    decreases |Pattern| - k
  {
    k == |Pattern| || (ClassMatches(Pattern[k], name[i + k]) && MatchesFrom(name, i, k + 1))
  }

  /** Month 13, day 40 is accepted: there is no calendar check. The extension may be upper case. */
  lemma NoCalendarCheck()
    ensures MatchDate("report-2024-13-40.csv") == Some("2024-13-40")
    ensures MatchDate("X2024-01-01.CSV") == Some("2024-01-01")
  {
    AnyDateShapeAccepted("report-", "2024-13-40", ".csv");
    assert "report-2024-13-40.csv" == "report-" + "2024-13-40" + ".csv";
    AnyDateShapeAccepted("X", "2024-01-01", ".CSV");
    assert "X2024-01-01.CSV" == "X" + "2024-01-01" + ".CSV";
  }

  /** Names without a full date before `.csv` are dropped. */
  lemma ShortDatesRejected()
    ensures MatchDate("notes.csv").None?
    ensures MatchDate("report-2024-1-1.csv").None?
  {
    MatchDateSpec("notes.csv");
    MatchDateSpec("report-2024-1-1.csv");
    var n := "report-2024-1-1.csv";
    assert n[|n| - 14 .. |n| - 4][4] == n[9];
  }
}
