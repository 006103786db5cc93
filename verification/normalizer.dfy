/** Cleaning of the free text the extraction service returns
    (services/geminiService.ts): score strings and team names. */
module Normalizer {
  import opened Wrappers
  import opened Text

  // ---------------------------------------------------------------------
  // Team names
  // ---------------------------------------------------------------------

  /** The two text operations the merge engine applies to team names and
      that are kept abstract here: the removal of the noise patterns
      (locale-specific "corners"/"cards" suffixes, "(n)", women and youth
      markers, trailing dashes, then `trim`) and `String.prototype.toLowerCase`. */
  datatype TeamText = TeamText(stripNoise: string -> string, lower: string -> string)

  const UnknownTeam := "Unknown Team"

  /** `cleanTeamName`: an absent or empty name becomes the placeholder; any
      other name is handed to the noise removal. */
  function CleanTeamName(t: TeamText, raw: Option<string>): (r: string)
    ensures raw.None? || raw.value == "" ==> r == UnknownTeam
    ensures raw.Some? && raw.value != "" ==> r == t.stripNoise(raw.value)
  {
    match raw
    case None => UnknownTeam
    case Some(name) => if name == "" then UnknownTeam else t.stripNoise(name)
  }

  // ---------------------------------------------------------------------
  // Scores: `rawScore.match(/(\d+)\s*[-–:]\s*(\d+)/)`
  // ---------------------------------------------------------------------

  /** The separator class `[-–:]`: hyphen, en dash, colon. */
  predicate IsSeparator(c: char)
  {
    c == '-' || c == '\U{2013}' || c == ':'
  }

  ghost predicate AllDigits(s: string, lo: int, hi: int)
    requires 0 <= lo <= hi <= |s|
  {
    forall k | lo <= k < hi :: IsDigit(s[k])
  }

  ghost predicate AllSpaces(s: string, lo: int, hi: int)
    requires 0 <= lo <= hi <= |s|
  {
    forall k | lo <= k < hi :: IsSpace(s[k])
  }

  /** The pattern matches `s[i..n]`, reading the first digit group as
      `s[i..j]`, the separator at `k` and the second digit group as `s[m..n]`. */
  ghost predicate IsMatch(s: string, i: int, j: int, k: int, m: int, n: int)
  {
    && 0 <= i < j <= k < |s| && k + 1 <= m < n <= |s|
    && AllDigits(s, i, j) && AllSpaces(s, j, k) && IsSeparator(s[k])
    && AllSpaces(s, k + 1, m) && AllDigits(s, m, n)
  }

  /** The pattern matches some text starting at index `i`. */
  ghost predicate MatchesAt(s: string, i: int)
  {
    exists j, k, m, n :: IsMatch(s, i, j, k, m, n)
  }

  /** The match of `IsMatch` is the one the regular expression reports: no
      match starts further left, and the greedy second group ends at `n`. */
  ghost predicate IsLeftmostMatch(s: string, i: int, j: int, k: int, m: int, n: int)
  {
    && IsMatch(s, i, j, k, m, n)
    && (forall i' | 0 <= i' < i :: !MatchesAt(s, i'))
    && (n == |s| || !IsDigit(s[n]))
  }

  /** `a` and `b` are the two groups the regular expression captures. */
  ghost predicate LeftmostGroups(s: string, a: string, b: string)
  {
    exists i, j, k, m, n :: IsLeftmostMatch(s, i, j, k, m, n) && a == s[i..j] && b == s[m..n]
  }

  /** The end of the run of digits starting at `i`. */
  function DigitsEnd(s: string, i: nat): (j: nat)
    requires i <= |s|
    ensures i <= j <= |s| && AllDigits(s, i, j) && (j == |s| || !IsDigit(s[j]))
    decreases |s| - i
  {
    if i < |s| && IsDigit(s[i]) then DigitsEnd(s, i + 1) else i
  }

  /** The end of the run of white space starting at `i`. */
  function SpacesEnd(s: string, i: nat): (j: nat)
    requires i <= |s|
    ensures i <= j <= |s| && AllSpaces(s, i, j) && (j == |s| || !IsSpace(s[j]))
    decreases |s| - i
  {
    if i < |s| && IsSpace(s[i]) then SpacesEnd(s, i + 1) else i
  }

  /** The groups of a match that starts exactly at `i`: each `\d+` and `\s*`
      takes the longest run, as no shorter run can be followed by what the
      pattern needs next. */
  function MatchAt(s: string, i: nat): (r: Option<(string, string)>)
    requires i <= |s|
  {
    if i < |s| && IsDigit(s[i]) then
      var j := DigitsEnd(s, i);
      var k := SpacesEnd(s, j);
      if k < |s| && IsSeparator(s[k]) then
        var m := SpacesEnd(s, k + 1);
        if m < |s| && IsDigit(s[m]) then Some((s[i..j], s[m..DigitsEnd(s, m)])) else None
      else None
    else None
  }

  /** The scan finds a match at `i` exactly when the pattern matches there,
      and then returns the regular expression's groups. */
  lemma MatchAtCorrect(s: string, i: nat)
    requires i <= |s|
    ensures MatchAt(s, i).Some? <==> MatchesAt(s, i)
    ensures MatchAt(s, i).Some? ==>
      exists j, k, m, n ::
        && IsMatch(s, i, j, k, m, n) && (n == |s| || !IsDigit(s[n]))
        && MatchAt(s, i).value == (s[i..j], s[m..n])
  {
    if MatchAt(s, i).Some? {
      MatchAtSound(s, i);
    }
    if MatchesAt(s, i) {
      var j', k', m', n' :| IsMatch(s, i, j', k', m', n');
      MatchAtComplete(s, i, j', k', m', n');
    }
  }

  /** A match found by the scan is a match of the pattern with a greedy
      second group. */
  lemma MatchAtSound(s: string, i: nat)
    requires i <= |s| && MatchAt(s, i).Some?
    ensures var j := DigitsEnd(s, i);
      var k := SpacesEnd(s, j);
      var m := SpacesEnd(s, k + 1);
      var n := DigitsEnd(s, m);
      && IsMatch(s, i, j, k, m, n) && (n == |s| || !IsDigit(s[n]))
      && MatchAt(s, i).value == (s[i..j], s[m..n])
  {
  }

  /** Wherever the pattern matches, the scan finds the match. */
  lemma MatchAtComplete(s: string, i: nat, j': int, k': int, m': int, n': int)
    requires i <= |s| && IsMatch(s, i, j', k', m', n')
    ensures MatchAt(s, i).Some?
  {
    assert IsDigit(s[i]);
    var j := DigitsEnd(s, i);
    // Each greedy run ends exactly where the witness's run ends: a longer
    // run would swallow the character the pattern needs next.
    assert !IsDigit(s[j']) by { assert j' == k' || IsSpace(s[j']); }
    DigitRunEnd(s, i, j, j');
    var k := SpacesEnd(s, j);
    SpaceRunEnd(s, j, k, k');
    var m := SpacesEnd(s, k + 1);
    assert !IsSpace(s[m']) by { assert IsDigit(s[m']); }
    SpaceRunEnd(s, k + 1, m, m');
    assert IsDigit(s[m]);
  }

  /** A run of digits has a single end. */
  lemma DigitRunEnd(s: string, i: int, j: int, j': int)
    requires 0 <= i <= j <= |s| && 0 <= i <= j' < |s|
    requires AllDigits(s, i, j) && (j == |s| || !IsDigit(s[j]))
    requires AllDigits(s, i, j') && !IsDigit(s[j'])
    ensures j == j'
  {
  }

  /** A run of white space has a single end. */
  lemma SpaceRunEnd(s: string, i: int, j: int, j': int)
    requires 0 <= i <= j <= |s| && 0 <= i <= j' < |s|
    requires AllSpaces(s, i, j) && (j == |s| || !IsSpace(s[j]))
    requires AllSpaces(s, i, j') && !IsSpace(s[j'])
    ensures j == j'
  {
  }

  /** The groups of the leftmost match at or after index `from`. */
  function FirstMatch(s: string, from: nat): Option<(string, string)>
    requires from <= |s|
    decreases |s| - from
  {
    if from == |s| then None
    else
      match MatchAt(s, from)
      case Some(g) => Some(g)
      case None => FirstMatch(s, from + 1)
  }

  /** The scan returns the leftmost match's groups, and nothing only when the
      pattern matches nowhere from `from` on. */
  lemma {:induction false} FirstMatchCorrect(s: string, from: nat)
    requires from <= |s|
    requires forall i' | 0 <= i' < from :: !MatchesAt(s, i')
    ensures FirstMatch(s, from).None? <==> forall i | 0 <= i < |s| :: !MatchesAt(s, i)
    ensures FirstMatch(s, from).Some? ==> LeftmostGroups(s, FirstMatch(s, from).value.0, FirstMatch(s, from).value.1)
    decreases |s| - from
  {
    if from == |s| {
      assert forall i | 0 <= i < |s| :: !MatchesAt(s, i);
    } else {
      MatchAtCorrect(s, from);
      if MatchAt(s, from).None? {
        FirstMatchCorrect(s, from + 1);
      } else {
        var j, k, m, n :| && IsMatch(s, from, j, k, m, n) && (n == |s| || !IsDigit(s[n]))
                         && MatchAt(s, from).value == (s[from..j], s[m..n]);
        assert IsLeftmostMatch(s, from, j, k, m, n);
      }
    }
  }

  /** `cleanScore`: the leftmost `digits separator digits` reformatted as
      "A - B"; without one, "N/A" for an empty or long (over ten characters)
      input and the input itself otherwise. */
  function CleanScore(raw: string): (r: string)
    ensures raw == "" ==> r == "N/A"
    ensures raw != "" && (forall i | 0 <= i < |raw| :: !MatchesAt(raw, i)) ==>
              r == (if |raw| > 10 then "N/A" else raw)
    ensures (exists i | 0 <= i < |raw| :: MatchesAt(raw, i)) ==>
              exists a, b :: LeftmostGroups(raw, a, b) && r == a + " - " + b
  {
    FirstMatchCorrect(raw, 0);
    if raw == "" then "N/A"
    else
      match FirstMatch(raw, 0)
      case Some((a, b)) => a + " - " + b
      case None => if |raw| > 10 then "N/A" else raw
  }

  /** Two matches starting at the same index read the same groups when both
      second groups are greedy. */
  lemma SameStartSameGroups(s: string, i: int, j: int, k: int, m: int, n: int,
                            j2: int, k2: int, m2: int, n2: int)
    requires IsMatch(s, i, j, k, m, n) && (n == |s| || !IsDigit(s[n]))
    requires IsMatch(s, i, j2, k2, m2, n2) && (n2 == |s| || !IsDigit(s[n2]))
    ensures j == j2 && m == m2 && n == n2
  {
    assert !IsDigit(s[j]) by { assert j == k || IsSpace(s[j]); }
    assert !IsDigit(s[j2]) by { assert j2 == k2 || IsSpace(s[j2]); }
    DigitRunEnd(s, i, j, j2);
    SpaceRunEnd(s, j, k, k2);
    assert !IsSpace(s[m]) && !IsSpace(s[m2]) by { assert IsDigit(s[m]) && IsDigit(s[m2]); }
    SpaceRunEnd(s, k + 1, m, m2);
    if n2 < |s| {
      DigitRunEnd(s, m, n, n2);
    } else if n < |s| {
      DigitRunEnd(s, m, n2, n);
    }
  }

  /** The leftmost match's groups are determined by the string. */
  lemma LeftmostGroupsUnique(s: string, a: string, b: string, a': string, b': string)
    requires LeftmostGroups(s, a, b) && LeftmostGroups(s, a', b')
    ensures a == a' && b == b'
  {
    var i, j, k, m, n :| IsLeftmostMatch(s, i, j, k, m, n) && a == s[i..j] && b == s[m..n];
    var i2, j2, k2, m2, n2 :| IsLeftmostMatch(s, i2, j2, k2, m2, n2) && a' == s[i2..j2] && b' == s[m2..n2];
    assert MatchesAt(s, i) && MatchesAt(s, i2);
    assert i == i2 by { if i < i2 {} else if i2 < i {} }
    SameStartSameGroups(s, i, j, k, m, n, j2, k2, m2, n2);
  }

  /** Both captured groups are non-empty runs of digits. */
  lemma LeftmostGroupsAreDigits(s: string, a: string, b: string)
    requires LeftmostGroups(s, a, b)
    ensures |a| > 0 && |b| > 0
    ensures forall q | 0 <= q < |a| :: IsDigit(a[q])
    ensures forall q | 0 <= q < |b| :: IsDigit(b[q])
  {
    var i, j, k, m, n :| IsLeftmostMatch(s, i, j, k, m, n) && a == s[i..j] && b == s[m..n];
    assert forall q | 0 <= q < |a| :: a[q] == s[i + q];
    assert forall q | 0 <= q < |b| :: b[q] == s[m + q];
  }

  /** "A - B" with digit runs A and B matches at its start with groups A and B. */
  lemma FormattedScoreGroups(a: string, b: string)
    requires |a| > 0 && |b| > 0
    requires forall q | 0 <= q < |a| :: IsDigit(a[q])
    requires forall q | 0 <= q < |b| :: IsDigit(b[q])
    ensures LeftmostGroups(a + " - " + b, a, b)
  {
    var r := a + " - " + b;
    assert forall q | 0 <= q < |a| :: r[q] == a[q];
    assert forall q | |a| + 3 <= q < |r| :: r[q] == b[q - |a| - 3];
    assert IsMatch(r, 0, |a|, |a| + 1, |a| + 3, |r|);
    assert r[0..|a|] == a && r[|a| + 3..|r|] == b;
    assert IsLeftmostMatch(r, 0, |a|, |a| + 1, |a| + 3, |r|);
  }

  /** A string without digits matches nowhere. */
  lemma NoDigitsNoMatch(s: string)
    requires forall c | c in s :: !IsDigit(c)
    ensures forall i | 0 <= i < |s| :: !MatchesAt(s, i)
  {
    forall i | 0 <= i < |s|
      ensures !MatchesAt(s, i)
    {
      assert !IsDigit(s[i]);
    }
  }

  /** A string whose leftmost groups are A and B cleans to "A - B". */
  lemma CleanScoreOfGroups(s: string, a: string, b: string)
    requires LeftmostGroups(s, a, b)
    ensures CleanScore(s) == a + " - " + b
  {
    var i, j, k, m, n :| IsLeftmostMatch(s, i, j, k, m, n) && a == s[i..j] && b == s[m..n];
    assert MatchesAt(s, i);
    var a', b' :| LeftmostGroups(s, a', b') && CleanScore(s) == a' + " - " + b';
    LeftmostGroupsUnique(s, a, b, a', b');
  }

  /** Cleaning an already clean score changes nothing. */
  lemma CleanScoreIdempotent(raw: string)
    ensures CleanScore(CleanScore(raw)) == CleanScore(raw)
  {
    var r := CleanScore(raw);
    if exists i | 0 <= i < |raw| :: MatchesAt(raw, i) {
      var a, b :| LeftmostGroups(raw, a, b) && r == a + " - " + b;
      LeftmostGroupsAreDigits(raw, a, b);
      FormattedScoreGroups(a, b);
      CleanScoreOfGroups(r, a, b);
    } else if r == "N/A" {
      NoDigitsNoMatch("N/A");
    }
  }

  /** "2-1" and "2:1" both normalise to "2 - 1". */
  lemma CleanScoreSeparators()
    ensures CleanScore("2-1") == "2 - 1"
    ensures CleanScore("2:1") == "2 - 1"
  {
    assert IsLeftmostMatch("2-1", 0, 1, 1, 2, 3);
    CleanScoreOfGroups("2-1", "2", "1");
    assert IsLeftmostMatch("2:1", 0, 1, 1, 2, 3);
    CleanScoreOfGroups("2:1", "2", "1");
  }

  /** A long text without a score is treated as noise. */
  lemma CleanScoreLongNoise()
    ensures CleanScore("no data available here") == "N/A"
  {
    NoDigitsNoMatch("no data available here");
  }
}
