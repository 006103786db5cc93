/** The merge of the multi-image extraction (services/geminiService.ts,
    `extractMatchInfoFromImages`): the entries the service
    returns are folded into one match per direction-sensitive team-pair key,
    and the odds of repeated entries are merged without duplicates.

    `Date.now()` is a parameter: `stamps[i]` is its decimal text when entry
    `i` is processed. */
module Merge {
  import opened Wrappers
  import opened Seqs
  import opened Text
  import opened Types
  import opened Normalizer
  import opened Odds
  import opened Grouping

  /** One element of the reply's `matches`; an absent `oddsList` is the
      empty list. */
  datatype RawEntry = RawEntry(
    homeTeam: Option<string>,
    awayTeam: Option<string>,
    league: Option<string>,
    time: Option<string>,
    oddsList: seq<RawOdds>)

  /** The parsed reply; an absent `matches` is the empty list. */
  datatype RawReply = RawReply(matches: seq<RawEntry>, tacticalAnalysis: Option<string>)

  /** What the extraction returns when it found at least one match. */
  datatype Extraction = Extraction(isList: bool, matches: seq<Match>, tacticalAnalysis: string)

  const DefaultLeague := "Giải Đấu"
  const DefaultTime := "Sắp đá"
  const Today := "Hôm nay"
  const KeyJoin := "_vs_"

  /** The map key of an entry: lower-cased home name, "_vs_", lower-cased away name. */
  function MergeKey(t: TeamText, e: RawEntry): (r: string)
    ensures var h := t.lower(CleanTeamName(t, e.homeTeam));
      var a := t.lower(CleanTeamName(t, e.awayTeam));
      && |r| == |h| + |KeyJoin| + |a|
      && r[..|h|] == h && r[|h|..|h| + |KeyJoin|] == KeyJoin && r[|h| + |KeyJoin|..] == a
  {
    t.lower(CleanTeamName(t, e.homeTeam)) + KeyJoin + t.lower(CleanTeamName(t, e.awayTeam))
  }

  /** The key is direction-sensitive: when neither lower-cased name is a
      prefix of the other, swapping home and away gives another key, so
      "A vs B" and "B vs A" become two matches. */
  lemma MergeKeyDirectional(t: TeamText, e: RawEntry)
    requires var h := t.lower(CleanTeamName(t, e.homeTeam));
      var a := t.lower(CleanTeamName(t, e.awayTeam));
      !(h <= a) && !(a <= h)
    ensures MergeKey(t, e) != MergeKey(t, e.(homeTeam := e.awayTeam, awayTeam := e.homeTeam))
  {
    var h := t.lower(CleanTeamName(t, e.homeTeam));
    var a := t.lower(CleanTeamName(t, e.awayTeam));
    var m := if |h| < |a| then |h| else |a|;
    assert MergeKey(t, e)[..m] == h[..m];
    assert MergeKey(t, e.(homeTeam := e.awayTeam, awayTeam := e.homeTeam))[..m] == a[..m];
  }

  /** The match created by the first entry of a key. */
  function NewMatch(t: TeamText, e: RawEntry, stamp: string): (r: Match)
    ensures r.homeTeam == CleanTeamName(t, e.homeTeam) && r.awayTeam == CleanTeamName(t, e.awayTeam)
    ensures DefaultsTo(r.league, e.league, DefaultLeague) && DefaultsTo(r.time, e.time, DefaultTime)
    ensures r.date == Today
    ensures r.id == r.homeTeam + "-" + r.awayTeam + "-" + stamp
    ensures r.allOdds.Some? && |r.allOdds.value| == |e.oddsList|
    ensures forall i | 0 <= i < |e.oddsList| :: r.allOdds.value[i] == ToOdds(e.oddsList[i])
    ensures r.scannedOdds.None? <==> |e.oddsList| == 0
    ensures r.scannedOdds.Some? ==> r.scannedOdds.value == ToOdds(e.oddsList[0])
  {
    var home := CleanTeamName(t, e.homeTeam);
    var away := CleanTeamName(t, e.awayTeam);
    var odds := EntryOdds(e.oddsList);
    Match(
      id := home + "-" + away + "-" + stamp,
      homeTeam := home,
      awayTeam := away,
      league := OrElse(e.league, DefaultLeague),
      time := OrElse(e.time, DefaultTime),
      date := Today,
      scannedOdds := if |odds| > 0 then Some(odds[0]) else None,
      allOdds := Some(odds))
  }

  /** A repeated entry merged into the match recorded for its
      key. Only the odds change: the merged list has no duplicates, keeps
      the lines it had in front and in order, and the shown line is
      re-picked from it (`MergeIntoRepresents` and `MergeIntoAddsNothing`
      state which lines it holds). */
  function MergeInto(m: Match, e: RawEntry): (r: Match)
    ensures r.(allOdds := m.allOdds, scannedOdds := m.scannedOdds) == m
    ensures r.allOdds.Some? && NoDuplicateLines(r.allOdds.value)
    ensures Dedup(m.allOdds.GetOr([])) <= r.allOdds.value
    ensures r.scannedOdds == PickMain(r.allOdds.value)
  {
    var before := m.allOdds.GetOr([]);
    var added := EntryOdds(e.oddsList);
    var unique := Dedup(before + added);
    DedupAppend(before, added);
    m.(allOdds := Some(unique), scannedOdds := PickMain(unique))
  }

  /** The merged list represents every old and every new
      line. */
  lemma MergeIntoRepresents(m: Match, e: RawEntry)
    ensures var r := MergeInto(m, e).allOdds.value;
      && (forall i | 0 <= i < |m.allOdds.GetOr([])| :: Represents(r, m.allOdds.GetOr([])[i]))
      && (forall i | 0 <= i < |e.oddsList| :: Represents(r, ToOdds(e.oddsList[i])))
  {
    DedupRepresentsBoth(m.allOdds.GetOr([]), EntryOdds(e.oddsList));
  }

  /** The merged list holds only old and new lines. */
  lemma MergeIntoAddsNothing(m: Match, e: RawEntry)
    ensures forall y | y in MergeInto(m, e).allOdds.value :: y in m.allOdds.GetOr([]) || y in EntryOdds(e.oddsList)
  {
    DedupFromBoth(m.allOdds.GetOr([]), EntryOdds(e.oddsList));
  }

  /** Merging into a match whose list is already free of duplicates keeps
      that whole list as the front of the merged one. */
  /** The merged list is the duplicate-free concatenation. */
  lemma MergeIntoOdds(m: Match, e: RawEntry)
    ensures MergeInto(m, e).allOdds == Some(Dedup(m.allOdds.GetOr([]) + EntryOdds(e.oddsList)))
  {
  }

  lemma MergeKeepsExisting(m: Match, e: RawEntry)
    requires m.allOdds.Some? && NoDuplicateLines(m.allOdds.value)
    ensures m.allOdds.value <= MergeInto(m, e).allOdds.value
  {
    DedupOfDistinctLines(m.allOdds.value);
  }

  // ---------------------------------------------------------------------
  // The fold over the entries
  // ---------------------------------------------------------------------

  /** The key of every entry. */
  function Keys(t: TeamText, entries: seq<RawEntry>): (r: seq<string>)
    ensures |r| == |entries|
    ensures forall i | 0 <= i < |entries| :: r[i] == MergeKey(t, entries[i])
  {
    seq(|entries|, i requires 0 <= i < |entries| => MergeKey(t, entries[i]))
  }

  /** Match creation as the creation step of the map fold. */
  function Creator(t: TeamText): (RawEntry, string) -> Match
  {
    (e, stamp) => NewMatch(t, e, stamp)
  }

  /** The entries at the indices `g` merged in order: the first creates the
      match and each later one is merged into it. */
  function MergeGroup(t: TeamText, entries: seq<RawEntry>, stamps: seq<string>, g: seq<nat>): (r: Match)
    requires |entries| == |stamps| && |g| > 0
    requires forall k | 0 <= k < |g| :: g[k] < |entries|
    ensures r.allOdds.Some?
    ensures |g| > 1 ==> NoDuplicateLines(r.allOdds.value) && r.scannedOdds == PickMain(r.allOdds.value)
  {
    FoldGroup(entries, stamps, Creator(t), MergeInto, g)
  }

  /** `extractMatchInfoFromImages` after parsing: `None` for the `null` result. There is
      one match per distinct key, in first-seen order, each the merge of the
      entries with that key in input order; the reply is a list when more
      than one match results. */
  function Extract(t: TeamText, reply: RawReply, stamps: seq<string>): (r: Option<Extraction>)
    requires |stamps| == |reply.matches|
    ensures r.None? <==> |reply.matches| == 0
    ensures r.Some? ==> |r.value.matches| == |Distinct(Keys(t, reply.matches))|
    ensures r.Some? ==> (r.value.isList <==> |r.value.matches| > 1)
    ensures r.Some? ==> r.value.tacticalAnalysis == OrElse(reply.tacticalAnalysis, "")
    ensures r.Some? ==> forall k | 0 <= k < |r.value.matches| ::
              var keys := Keys(t, reply.matches);
              var g := Positions(keys, Distinct(keys)[k], |keys|);
              |g| > 0 && r.value.matches[k] == MergeGroup(t, reply.matches, stamps, g)
  {
    var entries := reply.matches;
    var keys := Keys(t, entries);
    var found := Values(Collect(entries, keys, stamps, Creator(t), MergeInto, |entries|));
    GroupedValues(entries, keys, stamps, Creator(t), MergeInto);
    DistinctMembership(keys, if |keys| > 0 then keys[0] else "");
    if |found| > 0 then Some(Extraction(|found| > 1, found, OrElse(reply.tacticalAnalysis, "")))
    else None
  }

  // ---------------------------------------------------------------------
  // Properties of a merged group
  // ---------------------------------------------------------------------

  /** Creation and merge: the id, the team names, league, time and
      date of a merged match are those the first entry of its group set. */
  lemma {:induction false} GroupKeepsFirstEntry(t: TeamText, entries: seq<RawEntry>, stamps: seq<string>, g: seq<nat>)
    requires |entries| == |stamps| && |g| > 0
    requires forall k | 0 <= k < |g| :: g[k] < |entries|
    ensures var first := NewMatch(t, entries[g[0]], stamps[g[0]]);
      var r := MergeGroup(t, entries, stamps, g);
      r.(allOdds := first.allOdds, scannedOdds := first.scannedOdds) == first
    decreases |g|
  {
    if |g| > 1 {
      var h := g[..|g| - 1];
      assert h[0] == g[0];
      GroupKeepsFirstEntry(t, entries, stamps, h);
    }
  }

  /** One step of a group's merge. */
  lemma MergeGroupUnfold(t: TeamText, entries: seq<RawEntry>, stamps: seq<string>, g: seq<nat>)
    requires |entries| == |stamps| && |g| > 0
    requires forall k | 0 <= k < |g| :: g[k] < |entries|
    ensures |g| == 1 ==> MergeGroup(t, entries, stamps, g) == NewMatch(t, entries[g[0]], stamps[g[0]])
    ensures |g| > 1 ==> MergeGroup(t, entries, stamps, g)
                        == MergeInto(MergeGroup(t, entries, stamps, g[..|g| - 1]), entries[g[|g| - 1]])
  {
  }

  /** Every odds line of every entry of a group is kept: some line of the
      merged match is a duplicate of it. */
  lemma {:induction false} GroupCoversEveryLine(t: TeamText, entries: seq<RawEntry>, stamps: seq<string>, g: seq<nat>)
    requires |entries| == |stamps| && |g| > 0
    requires forall k | 0 <= k < |g| :: g[k] < |entries|
    ensures forall j, i | 0 <= j < |g| && 0 <= i < |entries[g[j]].oddsList| ::
              Represents(MergeGroup(t, entries, stamps, g).allOdds.value, ToOdds(entries[g[j]].oddsList[i]))
    decreases |g|
  {
    if |g| == 1 {
      GroupOfOneCovers(t, entries, stamps, g);
    } else {
      GroupCoversEveryLine(t, entries, stamps, g[..|g| - 1]);
      GroupCoversStep(t, entries, stamps, g);
    }
  }

  lemma GroupOfOneCovers(t: TeamText, entries: seq<RawEntry>, stamps: seq<string>, g: seq<nat>)
    requires |entries| == |stamps| && |g| == 1
    requires forall k | 0 <= k < |g| :: g[k] < |entries|
    ensures forall j, i | 0 <= j < |g| && 0 <= i < |entries[g[j]].oddsList| ::
              Represents(MergeGroup(t, entries, stamps, g).allOdds.value, ToOdds(entries[g[j]].oddsList[i]))
  {
    MergeGroupUnfold(t, entries, stamps, g);
    var r := NewMatch(t, entries[g[0]], stamps[g[0]]).allOdds.value;
    CoversFirst(entries, g, r);
  }

  lemma GroupCoversStep(t: TeamText, entries: seq<RawEntry>, stamps: seq<string>, g: seq<nat>)
    requires |entries| == |stamps| && |g| > 1
    requires forall k | 0 <= k < |g| :: g[k] < |entries|
    requires var h := g[..|g| - 1];
      forall j, i | 0 <= j < |h| && 0 <= i < |entries[h[j]].oddsList| ::
        Represents(MergeGroup(t, entries, stamps, h).allOdds.value, ToOdds(entries[h[j]].oddsList[i]))
    ensures forall j, i | 0 <= j < |g| && 0 <= i < |entries[g[j]].oddsList| ::
              Represents(MergeGroup(t, entries, stamps, g).allOdds.value, ToOdds(entries[g[j]].oddsList[i]))
  {
    MergeGroupUnfold(t, entries, stamps, g);
    var h := g[..|g| - 1];
    var e := entries[g[|g| - 1]];
    var prev := MergeGroup(t, entries, stamps, h);
    var r := MergeInto(prev, e).allOdds.value;
    assert prev.allOdds.GetOr([]) == prev.allOdds.value;
    MergeIntoRepresents(prev, e);
    CoversStep(entries, g, h, e, prev.allOdds.value, r);
  }

  lemma CoversFirst(entries: seq<RawEntry>, g: seq<nat>, r: seq<BettingOdds>)
    requires forall k | 0 <= k < |g| :: g[k] < |entries|
    requires |g| == 1
    requires |r| == |entries[g[0]].oddsList|
    requires forall i | 0 <= i < |entries[g[0]].oddsList| :: r[i] == ToOdds(entries[g[0]].oddsList[i])
    ensures forall j, i | 0 <= j < |g| && 0 <= i < |entries[g[j]].oddsList| :: Represents(r, ToOdds(entries[g[j]].oddsList[i]))
  {
    forall j, i | 0 <= j < |g| && 0 <= i < |entries[g[j]].oddsList|
      ensures Represents(r, ToOdds(entries[g[j]].oddsList[i]))
    {
      assert SameLine(r[i], ToOdds(entries[g[j]].oddsList[i]));
    }
  }

  lemma CoversStep(entries: seq<RawEntry>, g: seq<nat>, h: seq<nat>, e: RawEntry, before: seq<BettingOdds>, r: seq<BettingOdds>)
    requires forall k | 0 <= k < |g| :: g[k] < |entries|
    requires |g| > 1 && h == g[..|g| - 1] && e == entries[g[|g| - 1]]
    requires forall j, i | 0 <= j < |h| && 0 <= i < |entries[h[j]].oddsList| :: Represents(before, ToOdds(entries[h[j]].oddsList[i]))
    requires forall i | 0 <= i < |before| :: Represents(r, before[i])
    requires forall i | 0 <= i < |e.oddsList| :: Represents(r, ToOdds(e.oddsList[i]))
    ensures forall j, i | 0 <= j < |g| && 0 <= i < |entries[g[j]].oddsList| :: Represents(r, ToOdds(entries[g[j]].oddsList[i]))
  {
    forall j, i | 0 <= j < |g| && 0 <= i < |entries[g[j]].oddsList|
      ensures Represents(r, ToOdds(entries[g[j]].oddsList[i]))
    {
      if j < |g| - 1 {
        assert g[j] == h[j];
        RepresentsThrough(before, r, ToOdds(entries[h[j]].oddsList[i]));
      }
    }
  }

  /** A line represented in a list whose every element is represented in a
      second list is represented in the second list. */
  lemma RepresentsThrough(ys: seq<BettingOdds>, zs: seq<BettingOdds>, x: BettingOdds)
    requires Represents(ys, x)
    requires forall i | 0 <= i < |ys| :: Represents(zs, ys[i])
    ensures Represents(zs, x)
  {
    var k :| 0 <= k < |ys| && SameLine(ys[k], x);
    var m :| 0 <= m < |zs| && SameLine(zs[m], ys[k]);
    assert SameLine(zs[m], x);
  }

  /** A line of some entry of the group. */
  ghost predicate FromGroup(y: BettingOdds, entries: seq<RawEntry>, g: seq<nat>)
    requires forall k | 0 <= k < |g| :: g[k] < |entries|
  {
    exists j, i | 0 <= j < |g| && 0 <= i < |entries[g[j]].oddsList| :: y == ToOdds(entries[g[j]].oddsList[i])
  }

  /** No line is invented: every line of a merged match is the mapping of a
      raw line of an entry of its group. */
  lemma {:induction false} GroupLinesComeFromEntries(t: TeamText, entries: seq<RawEntry>, stamps: seq<string>, g: seq<nat>)
    requires |entries| == |stamps| && |g| > 0
    requires forall k | 0 <= k < |g| :: g[k] < |entries|
    ensures forall y | y in MergeGroup(t, entries, stamps, g).allOdds.value :: FromGroup(y, entries, g)
    decreases |g|
  {
    MergeGroupUnfold(t, entries, stamps, g);
    var r := MergeGroup(t, entries, stamps, g).allOdds.value;
    if |g| == 1 {
      var e := entries[g[0]];
      forall y | y in r ensures FromGroup(y, entries, g) {
        var i :| 0 <= i < |r| && r[i] == y;
        assert y == ToOdds(e.oddsList[i]);
      }
    } else {
      var h := g[..|g| - 1];
      var e := entries[g[|g| - 1]];
      GroupLinesComeFromEntries(t, entries, stamps, h);
      var prev := MergeGroup(t, entries, stamps, h);
      assert prev.allOdds.GetOr([]) == prev.allOdds.value;
      MergeIntoAddsNothing(prev, e);
      forall y | y in r ensures FromGroup(y, entries, g) {
        LineOfMergedGroup(entries, g, h, prev.allOdds.value, e, y);
      }
    }
  }

  lemma LineOfMergedGroup(entries: seq<RawEntry>, g: seq<nat>, h: seq<nat>, before: seq<BettingOdds>, e: RawEntry, y: BettingOdds)
    requires forall k | 0 <= k < |g| :: g[k] < |entries|
    requires |g| > 1 && h == g[..|g| - 1] && e == entries[g[|g| - 1]]
    requires forall z | z in before :: FromGroup(z, entries, h)
    requires y in before || y in EntryOdds(e.oddsList)
    ensures FromGroup(y, entries, g)
  {
    if y in before {
      var j, i :| 0 <= j < |h| && 0 <= i < |entries[h[j]].oddsList| && y == ToOdds(entries[h[j]].oddsList[i]);
      assert h[j] == g[j];
    } else {
      var i :| 0 <= i < |e.oddsList| && EntryOdds(e.oddsList)[i] == y;
      assert y == ToOdds(entries[g[|g| - 1]].oddsList[i]);
    }
  }

  // ---------------------------------------------------------------------
  // Whole extractions
  // ---------------------------------------------------------------------

  /** Two distinct keys are two matches. */
  lemma DistinctOfTwo(k1: string, k2: string)
    requires k1 != k2
    ensures Distinct([k1, k2]) == [k1, k2]
  {
    DistinctSnoc([], k1);
    assert [k1, k2] == [k1] + [k2];
    DistinctSnoc([k1], k2);
  }

  /** An entry and the same entry with home and away swapped are extracted
      as two matches, so the reply is a list, when neither lower-cased name
      is a prefix of the other. */
  lemma ExtractIsDirectional(t: TeamText, e: RawEntry, s1: string, s2: string)
    requires var h := t.lower(CleanTeamName(t, e.homeTeam));
      var a := t.lower(CleanTeamName(t, e.awayTeam));
      !(h <= a) && !(a <= h)
    ensures var r := Extract(t, RawReply([e, e.(homeTeam := e.awayTeam, awayTeam := e.homeTeam)], None), [s1, s2]);
      r.Some? && r.value.isList && |r.value.matches| == 2
  {
    var swapped := e.(homeTeam := e.awayTeam, awayTeam := e.homeTeam);
    MergeKeyDirectional(t, e);
    var keys := Keys(t, [e, swapped]);
    assert keys == [MergeKey(t, e), MergeKey(t, swapped)];
    DistinctOfTwo(MergeKey(t, e), MergeKey(t, swapped));
  }

  const CornerLine := RawOdds(Some("Kèo Góc"), Some("0"), None, None, Some("9.5"), None, None, Some("FT"))
  const HandicapLine := RawOdds(Some(HandicapType), Some("-0.5"), None, None, Some("0"), None, None, Some("FT"))

  /** The corner line is not the handicap line, and only the latter is a
      full-time handicap line. */
  lemma CornerAndHandicapLines()
    ensures !SameLine(ToOdds(CornerLine), ToOdds(HandicapLine))
    ensures !IsMainLine(ToOdds(CornerLine)) && IsMainLine(ToOdds(HandicapLine))
  {
    var c := ToOdds(CornerLine);
    var h := ToOdds(HandicapLine);
    assert c.kind[4] != h.kind[4];
    assert h.rawText == "FT | HDP -0.5 | TX 0";
    NotContainsWithoutFirstChar(h.rawText, FirstHalf);
  }

  /** A non-main line followed by a main line that is not its duplicate:
      both are kept and the main line is shown. */
  lemma MergeTwoLines(c: BettingOdds, h: BettingOdds)
    requires !SameLine(c, h) && !IsMainLine(c) && IsMainLine(h)
    ensures Dedup([c] + [h]) == [c, h]
    ensures PickMain([c, h]) == Some(h)
  {
    assert [c] + [h] == [c, h];
    DedupOfDistinctLines([c, h]);
  }

  /** Two entries with the same key form one group. */
  lemma SameKeyPositions(t: TeamText, e1: RawEntry, e2: RawEntry)
    requires MergeKey(t, e1) == MergeKey(t, e2)
    ensures Distinct(Keys(t, [e1, e2])) == [MergeKey(t, e1)]
    ensures Positions(Keys(t, [e1, e2]), MergeKey(t, e1), 2) == [0, 1]
  {
    var keys := Keys(t, [e1, e2]);
    var k := MergeKey(t, e1);
    assert keys[0] == k && keys[1] == k;
    assert keys == [k] + [k];
    DistinctSnoc([], k);
    DistinctSnoc([k], k);
    assert Positions(keys, k, 1) == [0];
  }

  /** The group of two entries: the second merged into the first. */
  lemma GroupOfTwo(t: TeamText, e1: RawEntry, e2: RawEntry, s1: string, s2: string)
    ensures MergeGroup(t, [e1, e2], [s1, s2], [0, 1]) == MergeInto(NewMatch(t, e1, s1), e2)
  {
    MergeGroupUnfold(t, [e1, e2], [s1, s2], [0, 1]);
    assert [0, 1][..1] == [0];
    MergeGroupUnfold(t, [e1, e2], [s1, s2], [0]);
  }

  /** Two entries with the same key are extracted as one match: the second
      merged into the match the first created. */
  lemma ExtractSameKey(t: TeamText, e1: RawEntry, e2: RawEntry, s1: string, s2: string, analysis: Option<string>)
    requires MergeKey(t, e1) == MergeKey(t, e2)
    ensures var r := Extract(t, RawReply([e1, e2], analysis), [s1, s2]);
      && r.Some? && !r.value.isList && |r.value.matches| == 1
      && r.value.matches[0] == MergeInto(NewMatch(t, e1, s1), e2)
  {
    SameKeyPositions(t, e1, e2);
    GroupOfTwo(t, e1, e2, s1, s2);
  }

  /** Merging the handicap line into a match holding only the corner line. */
  lemma MergeHandicapIntoCorner(first: Match, e: RawEntry)
    requires first.allOdds.GetOr([]) == [ToOdds(CornerLine)] && e.oddsList == [HandicapLine]
    ensures MergeInto(first, e).allOdds == Some([ToOdds(CornerLine), ToOdds(HandicapLine)])
    ensures MergeInto(first, e).scannedOdds == Some(ToOdds(HandicapLine))
  {
    assert EntryOdds(e.oddsList) == [ToOdds(HandicapLine)];
    MergeIntoOdds(first, e);
    CornerAndHandicapLines();
    MergeTwoLines(ToOdds(CornerLine), ToOdds(HandicapLine));
  }

  /** Two screenshots of Feyenoord v Sturm Graz, one read as a corner line
      and one as the full-time handicap line, are extracted as one match
      holding both lines in order and showing the handicap line. */
  lemma FeyenoordScenario(t: TeamText, s1: string, s2: string)
    ensures var e1 := RawEntry(Some("Feyenoord"), Some("Sturm Graz"), None, None, [CornerLine]);
      var e2 := RawEntry(Some("Feyenoord"), Some("Sturm Graz"), None, None, [HandicapLine]);
      var r := Extract(t, RawReply([e1, e2], None), [s1, s2]);
      && r.Some? && !r.value.isList && |r.value.matches| == 1
      && r.value.matches[0].allOdds == Some([ToOdds(CornerLine), ToOdds(HandicapLine)])
      && r.value.matches[0].scannedOdds == Some(ToOdds(HandicapLine))
  {
    var e1 := RawEntry(Some("Feyenoord"), Some("Sturm Graz"), None, None, [CornerLine]);
    var e2 := RawEntry(Some("Feyenoord"), Some("Sturm Graz"), None, None, [HandicapLine]);
    ExtractSameKey(t, e1, e2, s1, s2, None);
    NewMatchOneLine(t, e1, s1);
    MergeHandicapIntoCorner(NewMatch(t, e1, s1), e2);
  }

  /** A match created from an entry with one line holds that line alone. */
  lemma NewMatchOneLine(t: TeamText, e: RawEntry, stamp: string)
    requires |e.oddsList| == 1
    ensures NewMatch(t, e, stamp).allOdds.GetOr([]) == [ToOdds(e.oddsList[0])]
  {
    var odds := NewMatch(t, e, stamp).allOdds.value;
    assert odds == [odds[0]];
  }
}
