/** What the analysis card shows of a match's odds
    (components/AnalysisResult.tsx): the list of lines, grouped by their
    type for display, and the scope badge of each line. */
module Display {
  import opened Wrappers
  import opened Seqs
  import opened Text
  import opened Types
  import opened Odds
  import opened Grouping
  import opened Normalizer
  import opened Merge

  /** `allOdds` in `AnalysisResult`: every merged line when the match has a list, even an empty
      one (an empty array is truthy); otherwise the scanned line alone, or
      nothing. */
  function DisplayedOdds(m: Match): (r: seq<BettingOdds>)
    ensures m.allOdds.Some? ==> r == m.allOdds.value
    ensures m.allOdds.None? ==> |r| <= 1 && forall i | 0 <= i < |r| :: m.scannedOdds == Some(r[i])
    ensures m.allOdds.None? && m.scannedOdds.Some? ==> |r| == 1
  {
    match m.allOdds
    case Some(all) => all
    case None => if m.scannedOdds.Some? then [m.scannedOdds.value] else []
  }

  /** The card of an extracted match shows every line read for it: each
      odds line of each entry whose key is the match's key has a duplicate
      among the displayed lines. */
  lemma ExtractedMatchShowsEveryLine(t: TeamText, reply: RawReply, stamps: seq<string>, k: nat, j: nat, i: nat)
    requires |stamps| == |reply.matches|
    requires j < |reply.matches| && i < |reply.matches[j].oddsList|
    requires k < |Distinct(Keys(t, reply.matches))| && Keys(t, reply.matches)[j] == Distinct(Keys(t, reply.matches))[k]
    ensures Represents(DisplayedOdds(Extract(t, reply, stamps).value.matches[k]), ToOdds(reply.matches[j].oddsList[i]))
  {
    var keys := Keys(t, reply.matches);
    var g := Positions(keys, Distinct(keys)[k], |keys|);
    PositionsComplete(keys, Distinct(keys)[k], |keys|, j);
    var p :| 0 <= p < |g| && g[p] == j;
    GroupCoversEveryLine(t, reply.matches, stamps, g);
  }

  const OtherGroup := "Khác"

  /** The group key of `groupedOdds`: `odd.type || "Khác"`; an empty type falls into the other
      group. */
  function GroupKey(o: BettingOdds): (r: string)
    ensures r != ""
    ensures o.kind != "" ==> r == o.kind
  {
    OrElse(Some(o.kind), OtherGroup)
  }

  /** The group key of every line, in order. */
  function Kinds(odds: seq<BettingOdds>): (r: seq<string>)
    ensures |r| == |odds|
    ensures forall i | 0 <= i < |odds| :: r[i] == GroupKey(odds[i])
  {
    seq(|odds|, i requires 0 <= i < |odds| => GroupKey(odds[i]))
  }

  /** The reduce does not read the clock: every visit gets the same stamp. */
  function NoStamps(n: nat): (r: seq<string>)
    ensures |r| == n
  {
    seq(n, _ => "")
  }

  /** `acc[type] = [odd]` for a type not seen yet. */
  function Single(o: BettingOdds, stamp: string): seq<BettingOdds>
  {
    [o]
  }

  /** `acc[type].push(odd)`. */
  function Push(group: seq<BettingOdds>, o: BettingOdds): seq<BettingOdds>
  {
    group + [o]
  }

  /** `groupedOdds`: the groups, one per type in the order the types first
      occur. */
  function GroupOdds(odds: seq<BettingOdds>): (r: seq<Slot<seq<BettingOdds>>>)
    ensures |r| <= |odds|
    ensures forall k1, k2 | 0 <= k1 < k2 < |r| :: r[k1].key != r[k2].key
  {
    Collect(odds, Kinds(odds), NoStamps(|odds|), Single, Push, |odds|)
  }

  /** The lines whose group key is `key`. */
  function OfKind(key: string): BettingOdds -> bool
  {
    o => GroupKey(o) == key
  }

  /** The lines at the indices `g`, in that order. */
  function Pick(odds: seq<BettingOdds>, g: seq<nat>): (r: seq<BettingOdds>)
    requires forall k | 0 <= k < |g| :: g[k] < |odds|
    ensures |r| == |g| && forall k | 0 <= k < |g| :: r[k] == odds[g[k]]
  {
    seq(|g|, k requires 0 <= k < |g| => odds[g[k]])
  }

  /** Pushing one line at a time builds the lines of the group in order. */
  lemma {:induction false} FoldIsPick(odds: seq<BettingOdds>, g: seq<nat>)
    requires |g| > 0 && forall k | 0 <= k < |g| :: g[k] < |odds|
    ensures FoldGroup(odds, NoStamps(|odds|), Single, Push, g) == Pick(odds, g)
    decreases |g|
  {
    if |g| > 1 {
      FoldIsPick(odds, g[..|g| - 1]);
    }
  }

  /** The lines at the positions of a key are the lines of that key. */
  lemma {:induction false} PickPositions(odds: seq<BettingOdds>, key: string, n: nat)
    requires n <= |odds|
    ensures Pick(odds, Positions(Kinds(odds), key, n)) == Filter(odds[..n], OfKind(key))
  {
    if n > 0 {
      PickPositions(odds, key, n - 1);
      assert odds[..n][..n - 1] == odds[..n - 1];
    }
  }

  /** The displayed groups: one per distinct type in first-seen order, each
      holding exactly the lines of its type in their original order. */
  lemma GroupOddsSpec(odds: seq<BettingOdds>)
    ensures var r := GroupOdds(odds);
      && |r| == |Distinct(Kinds(odds))|
      && forall k | 0 <= k < |r| :: r[k].key == Distinct(Kinds(odds))[k] && r[k].found == Filter(odds, OfKind(r[k].key))
  {
    var keys := Kinds(odds);
    CollectIsGrouped(odds, keys, NoStamps(|odds|), Single, Push, |odds|);
    assert keys[..|odds|] == keys;
    assert odds[..|odds|] == odds;
    var r := GroupOdds(odds);
    forall k | 0 <= k < |r|
      ensures r[k].found == Filter(odds, OfKind(r[k].key))
    {
      var g := Positions(keys, r[k].key, |odds|);
      FoldIsPick(odds, g);
      PickPositions(odds, r[k].key, |odds|);
    }
  }

  /** The number of lines held by the groups. */
  function Size(slots: seq<Slot<seq<BettingOdds>>>): nat
  {
    if |slots| == 0 then 0 else Size(slots[..|slots| - 1]) + |slots[|slots| - 1].found|
  }

  /** Replacing one group changes the total by the change in its size. */
  lemma {:induction false} SizeUpdate(slots: seq<Slot<seq<BettingOdds>>>, i: nat, s: Slot<seq<BettingOdds>>)
    requires i < |slots|
    ensures Size(slots[i := s]) + |slots[i].found| == Size(slots) + |s.found|
  {
    var n := |slots| - 1;
    if i < n {
      SizeUpdate(slots[..n], i, s);
      assert slots[i := s][..n] == slots[..n][i := s];
    } else {
      assert slots[i := s][..n] == slots[..n];
    }
  }

  /** Every line is shown exactly once: the groups hold as many lines as
      were given. */
  lemma {:induction false} GroupOddsKeepsEveryLine(odds: seq<BettingOdds>, n: nat)
    requires n <= |odds|
    ensures Size(Collect(odds, Kinds(odds), NoStamps(|odds|), Single, Push, n)) == n
  {
    if n > 0 {
      GroupOddsKeepsEveryLine(odds, n - 1);
      var slots := Collect(odds, Kinds(odds), NoStamps(|odds|), Single, Push, n - 1);
      var i := SlotIndex(slots, Kinds(odds)[n - 1]);
      if i >= 0 {
        SizeUpdate(slots, i, Slot(Kinds(odds)[n - 1], Push(slots[i].found, odds[n - 1])));
      }
    }
  }

  /** The sizes of the groups add up to the number of lines. */
  lemma GroupOddsSize(odds: seq<BettingOdds>)
    ensures Size(GroupOdds(odds)) == |odds|
  {
    GroupOddsKeepsEveryLine(odds, |odds|);
  }

  const FirstHalfLabel := "Hiệp 1"
  const FullTimeLabel := "Cả trận"

  /** The scope badge shown beside each line of a group. */
  function ScopeLabel(o: BettingOdds): (r: string)
    ensures r == FirstHalfLabel <==> Contains(o.rawText, FirstHalf)
    ensures r == FirstHalfLabel || r == FullTimeLabel
  {
    if Contains(o.rawText, FirstHalf) then FirstHalfLabel else FullTimeLabel
  }

  /** The line chosen as main is labelled full time. */
  lemma MainLineIsFullTime(o: BettingOdds)
    requires IsMainLine(o)
    ensures ScopeLabel(o) == FullTimeLabel
  {
  }

  /** A line read with scope "1H" is labelled first half. */
  lemma FirstHalfScopeLabel(raw: RawOdds)
    requires raw.scope == Some(FirstHalf)
    ensures ScopeLabel(ToOdds(raw)) == FirstHalfLabel
  {
    var s := ToOdds(raw).rawText;
    var prefix := OrElse(raw.scope, "FT") + " | HDP " + Interpolate(raw.handicap) + " | TX ";
    assert s[..|prefix|] == prefix;
    assert s[0..2] == FirstHalf;
    assert OccursAt(s, FirstHalf, 0);
  }
}
