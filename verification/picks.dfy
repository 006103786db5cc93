/** The saved-pick store of the app (App.tsx): the pure `prev => next`
    updaters given to `setSavedPicks`, the selection toggle, and the
    statistics computed from the saved picks.

    Clock readings and the random part of a pick id are parameters. */
module Picks {
  import opened Wrappers
  import opened Seqs
  import opened Types

  // ---------------------------------------------------------------------
  // Status cycling: `getNextStatus`
  // ---------------------------------------------------------------------

  /** `getNextStatus`: pending, won, lost, pending, ... */
  function NextStatus(s: PickStatus): (r: PickStatus)
    ensures r != s
    ensures s == Pending ==> r == Won
    ensures s == Won ==> r == Lost
  {
    match s
    case Pending => Won
    case Won => Lost
    case Lost => Pending
  }

  /** Three clicks bring a status back: the cycle has length three. */
  lemma {:induction false} NextStatusCycle(s: PickStatus)
    ensures NextStatus(NextStatus(NextStatus(s))) == s
    ensures NextStatus(NextStatus(s)) != s
  {
    match s
    case Pending =>
    case Won =>
    case Lost =>
  }

  // ---------------------------------------------------------------------
  // The invariant: status == outcomes.main
  // ---------------------------------------------------------------------

  const AllPending := PickOutcomes(Pending, Pending, Pending, Pending)

  /** The main-market outcome as the app reads it: `outcomes.main`, or the
      overall status when the pick has no outcomes. */
  function MainOutcome(p: SavedPick): PickStatus
  {
    if p.outcomes.Some? then p.outcomes.value.main else p.status
  }

  /** The overall status agrees with the main-market outcome. */
  predicate Consistent(p: SavedPick)
  {
    MainOutcome(p) == p.status
  }

  ghost predicate AllConsistent(picks: seq<SavedPick>)
  {
    forall i | 0 <= i < |picks| :: Consistent(picks[i])
  }

  /** The picks whose id is `pickId` are replaced by `f` of themselves; the
      others stay as they are (`prev.map(p => p.id !== pickId ? p : ...)`). */
  function UpdateWhere(picks: seq<SavedPick>, pickId: string, f: SavedPick -> SavedPick): (r: seq<SavedPick>)
    ensures |r| == |picks|
    ensures forall i | 0 <= i < |picks| && picks[i].id != pickId :: r[i] == picks[i]
    ensures forall i | 0 <= i < |picks| && picks[i].id == pickId :: r[i] == f(picks[i])
  {
    seq(|picks|, i requires 0 <= i < |picks| => if picks[i].id == pickId then f(picks[i]) else picks[i])
  }

  // ---------------------------------------------------------------------
  // Saving: `savePick` and `handleSaveAll`
  // ---------------------------------------------------------------------

  /** `prev.some(p => p.match.id === matchId)`, scanned from the front. */
  predicate IsSaved(picks: seq<SavedPick>, matchId: string)
    decreases |picks|
  {
    |picks| > 0 && (picks[0].matchInfo.id == matchId || IsSaved(picks[1..], matchId))
  }

  /** A match is saved exactly when some pick is for it. */
  lemma {:induction false} IsSavedSpec(picks: seq<SavedPick>, matchId: string)
    ensures IsSaved(picks, matchId) <==> exists i | 0 <= i < |picks| :: picks[i].matchInfo.id == matchId
    decreases |picks|
  {
    if |picks| > 0 {
      var rest := picks[1..];
      IsSavedSpec(rest, matchId);
      if exists i | 0 <= i < |rest| :: rest[i].matchInfo.id == matchId {
        var i :| 0 <= i < |rest| && rest[i].matchInfo.id == matchId;
        assert picks[i + 1] == rest[i];
      }
      if exists i | 0 < i < |picks| :: picks[i].matchInfo.id == matchId {
        var i :| 0 < i < |picks| && picks[i].matchInfo.id == matchId;
        assert rest[i - 1] == picks[i];
      }
    }
  }

  /** `savePick`'s updater. A match already saved leaves the
      list alone; otherwise one pending pick, all of whose outcomes are
      pending, is put in front of the unchanged list. Either way the match
      is saved afterwards, so saving it again changes nothing. */
  function Save(picks: seq<SavedPick>, m: Match, result: PredictionResult, id: string, now: int): (r: seq<SavedPick>)
    ensures IsSaved(picks, m.id) ==> r == picks
    ensures !IsSaved(picks, m.id) ==>
              && |r| == |picks| + 1 && r[1..] == picks
              && r[0].id == id && r[0].matchInfo == m && r[0].result == result && r[0].timestamp == now
              && r[0].status == Pending && r[0].outcomes == Some(AllPending)
              && r[0].note.None? && r[0].verification.None?
    ensures IsSaved(r, m.id)
    ensures AllConsistent(picks) ==> AllConsistent(r)
  {
    if IsSaved(picks, m.id) then picks
    else
      var pick := SavedPick(id, m, result, now, Pending, Some(AllPending), None, None);
      assert ([pick] + picks)[0].matchInfo.id == m.id;
      [pick] + picks
  }

  /** Saving the same match twice, under any id, prediction or time, is
      saving it once. */
  lemma SaveIdempotent(picks: seq<SavedPick>, m: Match, r1: PredictionResult, id1: string, now1: int,
                       r2: PredictionResult, id2: string, now2: int)
    ensures Save(Save(picks, m, r1, id1, now1), m, r2, id2, now2) == Save(picks, m, r1, id1, now1)
  {
  }

  /** `matches.find(m => m.id === matchId) || scannedMatch`: a match with
      the wanted id, or else the scanned match. */
  function ResolveMatch(matches: seq<Match>, matchId: string, scanned: Option<Match>): (r: Option<Match>)
    ensures r == scanned || (r.Some? && r.value.id == matchId)
  {
    if |matches| == 0 then scanned
    else if matches[0].id == matchId then Some(matches[0])
    else ResolveMatch(matches[1..], matchId, scanned)
  }

  /** The match found is the first with the wanted id. */
  lemma {:induction false} ResolveMatchFirst(matches: seq<Match>, matchId: string, scanned: Option<Match>, i: nat)
    requires i < |matches| && matches[i].id == matchId
    requires forall k | 0 <= k < i :: matches[k].id != matchId
    ensures ResolveMatch(matches, matchId, scanned) == Some(matches[i])
  {
    if i > 0 {
      assert matches[0].id != matchId;
      ResolveMatchFirst(matches[1..], matchId, scanned, i - 1);
    }
  }

  /** The scanned match is used only when no match has the wanted id. */
  lemma {:induction false} ResolveMatchAbsent(matches: seq<Match>, matchId: string, scanned: Option<Match>)
    requires forall i | 0 <= i < |matches| :: matches[i].id != matchId
    ensures ResolveMatch(matches, matchId, scanned) == scanned
  {
    if |matches| > 0 {
      assert matches[0].id != matchId;
      ResolveMatchAbsent(matches[1..], matchId, scanned);
    }
  }

  /** The clock readings and random id of one `savePick` call. */
  datatype Stamp = Stamp(id: string, time: int)

  /** `handleSaveAll` as written, over the first `n` results: a result is
      saved and counted when its match is not saved in `snapshot`, the list
      as it was when the button was pressed. */
  function SaveAllAsWritten(snapshot: seq<SavedPick>, results: seq<PredictionResult>, matches: seq<Match>,
                            scanned: Option<Match>, stamps: seq<Stamp>, n: nat): (r: (seq<SavedPick>, nat))
    requires n <= |results| == |stamps|
    ensures r.1 <= n
  {
    if n == 0 then (snapshot, 0)
    else
      var (picks, count) := SaveAllAsWritten(snapshot, results, matches, scanned, stamps, n - 1);
      var m := ResolveMatch(matches, results[n - 1].matchId, scanned);
      if m.Some? && !IsSaved(snapshot, m.value.id) then
        (Save(picks, m.value, results[n - 1], stamps[n - 1].id, stamps[n - 1].time), count + 1)
      else (picks, count)
  }

  /** `handleSaveAll` with the count corrected: a result is counted when its
      match is not yet saved in the list being built, which is exactly when
      `savePick` adds a pick. The count is the number of picks added, the
      earlier picks stay at the end of the list in order, and every match a
      result resolves to is saved afterwards. */
  function SaveAll(picks: seq<SavedPick>, results: seq<PredictionResult>, matches: seq<Match>,
                   scanned: Option<Match>, stamps: seq<Stamp>, n: nat): (r: (seq<SavedPick>, nat))
    requires n <= |results| == |stamps|
    ensures |picks| <= |r.0| && r.1 == |r.0| - |picks|
  {
    if n == 0 then (picks, 0)
    else
      var (ps, count) := SaveAll(picks, results, matches, scanned, stamps, n - 1);
      var m := ResolveMatch(matches, results[n - 1].matchId, scanned);
      if m.Some? && !IsSaved(ps, m.value.id) then
        (Save(ps, m.value, results[n - 1], stamps[n - 1].id, stamps[n - 1].time), count + 1)
      else (ps, count)
  }

  /** One step of saving everything leaves the list as it was or puts one
      pick in front of it. */
  lemma SaveAllStep(picks: seq<SavedPick>, results: seq<PredictionResult>, matches: seq<Match>,
                    scanned: Option<Match>, stamps: seq<Stamp>, n: nat)
    requires 0 < n <= |results| == |stamps|
    ensures var ps := SaveAll(picks, results, matches, scanned, stamps, n - 1).0;
      var r := SaveAll(picks, results, matches, scanned, stamps, n).0;
      r == ps || (|r| == |ps| + 1 && r[1..] == ps)
  {
  }

  /** Putting a pick in front keeps the picks at the end of the list. */
  lemma EndStays(picks: seq<SavedPick>, ps: seq<SavedPick>, r: seq<SavedPick>)
    requires |picks| <= |ps| && ps[|ps| - |picks|..] == picks
    requires |r| == |ps| + 1 && r[1..] == ps
    ensures |picks| <= |r| && r[|r| - |picks|..] == picks
  {
    assert r[|r| - |picks|..] == r[1..][|ps| - |picks|..];
  }

  /** The picks saved before stay at the end of the list, in order. */
  lemma {:induction false} SaveAllKeepsEarlier(picks: seq<SavedPick>, results: seq<PredictionResult>, matches: seq<Match>,
                                               scanned: Option<Match>, stamps: seq<Stamp>, n: nat)
    requires n <= |results| == |stamps|
    ensures var r := SaveAll(picks, results, matches, scanned, stamps, n).0;
      |picks| <= |r| && r[|r| - |picks|..] == picks
  {
    if n > 0 {
      SaveAllKeepsEarlier(picks, results, matches, scanned, stamps, n - 1);
      SaveAllStep(picks, results, matches, scanned, stamps, n);
      var ps := SaveAll(picks, results, matches, scanned, stamps, n - 1).0;
      var r := SaveAll(picks, results, matches, scanned, stamps, n).0;
      if r != ps {
        EndStays(picks, ps, r);
      }
    } else {
      assert picks[|picks| - |picks|..] == picks;
    }
  }

  /** Every match a result resolves to is saved afterwards. */
  lemma {:induction false} SaveAllSaves(picks: seq<SavedPick>, results: seq<PredictionResult>, matches: seq<Match>,
                                        scanned: Option<Match>, stamps: seq<Stamp>, n: nat, k: nat)
    requires k < n <= |results| == |stamps|
    requires ResolveMatch(matches, results[k].matchId, scanned).Some?
    ensures IsSaved(SaveAll(picks, results, matches, scanned, stamps, n).0,
                    ResolveMatch(matches, results[k].matchId, scanned).value.id)
  {
    var ps := SaveAll(picks, results, matches, scanned, stamps, n - 1).0;
    var m := ResolveMatch(matches, results[n - 1].matchId, scanned);
    var next := SaveAll(picks, results, matches, scanned, stamps, n).0;
    if k == n - 1 {
      if !IsSaved(ps, m.value.id) {
        assert next == Save(ps, m.value, results[n - 1], stamps[n - 1].id, stamps[n - 1].time);
      }
    } else {
      SaveAllSaves(picks, results, matches, scanned, stamps, n - 1, k);
      if next != ps {
        assert next[1..] == ps;
        SavedStaysSaved(ps, next);
      }
    }
  }

  /** Saving everything keeps every pick consistent. */
  lemma {:induction false} SaveAllKeepsConsistent(picks: seq<SavedPick>, results: seq<PredictionResult>, matches: seq<Match>,
                                                  scanned: Option<Match>, stamps: seq<Stamp>, n: nat)
    requires n <= |results| == |stamps| && AllConsistent(picks)
    ensures AllConsistent(SaveAll(picks, results, matches, scanned, stamps, n).0)
  {
    if n > 0 {
      SaveAllKeepsConsistent(picks, results, matches, scanned, stamps, n - 1);
    }
  }

  /** A list ending in another keeps every match the other has saved. */
  lemma {:induction false} SavedStaysSaved(picks: seq<SavedPick>, longer: seq<SavedPick>)
    requires |picks| <= |longer| && longer[|longer| - |picks|..] == picks
    ensures forall id | IsSaved(picks, id) :: IsSaved(longer, id)
    decreases |longer|
  {
    if |picks| < |longer| {
      assert longer[1..][|longer| - 1 - |picks|..] == picks;
      SavedStaysSaved(picks, longer[1..]);
    } else {
      assert longer == picks;
    }
  }

  /** Both versions build the same list; they differ only in the count. */
  lemma {:induction false} SaveAllSameList(picks: seq<SavedPick>, results: seq<PredictionResult>, matches: seq<Match>,
                                           scanned: Option<Match>, stamps: seq<Stamp>, n: nat)
    requires n <= |results| == |stamps|
    ensures SaveAllAsWritten(picks, results, matches, scanned, stamps, n).0 == SaveAll(picks, results, matches, scanned, stamps, n).0
  {
    if n > 0 {
      SaveAllSameList(picks, results, matches, scanned, stamps, n - 1);
      var m := ResolveMatch(matches, results[n - 1].matchId, scanned);
      SaveAllIsSave(picks, results, matches, scanned, stamps, n);
      if m.Some? && IsSaved(picks, m.value.id) {
        SaveAllKeepsSaved(picks, results, matches, scanned, stamps, n - 1, m.value.id);
        AsWrittenSkips(picks, results, matches, scanned, stamps, n);
      } else {
        AsWrittenIsSave(picks, results, matches, scanned, stamps, n);
      }
    }
  }

  /** A match saved before is still saved after saving everything. */
  lemma SaveAllKeepsSaved(picks: seq<SavedPick>, results: seq<PredictionResult>, matches: seq<Match>,
                          scanned: Option<Match>, stamps: seq<Stamp>, n: nat, id: string)
    requires n <= |results| == |stamps| && IsSaved(picks, id)
    ensures IsSaved(SaveAll(picks, results, matches, scanned, stamps, n).0, id)
  {
    SaveAllKeepsEarlier(picks, results, matches, scanned, stamps, n);
    SavedStaysSaved(picks, SaveAll(picks, results, matches, scanned, stamps, n).0);
  }

  /** A step of the corrected loop is a `savePick` call on the resolved
      match, which does nothing when that match is saved already. */
  lemma SaveAllIsSave(picks: seq<SavedPick>, results: seq<PredictionResult>, matches: seq<Match>,
                      scanned: Option<Match>, stamps: seq<Stamp>, n: nat)
    requires 0 < n <= |results| == |stamps|
    ensures var ps := SaveAll(picks, results, matches, scanned, stamps, n - 1).0;
      var m := ResolveMatch(matches, results[n - 1].matchId, scanned);
      SaveAll(picks, results, matches, scanned, stamps, n).0
      == if m.Some? then Save(ps, m.value, results[n - 1], stamps[n - 1].id, stamps[n - 1].time) else ps
  {
  }

  /** A step of the loop as written calls `savePick` when the match is not
      in the snapshot. */
  lemma AsWrittenIsSave(picks: seq<SavedPick>, results: seq<PredictionResult>, matches: seq<Match>,
                        scanned: Option<Match>, stamps: seq<Stamp>, n: nat)
    requires 0 < n <= |results| == |stamps|
    requires var m := ResolveMatch(matches, results[n - 1].matchId, scanned); m.Some? ==> !IsSaved(picks, m.value.id)
    ensures var ps := SaveAllAsWritten(picks, results, matches, scanned, stamps, n - 1).0;
      var m := ResolveMatch(matches, results[n - 1].matchId, scanned);
      SaveAllAsWritten(picks, results, matches, scanned, stamps, n).0
      == if m.Some? then Save(ps, m.value, results[n - 1], stamps[n - 1].id, stamps[n - 1].time) else ps
  {
  }

  /** A step of the loop as written skips a match of the snapshot. */
  lemma AsWrittenSkips(picks: seq<SavedPick>, results: seq<PredictionResult>, matches: seq<Match>,
                       scanned: Option<Match>, stamps: seq<Stamp>, n: nat)
    requires 0 < n <= |results| == |stamps|
    requires var m := ResolveMatch(matches, results[n - 1].matchId, scanned); m.Some? && IsSaved(picks, m.value.id)
    ensures SaveAllAsWritten(picks, results, matches, scanned, stamps, n).0
            == SaveAllAsWritten(picks, results, matches, scanned, stamps, n - 1).0
  {
  }

  /** Saving everything a second time saves nothing more, and both versions
      report 0. */
  lemma SaveAllTwice(picks: seq<SavedPick>, results: seq<PredictionResult>, matches: seq<Match>,
                     scanned: Option<Match>, stamps: seq<Stamp>, stamps2: seq<Stamp>)
    requires |results| == |stamps| == |stamps2|
    ensures var once := SaveAll(picks, results, matches, scanned, stamps, |results|).0;
      && SaveAll(once, results, matches, scanned, stamps2, |results|) == (once, 0)
      && SaveAllAsWritten(once, results, matches, scanned, stamps2, |results|).1 == 0
  {
    var once := SaveAll(picks, results, matches, scanned, stamps, |results|).0;
    forall k | 0 <= k < |results| && ResolveMatch(matches, results[k].matchId, scanned).Some?
      ensures IsSaved(once, ResolveMatch(matches, results[k].matchId, scanned).value.id)
    {
      SaveAllSaves(picks, results, matches, scanned, stamps, |results|, k);
    }
    SaveAllNothingNew(once, results, matches, scanned, stamps2, |results|);
    SaveAllSameList(once, results, matches, scanned, stamps2, |results|);
    AsWrittenNothingNew(once, results, matches, scanned, stamps2, |results|);
  }

  lemma {:induction false} SaveAllNothingNew(picks: seq<SavedPick>, results: seq<PredictionResult>, matches: seq<Match>,
                                             scanned: Option<Match>, stamps: seq<Stamp>, n: nat)
    requires n <= |results| == |stamps|
    requires forall k | 0 <= k < n :: var m := ResolveMatch(matches, results[k].matchId, scanned);
               m.Some? ==> IsSaved(picks, m.value.id)
    ensures SaveAll(picks, results, matches, scanned, stamps, n) == (picks, 0)
  {
    if n > 0 {
      SaveAllNothingNew(picks, results, matches, scanned, stamps, n - 1);
    }
  }

  lemma {:induction false} AsWrittenNothingNew(picks: seq<SavedPick>, results: seq<PredictionResult>, matches: seq<Match>,
                                               scanned: Option<Match>, stamps: seq<Stamp>, n: nat)
    requires n <= |results| == |stamps|
    requires forall k | 0 <= k < n :: var m := ResolveMatch(matches, results[k].matchId, scanned);
               m.Some? ==> IsSaved(picks, m.value.id)
    ensures SaveAllAsWritten(picks, results, matches, scanned, stamps, n).1 == 0
  {
    if n > 0 {
      AsWrittenNothingNew(picks, results, matches, scanned, stamps, n - 1);
    }
  }

  /** The count as written can exceed the picks added: two results that
      both fall back to the scanned match are counted twice, while the
      second `savePick` finds the match already saved and adds nothing. */
  lemma SaveAllOvercounts(m: Match, r1: PredictionResult, r2: PredictionResult, s1: Stamp, s2: Stamp)
    ensures var asWritten := SaveAllAsWritten([], [r1, r2], [], Some(m), [s1, s2], 2);
      var corrected := SaveAll([], [r1, r2], [], Some(m), [s1, s2], 2);
      && asWritten.0 == corrected.0 && |corrected.0| == 1
      && asWritten.1 == 2 && corrected.1 == 1
  {
    var results, stamps := [r1, r2], [s1, s2];
    assert ResolveMatch([], r1.matchId, Some(m)) == Some(m);
    assert ResolveMatch([], r2.matchId, Some(m)) == Some(m);
    var one := Save([], m, r1, s1.id, s1.time);
    assert SaveAll([], results, [], Some(m), stamps, 1) == (one, 1);
    assert IsSaved(one, m.id);
    SaveAllSameList([], results, [], Some(m), stamps, 2);
  }

  // ---------------------------------------------------------------------
  // Outcome toggles and the overall status
  // ---------------------------------------------------------------------

  /** `currentOutcomes` in `toggleGranularOutcome`: `p.outcomes`, or main taken from the status and the other
      markets pending. */
  function CurrentOutcomes(p: SavedPick): (r: PickOutcomes)
    ensures p.outcomes.Some? ==> r == p.outcomes.value
    ensures p.outcomes.None? ==> r.main == p.status && r.score == Pending && r.corner == Pending && r.card == Pending
  {
    p.outcomes.GetOr(PickOutcomes(p.status, Pending, Pending, Pending))
  }

  /** `toggleGranularOutcome` for one pick: only the clicked market advances; the
      overall status follows it when it is the main market and is kept
      otherwise; nothing else changes. */
  function ToggleOne(p: SavedPick, market: Market): (r: SavedPick)
    ensures r.(status := p.status, outcomes := p.outcomes) == p
    ensures r.outcomes.Some? && r.outcomes.value.Get(market) == NextStatus(CurrentOutcomes(p).Get(market))
    ensures forall other | other != market :: r.outcomes.value.Get(other) == CurrentOutcomes(p).Get(other)
    ensures market == MainMarket ==> r.status == r.outcomes.value.main
    ensures market != MainMarket ==> r.status == p.status
  {
    var current := CurrentOutcomes(p);
    var next := NextStatus(current.Get(market));
    p.(outcomes := Some(current.With(market, next)), status := if market == MainMarket then next else p.status)
  }

  /** On a consistent pick the overall status changes exactly when the main
      market is clicked, and the pick stays consistent. */
  lemma ToggleOneConsistent(p: SavedPick, market: Market)
    requires Consistent(p)
    ensures Consistent(ToggleOne(p, market))
    ensures ToggleOne(p, market).status != p.status <==> market == MainMarket
  {
  }

  /** `toggleGranularOutcome`'s updater. */
  function Toggle(picks: seq<SavedPick>, pickId: string, market: Market): (r: seq<SavedPick>)
    ensures |r| == |picks|
    ensures forall i | 0 <= i < |picks| && picks[i].id != pickId :: r[i] == picks[i]
    ensures forall i | 0 <= i < |picks| && picks[i].id == pickId :: r[i] == ToggleOne(picks[i], market)
    ensures AllConsistent(picks) ==> AllConsistent(r)
  {
    var r := UpdateWhere(picks, pickId, p => ToggleOne(p, market));
    assert AllConsistent(picks) ==> AllConsistent(r) by {
      if AllConsistent(picks) {
        forall i | 0 <= i < |r| ensures Consistent(r[i]) {
          if picks[i].id == pickId { ToggleOneConsistent(picks[i], market); }
        }
      }
    }
    r
  }

  /** `updateOverallStatus` for one pick: the status and the main outcome both
      become `status`; score, corner and card keep their values (pending
      when the pick had no outcomes); nothing else changes. */
  function SetOverallOne(p: SavedPick, status: PickStatus): (r: SavedPick)
    ensures r.(status := p.status, outcomes := p.outcomes) == p
    ensures r.status == status && r.outcomes.Some? && r.outcomes.value.main == status
    ensures forall other | other != MainMarket :: r.outcomes.value.Get(other) == p.outcomes.GetOr(AllPending).Get(other)
    ensures Consistent(r)
  {
    p.(status := status, outcomes := Some(p.outcomes.GetOr(AllPending).With(MainMarket, status)))
  }

  /** `updateOverallStatus`'s updater. */
  function SetOverall(picks: seq<SavedPick>, pickId: string, status: PickStatus): (r: seq<SavedPick>)
    ensures |r| == |picks|
    ensures forall i | 0 <= i < |picks| && picks[i].id != pickId :: r[i] == picks[i]
    ensures forall i | 0 <= i < |picks| && picks[i].id == pickId :: r[i] == SetOverallOne(picks[i], status)
    ensures AllConsistent(picks) ==> AllConsistent(r)
  {
    UpdateWhere(picks, pickId, p => SetOverallOne(p, status))
  }

  // ---------------------------------------------------------------------
  // Verification: `handleVerifyResult` and `handleVerifyAll`
  // ---------------------------------------------------------------------

  /** `handleVerifyResult` for one pick: status and outcomes come from the
      verification result, the verification record is filled in, the note
      is replaced unless the new one is empty; nothing else changes. */
  function ApplyOne(p: SavedPick, res: MatchVerificationResult, checkedAt: int): (r: SavedPick)
    ensures r.(status := p.status, outcomes := p.outcomes, verification := p.verification, note := p.note) == p
    ensures r.status == res.outcomes.main && r.outcomes == Some(res.outcomes)
    ensures r.verification == Some(Verification(checkedAt, res.actualScore, Some(res.actualCorners), Some(res.actualCards)))
    ensures res.note != "" ==> r.note == Some(res.note)
    ensures res.note == "" ==> r.note == p.note
    ensures Consistent(r)
  {
    p.(status := res.outcomes.main,
       outcomes := Some(res.outcomes),
       verification := Some(Verification(checkedAt, res.actualScore, Some(res.actualCorners), Some(res.actualCards))),
       note := if res.note != "" then Some(res.note) else p.note)
  }

  /** A pick after a verification call: the answer applied, or the pick
      unchanged when the call failed. */
  function Answered(p: SavedPick, outcome: Option<MatchVerificationResult>, checkedAt: int): SavedPick
  {
    match outcome
    case None => p
    case Some(res) => ApplyOne(p, res, checkedAt)
  }

  /** `handleVerifyResult` after the service call. A failed
      call (`None`) changes nothing. */
  function ApplyVerification(picks: seq<SavedPick>, pickId: string, outcome: Option<MatchVerificationResult>, checkedAt: int): (r: seq<SavedPick>)
    ensures outcome.None? ==> r == picks
    ensures |r| == |picks| && forall i | 0 <= i < |picks| :: r[i].id == picks[i].id
    ensures forall i | 0 <= i < |picks| && picks[i].id != pickId :: r[i] == picks[i]
    ensures outcome.Some? ==> forall i | 0 <= i < |picks| && picks[i].id == pickId :: r[i] == ApplyOne(picks[i], outcome.value, checkedAt)
    ensures AllConsistent(picks) ==> AllConsistent(r)
  {
    match outcome
    case None => picks
    case Some(res) => UpdateWhere(picks, pickId, p => ApplyOne(p, res, checkedAt))
  }

  predicate IsPending(p: SavedPick)
  {
    p.status == Pending
  }

  function IdOf(p: SavedPick): string
  {
    p.id
  }

  /** `savedPicks.filter(p => p.status === 'pending')` in `handleVerifyAll`:
      the picks whose overall status is pending. */
  function PendingPicks(picks: seq<SavedPick>): (r: seq<SavedPick>)
    ensures forall i | 0 <= i < |r| :: r[i] in picks && r[i].status == Pending
    ensures forall i | 0 <= i < |picks| && picks[i].status == Pending :: picks[i] in r
  {
    Filter(picks, IsPending)
  }

  /** The pending picks keep their order: those of two lists joined are
      those of the first followed by those of the second. */
  lemma PendingPicksKeepOrder(a: seq<SavedPick>, b: seq<SavedPick>)
    ensures PendingPicks(a + b) == PendingPicks(a) + PendingPicks(b)
  {
    FilterAppend(a, b, IsPending);
  }

  /** Picks with distinct ids give pending picks with distinct ids. */
  lemma PendingPicksDistinct(picks: seq<SavedPick>)
    requires DistinctBy(picks, IdOf)
    ensures DistinctBy(PendingPicks(picks), IdOf)
  {
    FilterDistinctBy(picks, IsPending, IdOf);
  }

  /** The first `n` pending picks verified in turn: `outcomes[k]` and
      `times[k]` are what the service and the clock gave for `targets[k]`.
      Each pick goes through exactly the visits of its own id, in order. */
  function VerifyEach(picks: seq<SavedPick>, targets: seq<SavedPick>, outcomes: seq<Option<MatchVerificationResult>>,
                      times: seq<int>, n: nat): (r: seq<SavedPick>)
    requires n <= |targets| == |outcomes| == |times|
    ensures |r| == |picks| && forall i | 0 <= i < |picks| :: r[i].id == picks[i].id
    ensures forall i | 0 <= i < |picks| :: r[i] == Visits(picks[i], targets, outcomes, times, n)
    ensures forall i | 0 <= i < |picks| && (forall k | 0 <= k < n :: targets[k].id != picks[i].id) :: r[i] == picks[i]
    ensures AllConsistent(picks) ==> AllConsistent(r)
  {
    if n == 0 then picks
    else ApplyVerification(VerifyEach(picks, targets, outcomes, times, n - 1), targets[n - 1].id, outcomes[n - 1], times[n - 1])
  }

  /** One pick after the first `n` visits: every visit of its id applies
      that visit's answer. */
  function Visits(p: SavedPick, targets: seq<SavedPick>, outcomes: seq<Option<MatchVerificationResult>>,
                  times: seq<int>, n: nat): (r: SavedPick)
    requires n <= |targets| == |outcomes| == |times|
    ensures r.id == p.id
  {
    if n == 0 then p
    else
      var q := Visits(p, targets, outcomes, times, n - 1);
      if targets[n - 1].id == p.id then Answered(q, outcomes[n - 1], times[n - 1]) else q
  }

  /** A pick no visit is for stays as it was. */
  lemma {:induction false} VisitsNone(p: SavedPick, targets: seq<SavedPick>, outcomes: seq<Option<MatchVerificationResult>>,
                                      times: seq<int>, n: nat)
    requires n <= |targets| == |outcomes| == |times|
    requires forall l | 0 <= l < n :: targets[l].id != p.id
    ensures Visits(p, targets, outcomes, times, n) == p
  {
    if n > 0 {
      VisitsNone(p, targets, outcomes, times, n - 1);
    }
  }

  /** A pick visited as `targets[k]`, and by no other visit, ends up with
      the answer of that visit applied to it, or unchanged when that call
      failed. */
  lemma {:induction false} VisitedOnce(p: SavedPick, targets: seq<SavedPick>, outcomes: seq<Option<MatchVerificationResult>>,
                                       times: seq<int>, n: nat, k: nat)
    requires n <= |targets| == |outcomes| == |times|
    requires k < n && targets[k].id == p.id
    requires forall l | 0 <= l < n && l != k :: targets[l].id != p.id
    ensures Visits(p, targets, outcomes, times, n) == Answered(p, outcomes[k], times[k])
  {
    if k == n - 1 {
      VisitsNone(p, targets, outcomes, times, n - 1);
    } else {
      VisitedOnce(p, targets, outcomes, times, n - 1, k);
    }
  }

  /** `handleVerifyAll`. Only the picks that were pending
      when it started, and picks sharing their ids, can change; when the
      ids are distinct, each pending pick gets the answer of its own visit
      applied, or stays as it was when that call failed. */
  function VerifyAll(picks: seq<SavedPick>, outcomes: seq<Option<MatchVerificationResult>>, times: seq<int>): (r: seq<SavedPick>)
    requires |outcomes| == |times| == |PendingPicks(picks)|
    ensures |r| == |picks|
    ensures forall i | 0 <= i < |picks| && (forall j | 0 <= j < |picks| && picks[j].status == Pending :: picks[j].id != picks[i].id) ::
              r[i] == picks[i]
    ensures DistinctBy(picks, IdOf) ==>
              forall i, k | 0 <= i < |picks| && 0 <= k < |PendingPicks(picks)| && PendingPicks(picks)[k] == picks[i] ::
                r[i] == Answered(picks[i], outcomes[k], times[k])
    ensures AllConsistent(picks) ==> AllConsistent(r)
  {
    var targets := PendingPicks(picks);
    var r := VerifyEach(picks, targets, outcomes, times, |targets|);
    forall i | 0 <= i < |picks| && (forall j | 0 <= j < |picks| && picks[j].status == Pending :: picks[j].id != picks[i].id)
      ensures forall k | 0 <= k < |targets| :: targets[k].id != picks[i].id
    {
      forall k | 0 <= k < |targets| ensures targets[k].id != picks[i].id {
        var j :| 0 <= j < |picks| && picks[j] == targets[k];
      }
    }
    VerifyAllVisits(picks, outcomes, times);
    r
  }

  /** The visited half of `VerifyAll`. */
  lemma VerifyAllVisits(picks: seq<SavedPick>, outcomes: seq<Option<MatchVerificationResult>>, times: seq<int>)
    requires |outcomes| == |times| == |PendingPicks(picks)|
    ensures var targets := PendingPicks(picks);
      DistinctBy(picks, IdOf) ==>
        forall i, k | 0 <= i < |picks| && 0 <= k < |targets| && targets[k] == picks[i] ::
          VerifyEach(picks, targets, outcomes, times, |targets|)[i] == Answered(picks[i], outcomes[k], times[k])
  {
    var targets := PendingPicks(picks);
    if DistinctBy(picks, IdOf) {
      PendingPicksDistinct(picks);
      forall i, k | 0 <= i < |picks| && 0 <= k < |targets| && targets[k] == picks[i]
        ensures VerifyEach(picks, targets, outcomes, times, |targets|)[i] == Answered(picks[i], outcomes[k], times[k])
      {
        forall l | 0 <= l < |targets| && l != k ensures targets[l].id != picks[i].id {
          if l < k {
            assert IdOf(targets[l]) != IdOf(targets[k]);
          } else {
            assert IdOf(targets[k]) != IdOf(targets[l]);
          }
        }
        VisitedOnce(picks[i], targets, outcomes, times, |targets|, k);
      }
    }
  }

  // ---------------------------------------------------------------------
  // Removal and selection: `removeSavedPick` and `toggleMatchSelection`
  // ---------------------------------------------------------------------

  /** `removeSavedPick`: the picks whose id differs from `pickId`, in their order. */
  function Remove(picks: seq<SavedPick>, pickId: string): (r: seq<SavedPick>)
    ensures forall i | 0 <= i < |r| :: r[i] in picks && r[i].id != pickId
    ensures forall i | 0 <= i < |picks| && picks[i].id != pickId :: picks[i] in r
    ensures AllConsistent(picks) ==> AllConsistent(r)
  {
    var r := Filter(picks, (p: SavedPick) => p.id != pickId);
    assert AllConsistent(picks) ==> AllConsistent(r) by {
      if AllConsistent(picks) {
        forall i | 0 <= i < |r| ensures Consistent(r[i]) {
          var j :| 0 <= j < |picks| && picks[j] == r[i];
        }
      }
    }
    r
  }

  /** Removal keeps order: removing from two lists joined is joining the
      two removals. */
  lemma RemoveKeepsOrder(a: seq<SavedPick>, b: seq<SavedPick>, pickId: string)
    ensures Remove(a + b, pickId) == Remove(a, pickId) + Remove(b, pickId)
  {
    FilterAppend(a, b, (p: SavedPick) => p.id != pickId);
  }

  /** Removing an id no pick has changes nothing. */
  lemma RemoveAbsent(picks: seq<SavedPick>, pickId: string)
    requires forall i | 0 <= i < |picks| :: picks[i].id != pickId
    ensures Remove(picks, pickId) == picks
  {
    FilterAll(picks, (p: SavedPick) => p.id != pickId);
  }

  /** `toggleMatchSelection`'s updater. An absent id is
      appended; a present one is removed, every occurrence of it; the other
      ids keep their membership. */
  function ToggleSelection(ids: seq<string>, id: string): (r: seq<string>)
    ensures id in r <==> id !in ids
    ensures forall x | x != id :: x in r <==> x in ids
    ensures id !in ids ==> r == ids + [id]
  {
    if id in ids then
      var r := Filter(ids, x => x != id);
      assert forall x | x != id && x in ids :: x in r by {
        forall x | x != id && x in ids ensures x in r {
          var i :| 0 <= i < |ids| && ids[i] == x;
        }
      }
      r
    else ids + [id]
  }

  /** Clicking an unselected match twice restores the selection. */
  lemma ToggleSelectionTwice(ids: seq<string>, id: string)
    requires id !in ids
    ensures ToggleSelection(ToggleSelection(ids, id), id) == ids
  {
    var once := ids + [id];
    FilterAppend(ids, [id], x => x != id);
    FilterAll(ids, x => x != id);
    assert Filter([id], x => x != id) == [];
  }

  // ---------------------------------------------------------------------
  // Statistics: `calculateWinRate` and `countResolved`
  // ---------------------------------------------------------------------

  /** `p.outcomes?.[market] || 'pending'`. */
  function OutcomeOf(p: SavedPick, market: Market): (r: PickStatus)
    ensures p.outcomes.None? ==> r == Pending
    ensures p.outcomes.Some? ==> r == CurrentOutcomes(p).Get(market)
  {
    if p.outcomes.Some? then p.outcomes.value.Get(market) else Pending
  }

  predicate IsResolved(s: PickStatus)
  {
    s == Won || s == Lost
  }

  /** The test of `resolved` in `calculateWinRate` and `countResolved`. */
  function ResolvedIn(market: Market): SavedPick -> bool
  {
    p => IsResolved(OutcomeOf(p, market))
  }

  /** The test of `won` in `calculateWinRate`. */
  function WonIn(market: Market): SavedPick -> bool
  {
    p => OutcomeOf(p, market) == Won
  }

  /** The picks whose outcome for `market` is won or lost, in order. */
  function ResolvedPicks(picks: seq<SavedPick>, market: Market): (r: seq<SavedPick>)
    ensures forall i | 0 <= i < |r| :: r[i] in picks && IsResolved(OutcomeOf(r[i], market))
    ensures forall i | 0 <= i < |picks| && IsResolved(OutcomeOf(picks[i], market)) :: picks[i] in r
  {
    Filter(picks, ResolvedIn(market))
  }

  /** `countResolved`: the number of picks whose outcome
      for `market` is won or lost. */
  function CountResolved(picks: seq<SavedPick>, market: Market): (r: nat)
    ensures r <= |picks|
    ensures r == |IndicesWhere(picks, ResolvedIn(market))|
  {
    FilterCount(picks, ResolvedIn(market));
    |ResolvedPicks(picks, market)|
  }

  /** `won` in `calculateWinRate`: the number of picks whose outcome is won,
      counted among the resolved ones. */
  function CountWon(picks: seq<SavedPick>, market: Market): (r: nat)
    ensures r <= CountResolved(picks, market)
    ensures r == |IndicesWhere(picks, WonIn(market))|
  {
    FilterFilter(picks, ResolvedIn(market), WonIn(market), WonIn(market));
    FilterCount(picks, WonIn(market));
    |Filter(ResolvedPicks(picks, market), WonIn(market))|
  }

  /** Resolved and pending picks together are all the picks: a pick without
      outcomes counts as pending. */
  lemma ResolvedAndPending(picks: seq<SavedPick>, market: Market)
    ensures CountResolved(picks, market) + |Filter(picks, (p: SavedPick) => OutcomeOf(p, market) == Pending)| == |picks|
  {
    FilterComplement(picks, ResolvedIn(market), p => OutcomeOf(p, market) == Pending);
  }

  /** `calculateWinRate`, the percentage of resolved picks
      that are won, rounded to the nearest integer with halves rounded up,
      and 0 when nothing is resolved. It lies in 0..100, and `r` is within
      one half of `100 * won / resolved`. */
  function WinRate(picks: seq<SavedPick>, market: Market): (r: int)
    ensures 0 <= r <= 100
    ensures CountResolved(picks, market) == 0 ==> r == 0
    ensures var res := CountResolved(picks, market);
      var won := CountWon(picks, market);
      res > 0 ==> 2 * res * r - res <= 200 * won < 2 * res * r + res
  {
    var res := CountResolved(picks, market);
    var won := CountWon(picks, market);
    if res == 0 then 0
    else RoundedPercent(won, res)
  }

  /** `Math.round(won / res * 100)` in exact arithmetic. */
  function RoundedPercent(won: nat, res: nat): (r: int)
    requires 0 < res && won <= res
    ensures 0 <= r <= 100
    ensures 2 * res * r - res <= 200 * won < 2 * res * r + res
  {
    var d := 2 * res;
    var x := 200 * won + res;
    var r := x / d;
    assert r * d <= x < r * d + d;
    assert x < 101 * d;
    assert r <= 100 by {
      if r > 100 { MulMonotone(d, 100, r); }
    }
    assert r >= 0 by {
      if r < 0 { MulMonotone(d, r, 0); }
    }
    r
  }

  /** Only won picks give 100 and no won pick gives 0. */
  lemma WinRateExtremes(picks: seq<SavedPick>, market: Market)
    requires CountResolved(picks, market) > 0
    ensures CountWon(picks, market) == CountResolved(picks, market) ==> WinRate(picks, market) == 100
    ensures CountWon(picks, market) == 0 ==> WinRate(picks, market) == 0
  {
    var res := CountResolved(picks, market);
    var won := CountWon(picks, market);
    assert WinRate(picks, market) == RoundedPercent(won, res);
    if won == res {
      AllWonRounds(res);
    }
    if won == 0 {
      NoneWonRounds(res);
    }
  }

  /** All of `res` picks won rounds to 100. */
  lemma AllWonRounds(res: nat)
    requires 0 < res
    ensures RoundedPercent(res, res) == 100
  {
    DivUnique(200 * res + res, 2 * res, 100);
  }

  /** None of `res` picks won rounds to 0. */
  lemma NoneWonRounds(res: nat)
    requires 0 < res
    ensures RoundedPercent(0, res) == 0
  {
    DivUnique(res, 2 * res, 0);
  }

  /** The quotient of Euclidean division is the only `q` with
      `q * d <= x < q * d + d`. */
  lemma DivUnique(x: int, d: int, q: int)
    requires d > 0 && q * d <= x < q * d + d
    ensures x / d == q
  {
    var q' := x / d;
    assert q' * d <= x < q' * d + d;
    if q' < q { MulMonotone(d, q', q); }
    if q < q' { MulMonotone(d, q, q'); }
  }

  lemma MulMonotone(d: int, a: int, b: int)
    requires d > 0 && a < b
    ensures a * d + d <= b * d
    decreases b - a
  {
    assert (a + 1) * d == a * d + d;
    if a + 1 < b { MulMonotone(d, a + 1, b); }
  }

  // ---------------------------------------------------------------------
  // Any sequence of updates
  // ---------------------------------------------------------------------

  /** One state update of the pick list. */
  datatype Action =
    | SaveAction(m: Match, result: PredictionResult, id: string, now: int)
    | SaveAllAction(results: seq<PredictionResult>, matches: seq<Match>, scanned: Option<Match>, stamps: seq<Stamp>)
    | ToggleAction(pickId: string, market: Market)
    | OverallAction(pickId: string, status: PickStatus)
    | VerifyAction(pickId: string, outcome: Option<MatchVerificationResult>, checkedAt: int)
    | RemoveAction(pickId: string)

  function Apply(picks: seq<SavedPick>, a: Action): seq<SavedPick>
  {
    match a
    case SaveAction(m, result, id, now) => Save(picks, m, result, id, now)
    case SaveAllAction(results, matches, scanned, stamps) =>
      if |results| == |stamps| then SaveAll(picks, results, matches, scanned, stamps, |results|).0 else picks
    case ToggleAction(pickId, market) => Toggle(picks, pickId, market)
    case OverallAction(pickId, status) => SetOverall(picks, pickId, status)
    case VerifyAction(pickId, outcome, checkedAt) => ApplyVerification(picks, pickId, outcome, checkedAt)
    case RemoveAction(pickId) => Remove(picks, pickId)
  }

  function Run(picks: seq<SavedPick>, actions: seq<Action>): seq<SavedPick>
  {
    if |actions| == 0 then picks
    else Apply(Run(picks, actions[..|actions| - 1]), actions[|actions| - 1])
  }

  /** Starting from consistent picks (the empty list, say), every sequence
      of saves, toggles, overrides, verifications and removals leaves every
      pick's status equal to its main outcome. */
  lemma {:induction false} RunKeepsConsistent(picks: seq<SavedPick>, actions: seq<Action>)
    requires AllConsistent(picks)
    ensures AllConsistent(Run(picks, actions))
  {
    if |actions| > 0 {
      RunKeepsConsistent(picks, actions[..|actions| - 1]);
      var before := Run(picks, actions[..|actions| - 1]);
      var a := actions[|actions| - 1];
      if a.SaveAllAction? && |a.results| == |a.stamps| {
        SaveAllKeepsConsistent(before, a.results, a.matches, a.scanned, a.stamps, |a.results|);
      }
    }
  }
}
