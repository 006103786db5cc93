/** Odds lines of the multi-image extraction (services/geminiService.ts,
    `extractMatchInfoFromImages`): the mapping of a raw line to a
    `BettingOdds` record, the duplicate filter applied when two entries of
    the same match are merged, and the choice of the representative line. */
module Odds {
  import opened Wrappers
  import opened Text
  import opened Types

  /** One element of an entry's `oddsList` as the service returns it. */
  datatype RawOdds = RawOdds(
    betType: Option<string>,
    handicap: Option<string>,
    handicapHomeOdds: Option<string>,
    handicapAwayOdds: Option<string>,
    overUnderLine: Option<string>,
    overOdds: Option<string>,
    underOdds: Option<string>,
    scope: Option<string>)

  const HandicapType := "Kèo Chấp"
  const NotAvailable := "N/A"
  const FirstHalf := "1H"

  /** `${v}` in a template literal: an absent value prints as "undefined". */
  function Interpolate(v: Option<string>): string
  {
    match v
    case Some(x) => x
    case None => "undefined"
  }

  /** `field` is what `raw || fallback` gives. */
  ghost predicate DefaultsTo(field: string, raw: Option<string>, fallback: string)
  {
    && (raw.Some? && raw.value != "" ==> field == raw.value)
    && (raw.None? || raw.value == "" ==> field == fallback)
  }

  /** `entryOdds`, one element: a raw line as a `BettingOdds` record. Missing or empty
      fields take their defaults, so no field of the record is empty; the
      summary `rawText` is built from the scope (default "FT") and the raw,
      undefaulted handicap and over/under line. */
  function ToOdds(o: RawOdds): (r: BettingOdds)
    ensures DefaultsTo(r.kind, o.betType, HandicapType)
    ensures r.handicap.Some? && DefaultsTo(r.handicap.value, o.handicap, "0")
    ensures r.homeOdds.Some? && DefaultsTo(r.homeOdds.value, o.handicapHomeOdds, NotAvailable)
    ensures r.awayOdds.Some? && DefaultsTo(r.awayOdds.value, o.handicapAwayOdds, NotAvailable)
    ensures r.overUnder.Some? && DefaultsTo(r.overUnder.value, o.overUnderLine, NotAvailable)
    ensures r.overOdds.Some? && DefaultsTo(r.overOdds.value, o.overOdds, NotAvailable)
    ensures r.underOdds.Some? && DefaultsTo(r.underOdds.value, o.underOdds, NotAvailable)
    ensures r.europeanHome.None? && r.europeanDraw.None? && r.europeanAway.None?
    ensures StartsWith(r.rawText, OrElse(o.scope, "FT") + " | HDP " + Interpolate(o.handicap) + " | TX ")
  {
    var prefix := OrElse(o.scope, "FT") + " | HDP " + Interpolate(o.handicap) + " | TX ";
    var raw := prefix + Interpolate(o.overUnderLine);
    assert raw[..|prefix|] == prefix;
    BettingOdds(
      kind := OrElse(o.betType, HandicapType),
      handicap := Some(OrElse(o.handicap, "0")),
      homeOdds := Some(OrElse(o.handicapHomeOdds, NotAvailable)),
      awayOdds := Some(OrElse(o.handicapAwayOdds, NotAvailable)),
      overUnder := Some(OrElse(o.overUnderLine, NotAvailable)),
      overOdds := Some(OrElse(o.overOdds, NotAvailable)),
      underOdds := Some(OrElse(o.underOdds, NotAvailable)),
      europeanHome := None,
      europeanDraw := None,
      europeanAway := None,
      rawText := raw)
  }

  /** The summary text keeps the raw handicap: a line without a handicap and
      the same line with handicap "0" get the same `handicap` field but are
      not duplicates of each other. */
  lemma AbsentHandicapIsNotZero(o: RawOdds)
    requires o.handicap.None?
    ensures ToOdds(o).handicap == ToOdds(o.(handicap := Some("0"))).handicap == Some("0")
    ensures ToOdds(o).rawText != ToOdds(o.(handicap := Some("0"))).rawText
  {
    assert |ToOdds(o).rawText| != |ToOdds(o.(handicap := Some("0"))).rawText|;
  }

  /** `entryOdds` over a whole `oddsList`. */
  function EntryOdds(list: seq<RawOdds>): (r: seq<BettingOdds>)
    ensures |r| == |list|
    ensures forall i | 0 <= i < |list| :: r[i] == ToOdds(list[i])
  {
    seq(|list|, i requires 0 <= i < |list| => ToOdds(list[i]))
  }

  // ---------------------------------------------------------------------
  // Duplicates among the merged lines
  // ---------------------------------------------------------------------

  /** The duplicate test of the merge: same `rawText`, `type` and `handicap`. */
  predicate SameLine(a: BettingOdds, b: BettingOdds)
  {
    a.rawText == b.rawText && a.kind == b.kind && a.handicap == b.handicap
  }

  /** `xs.findIndex(t => SameLine(t, v))`: the first index of a duplicate of
      `v`, or -1. */
  function FindIndex(xs: seq<BettingOdds>, v: BettingOdds): (r: int)
    ensures -1 <= r < |xs|
    ensures r >= 0 ==> SameLine(xs[r], v)
    ensures forall k | 0 <= k < |xs| && (r == -1 || k < r) :: !SameLine(xs[k], v)
  {
    if |xs| == 0 then -1
    else if SameLine(xs[0], v) then 0
    else
      var k := FindIndex(xs[1..], v);
      if k == -1 then -1 else k + 1
  }

  /** Duplicates have the same first occurrence. */
  lemma FindIndexOfDuplicate(xs: seq<BettingOdds>, a: BettingOdds, b: BettingOdds)
    requires SameLine(a, b)
    ensures FindIndex(xs, a) == FindIndex(xs, b)
  {
  }

  /** An element's own first occurrence is at or before it. */
  lemma FindIndexOfElement(xs: seq<BettingOdds>, i: int)
    requires 0 <= i < |xs|
    ensures 0 <= FindIndex(xs, xs[i]) <= i
  {
  }

  /** The list has no two duplicates. */
  ghost predicate NoDuplicateLines(xs: seq<BettingOdds>)
  {
    forall i, j | 0 <= i < j < |xs| :: !SameLine(xs[i], xs[j])
  }

  /** Some element of `ys` is a duplicate of `x`: the line of `x` is kept. */
  ghost predicate Represents(ys: seq<BettingOdds>, x: BettingOdds)
  {
    exists k | 0 <= k < |ys| :: SameLine(ys[k], x)
  }

  /** The elements among the first `n` of `xs` that are the first of their
      line, in order: `xs.filter((v, i, a) => a.findIndex(...) === i)`
      stopped after index `n - 1`. */
  function KeepFirst(xs: seq<BettingOdds>, n: nat): (r: seq<BettingOdds>)
    requires n <= |xs|
    ensures |r| <= n
  {
    if n == 0 then []
    else KeepFirst(xs, n - 1) + (if FindIndex(xs, xs[n - 1]) == n - 1 then [xs[n - 1]] else [])
  }

  /** What the filter keeps among the first `n` elements: first occurrences
      only, in order, and the first occurrence of every line seen so far. */
  lemma KeepFirstSpec(xs: seq<BettingOdds>, n: nat)
    requires n <= |xs|
    ensures var r := KeepFirst(xs, n);
      && (forall k | 0 <= k < |r| :: 0 <= FindIndex(xs, r[k]) < n && xs[FindIndex(xs, r[k])] == r[k])
      && (forall k1, k2 | 0 <= k1 < k2 < |r| :: FindIndex(xs, r[k1]) < FindIndex(xs, r[k2]))
      && (forall i | 0 <= i < n :: xs[FindIndex(xs, xs[i])] in r)
  {
    KeepFirstFirsts(xs, n);
    KeepFirstOrdered(xs, n);
    KeepFirstCovers(xs, n);
  }

  /** One step of the filter: the element at `n - 1` is kept exactly when
      it is the first of its line. */
  lemma KeepFirstStep(xs: seq<BettingOdds>, n: nat)
    requires 0 < n <= |xs|
    ensures FindIndex(xs, xs[n - 1]) == n - 1 ==> KeepFirst(xs, n) == KeepFirst(xs, n - 1) + [xs[n - 1]]
    ensures FindIndex(xs, xs[n - 1]) != n - 1 ==> KeepFirst(xs, n) == KeepFirst(xs, n - 1)
  {
  }

  lemma {:induction false} KeepFirstFirsts(xs: seq<BettingOdds>, n: nat)
    requires n <= |xs|
    ensures var r := KeepFirst(xs, n);
      forall k | 0 <= k < |r| :: 0 <= FindIndex(xs, r[k]) < n && xs[FindIndex(xs, r[k])] == r[k]
  {
    if n > 0 {
      KeepFirstFirsts(xs, n - 1);
      KeepFirstStep(xs, n);
      var prev := KeepFirst(xs, n - 1);
      var r := KeepFirst(xs, n);
      forall k | 0 <= k < |r|
        ensures 0 <= FindIndex(xs, r[k]) < n && xs[FindIndex(xs, r[k])] == r[k]
      {
        if k < |prev| {
          assert r[k] == prev[k];
        }
      }
    }
  }

  lemma {:induction false} KeepFirstOrdered(xs: seq<BettingOdds>, n: nat)
    requires n <= |xs|
    ensures var r := KeepFirst(xs, n);
      forall k1, k2 | 0 <= k1 < k2 < |r| :: FindIndex(xs, r[k1]) < FindIndex(xs, r[k2])
  {
    if n > 0 {
      KeepFirstOrdered(xs, n - 1);
      KeepFirstFirsts(xs, n - 1);
      KeepFirstStep(xs, n);
      var prev := KeepFirst(xs, n - 1);
      var r := KeepFirst(xs, n);
      forall k1, k2 | 0 <= k1 < k2 < |r|
        ensures FindIndex(xs, r[k1]) < FindIndex(xs, r[k2])
      {
        assert r[k1] == prev[k1];
        if k2 < |prev| {
          assert r[k2] == prev[k2];
        }
      }
    }
  }

  lemma {:induction false} KeepFirstCovers(xs: seq<BettingOdds>, n: nat)
    requires n <= |xs|
    ensures var r := KeepFirst(xs, n);
      forall i | 0 <= i < n :: xs[FindIndex(xs, xs[i])] in r
  {
    if n > 0 {
      KeepFirstCovers(xs, n - 1);
      KeepFirstStep(xs, n);
      var prev := KeepFirst(xs, n - 1);
      var r := KeepFirst(xs, n);
      forall i | 0 <= i < n
        ensures xs[FindIndex(xs, xs[i])] in r
      {
        FindIndexOfElement(xs, i);
        if i < n - 1 {
          assert xs[FindIndex(xs, xs[i])] in prev;
        } else {
          KeepFirstCoversLast(xs, n);
        }
      }
    }
  }

  lemma KeepFirstCoversLast(xs: seq<BettingOdds>, n: nat)
    requires 0 < n <= |xs|
    requires forall i | 0 <= i < n - 1 :: xs[FindIndex(xs, xs[i])] in KeepFirst(xs, n - 1)
    ensures xs[FindIndex(xs, xs[n - 1])] in KeepFirst(xs, n)
  {
    KeepFirstStep(xs, n);
    FindIndexOfElement(xs, n - 1);
    var f := FindIndex(xs, xs[n - 1]);
    if f != n - 1 {
      FindIndexOfElement(xs, f);
      FindIndexOfDuplicate(xs, xs[f], xs[n - 1]);
      assert xs[FindIndex(xs, xs[f])] in KeepFirst(xs, n - 1);
    }
  }

  /** The merged list with every line after the first occurrence of
      its `(rawText, type, handicap)` triple removed. Each kept element is
      the first of its line, kept elements stay in input order, every line
      of the input is kept once, and no two kept elements are duplicates. */
  function Dedup(xs: seq<BettingOdds>): (r: seq<BettingOdds>)
    ensures |r| <= |xs|
    ensures NoDuplicateLines(r)
  {
    var r := KeepFirst(xs, |xs|);
    KeepFirstSpec(xs, |xs|);
    FirstsAreDistinctLines(xs, r);
    r
  }

  /** What `Dedup` keeps: each kept element is the first of its line, and
      kept elements stay in input order. */
  lemma DedupSpec(xs: seq<BettingOdds>)
    ensures var r := Dedup(xs);
      && (forall k | 0 <= k < |r| :: 0 <= FindIndex(xs, r[k]) && xs[FindIndex(xs, r[k])] == r[k])
      && (forall k1, k2 | 0 <= k1 < k2 < |r| :: FindIndex(xs, r[k1]) < FindIndex(xs, r[k2]))
  {
    KeepFirstSpec(xs, |xs|);
  }

  /** Every line of the input is kept. */
  lemma DedupRepresents(xs: seq<BettingOdds>)
    ensures forall i | 0 <= i < |xs| :: Represents(Dedup(xs), xs[i])
  {
    KeepFirstCovers(xs, |xs|);
    FirstsRepresentAll(xs, Dedup(xs));
  }

  /** Nothing is added. */
  lemma DedupFromInput(xs: seq<BettingOdds>)
    ensures forall y | y in Dedup(xs) :: y in xs
  {
    KeepFirstFirsts(xs, |xs|);
    var r := Dedup(xs);
    assert r == KeepFirst(xs, |xs|);
    forall y | y in r ensures y in xs {
      var k :| 0 <= k < |r| && r[k] == y;
      assert xs[FindIndex(xs, r[k])] == y;
    }
  }

  /** Elements listed in strictly increasing order of first occurrence are
      no two duplicates. */
  lemma FirstsAreDistinctLines(xs: seq<BettingOdds>, r: seq<BettingOdds>)
    requires forall k1, k2 | 0 <= k1 < k2 < |r| :: FindIndex(xs, r[k1]) < FindIndex(xs, r[k2])
    ensures NoDuplicateLines(r)
  {
    forall i, j | 0 <= i < j < |r| ensures !SameLine(r[i], r[j]) {
      if SameLine(r[i], r[j]) {
        FindIndexOfDuplicate(xs, r[i], r[j]);
      }
    }
  }

  /** A list holding the first occurrence of every line represents every
      element. */
  lemma FirstsRepresentAll(xs: seq<BettingOdds>, r: seq<BettingOdds>)
    requires forall i | 0 <= i < |xs| :: xs[FindIndex(xs, xs[i])] in r
    ensures forall i | 0 <= i < |xs| :: Represents(r, xs[i])
  {
    forall i | 0 <= i < |xs| ensures Represents(r, xs[i]) {
      FindIndexOfElement(xs, i);
      var y := xs[FindIndex(xs, xs[i])];
      assert y in r;
      var k :| 0 <= k < |r| && r[k] == y;
      assert SameLine(r[k], xs[i]);
    }
  }

  /** A list that is already free of duplicates is left as it is. */
  lemma {:induction false} DedupOfDistinctLines(xs: seq<BettingOdds>)
    requires NoDuplicateLines(xs)
    ensures Dedup(xs) == xs
  {
    KeepFirstOfDistinctLines(xs, |xs|);
  }

  lemma {:induction false} KeepFirstOfDistinctLines(xs: seq<BettingOdds>, n: nat)
    requires NoDuplicateLines(xs) && n <= |xs|
    ensures KeepFirst(xs, n) == xs[..n]
  {
    if n > 0 {
      KeepFirstOfDistinctLines(xs, n - 1);
      FindIndexOfElement(xs, n - 1);
      assert FindIndex(xs, xs[n - 1]) == n - 1;
      assert xs[..n] == xs[..n - 1] + [xs[n - 1]];
    }
  }

  /** Appending lines does not move the first occurrence of a line already
      present. */
  lemma FindIndexAppend(a: seq<BettingOdds>, b: seq<BettingOdds>, v: BettingOdds)
    requires FindIndex(a, v) >= 0
    ensures FindIndex(a + b, v) == FindIndex(a, v)
  {
    var f := FindIndex(a, v);
    assert (a + b)[f] == a[f];
    assert forall k | 0 <= k < f :: (a + b)[k] == a[k];
  }

  lemma {:induction false} KeepFirstAppend(a: seq<BettingOdds>, b: seq<BettingOdds>, n: nat)
    requires n <= |a|
    ensures KeepFirst(a + b, n) == KeepFirst(a, n)
  {
    if n > 0 {
      KeepFirstAppend(a, b, n - 1);
      FindIndexOfElement(a, n - 1);
      assert (a + b)[n - 1] == a[n - 1];
      FindIndexAppend(a, b, a[n - 1]);
    }
  }

  lemma {:induction false} KeepFirstGrows(xs: seq<BettingOdds>, n: nat, m: nat)
    requires n <= m <= |xs|
    ensures KeepFirst(xs, n) <= KeepFirst(xs, m)
    decreases m
  {
    if n < m {
      KeepFirstGrows(xs, n, m - 1);
    }
  }

  /** Merging more lines into a list keeps the lines it already had, in the
      same order, at the front; new lines can only be added after them. */
  lemma DedupAppend(a: seq<BettingOdds>, b: seq<BettingOdds>)
    ensures Dedup(a) <= Dedup(a + b)
  {
    KeepFirstAppend(a, b, |a|);
    KeepFirstGrows(a + b, |a|, |a + b|);
  }

  /** Both lists of a merge are represented in the result. */
  lemma DedupRepresentsBoth(a: seq<BettingOdds>, b: seq<BettingOdds>)
    ensures forall i | 0 <= i < |a| :: Represents(Dedup(a + b), a[i])
    ensures forall i | 0 <= i < |b| :: Represents(Dedup(a + b), b[i])
  {
    var xs := a + b;
    DedupRepresents(xs);
    assert forall i | 0 <= i < |a| :: xs[i] == a[i];
    assert forall i | 0 <= i < |b| :: xs[|a| + i] == b[i];
  }

  /** Every element of a merge comes from one of its two lists. */
  lemma DedupFromBoth(a: seq<BettingOdds>, b: seq<BettingOdds>)
    ensures forall y | y in Dedup(a + b) :: y in a || y in b
  {
    DedupFromInput(a + b);
  }

  // ---------------------------------------------------------------------
  // The representative line of a merged match
  // ---------------------------------------------------------------------

  /** A full-time Asian handicap line: its type is the handicap type and its
      summary text does not mention the first half. */
  predicate IsMainLine(o: BettingOdds)
  {
    o.kind == HandicapType && !Contains(o.rawText, FirstHalf)
  }

  /** `xs.find(IsMainLine)`. */
  function FindMain(xs: seq<BettingOdds>): (r: Option<BettingOdds>)
    ensures r.None? <==> forall i | 0 <= i < |xs| :: !IsMainLine(xs[i])
    ensures r.Some? ==> exists i | 0 <= i < |xs| :: r.value == xs[i] && IsMainLine(xs[i]) && forall k | 0 <= k < i :: !IsMainLine(xs[k])
  {
    if |xs| == 0 then None
    else if IsMainLine(xs[0]) then Some(xs[0])
    else
      var r := FindMain(xs[1..]);
      if r.Some? then
        var i :| 0 <= i < |xs[1..]| && r.value == xs[1..][i] && IsMainLine(xs[1..][i]) && forall k | 0 <= k < i :: !IsMainLine(xs[1..][k]);
        assert r.value == xs[i + 1];
        r
      else
        assert forall i | 1 <= i < |xs| :: xs[i] == xs[1..][i - 1];
        r
  }

  /** The line shown for a merged match is its first full-time
      handicap line; failing that its first line; and nothing for an empty
      list. */
  function PickMain(xs: seq<BettingOdds>): (r: Option<BettingOdds>)
    ensures r.None? <==> |xs| == 0
    ensures forall i | 0 <= i < |xs| && IsMainLine(xs[i]) && (forall k | 0 <= k < i :: !IsMainLine(xs[k])) :: r == Some(xs[i])
    ensures |xs| > 0 && (forall i | 0 <= i < |xs| :: !IsMainLine(xs[i])) ==> r == Some(xs[0])
  {
    var m := FindMain(xs);
    if m.Some? then
      FirstMainUnique(xs, m.value);
      m
    else if |xs| > 0 then Some(xs[0])
    else None
  }

  lemma FirstMainUnique(xs: seq<BettingOdds>, v: BettingOdds)
    requires exists i | 0 <= i < |xs| :: v == xs[i] && IsMainLine(xs[i]) && forall k | 0 <= k < i :: !IsMainLine(xs[k])
    ensures forall i | 0 <= i < |xs| && IsMainLine(xs[i]) && (forall k | 0 <= k < i :: !IsMainLine(xs[k])) :: v == xs[i]
  {
    var j :| 0 <= j < |xs| && v == xs[j] && IsMainLine(xs[j]) && forall k | 0 <= k < j :: !IsMainLine(xs[k]);
    forall i | 0 <= i < |xs| && IsMainLine(xs[i]) && (forall k | 0 <= k < i :: !IsMainLine(xs[k]))
      ensures v == xs[i]
    {
      if i < j {} else if j < i {}
    }
  }
}
