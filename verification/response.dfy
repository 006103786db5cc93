/** Recovery of the JSON text in a reply of the extraction service
    (services/geminiService.ts, `extractMatchInfoFromImages`): Markdown code
    fences are removed, and when the text does not parse, the span from the
    first `{` to the last `}` is tried instead. `JSON.parse` itself is not
    part of this model. */
module ResponseText {
  import opened Wrappers
  import opened Text

  const Fence := "```"

  /** Gluing two fence-free strings cannot create a fence when the first one
      ends with a character other than a backtick. */
  lemma JoinWithoutFence(a: string, b: string)
    requires |a| > 0 && a[|a| - 1] != '`'
    requires !Contains(a, Fence) && !Contains(b, Fence)
    ensures !Contains(a + b, Fence)
  {
    var s := a + b;
    forall i | 0 <= i <= |s| - 3
      ensures !OccursAt(s, Fence, i)
    {
      if i + 3 <= |a| {
        assert s[i..i + 3] == a[i..i + 3];
        assert !OccursAt(a, Fence, i);
      } else if i >= |a| {
        assert s[i..i + 3] == b[i - |a|..i - |a| + 3];
        assert !OccursAt(b, Fence, i - |a|);
      } else {
        assert s[i..i + 3] != Fence by {
          assert s[|a| - 1] == a[|a| - 1];
          assert s[i..i + 3][|a| - 1 - i] == s[|a| - 1];
          assert Fence[|a| - 1 - i] == '`';
        }
      }
    }
  }

  /** Without a fence at its start, the removal passes the first character
      through. */
  lemma RemoveFenceCons(s: string)
    requires |s| > 0 && !OccursAt(s, Fence, 0)
    ensures ReplaceAll(s, Fence, "") == [s[0]] + ReplaceAll(s[1..], Fence, "")
  {
    if |s| < 3 {
      assert s == [s[0]] + s[1..];
    }
  }

  /** When one of the first three characters is not a backtick, no fence
      starts before it, so the removal passes everything up to it through. */
  lemma RemoveFencePassThrough(s: string, p: nat)
    requires p <= 2 && p < |s| && s[p] != '`'
    ensures ReplaceAll(s, Fence, "") == s[..p + 1] + ReplaceAll(s[p + 1..], Fence, "")
  {
    if p == 0 {
      PassOne(s);
      assert s[..1] == [s[0]];
    } else if p == 1 {
      PassTwo(s);
    } else {
      NoFenceBefore(s, 2, 0);
      RemoveFenceCons(s);
      PassTwo(s[1..]);
      assert s[1..][2..] == s[3..];
      assert s[..3] == [s[0]] + s[1..][..2];
    }
  }

  /** The removal passes a character that is not a backtick through. */
  lemma PassOne(s: string)
    requires 0 < |s| && s[0] != '`'
    ensures ReplaceAll(s, Fence, "") == [s[0]] + ReplaceAll(s[1..], Fence, "")
  {
    NoFenceBefore(s, 0, 0);
    RemoveFenceCons(s);
  }

  /** The removal passes two characters through when the second one is not
      a backtick. */
  lemma PassTwo(s: string)
    requires 1 < |s| && s[1] != '`'
    ensures ReplaceAll(s, Fence, "") == s[..2] + ReplaceAll(s[2..], Fence, "")
  {
    NoFenceBefore(s, 1, 0);
    RemoveFenceCons(s);
    PassOne(s[1..]);
    assert s[1..][1..] == s[2..];
    assert s[..2] == [s[0]] + [s[1..][0]];
  }

  /** A fence cannot start at `i` when the character at `i + p`, one of
      its three places, is not a backtick. */
  lemma NoFenceBefore(s: string, p: nat, i: nat)
    requires p <= 2 && i + p < |s| && s[i + p] != '`'
    ensures !OccursAt(s, Fence, i)
  {
    if i + 3 <= |s| {
      assert s[i..i + 3][p] == s[i + p];
    }
  }

  /** After `.replace(/```/g, "")` no fence is left: every maximal run of
      backticks shrinks to its length modulo three, and runs never merge. */
  lemma {:induction false} NoFenceAfterRemoval(s: string)
    ensures !Contains(ReplaceAll(s, Fence, ""), Fence)
    decreases |s|
  {
    if |s| < 3 {
      assert ReplaceAll(s, Fence, "") == s;
    } else if s[..3] == Fence {
      assert ReplaceAll(s, Fence, "") == ReplaceAll(s[3..], Fence, "");
      NoFenceAfterRemoval(s[3..]);
    } else {
      // p: the first of the first three characters that is not a backtick.
      var p: nat := if s[0] != '`' then 0 else if s[1] != '`' then 1 else 2;
      RemoveFencePassThrough(s, p);
      var a := s[..p + 1];
      assert !Contains(a, Fence) by {
        forall i | 0 <= i <= |a| - 3 ensures !OccursAt(a, Fence, i) {
          assert i == 0 && a == s[..3];
        }
      }
      NoFenceAfterRemoval(s[p + 1..]);
      JoinWithoutFence(a, ReplaceAll(s[p + 1..], Fence, ""));
    }
  }

  /** The reply text (or "{}" when there is none) without
      "```json" and "```" markers and without surrounding white space. */
  function StripFences(responseText: Option<string>): (r: string)
    ensures !Contains(r, Fence)
  {
    var s := ReplaceAll(ReplaceAll(OrElse(responseText, "{}"), "```json", ""), Fence, "");
    NoFenceAfterRemoval(ReplaceAll(OrElse(responseText, "{}"), "```json", ""));
    assert !Contains(Trim(s), Fence) by {
      if Contains(Trim(s), Fence) {
        TrimContains(s, Fence);
      }
    }
    Trim(s)
  }

  /** A fence-free text neither starts nor ends with a fence. */
  lemma FenceFreeEdges(s: string)
    requires !Contains(s, Fence)
    ensures !StartsWith(s, Fence) && !EndsWith(s, Fence)
  {
    if |s| >= 3 {
      assert !OccursAt(s, Fence, 0) && !OccursAt(s, Fence, |s| - 3);
    }
  }

  /** The parse step as written: the stripping followed by the two checks for
      a fence left at the start or at the end. Neither check ever fires. */
  function CleanResponseText(responseText: Option<string>): (r: string)
    ensures r == StripFences(responseText)
    ensures !Contains(r, Fence)
  {
    var s := StripFences(responseText);
    FenceFreeEdges(s);
    var s1 := if StartsWith(s, Fence) then Slice(s, 3, |s|) else s;
    if EndsWith(s1, Fence) then Slice(s1, 0, -3) else s1
  }

  /** `s[i]` is the first `c` in `s`. */
  ghost predicate FirstAt(s: string, c: char, i: int)
  {
    0 <= i < |s| && s[i] == c && c !in s[..i]
  }

  /** `s[i]` is the last `c` in `s`. */
  ghost predicate LastAt(s: string, c: char, i: int)
  {
    0 <= i < |s| && s[i] == c && c !in s[i + 1..]
  }

  /** `IndexOf` finds the first occurrence. */
  lemma FirstAtIsIndexOf(s: string, c: char, i: int)
    requires FirstAt(s, c, i)
    ensures i == IndexOf(s, c)
  {
  }

  /** `LastIndexOf` finds the last occurrence. */
  lemma LastAtIsLastIndexOf(s: string, c: char, j: int)
    requires LastAt(s, c, j)
    ensures j == LastIndexOf(s, c)
  {
  }

  /** The text after the last `}` and before the first `{` holds no brace. */
  lemma BetweenHasNoBraces(s: string, j: int, i: int)
    requires 0 <= j < i < |s| && '{' !in s[..i] && '}' !in s[j + 1..]
    ensures '{' !in s[j + 1..i] && '}' !in s[j + 1..i]
  {
    forall k | j + 1 <= k < i
      ensures s[k] != '{' && s[k] != '}'
    {
      assert s[..i][k] == s[k];
      assert s[j + 1..][k - j - 1] == s[k];
    }
  }

  /** The first `{` and the last `}` are the ones `IndexOf` and
      `LastIndexOf` find. */
  lemma BracesAreIndexOf(s: string, start: int, end: int)
    requires start == IndexOf(s, '{') && end == LastIndexOf(s, '}')
    ensures forall i, j | FirstAt(s, '{', i) && LastAt(s, '}', j) :: i == start && j == end
  {
    forall i, j | FirstAt(s, '{', i) && LastAt(s, '}', j)
      ensures i == start && j == end
    {
      FirstAtIsIndexOf(s, '{', i);
      LastAtIsLastIndexOf(s, '}', j);
    }
  }

  /** The recovery: `substring(indexOf('{'), lastIndexOf('}') + 1)`, or
      nothing when either brace is missing. When the last `}` comes before
      the first `{`, `substring` swaps its bounds and the text between them
      is returned. */
  function RecoverBraces(s: string): (r: Option<string>)
    ensures r.None? <==> '{' !in s || '}' !in s
    ensures forall i, j | FirstAt(s, '{', i) && LastAt(s, '}', j) ::
              r == Some(if i < j then s[i..j + 1] else s[j + 1..i])
    ensures r.Some? ==>
              || (|r.value| >= 2 && r.value[0] == '{' && r.value[|r.value| - 1] == '}')
              || ('{' !in r.value && '}' !in r.value)
    ensures '{' in s && '}' in s ==> r == Some(Substring(s, IndexOf(s, '{'), LastIndexOf(s, '}') + 1))
  {
    var start := IndexOf(s, '{');
    var end := LastIndexOf(s, '}');
    if start != -1 && end != -1 then
      BracesAreIndexOf(s, start, end);
      if end < start then
        BetweenHasNoBraces(s, end, start);
        Some(s[end + 1..start])
      else
        var r := s[start..end + 1];
        assert r[0] == s[start] && r[|r| - 1] == s[end];
        Some(r)
    else None
  }
}
