/** Go's `strings.ReplaceAll` for a non-empty pattern: occurrences are
    found left to right and never overlap. */
module Replace {
  import opened Strings

  /** The pieces of `s` between the successive left-to-right,
      non-overlapping occurrences of `pat`. */
  function SplitOn(s: string, pat: string): (parts: seq<string>)
    requires |pat| > 0
    ensures |parts| >= 1
    decreases |s|
  {
    if |s| < |pat| then [s]
    else if s[..|pat|] == pat then [""] + SplitOn(s[|pat|..], pat)
    else
      var rest := SplitOn(s[1..], pat);
      [[s[0]] + rest[0]] + rest[1..]
  }

  /** `strings.ReplaceAll(s, pat, rep)`. */
  function ReplaceAll(s: string, pat: string, rep: string): string
    requires |pat| > 0
    decreases |s|
  {
    if |s| < |pat| then s
    else if s[..|pat|] == pat then rep + ReplaceAll(s[|pat|..], pat, rep)
    else [s[0]] + ReplaceAll(s[1..], pat, rep)
  }

  /** Replacing is joining the pieces between occurrences with the
      replacement text. */
  lemma {:induction false} ReplaceAllIsJoin(s: string, pat: string, rep: string)
    requires |pat| > 0
    ensures ReplaceAll(s, pat, rep) == Join(SplitOn(s, pat), rep)
    decreases |s|
  {
    if |s| < |pat| {
    } else if s[..|pat|] == pat {
      var rest := SplitOn(s[|pat|..], pat);
      ReplaceAllIsJoin(s[|pat|..], pat, rep);
      assert ([""] + rest)[1..] == rest;
    } else {
      var rest := SplitOn(s[1..], pat);
      ReplaceAllIsJoin(s[1..], pat, rep);
      assert rest == [rest[0]] + rest[1..];
      JoinConsHead(s[0], rest[0], rest[1..], rep);
    }
  }

  /** Replacing a pattern by itself changes nothing. */
  lemma {:induction false} ReplaceAllSelf(s: string, pat: string)
    requires |pat| > 0
    ensures ReplaceAll(s, pat, pat) == s
    decreases |s|
  {
    if |s| < |pat| {
    } else if s[..|pat|] == pat {
      ReplaceAllSelf(s[|pat|..], pat);
      assert s == s[..|pat|] + s[|pat|..];
    } else {
      ReplaceAllSelf(s[1..], pat);
      assert s == [s[0]] + s[1..];
    }
  }

  /** The pieces, joined back with the pattern, give the original text. */
  lemma SplitOnJoin(s: string, pat: string)
    requires |pat| > 0
    ensures Join(SplitOn(s, pat), pat) == s
  {
    ReplaceAllIsJoin(s, pat, pat);
    ReplaceAllSelf(s, pat);
  }

  /** The first piece is a prefix of the text. */
  lemma {:induction false} SplitOnHeadIsPrefix(s: string, pat: string)
    requires |pat| > 0
    ensures StartsWith(s, SplitOn(s, pat)[0])
    decreases |s|
  {
    if |s| < |pat| {
    } else if s[..|pat|] == pat {
    } else {
      SplitOnHeadIsPrefix(s[1..], pat);
      var h := SplitOn(s[1..], pat)[0];
      assert s[..|h| + 1] == [s[0]] + s[1..][..|h|];
    }
  }

  /** No piece contains the pattern: every occurrence was replaced. */
  lemma {:induction false} SplitOnPiecesFree(s: string, pat: string)
    requires |pat| > 0
    ensures forall p | p in SplitOn(s, pat) :: !Occurs(p, pat)
    decreases |s|
  {
    if |s| < |pat| {
    } else if s[..|pat|] == pat {
      SplitOnPiecesFree(s[|pat|..], pat);
    } else {
      var rest := SplitOn(s[1..], pat);
      SplitOnPiecesFree(s[1..], pat);
      SplitOnHeadIsPrefix(s[1..], pat);
      var h := [s[0]] + rest[0];
      assert StartsWith(s, h) by {
        assert s[..|h|] == [s[0]] + s[1..][..|rest[0]|];
      }
      forall k | 0 <= k <= |h| - |pat| && OccursAt(h, pat, k)
        ensures false
      {
        if k > 0 {
          assert rest[0] in rest;
          assert rest[0][k - 1..k - 1 + |pat|] == h[k..k + |pat|];
          assert OccursAt(rest[0], pat, k - 1);
        }
      }
      assert forall p | p in rest[1..] :: p in rest;
    }
  }

  /** Text without the pattern is left unchanged. */
  lemma {:induction false} ReplaceAllAbsent(s: string, pat: string, rep: string)
    requires |pat| > 0
    requires !Occurs(s, pat)
    ensures ReplaceAll(s, pat, rep) == s
    decreases |s|
  {
    if |s| < |pat| {
    } else {
      assert !OccursAt(s, pat, 0);
      assert !Occurs(s[1..], pat) by {
        forall k | 0 <= k <= |s[1..]| - |pat| && OccursAt(s[1..], pat, k)
          ensures false
        {
          assert s[k + 1..k + 1 + |pat|] == s[1..][k..k + |pat|];
          assert OccursAt(s, pat, k + 1);
        }
      }
      ReplaceAllAbsent(s[1..], pat, rep);
      assert s == [s[0]] + s[1..];
    }
  }

  /** An occurrence at the front is replaced. */
  lemma ReplaceAllAtFront(pat: string, rest: string, rep: string)
    requires |pat| > 0
    ensures ReplaceAll(pat + rest, pat, rep) == rep + ReplaceAll(rest, pat, rep)
  {
    assert (pat + rest)[..|pat|] == pat;
    assert (pat + rest)[|pat|..] == rest;
  }

  /** A prefix in which no occurrence starts is copied unchanged. */
  lemma {:induction false} ReplaceAllSkip(a: string, b: string, pat: string, rep: string)
    requires |pat| > 0
    requires forall k | 0 <= k < |a| :: !OccursAt(a + b, pat, k)
    ensures ReplaceAll(a + b, pat, rep) == a + ReplaceAll(b, pat, rep)
    decreases |a|
  {
    if a == [] {
      assert a + b == b;
    } else {
      var s := a + b;
      if |s| >= |pat| {
        assert !OccursAt(s, pat, 0);
      }
      NoOccurrenceShift(a, b, pat);
      ReplaceAllSkip(a[1..], b, pat, rep);
      assert s[1..] == a[1..] + b;
      assert a == [a[0]] + a[1..];
      assert s == [s[0]] + s[1..];
      if |s| >= |pat| {
        assert s[..|pat|] != pat by { assert s[0..|pat|] == s[..|pat|]; }
        calc {
          ReplaceAll(s, pat, rep);
          [s[0]] + ReplaceAll(s[1..], pat, rep);
          [a[0]] + (a[1..] + ReplaceAll(b, pat, rep));
          a + ReplaceAll(b, pat, rep);
        }
      } else {
        assert ReplaceAll(b, pat, rep) == b;
        assert ReplaceAll(s, pat, rep) == s;
      }
    }
  }

  /** Dropping the first character of `a` keeps the remaining positions of
      `a` free of occurrences. */
  lemma NoOccurrenceShift(a: string, b: string, pat: string)
    requires |a| > 0
    requires forall k | 0 <= k < |a| :: !OccursAt(a + b, pat, k)
    ensures forall k | 0 <= k < |a[1..]| :: !OccursAt(a[1..] + b, pat, k)
  {
    var s := a + b;
    assert a[1..] + b == s[1..];
    forall k | 0 <= k < |a[1..]|
      ensures !OccursAt(a[1..] + b, pat, k)
    {
      assert !OccursAt(s, pat, k + 1);
      if k + |pat| <= |s[1..]| {
        assert s[1..][k..k + |pat|] == s[k + 1..k + 1 + |pat|];
      }
    }
  }

  /** When no occurrence starts before the one that follows `a`, the text
      up to it is copied and that occurrence is replaced. */
  lemma ReplaceAllFirst(a: string, pat: string, rest: string, rep: string)
    requires |pat| > 0
    requires !Occurs(a + pat[..|pat| - 1], pat)
    ensures ReplaceAll(a + pat + rest, pat, rep) == a + rep + ReplaceAll(rest, pat, rep)
  {
    var s := a + (pat + rest);
    assert a + pat + rest == s;
    forall k | 0 <= k < |a|
      ensures !OccursAt(s, pat, k)
    {
      var t := a + pat[..|pat| - 1];
      if k + |pat| <= |s| && s[k..k + |pat|] == pat {
        assert t[k..k + |pat|] == s[k..k + |pat|];
        assert OccursAt(t, pat, k);
      }
    }
    ReplaceAllSkip(a, pat + rest, pat, rep);
    ReplaceAllAtFront(pat, rest, rep);
  }
}
