/**
 * The `__version__` string the extension module publishes: the Cargo package
 * version with `-alpha` rewritten to `a` and then `-beta` rewritten to `b`, so
 * that a Cargo pre-release such as `1.0.0-alpha1` reads as the Python
 * `1.0.0a1` (src/lib.rs:10-17).
 */
module Version {
  import opened Seqs

  /** `pat` occurs in `s` starting at index `i`. */
  predicate MatchesAt(s: string, pat: string, i: nat)
  {
    i + |pat| <= |s| && s[i..i + |pat|] == pat
  }

  /** `pat` occurs somewhere in `s`. */
  ghost predicate Contains(s: string, pat: string)
  {
    exists i: nat :: MatchesAt(s, pat, i)
  }

  /**
   * Rust's `str::replace`: scan left to right, and at every match of `pat`
   * emit `rep` and resume after the match, so matches never overlap. An empty
   * pattern matches at every character boundary, including both ends. A
   * replacement no longer than a non-empty pattern never lengthens the string.
   */
  function Replace(s: string, pat: string, rep: string): (r: string)
    ensures |pat| > 0 && |rep| <= |pat| ==> |r| <= |s|
    decreases |s|
  {
    if |pat| == 0 then
      if |s| == 0 then rep else rep + [s[0]] + Replace(s[1..], pat, rep)
    else if |s| < |pat| then s
    else if s[..|pat|] == pat then rep + Replace(s[|pat|..], pat, rep)
    else [s[0]] + Replace(s[1..], pat, rep)
  }

  /** The number of matches `Replace` rewrites. */
  function Count(s: string, pat: string): (n: nat)
    decreases |s|
  {
    if |pat| == 0 then
      |s| + 1
    else if |s| < |pat| then 0
    else if s[..|pat|] == pat then 1 + Count(s[|pat|..], pat)
    else Count(s[1..], pat)
  }

  lemma MulSucc(c: nat, x: nat)
    ensures (c + 1) * x == c * x + x
  {
  }

  /** Each rewritten match trades `|pat|` characters for `|rep|`. */
  lemma {:induction false} ReplaceLength(s: string, pat: string, rep: string)
    ensures |Replace(s, pat, rep)| + Count(s, pat) * |pat| == |s| + Count(s, pat) * |rep|
    decreases |s|
  {
    if |pat| == 0 {
      if |s| > 0 {
        ReplaceLength(s[1..], pat, rep);
        MulSucc(|s[1..]| + 1, |rep|);
      }
    } else if |s| < |pat| {
    } else if s[..|pat|] == pat {
      var c := Count(s[|pat|..], pat);
      ReplaceLength(s[|pat|..], pat, rep);
      MulSucc(c, |pat|);
      MulSucc(c, |rep|);
    } else {
      ReplaceLength(s[1..], pat, rep);
    }
  }

  /** A match in a suffix is a match in the whole string, shifted by the cut. */
  lemma MatchShift(s: string, pat: string, k: nat, i: nat)
    requires k <= |s|
    ensures MatchesAt(s[k..], pat, i) <==> MatchesAt(s, pat, k + i)
  {
    if i + |pat| <= |s| - k {
      assert s[k..][i..i + |pat|] == s[k + i..k + i + |pat|];
    }
  }

  /** `Replace` rewrites something exactly when the pattern occurs. */
  lemma {:induction false} CountPositive(s: string, pat: string)
    ensures Count(s, pat) > 0 <==> Contains(s, pat)
    decreases |s|
  {
    if |pat| == 0 {
      assert MatchesAt(s, pat, 0);
    } else if |s| < |pat| {
      NoMatchBeyond(s, pat, 0);
    } else if s[..|pat|] == pat {
      assert MatchesAt(s, pat, 0);
    } else {
      CountPositive(s[1..], pat);
      if Contains(s, pat) {
        var i: nat :| MatchesAt(s, pat, i);
        assert i != 0;
        MatchShift(s, pat, 1, i - 1);
        assert MatchesAt(s[1..], pat, i - 1);
      } else if Contains(s[1..], pat) {
        var i: nat :| MatchesAt(s[1..], pat, i);
        MatchShift(s, pat, 1, i);
        assert false;
      }
    }
  }

  /** A string without the pattern comes back unchanged. */
  lemma {:induction false} ReplaceAbsent(s: string, pat: string, rep: string)
    requires !Contains(s, pat)
    ensures Replace(s, pat, rep) == s
    decreases |s|
  {
    if |pat| == 0 {
      assert MatchesAt(s, pat, 0);
    } else if |s| < |pat| {
    } else {
      assert !MatchesAt(s, pat, 0);
      if Contains(s[1..], pat) {
        var i: nat :| MatchesAt(s[1..], pat, i);
        MatchShift(s, pat, 1, i);
      }
      ReplaceAbsent(s[1..], pat, rep);
      assert [s[0]] + s[1..] == s;
    }
  }

  /** Dropping the first character keeps a later leftmost match leftmost. */
  lemma LeftmostShift(s: string, pat: string, i: nat)
    requires 0 < i
    requires MatchesAt(s, pat, i)
    requires forall j: nat :: j < i ==> !MatchesAt(s, pat, j)
    ensures MatchesAt(s[1..], pat, i - 1)
    ensures forall j: nat :: j < i - 1 ==> !MatchesAt(s[1..], pat, j)
  {
    MatchShift(s, pat, 1, i - 1);
    forall j: nat | j < i - 1
      ensures !MatchesAt(s[1..], pat, j)
    {
      MatchShift(s, pat, 1, j);
    }
  }

  /**
   * The leftmost match is the one rewritten first: everything before it is
   * copied, the match becomes `rep`, and the scan resumes after the match.
   */
  lemma {:induction false} ReplaceLeftmost(s: string, pat: string, rep: string, i: nat)
    requires |pat| > 0
    requires MatchesAt(s, pat, i)
    requires forall j: nat :: j < i ==> !MatchesAt(s, pat, j)
    ensures Replace(s, pat, rep) == s[..i] + rep + Replace(s[i + |pat|..], pat, rep)
    decreases i, 1
  {
    if i == 0 {
      ReplaceAtMatch(s, pat, rep);
    } else {
      ReplaceLeftmostLater(s, pat, rep, i);
    }
  }

  /** `ReplaceLeftmost` for a match after the first character: copy it and recurse. */
  lemma {:induction false} ReplaceLeftmostLater(s: string, pat: string, rep: string, i: nat)
    requires 0 < i && |pat| > 0
    requires MatchesAt(s, pat, i)
    requires forall j: nat :: j < i ==> !MatchesAt(s, pat, j)
    ensures Replace(s, pat, rep) == s[..i] + rep + Replace(s[i + |pat|..], pat, rep)
    decreases i, 0
  {
    var t, j: nat := s[1..], i - 1;
    ReplaceSkip(s, pat, rep);
    LeftmostShift(s, pat, i);
    ReplaceLeftmost(t, pat, rep, j);
    assert t[j + |pat|..] == s[i + |pat|..];
    assert [s[0]] + t[..j] == s[..i];
    Regroup(s[..i], [s[0]], t[..j], rep, Replace(s, pat, rep), Replace(t, pat, rep),
      Replace(t[j + |pat|..], pat, rep), Replace(s[i + |pat|..], pat, rep));
  }

  /** The sequence algebra behind one step of `ReplaceLeftmost`. */
  lemma Regroup<T>(pre: seq<T>, c: seq<T>, a: seq<T>, rep: seq<T>, whole: seq<T>, tail: seq<T>, rest: seq<T>, after: seq<T>)
    requires whole == c + tail
    requires tail == a + rep + rest
    requires rest == after
    requires c + a == pre
    ensures whole == pre + rep + after
  {
    ConcatAssoc(c, a + rep, after);
    ConcatAssoc(c, a, rep);
  }

  /** Where the pattern starts, `Replace` emits `rep` and skips the match. */
  lemma ReplaceAtMatch(s: string, pat: string, rep: string)
    requires |pat| > 0
    requires MatchesAt(s, pat, 0)
    ensures Replace(s, pat, rep) == s[..0] + rep + Replace(s[|pat|..], pat, rep)
  {
    assert s[..|pat|] == pat;
    assert Replace(s, pat, rep) == rep + Replace(s[|pat|..], pat, rep);
    assert s[..0] + rep == rep;
  }

  /** Where the pattern does not start, `Replace` copies one character. */
  lemma ReplaceSkip(s: string, pat: string, rep: string)
    requires |pat| > 0 && |s| > 0
    requires !MatchesAt(s, pat, 0)
    ensures Replace(s, pat, rep) == [s[0]] + Replace(s[1..], pat, rep)
  {
  }

  const Alpha: string := "-alpha"
  const Beta: string := "-beta"

  /** `version.replace("-alpha", "a").replace("-beta", "b")`: the published
      version is never longer than the package version. */
  function Normalize(v: string): (r: string)
    ensures |r| <= |v|
  {
    Replace(Replace(v, Alpha, "a"), Beta, "b")
  }

  /**
   * The published version is shorter by five characters per rewritten
   * `-alpha` and four per rewritten `-beta`; the `-beta` matches are counted
   * in the string left by the first rewrite.
   */
  lemma NormalizeLength(v: string)
    ensures |Normalize(v)| == |v| - 5 * Count(v, Alpha) - 4 * Count(Replace(v, Alpha, "a"), Beta)
  {
    var mid := Replace(v, Alpha, "a");
    var alphas, betas := Count(v, Alpha), Count(mid, Beta);
    assert |Alpha| == 6 && |Beta| == 5 && |"a"| == 1 && |"b"| == 1;
    ReplaceLength(v, Alpha, "a");
    assert |mid| == |v| - 5 * alphas;
    ReplaceLength(mid, Beta, "b");
    assert |Normalize(v)| == |mid| - 4 * betas;
  }

  /** A version is published as is exactly when it has neither marker. */
  lemma NormalizeUnchanged(v: string)
    ensures Normalize(v) == v <==> !Contains(v, Alpha) && !Contains(v, Beta)
  {
    var mid := Replace(v, Alpha, "a");
    NormalizeLength(v);
    CountPositive(v, Alpha);
    if !Contains(v, Alpha) {
      ReplaceAbsent(v, Alpha, "a");
      CountPositive(v, Beta);
      if !Contains(v, Beta) {
        ReplaceAbsent(v, Beta, "b");
      }
    }
  }

  /** Cargo's `1.0.0-alpha1` is published as Python's `1.0.0a1`. */
  lemma AlphaExample()
    ensures Normalize("1.0.0-alpha1") == "1.0.0a1"
  {
    AlphaRewrite();
    AlphaSkipsBeta();
  }

  /** The single `-alpha` of `1.0.0-alpha1` becomes `a`. */
  lemma AlphaRewrite()
    ensures Replace("1.0.0-alpha1", Alpha, "a") == "1.0.0a1"
  {
    var v := "1.0.0-alpha1";
    assert v[..5] == "1.0.0" && v[5..11] == Alpha && v[11..] == "1";
    NoMatchIn(v, Alpha, 0, 5);
    ReplaceLeftmost(v, Alpha, "a", 5);
  }

  /** `1.0.0a1` has no `-beta`, so the second rewrite leaves it alone. */
  lemma AlphaSkipsBeta()
    ensures Replace("1.0.0a1", Beta, "b") == "1.0.0a1"
  {
    var mid := "1.0.0a1";
    NoMatchIn(mid, Beta, 0, |mid|);
    NoMatchBeyond(mid, Beta, |mid|);
    ReplaceAbsent(mid, Beta, "b");
  }

  /** Cargo's `2.1.0-beta3` is published as Python's `2.1.0b3`. */
  lemma BetaExample()
    ensures Normalize("2.1.0-beta3") == "2.1.0b3"
  {
    BetaSkipsAlpha();
    BetaRewrite();
  }

  /** `2.1.0-beta3` has no `-alpha`: its one dash starts `-beta`. */
  lemma BetaSkipsAlpha()
    ensures Replace("2.1.0-beta3", Alpha, "a") == "2.1.0-beta3"
  {
    var v := "2.1.0-beta3";
    NoMatchIn(v, Alpha, 0, 5);
    MismatchAt(v, Alpha, 5, 1);
    NoMatchBeyond(v, Alpha, 6);
    ReplaceAbsent(v, Alpha, "a");
  }

  /** The single `-beta` of `2.1.0-beta3` becomes `b`. */
  lemma BetaRewrite()
    ensures Replace("2.1.0-beta3", Beta, "b") == "2.1.0b3"
  {
    var v := "2.1.0-beta3";
    assert v[..5] == "2.1.0" && v[5..10] == Beta && v[10..] == "3";
    NoMatchIn(v, Beta, 0, 5);
    ReplaceLeftmost(v, Beta, "b", 5);
  }

  /**
   * The order of the two rewrites matters: removing `-alpha` can complete a
   * `-beta`, which the second rewrite then sees. Rewriting `-beta` first
   * would leave it in place.
   */
  lemma OrderMatters()
    ensures Normalize("1.0-bet-alpha") == "1.0b"
    ensures Replace(Replace("1.0-bet-alpha", Beta, "b"), Alpha, "a") == "1.0-beta"
  {
    AlphaCompletesBeta();
    BetaAfterAlpha();
    BetaBeforeAlpha();
    AlphaAfterBeta();
  }

  /** Rewriting the `-alpha` of `1.0-bet-alpha` leaves `1.0-beta`. */
  lemma AlphaCompletesBeta()
    ensures Replace("1.0-bet-alpha", Alpha, "a") == "1.0-beta"
  {
    var v := "1.0-bet-alpha";
    assert v[..7] == "1.0-bet" && v[7..13] == Alpha && v[13..] == "";
    NoMatchIn(v, Alpha, 0, 3);
    MismatchAt(v, Alpha, 3, 1);
    NoMatchIn(v, Alpha, 4, 7);
    ReplaceLeftmost(v, Alpha, "a", 7);
  }

  /** The `-beta` so formed is then rewritten. */
  lemma BetaAfterAlpha()
    ensures Replace("1.0-beta", Beta, "b") == "1.0b"
  {
    var mid := "1.0-beta";
    assert mid[..3] == "1.0" && mid[3..8] == Beta && mid[8..] == "";
    NoMatchIn(mid, Beta, 0, 3);
    ReplaceLeftmost(mid, Beta, "b", 3);
  }

  /** `1.0-bet-alpha` itself contains no `-beta`. */
  lemma BetaBeforeAlpha()
    ensures Replace("1.0-bet-alpha", Beta, "b") == "1.0-bet-alpha"
  {
    var v := "1.0-bet-alpha";
    NoMatchIn(v, Beta, 0, 3);
    MismatchAt(v, Beta, 3, 4);
    NoMatchIn(v, Beta, 4, 7);
    MismatchAt(v, Beta, 7, 1);
    NoMatchIn(v, Beta, 8, 9);
    NoMatchBeyond(v, Beta, 9);
    ReplaceAbsent(v, Beta, "b");
  }

  /** `1.0-beta` contains no `-alpha`. */
  lemma AlphaAfterBeta()
    ensures Replace("1.0-beta", Alpha, "a") == "1.0-beta"
  {
    var mid := "1.0-beta";
    NoMatchIn(mid, Alpha, 0, 3);
    MismatchAt(mid, Alpha, 3, 1);
    NoMatchBeyond(mid, Alpha, 4);
    ReplaceAbsent(mid, Alpha, "a");
  }

  /** A match starts with the pattern's first character, so none starts where that character is absent. */
  lemma NoMatchIn(s: string, pat: string, lo: nat, hi: nat)
    requires |pat| > 0 && lo <= hi <= |s|
    requires pat[0] !in s[lo..hi]
    ensures forall j: nat :: lo <= j < hi ==> !MatchesAt(s, pat, j)
  {
    forall j: nat | lo <= j < hi
      ensures !MatchesAt(s, pat, j)
    {
      assert s[lo..hi][j - lo] == s[j];
    }
  }

  /** One differing character rules a match out. */
  lemma MismatchAt(s: string, pat: string, i: nat, k: nat)
    requires k < |pat| && i + k < |s|
    requires s[i + k] != pat[k]
    ensures !MatchesAt(s, pat, i)
  {
  }

  /** No match can start so late that the pattern would run past the end. */
  lemma NoMatchBeyond(s: string, pat: string, k: nat)
    requires k + |pat| > |s|
    requires forall j: nat :: j < k ==> !MatchesAt(s, pat, j)
    ensures !Contains(s, pat)
  {
  }
}
