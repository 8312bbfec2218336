/**
 Ordinal, left-to-right, non-overlapping substring replacement on strings,
 as performed by .NET's `String.Replace(string, string)`, and the facts the
 driver's display-name rewrites rely on.
 */
module Text {

  /** `pat` occurs in `s` starting at index `i`. */
  predicate OccursAt(s: string, pat: string, i: int)
  {
    0 <= i && i + |pat| <= |s| && s[i..i + |pat|] == pat
  }

  /** `pat` occurs somewhere in `s`. */
  predicate Contains(s: string, pat: string)
  {
    exists i | 0 <= i <= |s| :: OccursAt(s, pat, i)
  }

  /** An occurrence in a suffix of `s` is an occurrence in `s`. */
  lemma OccursInSuffix(s: string, pat: string, k: nat, i: int)
    requires k <= |s|
    ensures OccursAt(s[k..], pat, i) <==> (0 <= i && OccursAt(s, pat, i + k))
  {
    if 0 <= i && i + |pat| <= |s| - k {
      assert s[k..][i..i + |pat|] == s[i + k..i + k + |pat|];
    }
  }

  /**
   Replace every occurrence of `pat` in `s` by `rep`, scanning left to right
   and resuming after each replaced occurrence. `pat` must not be empty
   (.NET throws on an empty old value).
   */
  function ReplaceAll(s: string, pat: string, rep: string): (r: string)
    requires |pat| > 0
    ensures !Contains(s, pat) ==> r == s
    decreases |s|
  {
    if |s| < |pat| then s
    else if s[..|pat|] == pat then
      assert OccursAt(s, pat, 0);
      rep + ReplaceAll(s[|pat|..], pat, rep)
    else
      assert forall i :: OccursAt(s[1..], pat, i) ==> OccursAt(s, pat, i + 1) by {
        forall i | OccursAt(s[1..], pat, i) ensures OccursAt(s, pat, i + 1) {
          OccursInSuffix(s, pat, 1, i);
        }
      }
      assert s == [s[0]] + s[1..];
      [s[0]] + ReplaceAll(s[1..], pat, rep)
  }

  /**
   A pattern/replacement pair whose replacement can never take part in a new
   occurrence of the pattern: the replacement is not empty, its first
   character appears nowhere in the pattern after position 0, the pattern's
   first character appears nowhere in the replacement after position 0, and
   neither of the two is a prefix of the other.
   */
  predicate Separated(pat: string, rep: string)
  {
    && |pat| > 0
    && |rep| > 0
    && (forall j :: 1 <= j < |rep| ==> rep[j] != pat[0])
    && (forall m :: 1 <= m < |pat| ==> pat[m] != rep[0])
    && (exists k :: 0 <= k < |rep| && k < |pat| && rep[k] != pat[k])
  }

  /** `i` is the leftmost occurrence of `pat` in `s`. */
  predicate FirstOccurrence(s: string, pat: string, i: int)
  {
    OccursAt(s, pat, i) && forall k :: 0 <= k < i ==> !OccursAt(s, pat, k)
  }

  /**
   Replacement keeps the text before the leftmost occurrence, puts the
   replacement in its place and carries on after it. With the case where the
   pattern does not occur, this determines the whole result.
   */
  lemma ReplaceAtFirst(s: string, pat: string, rep: string, i: nat)
    requires |pat| > 0
    requires FirstOccurrence(s, pat, i)
    ensures ReplaceAll(s, pat, rep) == s[..i] + (rep + ReplaceAll(s[i + |pat|..], pat, rep))
  {
    CopyBeforeOccurrence(s, pat, rep, i);
    ReplaceTakesOccurrence(s, pat, rep, i);
  }

  /** From an occurrence on, the replacement comes first. */
  lemma ReplaceTakesOccurrence(s: string, pat: string, rep: string, i: nat)
    requires |pat| > 0 && OccursAt(s, pat, i)
    ensures ReplaceAll(s[i..], pat, rep) == rep + ReplaceAll(s[i + |pat|..], pat, rep)
  {
    OccursInSuffix(s, pat, i, 0);
    ReplaceTakesHead(s[i..], pat, rep);
    DropTwice(s, i, |pat|);
  }

  /** Text before the first place the pattern could start is copied verbatim. */
  lemma {:induction false} CopyBeforeOccurrence(s: string, pat: string, rep: string, i: nat)
    requires |pat| > 0 && i <= |s|
    requires forall k :: 0 <= k < i ==> !OccursAt(s, pat, k)
    ensures ReplaceAll(s, pat, rep) == s[..i] + ReplaceAll(s[i..], pat, rep)
    decreases i
  {
    if i == 0 {
      assert s[..i] == [] && s[i..] == s;
    } else {
      var t := s[1..];
      forall k | 0 <= k < i - 1 ensures !OccursAt(t, pat, k) {
        OccursInSuffix(s, pat, 1, k);
      }
      CopyBeforeOccurrence(t, pat, rep, i - 1);
      DropTwice(s, 1, i - 1);
      assert !OccursAt(s, pat, 0);
      ReplaceCopiesHead(s, pat, rep);
      JoinCopiedHead(s, i, ReplaceAll(s, pat, rep), ReplaceAll(t, pat, rep),
                     ReplaceAll(s[i..], pat, rep));
    }
  }

  /** Dropping `j` characters and then `k` more is dropping `j + k`. */
  lemma DropTwice(s: string, j: nat, k: nat)
    requires j + k <= |s|
    ensures s[j..][k..] == s[j + k..]
  {
  }

  /** Gluing a copied head onto the copied prefix of the tail. */
  lemma JoinCopiedHead(s: string, i: nat, whole: string, tail: string, after: string)
    requires 0 < i <= |s|
    requires whole == [s[0]] + tail && tail == s[1..][..i - 1] + after
    ensures whole == s[..i] + after
  {
    assert s[..i] == [s[0]] + s[1..][..i - 1];
  }

  /** An input that starts with the pattern has it replaced first. */
  lemma ReplaceTakesHead(s: string, pat: string, rep: string)
    requires |pat| > 0 && OccursAt(s, pat, 0)
    ensures ReplaceAll(s, pat, rep) == rep + ReplaceAll(s[|pat|..], pat, rep)
  {
    assert s[..|pat|] == s[0..0 + |pat|];
  }

  /** An input that does not start with the pattern keeps its first character. */
  lemma ReplaceCopiesHead(s: string, pat: string, rep: string)
    requires |pat| > 0 && |s| > 0 && !OccursAt(s, pat, 0)
    ensures ReplaceAll(s, pat, rep) == [s[0]] + ReplaceAll(s[1..], pat, rep)
  {
    if |s| < |pat| {
      assert s == [s[0]] + s[1..];
    }
  }

  /** When the input starts with the pattern, the output starts with the replacement. */
  lemma ReplaceLeadsWithRep(t: string, pat: string, rep: string)
    requires |pat| > 0 && |rep| > 0
    requires |pat| <= |t| && t[..|pat|] == pat
    ensures |ReplaceAll(t, pat, rep)| > 0 && ReplaceAll(t, pat, rep)[0] == rep[0]
  {
  }

  /**
   A prefix of the output that never mentions the replacement's first
   character was copied verbatim from the input.
   */
  lemma {:induction false} PrefixCopied(t: string, pat: string, rep: string, w: string)
    requires |pat| > 0 && |rep| > 0
    requires forall k :: 0 <= k < |w| ==> w[k] != rep[0]
    requires |w| <= |ReplaceAll(t, pat, rep)| && ReplaceAll(t, pat, rep)[..|w|] == w
    ensures |w| <= |t| && t[..|w|] == w
    decreases |t|
  {
    if |w| == 0 || |t| < |pat| {
    } else if t[..|pat|] == pat {
      ReplaceLeadsWithRep(t, pat, rep);
      assert false;
    } else {
      var u := ReplaceAll(t[1..], pat, rep);
      assert ReplaceAll(t, pat, rep) == [t[0]] + u;
      assert u[..|w| - 1] == w[1..];
      PrefixCopied(t[1..], pat, rep, w[1..]);
      assert t[..|w|] == [t[0]] + t[1..][..|w| - 1];
    }
  }

  /**
   Prefixing a string free of the pattern with the replacement of a separated
   pair creates no occurrence.
   */
  lemma NoOccurrenceAfterReplacement(rep: string, u: string, pat: string)
    requires Separated(pat, rep)
    requires !Contains(u, pat)
    ensures !Contains(rep + u, pat)
  {
    var r := rep + u;
    forall i ensures !OccursAt(r, pat, i) {
      if i >= |rep| {
        OccursInSuffix(r, pat, |rep|, i - |rep|);
        assert r[|rep|..] == u;
      } else if 0 < i {
        assert i + |pat| <= |r| ==> r[i..i + |pat|][0] == rep[i];
      } else if i == 0 {
        var k :| 0 <= k < |rep| && k < |pat| && rep[k] != pat[k];
        assert |pat| <= |r| ==> r[..|pat|][k] == rep[k];
      }
    }
  }

  /**
   Prefixing the replaced rest of a string with its first character creates
   no occurrence when the string itself does not start with the pattern.
   */
  lemma NoOccurrenceAfterCopy(s: string, pat: string, rep: string)
    requires Separated(pat, rep)
    requires |s| >= |pat| && s[..|pat|] != pat
    requires !Contains(ReplaceAll(s[1..], pat, rep), pat)
    ensures !Contains([s[0]] + ReplaceAll(s[1..], pat, rep), pat)
  {
    var t := s[1..];
    var u := ReplaceAll(t, pat, rep);
    var r := [s[0]] + u;
    forall i ensures !OccursAt(r, pat, i) {
      if i >= 1 {
        OccursInSuffix(r, pat, 1, i - 1);
        assert r[1..] == u;
      } else if i == 0 && OccursAt(r, pat, 0) {
        var w := pat[1..];
        assert u[..|w|] == w by {
          assert r[..|pat|] == [s[0]] + u[..|w|];
        }
        assert s[..|pat|] == [s[0]] + t[..|w|];
        PrefixCopied(t, pat, rep, w);
      }
    }
  }

  /** With a separated pair, no occurrence of the pattern survives replacement. */
  lemma {:induction false} ReplaceRemovesAll(s: string, pat: string, rep: string)
    requires Separated(pat, rep)
    ensures !Contains(ReplaceAll(s, pat, rep), pat)
    decreases |s|
  {
    if |s| < |pat| {
      assert forall i :: !OccursAt(s, pat, i);
    } else if s[..|pat|] == pat {
      ReplaceRemovesAll(s[|pat|..], pat, rep);
      NoOccurrenceAfterReplacement(rep, ReplaceAll(s[|pat|..], pat, rep), pat);
    } else {
      ReplaceRemovesAll(s[1..], pat, rep);
      NoOccurrenceAfterCopy(s, pat, rep);
    }
  }

  /**
   With a separated pair, replacement leaves a string unchanged exactly when
   the pattern does not occur in it.
   */
  lemma ReplaceUnchangedIff(s: string, pat: string, rep: string)
    requires Separated(pat, rep)
    ensures ReplaceAll(s, pat, rep) == s <==> !Contains(s, pat)
  {
    ReplaceRemovesAll(s, pat, rep);
  }
}
