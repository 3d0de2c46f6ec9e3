/**
 Literal substring replacement with the semantics of Go's `strings.ReplaceAll`
 and `strings.Count`: the string is scanned left to right, each occurrence of
 the pattern found is replaced and scanning resumes just after it, so matches
 never overlap. An empty pattern matches before every character and at the end.
 */
module Replace {
  import opened Subsequences

  /** `pat` occurs in `s` starting at index `i`. */
  predicate OccursAt(s: string, pat: string, i: int) {
    0 <= i && i + |pat| <= |s| && s[i..i + |pat|] == pat
  }

  /** `pat` occurs somewhere in `s`. */
  predicate Contains(s: string, pat: string) {
    exists i :: 0 <= i <= |s| && OccursAt(s, pat, i)
  }

  /** Replacement with an empty pattern: `rep` goes before every character
      and once more at the end. */
  function Interleave(s: string, rep: string): (r: string)
    ensures |r| == |s| + (|s| + 1) * |rep|
    decreases |s|
  {
    if |s| == 0 then rep
    else rep + [s[0]] + Interleave(s[1..], rep)
  }

  /** Replace every non-overlapping occurrence of `pat` in `s`, found left to
      right, by `rep`. */
  function ReplaceAll(s: string, pat: string, rep: string): (r: string)
    ensures |pat| > 0 && |rep| <= |pat| ==> |r| <= |s|
    ensures |pat| > 0 && rep == pat ==> r == s
    decreases |s|
  {
    if |pat| == 0 then Interleave(s, rep)
    else if |s| < |pat| then s
    else if s[..|pat|] == pat then rep + ReplaceAll(s[|pat|..], pat, rep)
    else [s[0]] + ReplaceAll(s[1..], pat, rep)
  }

  /** The number of occurrences the left-to-right scan replaces. Occurrences
      it counts never overlap, so together they fit in the string. */
  function Count(s: string, pat: string): (n: nat)
    ensures |pat| > 0 ==> n * |pat| <= |s|
    decreases |s|
  {
    if |pat| == 0 then |s| + 1
    else if |s| < |pat| then 0
    else if s[..|pat|] == pat then
      var c := Count(s[|pat|..], pat);
      MulStep(c, |pat|);
      1 + c
    else Count(s[1..], pat)
  }

  /** Each replacement changes the length by exactly `|rep| - |pat|`. */
  lemma {:induction false} ReplaceAllLength(s: string, pat: string, rep: string)
    ensures |ReplaceAll(s, pat, rep)| == |s| + Count(s, pat) * (|rep| - |pat|)
    decreases |s|
  {
    var d := |rep| - |pat|;
    if |pat| == 0 {
      assert |ReplaceAll(s, pat, rep)| == |s| + (|s| + 1) * |rep|;
    } else if |s| >= |pat| {
      if s[..|pat|] == pat {
        var tail := s[|pat|..];
        ReplaceAllLength(tail, pat, rep);
        var c := Count(tail, pat);
        assert |ReplaceAll(tail, pat, rep)| == |tail| + c * d;
        assert ReplaceAll(s, pat, rep) == rep + ReplaceAll(tail, pat, rep);
        assert Count(s, pat) == 1 + c;
        MulStep(c, d);
      } else {
        ReplaceAllLength(s[1..], pat, rep);
      }
    }
  }

  /** Arithmetic steps kept apart so that the lemmas about the scan do not
      reason about products themselves. */
  lemma MulStep(c: int, d: int)
    ensures (1 + c) * d == d + c * d
  {
  }

  lemma MulNegate(c: int, p: int)
    ensures c * (0 - p) == -(p * c)
  {
  }

  lemma ScaleNegative(c: nat, d: int)
    requires d < 0
    ensures c * d <= 0
    ensures c * d < 0 <==> c > 0
  {
  }

  lemma MulPositive(p: int, c: int)
    requires p > 0 && c > 0
    ensures p * c > 0
  {
  }

  /** An occurrence in the tail of `s` is an occurrence in `s`, one place later. */
  lemma OccursInTail(s: string, pat: string, i: int)
    requires |s| > 0
    requires OccursAt(s[1..], pat, i)
    ensures OccursAt(s, pat, i + 1)
  {
    assert s[1..][i..i + |pat|] == s[i + 1..i + 1 + |pat|];
  }

  /** For a non-empty pattern, the scan replaces nothing exactly when the
      pattern does not occur at all. */
  lemma {:induction false} CountZeroIffAbsent(s: string, pat: string)
    requires |pat| > 0
    ensures Count(s, pat) == 0 <==> !Contains(s, pat)
    decreases |s|
  {
    if |s| < |pat| {
      assert forall i :: !OccursAt(s, pat, i);
    } else if s[..|pat|] == pat {
      assert OccursAt(s, pat, 0);
    } else {
      CountZeroIffAbsent(s[1..], pat);
      if Contains(s[1..], pat) {
        var i :| OccursAt(s[1..], pat, i);
        OccursInTail(s, pat, i);
      } else {
        assert !OccursAt(s, pat, 0);
        forall i | 1 <= i && OccursAt(s, pat, i) ensures OccursAt(s[1..], pat, i - 1) {
          assert s[1..][i - 1..i - 1 + |pat|] == s[i..i + |pat|];
        }
      }
    }
  }

  /** Replacing a pattern that does not occur leaves the string unchanged. */
  lemma {:induction false} ReplaceAbsent(s: string, pat: string, rep: string)
    requires |pat| > 0
    requires !Contains(s, pat)
    ensures ReplaceAll(s, pat, rep) == s
    decreases |s|
  {
    if |s| >= |pat| {
      assert !OccursAt(s, pat, 0);
      assert s[..|pat|] != pat by { assert s[..|pat|] == s[0..|pat|]; }
      if Contains(s[1..], pat) {
        var i :| OccursAt(s[1..], pat, i);
        OccursInTail(s, pat, i);
      }
      ReplaceAbsent(s[1..], pat, rep);
      assert [s[0]] + s[1..] == s;
    }
  }

  /** Interleaving a text made only of erased characters changes nothing
      that survives the erasure. */
  lemma {:induction false} InterleaveErase(s: string, rep: string, drop: char -> bool)
    requires Erase(rep, drop) == []
    ensures Erase(Interleave(s, rep), drop) == Erase(s, drop)
    decreases |s|
  {
    if |s| == 0 {
    } else {
      var tail := Interleave(s[1..], rep);
      InterleaveErase(s[1..], rep, drop);
      EraseConcat(rep + [s[0]], tail, drop);
      EraseConcat(rep, [s[0]], drop);
      EraseConcat([s[0]], s[1..], drop);
      assert [s[0]] + s[1..] == s;
    }
  }

  /** Replacement changes only characters of a class `drop` when the pattern
      and its replacement agree outside that class: erasing the class from
      the result gives the same text as erasing it from the input. */
  lemma {:induction false} ReplaceErase(s: string, pat: string, rep: string, drop: char -> bool)
    requires Erase(rep, drop) == Erase(pat, drop)
    ensures Erase(ReplaceAll(s, pat, rep), drop) == Erase(s, drop)
    decreases |s|
  {
    if |pat| == 0 {
      InterleaveErase(s, rep, drop);
    } else if |s| < |pat| {
    } else if s[..|pat|] == pat {
      var tail := s[|pat|..];
      ReplaceErase(tail, pat, rep, drop);
      EraseConcat(rep, ReplaceAll(tail, pat, rep), drop);
      EraseConcat(pat, tail, drop);
      assert pat + tail == s;
    } else {
      ReplaceErase(s[1..], pat, rep, drop);
      EraseConcat([s[0]], ReplaceAll(s[1..], pat, rep), drop);
      EraseConcat([s[0]], s[1..], drop);
      assert [s[0]] + s[1..] == s;
    }
  }

  /** An empty replacement text interleaves nothing. */
  lemma {:induction false} InterleaveEmpty(s: string)
    ensures Interleave(s, []) == s
    decreases |s|
  {
    if |s| != 0 {
      InterleaveEmpty(s[1..]);
      assert [] + [s[0]] + s[1..] == s;
    }
  }

  /** When the replacement is itself a subsequence of the pattern (deleting it,
      or shortening it to a part of itself), the result is a subsequence of the
      input: replacement only deletes characters. */
  lemma {:induction false} ReplaceAllSubseq(s: string, pat: string, rep: string)
    requires IsSubseq(rep, pat)
    ensures IsSubseq(ReplaceAll(s, pat, rep), s)
    decreases |s|
  {
    if |pat| == 0 {
      SubseqLength(rep, pat);
      InterleaveEmpty(s);
      SubseqRefl(s);
    } else if |s| < |pat| {
      SubseqRefl(s);
    } else if s[..|pat|] == pat {
      ReplaceAllSubseq(s[|pat|..], pat, rep);
      SubseqConcat(rep, pat, ReplaceAll(s[|pat|..], pat, rep), s[|pat|..]);
      assert s[..|pat|] + s[|pat|..] == s;
    } else {
      ReplaceAllSubseq(s[1..], pat, rep);
      SubseqRefl([s[0]]);
      SubseqConcat([s[0]], [s[0]], ReplaceAll(s[1..], pat, rep), s[1..]);
      assert [s[0]] + s[1..] == s;
    }
  }

  /** Replacing a non-empty pattern by a strictly shorter text shortens the
      string exactly when the pattern occurs. */
  lemma ReplaceShrinksIffPresent(s: string, pat: string, rep: string)
    requires |rep| < |pat|
    ensures |ReplaceAll(s, pat, rep)| < |s| <==> Contains(s, pat)
    ensures |ReplaceAll(s, pat, rep)| <= |s|
    ensures ReplaceAll(s, pat, rep) == s <==> !Contains(s, pat)
  {
    var c := Count(s, pat);
    var d := |rep| - |pat|;
    ReplaceAllLength(s, pat, rep);
    assert |ReplaceAll(s, pat, rep)| == |s| + c * d;
    CountZeroIffAbsent(s, pat);
    ScaleNegative(c, d);
    if !Contains(s, pat) {
      ReplaceAbsent(s, pat, rep);
    }
  }

  /** Deleting a non-empty pattern (replacing it by nothing): the result is a
      subsequence of the input, each deleted occurrence shortens it by exactly
      `|pat|`, and it is unchanged exactly when the pattern does not occur. */
  lemma DeleteAllFacts(s: string, pat: string)
    requires |pat| > 0
    ensures IsSubseq(ReplaceAll(s, pat, []), s)
    ensures |ReplaceAll(s, pat, [])| == |s| - |pat| * Count(s, pat)
    ensures ReplaceAll(s, pat, []) == s <==> !Contains(s, pat)
  {
    var r := ReplaceAll(s, pat, []);
    var c := Count(s, pat);
    ReplaceAllSubseq(s, pat, []);
    ReplaceAllLength(s, pat, []);
    MulNegate(c, |pat|);
    if !Contains(s, pat) {
      ReplaceAbsent(s, pat, []);
    } else {
      CountZeroIffAbsent(s, pat);
      MulPositive(|pat|, c);
    }
  }

  /** A string that starts with the pattern has that occurrence replaced first. */
  lemma ReplaceAtMatch(pat: string, t: string, rep: string)
    requires |pat| > 0
    ensures ReplaceAll(pat + t, pat, rep) == rep + ReplaceAll(t, pat, rep)
  {
    var s := pat + t;
    assert s[..|pat|] == pat;
    assert s[|pat|..] == t;
  }

  /** `i` is where the leftmost occurrence of `pat` in `s` starts: the index
      Go's `strings.Index` returns. */
  predicate FirstOccurrence(s: string, pat: string, i: int) {
    OccursAt(s, pat, i) && forall j :: 0 <= j < i ==> !OccursAt(s, pat, j)
  }

  /** The scan copies the text before the leftmost occurrence, replaces that
      occurrence, and carries on after it: one round of Go's `Index` loop. */
  lemma ReplaceFirstMatch(s: string, pat: string, rep: string, i: nat)
    requires |pat| > 0
    requires FirstOccurrence(s, pat, i)
    ensures ReplaceAll(s, pat, rep) == s[..i] + rep + ReplaceAll(s[i + |pat|..], pat, rep)
  {
    var a, t := s[..i], s[i..];
    assert s == a + t;
    assert t == pat + t[|pat|..];
    assert t[|pat|..] == s[i + |pat|..];
    ReplaceSkipNoMatch(a, t, pat, rep);
    ReplaceAtMatch(pat, t[|pat|..], rep);
  }

  /** A prefix at none of whose positions an occurrence starts is copied by the scan. */
  lemma {:induction false} ReplaceSkipNoMatch(a: string, t: string, pat: string, rep: string)
    requires |pat| > 0
    requires forall j :: 0 <= j < |a| ==> !OccursAt(a + t, pat, j)
    ensures ReplaceAll(a + t, pat, rep) == a + ReplaceAll(t, pat, rep)
    decreases |a|
  {
    if |a| == 0 {
      assert a + t == t;
    } else {
      var s := a + t;
      ConcatCons(a, t);
      ConcatCons(a, ReplaceAll(t, pat, rep));
      assert !OccursAt(s, pat, 0);
      ReplaceNoMatchAtFront(s, pat, rep);
      forall j | 0 <= j < |a| - 1 ensures !OccursAt(a[1..] + t, pat, j) {
        assert !OccursAt(s, pat, j + 1);
        ShiftOccurrence(s, pat, j);
      }
      ReplaceSkipNoMatch(a[1..], t, pat, rep);
    }
  }

  /** An occurrence in `s[1..]` is an occurrence in `s` one place further on. */
  lemma ShiftOccurrence(s: string, pat: string, j: nat)
    requires |s| > 0
    ensures OccursAt(s[1..], pat, j) ==> OccursAt(s, pat, j + 1)
  {
    if j + |pat| <= |s| - 1 {
      assert s[1..][j..j + |pat|] == s[j + 1..j + 1 + |pat|];
    }
  }

  /** A string that does not start with the pattern has its first character copied. */
  lemma ReplaceNoMatchAtFront(s: string, pat: string, rep: string)
    requires |pat| > 0 && |s| > 0
    requires !OccursAt(s, pat, 0)
    ensures ReplaceAll(s, pat, rep) == [s[0]] + ReplaceAll(s[1..], pat, rep)
  {
    if |s| >= |pat| {
      assert s[..|pat|] == s[0..|pat|];
    }
  }

  /** A first character that does not start an occurrence is copied. */
  lemma ReplaceSkipChar(c: char, t: string, pat: string, rep: string)
    requires |pat| > 0
    requires |t| + 1 < |pat| || ([c] + t)[..|pat|] != pat
    ensures ReplaceAll([c] + t, pat, rep) == [c] + ReplaceAll(t, pat, rep)
  {
    assert ([c] + t)[1..] == t;
  }

  /** A prefix that does not contain the first character of the pattern is
      copied unchanged: no occurrence can start inside it. */
  lemma {:induction false} ReplaceSkipPrefix(a: string, t: string, pat: string, rep: string)
    requires |pat| > 0
    requires pat[0] !in a
    ensures ReplaceAll(a + t, pat, rep) == a + ReplaceAll(t, pat, rep)
    decreases |a|
  {
    if |a| == 0 {
      assert a + t == t;
    } else {
      var s := a + t;
      assert s[0] == a[0] && s[1..] == a[1..] + t;
      if |s| >= |pat| {
        assert s[..|pat|][0] == a[0];
      }
      assert a[1..] + ReplaceAll(t, pat, rep) == (a + ReplaceAll(t, pat, rep))[1..];
      ReplaceSkipPrefix(a[1..], t, pat, rep);
    }
  }

  /** No occurrence starts at the front of `a + t` when the pattern does not
      occur in `a` and the last character of `a` is not in the pattern. */
  lemma NoMatchAtFront(a: string, t: string, pat: string)
    requires |pat| > 0 && |a| > 0
    requires !Contains(a, pat)
    requires a[|a| - 1] !in pat
    ensures !OccursAt(a + t, pat, 0)
  {
    var s := a + t;
    if |pat| <= |a| {
      assert a[0..|pat|] == s[0..|pat|];
      assert !OccursAt(a, pat, 0);
    } else if |pat| <= |s| {
      assert s[0..|pat|][|a| - 1] == a[|a| - 1];
    }
  }

  /** A prefix in which the pattern does not occur, and whose last character
      is not in the pattern (so no occurrence can straddle the boundary), is
      copied unchanged. */
  lemma {:induction false} ReplaceSkipClean(a: string, t: string, pat: string, rep: string)
    requires |pat| > 0 && |a| > 0
    requires !Contains(a, pat)
    requires a[|a| - 1] !in pat
    ensures ReplaceAll(a + t, pat, rep) == a + ReplaceAll(t, pat, rep)
    decreases |a|
  {
    var s := a + t;
    var rt := ReplaceAll(t, pat, rep);
    ConcatCons(a, t);
    ConcatCons(a, rt);
    assert |s| < |pat| || s[..|pat|] != pat by {
      NoMatchAtFront(a, t, pat);
      if |s| >= |pat| {
        assert s[..|pat|] == s[0..|pat|];
      }
    }
    ReplaceSkipChar(a[0], a[1..] + t, pat, rep);
    if |a| == 1 {
      assert a[1..] == [];
      assert a[1..] + t == t && a[1..] + rt == rt;
    } else {
      assert !Contains(a[1..], pat) by {
        if Contains(a[1..], pat) {
          var i :| 0 <= i <= |a[1..]| && OccursAt(a[1..], pat, i);
          OccursInTail(a, pat, i);
        }
      }
      ReplaceSkipClean(a[1..], t, pat, rep);
    }
  }

  /** Splitting off the first character of the left operand of a concatenation. */
  lemma ConcatCons(a: string, t: string)
    requires |a| > 0
    ensures a + t == [a[0]] + (a[1..] + t)
  {
    assert (a + t)[1..] == a[1..] + t;
  }

  /** Appending characters that are not in the pattern creates no occurrence:
      an occurrence reaching into the appended part would hold one of them. */
  lemma ContainsExtend(t: string, x: string, pat: string)
    requires !Contains(t, pat)
    requires forall c :: c in x ==> c !in pat
    ensures !Contains(t + x, pat)
  {
    var s := t + x;
    assert |pat| > 0 by {
      if |pat| == 0 {
        assert OccursAt(t, pat, 0);
      }
    }
    forall i | 0 <= i <= |s| ensures !OccursAt(s, pat, i) {
      if i + |pat| <= |t| {
        assert s[i..i + |pat|] == t[i..i + |pat|];
        assert !OccursAt(t, pat, i);
      } else if i + |pat| <= |s| {
        var p := if i < |t| then |t| else i;
        var w := s[i..i + |pat|];
        assert w[p - i] == x[p - |t|];
        assert w[p - i] !in pat;
        assert pat[p - i] in pat;
      }
    }
  }

  /** A string that lacks the first character of a pattern does not contain it. */
  lemma AbsentWithoutFirstChar(s: string, pat: string)
    requires |pat| > 0
    requires pat[0] !in s
    ensures !Contains(s, pat)
  {
    AbsentWithoutChar(s, pat, 0);
  }

  /** A string that lacks some character of a pattern does not contain it. */
  lemma AbsentWithoutChar(s: string, pat: string, k: nat)
    requires k < |pat|
    requires pat[k] !in s
    ensures !Contains(s, pat)
  {
    forall i | 0 <= i <= |s| ensures !OccursAt(s, pat, i) {
      if i + |pat| <= |s| {
        assert s[i..i + |pat|][k] == s[i + k];
      }
    }
  }
}
