/**
 The response sanitiser of the Go suggestion service (`postProcessContent`):
 the generic `%+v` rendering of the model's reply goes through five steps,
 in this order —
   1. delete every "Parts:" field label,
   2. delete every "Role:model" role marker,
   3. delete every run of the markup symbols `& { } # [ ] *`,
   4. replace "\n\n" by "\n" in one left-to-right pass,
   5. trim leading and trailing white space.
 Every step only deletes characters, which is what the theorems below build on.
 */
module Sanitizer {
  import opened Subsequences
  import opened Replace
  import opened Symbols
  import opened Whitespace

  /** The field label that precedes the text payload. */
  const PartsLabel: string := "Parts:"
  /** The role marker of the model's reply. */
  const RoleMarker: string := "Role:model"
  /** A paragraph break, and the single newline it is collapsed to. */
  const ParagraphBreak: string := "\n\n"
  const LineBreak: string := "\n"

  /** The character classes each step may delete. */
  predicate InPartsLabel(c: char) {
    c in PartsLabel
  }

  predicate InRoleMarker(c: char) {
    c in RoleMarker
  }

  predicate IsNewline(c: char) {
    c == '\n'
  }

  /** A character that some step of the sanitiser may delete: a letter of the
      label or of the role marker, a markup symbol, or white space. Every
      other character of the input survives, in order. */
  predicate Removable(c: char) {
    InPartsLabel(c) || InRoleMarker(c) || IsSymbol(c) || IsSpace(c)
  }

  /** Step 1: delete every "Parts:" label. */
  function RemovePartsLabel(s: string): (r: string)
    ensures IsSubseq(r, s)
    ensures |r| == |s| - |PartsLabel| * Count(s, PartsLabel)
    ensures r == s <==> !Contains(s, PartsLabel)
    ensures Erase(r, InPartsLabel) == Erase(s, InPartsLabel)
  {
    DeleteAllFacts(s, PartsLabel);
    EraseAllDropped(PartsLabel, InPartsLabel);
    ReplaceErase(s, PartsLabel, [], InPartsLabel);
    ReplaceAll(s, PartsLabel, [])
  }

  /** Step 2: delete every "Role:model" marker. */
  function RemoveRoleMarker(s: string): (r: string)
    ensures IsSubseq(r, s)
    ensures |r| == |s| - |RoleMarker| * Count(s, RoleMarker)
    ensures r == s <==> !Contains(s, RoleMarker)
    ensures Erase(r, InRoleMarker) == Erase(s, InRoleMarker)
  {
    DeleteAllFacts(s, RoleMarker);
    EraseAllDropped(RoleMarker, InRoleMarker);
    ReplaceErase(s, RoleMarker, [], InRoleMarker);
    ReplaceAll(s, RoleMarker, [])
  }

  /** Which characters step 1 deletes: the text before the leftmost label is
      kept, that label goes, and the step carries on after it. Together with
      `RemovePartsLabel`'s clause for text without a label, this fixes the
      result on every input. */
  lemma LabelFirstOccurrence(s: string, i: nat)
    requires FirstOccurrence(s, PartsLabel, i)
    ensures RemovePartsLabel(s) == s[..i] + RemovePartsLabel(s[i + |PartsLabel|..])
  {
    ReplaceFirstMatch(s, PartsLabel, [], i);
    assert s[..i] + [] == s[..i];
  }

  /** Which characters step 2 deletes: the leftmost role marker, with the
      text before it kept and the step carried on after it. */
  lemma MarkerFirstOccurrence(s: string, i: nat)
    requires FirstOccurrence(s, RoleMarker, i)
    ensures RemoveRoleMarker(s) == s[..i] + RemoveRoleMarker(s[i + |RoleMarker|..])
  {
    ReplaceFirstMatch(s, RoleMarker, [], i);
    assert s[..i] + [] == s[..i];
  }

  /** Step 3: delete every maximal run of markup symbols. The result is the
      input with exactly its symbol characters removed. */
  function StripSymbols(s: string): (r: string)
    ensures NoSymbols(r)
    ensures r == Filter(s)
    ensures IsSubseq(r, s)
    ensures r == s <==> NoSymbols(s)
    ensures !NoSymbols(s) ==> |r| < |s|
  {
    StripRunsIsFilter(s);
    StripRunsDeletesSymbolsOnly(s);
    StripRuns(s)
  }

  /** Step 4: one non-overlapping left-to-right pass replacing "\n\n" by "\n";
      each replacement removes one newline. */
  function CollapseParagraphBreaks(s: string): (r: string)
    ensures IsSubseq(r, s)
    ensures |r| == |s| - Count(s, ParagraphBreak)
    ensures r == s <==> !Contains(s, ParagraphBreak)
    ensures Erase(r, IsNewline) == Erase(s, IsNewline)
  {
    assert IsSubseq(LineBreak, ParagraphBreak);
    EraseAllDropped(LineBreak, IsNewline);
    EraseAllDropped(ParagraphBreak, IsNewline);
    ReplaceErase(s, ParagraphBreak, LineBreak, IsNewline);
    ReplaceAllSubseq(s, ParagraphBreak, LineBreak);
    ReplaceAllLength(s, ParagraphBreak, LineBreak);
    ReplaceShrinksIffPresent(s, ParagraphBreak, LineBreak);
    ReplaceAll(s, ParagraphBreak, LineBreak)
  }

  /** Which newline step 4 deletes: the text before the leftmost "\n\n" is
      kept, that pair becomes one newline, and the pass resumes after the pair. */
  lemma BreakFirstOccurrence(s: string, i: nat)
    requires FirstOccurrence(s, ParagraphBreak, i)
    ensures CollapseParagraphBreaks(s) == s[..i] + LineBreak + CollapseParagraphBreaks(s[i + |ParagraphBreak|..])
  {
    ReplaceFirstMatch(s, ParagraphBreak, LineBreak, i);
  }

  /** Step 5: trim outer white space. */
  function TrimOuterSpace(s: string): (r: string)
    ensures IsSubseq(r, s)
    ensures NoOuterSpace(r)
    ensures r == s <==> NoOuterSpace(s)
    ensures !NoOuterSpace(s) ==> |r| < |s|
    ensures Erase(r, IsSpace) == Erase(s, IsSpace)
  {
    TrimSpaceSubseq(s);
    TrimSpaceErase(s);
    TrimSpaceFixedIffNoOuterSpace(s);
    TrimSpace(s)
  }

  /** The text the sanitiser leaves alone: no label, no role marker, no
      markup symbol, no paragraph break and no outer white space. */
  predicate IsClean(s: string) {
    && !Contains(s, PartsLabel)
    && !Contains(s, RoleMarker)
    && NoSymbols(s)
    && !Contains(s, ParagraphBreak)
    && NoOuterSpace(s)
  }

  /** `postProcessContent`: the five steps in order. Its output holds no
      markup symbol and no outer white space, only deletes characters from
      the input, and equals the input exactly when the input is clean. */
  function PostProcessContent(raw: string): (r: string)
    ensures NoSymbols(r)
    ensures NoOuterSpace(r)
    ensures IsSubseq(r, raw)
    ensures |r| <= |raw|
    ensures r == raw <==> IsClean(raw)
    ensures Erase(r, Removable) == Erase(raw, Removable)
  {
    var s1 := RemovePartsLabel(raw);
    var s2 := RemoveRoleMarker(s1);
    var s3 := StripSymbols(s2);
    var s4 := CollapseParagraphBreaks(s3);
    var s5 := TrimOuterSpace(s4);
    SanitizeFacts(raw, s1, s2, s3, s4, s5);
    SanitizeKeeps(raw, s1, s2, s3, s4, s5);
    s5
  }

  /** The proof behind the contract of `PostProcessContent`, stated over the
      intermediate strings of the pipeline. */
  lemma SanitizeFacts(raw: string, s1: string, s2: string, s3: string, s4: string, s5: string)
    requires s1 == RemovePartsLabel(raw) && s2 == RemoveRoleMarker(s1)
    requires s3 == StripSymbols(s2) && s4 == CollapseParagraphBreaks(s3)
    requires s5 == TrimOuterSpace(s4)
    ensures NoSymbols(s5) && IsSubseq(s5, raw)
    ensures s5 == raw <==> IsClean(raw)
  {
    SubseqTrans(s2, s1, raw);
    SubseqTrans(s3, s2, raw);
    SubseqTrans(s4, s3, raw);
    SubseqTrans(s5, s4, raw);
    NoSymbolsSubseq(s4, s3);
    NoSymbolsSubseq(s5, s4);
    if s5 == raw {
      // every step kept the length, so every step left its input alone
      SubseqLength(s1, raw);
      SubseqLength(s2, s1);
      SubseqLength(s3, s2);
      SubseqLength(s4, s3);
      SubseqLength(s5, s4);
      SubseqSameLength(s1, raw);
      SubseqSameLength(s2, s1);
      SubseqSameLength(s3, s2);
      SubseqSameLength(s4, s3);
      SubseqSameLength(s5, s4);
    }
  }

  /** The pipeline deletes only removable characters: every step agrees with
      its input once its own class is erased, and each class lies inside
      `Removable`. */
  lemma SanitizeKeeps(raw: string, s1: string, s2: string, s3: string, s4: string, s5: string)
    requires Erase(s1, InPartsLabel) == Erase(raw, InPartsLabel)
    requires Erase(s2, InRoleMarker) == Erase(s1, InRoleMarker)
    requires s3 == Erase(s2, IsSymbol)
    requires Erase(s4, IsNewline) == Erase(s3, IsNewline)
    requires Erase(s5, IsSpace) == Erase(s4, IsSpace)
    ensures Erase(s5, Removable) == Erase(raw, Removable)
  {
    EraseAgreeLarger(s1, raw, InPartsLabel, Removable);
    EraseAgreeLarger(s2, s1, InRoleMarker, Removable);
    EraseTwice(s2, IsSymbol, IsSymbol);
    EraseAgreeLarger(s3, s2, IsSymbol, Removable);
    EraseAgreeLarger(s4, s3, IsNewline, Removable);
    EraseAgreeLarger(s5, s4, IsSpace, Removable);
  }

  /** The output never carries one of the stripped symbols, whatever the input. */
  lemma OutputHasNoSymbols(raw: string)
    ensures forall c :: c in PostProcessContent(raw) ==> !IsSymbol(c)
  {
    var r := PostProcessContent(raw);
    forall c | c in r ensures !IsSymbol(c) {
      var i :| 0 <= i < |r| && r[i] == c;
    }
  }

  /** Clean text is returned unchanged. */
  lemma CleanIsFixedPoint(s: string)
    requires IsClean(s)
    ensures PostProcessContent(s) == s
  {
  }

  /** `n` consecutive newlines. */
  function Newlines(n: nat): (r: string)
    ensures |r| == n
    ensures forall i :: 0 <= i < n ==> r[i] == '\n'
  {
    seq(n, _ => '\n')
  }

  /** Step 4 on a run of `k` newlines that is not followed by another newline:
      the run shrinks to ⌈k/2⌉ newlines and the rest is processed on its own. */
  lemma {:induction false} CollapseRun(k: nat, t: string)
    requires |t| == 0 || t[0] != '\n'
    ensures CollapseParagraphBreaks(Newlines(k) + t)
         == Newlines((k + 1) / 2) + CollapseParagraphBreaks(t)
    decreases k
  {
    if k == 0 {
      assert Newlines(k) + t == t;
    } else if k == 1 {
      CollapseLoneNewline(t);
    } else {
      CollapsePair(k, t);
      CollapseRun(k - 2, t);
      NewlinesCons((k - 1) / 2, CollapseParagraphBreaks(t));
    }
  }

  /** A newline not followed by another one is copied. */
  lemma CollapseLoneNewline(t: string)
    requires |t| == 0 || t[0] != '\n'
    ensures ReplaceAll(Newlines(1) + t, ParagraphBreak, LineBreak)
         == Newlines(1) + ReplaceAll(t, ParagraphBreak, LineBreak)
  {
    assert Newlines(1) == LineBreak;
    assert |t| == 0 || (LineBreak + t)[..2] != ParagraphBreak by {
      if |t| > 0 {
        assert (LineBreak + t)[..2][1] == t[0];
      }
    }
    ReplaceSkipChar('\n', t, ParagraphBreak, LineBreak);
  }

  /** The first two newlines of a run are collapsed into one. */
  lemma CollapsePair(k: nat, t: string)
    requires k >= 2
    ensures ReplaceAll(Newlines(k) + t, ParagraphBreak, LineBreak)
         == LineBreak + ReplaceAll(Newlines(k - 2) + t, ParagraphBreak, LineBreak)
  {
    NewlinesSplit(k, t);
    ReplaceAtMatch(ParagraphBreak, Newlines(k - 2) + t, LineBreak);
  }

  /** A run of at least two newlines starts with a paragraph break. */
  lemma NewlinesSplit(k: nat, t: string)
    requires k >= 2
    ensures Newlines(k) + t == ParagraphBreak + (Newlines(k - 2) + t)
  {
    assert Newlines(k) == ParagraphBreak + Newlines(k - 2);
  }

  /** One more newline in front of a run. */
  lemma NewlinesCons(n: nat, t: string)
    ensures LineBreak + (Newlines(n) + t) == Newlines(n + 1) + t
  {
    assert LineBreak + Newlines(n) == Newlines(n + 1);
  }

  /** So step 4 does not remove every doubled newline: three newlines in a
      row become two. */
  lemma ThreeNewlinesKeepADouble()
    ensures CollapseParagraphBreaks("a\n\n\nb") == "a\n\nb"
  {
    CollapseRun(3, "b");
    assert Newlines(3) + "b" == "\n\n\nb";
    assert Newlines(2) == "\n\n";
    var s := "a\n\n\nb";
    assert s[..2] != ParagraphBreak;
    assert s[1..] == "\n\n\nb";
    assert CollapseParagraphBreaks("b") == "b";
  }
}
