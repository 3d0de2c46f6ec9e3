/**
 Concrete behaviour of the sanitiser: the worked example of a rendered
 two-paragraph reply, and the inputs on which a second pass changes the
 output of the first (so the sanitiser is not idempotent).
 */
module SanitizerExamples {
  import opened Subsequences
  import opened Replace
  import opened Symbols
  import opened Whitespace
  import opened Sanitizer

  /** The conditions under which two paragraphs pass through the sanitiser
      untouched: no markup symbol, no newline, no character that could start
      the label, no role marker and no 'R' before the second paragraph, and
      no white space at the outer ends. */
  predicate PlainParagraphs(t1: string, t2: string) {
    && NoSymbols(t1) && NoSymbols(t2)
    && '\n' !in t1 && '\n' !in t2
    && 'P' !in t1 && 'P' !in t2 && 'R' !in t1
    && !Contains(t2, RoleMarker)
    && |t1| > 0 && !IsSpace(t1[0])
    && |t2| > 0 && !IsSpace(t2[|t2| - 1])
  }

  /** A reply shaped like the rendering of one part holding two paragraphs,
      the second opened by a Markdown heading mark, with a stray brace inside
      the part list. */
  function RenderedReply(t1: string, t2: string): string {
    "Parts:" + "[{" + t1 + "\n\n" + "#" + t2 + "}] " + "Role:model"
  }

  /** The actual `%+v` rendering of a `*genai.Content` whose one part is the
      text `t1 + "\n\n#" + t2` and whose role is "model". */
  function GoRendering(t1: string, t2: string): string {
    "&{" + "Parts:" + "[" + t1 + "\n\n" + "#" + t2 + "]" + " " + "Role:model" + "}"
  }

  /** The scan passes a prefix without 'P', deletes the label, and copies a
      rest without 'P'. */
  lemma DeleteLabelAfter(pre: string, rest: string)
    requires 'P' !in pre && 'P' !in rest
    ensures ReplaceAll(pre + (PartsLabel + rest), PartsLabel, []) == pre + rest
  {
    ReplaceSkipPrefix(pre, PartsLabel + rest, PartsLabel, []);
    DeleteLeadingMatch(PartsLabel, rest);
  }

  /** The scan passes a prefix without 'R', then a text without the marker
      that cannot end inside one, deletes the marker, and copies a rest
      without 'R'. */
  lemma DeleteMarkerAfter(head: string, tail: string, after: string)
    requires 'R' !in head && 'R' !in after
    requires |tail| > 0 && !Contains(tail, RoleMarker) && tail[|tail| - 1] !in RoleMarker
    ensures ReplaceAll(head + (tail + (RoleMarker + after)), RoleMarker, []) == head + (tail + after)
  {
    ReplaceSkipPrefix(head, tail + (RoleMarker + after), RoleMarker, []);
    ReplaceSkipClean(tail, RoleMarker + after, RoleMarker, []);
    DeleteLeadingMatch(RoleMarker, after);
  }

  /** Filtering a text framed by symbol-only pieces keeps the filtered text of
      the two paragraphs and of the tail. */
  lemma FilterFramed(p: string, u: string, m: string, v: string, q: string)
    requires NoneButSymbols(p) && NoneButSymbols(m)
    ensures Filter(p + u + m + v + q) == Filter(u) + Filter(v) + Filter(q)
  {
    FilterConcat(p + u + m + v, q);
    FilterConcat(p + u + m, v);
    FilterConcat(p + u, m);
    FilterConcat(p, u);
    EraseAllDropped(p, IsSymbol);
    EraseAllDropped(m, IsSymbol);
  }

  /** Every character of `s` is a markup symbol. */
  predicate NoneButSymbols(s: string) {
    forall i :: 0 <= i < |s| ==> IsSymbol(s[i])
  }

  /** Step 1 on a rendered reply: only the leading label goes. */
  lemma ReplyStep1(t1: string, t2: string)
    requires PlainParagraphs(t1, t2)
    ensures RemovePartsLabel(RenderedReply(t1, t2)) == "[{" + t1 + "\n\n#" + t2 + "}] " + RoleMarker
  {
    var s1 := "[{" + t1 + "\n\n#" + t2 + "}] " + RoleMarker;
    assert RenderedReply(t1, t2) == [] + (PartsLabel + s1);
    assert 'P' !in s1;
    DeleteLabelAfter([], s1);
  }

  /** Step 2 on a rendered reply: only the trailing role marker goes. */
  lemma ReplyStep2(t1: string, t2: string)
    requires PlainParagraphs(t1, t2)
    ensures RemoveRoleMarker("[{" + t1 + "\n\n#" + t2 + "}] " + RoleMarker) == "[{" + t1 + "\n\n#" + t2 + "}] "
  {
    var head := "[{" + t1 + "\n\n#";
    var tail := t2 + "}] ";
    assert 'R' !in head;
    ContainsExtend(t2, "}] ", RoleMarker);
    assert "[{" + t1 + "\n\n#" + t2 + "}] " + RoleMarker == head + (tail + (RoleMarker + []));
    DeleteMarkerAfter(head, tail, []);
    assert head + (tail + []) == "[{" + t1 + "\n\n#" + t2 + "}] ";
  }

  /** Step 3 on a rendered reply, whatever its symbol frame: the opening
      brackets and braces, the heading mark, and the closing brackets and
      braces go, and the blank before the closing frame stays. */
  lemma FramedReplyStep3(open: string, close: string, t1: string, t2: string)
    requires PlainParagraphs(t1, t2)
    requires NoneButSymbols(open) && Filter(close) == " "
    ensures StripSymbols(open + t1 + "\n\n#" + t2 + close) == t1 + "\n\n" + t2 + " "
  {
    assert open + t1 + "\n\n#" + t2 + close == open + (t1 + "\n\n") + "#" + t2 + close;
    FilterFramed(open, t1 + "\n\n", "#", t2, close);
    ParagraphsFiltered(t1, t2);
  }

  /** The paragraphs themselves hold no symbol, so filtering keeps them. */
  lemma ParagraphsFiltered(t1: string, t2: string)
    requires NoSymbols(t1) && NoSymbols(t2)
    ensures Filter(t1 + "\n\n") + Filter(t2) + " " == t1 + "\n\n" + t2 + " "
  {
    var u := t1 + "\n\n";
    assert NoSymbols(u);
    FilterFixedIffClean(u);
    FilterFixedIffClean(t2);
  }

  /** Steps 4 and 5 on the two paragraphs: the paragraph break becomes a line
      break and the blank the role marker left behind goes. */
  lemma ReplyLastSteps(t1: string, t2: string)
    requires PlainParagraphs(t1, t2)
    ensures TrimOuterSpace(CollapseParagraphBreaks(t1 + "\n\n" + t2 + " ")) == t1 + "\n" + t2
  {
    ReplyStep4(t1, t2);
    ReplyStep5(t1, t2);
  }

  /** Step 4 on a rendered reply: the paragraph break becomes a line break. */
  lemma ReplyStep4(t1: string, t2: string)
    requires PlainParagraphs(t1, t2)
    ensures CollapseParagraphBreaks(t1 + "\n\n" + t2 + " ") == t1 + "\n" + t2 + " "
  {
    assert '\n' !in t2 + " ";
    BreakBetweenLines(t1, t2 + " ");
    assert t1 + "\n\n" + (t2 + " ") == t1 + "\n\n" + t2 + " ";
    assert t1 + "\n" + (t2 + " ") == t1 + "\n" + t2 + " ";
  }

  /** A single paragraph break between two lines becomes a line break. */
  lemma BreakBetweenLines(t1: string, t2: string)
    requires '\n' !in t1 && '\n' !in t2
    ensures ReplaceAll(t1 + "\n\n" + t2, ParagraphBreak, LineBreak) == t1 + "\n" + t2
  {
    assert t1 + "\n\n" + t2 == t1 + (ParagraphBreak + t2);
    ReplaceSkipPrefix(t1, ParagraphBreak + t2, ParagraphBreak, LineBreak);
    ReplaceAtMatch(ParagraphBreak, t2, LineBreak);
    ReplaceSkipPrefix(t2, [], ParagraphBreak, LineBreak);
    assert t2 + [] == t2;
    assert t1 + (LineBreak + t2) == t1 + "\n" + t2;
  }

  /** Step 5 on a rendered reply: the blank the role marker left behind goes. */
  lemma ReplyStep5(t1: string, t2: string)
    requires PlainParagraphs(t1, t2)
    ensures TrimOuterSpace(t1 + "\n" + t2 + " ") == t1 + "\n" + t2
  {
    var s4 := t1 + "\n" + t2 + " ";
    assert s4[..|s4| - 1] == t1 + "\n" + t2;
    assert s4[|s4| - 1..] == " ";
    TrimSpaceUnique(s4, 0, |s4| - 1);
  }

  /** A reply rendered as one part holding two plain paragraphs, the second
      opened by a heading mark, is sanitised to the two paragraphs on
      consecutive lines. */
  lemma TwoParagraphReply(t1: string, t2: string)
    requires PlainParagraphs(t1, t2)
    ensures PostProcessContent(RenderedReply(t1, t2)) == t1 + "\n" + t2
  {
    ReplyStep1(t1, t2);
    ReplyStep2(t1, t2);
    assert Filter("}] ") == " ";
    FramedReplyStep3("[{", "}] ", t1, t2);
    ReplyLastSteps(t1, t2);
  }

  /** Step 1 on the `%+v` rendering: the label after "&{" goes. */
  lemma GoReplyStep1(t1: string, t2: string)
    requires PlainParagraphs(t1, t2)
    ensures RemovePartsLabel(GoRendering(t1, t2)) == "&{" + ("[" + t1 + "\n\n#" + t2 + "] " + RoleMarker + "}")
  {
    var rest := "[" + t1 + "\n\n#" + t2 + "] " + RoleMarker + "}";
    assert GoRendering(t1, t2) == "&{" + (PartsLabel + rest);
    assert 'P' !in "&{" && 'P' !in rest;
    DeleteLabelAfter("&{", rest);
  }

  /** Step 2 on the `%+v` rendering: the role marker before the closing brace goes. */
  lemma GoReplyStep2(t1: string, t2: string)
    requires PlainParagraphs(t1, t2)
    ensures RemoveRoleMarker("&{" + ("[" + t1 + "\n\n#" + t2 + "] " + RoleMarker + "}"))
         == "&{[" + t1 + "\n\n#" + t2 + "] }"
  {
    var head := "&{[" + t1 + "\n\n#";
    var tail := t2 + "] ";
    assert 'R' !in head;
    ContainsExtend(t2, "] ", RoleMarker);
    assert "&{" + ("[" + t1 + "\n\n#" + t2 + "] " + RoleMarker + "}") == head + (tail + (RoleMarker + "}"));
    DeleteMarkerAfter(head, tail, "}");
    assert head + (tail + "}") == "&{[" + t1 + "\n\n#" + t2 + "] }";
  }

  /** What the service actually produces: the `%+v` rendering of a reply with
      two plain paragraphs is sanitised to the paragraphs on consecutive lines. */
  lemma GoRenderedReply(t1: string, t2: string)
    requires PlainParagraphs(t1, t2)
    ensures PostProcessContent(GoRendering(t1, t2)) == t1 + "\n" + t2
  {
    GoReplyStep1(t1, t2);
    GoReplyStep2(t1, t2);
    assert Filter("] }") == " ";
    FramedReplyStep3("&{[", "] }", t1, t2);
    ReplyLastSteps(t1, t2);
  }

  /** The worked example: "Parts:[{Text: Stay hydrated.\n\n#Rest well.}] Role:model"
      is sanitised to "Text: Stay hydrated.\nRest well.". */
  lemma WorkedExample()
    ensures PostProcessContent(RenderedReply("Text: Stay hydrated.", "Rest well."))
         == "Text: Stay hydrated." + "\n" + "Rest well."
  {
    // "Rest well." has no 'o', the second letter of the role marker
    AbsentWithoutChar("Rest well.", RoleMarker, 1);
    TwoParagraphReply("Text: Stay hydrated.", "Rest well.");
  }

  /** The same reply as the service renders it:
      "&{Parts:[Text: Stay hydrated.\n\n#Rest well.] Role:model}" is
      sanitised to "Text: Stay hydrated.\nRest well." as well. */
  lemma WorkedExampleAsRendered()
    ensures PostProcessContent(GoRendering("Text: Stay hydrated.", "Rest well."))
         == "Text: Stay hydrated." + "\n" + "Rest well."
  {
    AbsentWithoutChar("Rest well.", RoleMarker, 1);
    GoRenderedReply("Text: Stay hydrated.", "Rest well.");
  }

  /** Text on one line that no step touches: no markup symbol, no newline,
      and neither of the letters that open the two markers. */
  predicate PlainLine(t: string) {
    NoSymbols(t) && '\n' !in t && 'P' !in t && 'R' !in t
  }

  /** Two plain lines around a run of `k >= 1` newlines: the whole sanitiser
      only shrinks the run, to ⌈k/2⌉ newlines. */
  lemma LinesAroundNewlineRun(t1: string, k: nat, t2: string)
    requires PlainLine(t1) && PlainLine(t2)
    requires |t1| > 0 && !IsSpace(t1[0])
    requires |t2| > 0 && !IsSpace(t2[|t2| - 1])
    ensures PostProcessContent(t1 + Newlines(k) + t2) == t1 + Newlines((k + 1) / 2) + t2
  {
    var s := t1 + Newlines(k) + t2;
    var r := t1 + Newlines((k + 1) / 2) + t2;
    LinesPassFirstSteps(t1, k, t2);
    CollapseBetweenLines(t1, k, t2);
    assert r[0] == t1[0] && r[|r| - 1] == t2[|t2| - 1];
    TrimSpaceFixed(r);
  }

  /** Steps 1 to 3 leave plain lines around a newline run alone. */
  lemma LinesPassFirstSteps(t1: string, k: nat, t2: string)
    requires PlainLine(t1) && PlainLine(t2)
    ensures StripSymbols(RemoveRoleMarker(RemovePartsLabel(t1 + Newlines(k) + t2))) == t1 + Newlines(k) + t2
  {
    var s := t1 + Newlines(k) + t2;
    forall i | 0 <= i < |s| ensures s[i] != 'P' && s[i] != 'R' && !IsSymbol(s[i]) {
      if i < |t1| {
        assert s[i] == t1[i];
      } else if i < |t1| + k {
        assert s[i] == '\n';
      } else {
        assert s[i] == t2[i - |t1| - k];
      }
    }
    AbsentWithoutFirstChar(s, PartsLabel);
    AbsentWithoutFirstChar(s, RoleMarker);
  }

  /** Step 4 between two plain lines shrinks the run and nothing else. */
  lemma CollapseBetweenLines(t1: string, k: nat, t2: string)
    requires PlainLine(t1) && PlainLine(t2)
    requires |t2| > 0
    ensures CollapseParagraphBreaks(t1 + Newlines(k) + t2) == t1 + Newlines((k + 1) / 2) + t2
  {
    assert t1 + Newlines(k) + t2 == t1 + (Newlines(k) + t2);
    ReplaceSkipPrefix(t1, Newlines(k) + t2, ParagraphBreak, LineBreak);
    CollapseRun(k, t2);
    AbsentWithoutFirstChar(t2, ParagraphBreak);
    assert t1 + (Newlines((k + 1) / 2) + t2) == t1 + Newlines((k + 1) / 2) + t2;
  }

  /** The sanitiser is not idempotent: three newlines between two lines
      become two on the first pass and one on the second, so a second pass
      changes the output of the first. */
  lemma NotIdempotentOnNewlineRun()
    ensures PostProcessContent("a" + Newlines(3) + "b") == "a" + Newlines(2) + "b"
    ensures PostProcessContent(PostProcessContent("a" + Newlines(3) + "b"))
         != PostProcessContent("a" + Newlines(3) + "b")
  {
    LinesAroundNewlineRun("a", 3, "b");
    LinesAroundNewlineRun("a", 2, "b");
    assert |"a" + Newlines(1) + "b"| == 3;
  }

  /** Deleting the label can assemble a new label from the pieces around it:
      "PaParts:rts:" loses its inner label and becomes "Parts:", which a
      second pass deletes. So the output may still contain "Parts:". */
  lemma NotIdempotentOnNestedLabel()
    ensures PostProcessContent("Pa" + PartsLabel + "rts:") == "Parts:"
    ensures PostProcessContent("Parts:") == ""
  {
    NestedLabelRemoval("rts:");
    assert "Pa" + "rts:" == "Parts:";
    LabelPassesLaterSteps();
    LabelAloneRemoved();
  }

  /** Step 1 on "Pa" + label + rest: the scan passes "Pa", deletes the label, copies the rest. */
  lemma NestedLabelRemoval(rest: string)
    requires 'P' !in rest
    ensures RemovePartsLabel("Pa" + PartsLabel + rest) == "Pa" + rest
  {
    var pat := PartsLabel;
    assert (['P', 'a'] + pat)[..|pat|][2] != pat[2];
    assert (['a'] + pat)[..|pat|][1] != pat[1];
    DeleteAfterTwo('P', 'a', pat, rest);
    assert ['P'] + (['a'] + (pat + rest)) == "Pa" + PartsLabel + rest;
    assert ['P'] + (['a'] + rest) == "Pa" + rest;
  }

  /** Deleting a pattern that occurs once, right after two characters that
      do not start an occurrence, from text that then lacks its first character. */
  lemma DeleteAfterTwo(x: char, y: char, pat: string, rest: string)
    requires |pat| > 2 && pat[0] !in rest
    requires ([x, y] + pat)[..|pat|] != pat
    requires ([y] + pat)[..|pat|] != pat
    ensures ReplaceAll([x] + ([y] + (pat + rest)), pat, []) == [x] + ([y] + rest)
  {
    var t := pat + rest;
    assert ([y] + t)[..|pat|] == ([y] + pat)[..|pat|];
    assert ([x] + ([y] + t))[..|pat|] == ([x, y] + pat)[..|pat|];
    SkipTwo(x, y, t, pat, []);
    DeleteLeadingMatch(pat, rest);
  }

  /** Two leading characters that do not start an occurrence are copied. */
  lemma SkipTwo(x: char, y: char, t: string, pat: string, rep: string)
    requires |pat| > 0
    requires |t| + 1 < |pat| || ([y] + t)[..|pat|] != pat
    requires |t| + 2 < |pat| || ([x] + ([y] + t))[..|pat|] != pat
    ensures ReplaceAll([x] + ([y] + t), pat, rep) == [x] + ([y] + ReplaceAll(t, pat, rep))
  {
    ReplaceSkipChar(y, t, pat, rep);
    ReplaceSkipChar(x, [y] + t, pat, rep);
  }

  /** A leading occurrence is deleted, and text lacking the pattern's first
      character is then copied. */
  lemma DeleteLeadingMatch(pat: string, rest: string)
    requires |pat| > 0 && pat[0] !in rest
    ensures ReplaceAll(pat + rest, pat, []) == rest
  {
    ReplaceAtMatch(pat, rest, []);
    AbsentWithoutFirstChar(rest, pat);
    ReplaceAbsent(rest, pat, []);
  }

  /** Steps 2 to 5 leave a bare label alone. */
  lemma LabelPassesLaterSteps()
    ensures TrimOuterSpace(CollapseParagraphBreaks(StripSymbols(RemoveRoleMarker("Parts:")))) == "Parts:"
  {
    AbsentWithoutFirstChar("Parts:", RoleMarker);
    assert NoSymbols("Parts:");
    AbsentWithoutFirstChar("Parts:", ParagraphBreak);
    assert NoOuterSpace("Parts:");
  }

  /** A bare label is deleted whole. */
  lemma LabelAloneRemoved()
    ensures PostProcessContent("Parts:") == ""
  {
    ReplaceAtMatch(PartsLabel, [], []);
    assert PartsLabel + [] == PartsLabel;
    assert RemovePartsLabel("Parts:") == [];
    AbsentWithoutFirstChar([], RoleMarker);
    AbsentWithoutFirstChar([], ParagraphBreak);
  }

  /** Deleting a symbol can assemble a label that step 1 has already passed
      over: "Par#ts:" contains no label, but comes out as "Parts:". */
  lemma LabelAssembledBySymbolStrip()
    ensures PostProcessContent("Par" + "#" + "ts:") == "Parts:"
  {
    var s := "Par" + "#" + "ts:";
    assert !Contains(s, PartsLabel) by {
      forall i | 0 <= i <= |s| ensures !OccursAt(s, PartsLabel, i) {
        if i + |PartsLabel| <= |s| {
          var w := s[i..i + |PartsLabel|];
          assert w[0] == s[i] && w[3] == s[i + 3];
          assert s[i] != 'P' || s[i + 3] != 't';
        }
      }
    }
    AbsentWithoutFirstChar(s, RoleMarker);
    assert RemoveRoleMarker(RemovePartsLabel(s)) == s;
    SymbolInsideLabel();
    AbsentWithoutFirstChar("Parts:", ParagraphBreak);
    assert NoOuterSpace("Parts:");
  }

  /** Step 3 joins the two halves of "Par#ts:". */
  lemma SymbolInsideLabel()
    ensures StripSymbols("Par" + "#" + "ts:") == "Parts:"
  {
    FilterConcat("Par" + "#", "ts:");
    FilterConcat("Par", "#");
    assert NoSymbols("Par") && NoSymbols("ts:");
    FilterFixedIffClean("Par");
    FilterFixedIffClean("ts:");
    assert Filter("#") == [];
    assert "Par" + "ts:" == "Parts:";
  }
}
