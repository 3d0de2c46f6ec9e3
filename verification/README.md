# Response sanitiser of the health-suggestion service

The Go service of the Health-Monitoring-System sends a patient's vital signs to
a generative-text API. It renders the first candidate's content with `%+v`,
which leaves Go's field labels and brackets in the text, and passes the result
through `postProcessContent` before it goes back to the client. This project
models that sanitiser and proves properties of it. It is a pure
`string -> string` pipeline with five steps:

1. `strings.ReplaceAll(s, "Parts:", "")`: delete every field label.
2. `strings.ReplaceAll(s, "Role:model", "")`: delete every role marker.
3. ``regexp.MustCompile(`[&{}#\[\]\*]+`).ReplaceAllString(s, "")``: delete every
   maximal run of the markup symbols `& { } # [ ] *`.
4. `strings.ReplaceAll(s, "\n\n", "\n")`: one non-overlapping left-to-right pass.
5. `strings.TrimSpace(s)`: trim leading and trailing white space.

The Dafny modules follow this structure:

- `Subsequences` (`subsequences.dfy`) defines "obtained by deleting characters".
  Every step has this property, and most proofs are built on it. The module
  also defines `Erase(s, drop)`, which is `s` without the characters of a
  class `drop`. A step that deletes only `drop` characters leaves
  `Erase(_, drop)` unchanged.
- `Replace` (`replace.dfy`) gives the semantics of Go's `strings.ReplaceAll` and
  `strings.Count`. The scan runs left to right, matches never overlap, and an
  empty pattern matches before every character and at the end.
- `Symbols` (`symbols.dfy`) models the regular-expression pass: the leftmost
  match, made maximal by the greedy `+`. It also gives a reference definition
  that filters the characters one by one.
- `Whitespace` (`whitespace.dfy`) models `strings.TrimSpace` over Go's
  `unicode.IsSpace`. That covers the Latin-1 characters `\t \n \v \f \r`,
  space, U+0085 and U+00A0, plus the Unicode White_Space characters above
  Latin-1.
- `Sanitizer` (`sanitizer.dfy`) defines the five steps, their composition
  `PostProcessContent`, and the theorems about that composition.
- `SanitizerExamples` (`sanitizer_examples.dfy`) has the worked example, the
  same reply in the shape `%+v` really produces (`&{Parts:[…] Role:model}`),
  and the inputs that show the sanitiser is not idempotent.

The main results:

- The output contains none of `& { } # [ ] *`.
- The output has no leading or trailing white space.
- The output is a subsequence of the input, so it is never longer.
- Only removable characters are deleted: letters of "Parts:" and
  "Role:model", markup symbols, and white space. Every other character of
  the input survives, in its original order.
- `PostProcessContent(s) == s` holds exactly when `s` is clean. Clean means no
  "Parts:", no "Role:model", no markup symbol, no "\n\n" and no outer white
  space. The "only if" direction holds because every step never lengthens its
  input and strictly shortens it when its own condition is violated.

The sanitiser is not idempotent:

- A run of k newlines becomes ⌈k/2⌉ newlines, so "a\n\n\nb" becomes "a\n\nb",
  and a second pass gives "a\nb".
- "PaParts:rts:" becomes "Parts:", and a second pass deletes that.
- "Par#ts:" becomes "Parts:", because step 3 runs after step 1.

For the same reasons, the model does not claim that the output is free of
"Parts:", "Role:model" or "\n\n".

## Model

| member | source | states |
|---|---|---|
| `Replace.ReplaceAll` | ai_suggestion_go/main.go:79-87 | the left-to-right scan of `strings.ReplaceAll`. For a non-empty pattern, a replacement no longer than the pattern never lengthens the text, and replacing the pattern by itself changes nothing |
| `Replace.Count` | ai_suggestion_go/main.go:79-87 | the occurrences the scan counts never overlap, so for a non-empty pattern `Count * |pat|` is at most the text's length |
| `Replace.ReplaceErase` | ai_suggestion_go/main.go:79-87 | when the pattern and its replacement agree once a class of characters is erased, the scan changes only characters of that class |
| `Replace.ContainsExtend` | ai_suggestion_go/main.go:80 | appending characters that are not in the pattern creates no occurrence of it |
| `Replace.ReplaceAllLength` | ai_suggestion_go/main.go:79-80 | every replacement made by the left-to-right scan changes the length by exactly `|rep| - |pat|`, so deleting a label shortens the text by the label's length once per occurrence |
| `Replace.CountZeroIffAbsent` | ai_suggestion_go/main.go:79-80 | the scan replaces nothing exactly when the literal does not occur anywhere in the text |
| `Replace.ReplaceAbsent` | ai_suggestion_go/main.go:79-80 | replacing a literal that does not occur leaves the text unchanged |
| `Replace.ReplaceAllSubseq` | ai_suggestion_go/main.go:79-87 | when the replacement is a subsequence of the pattern (deletion, or "\n\n" to "\n"), the result is a subsequence of the input |
| `Replace.ReplaceShrinksIffPresent` | ai_suggestion_go/main.go:87 | replacing a literal by a shorter one never lengthens the text; it shortens it, and changes it at all, exactly when the literal occurs |
| `Replace.DeleteAllFacts` | ai_suggestion_go/main.go:79-80 | deleting a literal yields a subsequence, shortens by `|pat|` per occurrence, and changes the text exactly when the literal occurs |
| `Replace.ReplaceFirstMatch` | ai_suggestion_go/main.go:79-87 | for a non-empty pattern whose leftmost occurrence starts at `i`, the scan copies `s[..i]`, writes the replacement, and continues on the text after that occurrence |
| `Replace.ReplaceSkipClean` | ai_suggestion_go/main.go:80 | a prefix that does not contain the marker, and whose last character cannot be part of it, passes the scan unchanged |
| `Symbols.RunLength` | ai_suggestion_go/main.go:83 | the leftmost match of `[&{}#\[\]\*]+` at a position spans the maximal run of class characters there |
| `Symbols.StripRuns` | ai_suggestion_go/main.go:83-84 | deleting the regular expression's matches leaves no class character and never lengthens the text |
| `Symbols.StripRunsIsFilter` | ai_suggestion_go/main.go:83-84 | deleting maximal runs as units gives the same text as deleting each class character on its own |
| `Symbols.FilterMembers` | ai_suggestion_go/main.go:83-84 | the filtered text holds exactly the input's characters outside the class |
| `Symbols.FilterConcat` | ai_suggestion_go/main.go:83-84 | the filter works on each character independently, so it distributes over concatenation |
| `Symbols.FilterSubseq` | ai_suggestion_go/main.go:83-84 | the filter keeps the remaining characters in their original order |
| `Symbols.StripRunsDeletesSymbolsOnly` | ai_suggestion_go/main.go:83-84 | the regular-expression pass only deletes characters; it changes the text exactly when a class character is present, and then shortens it |
| `Symbols.NoSymbolsSubseq` | ai_suggestion_go/main.go:87-90 | the later steps only delete characters, so they cannot bring a class character back |
| `Whitespace.AsciiSpace` | ai_suggestion_go/main.go:90 | on ASCII, the `unicode.IsSpace` model holds exactly for tab, newline, vertical tab, form feed, carriage return and space, which is the byte table `strings.TrimSpace` consults first |
| `Whitespace.TrimSpace` | ai_suggestion_go/main.go:90 | the trimmed text neither starts nor ends with white space, and it is never longer than the input |
| `Whitespace.TrimSpaceErase` | ai_suggestion_go/main.go:90 | trimming deletes only white space: once white space is erased, the result and the input are the same text |
| `Whitespace.TrimLeft` | ai_suggestion_go/main.go:90 | the result is the longest suffix that does not start with white space, and everything dropped is white space |
| `Whitespace.TrimRight` | ai_suggestion_go/main.go:90 | the result is the longest prefix that does not end with white space, and everything dropped is white space |
| `Whitespace.TrimSpaceUnique` | ai_suggestion_go/main.go:90 | if `s` is white space before `i` and from `j` on, and `s[i..j]` has no outer white space, then trimming returns exactly `s[i..j]` |
| `Whitespace.TrimSpaceSubseq` | ai_suggestion_go/main.go:90 | trimming keeps a subsequence of its input |
| `Whitespace.TrimSpaceFixedIffNoOuterSpace` | ai_suggestion_go/main.go:90 | trimming changes the text exactly when it has outer white space, and then shortens it |
| `Sanitizer.RemovePartsLabel` | ai_suggestion_go/main.go:79 | step 1 only deletes characters, six per label occurrence. Every deleted character is a letter of the label, and the text changes exactly when "Parts:" occurs |
| `Sanitizer.RemoveRoleMarker` | ai_suggestion_go/main.go:80 | step 2 only deletes characters, ten per marker occurrence. Every deleted character is a letter of the marker, and the text changes exactly when "Role:model" occurs |
| `Sanitizer.LabelFirstOccurrence` | ai_suggestion_go/main.go:79 | step 1 keeps the text before the leftmost "Parts:", deletes that label, and deletes the later labels of the rest in the same way |
| `Sanitizer.MarkerFirstOccurrence` | ai_suggestion_go/main.go:80 | step 2 keeps the text before the leftmost "Role:model", deletes that marker, and treats the rest in the same way |
| `Sanitizer.StripSymbols` | ai_suggestion_go/main.go:83-84 | step 3 removes exactly the markup-symbol characters, keeps the rest in order, and changes the text exactly when one is present |
| `Sanitizer.CollapseParagraphBreaks` | ai_suggestion_go/main.go:87 | step 4 deletes one character per "\n\n" found by the scan. Once newlines are erased, the result and the input are the same text, so every deleted character is a newline. The text changes exactly when "\n\n" occurs |
| `Sanitizer.BreakFirstOccurrence` | ai_suggestion_go/main.go:87 | step 4 keeps the text before the leftmost "\n\n", turns that pair into one newline, and resumes after the pair |
| `Sanitizer.TrimOuterSpace` | ai_suggestion_go/main.go:90 | step 5 leaves no outer white space and deletes only white space. The text changes exactly when outer white space is present |
| `Sanitizer.PostProcessContent` | ai_suggestion_go/main.go:77-93 | the sanitised text has no markup symbol and no outer white space, and it is a subsequence of the input, so never longer. Once removable characters are erased, it is the same text as the input, so every other character survives in order. It equals the input exactly when the input is clean |
| `Sanitizer.SanitizeKeeps` | ai_suggestion_go/main.go:77-93 | if each step changes only its own class of characters, the five steps together change only removable characters |
| `Sanitizer.SanitizeFacts` | ai_suggestion_go/main.go:77-93 | the composed pipeline keeps the no-symbol property and the subsequence relation through all five steps, and is the identity exactly on clean text |
| `Sanitizer.OutputHasNoSymbols` | ai_suggestion_go/main.go:83-90 | no character of the output is one of `& { } # [ ] *`, whatever the input |
| `Sanitizer.CleanIsFixedPoint` | ai_suggestion_go/main.go:77-93 | text without label, marker, markup symbol, paragraph break or outer white space is returned unchanged |
| `Sanitizer.CollapseRun` | ai_suggestion_go/main.go:87 | a run of k newlines not followed by another newline becomes ⌈k/2⌉ newlines, and the rest is processed on its own |
| `Sanitizer.ThreeNewlinesKeepADouble` | ai_suggestion_go/main.go:87 | step 4 can leave a doubled newline: "a\n\n\nb" becomes "a\n\nb" |
| `SanitizerExamples.TwoParagraphReply` | ai_suggestion_go/main.go:77-93 | a reply rendered as `Parts:[{T1\n\n#T2}] Role:model`, with plain paragraphs T1 and T2, is sanitised to `T1\nT2` |
| `SanitizerExamples.WorkedExample` | ai_suggestion_go/main.go:77-93 | "Parts:[{Text: Stay hydrated.\n\n#Rest well.}] Role:model" is sanitised to "Text: Stay hydrated.\nRest well." |
| `SanitizerExamples.GoRenderedReply` | ai_suggestion_go/main.go:68-69 | the `%+v` rendering `&{Parts:[T1\n\n#T2] Role:model}` of a reply with plain paragraphs T1 and T2 is sanitised to `T1\nT2` |
| `SanitizerExamples.WorkedExampleAsRendered` | ai_suggestion_go/main.go:68-69 | "&{Parts:[Text: Stay hydrated.\n\n#Rest well.] Role:model}" is sanitised to "Text: Stay hydrated.\nRest well." |
| `SanitizerExamples.LinesAroundNewlineRun` | ai_suggestion_go/main.go:87-90 | between two plain lines, the whole sanitiser turns a run of k newlines into ⌈k/2⌉ newlines and changes nothing else |
| `SanitizerExamples.NotIdempotentOnNewlineRun` | ai_suggestion_go/main.go:77-93 | sanitising "a\n\n\nb" gives "a\n\nb", and a second pass changes that again |
| `SanitizerExamples.NotIdempotentOnNestedLabel` | ai_suggestion_go/main.go:79 | "PaParts:rts:" is sanitised to "Parts:", which a second pass deletes to "" |
| `SanitizerExamples.LabelAssembledBySymbolStrip` | ai_suggestion_go/main.go:79-84 | "Par#ts:" contains no label, yet it is sanitised to "Parts:" |

## Left out

- `GetHealthSuggestion` (ai_suggestion_go/main.go:31-74) is left out. It loads
  the `.env` file, reads the API key from the environment, builds the Gemini
  client, calls the network and renders the SDK's response with `%+v`. All of
  these are I/O or calls into code this model cannot see. The model starts from
  the rendered string.
- The prompt text (ai_suggestion_go/main.go:51-58) is left out. It depends on
  `%.1f` floating-point formatting and is only a template.
- `suggestionHandler` and `main` (ai_suggestion_go/main.go:96-119) are left out.
  They cover JSON decoding, HTTP status codes, response encoding and the
  listener.
- ai_suggestion_rust/src/main.rs is left out. It is HTTP client and server
  plumbing with serde types, and it has no sanitiser: it only returns the first
  choice or a default text.
- Go strings are UTF-8 bytes, and the model works on Unicode scalar values. On
  valid UTF-8 the two views agree: the markers and symbols are ASCII, and rune
  boundaries are character boundaries, including in the empty-pattern case of
  `ReplaceAll`. The model does not cover invalid UTF-8. There `TrimSpace`
  decodes bad bytes as U+FFFD, and the empty-pattern case splits the text at
  byte positions.
- Sanitiser idempotence is not claimed, because the code does not have it (see
  the lemmas above).
- Replace.ReplaceFirstMatch: stated for non-empty patterns only. Go handles
  the empty pattern in a separate branch, which `Interleave` models.
- Sanitizer.PostProcessContent: the clause on kept characters counts every
  letter of "Parts:" and "Role:model" as removable. So it does not say that
  such a letter survives when it is outside a deleted occurrence, and no
  single character class can describe the composition more tightly. The step
  contracts alone say only which class each step deletes from and how many
  characters go. Which characters go is fixed by separate lemmas:
  `LabelFirstOccurrence`, `MarkerFirstOccurrence` and `BreakFirstOccurrence`
  for steps 1, 2 and 4 (with the unchanged-when-absent clauses),
  `StripSymbols`' equality with `Filter` for step 3, and `TrimSpaceUnique` for
  step 5.
