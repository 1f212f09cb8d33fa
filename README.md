# neural-repair-static-analysis: the datapoint pipeline, modelled in Dafny

The pipeline turns one record into a pair of fixed-size token texts. The
record is an analysed C# source file, the analyser's diagnostics on it, and
the parsed diff that fixed them. The pair is the input and output of a neural
repair model. This project models the steps of that pipeline that are plain
list, integer and string work, in both its implementations.

- **Python version:**
  - The unifying rules choose the analysis file and de-duplicate diagnostic
    occurrences. They assign each diagnostic to one diff batch, and compute the
    required-line range and the readable file-context bounds.
  - The tokenizing pipeline splits the token stream into lines and selects the
    tokens of the required lines. It grows them into a window of a fixed token
    budget and maps token indices back to line numbers. It applies the
    ADD/REMOVE/REPLACE action to the file and computes the target line indices.
    It lower-cases the diagnostic message and shifts every line reference by
    the window's first line.
  - The finalize step flattens a datapoint into one space-separated line of
    words.
  - The evaluation step recreates code from predicted words.
  - The lexer layer maps one-character whitespace tokens to the sentinels
    `WHITESPACE`/`NEWLINE`/`TAB`. It also has the camel-case word rules of
    `LanguageLexer` and the C# formatting and Number rules.
- **C# prototypes:**
  - the in-place context-growing loop and line-list diff application of `Utils`;
  - the VAR renaming with a shared dictionary, the diff application and the
    code-chunk validity test of `Pipeline`;
  - the span-indexed token table `TokenIndex`.

One Dafny module per file:

- Supporting modules:
  - `Wrappers`: `Option`.
  - `Strings`: Python `str.split(sep)`, `split()`, `join`, `str(int)`, `rstrip('\n')` and ASCII `lower`.
  - `PyList`: Python slicing, slice assignment and index filtering.
  - `Tokens`, `Datapoint`: the records.
- Python steps:
  - `Lexer`;
  - `LineTokens`;
  - `ContextWindow`;
  - `FileDiff`;
  - `Message`;
  - `LineOffset`: a class for the datapoint that is updated in place;
  - `Flatten`;
  - `Recreate`;
  - `Unify`.
- C# prototypes:
  - `CsLists`: `List<T>` as a class, with its throwing index checks as preconditions;
  - `CsSyntax`: the token fields the prototypes read;
  - `CsUtils`;
  - `CsPipeline`;
  - `CsTokenIndex`.

Loops and in-place updates in the source are methods with loop invariants. Each
is proved equal to a specification function, and the properties are lemmas
about those functions. Where the code throws (an index out of range, `First()`
of an empty list, `Substring` without a newline), the model makes that a
precondition. The `Fits` predicates say exactly when no exception occurs; the
one method that asks for more than its `Fits` predicate is listed under
"## Left out". Line numbers are 1-based where the source's are.

Two places where the model departs in form from the code:

- `match_diff_batches_to_diagnostics` iterates the module-level list rather
  than its `diagnostics` parameter. The model uses the parameter, because the
  two are the same object at the one call site.
- The C# `Utils.ApplyParsedDiff` REPLACE loop removes shifted lines (Finding 2).

## Model

| member | source | states |
|---|---|---|
| Strings.Split | tokenizing_unified_dataset.py:128 | `s.split(sep)` always has at least one part |
| Strings.JoinSplit | tokenizing_unified_dataset.py:128-164 | joining the parts of `split(sep)` with `sep` gives back the file, so a diff that changes nothing gives back the original file |
| Strings.Words | evaluate_nn_results.py:68 | `split()` yields non-empty words without whitespace |
| Strings.WordsOfJoin | evaluate_nn_results.py:68 | words joined by single spaces split back into the same words |
| Strings.WordsOfSpaced | evaluate_nn_results.py:68 | words separated by any non-empty whitespace gaps split back into the same words |
| Strings.IntToString | finalize_tokenized_dataset.py:50 | `str(i)` is non-empty digits with an optional leading minus |
| Strings.IntToStringRoundTrip | finalize_tokenized_dataset.py:50 | `str(i)` is read back as `i` |
| Strings.NatToStringInjective | SourceCodeTokenizer/Pipeline.cs:515 | distinct counts give distinct numerals |
| Strings.Chars | finalize_tokenized_dataset.py:87 | `list.extend(str)` adds one one-character string per character |
| Strings.RStripNewlines | tokenizing_unified_dataset.py:134-135 | `rstrip('\n')` drops exactly the trailing newlines, leaving a prefix of the line |
| Strings.Lower | tokenizing_unified_dataset.py:315 | ASCII `lower()` keeps length and lowers each character |
| PyList.Slice | tokenizing_unified_dataset.py:72 | a Python slice inside the bounds is the Dafny subsequence; it is never longer than the list |
| PyList.InsertAt | tokenizing_unified_dataset.py:139-140 | slice assignment `s[i:i] = items` puts `items` before the normalised index and shifts the rest |
| PyList.DropIndices | tokenizing_unified_dataset.py:147-148 | the enumerate-filter comprehension never lengthens the list |
| PyList.DropMembers | tokenizing_unified_dataset.py:147-148 | an element survives the filter iff it sits at an index that is not dropped |
| PyList.DropRange | tokenizing_unified_dataset.py:146-148 | dropping exactly the indices `lo <= j < end` cuts that block out |
| PyList.DropSplit | tokenizing_unified_dataset.py:147-148 | filtering a list is filtering its prefix and its suffix, the suffix with indices shifted by the split point |
| Lexer.Sentinel | regex_lexer_camelcase.py:16-26 | index and kind are kept; only a one-character Text value changes, into a sentinel word |
| Lexer.PostProcess | regex_lexer_camelcase.py:13-28 | exactly one output per input token, each the sentinel mapping of its input |
| Lexer.LanguageRule | regex_lexer_camelcase.py:41-57 | the first matching root rule consumes at least one character of the rest |
| Lexer.FirstToken | regex_lexer_camelcase.py:41-57 | the first token is a non-empty prefix of the text at the current offset; only Name tokens can be longer than one character |
| Lexer.LexWith | regex_lexer_camelcase.py:40-58 | lexing with any rule table whose first match always advances gives only non-empty tokens |
| Lexer.LexWithLossless | regex_lexer_camelcase.py:40-58 | for any such rule table, the token values concatenate back to the input |
| Lexer.LexLanguageFrom | regex_lexer_camelcase.py:40-58 | every token of the camel-case table is non-empty |
| Lexer.LanguageTokenLengths | regex_lexer_camelcase.py:50-56 | every token that is not a Name is one character long |
| Lexer.LexLanguageLossless | regex_lexer_camelcase.py:40-58 | the token values concatenate back to the input |
| Lexer.SingleCharacterTokens | regex_lexer_camelcase.py:51-56 | a whitespace, punctuation or digit character lexes as one token of kind Text, Punctuation or Number |
| Lexer.CamelCaseCutsAtBoundaries | regex_lexer_camelcase.py:38-47 | in a run of letters, the rules cut exactly at the `camelCase` lookaround boundaries |
| Lexer.LetterStartsName | regex_lexer_camelcase.py:44-47 | text that starts with a letter starts with a Name token |
| Lexer.LettersAreNames | regex_lexer_camelcase.py:44-47 | a run of letters lexes to Name tokens only |
| Lexer.LowerWordFirst | regex_lexer_camelcase.py:46 | a lowercase run is one piece |
| Lexer.CapitalisedWordFirst | regex_lexer_camelcase.py:45 | a capital followed by lowercase letters is one piece |
| Lexer.AcronymFirst | regex_lexer_camelcase.py:44 | an uppercase run stops before an Upper+lower pair |
| Lexer.AcronymThenWord | regex_lexer_camelcase.py:44-45 | an acronym followed by a capitalised word gives the two pieces |
| Lexer.CapitalisedAlone | regex_lexer_camelcase.py:45 | a capitalised word alone is a single Name token |
| Lexer.CamelWordSplit | regex_lexer_camelcase.py:44-47 | lower + acronym + capitalised word splits into exactly those three pieces |
| Lexer.CamelCaseExample | regex_lexer_camelcase.py:203 | `eclipseRCPExt` gives `eclipse`, `RCP`, `Ext` |
| Lexer.LexCSharpBlank | regex_lexer_camelcase.py:77-89 | whitespace lexes to one Text token per character, at consecutive indices |
| Lexer.CSharpFormattingRule | regex_lexer_camelcase.py:76-89 | the formatting rules of the C# root state take a whitespace character or a line continuation as `Text`, consuming at least one character |
| Lexer.FormattingRulesLexBlank | regex_lexer_camelcase.py:76-89 | the lexer loop over the formatting rules gives exactly `LexCSharpBlank` on whitespace |
| Lexer.SpacesBecomeWhitespaceTokens | regex_lexer_camelcase.py:16-18 | n spaces become n `WHITESPACE` tokens |
| Lexer.BlankNewlineCount | regex_lexer_camelcase.py:21-22 | blank text gives as many `NEWLINE` tokens as it has newline characters |
| Lexer.NumberRuleLength | regex_lexer_camelcase.py:108-109 | the Number rule matches between one character and the rest of the text |
| Lexer.DigitsLexSeparately | regex_lexer_camelcase.py:108-109 | a run of digits is lexed one digit per token |
| Lexer.NumberExample | regex_lexer_camelcase.py:108-109 | `302` lexes as `3`, `0`, `2` |
| Lexer.HexAlternativeShadowed | regex_lexer_camelcase.py:108-109 | the hexadecimal alternative is never reached: `0x1F` matches only `0` |
| LineTokens.Lines | tokenizing_unified_dataset.py:57-67 | one more line than there are `NEWLINE` tokens |
| LineTokens.FlattenLines | tokenizing_unified_dataset.py:57-67 | concatenating the lines gives back the stream |
| LineTokens.LinesWellFormed | tokenizing_unified_dataset.py:57-67 | every line but the last ends with exactly one `NEWLINE` and holds no other; the last holds none |
| LineTokens.SplitTokensByLine | tokenizing_unified_dataset.py:57-67 | the appending loop computes `Lines` |
| LineTokens.RequiredTokens | tokenizing_unified_dataset.py:68-78 | the tokens of the lines `line_tokens[start:end + 1]` under Python slice rules, flattened in order; `RequiredIsSlice` and `RequiredFollowsCount` state where they sit in the stream |
| LineTokens.TokensInLines | tokenizing_unified_dataset.py:80-87 | the summed lengths of the lines `line_tokens[start:start + num]`; `RequiredFollowsCount` ties it to the position of the required tokens |
| LineTokens.GetRequiredTokens | tokenizing_unified_dataset.py:69-80 | the flattening loop yields the tokens of lines `start..end` |
| LineTokens.CountTokensInLines | tokenizing_unified_dataset.py:82-88 | the counting loop sums the lengths of the selected lines |
| LineTokens.LinesPrefix | tokenizing_unified_dataset.py:82-88 | the tokens of the first k lines are the first `count_tokens_in_lines(t, 0, k)` tokens |
| LineTokens.RequiredIsSlice | tokenizing_unified_dataset.py:69-88 | the required tokens are the contiguous slice from `count(0, start)` to `count(0, end+1)` |
| LineTokens.GetLineNumberByTokenIdx | tokenizing_unified_dataset.py:115-124 | the loop counts the `NEWLINE` tokens strictly before the index |
| LineTokens.NewlinesBefore | tokenizing_unified_dataset.py:115-124 | the `NEWLINE` tokens strictly before the index, or all of them when the index is outside the stream; `LineOfLineStart` states that a line's first token maps back to that line |
| LineTokens.LineOfLineStart | tokenizing_unified_dataset.py:115-124 | the first token of line k is on line k |
| ContextWindow.Grow | tokenizing_unified_dataset.py:97-111 | the alternating tie-break of the growing loop, as the window bounds it stops at; `GrowBounds` states its bounds and length |
| ContextWindow.GrowBounds | tokenizing_unified_dataset.py:97-111 | the window only widens, stays inside the stream, and ends with `min(core + budget, n)` tokens |
| ContextWindow.GrowExample | tokenizing_unified_dataset.py:97-111 | a 10-token stream with core `[4]` and budget 4 gives the window 3..6 |
| ContextWindow.AddContextToTokens | tokenizing_unified_dataset.py:90-113 | result is a contiguous slice of the stream around the core, of length `max(core, min(budget, n))`, at the tie-break's bounds |
| ContextWindow.PadLines | tokenizing_unified_dataset.py:246-262 | no window iff the tokens of the required lines exceed the budget; otherwise a contiguous slice of the file tokens, of length max(required, min(budget, file)), that holds the required tokens at offset `count_tokens_in_lines(0, start)` |
| ContextWindow.PadRequiredTokens | tokenizing_unified_dataset.py:246-262 | for every pair of 1-based line numbers (no precondition), the window of lines `start - 1 .. end - 1` as the source indexes them, negative indices included |
| LineTokens.RequiredFollowsCount | tokenizing_unified_dataset.py:68-87 | for any bounds, the required tokens are the file tokens starting at the count of tokens in the lines before the start |
| ContextWindow.StartZeroMissesRequiredLines | tokenizing_unified_dataset.py:246-259 | with required-lines start 0 the slice starts at index -1: no required tokens, and the window is anchored at the start of the last line |
| ContextWindow.FirstLineStartsRequired | tokenizing_unified_dataset.py:68-78 | the required tokens of lines from index 0 begin with the tokens of the first line |
| ContextWindow.PadRequiredTokensCorrected | tokenizing_unified_dataset.py:246-262 | with the start index clamped at 0, the window of a range covering line 1 begins at token 0 and holds the first line |
| FileDiff.StripAll | tokenizing_unified_dataset.py:134-135 | every target line is right-stripped of newlines |
| FileDiff.DiffedLines | tokenizing_unified_dataset.py:130-162 | ADD inserts the stripped targets at the slice position, REMOVE drops lines `Start..End`, REPLACE drops the listed lines and inserts at the first location; the lemmas `AddInsertsAfter`, `RemoveCutsRange`, `ReplaceSwapsRange` and `ReplaceKeepsPrefix` state the effect of each |
| FileDiff.ApplyDiffToFile | tokenizing_unified_dataset.py:126-164 | the diffed file is the edited line list joined by `"\n"` |
| FileDiff.AddInsertsAfter | tokenizing_unified_dataset.py:132-140 | ADD puts the stripped targets right after line `PreviousSourceLocation` and keeps the lines around them |
| FileDiff.AddExample | tokenizing_unified_dataset.py:132-140 | `["a","b","c"]` with prev 1 and `["X"]` gives `["a","X","b","c"]` |
| FileDiff.RemoveCutsRange | tokenizing_unified_dataset.py:142-148 | REMOVE drops exactly the 1-based lines Start..End |
| FileDiff.RemoveExample | tokenizing_unified_dataset.py:142-148 | `["a","b","c","d"]` with 2..3 gives `["a","d"]` |
| FileDiff.ConsecutiveDropCutsBlock | tokenizing_unified_dataset.py:154-156 | dropping consecutive listed lines cuts out exactly that block |
| FileDiff.ReplaceSwapsRange | tokenizing_unified_dataset.py:150-162 | REPLACE of consecutive lines swaps them for the stripped targets |
| FileDiff.ReplaceKeepsPrefix | tokenizing_unified_dataset.py:150-162 | REPLACE keeps the lines before the first location, puts the stripped targets there, and follows them with the later lines less every listed one |
| FileDiff.EmptyAddKeepsFile | tokenizing_unified_dataset.py:126-164 | ADD of no lines gives back the original file text |
| FileDiff.EmptyRemoveKeepsFile | tokenizing_unified_dataset.py:126-164 | REMOVE of an empty range gives back the original file text |
| FileDiff.AddTargetIndices | tokenizing_unified_dataset.py:166-177 | the ADD range has one index per target, and those lines of the diffed file are the stripped targets |
| FileDiff.ReplaceTargetIndices | tokenizing_unified_dataset.py:179-184 | the REPLACE range has one index per target, and those lines of the diffed file are the stripped targets |
| Message.LowerWords | tokenizing_unified_dataset.py:315-316 | each word is lowered unless it starts with `'` |
| Message.LowercaseMessage | tokenizing_unified_dataset.py:315-318 | the message split at single spaces, each word lowered unless it starts with a quote, re-joined with spaces; `LowercaseWords`, `LowercaseKeepsLength` and `LowercaseIdempotent` state its properties |
| Message.LowercaseWords | tokenizing_unified_dataset.py:315-318 | the re-joined message splits back into the lowered words |
| Message.LowercaseKeepsLength | tokenizing_unified_dataset.py:315-318 | lowering does not change the message's length |
| Message.LowerWordIdempotent | tokenizing_unified_dataset.py:315-316 | lowering a word twice is lowering it once |
| Message.LowercaseIdempotent | tokenizing_unified_dataset.py:315-318 | lowering a message twice is lowering it once |
| LineOffset.ShiftDiagnostic | tokenizing_unified_dataset.py:194-195 | only the line moves, by the offset |
| LineOffset.ShiftDiagnostics | tokenizing_unified_dataset.py:194-195 | every diagnostic is shifted, order and count kept |
| LineOffset.ShiftLocations | tokenizing_unified_dataset.py:203-204 | every REPLACE location moves by the offset |
| LineOffset.ShiftAction | tokenizing_unified_dataset.py:197-207 | the kind stays; exactly the location fields of that kind move; target lines untouched |
| LineOffset.DatapointRecord.SubtractLineOffset | tokenizing_unified_dataset.py:192-207 | the record's diagnostics and action are shifted in place; the other fields do not change |
| LineOffset.DatapointRecord.RebaseOnWindow | tokenizing_unified_dataset.py:333-337 | the context start becomes the window's first line + 1, and every line reference is shifted by it |
| LineOffset.ShiftComposes | tokenizing_unified_dataset.py:192-207 | shifting by x then y is shifting by x + y (so applying it twice is not idempotent) |
| LineOffset.ShiftFixesActionIff | tokenizing_unified_dataset.py:197-207 | a shift leaves an action unchanged iff the offset is 0 or it is a REPLACE without locations |
| LineOffset.ShiftFixesDiagnosticsIff | tokenizing_unified_dataset.py:194-195 | a shift leaves a non-empty diagnostic list unchanged iff the offset is 0 |
| LineOffset.ShiftKeepsDifferences | tokenizing_unified_dataset.py:192-207 | the differences between line references are kept |
| LineOffset.RebaseOnLineStart | tokenizing_unified_dataset.py:333-336 | a window starting at line k's first token shifts every line by k + 1 |
| Flatten.IntStrings | finalize_tokenized_dataset.py:78-79 | one `str` word per location, in order |
| Flatten.InputWords | finalize_tokenized_dataset.py:44-57 | each diagnostic as `LINE n MESSAGE words`, then `FILE_CONTENT` and the context words; `InputLayout` and `InputNewlineIff` state its layout |
| Flatten.FlattenInputDatapoint | finalize_tokenized_dataset.py:44-57 | the loop and join give the input words joined by spaces plus `"\n"` |
| Flatten.LocationNumerals | finalize_tokenized_dataset.py:78-79 | the loop gives one `str` word per location, in order |
| Flatten.OutputList | finalize_tokenized_dataset.py:61-89 | the list the branches build is exactly the output words of the action |
| Flatten.DecodeAdd | finalize_tokenized_dataset.py:66-72 | ADD words decode back to the previous location and the tokenized targets |
| Flatten.DecodeReplace | finalize_tokenized_dataset.py:74-81 | REPLACE words decode back to the locations and the tokenized targets |
| Flatten.DecodeRemove | finalize_tokenized_dataset.py:83-89 | REMOVE words, with both numbers spread into digits, decode back to start and end |
| Flatten.OutputWords | finalize_tokenized_dataset.py:60-91 | the action's keyword, its locations (REMOVE numerals one word per character) and the target words; `DecodeOutputRoundTrip` inverts it |
| Flatten.FlattenOutputDatapoint | finalize_tokenized_dataset.py:60-91 | the loop and join give the output words joined by spaces plus `"\n"` |
| Flatten.SingleNewlineIff | finalize_tokenized_dataset.py:57 | the text ends in `"\n"` and has exactly one `"\n"` iff no word contains one |
| Flatten.DiagWordsNewlineFree | finalize_tokenized_dataset.py:47-52 | the diagnostic words are newline-free iff every tokenized message is |
| Flatten.InputNewlineIff | finalize_tokenized_dataset.py:44-57 | one `"\n"` in the input line iff messages and file context are newline-free |
| Flatten.OutputNewlineIff | finalize_tokenized_dataset.py:60-91 | one `"\n"` in the output line iff it is a REMOVE or the tokenized targets are newline-free |
| Flatten.OutputWordsNewlineFree | finalize_tokenized_dataset.py:63-89 | the output words are newline-free iff REMOVE or the tokenized targets are |
| Flatten.InputLayout | finalize_tokenized_dataset.py:47-55 | each datapoint starts `LINE <line> MESSAGE …`; with no diagnostics, `FILE_CONTENT` then the context |
| Flatten.DecodeOutputRoundTrip | finalize_tokenized_dataset.py:63-91 | the output words decode back to the action kind, its locations and its tokenized targets |
| Flatten.OutputDeterminesAction | finalize_tokenized_dataset.py:63-91 | equal output words mean the same kind, locations and tokenized targets |
| Flatten.WordsFromLine | finalize_tokenized_dataset.py:57 | the line without its `"\n"` splits at spaces back into the words |
| Flatten.RemoveOutputExample | finalize_tokenized_dataset.py:83-89 | REMOVE 12..13 spells the numbers digit by digit: `1 2` and `1 3` |
| Recreate.DesentinelAll | evaluate_nn_results.py:69-76 | every word is mapped on its own |
| Recreate.Recreated | evaluate_nn_results.py:66-77 | the concatenated de-sentinelled words of `code.split()`; `RecreateInvertsSentinels` states that it inverts the lexer's sentinels |
| Recreate.RecreateCode | evaluate_nn_results.py:66-77 | the accumulating loop concatenates the de-sentinelled words of `split()` |
| Recreate.BlankRecreatesEmpty | evaluate_nn_results.py:66-77 | empty or all-whitespace input gives `""` |
| Recreate.DesentinelLength | evaluate_nn_results.py:69-76 | the length is 1 per sentinel plus the length of every other word |
| Recreate.RecreatedLength | evaluate_nn_results.py:66-77 | the result's length is that cost of the split words |
| Recreate.SeparatorsDoNotMatter | evaluate_nn_results.py:68 | inputs differing only in their separating whitespace recreate to the same code |
| Recreate.SentinelValues | regex_lexer_camelcase.py:16-26 | one sentinel-mapped value per token |
| Recreate.DesentinelInverts | evaluate_nn_results.py:69-76 | de-sentinelling undoes the lexer's sentinel mapping for recoverable tokens |
| Recreate.RecreateInvertsSentinels | evaluate_nn_results.py:66-77 | `recreate_code(" ".join(sentinel values))` gives back the concatenated token values |
| Recreate.SentinelSpellingCollides | evaluate_nn_results.py:73-74 | a Name token spelled `TAB` comes back as a tab character |
| Recreate.CarriageReturnLost | evaluate_nn_results.py:68 | `"\r"` only separates words and is lost |
| Unify.SameOccurrence | unifying_raw_dataset.py:96-105 | the duplicate test on message, line and character; `SameOccurrenceIsEquality` states that it is equality |
| Unify.SameOccurrenceIsEquality | unifying_raw_dataset.py:96-105 | the duplicate test holds iff message, line and character all agree |
| Unify.DedupOccurrences | unifying_raw_dataset.py:315-323 | no two kept occurrences are equal, every incoming one is represented, first-seen order is kept |
| Unify.AnalysisFileMatches | unifying_raw_dataset.py:75-93 | the name less its last four characters split at `__`: no result (the unpack error) unless four fields, else whether repo, solution and NuGet fields match; the three lemmas after it state this |
| Unify.AnalysisFileMatchesFields | unifying_raw_dataset.py:75-93 | a four-field name is accepted iff repo, solution and NuGet fields match |
| Unify.AnalysisFileIgnoresCommit | unifying_raw_dataset.py:84-88 | the commit field does not affect the verdict |
| Unify.AnalysisFileWithoutFieldsRaises | unifying_raw_dataset.py:86-87 | a name without `__` fails the four-way unpacking |
| Unify.FirstReplaceFrom | unifying_raw_dataset.py:135-138 | finds the first REPLACE batch listing the line, or none |
| Unify.FirstRemoveFrom | unifying_raw_dataset.py:141-145 | finds the first REMOVE batch whose range holds the line, or none |
| Unify.FirstAddFrom | unifying_raw_dataset.py:154-168 | finds the first ADD batch right above the line that is not flagged False, or none |
| Unify.MatchOne | unifying_raw_dataset.py:134-176 | flags only grow, only the chosen ADD batch's flag changes, and every key is valid |
| Unify.Trace | unifying_raw_dataset.py:132-185 | one decision per diagnostic, every key valid |
| Unify.MatchOneDiagnostic | unifying_raw_dataset.py:134-180 | the loop cascade computes `MatchOne` |
| Unify.MatchDiffBatchesToDiagnostics | unifying_raw_dataset.py:108-187 | the dict is the grouping of the diagnostics by their decisions |
| Unify.MatchPriority | unifying_raw_dataset.py:134-176 | REPLACE iff some REPLACE lists the line, the first such; REMOVE only if no REPLACE does, the first covering one; ADD only if neither: the first eligible ADD above, else, only when none above is eligible, the first ADD below; dropped only if nothing matched |
| Unify.FlaggedBelowSkipped | unifying_raw_dataset.py:159-164 | an ADD batch flagged False is not chosen as the batch above |
| Unify.GroupAt | unifying_raw_dataset.py:182-185 | a key is present iff some diagnostic chose it, and it holds exactly those diagnostics in input order |
| Unify.GroupIsSelection | unifying_raw_dataset.py:182-185 | the same for all keys at once: so lists keep input order and no diagnostic is in two lists |
| Unify.MinOf | unifying_raw_dataset.py:365 | `min` is a member no larger than any other |
| Unify.MaxOf | unifying_raw_dataset.py:367 | `max` is a member no smaller than any other |
| Unify.RequiredLines | unifying_raw_dataset.py:362-387 | the range starts at the first diff line or a diagnostic, covers every diagnostic, and ends at the truthy last diff line or the last diagnostic |
| Unify.RequiredCoversDiff | unifying_raw_dataset.py:369-384 | for REPLACE and REMOVE the range covers every changed line |
| Unify.ContextBounds | unifying_raw_dataset.py:392-402 | corrected: the start is within `LINE_DELTA` above the first required line and at least 1; the end within `LINE_DELTA` below and at most the line count |
| Unify.FileContextCoversRequired | unifying_raw_dataset.py:404-407 | with the corrected bounds the file context holds every required line, in place |
| Unify.ContextBoundsAgree | unifying_raw_dataset.py:392-402 | the written and corrected bounds agree unless only the first diagnostic lies beyond `LINE_DELTA` |
| Unify.ContextBoundsAsWritten | unifying_raw_dataset.py:394-402 | as written: the start test reads the first diagnostic line, the subtraction the first required line; `ContextBoundsAgree` and `ContextStartBelowOne` state when this goes wrong |
| Unify.FileContext | unifying_raw_dataset.py:407 | `file_list[starting_line - 1:ending_line]` under Python slice rules; `FileContextCoversRequired` and `ContextStartBelowOne` state what it holds |
| Unify.ContextStartBelowOne | unifying_raw_dataset.py:392-407 | as written, lines 2..5 of a 100-line file give start -1 and an empty file context |
| CsLists.CsList.Add | SourceCodeTokenizer/Utils.cs:273 | appends one element |
| CsLists.CsList.Insert | SourceCodeTokenizer/Utils.cs:44 | inserts before the index; the index may equal the length |
| CsLists.CsList.RemoveAt | SourceCodeTokenizer/Utils.cs:37 | removes one element; the later ones move down |
| CsLists.CsList.RemoveRange | SourceCodeTokenizer/Utils.cs:61 | removes `count` elements from `index` |
| CsLists.RemovedAt | SourceCodeTokenizer/Utils.cs:37 | one shorter; earlier elements stay, later ones move down by one |
| CsLists.RemovedEach | SourceCodeTokenizer/Utils.cs:35-38 | a sequence of in-range removals shortens the list by their number |
| CsLists.Descending | SourceCodeTokenizer/Utils.cs:35-38 | the indices `hi, hi-1, …, lo`, in that order, and as many as the range holds |
| CsLists.RemovedEachDescending | SourceCodeTokenizer/Utils.cs:35-38 | removing a block of in-range indices in descending order never throws and cuts out exactly that block |
| CsLists.RemovedEachMembers | SourceCodeTokenizer/Utils.cs:35-38 | what survives the removals was in the list |
| CsLists.InsertedBlock | SourceCodeTokenizer/Utils.cs:41-45 | inserting a block lengthens the list by its size |
| CsLists.InsertEach | SourceCodeTokenizer/Utils.cs:41-45 | inserting item i at `at + i`, in order, inserts one block |
| CsLists.RemoveEach | SourceCodeTokenizer/Utils.cs:35-38 | the `RemoveAt` loop performs the removals in order |
| CsSyntax.Identifier | SourceCodeTokenizer/Pipeline.cs:519 | a new identifier token with the given name, at position 0 |
| CsSyntax.DetachedToken | SourceCodeTokenizer/TokenIndex.cs:33 | a new token with the given kind, text and value, at position 0; only for the kinds `SyntaxFactory.Token` accepts (not identifiers, numeric or character literals, for which it throws) |
| CsUtils.LastIndexOf | SourceCodeTokenizer/Utils.cs:43 | the last position of the character, or -1 |
| CsUtils.BeforeLastNewline | SourceCodeTokenizer/Utils.cs:43 | the prefix up to the last `"\n"`, which ends the text except for non-newline characters |
| CsUtils.BeforeLastNewlineDropsTail | SourceCodeTokenizer/Utils.cs:43 | the truncation drops exactly what follows the last `"\n"` |
| CsUtils.BeforeLastNewlines | SourceCodeTokenizer/Utils.cs:41-45 | every target line is truncated |
| CsUtils.ZeroBased | SourceCodeTokenizer/Utils.cs:37 | every location minus 1 |
| CsUtils.AppliedLines | SourceCodeTokenizer/Utils.cs:27-83 | the line list after the action as written: sequential `RemoveAt(loc - 1)`, then the truncated targets inserted from `First() - 1`; REMOVE cuts `Start..End`; ADD inserts after the location; `RemoveAgreesWithPython`, `AddAgreesWithPython` and `ReplaceRemovesShiftedLines` compare it with the Python |
| CsUtils.ApplyParsedDiff | SourceCodeTokenizer/Utils.cs:27-83 | the result is the edited line list joined by `"\n"`, whenever no call throws |
| CsUtils.RemoveAgreesWithPython | SourceCodeTokenizer/Utils.cs:56-62 | REMOVE agrees with the Python version on every in-range input |
| CsUtils.AddAgreesWithPython | SourceCodeTokenizer/Utils.cs:63-71 | ADD agrees with the Python version for target lines that are one line ending in `"\n"` |
| CsUtils.ReplaceRemovesShiftedLines | SourceCodeTokenizer/Utils.cs:35-38 | as written: `[4,5]` removes original lines 4 and 6, and `[5,6]` of six lines throws |
| CsUtils.DescendingRemovalCutsBlock | SourceCodeTokenizer/Utils.cs:35-38 | sequential removal cuts out a block when the locations go down |
| CsUtils.IntendedReplaceSwapsBlock | SourceCodeTokenizer/Utils.cs:32-46 | corrected: REPLACE of consecutive lines swaps them for the truncated targets |
| CsUtils.CsGrow | SourceCodeTokenizer/Utils.cs:258-286 | where the C# growing loop stops, with its `Count` break; `CsGrowBounds` states its bounds |
| CsUtils.CsGrowBounds | SourceCodeTokenizer/Utils.cs:258-286 | the start never increases and the end never decreases; the list grows by exactly `missingTokens` unless the break fires, which it cannot below `Count` |
| CsUtils.AddContextTokensToListOfTokens | SourceCodeTokenizer/Utils.cs:246-289 | the same list object comes back, now the prepended tokens + the old list + the appended tokens; with no missing tokens it is unchanged, whatever the positions |
| CsUtils.ContextOverrunsEnd | SourceCodeTokenizer/Utils.cs:260-274 | as written, two small inputs index past the end, where the Python loop prepends instead |
| CsUtils.AddContextTokensCorrected | SourceCodeTokenizer/Utils.cs:258-286 | corrected: bounded by the stream, grows by `min(core + missing, n) - core` |
| CsPipeline.RenameAll | SourceCodeTokenizer/Pipeline.cs:526 | one renamed token per token |
| CsPipeline.Rename | SourceCodeTokenizer/Pipeline.cs:503-524 | one renaming step: a non-`VAR` token is kept, a known name reuses its entry, a new name gets `VAR` plus the map size; `RenameGrows` states how the map changes |
| CsPipeline.GenerateNewTokenName | SourceCodeTokenizer/Pipeline.cs:503-524 | renames one token and records a new name in the shared map |
| CsPipeline.ZeroIndexVariableNames | SourceCodeTokenizer/Pipeline.cs:500-529 | renames the tokens in order, updating the shared map |
| CsPipeline.ZeroIndexVariableNamesOfTokens | SourceCodeTokenizer/Pipeline.cs:564-598 | returns an empty sequence and the map from renaming every token |
| CsPipeline.RenameGrows | SourceCodeTokenizer/Pipeline.cs:511-517 | the map keeps its entries, and gains at most one, for a VAR identifier |
| CsPipeline.RenameAllMap | SourceCodeTokenizer/Pipeline.cs:503-528 | the map only grows, by VAR identifiers of the input, at most one per token |
| CsPipeline.RenameAllTokens | SourceCodeTokenizer/Pipeline.cs:503-528 | other tokens are unchanged; a VAR identifier becomes an identifier named by its final map entry |
| CsPipeline.RenameConsistent | SourceCodeTokenizer/Pipeline.cs:511-512 | equal names get equal new names |
| CsPipeline.RenameAllNumbered | SourceCodeTokenizer/Pipeline.cs:511-517 | the k-th new name seen maps to `VARk` |
| CsPipeline.VarNameInjective | SourceCodeTokenizer/Pipeline.cs:515 | `"VAR" + n` determines n |
| CsPipeline.RenameFromEmpty | SourceCodeTokenizer/Pipeline.cs:511-517 | from an empty map the values are VAR0..VAR(k-1), pairwise distinct, in first-seen order |
| CsPipeline.RenameExample | SourceCodeTokenizer/Pipeline.cs:503-528 | `[VAR7, VAR3, VAR7]` becomes `[VAR0, VAR1, VAR0]` |
| CsPipeline.AppliedLines | SourceCodeTokenizer/Pipeline.cs:83-114 | the 0-based line list after the action: sequential `RemoveAt(loc)`, the targets from `First()`; REMOVE cuts `Start..End`; ADD inserts at the location; `RemoveBasesAgree` and `AddAgreesWithUtils` compare it with `Utils` |
| CsPipeline.ApplyParsedDiff | SourceCodeTokenizer/Pipeline.cs:83-114 | the result is the edited, 0-based line list joined with `""`, whenever no call throws |
| CsPipeline.LineBreaksLost | SourceCodeTokenizer/Pipeline.cs:113 | with newline-free targets the result has no line break at all |
| CsPipeline.RemoveBasesAgree | SourceCodeTokenizer/Pipeline.cs:100-104 | this REMOVE at 0-based `s-1..e-1` edits like the Utils REMOVE at `s..e` |
| CsPipeline.AddAgreesWithUtils | SourceCodeTokenizer/Pipeline.cs:104-112 | this ADD of lines edits like the Utils ADD of those lines plus `"\n"` |
| CsPipeline.ReplaceAgreesWithUtils | SourceCodeTokenizer/Pipeline.cs:86-98 | REPLACE of this copy agrees with the `Utils` one for the locations plus one and the target lines with a newline each: the same sequential removals and the same block inserted |
| CsPipeline.ValidTokenCount | SourceCodeTokenizer/Pipeline.cs:690 | the count never exceeds the number of tokens |
| CsPipeline.IsValidCodeChunkTokens | SourceCodeTokenizer/Pipeline.cs:688-693 | a positive count of code tokens; `ValidIffSomeCodeToken` states it both ways |
| CsPipeline.ValidIffSomeCodeToken | SourceCodeTokenizer/Pipeline.cs:688-693 | valid iff some token is neither a keyword nor all punctuation |
| CsPipeline.InvalidChunkExample | SourceCodeTokenizer/Pipeline.cs:685-693 | keywords, `;` and the empty token alone make an invalid chunk |
| CsPipeline.ValidChunkExample | SourceCodeTokenizer/Pipeline.cs:685-693 | `=` counts as code, so `VAR0 = ;` is a valid chunk |
| CsTokenIndex.StartingFromMembers | SourceCodeTokenizer/TokenIndex.cs:54 | keeps exactly the tokens starting at `start` or later |
| CsTokenIndex.EndingByIsLongestPrefix | SourceCodeTokenizer/TokenIndex.cs:54 | `TakeWhile` gives the longest prefix ending by `end` |
| CsTokenIndex.SpanQueryStopsEarly | SourceCodeTokenizer/TokenIndex.cs:52-57 | a long first token hides a later token that lies inside the query |
| CsTokenIndex.InvertedIndexLastWins | SourceCodeTokenizer/TokenIndex.cs:38-50 | every span is a key, mapped to the last token with it and that token's position |
| CsTokenIndex.LookupFindsLastToken | SourceCodeTokenizer/TokenIndex.cs:59-67 | the lookup finds the last token with the span, or `(null, -1)` iff there is none |
| CsTokenIndex.Retained | SourceCodeTokenizer/TokenIndex.cs:32-33 | never longer than the input; defined only when no kept token has a kind the factory rejects |
| CsTokenIndex.RenameMapRejectsRetain | SourceCodeTokenizer/TokenIndex.cs:30-36 | restricting tokens to the map that renaming those same tokens built throws as soon as they hold a `VAR…` identifier |
| CsTokenIndex.RetainedTokens | SourceCodeTokenizer/TokenIndex.cs:30-36 | each kept token is a renamed input token whose value is a key, and nothing is dropped iff every value is a key |
| CsTokenIndex.TokenIndex.constructor | SourceCodeTokenizer/TokenIndex.cs:17-20 | holds the tokens; no index yet |
| CsTokenIndex.TokenIndex.GetTokensInSpan | SourceCodeTokenizer/TokenIndex.cs:52-57 | tokens inside the bounds, in order, forming the prefix of the filtered list up to the first that ends too late |
| CsTokenIndex.TokenIndex.GetTokensInTextSpan | SourceCodeTokenizer/TokenIndex.cs:22-28 | the same query by the span's start and end; every token lies inside the span |
| CsTokenIndex.TokenIndex.InitInvertedIndex | SourceCodeTokenizer/TokenIndex.cs:38-50 | the loop builds the inverted index and returns the same object |
| CsTokenIndex.TokenIndex.GetTokenAndPositionBySpan | SourceCodeTokenizer/TokenIndex.cs:59-67 | the last token with that span and its position, or `(null, -1)` iff there is none |
| CsTokenIndex.TokenIndex.WithVariableNameMap | SourceCodeTokenizer/TokenIndex.cs:30-36 | a new, unindexed table of the retained, renamed tokens, never longer; requires that no kept token is an identifier or a numeric or character literal, where the constructor's enumeration throws |

## Left out

- The pygments regex grammars beyond the rules above: the comment and string
  states, `using()`, `bygroups`, `'#pop'`, lookbehind, the error-token fallback
  and the trailing newline that `get_tokens` adds. They depend on library
  semantics not visible in the repository. regex_lexer.py is not part of this
  model.
- `index_identifier_token` (zero-indexing of identifiers in the Python
  pipeline): it is called but not defined in the repository.
- `parse_hunk` and the diff parsing: not defined in the repository. Parsed
  actions are inputs.
- File, JSON and console I/O, `exit(0)`, multiprocessing, the script bodies and
  `main` functions: they have no logic to model. The lexers' outputs,
  `NumberFileLines` and the file lines are parameters.
- `hash_filename` (SHA-256): a foreign primitive.
- The random train/test/val split of the finalize step: it relies on
  randomness and floating-point ratios.
- Roslyn-dependent C#: the creation of tokens by parsing, trivia, syntax nodes,
  `ReplaceTokens` and the node-pair `zeroIndexVariableNames`. Tokens are
  records of their kind, text, value text and span.
- Roslyn spans of fresh tokens: `SyntaxFactory` tokens are modelled at position
  0, the position of a token that belongs to no tree.
- `SourceText` line splitting in `Utils.ApplyParsedDiff`: the previous file
  arrives as its list of lines.
- The `Console.WriteLine` debug blocks of `Utils.ApplyParsedDiff` (lines 47-53
  and 73-79): they are output only, and their indexing can throw. That hazard
  is not modelled.
- The `TokenIndex` copy inside Pipeline.cs: it duplicates TokenIndex.cs.
- Action types other than ADD/REMOVE/REPLACE: the action datatype has only
  these three. The C# no-op for other strings and the Python `else` branches
  that treat any other string as REPLACE or REMOVE are not modelled.
- CsPipeline.IsPunctuation: `char.IsPunctuation` is modelled for ASCII
  characters only, because Unicode categories are not available.
- CsTokenIndex.TokenIndex.GetTokenAndPositionBySpan: the lookup is stated for
  an index built from the table's current tokens. The table never changes its
  tokens after construction, so this is every index `InitInvertedIndex` builds.
- Lexer.LanguageRule: `\d` is modelled as the ASCII digits `0-9`. Python's
  `\d` on `str` also matches other Unicode decimal digits (U+0663, for
  example), which the model lexes as `Error` tokens, because Unicode
  categories are not available.
- CsUtils.AddContextTokensToListOfTokens: when tokens are missing, the start
  and end must lie in the list (0..n and -1..n), because the result is stated
  as slices of it. This excludes a few inputs where the loop would not throw,
  such as a start of -1 with one token to append; `ContextFits` alone
  characterises the throw.
- CsTokenIndex.TokenIndex.WithVariableNameMap: neither TokenIndex.cs nor
  Pipeline.cs, the two files that define it, calls it. Its precondition says
  that every token it keeps must have a kind Roslyn's `SyntaxFactory.Token`
  accepts. Its intended input, a map of renamed identifier names, fails that
  for every identifier.
- Strings.Lower: only ASCII letters are lowered, as there is no Unicode case
  mapping.
- Integer widths: C# `int` overflow is not modelled. Every count and index
  stays far below 2^31 for source files.

## Findings

| source | as written | input that shows it | evidently intended | confidence | as-written member | corrected member |
|---|---|---|---|---|---|---|
| unifying_raw_dataset.py:394-395 | the start test uses `first_diag_line`, the subtraction `first_required_line` | a REPLACE of lines 2 and 5 with a diagnostic on line 5 of a 100-line file: start -1, `file_list[-2:8]` is empty | test the first required line, so the start is at least 1 | not executed | Unify.ContextStartBelowOne | Unify.ContextBounds |
| SourceCodeTokenizer/Utils.cs:35-38 | `RemoveAt(loc - 1)` for each location in turn, on a list that shrinks | REPLACE `[4,5]` on six lines removes original lines 4 and 6; `[5,6]` throws | remove the listed original lines, as the Python version does | not executed | CsUtils.ReplaceRemovesShiftedLines | CsUtils.IntendedReplaceSwapsBlock |
| SourceCodeTokenizer/Utils.cs:260-274 | the break tests `endPosition == Count`, and the append indexes `++endPosition` unchecked | 2 tokens, window 1..1, 2 missing (also 3 tokens, window 1..2, 1 missing): `allTokensList[2]` is out of range | stop at `Count - 1` and prepend when the end is reached, as the Python loop does | not executed | CsUtils.ContextOverrunsEnd | CsUtils.AddContextTokensCorrected |
| tokenizing_unified_dataset.py:246-262 | `RequiredLinesStart - 1` is used unchecked as a slice start and as a line count | an ADD after line 0 with a diagnostic on line 1 (required lines 0..1) in a file of two or more lines: `line_tokens[-1:1]` is empty, and the window is anchored at the start of the last line | clamp the start index at 0, so the required tokens begin with line 1 | not executed | ContextWindow.StartZeroMissesRequiredLines | ContextWindow.PadRequiredTokensCorrected |
