# Transcript post-processing, modelled in Dafny

This project models the deterministic core of a speech-to-text backend: the
code between the speech engine and the HTTP layer.

- **The text corrector** (`NLPCorrector` in `backend/nlp_corrector.py`). It
  removes filler words (whole-word, case-insensitive, with a per-language
  list and an English fallback), capitalises sentences, repairs spacing
  around punctuation, optionally calls a grammar checker, and runs a final
  clean-up. The clean-up collapses terminator runs, fixes the pronoun `i`
  and its contractions, and ends the text with `.`, `!` or `?`.
  `correct_segments` applies the corrector to timestamped segments, and
  `correct_transcript` wraps it in one call.
- **Result assembly in the multilingual transcriber**
  (`backend/multilingual_transcribe.py`). This covers the language choice,
  the language names, the raw and corrected text and segments, the fallback
  when correction raises, the backward-compatible aliases, the confidence
  score, and the constructor's fallback when the corrector cannot be built.
- **Upload checks** (`backend/app.py`): the extension whitelist, the order
  of the 400 responses, and the mapping of the form value `auto` to "no
  language".
- **Translation** (`backend/translate.py`): the empty-text guard and the
  result records around an external translation service,
  `translate_segments`, `batch_translate` and the language table.

Every regular-expression rewrite is a recursive scanner over `seq<char>`
that mirrors Python's leftmost, non-overlapping matching. `\bPAT\b` with
`re.IGNORECASE` is `WholeWord.MatchAt`, and `re.findall` and `re.sub` share
one scanner, `WholeWord.Scan`. Characters follow Python's `\s`, `\w`,
`str.lower()` and `str.upper()` on Latin-1. Segments are maps from keys to
values.

The grammar checker, the translation service and the speech engine are
inputs: functions or records the caller supplies. A grammar check can raise
or report issues with a corrected text. A translation can raise with a
message or return a text.

Object state follows the source:
- `NLPCorrector`, `MultilingualTranscriber` and `TextTranslator` are
  classes.
- Their loops (`_remove_filler_words`, the capitalisation loop,
  `correct_segments`, `translate_segments`, `batch_translate`) are methods
  proved against the functions that specify them.
- The straight chains of rewrites (`_fix_spacing`, `_final_cleanup`) are
  functions.

Files, one module each:
- `records.dfy`: option type and segment values.
- `chars.dfy`: character classes and case mapping.
- `text.dfy`: strip, whitespace collapse, case-insensitive equality.
- `whole_word.dfy`: whole-word search and replace.
- `fillers.dfy`: filler table and removal.
- `capitalization.dfy`: sentence split and capitalisation.
- `spacing.dfy`: spacing repair.
- `cleanup.dfy`: final clean-up.
- `corrector.dfy`: `NLPCorrector`.
- `transcriber.dfy`: `MultilingualTranscriber`.
- `upload.dfy`: HTTP checks.
- `translation.dfy`: `TextTranslator`.

## Model

| member | source | states |
|---|---|---|
| Records.WithNewText | backend/nlp_corrector.py:220-222 | the segment copy made by `correct_segments` (saving the text as `raw_text`) and by `translate_segments` (as `original_text`, `backend/translate.py` lines 94-96): it gains the saved key holding the old text, `text` becomes the new text, and every other key is kept |
| Chars.Lower | backend/nlp_corrector.py:111 | an upper-case letter maps to its lower-case partner; every other character is unchanged |
| Chars.Upper | backend/nlp_corrector.py:132 | a lower-case letter maps to its upper-case partner; every other character is unchanged |
| Chars.CaseFoldKeepsClass | backend/nlp_corrector.py:110-111 | characters equal up to case have the same word and space class, and a caseless character equals only itself |
| Chars.UpperKeepsClass | backend/nlp_corrector.py:132 | upper-casing never changes whether a character is a word character, whitespace, a terminator or punctuation |
| Chars.UpperIdempotent | backend/nlp_corrector.py:141 | upper-casing a character twice is the same as once, so the second upper-casing of the first letter changes nothing further |
| Text.Strip | backend/nlp_corrector.py:160 | `str.strip()` returns a trimmed string no longer than its input |
| Text.StripEmpty | backend/nlp_corrector.py:57 | the stripped text is empty exactly when the text is blank, which is the `not text.strip()` test |
| Text.StripSlice | backend/nlp_corrector.py:160 | the stripped text is the slice between the leading and the trailing whitespace, and both cut-off parts are blank |
| Text.StripTrimmed | backend/nlp_corrector.py:160 | stripping a trimmed string changes nothing |
| Text.NonSpaceStrip | backend/nlp_corrector.py:160 | stripping removes only whitespace |
| Text.StripKeepsNoPair | backend/nlp_corrector.py:160 | stripping keeps any "no two neighbours related by R" property |
| Text.StripKeepsPlainSpaces | backend/nlp_corrector.py:160 | stripping brings in no new kind of whitespace |
| Text.CollapseWhitespace | backend/nlp_corrector.py:154 | `re.sub(r'\s+', ' ', s)` position by position: the last whitespace character of a run becomes one plain space, the others before it disappear, every other character stays; so the non-space characters are kept in order, only single plain spaces remain, and the result is empty or starts with whitespace exactly when the input is |
| Text.CollapseIdentity | backend/nlp_corrector.py:154 | a text whose whitespace is already single plain spaces is unchanged |
| Text.EqualsIgnoringCaseIsLowerEquality | backend/app.py:36 | equality under `re.IGNORECASE` is equality of the lower-cased strings |
| Text.UpperStringFolds | backend/multilingual_transcribe.py:250 | `code.upper()` changes only case and leaves no lower-case letter |
| WholeWord.Scan | backend/nlp_corrector.py:110-114 | the shared scanner of `re.findall` and `re.sub`; a same-length replacement keeps the length, and removal never lengthens the text |
| WholeWord.FindAll | backend/nlp_corrector.py:111 | `re.findall(pattern, result, re.IGNORECASE)`: every item equals the filler up to case, and the list is empty exactly when the filler does not occur as a whole word |
| WholeWord.FindAllAsWritten | backend/nlp_corrector.py:111 | the items are the text's own slices with their case, at the leftmost non-overlapping whole-word match positions in increasing order, and every match lies inside one of them |
| WholeWord.Sub | backend/nlp_corrector.py:114 | `re.sub(pattern, rep, text, flags=re.IGNORECASE)`: the text is unchanged when nothing matches; a replacement as long as the pattern keeps the length and changes only characters inside a whole-word match; a case variant of the pattern changes only case; an empty replacement deletes exactly the matches `re.findall` reports and keeps every other character, in order |
| WholeWord.ScanRewrites | backend/nlp_corrector.py:193-195 | the scanner's rewrite keeps the length for a same-length replacement, returns the text when nothing matches, changes only characters inside a match, and only their case for a case-variant replacement |
| WholeWord.ScanKeepsUncovered | backend/nlp_corrector.py:193-195 | a character that no match covers is left alone by the substitution |
| WholeWord.ScanFindsPattern | backend/nlp_corrector.py:111 | from any start position, the items the scanner collects are the text's own slices, case kept, at increasing non-overlapping whole-word match positions taken leftmost first; every match at or after the start lies inside one of them, and each item equals the filler up to case |
| WholeWord.FoundAtEmptyIffAbsent | backend/nlp_corrector.py:111-112 | such a listing of the matches is empty exactly when the filler does not occur as a whole word |
| WholeWord.ScanFindsNothingIffAbsent | backend/nlp_corrector.py:111-112 | the scan from the start collects nothing exactly when no whole-word match exists, the `if matches:` test |
| WholeWord.ScanRemovalLength | backend/nlp_corrector.py:111-114 | removal shortens the text by exactly the characters found, and changes it exactly when something was found |
| WholeWord.ScanRemovesFound | backend/nlp_corrector.py:111-114 | removal from any start position deletes exactly the matches the scan collects, at the leftmost non-overlapping whole-word positions, and keeps every other character in order |
| WholeWord.ScanWithoutMatchIsIdentity | backend/nlp_corrector.py:114 | with no match from the start position on, the substitution returns the rest of the text unchanged, whatever the replacement |
| WholeWord.MatchEdges | backend/nlp_corrector.py:110 | a match of a word-edged pattern starts and ends with word characters and has no word character on either side |
| WholeWord.RemovalLeavesNoMatch | backend/nlp_corrector.py:114 | removing every whole-word match of a pattern leaves no whole-word match of a single word whose every match was a match of the pattern |
| WholeWord.RemovalErasesWord | backend/nlp_corrector.py:110-114 | after removing a single-word filler, that filler no longer occurs as a whole word |
| WholeWord.RemovalKeepsAbsence | backend/nlp_corrector.py:114 | removing a later filler never creates a whole-word match of an earlier, already-absent word |
| WholeWord.CollapseKeepsAbsence | backend/nlp_corrector.py:117 | collapsing whitespace never creates a whole-word match of an absent word |
| WholeWord.InfixKeepsAbsence | backend/nlp_corrector.py:117 | a piece cut out at non-word characters holds no whole-word match of an absent word |
| WholeWord.StripKeepsAbsence | backend/nlp_corrector.py:117 | stripping never creates a whole-word match of an absent word |
| WholeWord.ScanKeepsCaseFold | backend/nlp_corrector.py:193-195 | replacing matches by a case variant of the pattern changes only letter case, position by position |
| WholeWord.CaseFoldKeepsMatch | backend/nlp_corrector.py:193 | texts equal up to case have the same whole-word matches |
| WholeWord.NoMatchInside | backend/nlp_corrector.py:193 | for a pattern without self-overlap, no whole-word match starts strictly inside another |
| WholeWord.MatchesDisjoint | backend/nlp_corrector.py:193 | whole-word matches of such a pattern are disjoint |
| WholeWord.ScanReplacesEveryMatch | backend/nlp_corrector.py:193-195 | the scan reaches every whole-word match, and each one reads as the replacement afterwards |
| WholeWord.SubLeavesOnlyReplacement | backend/nlp_corrector.py:193-195 | after `re.sub` with a case variant of the pattern, every whole-word match of the pattern reads exactly as the replacement |
| Fillers.FillerWordsWellFormed | backend/nlp_corrector.py:34-39 | the filler table has an `en` entry, and every filler starts and ends with a word character |
| Fillers.EnglishFillersWellFormed | backend/nlp_corrector.py:35 | every English filler starts and ends with a word character |
| Fillers.OtherFillersWellFormed | backend/nlp_corrector.py:36-38 | every Spanish, French and German filler starts and ends with a word character |
| Fillers.LanguageKey | backend/nlp_corrector.py:102 | the key is the prefix of the language code before its first `-`, or the whole code when it has none |
| Fillers.FillersFor | backend/nlp_corrector.py:103 | the fillers are the table entry for the key, or the English list when the key has none |
| Fillers.LanguageKeyIgnoresSubtag | backend/nlp_corrector.py:102 | a region subtag never changes the key |
| Fillers.FillersForEnglishRegion | backend/nlp_corrector.py:102-103 | `en-US` selects the English list |
| Fillers.FillersForFrenchRegion | backend/nlp_corrector.py:102-103 | `fr-CA` selects the French list |
| Fillers.FillersForMissingLanguage | backend/nlp_corrector.py:102-103 | `pt-BR`, which has no entry, falls back to the English list |
| Fillers.FillersForPlainCodes | backend/nlp_corrector.py:102-103 | `es` selects Spanish; `EN` is compared as written and falls back to English |
| Fillers.RemoveFillers | backend/nlp_corrector.py:108-117 | `_remove_filler_words`: the result is trimmed and its only whitespace is single plain spaces, it holds exactly the non-space characters the removal loop left, in order (the loop's deletions are `RemoveEachDeletesMatches`), and the removed list is the loop's |
| Fillers.RemoveEach | backend/nlp_corrector.py:108-114 | the loop over the fillers: every removed item is a listed filler up to case; the text shrinks by the removed items' total length, and is unchanged exactly when nothing was removed |
| Fillers.RemoveEachStepDeletesMatches | backend/nlp_corrector.py:108-114 | pass `j` of the loop deletes from the text the passes before it left exactly the matches `re.findall` reported for filler `j`, and keeps every other character in order |
| Fillers.RemoveEachDeletesMatches | backend/nlp_corrector.py:105-114 | the whole loop: it starts from the text, every pass deletes exactly its filler's reported matches from what the earlier passes left, and the last pass leaves the loop's text |
| Fillers.RemoveEachInListOrder | backend/nlp_corrector.py:108-114 | the removed list is the `re.findall` result of the first filler, then of the second one in what the first left, and so on in list order; with `FindAllAsWritten`, each item is a match as written |
| Fillers.RemoveEachErasesWords | backend/nlp_corrector.py:108-114 | after the loop, no single-word filler of the list occurs as a whole word |
| Fillers.RemoveFillersErasesWords | backend/nlp_corrector.py:108-117 | after the loop and the whitespace clean-up, no single-word filler of the list occurs as a whole word |
| Fillers.RemoveUhThenUm | backend/nlp_corrector.py:108-114 | on `um uh`, a list starting `uh`, `um` removes `uh` first and then `um`, so the removed items follow the list and not the text |
| Fillers.RemoveFillersExample | backend/nlp_corrector.py:99-119 | with the English list, `um uh` becomes empty and the removed items are `uh`, `um` |
| Capitalization.SplitSentences | backend/nlp_corrector.py:124 | `re.split(r'([.!?]+\s*)', s)` gives pieces that rejoin to `s`: pieces without terminators at even indices, whole separator tokens at odd ones, each taking its whole run of terminators and all whitespace after it |
| Capitalization.SplitUnique | backend/nlp_corrector.py:124 | the split is the only one of its shape: any list of content pieces and maximal separators that rejoins to `s` is `SplitSentences(s)` |
| Capitalization.SplitKeepsRunWhole | backend/nlp_corrector.py:124 | `a..b` splits as `a`, `..`, `b`: a run of terminators is never cut in two |
| Capitalization.WellSplitKeepsRunsWhole | backend/nlp_corrector.py:124 | the shape of a split rules out `a`, `.`, empty, `.`, `b` for `a..b` |
| Capitalization.CapFirst | backend/nlp_corrector.py:132 | the first character is upper-cased and the rest is unchanged |
| Capitalization.FixPiece | backend/nlp_corrector.py:128-135 | a blank piece or one starting with a terminator is kept; any other piece comes back trimmed and non-empty, its first character upper-cased and the rest as in the stripped piece |
| Capitalization.FixAll | backend/nlp_corrector.py:126-135 | the loop keeps the number of pieces |
| Capitalization.FixAllPieces | backend/nlp_corrector.py:126-135 | separator tokens are kept verbatim and in order; non-blank content pieces are stripped and capitalised, and blank ones are kept |
| Capitalization.NonSpaceCapFirst | backend/nlp_corrector.py:132 | capitalising the first character changes only its case |
| Capitalization.NonSpaceFixAll | backend/nlp_corrector.py:126-137 | the loop changes only whitespace and letter case |
| Capitalization.Capitalize | backend/nlp_corrector.py:121-143 | `_fix_capitalization`: the result is empty exactly when the text is, starts with an upper-cased character, and keeps the non-space characters in order up to case, so no terminator is added or lost |
| Spacing.DropSpaceBeforePunct | backend/nlp_corrector.py:148 | `re.sub(r'\s+([,.!?;:])', r'\1', s)` position by position: a whitespace character is deleted exactly when a whitespace run from it reaches one of `,.!?;:`, and every other character stays in order; so no whitespace is left before punctuation |
| Spacing.DropSpaceBeforePunctIdentity | backend/nlp_corrector.py:148 | a text with no whitespace before punctuation is unchanged |
| Spacing.SpaceAfterPunct | backend/nlp_corrector.py:151 | `re.sub(r'([,.!?;:])([A-Za-z])', r'\1 \2', s)` position by position: exactly one space is inserted after each of `,.!?;:` that an ASCII letter follows, and nothing else changes; so no letter follows punctuation |
| Spacing.SpaceAfterPunctIdentity | backend/nlp_corrector.py:151 | a text with no letter right after punctuation is unchanged |
| Spacing.SpaceAfterPunctKeepsNoSpaceBefore | backend/nlp_corrector.py:148-151 | adding spaces after punctuation never puts whitespace before punctuation |
| Spacing.CollapseKeepsNoSpaceBefore | backend/nlp_corrector.py:148-154 | collapsing whitespace keeps "no whitespace before punctuation" |
| Spacing.CollapseKeepsSpaceAfterPunct | backend/nlp_corrector.py:151-154 | collapsing whitespace keeps "no letter right after punctuation" |
| Spacing.TightenFrom | backend/nlp_corrector.py:157-158 | the left-to-right reading of `re.sub(r'\s*Q\s*', 'Q', s)`, position by position: a whitespace character is deleted exactly when it follows the quote across whitespace or a whitespace run from it reaches the quote; every other character stays, and no whitespace is left next to the quote |
| Spacing.TightenQuote | backend/nlp_corrector.py:157-158 | the quote rewrite from the start of the text: the same position-by-position deletion, only whitespace touching the quote removed and none left next to it |
| Spacing.TightenQuoteKeepsNoPair | backend/nlp_corrector.py:157-158 | the quote rewrite keeps any neighbour property that a non-space character and the quote never violate |
| Spacing.TightenQuoteKeepsPlainSpaces | backend/nlp_corrector.py:157-158 | the quote rewrite brings in no new kind of whitespace |
| Spacing.TightenQuoteIdentity | backend/nlp_corrector.py:157-158 | with no whitespace next to the quote, the text is unchanged |
| Spacing.ThreeStagesSpaced | backend/nlp_corrector.py:148-154 | after the first three rewrites, there is no whitespace before punctuation and no letter right after it |
| Spacing.QuoteStagesSpaced | backend/nlp_corrector.py:157-158 | the two quote rewrites keep the earlier properties and add "no whitespace next to `\"` or `'`" |
| Spacing.FixSpacing | backend/nlp_corrector.py:145-160 | `_fix_spacing`: no whitespace before `,.!?;:`, no ASCII letter after them, only single plain spaces, no whitespace next to either quote, trimmed; and the non-space characters are kept in order |
| Spacing.FixSpacingKeepsWellSpaced | backend/nlp_corrector.py:145-160 | a well-spaced text is left unchanged |
| Spacing.FixSpacingIdempotent | backend/nlp_corrector.py:145-160 | repairing twice is the same as repairing once |
| Cleanup.CollapseTerminalRuns | backend/nlp_corrector.py:189 | `re.sub(r'([.!?]){2,}', r'\1', s)` position by position: a terminator is deleted exactly when another terminator follows it, so each run becomes its last mark and every other character stays; no two adjacent terminators remain and the last character is kept |
| Cleanup.CollapseTerminalRunsIdentity | backend/nlp_corrector.py:189 | a text without doubled terminators is unchanged |
| Cleanup.ReplaceSpacedI | backend/nlp_corrector.py:192 | `s.replace(' i ', ' I ')` keeps the length and the first character, and raises exactly the middles of the ` i ` occurrences `str.replace` finds scanning left to right without overlap, leaving every other character as it is |
| Cleanup.ReplaceSpacedIKeepsCaseFold | backend/nlp_corrector.py:192 | the replacement changes only letter case |
| Cleanup.ReplaceSpacedINoLeadingMatch | backend/nlp_corrector.py:192 | no ` i ` is left where the text starts |
| Cleanup.ReplaceSpacedILeftover | backend/nlp_corrector.py:192 | every ` i ` that survives directly follows a replaced ` I`, because occurrences are replaced left to right without overlap |
| Cleanup.ReplaceSpacedIExamples | backend/nlp_corrector.py:192 | ` i i ` becomes ` I i `, and `I i .` becomes `I I .` |
| Cleanup.ReplaceSpacedIOverlapping | backend/nlp_corrector.py:192 | ` i i i ` becomes ` I i I `: the middle `i` is part of the first replaced occurrence |
| Cleanup.PronounStages | backend/nlp_corrector.py:192-195 | each of the three contraction substitutions keeps the length |
| Cleanup.FixPronouns | backend/nlp_corrector.py:192-195 | the four pronoun fixes keep the length, change only letter case, and change a character only inside a ` i ` or a whole-word i'm, i'll or i've |
| Cleanup.ContractionsWordEdged | backend/nlp_corrector.py:193-195 | `i'm`, `i'll` and `i've` start and end with word characters |
| Cleanup.ContractionsNoSelfOverlap | backend/nlp_corrector.py:193-195 | no whole-word match of a contraction can overlap another match of itself |
| Cleanup.ExclusiveImIll | backend/nlp_corrector.py:193-194 | whole-word matches of `i'm` and `i'll` never overlap |
| Cleanup.ExclusiveImIve | backend/nlp_corrector.py:193-195 | whole-word matches of `i'm` and `i've` never overlap |
| Cleanup.ExclusiveIllIve | backend/nlp_corrector.py:194-195 | whole-word matches of `i'll` and `i've` never overlap |
| Cleanup.MatchesExclusive | backend/nlp_corrector.py:193-195 | whole-word matches of mutually exclusive patterns are disjoint |
| Cleanup.SubKeepsExclusiveMatch | backend/nlp_corrector.py:193-195 | substituting one contraction never touches a match of another |
| Cleanup.FixPronounsCapitalisesIm | backend/nlp_corrector.py:193 | after the fixes, every whole-word `i'm`, in any case, reads `I'm` |
| Cleanup.FixPronounsCapitalisesIll | backend/nlp_corrector.py:194 | after the fixes, every whole-word `i'll`, in any case, reads `I'll` |
| Cleanup.FixPronounsCapitalisesIve | backend/nlp_corrector.py:195 | after the fixes, every whole-word `i've`, in any case, reads `I've` |
| Cleanup.FixPronounsWithoutApostrophe | backend/nlp_corrector.py:192-195 | on a text without apostrophes, only ` i ` is replaced |
| Cleanup.EnsureTerminal | backend/nlp_corrector.py:198-199 | a non-empty text ends in a terminator, gaining at most one `.` at its end; an empty text stays empty |
| Cleanup.FinalCleanup | backend/nlp_corrector.py:186-201 | `_final_cleanup`: the result is empty exactly when its input is, a non-empty result ends in `.`, `!` or `?`, no two terminators stand side by side, and its characters other than whitespace and terminators are the input's, in order, up to letter case |
| Cleanup.FinalCleanupCapitalisesIm | backend/nlp_corrector.py:193 | every whole-word, case-insensitive i'm in the cleaned text reads I'm: appending `.` and stripping create none |
| Cleanup.FinalCleanupCapitalisesIll | backend/nlp_corrector.py:194 | every whole-word, case-insensitive i'll in the cleaned text reads I'll |
| Cleanup.FinalCleanupCapitalisesIve | backend/nlp_corrector.py:195 | every whole-word, case-insensitive i've in the cleaned text reads I've |
| Cleanup.FinalCleanupPlain | backend/nlp_corrector.py:186-201 | on a text without doubled terminators or apostrophes, the clean-up only replaces ` i `, adds the full stop and strips |
| Cleanup.FinalCleanupFirstPass | backend/nlp_corrector.py:186-201 | ` i i ` is cleaned to `I i .` |
| Cleanup.FinalCleanupSecondPass | backend/nlp_corrector.py:186-201 | `I i .` is cleaned to `I I .` |
| Cleanup.FinalCleanupNotIdempotent | backend/nlp_corrector.py:186-201 | the clean-up is not idempotent: ` i i ` needs two passes |
| Corrector.NatToString | backend/nlp_corrector.py:71 | the count is printed as a non-empty string of decimal digits |
| Corrector.NatToStringRoundTrip | backend/nlp_corrector.py:71 | the printed count reads back as the count |
| Corrector.EntriesDistinct | backend/nlp_corrector.py:70-81 | the four kinds of log entry are distinguished by their text |
| Corrector.GrammarStep | backend/nlp_corrector.py:162-184 | the grammar step appends at most one entry; it changes the text or the log only when the tool reports issues, and then it gives the tool's text and `Fixed N grammar issues` |
| Corrector.GrammarTextIgnoresLog | backend/nlp_corrector.py:162-184 | the corrected text does not depend on the log passed in |
| Corrector.GrammarEntriesOnly | backend/nlp_corrector.py:175-177 | the grammar step only appends, and only grammar entries |
| Corrector.GrammarNoOp | backend/nlp_corrector.py:180-184 | a tool that raises or reports no issue leaves the text and the log unchanged |
| Corrector.FillerListFor | backend/nlp_corrector.py:102-103 | the list used is well-formed, and it is the English list unless the key has its own entry |
| Corrector.Logged | backend/nlp_corrector.py:70-81 | an entry is appended exactly when the stage changed something |
| Corrector.GrammarApplies | backend/nlp_corrector.py:84 | the grammar step runs exactly when a tool is loaded and the language code's first two characters are `e`, `n` |
| Corrector.BeforeCleanup | backend/nlp_corrector.py:83-87 | when the grammar tool runs and reports issues its text is taken as it is; otherwise the text handed on is well spaced and holds the cleaned text's non-space characters up to case |
| Corrector.Pipeline | backend/nlp_corrector.py:65-97 | `raw_text` and the removed list are passed through; the corrected text is empty or ends in a terminator with no doubled terminators; and its characters other than whitespace and terminators are, in order and up to letter case, those of the filler-free text, or of the grammar tool's text when the tool rewrites it |
| Corrector.LoggedChain | backend/nlp_corrector.py:70-81 | with distinct entries, each stage's entry is in the log exactly when that stage changed something |
| Corrector.Correction | backend/nlp_corrector.py:41-97 | `raw_text` is always the input and a blank text comes back unchanged with empty logs; for any other text the corrected text is empty or ends in a terminator with no doubled terminators, every removed item is a filler of the language up to case and they account for the characters removed, the log records removal, capitalisation and spacing exactly when that stage found or changed something, and unless the grammar tool rewrites the text, the corrected text's characters other than whitespace and terminators are those the filler loop left, in order, up to letter case |
| Corrector.CorrectionCapitalisesContractions | backend/nlp_corrector.py:89-90 | in the corrected text of a non-blank input, every whole-word i'm, i'll or i've reads I'm, I'll or I've, whatever the grammar tool returned |
| Corrector.PipelineLog | backend/nlp_corrector.py:65-87 | the log records removal, capitalisation and spacing exactly when that stage found or changed something, and holds at most four entries |
| Corrector.NonEnglishSkipsGrammar | backend/nlp_corrector.py:84-87 | for a language not starting with `en`, the result is the same as without a grammar tool |
| Corrector.FailingToolIsNoOp | backend/nlp_corrector.py:164-184 | a tool that always raises or finds nothing gives the same result as no tool |
| Corrector.PipelineLogNoOp | backend/nlp_corrector.py:83-87 | such a tool leaves the log as it would be without a tool |
| Corrector.CorrectSegment | backend/nlp_corrector.py:216-225 | a segment with `text` gets `raw_text` equal to its original text and `text` equal to the corrected text, with other keys kept; a segment without `text` is passed through |
| Corrector.NLPCorrector.constructor | backend/nlp_corrector.py:16-39 | the corrector keeps its language and the loaded tool, or none when loading raised, and builds the filler table |
| Corrector.NLPCorrector.RemoveFillerWords | backend/nlp_corrector.py:99-119 | the loop gives exactly the text and removed items of `RemoveFillers` for the language's list: the input with each pass's reported filler matches deleted, whitespace runs made single spaces, trimmed, and the items in `re.findall` order |
| Corrector.NLPCorrector.FixSentences | backend/nlp_corrector.py:126-135 | the loop over the pieces computes the piece-by-piece fix |
| Corrector.NLPCorrector.FixCapitalization | backend/nlp_corrector.py:121-143 | the method computes the capitalisation function |
| Corrector.NLPCorrector.ApplyGrammarCorrection | backend/nlp_corrector.py:162-184 | the method gives the grammar step's text and log |
| Corrector.NLPCorrector.CorrectText | backend/nlp_corrector.py:41-97 | the method gives exactly `Correction`'s result: the input as `raw_text`, a blank text unchanged, otherwise a text that ends in a terminator with no doubled terminators, keeps what filler removal left up to case, whitespace and terminators unless the grammar tool rewrites it, with the logs `Correction` states |
| Corrector.NLPCorrector.CorrectSegments | backend/nlp_corrector.py:203-227 | the output has the input's length and order, and each segment is corrected as `CorrectSegment` says |
| Corrector.CorrectorLanguage | backend/nlp_corrector.py:242 | the corrector's language always has a region; a code that already has one is kept, and any other code gains `-US` |
| Corrector.CorrectTranscript | backend/nlp_corrector.py:231-244 | `correct_transcript` returns the corrected text of `correct_text` for the given language |
| Corrector.PipelineOfEmpty | backend/nlp_corrector.py:73-97 | when filler removal leaves nothing, every later stage leaves the text empty and only the removal is logged |
| Corrector.CorrectionExample | backend/nlp_corrector.py:41-97 | `correct_text("um uh", "en")`, with a grammar step that finds nothing, gives an empty text, the log `Removed 2 filler words`, and the removed items `uh`, `um` |
| Transcriber.LanguageTablesAgree | backend/multilingual_transcribe.py:215-250 | `_get_language_name`'s table gives the same name for every supported code and adds only `bn` |
| Transcriber.SupportedLanguageName | backend/multilingual_transcribe.py:115 | the name is not `Unknown` exactly when the code is a key of `SUPPORTED_LANGUAGES`, and is then the table's entry |
| Transcriber.GetLanguageName | backend/multilingual_transcribe.py:215-250 | a code in the table gets its entry; any other code comes back equal to itself up to case, with no lower-case letter left |
| Transcriber.LanguageNameLookups | backend/multilingual_transcribe.py:115 | both lookups agree on every supported code; a code `language_name` calls `Unknown` is either Bengali or unknown to `_get_language_name` too |
| Transcriber.DetectedLanguage | backend/multilingual_transcribe.py:103-113 | a non-empty forced language wins; otherwise the engine's language, or `unknown` when it reports none |
| Transcriber.RawSegments | backend/multilingual_transcribe.py:139-146 | one entry per engine segment, in order, with exactly the keys `start`, `end` and `text`; the times are copied and the text is stripped |
| Transcriber.RawSegment | backend/multilingual_transcribe.py:140-144 | one `raw_segments` entry has exactly the keys `start`, `end` and `text`, copies the times, and holds the segment's text trimmed with its non-space characters kept |
| Transcriber.CorrectedSegmentKeepsTimes | backend/multilingual_transcribe.py:149-152 | correcting a raw segment keeps its `start` and `end` |
| Transcriber.RoundHalfEven | backend/multilingual_transcribe.py:184 | Python's `round` on an exact value: the nearest integer, with ties going to the even one |
| Transcriber.NoSpeech | backend/multilingual_transcribe.py:183 | the engine's `no_speech_prob`, or 0.5 when it gives none |
| Transcriber.SpeechSum | backend/multilingual_transcribe.py:183 | the sum of `1 - no_speech_prob` lies between 0 and the number of segments when every probability lies in [0, 1], and equals that number when every segment is certainly speech |
| Transcriber.Round2 | backend/multilingual_transcribe.py:184 | `round(x, 2)` is within half a hundredth of `x`, keeps a value in [0, 1] there, and keeps 1 |
| Transcriber.Confidence | backend/multilingual_transcribe.py:176-184 | 0.0 with no segments; between 0 and 1 when every probability is; exactly 1.0 when every segment is certainly speech |
| Transcriber.MultilingualTranscriber.constructor | backend/multilingual_transcribe.py:49-71 | correction stays enabled only when requested and the corrector was built; the corrector exists exactly then, for `en-US` |
| Transcriber.MultilingualTranscriber.TranscribeAudio | backend/multilingual_transcribe.py:79-174 | see the notes after this table |
| Upload.LastDotBefore | backend/app.py:36 | finds the last `.` before a position, or reports that there is none |
| Upload.AllowedFile | backend/app.py:35-36 | a name is allowed exactly when it has a `.` after which no `.` follows and the text after it, lower-cased, is one of `ALLOWED_EXTENSIONS` |
| Upload.AllowedExtensionAt | backend/app.py:35-36 | a name is allowed exactly when the text after its last `.`, lower-cased, is one of `ALLOWED_EXTENSIONS` |
| Upload.AllowedFileNeedsDot | backend/app.py:36 | a name without `.` is never allowed |
| Upload.AllowedFileLastExtension | backend/app.py:36 | `a.tar.WAV` is allowed: the last extension counts, compared without case |
| Upload.AllowedFileOnlyLastExtension | backend/app.py:36 | `a.wav.zip` is refused |
| Upload.AllowedFileNeedsExtension | backend/app.py:36 | `a.` and `wav` are refused |
| Upload.NormalizeLanguage | backend/app.py:60-62 | `auto` becomes no language; any other value is kept |
| Upload.FormValue | backend/app.py:60 | `request.form.get(key, None)` is present exactly when the form has the key, and is then its value |
| Upload.ValidateUpload | backend/app.py:46-62 | every rejection is a 400, and a request is accepted exactly when it carries the audio part and, except on the recording route, its name has an allowed extension |
| Upload.UploadValidationOrder | backend/app.py:46-57 | on upload and transcribe, a request is accepted exactly when it has an audio part with an allowed name; a missing part, an empty name and a bad extension each give their own 400, checked in that order |
| Upload.LiveRecordValidation | backend/app.py:110-121 | a recording is accepted exactly when the audio part is present, and is saved as `recording.webm` |
| Upload.LanguageNormalization | backend/app.py:59-62 | upload and recording never pass `auto` on and otherwise pass the form's `language` unchanged; transcribe passes `force_language` as it is |
| Translation.TranslateText | backend/translate.py:16-71 | the result echoes the text and both languages; it succeeds exactly when the text is not blank and the service translates; a blank text gives `Empty text provided`; a raising service gives its message and an empty translation |
| Translation.BlankTextSkipsService | backend/translate.py:34-42 | for a blank text the result does not depend on the service |
| Translation.TranslateSegment | backend/translate.py:87-97 | a copy of the segment with the old text under `original_text`, every other key kept, and as `text` the service's translation, or the empty text when the text is blank or the service raises |
| Translation.BatchItem | backend/translate.py:115-116 | an item is the translation on success, and the original text when the text is blank or the service raises |
| Translation.TextTranslator.constructor | backend/translate.py:12-14 | the translator's table is the supported-language table |
| Translation.TextTranslator.TranslateSegments | backend/translate.py:73-99 | the output has the input's length and order, and each entry is that segment translated |
| Translation.TextTranslator.BatchTranslate | backend/translate.py:101-117 | the output has the input's length, and item `i` is the batch item for `texts[i]` |
| Translation.TextTranslator.GetLanguageName | backend/translate.py:157-159 | a supported code gets the table's name; any other code comes back equal to itself up to case, with no lower-case letter left |
| Translation.TextTranslator.IsLanguageSupported | backend/translate.py:161-163 | the code is supported exactly when it is a key of the table, and exactly then `get_language_name` names it from the table rather than by upper-casing it |
| Translation.TextTranslator.LanguageLookups | backend/translate.py:157-163 | a code is supported exactly when it is a table key, `auto` included; a supported code is named by the table, and any other by its upper-cased self |
| Translation.TranslatorTableCodes | backend/translate.py:121-155 | `auto` is a key; Chinese appears only as `zh-CN` and `zh-TW`, so `zh` is named `ZH` |
| Translation.FailedSegmentIsEmptied | backend/translate.py:94-96 | a segment whose translation fails gets an empty `text` and keeps its original under `original_text` |
| Translation.BatchAgreesWithSegments | backend/translate.py:101-117 | where a translation succeeds, the batch item equals the segment's new text; where it fails, the batch keeps the text while the segment is emptied |
| Translation.TranscriberCodesTranslatable | backend/translate.py:121-155 | every language code the transcriber names is a translator key except `zh` |

`Transcriber.MultilingualTranscriber.TranscribeAudio` states:
- A missing file gives `FileNotFoundError`.
- Otherwise the language, its name, the stripped raw text, the raw segments
  and the confidence are as the functions above say.
- `text` and `segments` alias `corrected_text` and `corrected_segments`.
- With correction off, or when it raises, the corrected text is the raw
  text with no correction record, and the corrected segments are the raw
  segments.
- Otherwise the corrected text and its record come from `correct_text`,
  and each segment from `correct_segments`.
- Every output segment keeps its engine segment's times.

## Left out

- Flask, CORS, the JSON responses, saving and deleting files,
  `secure_filename` and `MAX_CONTENT_LENGTH`: HTTP and filesystem plumbing.
  Validation returns what the route would answer, or the name the file
  would be saved under.
- Upload.ValidateUpload: the text of the "Invalid file type" message is
  not modelled. It lists `ALLOWED_EXTENSIONS` in set-iteration order, which
  the language does not fix.
- The speech engine (model loading and `transcribe`) is an input record,
  `EngineResult`. Whether the audio file exists is an input flag.
  `_save_transcript` is file output with a wall-clock time stamp.
  `transcribe_audio_file` only wires these together.
- Transcriber.MultilingualTranscriber.TranscribeAudio: `detect_language`
  is a parameter with no effect. Both branches that use it make the same
  engine call and take the same language.
- Transcriber.MultilingualTranscriber.TranscribeAudio: exceptions raised
  inside `correct_text` or `correct_segments` are the inputs
  `Faults.textCorrectionRaises` and `Faults.segmentCorrectionRaises`. The
  modelled pipeline cannot raise by itself; in Python, only the foreign
  grammar library or an unexpected value could.
- Transcriber.Confidence: computed on exact reals. `RoundHalfEven` is
  Python's rounding of the exact value, not of a binary float, so results
  near a tie may differ from CPython by one unit in the second place.
  Floating-point summation error is not modelled.
- The grammar checker (`language_tool_python`) and the translation service
  (`GoogleTranslator`) are deterministic functions the caller supplies.
  Their internals, the network, and any answer that changes from call to
  call are not modelled. Constructing the grammar tool is the
  `Option<GrammarTool>` input of the corrector's constructor.
- Characters: whitespace, word characters and case mapping follow Python
  on Latin-1 only. Characters above U+00FF are treated as caseless,
  non-word and non-space.
- Chars.Upper: `ß`, `ÿ` and `µ` are left unchanged. Python maps them to two
  characters or to characters beyond Latin-1.
- Translation.TextTranslator.TranslateSegments requires every segment to
  have a string `text`; other segments are excluded. A segment without
  `text` raises `KeyError`. A falsy non-string text passes the `not text`
  guard and gets an empty translation with the empty-text error; a truthy
  one raises.
- Corrector.NLPCorrector.CorrectSegments requires every `text` to be a
  string; other segments are excluded, since the only caller passes
  stripped strings. A falsy non-string text would pass through unchanged
  (the `not text` guard returns it as the corrected text), and a truthy
  one raises.
- Corrector.Correction (and so Corrector.NLPCorrector.CorrectText and
  Corrector.Pipeline): when the grammar tool reports issues, its corrected
  text replaces the pipeline's. Only the clean-up's guarantees (the ending,
  no doubled terminators, the tool's text kept up to case, whitespace and
  terminators) then hold, because the tool is a supplied function.
- Fillers.RemoveFillers: the deleted characters are stated pass by pass, as
  positions in the text the earlier passes left, not as one set of
  positions in the input. A later filler can match across a gap an earlier
  one left, as in `you you know know`.
- Console output (`print`) is not modelled.
- `get_translator` and the module-level `translate_text` are left out:
  they only create a global translator once and forward to it.
- Filler removal is not idempotent. The two-word filler `you know` can be
  formed by a removal: `you you know know` becomes `you know`. So no
  idempotence lemma is stated. Single-word fillers are proved absent
  afterwards.
- Cleanup.FinalCleanupNotIdempotent: the clean-up is proved not
  idempotent. The overlapping occurrences in ` i i ` leave one lower-case
  `i` for a second pass.
- The `__main__` sentence of `nlp_corrector.py` is not evaluated by the
  verifier, because its 87 characters are too long to evaluate through
  every stage. `Corrector.CorrectionExample` checks the same two points on
  the text `um uh`: a pipeline whose grammar step finds nothing, and
  removed fillers reported in list order.
- Upload.ValidateUpload: the transcribe route passes `force_language` on
  unchanged, `auto` included. `transcribe_audio` then treats `auto` as a
  forced language code. This is modelled as written.
