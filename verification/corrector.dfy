/** The correction pipeline object: filler removal, capitalisation, spacing,
    an optional grammar check by an external tool, and the final clean-up,
    chained on one text or mapped over timestamped segments. */
module Corrector {
  import opened Chars
  import opened Text
  import opened WholeWord
  import opened Fillers
  import opened Capitalization
  import opened Spacing
  import opened Cleanup
  import opened Records

  /** What the grammar tool makes of a text: either the check (or applying
      its suggestions) raises, or it reports a number of issues together with
      the text that applying them gives. */
  datatype CheckOutcome = CheckRaised | Checked(issues: nat, corrected: string)

  /** The grammar tool, an external service. */
  type GrammarTool = string -> CheckOutcome

  /** The dictionary `correct_text` returns. */
  datatype CorrectionResult = CorrectionResult(
    rawText: string,
    correctedText: string,
    correctionsMade: seq<string>,
    fillerWordsRemoved: seq<string>)

  // ---------------------------------------------------------------------
  // Log entries

  function Digit(d: nat): (c: char)
    requires d < 10
    ensures '0' <= c <= '9'
  {
    "0123456789"[d]
  }

  /** Decimal notation of a count, as an f-string prints it. */
  function NatToString(n: nat): (s: string)
    ensures s != [] && forall k | 0 <= k < |s| :: '0' <= s[k] <= '9'
    decreases n
  {
    if n < 10 then [Digit(n)] else NatToString(n / 10) + [Digit(n % 10)]
  }

  /** The number a string of decimal digits denotes. */
  function DecimalValue(s: string): nat
    requires forall k | 0 <= k < |s| :: '0' <= s[k] <= '9'
  {
    if s == [] then 0
    else DecimalValue(s[..|s| - 1]) * 10 + (s[|s| - 1] as int - '0' as int)
  }

  /** The printed count reads back as the count. */
  lemma {:induction false} NatToStringRoundTrip(n: nat)
    ensures DecimalValue(NatToString(n)) == n
    decreases n
  {
    var s := NatToString(n);
    if n >= 10 {
      NatToStringRoundTrip(n / 10);
      assert s[..|s| - 1] == NatToString(n / 10);
      assert s[|s| - 1] == Digit(n % 10);
    }
    assert "0123456789"[n % 10] as int - '0' as int == n % 10;
  }

  function RemovedEntry(count: nat): string {
    "Removed " + NatToString(count) + " filler words"
  }

  function GrammarEntry(issues: nat): string {
    "Fixed " + NatToString(issues) + " grammar issues"
  }

  const CapitalizationEntry := "Fixed capitalization"
  const SpacingEntry := "Fixed spacing"

  /** The four kinds of log entry are told apart by their text. */
  lemma EntriesDistinct(count: nat, issues: nat)
    ensures RemovedEntry(count) != CapitalizationEntry && RemovedEntry(count) != SpacingEntry
    ensures GrammarEntry(issues) != CapitalizationEntry && GrammarEntry(issues) != SpacingEntry
    ensures RemovedEntry(count) != GrammarEntry(issues)
    ensures CapitalizationEntry != SpacingEntry
  {
    assert RemovedEntry(count)[0] == 'R' && GrammarEntry(issues)[0] == 'F';
    var g := GrammarEntry(issues);
    assert g[6] == NatToString(issues)[0];
    assert CapitalizationEntry[6] == 'c' && SpacingEntry[6] == 's';
  }

  // ---------------------------------------------------------------------
  // The grammar step and the whole pipeline as functions

  /** `_apply_grammar_correction`: the tool's corrected text and one log
      entry when it reports issues; the text and the log unchanged when there
      is no tool, no issue, or the tool raises. */
  function GrammarStep(tool: Option<GrammarTool>, text: string, log: seq<string>): (r: (string, seq<string>))
    ensures |log| <= |r.1| <= |log| + 1 && r.1[..|log|] == log
    ensures r.0 != text || |r.1| > |log| ==>
      tool.Some? && tool.value(text).Checked? && tool.value(text).issues > 0
      && r == (tool.value(text).corrected, log + [GrammarEntry(tool.value(text).issues)])
  {
    if tool.None? then (text, log)
    else match tool.value(text)
      case CheckRaised => (text, log)
      case Checked(issues, corrected) =>
        if issues > 0 then (corrected, log + [GrammarEntry(issues)]) else (text, log)
  }

  /** The filler list the pipeline uses for a language. */
  function FillerListFor(language: string): (fillers: seq<string>)
    ensures WellFormedFillers(fillers)
    ensures fillers == FillerWords["en"] || LanguageKey(language) in FillerWords
  {
    FillerWordsWellFormed();
    FillersFor(FillerWords, language)
  }

  /** Whether the grammar step runs: a tool is loaded and the language code
      starts with `en` (`startswith`, which is case-sensitive). */
  function GrammarApplies(tool: Option<GrammarTool>, sourceLanguage: string): (applies: bool)
    ensures applies <==>
      tool.Some? && |sourceLanguage| >= 2 && sourceLanguage[0] == 'e' && sourceLanguage[1] == 'n'
  {
    tool.Some? && "en" <= sourceLanguage
  }

  /** The log after a stage: `entry` appended when the stage changed
      something. */
  function Logged(log: seq<string>, changed: bool, entry: string): (r: seq<string>)
    ensures changed ==> r == log + [entry]
    ensures !changed ==> r == log
  {
    if changed then log + [entry] else log
  }

  /** The text the grammar step hands to the final clean-up, from the
      outcome of filler removal on. When the grammar tool runs and reports
      issues, its text is taken as it is; otherwise the text is well spaced
      and holds the non-space characters of the cleaned text, up to case. */
  function BeforeCleanup(tool: Option<GrammarTool>, sourceLanguage: string, cleaned: string): (r: string)
    ensures var spaced := FixSpacing(Capitalize(cleaned));
      GrammarApplies(tool, sourceLanguage) && ToolRewrites(tool, spaced) ==> r == tool.value(spaced).corrected
    ensures var spaced := FixSpacing(Capitalize(cleaned));
      !(GrammarApplies(tool, sourceLanguage) && ToolRewrites(tool, spaced)) ==>
        WellSpaced(r) && EqualsIgnoringCase(NonSpace(r), NonSpace(cleaned))
  {
    var spaced := FixSpacing(Capitalize(cleaned));
    GrammarStepText(tool, spaced);
    if GrammarApplies(tool, sourceLanguage) then GrammarStep(tool, spaced, []).0 else spaced
  }

  /** The grammar tool is loaded and reports issues in `text`. */
  predicate ToolRewrites(tool: Option<GrammarTool>, text: string) {
    tool.Some? && tool.value(text).Checked? && tool.value(text).issues > 0
  }

  lemma GrammarStepText(tool: Option<GrammarTool>, text: string)
    ensures ToolRewrites(tool, text) ==> GrammarStep(tool, text, []).0 == tool.value(text).corrected
    ensures !ToolRewrites(tool, text) ==> GrammarStep(tool, text, []).0 == text
  {
  }

  /** The log of `correct_text` on a non-blank text, from the outcome of
      filler removal on. It records filler removal, capitalisation and spacing exactly
      when that stage found something to remove or changed the text, and
      holds at most one more entry, from the grammar step. */
  function PipelineLog(tool: Option<GrammarTool>, sourceLanguage: string,
                       cleaned: string, removed: seq<string>): (log: seq<string>)
    ensures var capitalized := Capitalize(cleaned);
      && (RemovedEntry(|removed|) in log <==> removed != [])
      && (CapitalizationEntry in log <==> capitalized != cleaned)
      && (SpacingEntry in log <==> FixSpacing(capitalized) != capitalized)
      && |log| <= 4
  {
    var capitalized := Capitalize(cleaned);
    var spaced := FixSpacing(capitalized);
    var log := Logged(Logged(Logged([], removed != [], RemovedEntry(|removed|)),
                             capitalized != cleaned, CapitalizationEntry),
                      spaced != capitalized, SpacingEntry);
    LogAfterGrammar(tool, sourceLanguage, spaced, log, |removed|);
    LoggedChain(removed != [], capitalized != cleaned, spaced != capitalized,
                RemovedEntry(|removed|), CapitalizationEntry, SpacingEntry,
                if GrammarApplies(tool, sourceLanguage) then GrammarStep(tool, spaced, log).1[|log|..] else []);
    StageLog(tool, sourceLanguage, cleaned, removed)
  }

  /** The entries of the three stages, then the grammar step's. */
  function StageLog(tool: Option<GrammarTool>, sourceLanguage: string,
                    cleaned: string, removed: seq<string>): seq<string>
  {
    var log := StagesLog(cleaned, removed);
    if GrammarApplies(tool, sourceLanguage) then GrammarStep(tool, FixSpacing(Capitalize(cleaned)), log).1 else log
  }


  /** What the optional grammar step does to the log of the three stages
      before it: it appends at most one entry, of another kind. */
  lemma LogAfterGrammar(tool: Option<GrammarTool>, sourceLanguage: string, spaced: string,
                        log: seq<string>, count: nat)
    ensures var full := if GrammarApplies(tool, sourceLanguage) then GrammarStep(tool, spaced, log).1 else log;
      && full == log + full[|log|..]
      && |full| <= |log| + 1
      && forall x | x in full[|log|..] :: x != RemovedEntry(count) && x != CapitalizationEntry && x != SpacingEntry
  {
    EntriesDistinct(count, 0);
    if GrammarApplies(tool, sourceLanguage) {
      GrammarEntriesOnly(tool, spaced, log, count);
    } else {
      assert log[|log|..] == [];
    }
  }

  /** `correct_text` on a non-blank text, from the outcome of filler
      removal on. */
  function Pipeline(tool: Option<GrammarTool>, text: string, sourceLanguage: string,
                    cleaned: string, removed: seq<string>): (r: CorrectionResult)
    ensures r.rawText == text && r.fillerWordsRemoved == removed
    ensures var c := r.correctedText;
      (c != [] ==> IsTerminal(c[|c| - 1])) && NoPair(c, TerminalPair)
    ensures !(GrammarApplies(tool, sourceLanguage) && ToolRewrites(tool, FixSpacing(Capitalize(cleaned)))) ==>
      EqualsIgnoringCase(Content(r.correctedText), Content(cleaned))
    ensures var spaced := FixSpacing(Capitalize(cleaned));
      GrammarApplies(tool, sourceLanguage) && ToolRewrites(tool, spaced) ==>
        EqualsIgnoringCase(Content(r.correctedText), Content(tool.value(spaced).corrected))
  {
    var before := BeforeCleanup(tool, sourceLanguage, cleaned);
    StagesKeepContent(tool, sourceLanguage, cleaned, before);
    CorrectionResult(text, FinalCleanup(before),
                     PipelineLog(tool, sourceLanguage, cleaned, removed), removed)
  }

  /** Unless the grammar tool rewrites the text, the stages change only
      letter case, whitespace and terminators. */
  lemma StagesKeepContent(tool: Option<GrammarTool>, sourceLanguage: string, cleaned: string, before: string)
    requires before == BeforeCleanup(tool, sourceLanguage, cleaned)
    ensures !(GrammarApplies(tool, sourceLanguage) && ToolRewrites(tool, FixSpacing(Capitalize(cleaned)))) ==>
      EqualsIgnoringCase(Content(FinalCleanup(before)), Content(cleaned))
  {
    if !(GrammarApplies(tool, sourceLanguage) && ToolRewrites(tool, FixSpacing(Capitalize(cleaned)))) {
      CaseFoldWithoutTerminals(NonSpace(before), NonSpace(cleaned));
      CaseFoldTrans(Content(FinalCleanup(before)), Content(before), Content(cleaned));
    }
  }

  /** `correct_text`: a blank text comes back as it is with empty logs; any
      other text goes through every stage, so its corrected text is empty or
      ends in `.`, `!` or `?` and never holds two terminators side by side,
      and every removed item is, up to case, one of the fillers listed for the
      language, the removed items accounting for the characters removed. */
  function Correction(tool: Option<GrammarTool>, text: string, sourceLanguage: string): (r: CorrectionResult)
    ensures r.rawText == text
    ensures IsBlank(text) ==> r.correctedText == text && r.correctionsMade == [] && r.fillerWordsRemoved == []
    ensures !IsBlank(text) ==> var c := r.correctedText;
      (c != [] ==> IsTerminal(c[|c| - 1])) && NoPair(c, TerminalPair)
    ensures !IsBlank(text) ==> var fillers := FillerListFor(sourceLanguage);
      && (forall m | m in r.fillerWordsRemoved :: exists f | f in fillers :: EqualsIgnoringCase(m, f))
      && |RemoveEach(text, fillers).0| + |Concat(r.fillerWordsRemoved)| == |text|
    ensures !IsBlank(text) ==>
      var cleaned := RemoveFillers(text, FillerListFor(sourceLanguage)).0;
      var capitalized := Capitalize(cleaned);
      && (RemovedEntry(|r.fillerWordsRemoved|) in r.correctionsMade <==> r.fillerWordsRemoved != [])
      && (CapitalizationEntry in r.correctionsMade <==> capitalized != cleaned)
      && (SpacingEntry in r.correctionsMade <==> FixSpacing(capitalized) != capitalized)
    ensures !IsBlank(text) ==>
      var cleaned := RemoveFillers(text, FillerListFor(sourceLanguage)).0;
      !(GrammarApplies(tool, sourceLanguage) && ToolRewrites(tool, FixSpacing(Capitalize(cleaned)))) ==>
        EqualsIgnoringCase(Content(r.correctedText), Content(RemoveEach(text, FillerListFor(sourceLanguage)).0))
  {
    if IsBlank(text) then CorrectionResult(text, text, [], [])
    else
      var removal := RemoveFillers(text, FillerListFor(sourceLanguage));
      Pipeline(tool, text, sourceLanguage, removal.0, removal.1)
  }

  // ---------------------------------------------------------------------
  // Segments

  /** One segment of `correct_segments`: a copy with `raw_text` set to the
      original text and `text` to the corrected one; a segment without `text`
      is passed on as it is. */
  function CorrectSegment(tool: Option<GrammarTool>, seg: Segment, sourceLanguage: string): (r: Segment)
    requires HasTextString(seg)
    ensures "text" !in seg ==> r == seg
    ensures "text" in seg ==>
      && r.Keys == seg.Keys + {"raw_text"}
      && r["raw_text"] == seg["text"]
      && r["text"] == Str(Correction(tool, seg["text"].s, sourceLanguage).correctedText)
      && (forall key | key in seg && key != "text" && key != "raw_text" :: r[key] == seg[key])
  {
    if "text" in seg then WithNewText(seg, "raw_text", Correction(tool, seg["text"].s, sourceLanguage).correctedText)
    else seg
  }

  /** The copy `correct_segments` builds is `CorrectSegment`'s. */
  lemma CorrectedSegmentIs(tool: Option<GrammarTool>, seg: Segment, sourceLanguage: string,
                           result: CorrectionResult)
    requires HasTextString(seg) && "text" in seg
    requires result == Correction(tool, seg["text"].s, sourceLanguage)
    ensures seg["raw_text" := seg["text"]]["text" := Str(result.correctedText)]
      == CorrectSegment(tool, seg, sourceLanguage)
  {
  }

  // ---------------------------------------------------------------------
  // The object

  class NLPCorrector {
    /** The language the corrector was built for. */
    const language: string
    /** The grammar tool, or `None` when loading it raised. */
    const tool: Option<GrammarTool>
    const fillerWords: map<string, seq<string>> := FillerWords

    /** `__init__`: `loaded` is what constructing the grammar tool for
        `language` gave (`None` when it raised). */
    constructor (language: string, loaded: Option<GrammarTool>)
      ensures this.language == language && tool == loaded
      ensures fillerWords == FillerWords
    {
      this.language := language;
      this.tool := loaded;
    }

    /** `_remove_filler_words`. */
    method RemoveFillerWords(text: string, language: string) returns (result: string, removed: seq<string>)
      ensures (result, removed) == RemoveFillers(text, FillerListFor(language))
    {
      FillerWordsWellFormed();
      var langCode := LanguageKey(language);
      var fillers := if langCode in fillerWords then fillerWords[langCode] else fillerWords["en"];
      assert fillers == FillerListFor(language);
      removed := [];
      result := text;
      for i := 0 to |fillers|
        invariant WellFormedFillers(fillers[..i])
        invariant (result, removed) == RemoveEach(text, fillers[..i])
      {
        var filler := fillers[i];
        RemoveEachPrefix(text, fillers, i + 1);
        var matches := FindAll(result, filler);
        if matches != [] {
          removed := removed + matches;
          result := Sub(result, filler, []);
        }
      }
      assert fillers[..|fillers|] == fillers;
      result := Strip(CollapseWhitespace(result));
    }

    /** The loop of `_fix_capitalization` over the pieces of the split. */
    method FixSentences(sentences: seq<string>) returns (fixedSentences: seq<string>)
      ensures fixedSentences == FixAll(sentences)
    {
      fixedSentences := [];
      for i := 0 to |sentences|
        invariant |fixedSentences| == i
        invariant forall j | 0 <= j < i :: fixedSentences[j] == FixPiece(sentences[j])
      {
        var sentence := sentences[i];
        if !IsBlank(sentence) && !(sentence != [] && IsTerminal(sentence[0])) {
          sentence := Strip(sentence);
          if sentence != [] {
            sentence := [Upper(sentence[0])] + sentence[1..];
          }
          fixedSentences := fixedSentences + [sentence];
        } else {
          fixedSentences := fixedSentences + [sentence];
        }
      }
    }

    /** `_fix_capitalization`. */
    method FixCapitalization(text: string) returns (result: string)
      ensures result == Capitalize(text)
    {
      var sentences := SplitSentences(text);
      var fixedSentences := FixSentences(sentences);
      result := Concat(fixedSentences);
      if result != [] {
        result := [Upper(result[0])] + result[1..];
      }
    }

    /** `_apply_grammar_correction`; the caller's log comes in as `log` and
        goes out, possibly extended, as `newLog`. */
    method ApplyGrammarCorrection(text: string, log: seq<string>) returns (corrected: string, newLog: seq<string>)
      ensures (corrected, newLog) == GrammarStep(tool, text, log)
    {
      if tool.None? {
        return text, log;
      }
      var outcome := tool.value(text);
      if outcome.CheckRaised? {
        return text, log;
      }
      if outcome.issues > 0 {
        corrected := outcome.corrected;
        newLog := log + [GrammarEntry(outcome.issues)];
      } else {
        corrected, newLog := text, log;
      }
    }

    /** `correct_text`. */
    method CorrectText(text: string, sourceLanguage: string) returns (result: CorrectionResult)
      ensures result == Correction(tool, text, sourceLanguage)
    {
      if IsBlank(text) {
        return CorrectionResult(text, text, [], []);
      }
      var correctionsLog: seq<string> := [];
      var cleanedText, removedFillers := RemoveFillerWords(text, sourceLanguage);
      if removedFillers != [] {
        correctionsLog := correctionsLog + [RemovedEntry(|removedFillers|)];
      }
      assert correctionsLog == Logged([], removedFillers != [], RemovedEntry(|removedFillers|));
      var capitalizedText := FixCapitalization(cleanedText);
      ghost var log1 := correctionsLog;
      if capitalizedText != cleanedText {
        correctionsLog := correctionsLog + [CapitalizationEntry];
      }
      assert correctionsLog == Logged(log1, capitalizedText != cleanedText, CapitalizationEntry);
      var spacedText := FixSpacing(capitalizedText);
      ghost var log2 := correctionsLog;
      if spacedText != capitalizedText {
        correctionsLog := correctionsLog + [SpacingEntry];
      }
      assert correctionsLog == Logged(log2, spacedText != capitalizedText, SpacingEntry);
      var correctedText;
      if tool.Some? && "en" <= sourceLanguage {
        GrammarTextIgnoresLog(tool, spacedText, correctionsLog);
        correctedText, correctionsLog := ApplyGrammarCorrection(spacedText, correctionsLog);
      } else {
        correctedText := spacedText;
      }
      assert correctedText == BeforeCleanup(tool, sourceLanguage, cleanedText);
      assert correctionsLog == PipelineLog(tool, sourceLanguage, cleanedText, removedFillers);
      var finalText := FinalCleanup(correctedText);
      result := CorrectionResult(text, finalText, correctionsLog, removedFillers);
    }

    /** `correct_segments`: the segments in order, each corrected as
        `CorrectSegment` says. */
    method CorrectSegments(segments: seq<Segment>, sourceLanguage: string) returns (corrected: seq<Segment>)
      requires forall i | 0 <= i < |segments| :: HasTextString(segments[i])
      ensures |corrected| == |segments|
      ensures forall i | 0 <= i < |segments| :: corrected[i] == CorrectSegment(tool, segments[i], sourceLanguage)
    {
      corrected := [];
      for i := 0 to |segments|
        invariant |corrected| == i
        invariant forall j | 0 <= j < i :: corrected[j] == CorrectSegment(tool, segments[j], sourceLanguage)
      {
        var segment := segments[i];
        var correctedSegment := segment;
        if "text" in segment {
          var correctionResult := CorrectText(segment["text"].s, sourceLanguage);
          correctedSegment := segment["raw_text" := segment["text"]]["text" := Str(correctionResult.correctedText)];
          CorrectedSegmentIs(tool, segment, sourceLanguage, correctionResult);
        }
        corrected := corrected + [correctedSegment];
      }
    }
  }

  // ---------------------------------------------------------------------
  // What the pipeline guarantees

  lemma GrammarTextIgnoresLog(tool: Option<GrammarTool>, text: string, log: seq<string>)
    ensures GrammarStep(tool, text, log).0 == GrammarStep(tool, text, []).0
  {
  }

  lemma CorrectionIsPipeline(tool: Option<GrammarTool>, text: string, sourceLanguage: string)
    requires !IsBlank(text)
    ensures var removal := RemoveFillers(text, FillerListFor(sourceLanguage));
      Correction(tool, text, sourceLanguage) == Pipeline(tool, text, sourceLanguage, removal.0, removal.1)
  {
  }

  /** The text after filler removal. */
  function CleanedText(text: string, sourceLanguage: string): string {
    RemoveFillers(text, FillerListFor(sourceLanguage)).0
  }

  /** Three stages logged in turn, followed by entries of other kinds: each
      stage's entry is in the log exactly when that stage changed something. */
  lemma LoggedChain(changedA: bool, changedB: bool, changedC: bool,
                    entryA: string, entryB: string, entryC: string, extra: seq<string>)
    requires entryA != entryB && entryA != entryC && entryB != entryC
    requires forall x | x in extra :: x != entryA && x != entryB && x != entryC
    ensures var log := Logged(Logged(Logged([], changedA, entryA), changedB, entryB), changedC, entryC) + extra;
      && (entryA in log <==> changedA)
      && (entryB in log <==> changedB)
      && (entryC in log <==> changedC)
  {
  }

  /** The grammar step only appends, and what it appends is a grammar entry. */
  lemma GrammarEntriesOnly(tool: Option<GrammarTool>, text: string, log: seq<string>, count: nat)
    ensures var r := GrammarStep(tool, text, log).1;
      && r == log + r[|log|..]
      && forall x | x in r[|log|..] :: x != RemovedEntry(count) && x != CapitalizationEntry && x != SpacingEntry
  {
    var r := GrammarStep(tool, text, log).1;
    if |r| > |log| {
      var issues := tool.value(text).issues;
      assert r[|log|..] == [GrammarEntry(issues)];
      EntriesDistinct(count, issues);
    } else {
      assert r[|log|..] == [];
    }
  }

  /** In a corrected non-blank text every whole-word, case-insensitive
      i'm, i'll or i've reads I'm, I'll or I've, whatever the grammar tool
      returned, since the final clean-up runs after it. */
  lemma CorrectionCapitalisesContractions(tool: Option<GrammarTool>, text: string, sourceLanguage: string, k: nat)
    ensures var c := Correction(tool, text, sourceLanguage).correctedText;
      !IsBlank(text) ==>
        && (MatchAt(c, k, IM) ==> c[k..k + 3] == "I'm")
        && (MatchAt(c, k, ILL) ==> c[k..k + 4] == "I'll")
        && (MatchAt(c, k, IVE) ==> c[k..k + 4] == "I've")
  {
    if !IsBlank(text) {
      var removal := RemoveFillers(text, FillerListFor(sourceLanguage));
      var before := BeforeCleanup(tool, sourceLanguage, removal.0);
      CorrectionIsPipeline(tool, text, sourceLanguage);
      var c := FinalCleanup(before);
      if MatchAt(c, k, IM) {
        FinalCleanupCapitalisesIm(before, k);
      }
      if MatchAt(c, k, ILL) {
        FinalCleanupCapitalisesIll(before, k);
      }
      if MatchAt(c, k, IVE) {
        FinalCleanupCapitalisesIve(before, k);
      }
    }
  }

  /** The grammar step runs only for languages starting with `en`. */
  lemma NonEnglishSkipsGrammar(tool: Option<GrammarTool>, text: string, sourceLanguage: string)
    requires !("en" <= sourceLanguage)
    ensures Correction(tool, text, sourceLanguage) == Correction(None, text, sourceLanguage)
  {
  }

  /** A grammar tool that raises, or reports no issue, on the text it is given
      changes nothing: the pipeline falls back to the text it had. */
  lemma FailingToolIsNoOp(tool: GrammarTool, text: string, sourceLanguage: string)
    requires forall t :: !tool(t).Checked? || tool(t).issues == 0
    ensures Correction(Some(tool), text, sourceLanguage) == Correction(None, text, sourceLanguage)
  {
    if !IsBlank(text) {
      var removal := RemoveFillers(text, FillerListFor(sourceLanguage));
      CorrectionIsPipeline(Some(tool), text, sourceLanguage);
      CorrectionIsPipeline(None, text, sourceLanguage);
      PipelineNoOp(tool, text, sourceLanguage, removal.0, removal.1);
    }
  }

  lemma PipelineNoOp(tool: GrammarTool, text: string, sourceLanguage: string, cleaned: string, removed: seq<string>)
    requires forall t :: !tool(t).Checked? || tool(t).issues == 0
    ensures Pipeline(Some(tool), text, sourceLanguage, cleaned, removed)
      == Pipeline(None, text, sourceLanguage, cleaned, removed)
  {
    BeforeCleanupNoOp(tool, sourceLanguage, cleaned);
    PipelineLogNoOp(tool, sourceLanguage, cleaned, removed);
  }

  lemma BeforeCleanupNoOp(tool: GrammarTool, sourceLanguage: string, cleaned: string)
    requires forall t :: !tool(t).Checked? || tool(t).issues == 0
    ensures BeforeCleanup(Some(tool), sourceLanguage, cleaned) == BeforeCleanup(None, sourceLanguage, cleaned)
  {
    BeforeCleanupIs(Some(tool), sourceLanguage, cleaned);
    BeforeCleanupIs(None, sourceLanguage, cleaned);
    GrammarNoOp(tool, FixSpacing(Capitalize(cleaned)), []);
  }

  lemma BeforeCleanupIs(tool: Option<GrammarTool>, sourceLanguage: string, cleaned: string)
    ensures var spaced := FixSpacing(Capitalize(cleaned));
      BeforeCleanup(tool, sourceLanguage, cleaned)
        == if GrammarApplies(tool, sourceLanguage) then GrammarStep(tool, spaced, []).0 else spaced
  {
  }

  lemma GrammarNoOp(tool: GrammarTool, text: string, log: seq<string>)
    requires !tool(text).Checked? || tool(text).issues == 0
    ensures GrammarStep(Some(tool), text, log) == (text, log)
  {
  }

  lemma PipelineLogNoOp(tool: GrammarTool, sourceLanguage: string, cleaned: string, removed: seq<string>)
    requires forall t :: !tool(t).Checked? || tool(t).issues == 0
    ensures PipelineLog(Some(tool), sourceLanguage, cleaned, removed) == PipelineLog(None, sourceLanguage, cleaned, removed)
  {
    var spaced := FixSpacing(Capitalize(cleaned));
    var log := StagesLog(cleaned, removed);
    PipelineLogIs(Some(tool), sourceLanguage, cleaned, removed);
    PipelineLogIs(None, sourceLanguage, cleaned, removed);
    GrammarNoOp(tool, spaced, log);
  }

  /** The log of the three stages before the grammar step. */
  function StagesLog(cleaned: string, removed: seq<string>): seq<string> {
    var capitalized := Capitalize(cleaned);
    Logged(Logged(Logged([], removed != [], RemovedEntry(|removed|)),
                  capitalized != cleaned, CapitalizationEntry),
           FixSpacing(capitalized) != capitalized, SpacingEntry)
  }

  lemma PipelineLogIs(tool: Option<GrammarTool>, sourceLanguage: string, cleaned: string, removed: seq<string>)
    ensures var spaced, log := FixSpacing(Capitalize(cleaned)), StagesLog(cleaned, removed);
      PipelineLog(tool, sourceLanguage, cleaned, removed)
        == if GrammarApplies(tool, sourceLanguage) then GrammarStep(tool, spaced, log).1 else log
  {
  }


  // ---------------------------------------------------------------------
  // `correct_transcript`

  /** The language `correct_transcript` builds its corrector for: the code
      itself when it names a region, otherwise the code with `-US`. */
  function CorrectorLanguage(language: string): (r: string)
    ensures '-' in r && language <= r
    ensures '-' in language ==> r == language
    ensures '-' !in language ==> r == language + "-US"
  {
    if '-' in language then language else language + "-US"
  }

  /** `correct_transcript`: `loaded` is what building the grammar tool for
      the corrector's language gave. */
  method CorrectTranscript(text: string, language: string, loaded: Option<GrammarTool>) returns (corrected: string)
    ensures corrected == Correction(loaded, text, language).correctedText
  {
    var corrector := new NLPCorrector(CorrectorLanguage(language), loaded);
    var result := corrector.CorrectText(text, language);
    corrected := result.correctedText;
  }

  // ---------------------------------------------------------------------
  // A worked example

  /** Every stage after filler removal leaves an empty text empty, and only
      the removal is logged. */
  lemma PipelineOfEmpty(tool: Option<GrammarTool>, text: string, lang: string, removed: seq<string>)
    requires tool.None? || !tool.value([]).Checked? || tool.value([]).issues == 0
    ensures Pipeline(tool, text, lang, [], removed)
      == CorrectionResult(text, [], Logged([], removed != [], RemovedEntry(|removed|)), removed)
  {
    StagesOfEmpty();
    BeforeCleanupOfEmpty(tool, lang);
    PipelineLogOfEmpty(tool, lang, removed);
  }

  lemma StagesOfEmpty()
    ensures Capitalize([]) == [] && FixSpacing([]) == [] && FinalCleanup([]) == []
  {
  }

  lemma BeforeCleanupOfEmpty(tool: Option<GrammarTool>, lang: string)
    requires tool.None? || !tool.value([]).Checked? || tool.value([]).issues == 0
    ensures BeforeCleanup(tool, lang, []) == []
  {
    StagesOfEmpty();
    GrammarStepText(tool, []);
  }

  lemma PipelineLogOfEmpty(tool: Option<GrammarTool>, lang: string, removed: seq<string>)
    requires tool.None? || !tool.value([]).Checked? || tool.value([]).issues == 0
    ensures PipelineLog(tool, lang, [], removed) == Logged([], removed != [], RemovedEntry(|removed|))
  {
    StagesOfEmpty();
    PipelineLogIs(tool, lang, [], removed);
    if tool.Some? {
      GrammarNoOp(tool.value, [], Logged([], removed != [], RemovedEntry(|removed|)));
    }
  }

  lemma ExampleNotBlank(text: string)
    requires text == "um uh"
    ensures !IsBlank(text)
  {
    assert !IsSpace(text[0]);
  }

  lemma EnglishFillerList(lang: string)
    requires lang == "en"
    ensures FillerListFor(lang) == EnglishFillers
  {
  }

  lemma RemovedTwoEntry()
    ensures RemovedEntry(2) == "Removed 2 filler words"
  {
    assert NatToString(2) == "2";
  }

  /** `correct_text("um uh", "en")` with a grammar step that finds nothing:
      both words are fillers, so the corrected text is empty, the log holds
      only the removal, and the removed items follow the filler list. */
  lemma CorrectionExample(tool: Option<GrammarTool>, text: string, lang: string)
    requires text == "um uh" && lang == "en"
    requires tool.None? || !tool.value([]).Checked? || tool.value([]).issues == 0
    ensures Correction(tool, text, lang) == CorrectionResult(text, [], ["Removed 2 filler words"], ["uh", "um"])
  {
    ExampleNotBlank(text);
    CorrectionIsPipeline(tool, text, lang);
    EnglishFillerList(lang);
    RemoveFillersExample();
    PipelineOfEmpty(tool, text, lang, ["uh", "um"]);
    RemovedTwoEntry();
  }
}
