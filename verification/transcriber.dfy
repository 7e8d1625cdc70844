/** The multilingual transcriber: what it makes of the speech engine's
    result — the detected language and its name, the stripped transcript and
    segments, the corrected versions with their fail-soft fallback, the
    backward-compatible aliases and the confidence score. */
module Transcriber {
  import opened Chars
  import opened Text
  import opened Records
  import opened Corrector

  // ---------------------------------------------------------------------
  // The engine's result, taken as an input

  /** One segment of the engine's result; `noSpeechProb` is absent when the
      engine gives none. */
  datatype EngineSegment = EngineSegment(start: real, end: real, text: string, noSpeechProb: Option<real>)

  /** The engine's result: its text, the language it detected (if it reports
      one) and its segments (none when it reports none). */
  datatype EngineResult = EngineResult(text: string, language: Option<string>, segments: seq<EngineSegment>)

  /** Unexpected exceptions raised while correcting the text or the segments.
      The modelled pipeline itself never raises; these inputs stand for what
      lies outside it. */
  datatype Faults = Faults(textCorrectionRaises: bool, segmentCorrectionRaises: bool)

  /** The `nlp_corrections` record. */
  datatype CorrectionsInfo = CorrectionsInfo(correctionsMade: seq<string>, fillerWordsRemoved: seq<string>)

  /** The dictionary `transcribe_audio` returns; `text` and `segments` are the
      backward-compatible aliases of `correctedText` and `correctedSegments`. */
  datatype TranscriptionData = TranscriptionData(
    language: string,
    languageName: string,
    rawText: string,
    correctedText: string,
    text: string,
    rawSegments: seq<Segment>,
    correctedSegments: seq<Segment>,
    segments: seq<Segment>,
    confidence: real,
    nlpCorrections: Option<CorrectionsInfo>)

  /** A missing audio file raises `FileNotFoundError`; otherwise the data. */
  datatype TranscribeOutcome = AudioNotFound(path: string) | Transcribed(data: TranscriptionData)

  // ---------------------------------------------------------------------
  // Language tables

  /** `SUPPORTED_LANGUAGES`. */
  const SupportedLanguages: map<string, string> := map[
    "en" := "English", "es" := "Spanish", "fr" := "French", "de" := "German",
    "it" := "Italian", "pt" := "Portuguese", "ru" := "Russian", "ja" := "Japanese",
    "zh" := "Chinese", "ko" := "Korean", "ar" := "Arabic", "hi" := "Hindi",
    "ur" := "Urdu", "tr" := "Turkish", "pl" := "Polish", "nl" := "Dutch",
    "sv" := "Swedish", "da" := "Danish", "no" := "Norwegian", "fi" := "Finnish",
    "uk" := "Ukrainian", "el" := "Greek", "cs" := "Czech", "ro" := "Romanian",
    "vi" := "Vietnamese", "th" := "Thai", "id" := "Indonesian", "ms" := "Malay",
    "he" := "Hebrew", "fa" := "Persian"]

  /** The table inside `_get_language_name`. */
  const LanguageNames: map<string, string> := map[
    "en" := "English", "es" := "Spanish", "fr" := "French", "de" := "German",
    "it" := "Italian", "pt" := "Portuguese", "ru" := "Russian", "ja" := "Japanese",
    "zh" := "Chinese", "ko" := "Korean", "ar" := "Arabic", "hi" := "Hindi",
    "tr" := "Turkish", "pl" := "Polish", "nl" := "Dutch", "sv" := "Swedish",
    "da" := "Danish", "no" := "Norwegian", "fi" := "Finnish", "uk" := "Ukrainian",
    "el" := "Greek", "cs" := "Czech", "ro" := "Romanian", "vi" := "Vietnamese",
    "th" := "Thai", "id" := "Indonesian", "ms" := "Malay", "he" := "Hebrew",
    "fa" := "Persian", "ur" := "Urdu", "bn" := "Bengali"]

  /** The name `transcribe_audio` reports: the `SUPPORTED_LANGUAGES` entry, or
      `Unknown`. */
  function SupportedLanguageName(code: string): (name: string)
    ensures name != "Unknown" <==> code in SupportedLanguages
    ensures code in SupportedLanguages ==> name == SupportedLanguages[code]
  {
    if code in SupportedLanguages then SupportedLanguages[code] else "Unknown"
  }

  /** `_get_language_name`: the table entry, or the code upper-cased: equal
      to the code up to case, with no lower-case letter left. */
  function GetLanguageName(code: string): (name: string)
    ensures code in LanguageNames ==> name == LanguageNames[code]
    ensures code !in LanguageNames ==>
      && EqualsIgnoringCase(name, code)
      && forall k | 0 <= k < |name| :: !IsLowerLetter(name[k])
  {
    UpperStringFolds(code);
    if code in LanguageNames then LanguageNames[code] else UpperString(code)
  }

  /** The two tables agree on every supported code; the second adds only
      Bengali. */
  lemma LanguageTablesAgree()
    ensures "bn" !in SupportedLanguages
    ensures forall code | code in SupportedLanguages :: code in LanguageNames && LanguageNames[code] == SupportedLanguages[code]
    ensures forall code | code in LanguageNames :: code in SupportedLanguages || code == "bn"
  {
  }

  /** The two lookups give the same name for a supported code; they differ
      exactly on Bengali and on unknown codes, where one says `Unknown` and the
      other upper-cases the code. */
  lemma LanguageNameLookups(code: string)
    ensures code in SupportedLanguages ==> GetLanguageName(code) == SupportedLanguageName(code) != "Unknown"
    ensures code !in SupportedLanguages ==>
      SupportedLanguageName(code) == "Unknown" && (code == "bn" || code !in LanguageNames)
  {
    LanguageTablesAgree();
  }

  // ---------------------------------------------------------------------
  // Result shaping

  /** A forced language wins when it is a non-empty string; otherwise the
      engine's language, or `unknown` when it reports none. */
  function DetectedLanguage(forceLanguage: Option<string>, engine: EngineResult): (language: string)
    ensures forceLanguage.Some? && forceLanguage.value != [] ==> language == forceLanguage.value
    ensures (forceLanguage.None? || forceLanguage.value == []) && engine.language.Some? ==> language == engine.language.value
    ensures (forceLanguage.None? || forceLanguage.value == []) && engine.language.None? ==> language == "unknown"
  {
    if forceLanguage.Some? && forceLanguage.value != [] then forceLanguage.value
    else if engine.language.Some? then engine.language.value
    else "unknown"
  }

  /** One `raw_segments` entry: the timestamps and the stripped text. */
  function RawSegment(seg: EngineSegment): (r: Segment)
    ensures r.Keys == {"start", "end", "text"}
    ensures r["start"] == Num(seg.start) && r["end"] == Num(seg.end)
    ensures HasTextString(r) && Trimmed(r["text"].s) && NonSpace(r["text"].s) == NonSpace(seg.text)
  {
    NonSpaceStrip(seg.text);
    map["start" := Num(seg.start), "end" := Num(seg.end), "text" := Str(Strip(seg.text))]
  }

  /** `raw_segments`: one entry per engine segment, in order, with exactly the
      keys `start`, `end` and `text`. */
  function RawSegments(segs: seq<EngineSegment>): (r: seq<Segment>)
    ensures |r| == |segs|
    ensures forall i | 0 <= i < |segs| ::
      && r[i].Keys == {"start", "end", "text"}
      && r[i]["start"] == Num(segs[i].start) && r[i]["end"] == Num(segs[i].end)
      && r[i]["text"] == Str(Strip(segs[i].text))
    ensures forall i | 0 <= i < |r| :: HasTextString(r[i]) && Trimmed(r[i]["text"].s)
  {
    seq(|segs|, i requires 0 <= i < |segs| => RawSegment(segs[i]))
  }

  /** Correcting a raw segment keeps its timestamps. */
  lemma CorrectedSegmentKeepsTimes(tool: Option<GrammarTool>, segs: seq<EngineSegment>, language: string, i: nat)
    requires i < |segs|
    ensures var raw := RawSegments(segs);
      && CorrectSegment(tool, raw[i], language)["start"] == Num(segs[i].start)
      && CorrectSegment(tool, raw[i], language)["end"] == Num(segs[i].end)
  {
  }

  // ---------------------------------------------------------------------
  // Confidence

  /** `seg.get('no_speech_prob', 0.5)`: the engine's probability, or 0.5 when
      it gives none. */
  function NoSpeech(seg: EngineSegment): (p: real)
    ensures seg.noSpeechProb.None? ==> p == 0.5
    ensures seg.noSpeechProb.Some? ==> p == seg.noSpeechProb.value
  {
    match seg.noSpeechProb
    case None => 0.5
    case Some(p) => p
  }

  /** The sum of `1 - no_speech_prob` over the segments: between 0 and the
      number of segments when every probability lies in [0, 1], and exactly
      that number when every segment is certainly speech. */
  function SpeechSum(segs: seq<EngineSegment>): (sum: real)
    ensures (forall i | 0 <= i < |segs| :: 0.0 <= NoSpeech(segs[i]) <= 1.0) ==> 0.0 <= sum <= |segs| as real
    ensures (forall i | 0 <= i < |segs| :: segs[i].noSpeechProb == Some(0.0)) ==> sum == |segs| as real
    decreases |segs|
  {
    if segs == [] then 0.0
    else
      assert forall i | 0 <= i < |segs[1..]| :: segs[1..][i] == segs[i + 1];
      (1.0 - NoSpeech(segs[0])) + SpeechSum(segs[1..])
  }

  /** Python's `round(y)` on an exact value: the nearest integer, ties to the
      even one. */
  function RoundHalfEven(y: real): (n: int)
    ensures y - 0.5 <= n as real <= y + 0.5
    ensures (n as real == y - 0.5 || n as real == y + 0.5) ==> n % 2 == 0
  {
    var f := y.Floor;
    var d := y - f as real;
    if d < 0.5 then f
    else if d > 0.5 then f + 1
    else if f % 2 == 0 then f
    else f + 1
  }

  /** `round(x, 2)` on an exact value: within half a hundredth of `x`; it
      keeps a value in [0, 1] there, and keeps 1. */
  function Round2(x: real): (r: real)
    ensures x - 0.005 <= r <= x + 0.005
    ensures 0.0 <= x <= 1.0 ==> 0.0 <= r <= 1.0
    ensures x == 1.0 ==> r == 1.0
  {
    RoundHalfEven(x * 100.0) as real / 100.0
  }

  /** `_calculate_confidence`: 0.0 without segments, otherwise the mean of
      `1 - no_speech_prob` rounded to two places. */
  function Confidence(segs: seq<EngineSegment>): (c: real)
    ensures segs == [] ==> c == 0.0
    ensures (forall i | 0 <= i < |segs| :: 0.0 <= NoSpeech(segs[i]) <= 1.0) ==> 0.0 <= c <= 1.0
    ensures segs != [] && (forall i | 0 <= i < |segs| :: segs[i].noSpeechProb == Some(0.0)) ==> c == 1.0
  {
    if segs == [] then 0.0
    else
      MeanBounds(SpeechSum(segs), |segs| as real);
      Round2(SpeechSum(segs) / |segs| as real)
  }

  /** Dividing a value in [0, n] by n gives a value in [0, 1]. */
  lemma MeanBounds(sum: real, n: real)
    requires n > 0.0
    ensures 0.0 <= sum <= n ==> 0.0 <= sum / n <= 1.0
    ensures sum == n ==> sum / n == 1.0
  {
  }

  // ---------------------------------------------------------------------
  // The object

  class MultilingualTranscriber {
    var modelSize: string
    var enableNlpCorrection: bool
    var nlpCorrector: NLPCorrector?

    /** `__init__`: `correctorRaises` says whether constructing the English
        corrector raised, and `languageTool` what that corrector's grammar
        tool came out as. The engine model itself is not part of this model. */
    constructor (modelSize: string, enableNlpCorrection: bool, correctorRaises: bool, languageTool: Option<GrammarTool>)
      ensures this.modelSize == modelSize
      ensures this.enableNlpCorrection == (enableNlpCorrection && !correctorRaises)
      ensures (nlpCorrector != null) == this.enableNlpCorrection
      ensures nlpCorrector != null ==> nlpCorrector.language == "en-US" && nlpCorrector.tool == languageTool
    {
      this.modelSize := modelSize;
      this.enableNlpCorrection := enableNlpCorrection;
      this.nlpCorrector := null;
      new;
      if enableNlpCorrection {
        if correctorRaises {
          this.enableNlpCorrection := false;
        } else {
          this.nlpCorrector := new NLPCorrector("en-US", languageTool);
        }
      }
    }

    /** `transcribe_audio` without the engine call and the transcript files:
        `engine` is what the engine returned for `audioPath` (with the forced
        language, if any), `faults` which correction step raised. */
    method TranscribeAudio(audioPath: string, audioExists: bool, detectLanguage: bool,
                           forceLanguage: Option<string>, engine: EngineResult, faults: Faults)
      returns (outcome: TranscribeOutcome)
      ensures !audioExists <==> outcome == AudioNotFound(audioPath)
      ensures outcome.Transcribed? ==>
        var d := outcome.data;
        && d.language == DetectedLanguage(forceLanguage, engine)
        && d.languageName == SupportedLanguageName(d.language)
        && d.rawText == Strip(engine.text)
        && d.rawSegments == RawSegments(engine.segments)
        && d.text == d.correctedText && d.segments == d.correctedSegments
        && d.confidence == Confidence(engine.segments)
      ensures outcome.Transcribed? && (!(enableNlpCorrection && nlpCorrector != null) || faults.textCorrectionRaises) ==>
        outcome.data.correctedText == outcome.data.rawText && outcome.data.nlpCorrections == None
      ensures outcome.Transcribed? && enableNlpCorrection && nlpCorrector != null && !faults.textCorrectionRaises ==>
        var d := outcome.data;
        var c := Correction(nlpCorrector.tool, d.rawText, d.language);
        d.correctedText == c.correctedText && d.nlpCorrections == Some(CorrectionsInfo(c.correctionsMade, c.fillerWordsRemoved))
      ensures outcome.Transcribed? && (!(enableNlpCorrection && nlpCorrector != null) || faults.segmentCorrectionRaises) ==>
        outcome.data.correctedSegments == outcome.data.rawSegments
      ensures outcome.Transcribed? && enableNlpCorrection && nlpCorrector != null && !faults.segmentCorrectionRaises ==>
        var d := outcome.data;
        && |d.correctedSegments| == |engine.segments|
        && forall i | 0 <= i < |engine.segments| ::
             d.correctedSegments[i] == CorrectSegment(nlpCorrector.tool, d.rawSegments[i], d.language)
      ensures outcome.Transcribed? ==>
        var d := outcome.data;
        && |d.segments| == |engine.segments|
        && forall i | 0 <= i < |engine.segments| ::
             && d.segments[i]["start"] == Num(engine.segments[i].start)
             && d.segments[i]["end"] == Num(engine.segments[i].end)
    {
      if !audioExists {
        return AudioNotFound(audioPath);
      }
      var detectedLang := DetectedLanguage(forceLanguage, engine);
      var languageName := SupportedLanguageName(detectedLang);
      var rawText := Strip(engine.text);

      var correctedText := rawText;
      var correctionsInfo: Option<CorrectionsInfo> := None;
      if enableNlpCorrection && nlpCorrector != null {
        if !faults.textCorrectionRaises {
          var correctionResult := nlpCorrector.CorrectText(rawText, detectedLang);
          correctedText := correctionResult.correctedText;
          correctionsInfo := Some(CorrectionsInfo(correctionResult.correctionsMade, correctionResult.fillerWordsRemoved));
        } else {
          correctedText := rawText;
        }
      }

      var rawSegments := RawSegments(engine.segments);
      var correctedSegments := rawSegments;
      if enableNlpCorrection && nlpCorrector != null {
        if !faults.segmentCorrectionRaises {
          correctedSegments := nlpCorrector.CorrectSegments(rawSegments, detectedLang);
          forall i | 0 <= i < |engine.segments|
            ensures correctedSegments[i]["start"] == Num(engine.segments[i].start)
            ensures correctedSegments[i]["end"] == Num(engine.segments[i].end)
          {
            CorrectedSegmentKeepsTimes(nlpCorrector.tool, engine.segments, detectedLang, i);
          }
        }
      }

      var data := TranscriptionData(
        detectedLang, languageName, rawText, correctedText, correctedText,
        rawSegments, correctedSegments, correctedSegments,
        Confidence(engine.segments), correctionsInfo);
      return Transcribed(data);
    }
  }
}
