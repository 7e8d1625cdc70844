/** The translator: the empty-text guard and the result records around an
    external translation service, the segment and batch loops over it, and
    the language table. */
module Translation {
  import opened Chars
  import opened Text
  import opened Records
  import Transcriber

  /** What the service makes of one request: a translation, or an exception
      with its message. */
  datatype ServiceOutcome = ServiceRaised(message: string) | ServiceTranslated(text: string)

  /** The translation service, given the source language, the target
      language and the text. */
  type TranslationService = (string, string, string) -> ServiceOutcome

  /** The dictionary `translate_text` returns; `error` is present only on a
      failure. */
  datatype TranslationResult = TranslationResult(
    originalText: string,
    translatedText: string,
    sourceLang: string,
    targetLang: string,
    success: bool,
    error: Option<string>)

  const EmptyTextError := "Empty text provided"

  /** `translate_text`: a blank text is refused without calling the service;
      otherwise the service's translation, or an empty one with the
      exception's message. */
  function TranslateText(service: TranslationService, text: string, targetLang: string, sourceLang: string): (r: TranslationResult)
    ensures r.originalText == text && r.sourceLang == sourceLang && r.targetLang == targetLang
    ensures r.success <==> !IsBlank(text) && service(sourceLang, targetLang, text).ServiceTranslated?
    ensures r.success ==> r.translatedText == service(sourceLang, targetLang, text).text && r.error == None
    ensures !r.success ==> r.translatedText == [] && r.error.Some?
    ensures IsBlank(text) ==> r.error == Some(EmptyTextError)
    ensures !IsBlank(text) && service(sourceLang, targetLang, text).ServiceRaised? ==>
      r.error == Some(service(sourceLang, targetLang, text).message)
  {
    if IsBlank(text) then
      TranslationResult(text, [], sourceLang, targetLang, false, Some(EmptyTextError))
    else
      match service(sourceLang, targetLang, text)
      case ServiceTranslated(translated) =>
        TranslationResult(text, translated, sourceLang, targetLang, true, None)
      case ServiceRaised(message) =>
        TranslationResult(text, [], sourceLang, targetLang, false, Some(message))
  }

  /** The result does not depend on the service when the text is blank. */
  lemma BlankTextSkipsService(s1: TranslationService, s2: TranslationService, text: string, targetLang: string, sourceLang: string)
    requires IsBlank(text)
    ensures TranslateText(s1, text, targetLang, sourceLang) == TranslateText(s2, text, targetLang, sourceLang)
  {
  }

  /** A segment whose text `translate_segments` can pass on. */
  predicate Translatable(seg: Segment) {
    "text" in seg && seg["text"].Str?
  }

  /** One entry of `translate_segments` for a given service: a copy of the
      segment with the old text under `original_text` and, as `text`, the
      service's translation, or the empty text when translating failed. */
  function TranslateSegment(service: TranslationService, seg: Segment, targetLang: string, sourceLang: string): (r: Segment)
    requires Translatable(seg)
    ensures r.Keys == seg.Keys + {"original_text"}
    ensures r["original_text"] == seg["text"]
    ensures forall key | key in seg && key != "text" && key != "original_text" :: r[key] == seg[key]
    ensures var text := seg["text"].s;
      !IsBlank(text) && service(sourceLang, targetLang, text).ServiceTranslated? ==>
        r["text"] == Str(service(sourceLang, targetLang, text).text)
    ensures var text := seg["text"].s;
      IsBlank(text) || service(sourceLang, targetLang, text).ServiceRaised? ==> r["text"] == Str([])
  {
    WithNewText(seg, "original_text", TranslateText(service, seg["text"].s, targetLang, sourceLang).translatedText)
  }

  /** One item of `batch_translate`: the translation, or the text itself when
      translating failed. */
  function BatchItem(service: TranslationService, text: string, targetLang: string, sourceLang: string): (r: string)
    ensures IsBlank(text) ==> r == text
    ensures service(sourceLang, targetLang, text).ServiceRaised? ==> r == text
    ensures !IsBlank(text) && service(sourceLang, targetLang, text).ServiceTranslated? ==>
      r == service(sourceLang, targetLang, text).text
  {
    var result := TranslateText(service, text, targetLang, sourceLang);
    if result.success then result.translatedText else text
  }

  /** The language table of `_get_supported_languages`. */
  const TranslatorLanguages: map<string, string> := map[
    "auto" := "Auto-detect", "en" := "English", "es" := "Spanish", "fr" := "French",
    "de" := "German", "it" := "Italian", "pt" := "Portuguese", "ru" := "Russian",
    "ja" := "Japanese", "zh-CN" := "Chinese (Simplified)", "zh-TW" := "Chinese (Traditional)",
    "ko" := "Korean", "ar" := "Arabic", "hi" := "Hindi", "tr" := "Turkish",
    "pl" := "Polish", "nl" := "Dutch", "sv" := "Swedish", "da" := "Danish",
    "no" := "Norwegian", "fi" := "Finnish", "uk" := "Ukrainian", "el" := "Greek",
    "cs" := "Czech", "ro" := "Romanian", "vi" := "Vietnamese", "th" := "Thai",
    "id" := "Indonesian", "ms" := "Malay", "he" := "Hebrew", "fa" := "Persian",
    "ur" := "Urdu", "bn" := "Bengali"]

  class TextTranslator {
    const supportedLanguages: map<string, string>

    /** `__init__`. */
    constructor ()
      ensures supportedLanguages == TranslatorLanguages
    {
      supportedLanguages := TranslatorLanguages;
    }

    /** `translate_segments`: every segment in order, each with its text
        translated and the original kept under `original_text`. */
    method TranslateSegments(service: TranslationService, segments: seq<Segment>, targetLang: string, sourceLang: string)
      returns (translatedSegments: seq<Segment>)
      requires forall i | 0 <= i < |segments| :: Translatable(segments[i])
      ensures |translatedSegments| == |segments|
      ensures forall i | 0 <= i < |segments| ::
        translatedSegments[i] == TranslateSegment(service, segments[i], targetLang, sourceLang)
    {
      translatedSegments := [];
      for i := 0 to |segments|
        invariant |translatedSegments| == i
        invariant forall j | 0 <= j < i ::
          translatedSegments[j] == TranslateSegment(service, segments[j], targetLang, sourceLang)
      {
        var segment := segments[i];
        var translatedText := TranslateText(service, segment["text"].s, targetLang, sourceLang);
        var translatedSegment := segment["original_text" := segment["text"]];
        translatedSegment := translatedSegment["text" := Str(translatedText.translatedText)];
        translatedSegments := translatedSegments + [translatedSegment];
      }
    }

    /** `batch_translate`: one item per text, in order. */
    method BatchTranslate(service: TranslationService, texts: seq<string>, targetLang: string, sourceLang: string)
      returns (results: seq<string>)
      ensures |results| == |texts|
      ensures forall i | 0 <= i < |texts| :: results[i] == BatchItem(service, texts[i], targetLang, sourceLang)
    {
      results := [];
      for i := 0 to |texts|
        invariant |results| == i
        invariant forall j | 0 <= j < i :: results[j] == BatchItem(service, texts[j], targetLang, sourceLang)
      {
        var result := TranslateText(service, texts[i], targetLang, sourceLang);
        results := results + [if result.success then result.translatedText else texts[i]];
      }
    }

    /** `get_language_name`: the table entry, or the code upper-cased: equal
        to the code up to case, with no lower-case letter left. */
    function GetLanguageName(code: string): (name: string)
      reads this
      ensures code in supportedLanguages ==> name == supportedLanguages[code]
      ensures code !in supportedLanguages ==>
        && EqualsIgnoringCase(name, code)
        && forall k | 0 <= k < |name| :: !IsLowerLetter(name[k])
    {
      UpperStringFolds(code);
      if code in supportedLanguages then supportedLanguages[code] else UpperString(code)
    }

    /** `is_language_supported`: the code is a key of the table, and exactly
        then `get_language_name` names it from the table rather than by
        upper-casing it. */
    function IsLanguageSupported(code: string): (supported: bool)
      reads this
      ensures supported <==> code in supportedLanguages
      ensures supported ==> GetLanguageName(code) == supportedLanguages[code]
      ensures !supported ==> GetLanguageName(code) == UpperString(code)
    {
      code in supportedLanguages
    }

    /** A supported code is named by the table, any other code by its
        upper-cased self. */
    lemma LanguageLookups(code: string)
      requires supportedLanguages == TranslatorLanguages
      ensures IsLanguageSupported(code) <==> code in TranslatorLanguages
      ensures IsLanguageSupported(code) ==> GetLanguageName(code) == TranslatorLanguages[code]
      ensures !IsLanguageSupported(code) ==> GetLanguageName(code) == UpperString(code)
    {
    }
  }

  /** `auto` is a supported code; Chinese is supported only as `zh-CN` and
      `zh-TW`, so the plain `zh` is named `ZH`. */
  lemma TranslatorTableCodes()
    ensures "auto" in TranslatorLanguages && TranslatorLanguages["auto"] == "Auto-detect"
    ensures "zh-CN" in TranslatorLanguages && "zh-TW" in TranslatorLanguages
    ensures "zh" !in TranslatorLanguages && UpperString("zh") == "ZH"
  {
  }

  /** A segment whose translation fails gets an empty text, and its original
      text is kept. */
  lemma FailedSegmentIsEmptied(service: TranslationService, seg: Segment, targetLang: string, sourceLang: string)
    requires Translatable(seg)
    requires !TranslateText(service, seg["text"].s, targetLang, sourceLang).success
    ensures var r := TranslateSegment(service, seg, targetLang, sourceLang);
      r["text"] == Str([]) && r["original_text"] == seg["text"]
  {
  }

  /** The batch and the segment loops agree: where a translation succeeds
      the batch item is the segment's new text, and where it fails the batch
      keeps the text while the segment is emptied. */
  lemma BatchAgreesWithSegments(service: TranslationService, seg: Segment, targetLang: string, sourceLang: string)
    requires Translatable(seg)
    ensures var text := seg["text"].s;
      var r := TranslateText(service, text, targetLang, sourceLang);
      var translated := WithNewText(seg, "original_text", r.translatedText);
      && (r.success ==> translated["text"] == Str(BatchItem(service, text, targetLang, sourceLang)))
      && (!r.success ==> BatchItem(service, text, targetLang, sourceLang) == text && translated["text"] == Str([]))
  {
  }

  /** Every language the transcriber names is a translator code except
      Chinese, which the transcriber reports as `zh` and the translator knows
      only as `zh-CN` and `zh-TW`. */
  lemma TranscriberCodesTranslatable()
    ensures forall code | code in Transcriber.SupportedLanguages && code != "zh" :: code in TranslatorLanguages
    ensures "zh" in Transcriber.SupportedLanguages && "zh" !in TranslatorLanguages
  {
  }
}
