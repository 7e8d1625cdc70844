/** The request checks of the HTTP layer: the audio-extension whitelist, the
    order in which an upload is rejected, and the mapping of the form value
    `auto` to "no language". */
module Upload {
  import opened Text
  import opened Records

  /** `ALLOWED_EXTENSIONS`. */
  const AllowedExtensions: set<string> := {"mp3", "wav", "webm", "ogg", "m4a", "flac", "aac", "wma"}

  /** No `.` in `name` after index `i`. */
  predicate NoDotAfter(name: string, i: nat) {
    forall k | i < k < |name| :: name[k] != '.'
  }

  /** The index of the last `.` among the first `n` characters of a name, if
      there is one. */
  function LastDotBefore(name: string, n: nat): (r: Option<nat>)
    requires n <= |name|
    ensures r.None? <==> forall k | 0 <= k < n :: name[k] != '.'
    ensures r.Some? ==> r.value < n && name[r.value] == '.' && forall k | r.value < k < n :: name[k] != '.'
  {
    if n == 0 then None
    else if name[n - 1] == '.' then Some(n - 1)
    else LastDotBefore(name, n - 1)
  }

  /** `allowed_file`: the name has a `.`, and the text after the last one,
      lower-cased, is one of `ALLOWED_EXTENSIONS`. */
  function AllowedFile(name: string): (allowed: bool)
    ensures allowed <==> exists i | 0 <= i < |name| ::
      name[i] == '.' && NoDotAfter(name, i) && LowerString(name[i + 1..]) in AllowedExtensions
  {
    var r := LastDotBefore(name, |name|);
    var ok := ext => LowerString(ext) in AllowedExtensions;
    LastDotPasses(name, ok);
    PassingDotIsLast(name, ok);
    r.Some? && LowerString(name[r.value + 1..]) in AllowedExtensions
  }

  /** When a test holds of the text after the last dot, some dot with no dot
      after it passes the test. */
  lemma LastDotPasses(name: string, ok: string -> bool)
    ensures var r := LastDotBefore(name, |name|);
      (r.Some? && ok(name[r.value + 1..])) ==>
      exists i | 0 <= i < |name| :: name[i] == '.' && NoDotAfter(name, i) && ok(name[i + 1..])
  {
    var r := LastDotBefore(name, |name|);
    if r.Some? && ok(name[r.value + 1..]) {
      var j := r.value;
      assert name[j] == '.' && NoDotAfter(name, j) && ok(name[j + 1..]);
    }
  }

  /** A dot with no dot after it that passes a test is the last dot. */
  lemma PassingDotIsLast(name: string, ok: string -> bool)
    ensures var r := LastDotBefore(name, |name|);
      (exists i | 0 <= i < |name| :: name[i] == '.' && NoDotAfter(name, i) && ok(name[i + 1..])) ==>
      (r.Some? && ok(name[r.value + 1..]))
  {
    var r := LastDotBefore(name, |name|);
    forall i | 0 <= i < |name| && name[i] == '.' && NoDotAfter(name, i) && ok(name[i + 1..])
      ensures r.Some? && ok(name[r.value + 1..])
    {
      LastDotIs(name, i);
    }
  }

  /** A dot with no dot after it is the last dot. */
  lemma LastDotIs(name: string, i: nat)
    requires i < |name| && name[i] == '.' && NoDotAfter(name, i)
    ensures LastDotBefore(name, |name|) == Some(i)
  {
    var r := LastDotBefore(name, |name|);
    assert r.Some?;
    var j := r.value;
    assert !(j < i) && !(i < j);
  }

  /** A name with a dot is judged by the text after its last dot, whatever
      comes before. */
  lemma AllowedExtensionAt(name: string, i: nat)
    requires i < |name| && name[i] == '.' && NoDotAfter(name, i)
    ensures AllowedFile(name) <==> LowerString(name[i + 1..]) in AllowedExtensions
  {
    LastDotIs(name, i);
    var r := LastDotBefore(name, |name|);
    assert r.value == i;
    assert AllowedFile(name) == (LowerString(name[r.value + 1..]) in AllowedExtensions);
  }

  /** A name without a dot is never allowed. */
  lemma AllowedFileNeedsDot(name: string)
    requires forall k | 0 <= k < |name| :: name[k] != '.'
    ensures !AllowedFile(name)
  {
  }

  /** The extension is the text after the last dot, compared without case. */
  lemma AllowedFileLastExtension()
    ensures AllowedFile("a.tar.WAV")
  {
    var s := "a.tar.WAV";
    AllowedExtensionAt(s, 5);
    assert s[6..] == "WAV";
    assert LowerString("WAV") == "wav";
  }

  /** Only the last extension counts. */
  lemma AllowedFileOnlyLastExtension()
    ensures !AllowedFile("a.wav.zip")
  {
    var s := "a.wav.zip";
    AllowedExtensionAt(s, 5);
    assert s[6..] == "zip";
    assert LowerString("zip") == "zip";
  }

  /** A name with nothing after its last dot, or without a dot, is never
      allowed. */
  lemma AllowedFileNeedsExtension()
    ensures !AllowedFile("a.")
    ensures !AllowedFile("wav")
  {
    AllowedExtensionAt("a.", 1);
    assert "a."[2..] == "";
    assert forall k | 0 <= k < 3 :: "wav"[k] != '.';
  }

  // ---------------------------------------------------------------------
  // Request validation

  /** The routes modelled here that take an audio upload: `/api/upload`,
      `/api/live-record` and `/api/transcribe`. */
  datatype Route = UploadRoute | LiveRecordRoute | TranscribeRoute

  /** The parts of a request the checks look at: the filename of the `audio`
      file part (when there is one) and the form fields. */
  datatype UploadRequest = UploadRequest(audio: Option<string>, form: map<string, string>)

  /** Why a request is rejected with status 400. */
  datatype Rejection = NoAudioFile | NoAudioData | NoFileSelected | InvalidFileType

  /** A rejection with its status, or an accepted request: the name to save
      the file under (before it is made safe) and the language to force. */
  datatype Validation = Rejected(status: nat, reason: Rejection) | Accepted(filename: string, language: Option<string>)

  /** `request.form.get(key, None)`: the field's value when the form has the
      field, and nothing otherwise. */
  function FormValue(form: map<string, string>, key: string): (v: Option<string>)
    ensures v.Some? <==> key in form
    ensures v.Some? ==> v.value == form[key]
  {
    if key in form then Some(form[key]) else None
  }

  /** The form value `auto` means no forced language. */
  function NormalizeLanguage(language: Option<string>): (r: Option<string>)
    ensures r != Some("auto")
    ensures language != Some("auto") ==> r == language
  {
    if language == Some("auto") then None else language
  }

  /** The checks each route makes before it saves the file, in the order it
      makes them. Every rejection is a 400; a request is accepted exactly when
      it carries the audio part and, except on the recording route, its name
      has an allowed extension. */
  function ValidateUpload(route: Route, request: UploadRequest): (v: Validation)
    ensures v.Rejected? ==> v.status == 400
    ensures v.Accepted? <==>
      request.audio.Some? && (route == LiveRecordRoute || AllowedFile(request.audio.value))
  {
    AllowedFileNeedsDot("");
    match route
    case UploadRoute =>
      if request.audio.None? then Rejected(400, NoAudioFile)
      else if request.audio.value == "" then Rejected(400, NoFileSelected)
      else if !AllowedFile(request.audio.value) then Rejected(400, InvalidFileType)
      else Accepted(request.audio.value, NormalizeLanguage(FormValue(request.form, "language")))
    case LiveRecordRoute =>
      if request.audio.None? then Rejected(400, NoAudioData)
      else Accepted("recording.webm", NormalizeLanguage(FormValue(request.form, "language")))
    case TranscribeRoute =>
      if request.audio.None? then Rejected(400, NoAudioFile)
      else if request.audio.value == "" then Rejected(400, NoFileSelected)
      else if !AllowedFile(request.audio.value) then Rejected(400, InvalidFileType)
      else Accepted(request.audio.value, FormValue(request.form, "force_language"))
  }

  /** An uploaded file is saved only when the audio part is present, has a
      name, and the name has an allowed extension; each failed check gives its
      own 400 response, the first failing one winning. */
  lemma UploadValidationOrder(route: Route, request: UploadRequest)
    requires route != LiveRecordRoute
    ensures var v := ValidateUpload(route, request);
      && (v.Accepted? <==> request.audio.Some? && AllowedFile(request.audio.value))
      && (v.Accepted? ==> v.filename == request.audio.value)
      && (request.audio.None? ==> v == Rejected(400, NoAudioFile))
      && (request.audio == Some("") ==> v == Rejected(400, NoFileSelected))
      && (request.audio.Some? && request.audio.value != "" && !AllowedFile(request.audio.value) ==>
            v == Rejected(400, InvalidFileType))
  {
    if request.audio == Some("") {
      assert !AllowedFile("");
    }
  }

  /** The recording route only needs the audio part and saves it under a
      fixed name. */
  lemma LiveRecordValidation(request: UploadRequest)
    ensures var v := ValidateUpload(LiveRecordRoute, request);
      && (v.Accepted? <==> request.audio.Some?)
      && (v.Rejected? ==> v == Rejected(400, NoAudioData))
      && (v.Accepted? ==> v.filename == "recording.webm")
  {
  }

  /** The upload and recording routes never pass `auto` on as a language and
      otherwise pass the form's `language` unchanged; the transcription route
      passes `force_language` as it is, `auto` included. */
  lemma LanguageNormalization(route: Route, request: UploadRequest)
    requires ValidateUpload(route, request).Accepted?
    ensures var v := ValidateUpload(route, request);
      && (route != TranscribeRoute ==> v.language != Some("auto"))
      && (route != TranscribeRoute && FormValue(request.form, "language") != Some("auto") ==>
            v.language == FormValue(request.form, "language"))
      && (route == TranscribeRoute ==> v.language == FormValue(request.form, "force_language"))
  {
  }
}
