/** The validation and planning prefix of the two endpoints: synthesize
    (main.py:147-180) and synthesize_stream (main.py:256-282). Everything the
    handlers do before the first engine call is a function of the request:
    it ends either in an HTTP error or in a plan, the chunks to synthesize
    with the pause and the prosody rate to use.

    Reading and decoding an uploaded file is not modelled: the upload arrives
    already decoded, or marked as not valid UTF-8. */
module Planner {
  import opened Wrappers
  import opened Text
  import Slides
  import Chunker
  import Pace

  /** An uploaded file after content.decode("utf-8"). */
  datatype Upload = Decoded(text: string) | NotUtf8

  /** The handler's parameters, after FastAPI has bound the form fields to
      them (Bind). fmt is only read by synthesize. */
  datatype Request = Request(
    file: Option<Upload>,
    text: Option<string>,
    fmt: Option<string>,
    pace: Option<string>,
    pauseMs: Option<int>)

  /** The form fields as the client sends them. A text field is left out
      (None) or sent with some text, possibly empty; pauseMs is None when
      the field is left out or sent empty, FastAPI treating both alike. */
  datatype FormFields = FormFields(
    file: Option<Upload>,
    text: Option<string>,
    fmt: Option<string>,
    pace: Option<string>,
    pauseMs: Option<int>)

  /** The defaults the handlers declare: Form("mp3"), Form("normal"), Form(300). */
  const DefaultFormat: string := "mp3"
  const DefaultPace: string := "normal"
  const DefaultPauseMs: int := 300

  /** FastAPI's binding of an optional form field: a field left out, or sent
      as the empty string, takes the declared default. */
  function FormValue(sent: Option<string>, default: Option<string>): (v: Option<string>)
    ensures v == default || v == sent
    ensures v.Some? && v.value == "" ==> default == Some("")
  {
    if sent.None? || sent == Some("") then default else sent
  }

  /** The parameters a handler receives for the fields a client sends. */
  function Bind(f: FormFields): (r: Request)
    ensures r.file == f.file
  {
    Request(
      f.file,
      FormValue(f.text, None),
      FormValue(f.fmt, Some(DefaultFormat)),
      FormValue(f.pace, Some(DefaultPace)),
      if f.pauseMs.None? then Some(DefaultPauseMs) else f.pauseMs)
  }

  /** Which endpoint handles the request. */
  datatype Endpoint = Synthesize | SynthesizeStream

  datatype Format = Mp3 | Wav

  /** An HTTPException: status code and detail. */
  datatype Failure = Failure(status: nat, detail: string)

  /** What the handler goes on to synthesize. */
  datatype Plan = Plan(chunks: seq<string>, pauseMs: nat, rate: string, format: Format)

  /** MAX_CHARS. */
  const MaxChars: nat := 200000

  /** CHUNK_SIZE. */
  const ChunkSize: nat := 4000

  /** No file, and the text is absent or only whitespace. */
  predicate NoText(r: Request)
  {
    r.file.None? && (r.text.None? || Strip(r.text.value) == [])
  }

  /** The text to speak before stripping: the decoded file if there is one,
      otherwise text or "". */
  function RawText(r: Request): string
    requires !(r.file.Some? && r.file.value.NotUtf8?)
  {
    match r.file
    case Some(u) => u.text
    case None => match r.text case None => "" case Some(t) => t
  }

  /** The output format synthesize accepts, if fmt is one. */
  function FormatOf(fmt: Option<string>): Option<Format>
  {
    if fmt == Some("mp3") then Some(Mp3) else if fmt == Some("wav") then Some(Wav) else None
  }

  /** The handler up to split_text: the checks in the order the code makes
      them, then the pace, the pause, slide preprocessing, the length limit
      on the preprocessed text and the chunks. */
  function PlanRequest(ep: Endpoint, r: Request): Result<Plan, Failure>
  {
    if NoText(r) then Err(Failure(400, "No text provided"))
    else if r.file.Some? && r.file.value.NotUtf8? then Err(Failure(400, "Uploaded file must be UTF-8 text"))
    else
      var stripped := Strip(RawText(r));
      if stripped == [] then Err(Failure(400, "Text is empty"))
      else if ep == Synthesize && FormatOf(r.fmt).None? then Err(Failure(400, "Unsupported format"))
      else
        var pace := Pace.ResolvePace(Pace.PaceOrNormal(r.pace));
        var pause := Pace.EffectivePause(Pace.BasePause(r.pauseMs), pace);
        var normalised := Slides.PreprocessSlides(stripped);
        if |normalised| > MaxChars then Err(Failure(413, "Text too long (max 200000 characters)"))
        else
          var format := if ep == Synthesize then FormatOf(r.fmt).value else Mp3;
          Ok(Plan(Chunker.SplitSpec(normalised, ChunkSize), pause, pace.rate, format))
  }

  /** The request carries no text: the first check fails whatever else the
      request holds, and nothing else produces that error. */
  lemma NoTextFirst(ep: Endpoint, r: Request)
    ensures PlanRequest(ep, r) == Err(Failure(400, "No text provided")) <==> NoText(r)
  {
  }

  /** An uploaded file takes precedence: the text field is then never read. */
  lemma FileTakesPrecedence(ep: Endpoint, r: Request, text: Option<string>)
    requires r.file.Some?
    ensures PlanRequest(ep, r) == PlanRequest(ep, r.(text := text))
  {
  }

  /** synthesize_stream does not look at fmt. */
  lemma StreamIgnoresFormat(r: Request, fmt: Option<string>)
    ensures PlanRequest(SynthesizeStream, r) == PlanRequest(SynthesizeStream, r.(fmt := fmt))
  {
  }

  /** When both endpoints accept a request they plan the same chunks, pause
      and rate; only the format may differ. */
  lemma EndpointsAgree(r: Request)
    requires PlanRequest(Synthesize, r).Ok? && PlanRequest(SynthesizeStream, r).Ok?
    ensures PlanRequest(Synthesize, r).value.chunks == PlanRequest(SynthesizeStream, r).value.chunks
    ensures PlanRequest(Synthesize, r).value.pauseMs == PlanRequest(SynthesizeStream, r).value.pauseMs
    ensures PlanRequest(Synthesize, r).value.rate == PlanRequest(SynthesizeStream, r).value.rate
  {
  }

  /** Text that is only whitespace after stripping can only come from a
      file: pasted blank text is already refused as "No text provided". */
  lemma TextEmptyOnlyFromFile(ep: Endpoint, r: Request)
    ensures PlanRequest(ep, r) == Err(Failure(400, "Text is empty")) ==> r.file.Some?
  {
  }

  /** Only synthesize checks the format, after the text checks: it refuses
      exactly the formats other than "mp3" and "wav". */
  lemma FormatChecked(r: Request)
    requires !NoText(r) && !(r.file.Some? && r.file.value.NotUtf8?) && Strip(RawText(r)) != []
    ensures PlanRequest(Synthesize, r) == Err(Failure(400, "Unsupported format"))
      <==> r.fmt != Some("mp3") && r.fmt != Some("wav")
  {
  }

  /** Once the earlier checks pass, the request is refused with 413 exactly
      when the text after slide preprocessing, not the text as sent, is
      longer than MaxChars. */
  lemma LimitOnNormalisedText(ep: Endpoint, r: Request)
    requires !NoText(r) && !(r.file.Some? && r.file.value.NotUtf8?) && Strip(RawText(r)) != []
    requires ep == SynthesizeStream || FormatOf(r.fmt).Some?
    ensures PlanRequest(ep, r).Err? <==> |Slides.PreprocessSlides(Strip(RawText(r)))| > MaxChars
    ensures PlanRequest(ep, r).Err? ==> PlanRequest(ep, r).error.status == 413
  {
  }

  /** Slide preprocessing keeps a stripped text non-empty and starting with
      a character that is not whitespace. */
  lemma SlidesKeepFront(s: string)
    requires |s| > 0 && !IsSpace(s[0])
    ensures |Slides.PreprocessSlides(s)| > 0 && !IsSpace(Slides.PreprocessSlides(s)[0])
  {
    if Slides.UnitAt(s, 0) {
      assert Slides.PreprocessSlides(s)[0] == Slides.PauseToken[0];
    }
  }

  /** Chunks fit to send: at least one, each non-empty, at most ChunkSize
      characters long and stripped. */
  predicate ChunksOk(chunks: seq<string>)
  {
    |chunks| >= 1 && forall i :: 0 <= i < |chunks| ==> 0 < |chunks[i]| <= ChunkSize && Strip(chunks[i]) == chunks[i]
  }

  /** split_text on preprocessed non-blank text gives chunks fit to send. */
  lemma {:induction false} SplitNormalisedOk(stripped: string)
    requires |stripped| > 0 && !IsSpace(stripped[0])
    ensures ChunksOk(Chunker.SplitSpec(Slides.PreprocessSlides(stripped), ChunkSize))
  {
    var normalised := Slides.PreprocessSlides(stripped);
    SlidesKeepFront(stripped);
    Chunker.SplitSpecCovers(normalised, ChunkSize);
    if |Strip(normalised)| <= ChunkSize {
      StripFromNonSpace(normalised);
      StripStripped(Strip(normalised));
    } else {
      var chunks := Chunker.SplitSpec(normalised, ChunkSize);
      Chunker.SplitSpecGood(normalised, ChunkSize);
      Chunker.ChunksOf(Chunker.PiecesFrom(Strip(normalised), 0, ChunkSize));
      forall i | 0 <= i < |chunks| ensures 0 < |chunks[i]| <= ChunkSize && Strip(chunks[i]) == chunks[i] {
        assert Chunker.GoodChunk(chunks[i], ChunkSize);
      }
    }
  }

  /** Every planned chunk is non-empty, at most ChunkSize characters long and
      stripped, and there is at least one. */
  lemma PlanChunksGood(ep: Endpoint, r: Request)
    ensures PlanRequest(ep, r).Ok? ==> ChunksOk(PlanRequest(ep, r).value.chunks)
  {
    if PlanRequest(ep, r).Ok? {
      var stripped := Strip(RawText(r));
      assert PlanRequest(ep, r).value.chunks == Chunker.SplitSpec(Slides.PreprocessSlides(stripped), ChunkSize);
      SplitNormalisedOk(stripped);
    }
  }

  /** A plan carries the rate and the pause resolve_pace gives for the
      request's own pace field, and the format asked for. */
  lemma PlanSettings(ep: Endpoint, r: Request)
    ensures PlanRequest(ep, r).Ok? ==>
      PlanRequest(ep, r).value.rate == Pace.ResolvePace(r.pace).rate
      && PlanRequest(ep, r).value.pauseMs == Pace.EffectivePause(Pace.BasePause(r.pauseMs), Pace.ResolvePace(r.pace))
      && (ep == Synthesize ==> Some(PlanRequest(ep, r).value.format) == FormatOf(r.fmt))
      && (ep == SynthesizeStream ==> PlanRequest(ep, r).value.format == Mp3)
  {
    Pace.PaceOrNormalSame(r.pace);
  }

  /** What the form defaults mean for a request: a text sent empty counts as
      no text; a format left out or sent empty is "mp3", so only a format the
      client actually sends can be refused; and the pace and the pause are
      always bound, so the handler's own fallbacks (pace or "normal",
      pause_ms or 300) only matter for a pause sent as 0. */
  lemma BoundDefaults(ep: Endpoint, f: FormFields)
    ensures f.file.None? && (f.text.None? || f.text == Some("")) ==> PlanRequest(ep, Bind(f)) == Err(Failure(400, "No text provided"))
    ensures (f.fmt.None? || f.fmt == Some("")) ==> FormatOf(Bind(f).fmt) == Some(Mp3)
    ensures PlanRequest(Synthesize, Bind(f)) == Err(Failure(400, "Unsupported format"))
      ==> f.fmt.Some? && f.fmt.value != "" && f.fmt.value != "mp3" && f.fmt.value != "wav"
    ensures Bind(f).pace.Some? && Bind(f).pace.value != "" && Pace.PaceOrNormal(Bind(f).pace) == Bind(f).pace
    ensures f.pace.None? || f.pace == Some("") ==> Pace.ResolvePace(Bind(f).pace) == Pace.ResolvePace(Some("normal"))
    ensures Bind(f).pauseMs.Some? && (f.pauseMs.None? ==> Pace.BasePause(Bind(f).pauseMs) == 300)
  {
    if PlanRequest(Synthesize, Bind(f)) == Err(Failure(400, "Unsupported format")) {
      FormatChecked(Bind(f));
    }
    Pace.BasePauseCases(Bind(f).pauseMs);
  }
}
