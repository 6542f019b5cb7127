# Talk Practice text-to-speech service: a Dafny model of its text pipeline

The service takes a talk script and turns it into speech through an external
text-to-speech engine. It offers two endpoints. `/synthesize` returns an MP3
or WAV file. `/synthesize_stream` streams MP3 bytes as they arrive.

The work before the engine is pure text processing, and this project models
all of it:

- validation of the request, in the order the handlers perform it;
- the pace settings, which choose a prosody rate and a pause multiplier;
- slide-marker preprocessing: every run of `Slide <n>` becomes a pause token;
- cutting the text into chunks of at most 4000 characters, each cut placed
  after a sentence end where possible;
- building one SSML document per chunk: a break tag after every sentence
  end, a 3-second break for every slide pause, XML escaping that keeps the
  break tags, and the `<speak><prosody>` wrapper.

After the engine comes the assembly. The model covers the MP3 file
(per-chunk bytes in order), the stream (reads of at most 16 KiB) and the
WAV file (chunk 0's header parameters, every chunk's frames). The engine is
a function parameter.

Modules, one per component of `main.py`:

- `Wrappers`: `Option` and `Result`.
- `Text`: the Python string primitives the code relies on. These are
  `str.isspace` (also `\s`), `str.strip`, `str.replace` (leftmost,
  non-overlapping) and `str(int)`.
- `SentenceEnd`: `SENTENCE_END_RE` as a left-to-right scanner, with
  `finditer` and `sub`.
- `Chunker`: `split_text`, as a method loop for loop, proved equal to a
  specification by pieces (chunk plus following whitespace).
- `Slides`: `SLIDE_RE` and `preprocess_slides` as a scanner. Each maximal
  run of units `slide`, whitespace, digits, whitespace becomes one token.
- `Ssml`: covers three functions.
  - `insert_sentence_breaks`.
  - `escape_for_ssml`, as written. Its three stages are a method proved
    against specification functions. A reference escaper sits beside it,
    with a reader that inverts it.
  - `prepare_ssml_for_chunk`.
- `Pace`: `PACE_MAP`, `resolve_pace` and the pause arithmetic.
- `Planner`: FastAPI's binding of the form fields to the handlers'
  parameters, with their declared defaults. It also covers everything each
  handler does before the first engine call, as one function returning an
  HTTP error or a plan.
- `Assembly`: the MP3, stream and WAV loops, a `WavWriter` class for the
  `wave` writer, and the two endpoints put together.

Behaviour the model makes visible:

- The whitespace after a slide marker belongs to the marker. `"Slide 1 Hi"`
  becomes the pause token directly followed by `Hi` (`Slides.SlideExample`).
  Markers back to back form one run: `"Slide 1 Slide 2 intro"` becomes a
  single token followed by `intro` (`Slides.SlideRunExample`).
- A hard cut in `split_text` takes the window whole, whatever it contains.
  It may therefore split words, or split the pause token between two chunks.
  The model does not exclude this, and a split token is not replaced by a
  break.
- `split_text` with `max_chars` 0 on non-empty text never advances. The
  handlers always pass 4000. `Chunker.SplitText` therefore asks for
  `max_chars >= 1` when the stripped text is longer than `max_chars`.

## Model

| member | source | states |
|---|---|---|
| `Text.Strip` | main.py:62 | `str.strip()`: the result is the text between the leading and trailing whitespace. It neither starts nor ends with whitespace, and everything around it is whitespace |
| `Text.ReplaceRemovesAll` | main.py:121 | After `str.replace` with a replacement that shares no character with the pattern, the pattern no longer occurs |
| `Text.ReplaceKeepsAbsent` | main.py:121 | `str.replace` does not create a word whose characters are absent from the replacement |
| `Text.ReplaceAll` | main.py:105 | Definition of `str.replace`: the leftmost occurrence is replaced and the scan resumes after it. Its properties are stated by `Text.ReplaceRemovesAll` and `Text.ReplaceKeepsAbsent` |
| `Text.DecimalRoundTrip` | main.py:100 | The decimal text `f"{i}"` puts into a placeholder reads back as `i` |
| `SentenceEnd.MatchesFrom` | main.py:45 | Definition of `finditer` with `SENTENCE_END_RE`, scanning left to right from a position. Its properties are stated by `SentenceEnd.MatchesSound`, `SentenceEnd.MatchesComplete` and `SentenceEnd.MatchesOrdered` |
| `SentenceEnd.MatchesSound` | main.py:45 | Every match of `(?<=[.?!])\s+` starts right after `.`, `?` or `!` and covers the whole whitespace run there |
| `SentenceEnd.MatchesComplete` | main.py:45 | Every whitespace run after a sentence-ending mark is found by the scan |
| `SentenceEnd.MatchesOrdered` | main.py:45 | The matches come in text order and do not overlap |
| `SentenceEnd.LastMatch` | main.py:72-74 | There are no matches exactly when the text has no sentence boundary. After the last match there is no boundary |
| `SentenceEnd.SubFrom` | main.py:113 | Definition of `SENTENCE_END_RE.sub`: each match is replaced, everything else copied. `SentenceEnd.SubIsSplice` states what it computes |
| `SentenceEnd.SubIsSplice` | main.py:113 | `SENTENCE_END_RE.sub` replaces exactly the match spans by the replacement and keeps everything else |
| `Chunker.Window` | main.py:70-71 | The window `text[start:end]`, with `end = min(start + max_chars, L)`, is 1 to `max_chars` characters of the text at `start` |
| `Chunker.WindowAdvance` | main.py:73-80 | Each turn advances by at least one and at most the window length, so the loop terminates |
| `Chunker.CutSentence` | main.py:73-76 | A window with a sentence boundary is cut at the end of its last one, and the chunk ends with `.`, `?` or `!` |
| `Chunker.CutHard` | main.py:77-80 | A window without a sentence boundary is taken whole |
| `Chunker.CutShape` | main.py:69-80 | The chunk is a non-empty stripped prefix of the window. Only whitespace lies between it and the advance |
| `Chunker.NextStart` | main.py:82-84 | The next window starts after the advance and the whitespace that follows it, at a non-space character or at the end |
| `Chunker.SkipWhitespace` | main.py:82-84 | The inner loop stops at the first non-whitespace character |
| `Chunker.CutWindow` | main.py:70-80 | One turn of the outer loop appends the chunk of the window and advances to the end of the last match, or over the whole window |
| `Chunker.NextCut` | main.py:69-84 | One turn of the outer loop, whitespace skip included |
| `Chunker.PiecesRebuild` | main.py:66-86 | The chunks, each followed by the whitespace skipped after it, rebuild the text: no loss, no overlap, in order |
| `Chunker.PiecesGood` | main.py:69-84 | Every piece is a good chunk followed by whitespace. There are pieces exactly while text is left |
| `Chunker.SplitSpec` | main.py:60-86 | Definition of what `split_text` returns: `[text.strip()]` for short text, otherwise the chunks of the pieces. Its properties are stated by `Chunker.SplitSpecCovers` and `Chunker.SplitSpecGood`, and `Chunker.SplitText` is proved equal to it |
| `Chunker.SplitSpecCovers` | main.py:62-86 | Short stripped text gives `[text.strip()]`. Longer text gives at least two pieces that rebuild it, each a good chunk |
| `Chunker.SplitSpecGood` | main.py:69-80 | Every chunk of a long text has 1 to `max_chars` characters and no surrounding whitespace. It either ends a sentence or holds no boundary |
| `Chunker.SplitText` | main.py:60-86 | `split_text`, loop for loop, returns exactly the specified chunks |
| `Slides.PreprocessSlides` | main.py:89-91 | Definition of `preprocess_slides` as a left-to-right scan. Its properties are stated by the `Slides` lemmas below |
| `Slides.RunEnd` | main.py:57 | A run of units ends where no further unit starts: `{1,}` takes every unit of the run, and a run holds at least one |
| `Slides.SlidesUnchanged` | main.py:89-91 | Text with no slide marker comes back unchanged |
| `Slides.SlidesLeaveNoMarker` | main.py:89-91 | No slide marker is left after preprocessing |
| `Slides.PreprocessIdempotent` | main.py:89-91 | Preprocessing twice is preprocessing once |
| `Slides.SlideExample` | main.py:57 | A marker takes its trailing whitespace with it: `"Slide 1 Hi"` becomes the token followed by `Hi` |
| `Slides.SlideRunExample` | main.py:57 | Two markers back to back form one run: `"Slide 1 Slide 2 intro"` becomes one token followed by `intro` |
| `Ssml.InsertSentenceBreaks` | main.py:112-113 | Definition of `insert_sentence_breaks`. `Ssml.SentenceBreaksInserted` states what it computes |
| `Ssml.SentenceBreaksInserted` | main.py:112-113 | Each boundary's whitespace run becomes one break tag and a space, and nothing else changes. No boundary is left. Text without boundaries is unchanged |
| `Ssml.FindGtFirst` | main.py:103 | The lazy `<break[^>]*?>` ends at the first `>` after `<break` |
| `Ssml.StoreBreaks` | main.py:96-103 | The `re.sub` with `_store` replaces every break tag by its numbered placeholder and stores the tags in order |
| `Ssml.EscapeAllEach` | main.py:105 | The three chained replacements escape each character once. Because `&` goes first, nothing is escaped twice |
| `Ssml.EscapeAsWritten` | main.py:94-109 | Definition of `escape_for_ssml`, stage by stage as written. `Ssml.EscapeForSsml` computes it, `Ssml.EscapeMatchesReference` says when it equals the reference escaping and `Ssml.EscapeStraddle` where it does not |
| `Ssml.EscapeForSsml` | main.py:94-109 | `escape_for_ssml`, all three stages, gives exactly the as-written result |
| `Ssml.EscapeRef` | main.py:94-109 | Definition of the escaping `escape_for_ssml` is meant to perform: break tags copied verbatim, every other character escaped on its own. Its properties are stated by `Ssml.EscapeRoundTrip` and `Ssml.EscapeRefWellEscaped` |
| `Ssml.EscapeRoundTrip` | main.py:94-109 | The reference escaping reads back as its input, with break tags read as markup and the three entities as their characters: nothing is lost or invented |
| `Ssml.EscapeRefWellEscaped` | main.py:94-109 | Outside the break tags it keeps, the reference escaping leaves no bare `&`, `<` or `>`: each is part of `&amp;`, `&lt;` or `&gt;` |
| `Ssml.EscapeMatchesReference` | main.py:94-109 | On text that does not contain `BREAK_`, `escape_for_ssml` as written equals the reference escaping |
| `Ssml.EscapeStraddle` | main.py:107-108 | On `<break><break>BREAK_0__` the restore loop gives `<break>__BREAK_1<break>` rather than the input |
| `Ssml.PreparedNoBreakWord` | main.py:119-121 | The inserted break tags add no `BREAK_` to a chunk that has none |
| `Ssml.PrepareSsml` | main.py:116-126 | Definition of `prepare_ssml_for_chunk` with the reference escaping. `Ssml.PrepareSsmlSound` states its properties |
| `Ssml.PrepareSsmlAsWritten` | main.py:116-126 | Definition of `prepare_ssml_for_chunk` with `escape_for_ssml` as written. `Ssml.PrepareSsmlSound` says when it equals `Ssml.PrepareSsml` |
| `Ssml.PrepareSsmlSound` | main.py:116-126 | Every slide pause token becomes a 3-second break. The body inside the prosody tags is escaped (`Ssml.WellEscaped`) and reads back as the prepared text. Without `BREAK_` in the chunk, the code's own escaping gives the same document |
| `Pace.ResolvePace` | main.py:129-130 | Definition of `resolve_pace`: lower-case lookup in `PACE_MAP`, `normal` for anything else. Its properties are stated by the `Pace` lemmas below |
| `Pace.BasePause` | main.py:168 | Definition of `max(0, int(pause_ms or 300))`. `Pace.BasePauseCases` states it case by case |
| `Pace.EffectivePause` | main.py:169 | Definition of `max(0, int(base_pause * pause_multiplier))` on tenths. `Pace.EffectivePauseScaled` and `Pace.PauseFollowsPace` state its properties |
| `Pace.ResolvePaceKnown` | main.py:49-54 | `slow`, `normal`, `fast` and `faster`, in any letter case, give their table rate and multiplier |
| `Pace.ResolvePaceFallback` | main.py:129-130 | A `None`, empty or unknown pace gives rate `0%` and multiplier 1.0 |
| `Pace.ResolvePaceIgnoresCase` | main.py:130 | The lookup ignores letter case |
| `Pace.PaceOrNormalSame` | main.py:167 | Passing `pace or "normal"` gives the same settings as `pace` |
| `Pace.ResolvePaceRange` | main.py:49-54 | The settings are always a table entry, with a multiplier between 0.6 and 1.2 |
| `Pace.BasePauseCases` | main.py:168 | A `None` or zero `pause_ms` gives 300, a negative one 0, and a positive one itself |
| `Pace.PauseFollowsPace` | main.py:169 | For the same base: slow >= normal = base >= fast >= faster |
| `Pace.EffectivePauseScaled` | main.py:169 | The effective pause is the base times the multiplier, rounded down |
| `Planner.FormValue` | main.py:134-139 | FastAPI's binding of an optional form field: the value sent, or the declared default when the field is left out or sent empty |
| `Planner.Bind` | main.py:134-139 | The handler's parameters for the fields sent: `text` defaults to `None`, `fmt` to `"mp3"`, `pace` to `"normal"` and `pause_ms` to 300; the file is passed as it is |
| `Planner.BoundDefaults` | main.py:134-169 | A text left out or sent empty, with no file, gives "No text provided". A format left out or sent empty is MP3, so only a format the client sends can be refused. The pace and the pause are always bound, and a pace left out or sent empty gives the `normal` settings |
| `Planner.PlanRequest` | main.py:147-180 | Definition of both handlers up to `split_text`: the checks in the code's order, then the pace, the pause, slide preprocessing, the length limit and the chunks. Its properties are stated by the `Planner` lemmas below |
| `Planner.NoTextFirst` | main.py:147-148 | No file, and text left out, sent empty or only whitespace, gives 400 "No text provided", whatever else the request holds. No other case gives it |
| `Planner.FileTakesPrecedence` | main.py:150-157 | With a file, the text field is never read |
| `Planner.TextEmptyOnlyFromFile` | main.py:159-161 | 400 "Text is empty" only happens for an uploaded file |
| `Planner.FormatChecked` | main.py:163-164 | After the text checks, `/synthesize` refuses exactly the formats other than `mp3` and `wav` |
| `Planner.StreamIgnoresFormat` | main.py:256-282 | `/synthesize_stream` never looks at the format |
| `Planner.LimitOnNormalisedText` | main.py:171-176 | Once the earlier checks pass, 413 comes exactly when the preprocessed text, not the raw text, exceeds 200000 characters |
| `Planner.SplitNormalisedOk` | main.py:172-180 | Preprocessed non-blank text splits into at least one chunk. Each chunk is non-empty, at most 4000 characters and stripped |
| `Planner.PlanChunksGood` | main.py:178-180 | Every plan has at least one chunk. Each chunk is non-empty, at most 4000 characters and stripped |
| `Planner.PlanSettings` | main.py:166-169 | A plan carries the rate and pause `resolve_pace` gives for the request's pace and `pause_ms`, plus the requested format (MP3 for the stream) |
| `Planner.EndpointsAgree` | main.py:256-282 | When both endpoints accept a request, they plan the same chunks, pause and rate. Only the format can differ |
| `Assembly.EngineOutputs` | main.py:192-194 | The engine's output for each chunk's SSML document and the voice, one per document, in document order. MP3 and WAV share it |
| `Assembly.AssembleMp3` | main.py:187-196 | The MP3 file is the engine's bytes for each chunk's SSML, concatenated in chunk order |
| `Assembly.PieceInPlace` | main.py:188-196 | Each chunk's bytes sit unchanged in the output, right after the bytes of the chunks before it |
| `Assembly.Read` | main.py:294 | A read returns the next at most 16384 bytes, and is empty only at the end of the file |
| `Assembly.ReadBlocks` | main.py:292-297 | The read loop yields exactly the reads up to the empty one |
| `Assembly.Blocks` | main.py:293-297 | Definition of the reads of one file, 16384 bytes at a time. `Assembly.BlocksSound` and `Assembly.ReadBlocks` state its properties |
| `Assembly.BlocksSound` | main.py:293-297 | The reads give the file back. Each is non-empty and at most 16384 bytes, and all but the last are exactly 16384 |
| `Assembly.StreamMp3` | main.py:284-298 | The generator yields the reads of every chunk's bytes, chunk after chunk |
| `Assembly.StreamSameBytes` | main.py:285-298 | The stream's pieces concatenate to the same bytes as the MP3 file. Each piece has 1 to 16384 bytes |
| `Assembly.StreamMatchesFile` | main.py:282 | For the same request both endpoints plan the same chunks. The stream delivers the bytes of the MP3 file |
| `Assembly.WavWriter.SetChannels` | main.py:225 | `setnchannels` records the channel count and leaves everything else as it is |
| `Assembly.WavWriter.SetSampleWidth` | main.py:226 | `setsampwidth` records the sample width and leaves everything else as it is |
| `Assembly.WavWriter.SetFrameRate` | main.py:227 | `setframerate` records the frame rate and leaves everything else as it is |
| `Assembly.WavWriter.WriteFrames` | main.py:229 | `writeframes` appends the frames and leaves the parameters as they are |
| `Assembly.AssembleWav` | main.py:215-229 | The WAV file has chunk 0's channels, sample width and frame rate. Its frames are every chunk's frames in order |
| `Assembly.WavIgnoresLaterParams` | main.py:224-229 | Later chunks' header parameters never affect the output, because nothing compares them with chunk 0's |
| `Assembly.HandleSynthesize` | main.py:147-229 | `/synthesize` returns the planner's error, which comes from `Planner.PlanRequest` and so involves no engine. Otherwise it returns the MP3 or WAV file of the plan |
| `Assembly.HandleStream` | main.py:256-298 | `/synthesize_stream` returns the planner's error, which comes from `Planner.PlanRequest` and so involves no engine. Otherwise it returns the stream of the plan |

## Left out

- desktop_launcher.py is not part of this model. It is a tkinter window, port probing and a server thread, with no text processing.
- FastAPI routing, the CORS middleware, static files, `FileResponse` and `StreamingResponse` (main.py:1-42, 202, 237, 305, 308-311) are left out. They are framework plumbing.
- The edge-tts engine is a function parameter (`engine`). Its network calls and any exception it raises are not modelled.
- The `wave` module's header parsing and writing are left out. A WAV file is its parameters plus its frames (`Assembly.WavAudio`), and the writer is `Assembly.WavWriter`.
- Closing a WAV writer is not modelled. With no parameters set, `close()` would raise. The planner always yields at least one chunk (`Planner.PlanChunksGood`), so this cannot happen.
- Temporary files, `os.remove`, the `try`/`finally` clean-up and `asyncio.sleep(0)` are left out. They are file-system I/O and cooperative scheduling.
- UTF-8 decoding of an upload is left out. An upload arrives decoded or marked invalid (`Planner.Upload`).
- The `voice` field is passed to the engine as a string. Its form default (main.py:136) is not modelled, since the engine is a parameter.
- A `pause_ms` that is not an integer makes FastAPI answer 422 before the handler runs (main.py:139). Form parsing errors are left out; `Planner.FormFields` holds the pause already parsed, or none.
- `int(base_pause * pause_multiplier)` at main.py:169 converts `base_pause` to a float. A `pause_ms` above about 1.8e308 cannot be converted, and Python raises `OverflowError`, a 500 error. Integers are unbounded in the model, so this failure is not modelled.
- `Pace.EffectivePause`: the float multipliers 1.2, 1.0, 0.8 and 0.6 become integer tenths with floor division, which floors the exact product. Python computes `int(base * 1.2)` on binary floats, whose rounding may put the product on the other side of a whole number; that rounding is not modelled.
- `Slides.UnitAt`: `\d` is ASCII digits only. Python's `\d` on `str` also matches other Unicode decimal digits.
- `Slides.SlideWordAt`: `IGNORECASE` covers ASCII letters only. Python also lets `s` match U+017F and `i` match U+0130 and U+0131.
- `Pace.Lower`: `str.lower()` is modelled on ASCII letters. This does not change which table entry is found:
  - No non-ASCII character lower-cases to an ASCII letter other than `k`, from U+212A, or to `i` followed by U+0307, from U+0130.
  - None of the pace names contains `k` or `i`.
- `Chunker.SplitText` asks for `max_chars >= 1` when the stripped text is longer than `max_chars`. With 0, Python's loop never terminates, and both handlers pass 4000.
- `Ssml.PrepareSsml` uses the reference escaper, not `escape_for_ssml` as written, and so does the assembly. The two give the same document whenever the chunk does not contain `BREAK_` (`Ssml.PrepareSsmlSound`). `Ssml.PrepareSsmlAsWritten` is the code's own version (see Findings).

## Findings

| source | as written | input that shows it | evidently intended | confidence | as-written member | corrected member |
|---|---|---|---|---|---|---|
| main.py:107-108 | The restore loop replaces every occurrence of `__BREAK_i__` in the escaped text. That includes one formed by the tail `__` of placeholder `i+1` followed by the user's own text `BREAK_i__` | `<break><break>BREAK_0__` gives `<break>__BREAK_1<break>`: the second tag is lost and a stray `__BREAK_1` remains | Each tag goes back where it was taken from, and the text between tags is kept as text. The result is the reference escaping: the input unchanged here, and in general text that reads back as the input (`Ssml.EscapeRoundTrip`) | not executed | `Ssml.EscapeStraddle` | `Ssml.EscapeRef` |
