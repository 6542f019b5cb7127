/** The audio assembly of the two endpoints, with the text-to-speech engine
    as a parameter: it maps an SSML document and a voice to the bytes it
    saves (MP3) or to the parameters and frames of the WAV file it saves.

    - synthesize, MP3 (main.py:185-196): each chunk's bytes are appended to
      the output file in chunk order.
    - synthesize_stream (main.py:284-298): each chunk's bytes are read back
      16 KiB at a time and every non-empty read is yielded.
    - synthesize, WAV (main.py:211-229): the writer takes its channel count,
      sample width and frame rate from chunk 0 and appends every chunk's
      frames; later chunks' parameters are never compared with chunk 0's. */
module Assembly {
  import opened Wrappers
  import Ssml
  import Planner

  type Byte = bv8

  /** The size of one read in the stream: 16 * 1024. */
  const BlockSize: nat := 16384

  /** The pieces put one after the other. */
  function Flatten<T>(parts: seq<seq<T>>): seq<T>
    decreases |parts|
  {
    if parts == [] then [] else parts[0] + Flatten(parts[1..])
  }

  /** Putting two lists of pieces together puts their contents together. */
  lemma {:induction false} FlattenAppend<T>(a: seq<seq<T>>, b: seq<seq<T>>)
    ensures Flatten(a + b) == Flatten(a) + Flatten(b)
    decreases |a|
  {
    if a == [] {
      assert a + b == b;
    } else {
      FlattenAppend(a[1..], b);
      assert (a + b)[0] == a[0] && (a + b)[1..] == a[1..] + b;
    }
  }

  /** The SSML document for each chunk, as prepare_ssml_for_chunk builds it. */
  function Documents(chunks: seq<string>, pauseMs: nat, rate: string): (docs: seq<string>)
    ensures |docs| == |chunks|
  {
    seq(|chunks|, i requires 0 <= i < |chunks| => Ssml.PrepareSsml(chunks[i], pauseMs, rate))
  }

  /** The engine's output for each document, in document order: MP3 bytes
      or a WAV file, whichever engine is passed. */
  function EngineOutputs<A>(docs: seq<string>, voice: string, engine: (string, string) -> A): (audio: seq<A>)
    ensures |audio| == |docs|
  {
    seq(|docs|, i requires 0 <= i < |docs| => engine(docs[i], voice))
  }

  // ---------------------------------------------------------------------
  // MP3 file

  /** synthesize's MP3 loop: synthesize each chunk and append its bytes to
      the output file. */
  method AssembleMp3(chunks: seq<string>, pauseMs: nat, rate: string, voice: string,
                     engine: (string, string) -> seq<Byte>) returns (out: seq<Byte>)
    ensures out == Flatten(EngineOutputs(Documents(chunks, pauseMs, rate), voice, engine))
  {
    ghost var audio := EngineOutputs(Documents(chunks, pauseMs, rate), voice, engine);
    out := [];
    var i := 0;
    while i < |chunks|
      invariant i <= |chunks|
      invariant out == Flatten(audio[..i])
    {
      var ssml := Ssml.PrepareSsml(chunks[i], pauseMs, rate);
      var bytes := engine(ssml, voice);
      FlattenAppend(audio[..i], [bytes]);
      assert audio[..i + 1] == audio[..i] + [bytes];
      out := out + bytes;
      i := i + 1;
    }
    assert audio[..i] == audio;
  }

  /** Where piece i starts in the flattened output. */
  function Offset<T>(parts: seq<seq<T>>, i: nat): nat
    requires i <= |parts|
  {
    |Flatten(parts[..i])|
  }

  /** Every chunk's bytes lie in the output, unchanged, right after the bytes
      of the chunks before it. */
  lemma {:induction false} PieceInPlace<T>(parts: seq<seq<T>>, i: nat)
    requires i < |parts|
    ensures Offset(parts, i) + |parts[i]| <= |Flatten(parts)|
    ensures Flatten(parts)[Offset(parts, i)..Offset(parts, i) + |parts[i]|] == parts[i]
  {
    assert parts == parts[..i] + ([parts[i]] + parts[i + 1..]);
    FlattenAppend(parts[..i], [parts[i]] + parts[i + 1..]);
    assert Flatten([parts[i]] + parts[i + 1..]) == parts[i] + Flatten(parts[i + 1..]);
  }

  // ---------------------------------------------------------------------
  // Stream

  /** The reads of at most BlockSize bytes that give back data, up to the
      empty read that ends the loop. */
  function Blocks(data: seq<Byte>): seq<seq<Byte>>
    decreases |data|
  {
    if data == [] then []
    else if |data| <= BlockSize then [data]
    else [data[..BlockSize]] + Blocks(data[BlockSize..])
  }

  /** The reads give the data back; each is non-empty and at most BlockSize
      bytes, and all but the last are exactly BlockSize. */
  lemma {:induction false} BlocksSound(data: seq<Byte>)
    ensures Flatten(Blocks(data)) == data
    ensures forall k :: 0 <= k < |Blocks(data)| ==> 0 < |Blocks(data)[k]| <= BlockSize
    ensures forall k :: 0 <= k < |Blocks(data)| - 1 ==> |Blocks(data)[k]| == BlockSize
    decreases |data|
  {
    if |data| > BlockSize {
      BlocksSound(data[BlockSize..]);
      assert data == data[..BlockSize] + data[BlockSize..];
    }
  }

  /** What r.read(16 * 1024) returns with the file position at pos. */
  function Read(data: seq<Byte>, pos: nat): (piece: seq<Byte>)
    requires pos <= |data|
    ensures |piece| <= BlockSize && pos + |piece| <= |data| && piece == data[pos..pos + |piece|]
    ensures piece == [] <==> pos == |data|
  {
    if |data| - pos <= BlockSize then data[pos..] else data[pos..pos + BlockSize]
  }

  /** The read loop of synthesize_stream's generator over one chunk's file:
      read, stop at the empty read, yield the rest. */
  method ReadBlocks(data: seq<Byte>) returns (blocks: seq<seq<Byte>>)
    ensures blocks == Blocks(data)
  {
    blocks := [];
    var pos := 0;
    while true
      invariant pos <= |data|
      invariant blocks + Blocks(data[pos..]) == Blocks(data)
      decreases |data| - pos
    {
      var piece := Read(data, pos);
      if piece == [] {
        break;
      }
      var rest := data[pos..];
      if |rest| <= BlockSize {
        assert piece == rest && data[pos + |piece|..] == [];
      } else {
        assert piece == rest[..BlockSize] && rest[BlockSize..] == data[pos + |piece|..];
      }
      assert Blocks(rest) == [piece] + Blocks(data[pos + |piece|..]);
      blocks := blocks + [piece];
      pos := pos + |piece|;
    }
    assert data[pos..] == [];
  }

  /** The reads of every chunk's bytes, chunk after chunk. */
  function AllBlocks(audio: seq<seq<Byte>>): seq<seq<Byte>>
    decreases |audio|
  {
    if audio == [] then [] else Blocks(audio[0]) + AllBlocks(audio[1..])
  }

  /** synthesize_stream's generator: for each chunk, synthesize it and yield
      its bytes read by read. */
  method StreamMp3(chunks: seq<string>, pauseMs: nat, rate: string, voice: string,
                   engine: (string, string) -> seq<Byte>) returns (yielded: seq<seq<Byte>>)
    ensures yielded == AllBlocks(EngineOutputs(Documents(chunks, pauseMs, rate), voice, engine))
  {
    ghost var audio := EngineOutputs(Documents(chunks, pauseMs, rate), voice, engine);
    yielded := [];
    var i := 0;
    while i < |chunks|
      invariant i <= |chunks|
      invariant yielded + AllBlocks(audio[i..]) == AllBlocks(audio)
    {
      var ssml := Ssml.PrepareSsml(chunks[i], pauseMs, rate);
      var blocks := ReadBlocks(engine(ssml, voice));
      assert audio[i..][1..] == audio[i + 1..];
      yielded := yielded + blocks;
      i := i + 1;
    }
  }

  /** The stream yields exactly the bytes of the MP3 file synthesize builds,
      in pieces that are non-empty and at most BlockSize bytes long. */
  lemma {:induction false} StreamSameBytes(audio: seq<seq<Byte>>)
    ensures Flatten(AllBlocks(audio)) == Flatten(audio)
    ensures forall k :: 0 <= k < |AllBlocks(audio)| ==> 0 < |AllBlocks(audio)[k]| <= BlockSize
    decreases |audio|
  {
    if audio != [] {
      StreamSameBytes(audio[1..]);
      BlocksSound(audio[0]);
      FlattenAppend(Blocks(audio[0]), AllBlocks(audio[1..]));
      var all := AllBlocks(audio);
      var first := Blocks(audio[0]);
      forall k | 0 <= k < |all| ensures 0 < |all[k]| <= BlockSize {
        if k >= |first| {
          assert all[k] == AllBlocks(audio[1..])[k - |first|];
        }
      }
    }
  }

  // ---------------------------------------------------------------------
  // WAV file

  /** The header values the code copies: nchannels, sampwidth, framerate. */
  datatype WavParams = WavParams(channels: nat, sampleWidth: nat, frameRate: nat)

  /** A WAV file as wave.open(..., "rb") reads it: its parameters and all its
      frames. */
  datatype WavAudio = WavAudio(params: WavParams, frames: seq<Byte>)

  /** The output file opened by wave.open(out_path, "wb"): the parameters set
      on it so far and the frames written to it. */
  class WavWriter {
    var channels: Option<nat>
    var sampleWidth: Option<nat>
    var frameRate: Option<nat>
    var frames: seq<Byte>

    /** All three parameters are set, as wave requires before frames are written. */
    predicate Ready()
      reads this
    {
      channels.Some? && sampleWidth.Some? && frameRate.Some?
    }

    /** The parameters, once all three are set. */
    function Params(): Option<WavParams>
      reads this
    {
      if Ready() then Some(WavParams(channels.value, sampleWidth.value, frameRate.value)) else None
    }

    constructor ()
      ensures channels == None && sampleWidth == None && frameRate == None && frames == []
    {
      channels, sampleWidth, frameRate, frames := None, None, None, [];
    }

    method SetChannels(n: nat)
      modifies this
      ensures channels == Some(n)
      ensures sampleWidth == old(sampleWidth) && frameRate == old(frameRate) && frames == old(frames)
    {
      channels := Some(n);
    }

    method SetSampleWidth(n: nat)
      modifies this
      ensures sampleWidth == Some(n)
      ensures channels == old(channels) && frameRate == old(frameRate) && frames == old(frames)
    {
      sampleWidth := Some(n);
    }

    method SetFrameRate(n: nat)
      modifies this
      ensures frameRate == Some(n)
      ensures channels == old(channels) && sampleWidth == old(sampleWidth) && frames == old(frames)
    {
      frameRate := Some(n);
    }

    method WriteFrames(data: seq<Byte>)
      requires Ready()
      modifies this
      ensures frames == old(frames) + data
      ensures channels == old(channels) && sampleWidth == old(sampleWidth) && frameRate == old(frameRate)
    {
      frames := frames + data;
    }
  }

  /** The frames of each WAV output, in order. */
  function FramesOf(audio: seq<WavAudio>): (frames: seq<seq<Byte>>)
    ensures |frames| == |audio| && forall i :: 0 <= i < |audio| ==> frames[i] == audio[i].frames
  {
    seq(|audio|, i requires 0 <= i < |audio| => audio[i].frames)
  }

  /** The parameters of the output: chunk 0's, if there is a chunk. */
  function FirstParams(audio: seq<WavAudio>): Option<WavParams>
  {
    if audio == [] then None else Some(audio[0].params)
  }

  /** One output more adds its frames at the end. */
  lemma FramesOfSnoc(audio: seq<WavAudio>, i: nat)
    requires i < |audio|
    ensures FramesOf(audio[..i + 1]) == FramesOf(audio[..i]) + [audio[i].frames]
  {
  }

  /** synthesize's WAV loop: synthesize each chunk, copy chunk 0's parameters
      to the writer, and write every chunk's frames. */
  method AssembleWav(chunks: seq<string>, pauseMs: nat, rate: string, voice: string,
                     engine: (string, string) -> WavAudio) returns (w: WavWriter)
    ensures fresh(w)
    ensures w.Params() == FirstParams(EngineOutputs(Documents(chunks, pauseMs, rate), voice, engine))
    ensures w.frames == Flatten(FramesOf(EngineOutputs(Documents(chunks, pauseMs, rate), voice, engine)))
  {
    ghost var audio := EngineOutputs(Documents(chunks, pauseMs, rate), voice, engine);
    w := new WavWriter();
    var i := 0;
    while i < |chunks|
      invariant i <= |chunks|
      invariant w.Params() == FirstParams(audio[..i])
      invariant i > 0 ==> w.Ready()
      invariant w.frames == Flatten(FramesOf(audio[..i]))
    {
      var ssml := Ssml.PrepareSsml(chunks[i], pauseMs, rate);
      var src := engine(ssml, voice);
      if i == 0 {
        w.SetChannels(src.params.channels);
        w.SetSampleWidth(src.params.sampleWidth);
        w.SetFrameRate(src.params.frameRate);
      }
      assert src == audio[i];
      FramesOfSnoc(audio, i);
      FlattenAppend(FramesOf(audio[..i]), [src.frames]);
      w.WriteFrames(src.frames);
      i := i + 1;
    }
    assert audio[..i] == audio;
  }

  /** The WAV output does not depend on the parameters of any chunk after
      the first: two runs that agree on chunk 0's parameters and on every
      chunk's frames produce the same file, whatever the later headers say. */
  lemma WavIgnoresLaterParams(a: seq<WavAudio>, b: seq<WavAudio>)
    requires |a| == |b| && |a| > 0 && a[0].params == b[0].params
    requires forall i :: 0 <= i < |a| ==> a[i].frames == b[i].frames
    ensures FirstParams(a) == FirstParams(b)
    ensures Flatten(FramesOf(a)) == Flatten(FramesOf(b))
  {
    assert FramesOf(a) == FramesOf(b);
  }

  // ---------------------------------------------------------------------
  // The endpoints

  /** What an endpoint returns on success. */
  datatype Output = Mp3File(bytes: seq<Byte>) | WavFile(params: Option<WavParams>, frames: seq<Byte>) | Mp3Stream(pieces: seq<seq<Byte>>)

  /** The MP3 bytes a plan produces. */
  function PlanMp3(p: Planner.Plan, voice: string, engine: (string, string) -> seq<Byte>): seq<seq<Byte>>
  {
    EngineOutputs(Documents(p.chunks, p.pauseMs, p.rate), voice, engine)
  }

  /** synthesize: plan the request, fail with the plan's error before any
      engine call, otherwise assemble the format asked for. */
  method HandleSynthesize(r: Planner.Request, voice: string,
                          mp3Engine: (string, string) -> seq<Byte>,
                          wavEngine: (string, string) -> WavAudio) returns (res: Result<Output, Planner.Failure>)
    ensures Planner.PlanRequest(Planner.Synthesize, r).Err? ==> res == Err(Planner.PlanRequest(Planner.Synthesize, r).error)
    ensures Planner.PlanRequest(Planner.Synthesize, r).Ok? && Planner.PlanRequest(Planner.Synthesize, r).value.format == Planner.Mp3 ==>
      res == Ok(Mp3File(Flatten(PlanMp3(Planner.PlanRequest(Planner.Synthesize, r).value, voice, mp3Engine))))
    ensures Planner.PlanRequest(Planner.Synthesize, r).Ok? && Planner.PlanRequest(Planner.Synthesize, r).value.format == Planner.Wav ==>
      var p := Planner.PlanRequest(Planner.Synthesize, r).value;
      var audio := EngineOutputs(Documents(p.chunks, p.pauseMs, p.rate), voice, wavEngine);
      res == Ok(WavFile(FirstParams(audio), Flatten(FramesOf(audio))))
  {
    var plan := Planner.PlanRequest(Planner.Synthesize, r);
    if plan.Err? {
      return Err(plan.error);
    }
    var p := plan.value;
    if p.format == Planner.Mp3 {
      var bytes := AssembleMp3(p.chunks, p.pauseMs, p.rate, voice, mp3Engine);
      res := Ok(Mp3File(bytes));
    } else {
      var w := AssembleWav(p.chunks, p.pauseMs, p.rate, voice, wavEngine);
      res := Ok(WavFile(w.Params(), w.frames));
    }
  }

  /** synthesize_stream: plan the request, fail with the plan's error before
      any engine call, otherwise stream the MP3 bytes read by read. */
  method HandleStream(r: Planner.Request, voice: string,
                      engine: (string, string) -> seq<Byte>) returns (res: Result<Output, Planner.Failure>)
    ensures Planner.PlanRequest(Planner.SynthesizeStream, r).Err? ==> res == Err(Planner.PlanRequest(Planner.SynthesizeStream, r).error)
    ensures Planner.PlanRequest(Planner.SynthesizeStream, r).Ok? ==>
      res == Ok(Mp3Stream(AllBlocks(PlanMp3(Planner.PlanRequest(Planner.SynthesizeStream, r).value, voice, engine))))
  {
    var plan := Planner.PlanRequest(Planner.SynthesizeStream, r);
    if plan.Err? {
      return Err(plan.error);
    }
    var p := plan.value;
    var pieces := StreamMp3(p.chunks, p.pauseMs, p.rate, voice, engine);
    res := Ok(Mp3Stream(pieces));
  }

  /** For the same request the stream delivers the same bytes as the MP3
      file synthesize builds, in pieces of at most BlockSize bytes. */
  lemma StreamMatchesFile(r: Planner.Request, voice: string, engine: (string, string) -> seq<Byte>)
    requires Planner.PlanRequest(Planner.SynthesizeStream, r).Ok?
    requires Planner.PlanRequest(Planner.Synthesize, r).Ok?
    ensures Planner.PlanRequest(Planner.Synthesize, r).value.chunks == Planner.PlanRequest(Planner.SynthesizeStream, r).value.chunks
    ensures var audio := PlanMp3(Planner.PlanRequest(Planner.SynthesizeStream, r).value, voice, engine);
      Flatten(AllBlocks(audio)) == Flatten(PlanMp3(Planner.PlanRequest(Planner.Synthesize, r).value, voice, engine))
      && forall k :: 0 <= k < |AllBlocks(audio)| ==> 0 < |AllBlocks(audio)[k]| <= BlockSize
  {
    var file, stream := Planner.PlanRequest(Planner.Synthesize, r).value, Planner.PlanRequest(Planner.SynthesizeStream, r).value;
    Planner.EndpointsAgree(r);
    assert PlanMp3(file, voice, engine) == PlanMp3(stream, voice, engine);
    StreamSameBytes(PlanMp3(stream, voice, engine));
  }
}
