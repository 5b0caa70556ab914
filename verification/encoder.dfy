/**
 `encode_to_mp4` with the ffmpeg library abstracted to a trace of the
 library calls it makes, in order. Every call can fail; which one does is
 a parameter. What is modelled is the control flow around the calls: the
 frame size check, the timestamp rebase, the s16le decoding, the audio
 sample accumulator with its frame cutting and timestamps, and the order
 of the container operations.
 */
module Mp4Encoder {
  import opened Options
  import opened Media
  import opened Seqs
  import opened Arith

  /** The parameters `save_last_to_mp4` passes to the encoder (the frame rate only sets the time base). */
  datatype Settings = Settings(width: nat, height: nat, sampleRate: nat, channels: nat)

  /** The fallible ffmpeg calls, in the order the encoder makes them. */
  datatype Op =
    | Init | CreateOutput | FindVideoCodec | AddVideoStream | CreateVideoEncoder | OpenVideoEncoder
    | FindAudioCodec | AddAudioStream | CreateAudioEncoder | OpenAudioEncoder
    | WriteHeader | CreateScaler
    | ScaleFrame | SendVideoFrame(pts: int) | SendVideoEof
    | SendAudioFrame(pts: int, left: seq<int>, right: seq<int>) | SendAudioEof
    | WriteTrailer

  /** The phase of the encoding an operation belongs to. */
  function Rank(op: Op): nat
  {
    match op
    case WriteHeader => 1
    case CreateScaler => 2
    case ScaleFrame => 3
    case SendVideoFrame(_) => 3
    case SendVideoEof => 4
    case SendAudioFrame(_, _, _) => 5
    case SendAudioEof => 6
    case WriteTrailer => 7
    case _ => 0
  }

  /** Operations that never go back to an earlier phase. */
  predicate InPhaseOrder(ops: seq<Op>)
  {
    forall i, j :: 0 <= i < j < |ops| ==> Rank(ops[i]) <= Rank(ops[j])
  }

  /** How an encoding ended. */
  datatype Outcome = Encoded | Failed(op: Op) | Panicked

  /* ---------------------------------------------------------------------- */
  /* Video                                                                  */
  /* ---------------------------------------------------------------------- */

  /** `(width * height * 3) as usize`, the byte length of one RGB888 frame. */
  function FrameBytes(s: Settings): nat
  {
    s.width * s.height * 3
  }

  /** The frames of the expected byte length; the others are skipped with a warning. */
  function Kept(frames: seq<Stamped>, size: nat): (kept: seq<Stamped>)
  {
    Filter(frames, (f: Stamped) => |f.data| == size)
  }

  /**
   `timestamp - first` on `u32`, wrapping: the presentation time of a frame
   relative to the first buffered one. Frames in capture order get their
   distance from the first frame.
   */
  function Rebase(timestamp: nat, first: nat): (pts: nat)
    ensures pts < U32_MODULUS
    ensures first <= timestamp < first + U32_MODULUS ==> pts == timestamp - first
    ensures timestamp < first && first - timestamp <= U32_MODULUS ==> pts == timestamp - first + U32_MODULUS
  {
    (timestamp - first) % U32_MODULUS
  }

  /** Scale and send each frame in turn, stamped relative to `first`. */
  function SendAll(frames: seq<Stamped>, first: nat): (ops: seq<Op>)
    ensures |ops| == 2 * |frames|
    ensures forall i :: 0 <= i < |ops| ==> Rank(ops[i]) == 3
  {
    if |frames| == 0 then []
    else [ScaleFrame, SendVideoFrame(Rebase(frames[0].timestampMs, first))] + SendAll(frames[1..], first)
  }

  /** The `i`-th kept frame is scaled, then sent with its timestamp less `first`. */
  lemma {:induction false} SendAllAt(frames: seq<Stamped>, first: nat, i: nat)
    requires i < |frames|
    ensures SendAll(frames, first)[2 * i] == ScaleFrame
    ensures SendAll(frames, first)[2 * i + 1] == SendVideoFrame(Rebase(frames[i].timestampMs, first))
  {
    if i > 0 {
      SendAllAt(frames[1..], first, i - 1);
    }
  }

  /**
   The video loop: each frame of the right size is scaled and sent with a
   timestamp relative to `first`; the others produce nothing.
   */
  function VideoOps(frames: seq<Stamped>, size: nat, first: nat): (ops: seq<Op>)
    ensures ops == SendAll(Kept(frames, size), first)
  {
    if |frames| == 0 then []
    else
      var rest := VideoOps(frames[1..], size, first);
      if |frames[0].data| == size then [ScaleFrame, SendVideoFrame(Rebase(frames[0].timestampMs, first))] + rest
      else rest
  }

  /* ---------------------------------------------------------------------- */
  /* Audio                                                                  */
  /* ---------------------------------------------------------------------- */

  /** The parameters of the audio loop: samples per frame and channel, channels, sample rate. */
  datatype AudioFormat = AudioFormat(frameSize: nat, channels: nat, sampleRate: nat)
  {
    /** The number of interleaved samples one frame consumes. */
    function Stride(): nat
    {
      frameSize * channels
    }

    /** Whether the cutting loop makes progress on every iteration. */
    predicate Cuts()
    {
      frameSize * channels > 0
    }
  }

  /** `(k * frame_size * 1000) / sample_rate`: the timestamp in milliseconds of the `k`-th frame. */
  function AudioPts(f: AudioFormat, k: nat): int
    requires f.sampleRate > 0
  {
    (k * f.frameSize * 1000) / f.sampleRate
  }

  /** The even-indexed samples of the first `n` pairs: the left plane. */
  function Left(buf: seq<int>, n: nat): (plane: seq<int>)
    requires 2 * n <= |buf|
    ensures |plane| == n && forall i :: 0 <= i < n ==> plane[i] == buf[2 * i]
  {
    seq(n, i requires 0 <= i < n => buf[2 * i])
  }

  /** The odd-indexed samples of the first `n` pairs: the right plane. */
  function Right(buf: seq<int>, n: nat): (plane: seq<int>)
    requires 2 * n <= |buf|
    ensures |plane| == n && forall i :: 0 <= i < n ==> plane[i] == buf[2 * i + 1]
  {
    seq(n, i requires 0 <= i < n => buf[2 * i + 1])
  }

  /**
   The audio frame the `k`-th iteration sends when it finds `buf` in the
   sample buffer: two planes read with stride 2 whatever the channel count.
   */
  function AudioFrame(f: AudioFormat, buf: seq<int>, k: nat): Op
    requires 2 * f.frameSize <= |buf| && f.sampleRate > 0
  {
    SendAudioFrame(AudioPts(f, k), Left(buf, f.frameSize), Right(buf, f.frameSize))
  }

  /** With two or more channels a frame's stride covers both planes. */
  lemma StrideCoversPairs(f: AudioFormat)
    ensures f.channels >= 2 ==> 2 * f.frameSize <= f.Stride()
  {
    if f.channels >= 2 {
      MulLe(2, f.channels, f.frameSize);
    }
  }

  /**
   Whether the cutting loop ends on `buf`: it drops samples on every round,
   or its first round panics on a read past the buffer or on a zero sample
   rate. Otherwise it sends frames forever without draining anything.
   */
  predicate DrainEnds(f: AudioFormat, buf: seq<int>)
  {
    f.Cuts() || |buf| < 2 * f.frameSize || f.sampleRate == 0
  }

  /**
   The cutting loop on buffer `buf` after `k` frames: while a frame's worth
   of samples is buffered, send a frame and drop `frame_size * channels`
   samples. Reading the right plane past the end of the buffer, or a zero
   sample rate in the timestamp division, panics.
   */
  function Drain(f: AudioFormat, buf: seq<int>, k: nat): (r: (seq<Op>, seq<int>, nat, bool))
    requires DrainEnds(f, buf)
    ensures !f.Cuts() ==> r == ([], buf, k, true)
    ensures !r.3 ==> |r.1| < f.Stride()
    ensures f.channels >= 2 && f.sampleRate > 0 ==> !r.3
    ensures forall i :: 0 <= i < |r.0| ==> Rank(r.0[i]) == 5
    decreases |buf|
  {
    StrideCoversPairs(f);
    if |buf| < f.Stride() then ([], buf, k, false)
    else if |buf| < 2 * f.frameSize || f.sampleRate == 0 then ([], buf, k, true)
    else
      var rest := Drain(f, buf[f.Stride()..], k + 1);
      ([AudioFrame(f, buf, k)] + rest.0, rest.1, rest.2, rest.3)
  }

  /** The audio loop's state: operations so far, buffered samples, frames sent, whether it panicked. */
  datatype AudioState = AudioState(ops: seq<Op>, buf: seq<int>, frames: nat, panicked: bool)

  /** One chunk: decode it, skip it when it holds no sample, otherwise buffer it and cut frames. */
  function Feed(f: AudioFormat, st: AudioState, chunk: Stamped): (next: AudioState)
    requires st.panicked || DecodeS16le(chunk.data) == [] || DrainEnds(f, st.buf + DecodeS16le(chunk.data))
    ensures st.panicked ==> next == st
  {
    var samples := DecodeS16le(chunk.data);
    if st.panicked || |samples| == 0 then st
    else
      var d := Drain(f, st.buf + samples, st.frames);
      AudioState(st.ops + d.0, d.1, d.2, d.3)
  }

  /** All samples of the chunks, one stream. */
  function Samples(chunks: seq<Stamped>): (s: seq<int>)
  {
    if |chunks| == 0 then [] else Samples(chunks[..|chunks| - 1]) + DecodeS16le(chunks[|chunks| - 1].data)
  }

  /**
   Whether the audio loop ends on `chunks`: the cutting loop drops samples
   on every round, or there is no sample rate, or the first chunk holding
   samples holds fewer than two planes' worth, so that the first round
   panics.
   */
  predicate AudioEnds(f: AudioFormat, chunks: seq<Stamped>)
  {
    || f.Cuts()
    || f.sampleRate == 0
    || forall i :: 0 <= i < |chunks| && Samples(chunks[..i]) == [] && DecodeS16le(chunks[i].data) != [] ==>
         |DecodeS16le(chunks[i].data)| < 2 * f.frameSize
  }

  /** The loop ends on the chunks before the last when it ends on all of them. */
  lemma AudioEndsPrefix(f: AudioFormat, chunks: seq<Stamped>)
    requires |chunks| > 0 && AudioEnds(f, chunks)
    ensures AudioEnds(f, chunks[..|chunks| - 1])
  {
    var prefix := chunks[..|chunks| - 1];
    assert forall i :: 0 <= i < |prefix| ==> prefix[..i] == chunks[..i] && prefix[i] == chunks[i];
  }

  /**
   The audio loop over all chunks, in order. When a round drops no samples
   the loop panics on the first chunk holding samples, having sent nothing.
   */
  function AudioRun(f: AudioFormat, chunks: seq<Stamped>): (st: AudioState)
    requires AudioEnds(f, chunks)
    ensures forall i :: 0 <= i < |st.ops| ==> Rank(st.ops[i]) == 5
    ensures !f.Cuts() ==> st.ops == [] && (st.panicked <==> Samples(chunks) != []) && (!st.panicked ==> st.buf == [])
  {
    if |chunks| == 0 then AudioState([], [], 0, false)
    else
      AudioEndsPrefix(f, chunks);
      Feed(f, AudioRun(f, chunks[..|chunks| - 1]), chunks[|chunks| - 1])
  }

  /** A frame reads only the first `2 * frame_size` samples of the buffer. */
  lemma AudioFrameOfPrefix(f: AudioFormat, h: seq<int>, t: seq<int>, k: nat)
    requires 2 * f.frameSize <= |h| && f.sampleRate > 0
    ensures AudioFrame(f, h + t, k) == AudioFrame(f, h, k)
  {
    assert Left(h + t, f.frameSize) == Left(h, f.frameSize);
    assert Right(h + t, f.frameSize) == Right(h, f.frameSize);
  }

  /** One round of the loop when a whole frame is buffered and nothing panics. */
  lemma DrainStep(f: AudioFormat, buf: seq<int>, k: nat)
    requires f.Cuts() && f.channels >= 2 && f.sampleRate > 0 && |buf| >= f.Stride()
    ensures 2 * f.frameSize <= |buf|
    ensures var rest := Drain(f, buf[f.Stride()..], k + 1);
      Drain(f, buf, k) == ([AudioFrame(f, buf, k)] + rest.0, rest.1, rest.2, rest.3)
  {
    StrideCoversPairs(f);
  }

  /** Cutting `h + t` is cutting `h`, then cutting what `h` left over followed by `t`. */
  predicate CutsInTwo(f: AudioFormat, h: seq<int>, t: seq<int>, k: nat)
    requires f.Cuts()
  {
    var d1 := Drain(f, h, k);
    var d2 := Drain(f, d1.1 + t, d1.2);
    Drain(f, h + t, k) == (d1.0 + d2.0, d2.1, d2.2, d2.3)
  }

  /** The inductive step of `DrainAppend`: a whole frame in `h` is sent first either way. */
  lemma DrainAppendStep(f: AudioFormat, h: seq<int>, t: seq<int>, k: nat)
    requires f.Cuts() && f.channels >= 2 && f.sampleRate > 0 && |h| >= f.Stride()
    requires CutsInTwo(f, h[f.Stride()..], t, k + 1)
    ensures CutsInTwo(f, h, t, k)
  {
    DrainStep(f, h, k);
    DrainStep(f, h + t, k);
    AudioFrameOfPrefix(f, h, t, k);
    assert (h + t)[f.Stride()..] == h[f.Stride()..] + t;
    var r1 := Drain(f, h[f.Stride()..], k + 1);
    var d2 := Drain(f, r1.1 + t, r1.2);
    var frame := AudioFrame(f, h, k);
    assert [frame] + (r1.0 + d2.0) == ([frame] + r1.0) + d2.0;
  }

  /**
   Cutting `h + t` is cutting `h`, then cutting what `h` left over
   followed by `t`: where the buffer was filled up does not matter.
   */
  lemma {:induction false} DrainAppend(f: AudioFormat, h: seq<int>, t: seq<int>, k: nat)
    requires f.Cuts() && f.channels >= 2 && f.sampleRate > 0
    ensures CutsInTwo(f, h, t, k)
    decreases |h|
  {
    if |h| >= f.Stride() {
      DrainAppend(f, h[f.Stride()..], t, k + 1);
      DrainAppendStep(f, h, t, k);
    } else {
      assert Drain(f, h, k) == ([], h, k, false);
      assert [] + Drain(f, h + t, k).0 == Drain(f, h + t, k).0;
    }
  }

  /**
   With at least two channels and a sample rate, feeding the chunks one by
   one sends the same frames, and leaves the same samples buffered, as
   cutting the whole sample stream at once.
   */
  lemma {:induction false} AudioRunCutsStream(f: AudioFormat, chunks: seq<Stamped>)
    requires f.Cuts() && f.channels >= 2 && f.sampleRate > 0
    ensures var d := Drain(f, Samples(chunks), 0);
      AudioRun(f, chunks) == AudioState(d.0, d.1, d.2, false)
  {
    if |chunks| > 0 {
      var prefix := chunks[..|chunks| - 1];
      AudioRunCutsStream(f, prefix);
      var samples := DecodeS16le(chunks[|chunks| - 1].data);
      if |samples| == 0 {
        assert Samples(chunks) == Samples(prefix);
      } else {
        DrainAppend(f, Samples(prefix), samples, 0);
      }
    }
  }

  /** Cutting a stream sends whole frames while they fit and keeps the rest buffered. */
  lemma {:induction false} DrainLength(f: AudioFormat, s: seq<int>, k: nat)
    requires f.Cuts() && f.channels >= 2 && f.sampleRate > 0
    ensures var d := Drain(f, s, k);
      && |d.0| * f.Stride() <= |s| < |d.0| * f.Stride() + f.Stride()
      && d.1 == s[|d.0| * f.Stride()..]
      && d.2 == k + |d.0|
    decreases |s|
  {
    if |s| >= f.Stride() {
      var stride := f.Stride();
      DrainStep(f, s, k);
      DrainLength(f, s[stride..], k + 1);
      var n := |Drain(f, s[stride..], k + 1).0|;
      MulSucc(n, stride);
      assert s[stride..][n * stride..] == s[(n + 1) * stride..];
    }
  }

  /** The leftover of a cut stream is never sent: exactly `|stream| / stride` frames are. */
  lemma DrainCount(f: AudioFormat, s: seq<int>, k: nat)
    requires f.Cuts() && f.channels >= 2 && f.sampleRate > 0
    ensures |Drain(f, s, k).0| == |s| / f.Stride()
  {
    var n := |Drain(f, s, k).0|;
    DrainLength(f, s, k);
    DivUnique(|s|, f.Stride(), n, |s| - n * f.Stride());
  }

  /**
   The `i`-th frame sent is read from the stream at offset `i * stride`:
   its left plane holds the samples at even and its right plane those at
   odd offsets from there, and it is stamped as the `k + i`-th frame.
   */
  lemma {:induction false} DrainAt(f: AudioFormat, s: seq<int>, k: nat, i: nat)
    requires f.Cuts() && f.channels >= 2 && f.sampleRate > 0
    requires i < |Drain(f, s, k).0|
    ensures 2 * f.frameSize <= f.Stride() && i * f.Stride() + f.Stride() <= |s|
    ensures Drain(f, s, k).0[i] == AudioFrame(f, s[i * f.Stride()..], k + i)
    decreases i
  {
    StrideCoversPairs(f);
    DrainStep(f, s, k);
    var stride := f.Stride();
    var rest := Drain(f, s[stride..], k + 1).0;
    assert Drain(f, s, k).0 == [AudioFrame(f, s, k)] + rest;
    if i == 0 {
      assert s[0 * stride..] == s;
    } else {
      assert Drain(f, s, k).0[i] == rest[i - 1];
      DrainAt(f, s[stride..], k + 1, i - 1);
      MulSucc(i - 1, stride);
      assert s[stride..][(i - 1) * stride..] == s[i * stride..];
    }
  }

  /**
   With a single channel (or no sample rate) the loop panics as soon as
   there is one frame's worth of samples: with stride `frame_size` the
   right plane reads past the buffer on the last frame a chunk completes.
   */
  lemma {:induction false} DrainPanics(f: AudioFormat, buf: seq<int>, k: nat)
    requires (f.channels < 2 || f.sampleRate == 0) && DrainEnds(f, buf)
    ensures Drain(f, buf, k).3 <==> |buf| >= f.Stride()
    decreases |buf|
  {
    if |buf| >= f.Stride() && |buf| >= 2 * f.frameSize && f.sampleRate > 0 {
      assert f.channels == 1;
      DrainPanics(f, buf[f.Stride()..], k + 1);
    }
  }

  /** Without a second channel or a sample rate, the audio loop panics exactly when one frame's worth of samples arrives. */
  lemma {:induction false} AudioRunPanics(f: AudioFormat, chunks: seq<Stamped>)
    requires (f.channels < 2 || f.sampleRate == 0) && AudioEnds(f, chunks)
    ensures var st := AudioRun(f, chunks);
      && (st.panicked <==> Samples(chunks) != [] && |Samples(chunks)| >= f.Stride())
      && (!st.panicked ==> st.ops == [] && st.buf == Samples(chunks))
  {
    if |chunks| > 0 {
      var prefix := chunks[..|chunks| - 1];
      AudioEndsPrefix(f, chunks);
      AudioRunPanics(f, prefix);
      var before := AudioRun(f, prefix);
      var samples := DecodeS16le(chunks[|chunks| - 1].data);
      if !before.panicked && |samples| > 0 {
        DrainPanics(f, before.buf + samples, before.frames);
      }
    }
  }

  /** The audio timestamps never decrease. */
  lemma AudioPtsMonotone(f: AudioFormat, j: nat, k: nat)
    requires f.sampleRate > 0 && j <= k
    ensures AudioPts(f, j) <= AudioPts(f, k)
  {
    MulLe(j, k, f.frameSize * 1000);
    assert j * f.frameSize * 1000 == j * (f.frameSize * 1000);
    assert k * f.frameSize * 1000 == k * (f.frameSize * 1000);
    DivLe(j * f.frameSize * 1000, k * f.frameSize * 1000, f.sampleRate);
  }

  /* ---------------------------------------------------------------------- */
  /* The whole encoding                                                     */
  /* ---------------------------------------------------------------------- */

  /** Whether an audio stream is set up: there is audio to save and some chunk is buffered. */
  predicate AudioOn(haveAudio: bool, audio: seq<Stamped>)
  {
    haveAudio && |audio| > 0
  }

  /** What `encode_to_mp4` demands of its arguments. */
  predicate Encodable(s: Settings, frameSize: nat, video: seq<Stamped>, audio: seq<Stamped>, haveAudio: bool)
  {
    && |video| > 0
    && FrameBytes(s) < U32_MODULUS
    && (AudioOn(haveAudio, audio) ==> AudioEnds(Format(s, frameSize), audio))
  }

  /** The stream setup calls, the audio ones only when there is an audio stream. */
  function SetupOps(on: bool): (ops: seq<Op>)
    ensures forall i :: 0 <= i < |ops| ==> Rank(ops[i]) == 0
    ensures AddAudioStream in ops <==> on
  {
    [Init, CreateOutput, FindVideoCodec, AddVideoStream, CreateVideoEncoder, OpenVideoEncoder]
      + (if on then [FindAudioCodec, AddAudioStream, CreateAudioEncoder, OpenAudioEncoder] else [])
  }

  /** The video half: setup, header, scaler, the video frames and the video flush. */
  function VideoPart(s: Settings, video: seq<Stamped>, on: bool): (ops: seq<Op>)
    requires |video| > 0
  {
    SetupOps(on) + [WriteHeader, CreateScaler] + VideoOps(video, FrameBytes(s), video[0].timestampMs) + [SendVideoEof]
  }

  /** The audio half: the audio frames, then the audio flush and the trailer unless the loop panicked. */
  function AudioPart(f: AudioFormat, audio: seq<Stamped>, on: bool): (r: (seq<Op>, bool))
    requires on ==> AudioEnds(f, audio)
  {
    if !on then ([WriteTrailer], false)
    else
      var a := AudioRun(f, audio);
      if a.panicked then (a.ops, true) else (a.ops + [SendAudioEof, WriteTrailer], false)
  }

  /** The format of the audio stream. */
  function Format(s: Settings, frameSize: nat): AudioFormat
  {
    AudioFormat(frameSize, s.channels, s.sampleRate)
  }

  /**
   The calls the encoder makes when none fails, and whether it panics: the
   video half, then the audio half.
   */
  function Plan(s: Settings, frameSize: nat, video: seq<Stamped>, audio: seq<Stamped>, haveAudio: bool): (r: (seq<Op>, bool))
    requires Encodable(s, frameSize, video, audio, haveAudio)
  {
    var on := AudioOn(haveAudio, audio);
    var a := AudioPart(Format(s, frameSize), audio, on);
    (VideoPart(s, video, on) + a.0, a.1)
  }

  /**
   `encode_to_mp4`: the planned calls in order up to the first that fails,
   as selected by `failAt`; a panic ends the run after the calls before it.
   */
  function Encode(s: Settings, frameSize: nat, video: seq<Stamped>, audio: seq<Stamped>, haveAudio: bool,
                  failAt: Option<nat>): (r: (seq<Op>, Outcome))
    requires Encodable(s, frameSize, video, audio, haveAudio)
    ensures r.1.Failed? ==> failAt.Some? && |r.0| == failAt.value
    ensures r.1 == Encoded ==> |r.0| > 0 && r.0[|r.0| - 1] == WriteTrailer
  {
    var p := Plan(s, frameSize, video, audio, haveAudio);
    if failAt.Some? && failAt.value < |p.0| then (p.0[..failAt.value], Failed(p.0[failAt.value]))
    else if p.1 then (p.0, Panicked)
    else (p.0, Encoded)
  }

  /* Phase order */

  predicate AtMost(ops: seq<Op>, r: nat)
  {
    forall i :: 0 <= i < |ops| ==> Rank(ops[i]) <= r
  }

  predicate AtLeast(ops: seq<Op>, r: nat)
  {
    forall i :: 0 <= i < |ops| ==> Rank(ops[i]) >= r
  }

  lemma Uniform(ops: seq<Op>, r: nat)
    requires forall i :: 0 <= i < |ops| ==> Rank(ops[i]) == r
    ensures InPhaseOrder(ops) && AtMost(ops, r) && AtLeast(ops, r)
  {
  }

  lemma PhaseOrderConcat(a: seq<Op>, b: seq<Op>, m: nat)
    requires InPhaseOrder(a) && InPhaseOrder(b) && AtMost(a, m) && AtLeast(b, m)
    ensures InPhaseOrder(a + b)
  {
  }

  lemma AtMostConcat(a: seq<Op>, b: seq<Op>, m: nat)
    requires AtMost(a, m) && AtMost(b, m)
    ensures AtMost(a + b, m)
  {
  }

  lemma AtLeastConcat(a: seq<Op>, b: seq<Op>, m: nat)
    requires AtLeast(a, m) && AtLeast(b, m)
    ensures AtLeast(a + b, m)
  {
  }

  /** Setup calls, the header and scaler, video frames and the video flush come in phase order. */
  lemma VideoShape(setup: seq<Op>, vops: seq<Op>)
    requires forall i :: 0 <= i < |setup| ==> Rank(setup[i]) == 0
    requires forall i :: 0 <= i < |vops| ==> Rank(vops[i]) == 3
    ensures var ops := setup + [WriteHeader, CreateScaler] + vops + [SendVideoEof];
      InPhaseOrder(ops) && AtMost(ops, 4)
  {
    Uniform(setup, 0);
    Uniform(vops, 3);
    var a := setup + [WriteHeader, CreateScaler];
    PhaseOrderConcat(setup, [WriteHeader, CreateScaler], 1);
    AtMostConcat(setup, [WriteHeader, CreateScaler], 2);
    PhaseOrderConcat(a, vops, 3);
    AtMostConcat(a, vops, 3);
    PhaseOrderConcat(a + vops, [SendVideoEof], 4);
    AtMostConcat(a + vops, [SendVideoEof], 4);
  }

  /** The video half keeps to its phases and ends with the video flush. */
  lemma VideoPartInOrder(s: Settings, video: seq<Stamped>, on: bool)
    requires |video| > 0
    ensures var ops := VideoPart(s, video, on);
      InPhaseOrder(ops) && AtMost(ops, 4) && ops[|ops| - 1] == SendVideoEof
  {
    VideoShape(SetupOps(on), VideoOps(video, FrameBytes(s), video[0].timestampMs));
  }

  /** Audio frames, then the audio flush and the trailer, come in phase order. */
  lemma AudioShape(aops: seq<Op>)
    requires forall i :: 0 <= i < |aops| ==> Rank(aops[i]) == 5
    ensures InPhaseOrder(aops) && AtLeast(aops, 5)
    ensures var ops := aops + [SendAudioEof, WriteTrailer];
      && InPhaseOrder(ops) && AtLeast(ops, 5)
      && (forall i :: 0 <= i < |ops| && ops[i] == WriteTrailer ==> i == |ops| - 1)
  {
    Uniform(aops, 5);
    PhaseOrderConcat(aops, [SendAudioEof, WriteTrailer], 6);
    AtLeastConcat(aops, [SendAudioEof, WriteTrailer], 5);
  }

  /** The audio half keeps to its phases; the trailer is its last call, present exactly when it does not panic. */
  lemma AudioPartInOrder(f: AudioFormat, audio: seq<Stamped>, on: bool)
    requires on ==> AudioEnds(f, audio)
    ensures var r := AudioPart(f, audio, on);
      && InPhaseOrder(r.0) && AtLeast(r.0, 5)
      && (forall i :: 0 <= i < |r.0| && r.0[i] == WriteTrailer ==> i == |r.0| - 1 && !r.1)
      && (!r.1 ==> |r.0| > 0 && r.0[|r.0| - 1] == WriteTrailer)
  {
    if on {
      AudioShape(AudioRun(f, audio).ops);
    }
  }

  /**
   The calls keep to their phases: setup, header, scaler, video frames,
   video flush, audio frames, audio flush, trailer. In particular every
   video frame and the video flush come before any audio frame.
   */
  lemma PlanInPhaseOrder(s: Settings, frameSize: nat, video: seq<Stamped>, audio: seq<Stamped>, haveAudio: bool)
    requires Encodable(s, frameSize, video, audio, haveAudio)
    ensures InPhaseOrder(Plan(s, frameSize, video, audio, haveAudio).0)
  {
    var on := AudioOn(haveAudio, audio);
    VideoPartInOrder(s, video, on);
    AudioPartInOrder(Format(s, frameSize), audio, on);
    PhaseOrderConcat(VideoPart(s, video, on), AudioPart(Format(s, frameSize), audio, on).0, 5);
  }

  /** Calls of the video phases in front of the audio half add no trailer. */
  lemma TrailerStaysLast(v: seq<Op>, tail: seq<Op>)
    requires AtMost(v, 4)
    ensures forall i :: 0 <= i < |v + tail| && (v + tail)[i] == WriteTrailer ==>
      |v| <= i && tail[i - |v|] == WriteTrailer
  {
  }

  /** The trailer is the last call of the plan, and it is there exactly when the plan does not panic. */
  lemma PlanTrailer(s: Settings, frameSize: nat, video: seq<Stamped>, audio: seq<Stamped>, haveAudio: bool)
    requires Encodable(s, frameSize, video, audio, haveAudio)
    ensures var p := Plan(s, frameSize, video, audio, haveAudio);
      && (forall i :: 0 <= i < |p.0| && p.0[i] == WriteTrailer ==> i == |p.0| - 1 && !p.1)
      && (!p.1 ==> p.0[|p.0| - 1] == WriteTrailer)
  {
    var on := AudioOn(haveAudio, audio);
    VideoPartInOrder(s, video, on);
    AudioPartInOrder(Format(s, frameSize), audio, on);
    TrailerStaysLast(VideoPart(s, video, on), AudioPart(Format(s, frameSize), audio, on).0);
  }


  /** Setup calls, the header, then later phases only: the header appears once, the setup calls only before it. */
  lemma HeaderOnce(setup: seq<Op>, rest: seq<Op>)
    requires forall i :: 0 <= i < |setup| ==> Rank(setup[i]) == 0
    requires AtLeast(rest, 2)
    ensures var ops := setup + [WriteHeader] + rest;
      && ops[|setup|] == WriteHeader
      && (forall i :: 0 <= i < |ops| && i != |setup| ==> ops[i] != WriteHeader)
      && (AddAudioStream in ops <==> AddAudioStream in setup)
  {
    var ops := setup + [WriteHeader] + rest;
    forall i | 0 <= i < |ops| && i != |setup|
      ensures ops[i] != WriteHeader && (ops[i] == AddAudioStream ==> AddAudioStream in setup)
    {
      if i < |setup| {
        assert ops[i] == setup[i];
      } else {
        assert ops[i] == rest[i - |setup| - 1];
      }
    }
    if AddAudioStream in setup {
      var i :| 0 <= i < |setup| && setup[i] == AddAudioStream;
      assert ops[i] == AddAudioStream;
    }
  }

  /** Appending calls of the audio phases adds neither a header nor an audio stream. */
  lemma HeaderStaysOnce(v: seq<Op>, tail: seq<Op>, header: nat)
    requires header < |v| && v[header] == WriteHeader
    requires forall i :: 0 <= i < |v| && i != header ==> v[i] != WriteHeader
    requires AtLeast(tail, 5)
    ensures var ops := v + tail;
      && ops[header] == WriteHeader
      && (forall i :: 0 <= i < |ops| && i != header ==> ops[i] != WriteHeader)
      && (AddAudioStream in ops <==> AddAudioStream in v)
  {
    var ops := v + tail;
    forall i | 0 <= i < |ops| && |v| <= i
      ensures ops[i] != WriteHeader && ops[i] != AddAudioStream
    {
      assert ops[i] == tail[i - |v|];
    }
    if AddAudioStream in v {
      var j :| 0 <= j < |v| && v[j] == AddAudioStream;
      assert ops[j] == AddAudioStream;
    }
  }

  /** The video half writes the header once, after the setup calls, which add audio exactly when asked to. */
  lemma VideoPartHeader(s: Settings, video: seq<Stamped>, on: bool)
    requires |video| > 0
    ensures var ops := VideoPart(s, video, on);
      var header := |SetupOps(on)|;
      && header < |ops| && ops[header] == WriteHeader
      && (forall i :: 0 <= i < |ops| && i != header ==> ops[i] != WriteHeader)
      && (AddAudioStream in ops <==> on)
  {
    var setup := SetupOps(on);
    var vops := VideoOps(video, FrameBytes(s), video[0].timestampMs);
    Uniform(vops, 3);
    var rest := [CreateScaler] + vops + [SendVideoEof];
    AtLeastConcat([CreateScaler], vops, 2);
    AtLeastConcat([CreateScaler] + vops, [SendVideoEof], 2);
    assert VideoPart(s, video, on) == setup + [WriteHeader] + rest;
    HeaderOnce(setup, rest);
  }

  /**
   The header is written once, right after the setup calls; an audio
   stream is added exactly when there is audio to save and buffered
   chunks.
   */
  lemma PlanHeader(s: Settings, frameSize: nat, video: seq<Stamped>, audio: seq<Stamped>, haveAudio: bool)
    requires Encodable(s, frameSize, video, audio, haveAudio)
    ensures var plan := Plan(s, frameSize, video, audio, haveAudio).0;
      var header := |SetupOps(AudioOn(haveAudio, audio))|;
      && header < |plan| && plan[header] == WriteHeader
      && (forall i :: 0 <= i < |plan| && i != header ==> plan[i] != WriteHeader)
      && (AddAudioStream in plan <==> AudioOn(haveAudio, audio))
  {
    var on := AudioOn(haveAudio, audio);
    VideoPartHeader(s, video, on);
    AudioPartInOrder(Format(s, frameSize), audio, on);
    HeaderStaysOnce(VideoPart(s, video, on), AudioPart(Format(s, frameSize), audio, on).0, |SetupOps(on)|);
  }

  /** The frames of the video half: scale and send per kept frame, then the flush. */
  lemma VideoPartFrames(s: Settings, video: seq<Stamped>, on: bool, i: nat)
    requires |video| > 0 && i < |Kept(video, FrameBytes(s))|
    ensures var ops := VideoPart(s, video, on);
      var start := |SetupOps(on)| + 2;
      var kept := Kept(video, FrameBytes(s));
      && start + 2 * |kept| + 1 == |ops|
      && ops[start + 2 * i] == ScaleFrame
      && ops[start + 2 * i + 1] == SendVideoFrame(Rebase(kept[i].timestampMs, video[0].timestampMs))
      && ops[start + 2 * |kept|] == SendVideoEof
  {
    var kept := Kept(video, FrameBytes(s));
    var vops := VideoOps(video, FrameBytes(s), video[0].timestampMs);
    var head := SetupOps(on) + [WriteHeader, CreateScaler];
    SendAllAt(kept, video[0].timestampMs, i);
    assert (head + vops + [SendVideoEof])[|head| + 2 * i] == vops[2 * i];
    assert (head + vops + [SendVideoEof])[|head| + 2 * i + 1] == vops[2 * i + 1];
  }

  /**
   One video frame is sent per frame of the right size, in order, each
   stamped relative to the first buffered frame, followed by the video
   flush.
   */
  lemma PlanVideoFrames(s: Settings, frameSize: nat, video: seq<Stamped>, audio: seq<Stamped>, haveAudio: bool, i: nat)
    requires Encodable(s, frameSize, video, audio, haveAudio)
    requires i < |Kept(video, FrameBytes(s))|
    ensures var plan := Plan(s, frameSize, video, audio, haveAudio).0;
      var start := |SetupOps(AudioOn(haveAudio, audio))| + 2;
      var kept := Kept(video, FrameBytes(s));
      && start + 2 * |kept| < |plan|
      && plan[start + 2 * i] == ScaleFrame
      && plan[start + 2 * i + 1] == SendVideoFrame(Rebase(kept[i].timestampMs, video[0].timestampMs))
      && plan[start + 2 * |kept|] == SendVideoEof
  {
    var on := AudioOn(haveAudio, audio);
    VideoPartFrames(s, video, on, i);
    var v := VideoPart(s, video, on);
    var plan := Plan(s, frameSize, video, audio, haveAudio).0;
    assert plan[..|v|] == v;
  }

  /**
   With an audio stream of two or more channels, a sample rate and a frame
   size, the audio half sends the frames cut from the whole sample stream,
   then the audio flush and the trailer; without an audio stream only the
   trailer follows the video.
   */
  lemma PlanAudioFrames(s: Settings, frameSize: nat, video: seq<Stamped>, audio: seq<Stamped>, haveAudio: bool)
    requires Encodable(s, frameSize, video, audio, haveAudio)
    ensures var on := AudioOn(haveAudio, audio); var p := Plan(s, frameSize, video, audio, haveAudio);
      && (!on ==> p == (VideoPart(s, video, on) + [WriteTrailer], false))
      && (on && s.channels >= 2 && s.sampleRate > 0 && frameSize > 0 ==>
           p == (VideoPart(s, video, on) + Drain(Format(s, frameSize), Samples(audio), 0).0 + [SendAudioEof, WriteTrailer], false))
  {
    if AudioOn(haveAudio, audio) && s.channels >= 2 && s.sampleRate > 0 && frameSize > 0 {
      MulLe(1, s.channels, frameSize);
      var f := Format(s, frameSize);
      var d := Drain(f, Samples(audio), 0);
      AudioRunCutsStream(f, audio);
      assert AudioPart(f, audio, true) == (d.0 + [SendAudioEof, WriteTrailer], false);
      var v := VideoPart(s, video, true);
      assert v + (d.0 + [SendAudioEof, WriteTrailer]) == v + d.0 + [SendAudioEof, WriteTrailer];
    }
  }

  /**
   When a round of the cutting loop would drop no samples (no channel or
   no frame size), no audio frame is sent: the plan panics exactly when
   some sample is buffered, and otherwise flushes and writes the trailer.
   */
  lemma PlanAudioStalls(s: Settings, frameSize: nat, video: seq<Stamped>, audio: seq<Stamped>, haveAudio: bool)
    requires Encodable(s, frameSize, video, audio, haveAudio)
    requires AudioOn(haveAudio, audio) && frameSize * s.channels == 0
    ensures Plan(s, frameSize, video, audio, haveAudio)
      == (VideoPart(s, video, true) + (if Samples(audio) == [] then [SendAudioEof, WriteTrailer] else []), Samples(audio) != [])
  {
    var f := Format(s, frameSize);
    assert !f.Cuts();
    var a := AudioRun(f, audio);
    assert a.ops == [] && (a.panicked <==> Samples(audio) != []);
    if a.panicked {
      assert AudioPart(f, audio, true) == ([], true);
      assert VideoPart(s, video, true) + [] == VideoPart(s, video, true);
    } else {
      assert a.ops + [SendAudioEof, WriteTrailer] == [SendAudioEof, WriteTrailer];
    }
  }

  /** The trailer is written exactly when the encoding succeeds, and nothing follows it. */
  lemma EncodeTrailer(s: Settings, frameSize: nat, video: seq<Stamped>, audio: seq<Stamped>, haveAudio: bool,
                      failAt: Option<nat>)
    requires Encodable(s, frameSize, video, audio, haveAudio)
    ensures var r := Encode(s, frameSize, video, audio, haveAudio, failAt);
      (WriteTrailer in r.0 <==> r.1 == Encoded)
  {
    var p := Plan(s, frameSize, video, audio, haveAudio);
    var r := Encode(s, frameSize, video, audio, haveAudio, failAt);
    PlanTrailer(s, frameSize, video, audio, haveAudio);
    if WriteTrailer in r.0 {
      var i :| 0 <= i < |r.0| && r.0[i] == WriteTrailer;
      assert p.0[i] == WriteTrailer;
    }
  }

  /** A frame skipped for its size still fixes the origin of the timestamps when it comes first. */
  lemma SkippedFirstFrameStillRebases(first: Stamped, second: Stamped, size: nat)
    requires |first.data| != size && |second.data| == size
    ensures VideoOps([first, second], size, first.timestampMs)
      == [ScaleFrame, SendVideoFrame(Rebase(second.timestampMs, first.timestampMs))]
  {
    assert [first, second][1..] == [second];
    assert [second][1..] == [];
  }
}
