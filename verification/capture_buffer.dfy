/**
 `StreamPuffer`: two bounded FIFO buffers holding the most recent video
 frames and audio chunks received from the emulator, and the save
 operation that cuts both to the time range they share and hands them to
 the MP4 encoder.
 */
module CaptureBuffer {
  import opened Options
  import opened Media
  import opened Seqs
  import opened Mp4Encoder

  /** The buffers and the configuration fixed at construction. */
  datatype Puffer = Puffer(
    video: seq<Stamped>, audio: seq<Stamped>,
    maxFrames: nat, maxAudioChunks: nat,
    targetFps: nat, sampleRate: nat, channels: nat, width: nat, height: nat)

  /** `StreamPuffer::new`: empty buffers with the given bounds and encoding parameters. */
  function NewPuffer(maxFrames: nat, maxAudioChunks: nat, targetFps: nat, sampleRate: nat, channels: nat,
                     width: nat, height: nat): (p: Puffer)
    ensures p.video == [] && p.audio == []
    ensures p.maxFrames == maxFrames && p.maxAudioChunks == maxAudioChunks
  {
    Puffer([], [], maxFrames, maxAudioChunks, targetFps, sampleRate, channels, width, height)
  }

  /* ---------------------------------------------------------------------- */
  /* Bounded buffers                                                        */
  /* ---------------------------------------------------------------------- */

  /**
   How many elements a buffer with bound `cap` holds at most: the bound,
   except that a zero bound still keeps the element just pushed.
   */
  function Retained(cap: nat): (n: nat)
    ensures n >= 1 && n >= cap
  {
    if cap == 0 then 1 else cap
  }

  /**
   The push of both buffers: when the buffer is at or over its bound the
   oldest element is dropped (nothing, if it is empty), then the new one
   is appended.
   */
  function BoundedPush<T>(buf: seq<T>, cap: nat, x: T): (r: seq<T>)
    ensures |r| > 0 && r[|r| - 1] == x
    ensures |buf| <= Retained(cap) ==> |r| <= Retained(cap)
  {
    (if |buf| >= cap && |buf| > 0 then buf[1..] else buf) + [x]
  }

  /** A push keeps everything but possibly the oldest element, in order, and puts the new one last. */
  lemma BoundedPushKeepsNewest<T>(buf: seq<T>, cap: nat, x: T)
    ensures var r := BoundedPush(buf, cap, x);
      && |buf| <= |r| <= |buf| + 1
      && (|r| == |buf| <==> |buf| >= cap && |buf| > 0)
      && r == buf[|buf| + 1 - |r|..] + [x]
  {
  }

  /** The last `n` elements of `h`, or all of them when there are fewer. */
  function Latest<T>(h: seq<T>, n: nat): (r: seq<T>)
    ensures |r| == if |h| <= n then |h| else n
  {
    if |h| <= n then h else h[|h| - n..]
  }

  /** Pushing each element in turn. */
  function PushAll<T>(buf: seq<T>, cap: nat, xs: seq<T>): (r: seq<T>)
    decreases |xs|
  {
    if |xs| == 0 then buf else PushAll(BoundedPush(buf, cap, xs[0]), cap, xs[1..])
  }

  /** A buffer holding the latest elements of a history still does after a push. */
  lemma BoundedPushLatest<T>(h: seq<T>, cap: nat, x: T)
    ensures BoundedPush(Latest(h, Retained(cap)), cap, x) == Latest(h + [x], Retained(cap))
  {
    var n := Retained(cap);
    var b := Latest(h, n);
    if |h| >= n {
      assert b[1..] == (h + [x])[|h| + 1 - n..|h|];
    }
  }


  /**
   Whatever the pushes, a buffer started empty holds exactly the
   `Retained(cap)` most recent elements, oldest first.
   */
  lemma {:induction false} PushAllLatest<T>(h: seq<T>, cap: nat, xs: seq<T>)
    ensures PushAll(Latest(h, Retained(cap)), cap, xs) == Latest(h + xs, Retained(cap))
    decreases |xs|
  {
    if |xs| > 0 {
      BoundedPushLatest(h, cap, xs[0]);
      PushAllLatest(h + [xs[0]], cap, xs[1..]);
      MoveFirst(h, xs);
    }
  }

  /** From an empty buffer, the pushes leave the most recent elements. */
  lemma PushAllFromEmpty<T>(cap: nat, xs: seq<T>)
    ensures PushAll([], cap, xs) == Latest(xs, Retained(cap))
  {
    PushAllLatest([], cap, xs);
    assert [] + xs == xs;
  }

  /** `push_video`: the frame is stamped with whole milliseconds, truncated to 32 bits. */
  function PushVideo(p: Puffer, timestampUs: nat, image: seq<Byte>): (q: Puffer)
    ensures q.audio == p.audio && q.maxFrames == p.maxFrames
    ensures |q.video| > 0 && q.video[|q.video| - 1] == Stamped(ToMs(timestampUs), image)
    ensures |p.video| <= Retained(p.maxFrames) ==> |q.video| <= Retained(p.maxFrames)
  {
    p.(video := BoundedPush(p.video, p.maxFrames, Stamped(ToMs(timestampUs), image)))
  }

  /** `push_audio`: the chunk is stamped like a video frame and kept in the audio buffer. */
  function PushAudio(p: Puffer, timestamp: nat, pcm: seq<Byte>): (q: Puffer)
    ensures q.video == p.video && q.maxAudioChunks == p.maxAudioChunks
    ensures |q.audio| > 0 && q.audio[|q.audio| - 1] == Stamped(ToMs(timestamp), pcm)
    ensures |p.audio| <= Retained(p.maxAudioChunks) ==> |q.audio| <= Retained(p.maxAudioChunks)
  {
    p.(audio := BoundedPush(p.audio, p.maxAudioChunks, Stamped(ToMs(timestamp), pcm)))
  }

  /** The video buffer is always the latest frames pushed, the audio buffer untouched. */
  lemma PushVideoLatest(p: Puffer, history: seq<Stamped>, timestampUs: nat, image: seq<Byte>)
    requires p.video == Latest(history, Retained(p.maxFrames))
    ensures var q := PushVideo(p, timestampUs, image);
      q.video == Latest(history + [Stamped(ToMs(timestampUs), image)], Retained(p.maxFrames))
  {
    BoundedPushLatest(history, p.maxFrames, Stamped(ToMs(timestampUs), image));
  }

  /** The audio buffer is always the latest chunks pushed, the video buffer untouched. */
  lemma PushAudioLatest(p: Puffer, history: seq<Stamped>, timestamp: nat, pcm: seq<Byte>)
    requires p.audio == Latest(history, Retained(p.maxAudioChunks))
    ensures var q := PushAudio(p, timestamp, pcm);
      q.audio == Latest(history + [Stamped(ToMs(timestamp), pcm)], Retained(p.maxAudioChunks))
  {
    BoundedPushLatest(history, p.maxAudioChunks, Stamped(ToMs(timestamp), pcm));
  }

  /* ---------------------------------------------------------------------- */
  /* Choosing what to save                                                  */
  /* ---------------------------------------------------------------------- */

  /** Why saving stopped. */
  datatype SaveError = NoVideoFrames | NoVideoAfterFiltering | EncoderError(op: Op) | TaskJoinError

  /** What is handed to the encoder: whether to add audio, and the frames and chunks. */
  datatype Selection = Selection(haveAudio: bool, video: seq<Stamped>, audio: seq<Stamped>)

  function Max(a: nat, b: nat): nat { if a >= b then a else b }

  function Min(a: nat, b: nat): nat { if a <= b then a else b }

  /** The elements stamped within `[lo, hi]`, in buffer order. */
  function Window(s: seq<Stamped>, lo: nat, hi: nat): (w: seq<Stamped>)
    ensures forall x :: x in w <==> x in s && lo <= x.timestampMs <= hi
  {
    Filter(s, (x: Stamped) => lo <= x.timestampMs <= hi)
  }

  /** The start of the range both buffers cover: the later of the first timestamps. */
  function OverlapStart(video: seq<Stamped>, audio: seq<Stamped>): nat
    requires |video| > 0 && |audio| > 0
  {
    Max(video[0].timestampMs, audio[0].timestampMs)
  }

  /** The end of the range both buffers cover: the earlier of the last timestamps. */
  function OverlapEnd(video: seq<Stamped>, audio: seq<Stamped>): nat
    requires |video| > 0 && |audio| > 0
  {
    Min(video[|video| - 1].timestampMs, audio[|audio| - 1].timestampMs)
  }

  /** Whether there is audio and its range, first to last chunk, overlaps the video's in more than a point. */
  predicate Overlaps(video: seq<Stamped>, audio: seq<Stamped>)
    requires |video| > 0
  {
    |audio| > 0 && OverlapStart(video, audio) < OverlapEnd(video, audio)
  }

  /**
   The selection step of `save_last_to_mp4`: no video is an error; without
   audio, or without an overlap, all video is saved alone; otherwise both
   buffers are cut to the overlap, and an empty cut of the video is an
   error.
   */
  function Select(video: seq<Stamped>, audio: seq<Stamped>): (r: Result<Selection, SaveError>)
    ensures r == Err(NoVideoFrames) <==> |video| == 0
    ensures r.Ok? ==> |r.value.video| > 0 && (r.value.haveAudio <==> Overlaps(video, audio))
    ensures r.Ok? && !r.value.haveAudio ==> r.value.video == video && r.value.audio == []
    ensures r.Err? && r.error == NoVideoAfterFiltering ==> Overlaps(video, audio)
  {
    if |video| == 0 then Err(NoVideoFrames)
    else if !Overlaps(video, audio) then Ok(Selection(false, video, []))
    else
      var lo := OverlapStart(video, audio);
      var hi := OverlapEnd(video, audio);
      var v := Window(video, lo, hi);
      if |v| == 0 then Err(NoVideoAfterFiltering) else Ok(Selection(true, v, Window(audio, lo, hi)))
  }

  /**
   With an overlap, exactly the frames and chunks stamped inside it are
   kept, in their buffer order; saving fails only when no frame is.
   */
  lemma SelectOverlap(video: seq<Stamped>, audio: seq<Stamped>)
    requires |video| > 0 && Overlaps(video, audio)
    ensures var lo := OverlapStart(video, audio); var hi := OverlapEnd(video, audio);
      && (Select(video, audio) == Err(NoVideoAfterFiltering) <==> Window(video, lo, hi) == [])
      && (Select(video, audio).Ok? ==>
            Select(video, audio).value == Selection(true, Window(video, lo, hi), Window(audio, lo, hi)))
  {
  }

  /** Timestamps that never decrease along the buffer. */
  predicate Sorted(s: seq<Stamped>)
  {
    forall i, j :: 0 <= i <= j < |s| ==> s[i].timestampMs <= s[j].timestampMs
  }

  /** A window of elements all stamped after it is empty. */
  lemma {:induction false} WindowAfter(s: seq<Stamped>, lo: nat, hi: nat)
    requires forall i :: 0 <= i < |s| ==> s[i].timestampMs > hi
    ensures Window(s, lo, hi) == []
    decreases |s|
  {
    if |s| > 0 {
      WindowCons(s, lo, hi);
      assert forall i :: 0 <= i < |s[1..]| ==> s[1..][i] == s[i + 1];
      WindowAfter(s[1..], lo, hi);
    }
  }

  /** The window of a non-empty buffer: its first element if inside, then the window of the rest. */
  lemma WindowCons(s: seq<Stamped>, lo: nat, hi: nat)
    requires |s| > 0
    ensures Window(s, lo, hi)
      == (if lo <= s[0].timestampMs <= hi then [s[0]] else []) + Window(s[1..], lo, hi)
  {
  }

  /** The tail of a sorted buffer is sorted and stamped no earlier than its head. */
  lemma SortedTail(s: seq<Stamped>)
    requires Sorted(s) && |s| > 0
    ensures Sorted(s[1..])
    ensures forall k :: 0 <= k < |s[1..]| ==> s[0].timestampMs <= s[1..][k].timestampMs
  {
    forall k | 0 <= k < |s[1..]|
      ensures s[0].timestampMs <= s[1..][k].timestampMs
    {
      assert s[1..][k] == s[k + 1];
    }
  }

  /** `s[i..j]` is the window and what lies outside it is stamped outside `[lo, hi]`. */
  predicate SliceIsWindow(s: seq<Stamped>, lo: nat, hi: nat, i: nat, j: nat)
  {
    && i <= j <= |s| && Window(s, lo, hi) == s[i..j]
    && (forall k :: 0 <= k < i ==> s[k].timestampMs < lo)
    && (forall k :: j <= k < |s| ==> s[k].timestampMs > hi)
  }

  /** A first element stamped before the window moves the slice of the rest by one. */
  lemma SliceAfterEarlyHead(s: seq<Stamped>, lo: nat, hi: nat, i: nat, j: nat)
    requires |s| > 0 && s[0].timestampMs < lo && SliceIsWindow(s[1..], lo, hi, i, j)
    ensures SliceIsWindow(s, lo, hi, i + 1, j + 1)
  {
    WindowCons(s, lo, hi);
    TailSlice(s, i, j);
    TailIndex(s);
  }

  /** A first element inside the window extends a slice of the rest that starts at its head. */
  lemma SliceAfterKeptHead(s: seq<Stamped>, lo: nat, hi: nat, j: nat)
    requires |s| > 0 && lo <= s[0].timestampMs <= hi && SliceIsWindow(s[1..], lo, hi, 0, j)
    ensures SliceIsWindow(s, lo, hi, 0, j + 1)
  {
    WindowCons(s, lo, hi);
    TailSlice(s, 0, j);
    TailIndex(s);
  }

  /**
   On a buffer in timestamp order the window is one contiguous run: what
   comes before it is stamped before `lo`, what comes after it after `hi`.
   */
  lemma {:induction false} WindowIsSlice(s: seq<Stamped>, lo: nat, hi: nat) returns (i: nat, j: nat)
    requires Sorted(s)
    ensures SliceIsWindow(s, lo, hi, i, j)
  {
    if |s| == 0 {
      return 0, 0;
    }
    if s[0].timestampMs > hi {
      WindowAfter(s, lo, hi);
      return 0, 0;
    }
    SortedTail(s);
    var i', j' := WindowIsSlice(s[1..], lo, hi);
    if s[0].timestampMs < lo {
      SliceAfterEarlyHead(s, lo, hi, i', j');
      i, j := i' + 1, j' + 1;
    } else {
      SliceAfterKeptHead(s, lo, hi, j');
      i, j := 0, j' + 1;
    }
  }

  /* ---------------------------------------------------------------------- */
  /* Saving                                                                 */
  /* ---------------------------------------------------------------------- */

  /** The encoder parameters taken from the configuration. */
  function SettingsOf(p: Puffer): Settings
  {
    Settings(p.width, p.height, p.sampleRate, p.channels)
  }

  /** What the encoder needs for the selection the buffers lead to. */
  predicate Saveable(p: Puffer, frameSize: nat)
  {
    match Select(p.video, p.audio)
    case Ok(sel) => Encodable(SettingsOf(p), frameSize, sel.video, sel.audio, sel.haveAudio)
    case Err(_) => true
  }

  /** The ffmpeg calls made, and the error returned if the save did not succeed. */
  datatype SaveOutcome = SaveOutcome(calls: seq<Op>, error: Option<SaveError>)

  /**
   `save_last_to_mp4`: select, then encode; a failing ffmpeg call is
   reported with its call, a panic inside the blocking task as a join
   error. `frameSize` is the audio encoder's frame size and `failAt` the
   call that fails, if any.
   */
  function SaveLastToMp4(p: Puffer, frameSize: nat, failAt: Option<nat>): (r: SaveOutcome)
    requires Saveable(p, frameSize)
    ensures |p.video| == 0 ==> r == SaveOutcome([], Some(NoVideoFrames))
    ensures r.error.None? ==> |r.calls| > 0 && r.calls[|r.calls| - 1] == WriteTrailer
    ensures r.error == Some(NoVideoFrames) || r.error == Some(NoVideoAfterFiltering) ==> r.calls == []
    ensures r.calls == [] ==> r.error.Some?
    ensures r.error.Some? && r.error.value.EncoderError? ==> failAt.Some? && |r.calls| == failAt.value
  {
    match Select(p.video, p.audio)
    case Err(e) => SaveOutcome([], Some(e))
    case Ok(sel) =>
      var r := Encode(SettingsOf(p), frameSize, sel.video, sel.audio, sel.haveAudio, failAt);
      match r.1
      case Encoded => SaveOutcome(r.0, None)
      case Failed(op) => SaveOutcome(r.0, Some(EncoderError(op)))
      case Panicked => SaveOutcome(r.0, Some(TaskJoinError))
  }

  /** The file is finished, its trailer written, exactly when saving succeeds. */
  lemma SaveTrailer(p: Puffer, frameSize: nat, failAt: Option<nat>)
    requires Saveable(p, frameSize)
    ensures WriteTrailer in SaveLastToMp4(p, frameSize, failAt).calls <==> SaveLastToMp4(p, frameSize, failAt).error.None?
  {
    if Select(p.video, p.audio).Ok? {
      var sel := Select(p.video, p.audio).value;
      EncodeTrailer(SettingsOf(p), frameSize, sel.video, sel.audio, sel.haveAudio, failAt);
    }
  }

  /**
   Without audio overlapping the video, the whole video buffer is encoded
   and no audio stream is added to the file.
   */
  lemma SaveVideoOnly(p: Puffer, frameSize: nat)
    requires Saveable(p, frameSize) && |p.video| > 0 && !Overlaps(p.video, p.audio)
    ensures var r := SaveLastToMp4(p, frameSize, None);
      && r.error.None?
      && AddAudioStream !in r.calls
      && r.calls == VideoPart(SettingsOf(p), p.video, false) + [WriteTrailer]
  {
    PlanHeader(SettingsOf(p), frameSize, p.video, [], false);
    PlanAudioFrames(SettingsOf(p), frameSize, p.video, [], false);
  }

  /**
   With an overlap, a single audio channel and a sample rate, saving ends
   in a join error exactly when the selected chunks hold at least one
   audio frame of samples: the stereo de-interleave then reads past the
   sample buffer.
   */
  lemma SaveMonoPanics(p: Puffer, frameSize: nat)
    requires Saveable(p, frameSize) && p.channels == 1
    requires Select(p.video, p.audio).Ok? && Select(p.video, p.audio).value.haveAudio
    ensures var sel := Select(p.video, p.audio).value;
      (SaveLastToMp4(p, frameSize, None).error == Some(TaskJoinError) <==>
        Samples(sel.audio) != [] && |Samples(sel.audio)| >= frameSize)
  {
    var sel := Select(p.video, p.audio).value;
    if AudioOn(sel.haveAudio, sel.audio) {
      AudioRunPanics(Format(SettingsOf(p), frameSize), sel.audio);
    }
  }
}
