/** The frame sender of the VNC server. Frames wait in a bounded queue; the sender merges delta
    frames of an H.264 stream, drops what it cannot use, and must never send a stream with a hole
    behind its key frame. */
module VncSender {
  import opened Bits
  import opened Wrappers

  const LIMIT := 4194304
  const QUEUE_MAX := 10

  datatype Format = Jpeg | H264

  datatype Frame = Frame(format: Format, key: bool, width: int, height: int, data: seq<Byte>)

  /** What the client can do at the moment. */
  datatype Encodings = Encodings(hasResize: bool, hasH264: bool)

  /** Everything that happens to frames, in order. */
  datatype FrameEvent =
    | Queued(frame: Frame)
    | Dropped(frame: Frame)
    | Taken(frame: Frame)
    | SentH264(data: seq<Byte>)
    | SentJpeg(data: seq<Byte>)
    | Message
    | Resized(width: int, height: int)

  // ----- Reference: what the log of a session should look like -----

  predicate IsKey(e: FrameEvent) {
    e.Taken? && e.frame.format.H264? && e.frame.key
  }

  /** The events from the last key frame taken on; nothing if there was none. */
  function Run(log: seq<FrameEvent>): (r: seq<FrameEvent>)
    ensures r != [] ==> IsKey(r[0])
  {
    if log == [] then []
    else
      var e := log[|log| - 1];
      var before := Run(log[..|log| - 1]);
      if IsKey(e) then [e] else if before == [] then [] else before + [e]
  }

  /** A stretch of frames a decoder can follow: only deltas of one stream after the key frame. */
  predicate GapFree(run: seq<FrameEvent>) {
    && run != [] && IsKey(run[0])
    && forall j :: 0 < j < |run| && run[j].Taken? ==>
         && run[j].frame.format.H264? && !run[j].frame.key
         && run[j].frame.width == run[0].frame.width && run[j].frame.height == run[0].frame.height
  }

  /** What a frame adds to the H.264 stream; still pictures, such as text messages, are not part of it. */
  function Coded(f: Frame): seq<Byte> {
    if f.format.H264? then f.data else []
  }

  function TakenOf(e: FrameEvent): seq<Byte> {
    if e.Taken? then Coded(e.frame) else []
  }

  function DroppedOf(e: FrameEvent): seq<Byte> {
    if e.Dropped? then Coded(e.frame) else []
  }

  function SentOf(e: FrameEvent): seq<Byte> {
    if e.SentH264? then e.data else []
  }

  function TakenBytes(es: seq<FrameEvent>): seq<Byte> {
    if es == [] then [] else TakenBytes(es[..|es| - 1]) + TakenOf(es[|es| - 1])
  }

  function DroppedBytes(es: seq<FrameEvent>): seq<Byte> {
    if es == [] then [] else DroppedBytes(es[..|es| - 1]) + DroppedOf(es[|es| - 1])
  }

  function SentBytes(es: seq<FrameEvent>): seq<Byte> {
    if es == [] then [] else SentBytes(es[..|es| - 1]) + SentOf(es[|es| - 1])
  }

  function Came(es: seq<FrameEvent>): seq<Frame> {
    if es == [] then []
    else
      var e := es[|es| - 1];
      Came(es[..|es| - 1]) + if e.Queued? then [e.frame] else []
  }

  function Left(es: seq<FrameEvent>): seq<Frame> {
    if es == [] then []
    else
      var e := es[|es| - 1];
      Left(es[..|es| - 1]) + if e.Taken? || e.Dropped? then [e.frame] else []
  }

  lemma SnocFrames(es: seq<FrameEvent>, e: FrameEvent)
    ensures Came(es + [e]) == Came(es) + if e.Queued? then [e.frame] else []
    ensures Left(es + [e]) == Left(es) + if e.Taken? || e.Dropped? then [e.frame] else []
  {
    assert (es + [e])[..|es|] == es;
  }

  /** The source's own H.264 stream: every such frame that left the queue, taken or dropped. */
  function StreamBytes(es: seq<FrameEvent>): seq<Byte> {
    if es == [] then []
    else StreamBytes(es[..|es| - 1]) + TakenOf(es[|es| - 1]) + DroppedOf(es[|es| - 1])
  }

  lemma SnocBytes(es: seq<FrameEvent>, e: FrameEvent)
    ensures TakenBytes(es + [e]) == TakenBytes(es) + TakenOf(e)
    ensures DroppedBytes(es + [e]) == DroppedBytes(es) + DroppedOf(e)
    ensures SentBytes(es + [e]) == SentBytes(es) + SentOf(e)
    ensures StreamBytes(es + [e]) == StreamBytes(es) + TakenOf(e) + DroppedOf(e)
  {
    assert (es + [e])[..|es|] == es;
  }

  lemma RunSnoc(log: seq<FrameEvent>, e: FrameEvent)
    ensures Run(log + [e]) == if IsKey(e) then [e] else if Run(log) == [] then [] else Run(log) + [e]
  {
    assert (log + [e])[..|log|] == log;
  }

  /** The last event, a payload, was sent in order: since the last key frame the client has been
      sent exactly the bytes of a gap-free run of the frames taken; and unless the payload is just
      that key frame, it respects the size limit. */
  predicate CleanSend(log: seq<FrameEvent>)
    requires log != [] && log[|log| - 1].SentH264?
  {
    var run := Run(log);
    var payload := log[|log| - 1].data;
    && GapFree(run)
    && SentBytes(run) == TakenBytes(run)
    && payload != []
    && (|payload| <= LIMIT || payload == run[0].frame.data)
  }

  /** Every H.264 payload of the session was sent in order. */
  predicate AllClean(log: seq<FrameEvent>) {
    forall t :: 0 <= t < |log| && log[t].SentH264? ==> CleanSend(log[..t + 1])
  }

  // ----- The sender's state -----

  datatype Sender = Sender(last: Option<Frame>, hasKey: bool, queue: seq<Frame>,
                           width: int, height: int, log: seq<FrameEvent>)

  function Log(s: Sender, e: FrameEvent): Sender {
    s.(log := s.log + [e])
  }

  /** Whether a frame replaces what was gathered so far instead of extending it. */
  predicate Replaces(last: Option<Frame>, f: Frame) {
    || last.None?
    || f.format.Jpeg?
    || last.value.format != f.format
    || f.key
    || last.value.width != f.width
    || last.value.height != f.height
    || |last.value.data| + |f.data| > LIMIT
  }

  function TakeStep(s: Sender): (t: Sender)
    requires s.queue != []
    ensures t.last.Some? && t.queue == s.queue[1..]
  {
    var f := s.queue[0];
    var s := Log(s.(queue := s.queue[1..]), Taken(f));
    if Replaces(s.last, f) then s.(last := Some(f), hasKey := f.format.H264? && f.key)
    else s.(last := Some(s.last.value.(data := s.last.value.data + f.data)))
  }

  function QueueStep(s: Sender, f: Frame): Sender {
    var s := if |s.queue| > QUEUE_MAX then Log(s.(queue := s.queue[1..]), Dropped(s.queue[0])) else s;
    Log(s.(queue := s.queue + [f]), Queued(f))
  }

  datatype Flushed = Continues(s: Sender) | Refused(s: Sender)

  function FlushStep(s: Sender, enc: Encodings): Flushed
    requires s.last.Some?
  {
    var last := s.last.value;
    var resize := s.width != last.width || s.height != last.height;
    if resize && !enc.hasResize then Continues(Log(s, Message))
    else
      var s := if resize then Log(s.(width := last.width, height := last.height),
                                  Resized(last.width, last.height)) else s;
      if last.data == [] then Continues(s)
      else if last.format.Jpeg? then Continues(Emptied(Log(s, SentJpeg(last.data))))
      else if !enc.hasH264 then Refused(s)
      else if s.hasKey then Continues(Emptied(Log(s, SentH264(last.data))))
      else Continues(Emptied(s))
  }

  function Emptied(s: Sender): Sender
    requires s.last.Some?
  {
    s.(last := Some(s.last.value.(data := [])))
  }

  // ----- The invariant -----

  /** What is gathered continues, byte for byte, what the client has got since the key frame. */
  predicate Continuous(s: Sender) {
    s.hasKey ==> s.last.Some? && Carries(Run(s.log), s.last.value)
  }

  predicate Carries(run: seq<FrameEvent>, last: Frame) {
    && GapFree(run)
    && last.format.H264?
    && last.width == run[0].frame.width && last.height == run[0].frame.height
    && SentBytes(run) + last.data == TakenBytes(run)
    && (|last.data| <= LIMIT || last.data == run[0].frame.data)
  }

  lemma ExtendCarries(run: seq<FrameEvent>, last: Frame, f: Frame)
    requires Carries(run, last) && !Replaces(Some(last), f)
    ensures Carries(run + [Taken(f)], last.(data := last.data + f.data))
  {
    hide GapFree, SentBytes, TakenBytes;
    GapFreeNonEmpty(run);
    GapFreeSnoc(run, Taken(f));
    TakenExtends(run, f);
    Joined(SentBytes(run), last.data, f.data);
    assert (run + [Taken(f)])[0] == run[0];
  }

  lemma TakenExtends(run: seq<FrameEvent>, f: Frame)
    requires f.format.H264?
    ensures TakenBytes(run + [Taken(f)]) == TakenBytes(run) + f.data
    ensures SentBytes(run + [Taken(f)]) == SentBytes(run)
  {
    hide SentBytes, TakenBytes, DroppedBytes, StreamBytes;
    SnocBytes(run, Taken(f));
  }

  lemma Joined(a: seq<Byte>, b: seq<Byte>, c: seq<Byte>)
    ensures a + (b + c) == a + b + c
  {
  }

  /** Frames leave the queue in the order they came, whether taken or dropped. */
  predicate Fifo(s: Sender) {
    |s.queue| <= QUEUE_MAX + 1 && Came(s.log) == Left(s.log) + s.queue
  }

  predicate Inv(s: Sender) {
    Continuous(s) && AllClean(s.log) && Fifo(s)
  }

  lemma AllCleanSnoc(log: seq<FrameEvent>, e: FrameEvent)
    requires AllClean(log) && (e.SentH264? ==> CleanSend(log + [e]))
    ensures AllClean(log + [e])
  {
    var after := log + [e];
    forall t | 0 <= t < |after| && after[t].SentH264? ensures CleanSend(after[..t + 1]) {
      if t < |log| {
        assert after[..t + 1] == log[..t + 1];
      } else {
        assert after[..t + 1] == after;
      }
    }
  }

  lemma GapFreeSnoc(run: seq<FrameEvent>, e: FrameEvent)
    requires GapFree(run)
    requires e.Taken? ==> e.frame.format.H264? && !e.frame.key
                          && e.frame.width == run[0].frame.width && e.frame.height == run[0].frame.height
    ensures GapFree(run + [e])
  {
  }

  /** Events that are neither taken nor sent leave the invariant alone. */
  lemma OtherEventKeepsInv(s: Sender, e: FrameEvent)
    requires Continuous(s) && AllClean(s.log) && !e.Taken? && !e.SentH264?
    ensures Continuous(Log(s, e)) && AllClean(Log(s, e).log)
  {
    hide AllClean, Carries;
    AllCleanSnoc(s.log, e);
    RunSnoc(s.log, e);
    if s.hasKey {
      CarriesNonEmpty(Run(s.log), s.last.value);
      OtherCarries(Run(s.log), s.last.value, e);
    }
  }

  lemma OtherCarries(run: seq<FrameEvent>, last: Frame, e: FrameEvent)
    requires Carries(run, last) && !e.Taken? && !e.SentH264?
    ensures Carries(run + [e], last)
  {
    hide GapFree, TakenBytes, SentBytes;
    GapFreeNonEmpty(run);
    GapFreeSnoc(run, e);
    OtherBytes(run, e);
    assert (run + [e])[0] == run[0];
  }

  lemma OtherBytes(es: seq<FrameEvent>, e: FrameEvent)
    requires !e.Taken? && !e.SentH264?
    ensures TakenBytes(es + [e]) == TakenBytes(es) && SentBytes(es + [e]) == SentBytes(es)
  {
    hide TakenBytes, SentBytes, DroppedBytes, StreamBytes;
    SnocBytes(es, e);
  }

  lemma GapFreeNonEmpty(run: seq<FrameEvent>)
    requires GapFree(run)
    ensures run != [] && IsKey(run[0])
  {
  }

  lemma TakeKeepsInv(s: Sender)
    requires Inv(s) && s.queue != []
    ensures Inv(TakeStep(s)) && TakeStep(s).last.Some?
  {
    hide AllClean, GapFree, Fifo;
    var f := s.queue[0];
    AllCleanSnoc(s.log, Taken(f));
    TakeKeepsFifo(s);
    if !Replaces(s.last, f) {
      ExtensionContinues(s);
    } else if f.format.H264? && f.key {
      RunSnoc(s.log, Taken(f));
      SingleKey(Taken(f));
    }
  }

  lemma ExtensionContinues(s: Sender)
    requires Continuous(s) && s.queue != [] && !Replaces(s.last, s.queue[0])
    ensures Continuous(TakeStep(s))
  {
    if s.hasKey {
      hide Carries;
      assert Run(s.log) != [] by { CarriesNonEmpty(Run(s.log), s.last.value); }
      RunSnoc(s.log, Taken(s.queue[0]));
      ExtendCarries(Run(s.log), s.last.value, s.queue[0]);
    }
  }

  lemma CarriesNonEmpty(run: seq<FrameEvent>, last: Frame)
    requires Carries(run, last)
    ensures run != []
  {
  }

  lemma TakeKeepsFifo(s: Sender)
    requires Fifo(s) && s.queue != []
    ensures Fifo(TakeStep(s))
  {
    hide Came, Left;
    SnocFrames(s.log, Taken(s.queue[0]));
  }

  lemma SingleKey(e: FrameEvent)
    requires IsKey(e)
    ensures GapFree([e]) && TakenBytes([e]) == e.frame.data && SentBytes([e]) == []
  {
    SnocBytes([], e);
    assert [] + [e] == [e];
  }

  lemma QueueKeepsInv(s: Sender, f: Frame)
    requires Inv(s)
    ensures Inv(QueueStep(s, f))
  {
    hide AllClean, Continuous, Came, Left;
    if |s.queue| > QUEUE_MAX {
      SnocFrames(s.log, Dropped(s.queue[0]));
      SnocFrames(s.log + [Dropped(s.queue[0])], Queued(f));
      OtherEventKeepsInv(s, Dropped(s.queue[0]));
      var t := Log(s, Dropped(s.queue[0]));
      OtherEventKeepsInv(t, Queued(f));
      SameSender(Log(t, Queued(f)), QueueStep(s, f));
    } else {
      SnocFrames(s.log, Queued(f));
      OtherEventKeepsInv(s, Queued(f));
      SameSender(Log(s, Queued(f)), QueueStep(s, f));
    }
  }

  lemma SameSender(a: Sender, b: Sender)
    requires Continuous(a) && a.last == b.last && a.hasKey == b.hasKey && a.log == b.log
    ensures Continuous(b)
  {
  }

  lemma SendKeepsInv(s: Sender)
    requires Continuous(s) && AllClean(s.log)
    requires s.hasKey && s.last.Some? && s.last.value.data != []
    ensures var t := Emptied(Log(s, SentH264(s.last.value.data))); Continuous(t) && AllClean(t.log)
  {
    hide AllClean, GapFree, TakenBytes, SentBytes;
    var e, run := SentH264(s.last.value.data), Run(s.log);
    GapFreeNonEmpty(run);
    RunSnoc(s.log, e);
    GapFreeSnoc(run, e);
    SnocBytes(run, e);
    assert (run + [e])[0] == run[0];
    assert CleanSend(s.log + [e]);
    AllCleanSnoc(s.log, e);
    assert SentBytes(run + [e]) + [] == TakenBytes(run + [e]);
  }

  lemma FlushKeepsInv(s: Sender, enc: Encodings)
    requires Inv(s) && s.last.Some?
    ensures Inv(FlushStep(s, enc).s)
  {
    hide AllClean, Continuous, Came, Left;
    FlushKeepsFifo(s, enc);
    var last := s.last.value;
    var resize := s.width != last.width || s.height != last.height;
    if resize && !enc.hasResize {
      OtherEventKeepsInv(s, Message);
    } else {
      var t := s;
      if resize {
        OtherEventKeepsInv(s, Resized(last.width, last.height));
        t := Log(s.(width := last.width, height := last.height), Resized(last.width, last.height));
        SameSender(Log(s, Resized(last.width, last.height)), t);
      }
      if last.data != [] {
        if last.format.Jpeg? {
          NoKeyOnJpeg(t);
          OtherEventKeepsInv(t, SentJpeg(last.data));
          KeylessEmptied(Log(t, SentJpeg(last.data)));
        } else if enc.hasH264 {
          if t.hasKey {
            SendKeepsInv(t);
          } else {
            KeylessEmptied(t);
          }
        }
      }
    }
  }

  lemma NoKeyOnJpeg(s: Sender)
    requires Continuous(s) && s.last.Some? && s.last.value.format.Jpeg?
    ensures !s.hasKey
  {
  }

  lemma KeylessEmptied(s: Sender)
    requires s.last.Some? && !s.hasKey
    ensures Continuous(Emptied(s))
  {
  }

  lemma FlushKeepsFifo(s: Sender, enc: Encodings)
    requires Fifo(s) && s.last.Some?
    ensures Fifo(FlushStep(s, enc).s)
  {
    hide Came, Left;
    var last := s.last.value;
    var resized := Resized(last.width, last.height);
    SnocFrames(s.log, Message);
    SnocFrames(s.log, resized);
    SnocFrames(s.log, SentJpeg(last.data));
    SnocFrames(s.log, SentH264(last.data));
    SnocFrames(s.log + [resized], SentJpeg(last.data));
    SnocFrames(s.log + [resized], SentH264(last.data));
  }

  // ----- Any interleaving of the streamer and the sender -----

  datatype Act = Queue(frame: Frame) | Take | Flush(enc: Encodings)

  predicate Enabled(s: Sender, a: Act) {
    match a
    case Queue(_) => true
    case Take => s.queue != []
    case Flush(_) => s.last.Some?
  }

  function Step(s: Sender, a: Act): Sender
    requires Enabled(s, a)
  {
    match a
    case Queue(f) => QueueStep(s, f)
    case Take => TakeStep(s)
    case Flush(enc) => FlushStep(s, enc).s
  }

  /** A run performs the actions that are possible when their turn comes. */
  function Perform(s: Sender, acts: seq<Act>): Sender
    decreases |acts|
  {
    if acts == [] then s
    else Perform(if Enabled(s, acts[0]) then Step(s, acts[0]) else s, acts[1..])
  }

  lemma {:induction false} PerformKeepsInv(s: Sender, acts: seq<Act>)
    requires Inv(s)
    ensures Inv(Perform(s, acts))
    decreases |acts|
  {
    hide Inv;
    if acts != [] {
      if Enabled(s, acts[0]) {
        match acts[0] {
          case Queue(f) => QueueKeepsInv(s, f);
          case Take => TakeKeepsInv(s);
          case Flush(enc) => FlushKeepsInv(s, enc);
        }
        PerformKeepsInv(Step(s, acts[0]), acts[1..]);
      } else {
        PerformKeepsInv(s, acts[1..]);
      }
    }
  }

  /** Over every run, the H.264 bytes sent since the last key frame are exactly the concatenation of
      a gap-free run of the frames taken, starting with that key frame, and any payload built from
      more than one frame is at most 4194304 bytes. */
  lemma EveryRunIsClean(width: int, height: int, acts: seq<Act>)
    ensures AllClean(Perform(Sender(None, false, [], width, height, []), acts).log)
  {
    PerformKeepsInv(Sender(None, false, [], width, height, []), acts);
  }

  // ----- Nothing usable is withheld -----

  function TakeAll(s: Sender): (t: Sender)
    ensures t.queue == [] && (s.queue != [] || s.last.Some? ==> t.last.Some?)
    decreases |s.queue|
  {
    if s.queue == [] then s else TakeAll(TakeStep(s))
  }

  function DataOf(frames: seq<Frame>): seq<Byte> {
    if frames == [] then [] else frames[0].data + DataOf(frames[1..])
  }

  predicate DeltasOf(frames: seq<Frame>, width: int, height: int) {
    forall k :: 0 <= k < |frames| ==>
      frames[k].format.H264? && !frames[k].key && frames[k].width == width && frames[k].height == height
  }

  lemma {:induction false} DeltasMerge(s: Sender)
    requires s.hasKey && s.last.Some? && s.last.value.format.H264?
    requires DeltasOf(s.queue, s.last.value.width, s.last.value.height)
    requires |s.last.value.data| + |DataOf(s.queue)| <= LIMIT
    ensures var t := TakeAll(s);
      && t.hasKey && t.last == Some(s.last.value.(data := s.last.value.data + DataOf(s.queue)))
      && t.width == s.width && t.height == s.height
    decreases |s.queue|
  {
    var last := s.last.value;
    if s.queue == [] {
      assert last.data + [] == last.data;
    } else {
      var f, rest := s.queue[0], s.queue[1..];
      DeltasMerge(TakeStep(s));
      assert (last.data + f.data) + DataOf(rest) == last.data + (f.data + DataOf(rest));
    }
  }

  /** A key frame and its deltas, waiting together, reach a capable client as one payload. */
  lemma GroupIsSent(s: Sender, enc: Encodings)
    requires s.queue != [] && enc.hasH264 && enc.hasResize
    requires s.queue[0].format.H264? && s.queue[0].key
    requires DeltasOf(s.queue[1..], s.queue[0].width, s.queue[0].height)
    requires 0 < |DataOf(s.queue)| <= LIMIT
    ensures var log := FlushStep(TakeAll(s), enc).s.log;
      log != [] && log[|log| - 1] == SentH264(DataOf(s.queue))
  {
    DeltasMerge(TakeStep(s));
  }

  /** What a flush sends, for every frame gathered and every client: nothing but a message if the size
      cannot be followed, else the new size if there is one, and then the whole picture, or the whole
      stretch of video if there is a key frame at its start. */
  lemma FlushMeans(s: Sender, enc: Encodings)
    requires s.last.Some?
    ensures var last, t := s.last.value, FlushStep(s, enc).s;
            var same := s.width == last.width && s.height == last.height;
            var size := if same then [] else [Resized(last.width, last.height)];
      && (!same && !enc.hasResize ==> t.log == s.log + [Message] && t.last == s.last)
      && (same || enc.hasResize ==>
            && t.width == last.width && t.height == last.height
            && (last.data != [] && last.format.Jpeg? ==> t.log == s.log + size + [SentJpeg(last.data)])
            && (last.data != [] && last.format.H264? && enc.hasH264 && s.hasKey ==>
                  t.log == s.log + size + [SentH264(last.data)])
            && (last.data == [] || (last.format.H264? && !(enc.hasH264 && s.hasKey)) ==> t.log == s.log + size))
    ensures FlushStep(s, enc).Refused? <==>
      var last := s.last.value;
      ((s.width == last.width && s.height == last.height) || enc.hasResize)
      && last.data != [] && last.format.H264? && !enc.hasH264
  {
    var last := s.last.value;
    if s.width == last.width && s.height == last.height {
      assert s.log + [] == s.log;
    }
  }

  /** The pictures that wait replace each other: of any number of them the last one is sent, whole. */
  lemma LastPictureIsSent(s: Sender, enc: Encodings)
    requires s.queue != [] && s.queue[|s.queue| - 1].format.Jpeg? && s.queue[|s.queue| - 1].data != []
    requires enc.hasResize
    ensures var log := FlushStep(TakeAll(s), enc).s.log;
      log != [] && log[|log| - 1] == SentJpeg(s.queue[|s.queue| - 1].data)
  {
    LastPictureStays(s);
    FlushMeans(TakeAll(s), enc);
  }

  lemma {:induction false} LastPictureStays(s: Sender)
    requires s.queue != [] && s.queue[|s.queue| - 1].format.Jpeg?
    ensures TakeAll(s).last == Some(s.queue[|s.queue| - 1])
    decreases |s.queue|
  {
    if |s.queue| > 1 {
      LastPictureStays(TakeStep(s));
    }
  }

  // ----- What the bounded queue costs -----

  lemma {:induction false} StreamLength(es: seq<FrameEvent>)
    ensures |StreamBytes(es)| == |TakenBytes(es)| + |DroppedBytes(es)|
    ensures DroppedBytes(es) == [] ==> StreamBytes(es) == TakenBytes(es)
  {
    if es != [] {
      StreamLength(es[..|es| - 1]);
    }
  }

  /** What the client got is the source's own stream since the key frame if and only if the full
      queue has dropped no byte of it since then. */
  lemma IntactIffNothingDropped(log: seq<FrameEvent>)
    requires log != [] && log[|log| - 1].SentH264? && CleanSend(log)
    ensures SentBytes(Run(log)) == StreamBytes(Run(log)) <==> DroppedBytes(Run(log)) == []
  {
    StreamLength(Run(log));
  }

  // ----- The code -----

  class FbSender {
    var last: Option<Frame>
    var fbHasKey: bool
    var fbQ: seq<Frame>
    var width: int
    var height: int
    ghost var log: seq<FrameEvent>

    ghost function View(): Sender
      reads this
    {
      Sender(last, fbHasKey, fbQ, width, height, log)
    }

    ghost predicate Valid()
      reads this
    {
      Inv(View())
    }

    constructor (width: int, height: int)
      ensures Valid() && log == []
    {
      last, fbHasKey, fbQ := None, false, [];
      this.width, this.height := width, height;
      log := [];
    }

    method QueueFrame(frame: Frame)
      requires Valid()
      modifies this`fbQ, this`log
      ensures Valid() && View() == QueueStep(old(View()), frame)
    {
      hide Inv;
      QueueKeepsInv(View(), frame);
      if |fbQ| > 10 {
        log := log + [Dropped(fbQ[0])];
        fbQ := fbQ[1..];
      }
      fbQ := fbQ + [frame];
      log := log + [Queued(frame)];
    }

    /** The body of the inner loop; `stop` when there is nothing more to gather. */
    method TakeFrame() returns (stop: bool)
      requires Valid() && fbQ != []
      modifies this`fbQ, this`last, this`fbHasKey, this`log
      ensures Valid() && View() == TakeStep(old(View())) && stop == (fbQ == [])
    {
      hide Inv;
      TakeKeepsInv(View());
      var frame := fbQ[0];
      fbQ := fbQ[1..];
      log := log + [Taken(frame)];
      if last.None?
         || frame.format.Jpeg?
         || last.value.format != frame.format
         || (frame.format.H264? && (frame.key
                                    || last.value.width != frame.width
                                    || last.value.height != frame.height
                                    || |last.value.data| + |frame.data| > 4194304))
      {
        fbHasKey := frame.format.H264? && frame.key;
        last := Some(frame);
      } else {
        last := Some(last.value.(data := last.value.data + frame.data));
      }
      stop := |fbQ| == 0;
    }

    /** One turn of the outer loop, after a frame has become available: everything queued is
        gathered, and the result is sent if the client can use it. */
    method SendRound(enc: Encodings) returns (refused: bool)
      requires Valid() && fbQ != []
      modifies this
      ensures Valid()
      ensures View() == FlushStep(TakeAll(old(View())), enc).s
      ensures refused == FlushStep(TakeAll(old(View())), enc).Refused?
    {
      hide Inv, TakeStep, FlushStep;
      var stop := TakeFrame();
      while !stop
        invariant Valid() && last.Some? && stop == (fbQ == [])
        invariant TakeAll(View()) == TakeAll(old(View()))
        decreases |fbQ|
      {
        stop := TakeFrame();
      }
      assert View() == TakeAll(old(View()));
      FlushKeepsInv(View(), enc);
      refused := FlushFrame(enc);
    }

    method FlushFrame(enc: Encodings) returns (refused: bool)
      requires last.Some?
      modifies this`last, this`width, this`height, this`log
      ensures View() == FlushStep(old(View()), enc).s && refused == FlushStep(old(View()), enc).Refused?
    {
      refused := false;
      if width != last.value.width || height != last.value.height {
        if !enc.hasResize {
          log := log + [Message];
          return;
        }
        width, height := last.value.width, last.value.height;
        log := log + [Resized(width, height)];
      }
      if |last.value.data| == 0 {
        return;
      }
      if last.value.format.Jpeg? {
        log := log + [SentJpeg(last.value.data)];
      } else {
        if !enc.hasH264 {
          return true;
        }
        if fbHasKey {
          log := log + [SentH264(last.value.data)];
        }
      }
      last := Some(last.value.(data := []));
    }
  }
}
