/** When the stream a client gets has a hole. The queue between the streamer and the sender is
    bounded, and a frame that finds it full pushes the oldest one out; whether that harms a payload
    sent can be told from the schedule alone. */
module VncSchedules {
  import opened Bits
  import opened Wrappers
  import opened VncSender

  function Start(width: int, height: int): Sender {
    Sender(None, false, [], width, height, [])
  }

  function After(width: int, height: int, acts: seq<Act>): Sender {
    Perform(Start(width, height), acts)
  }

  function Perform1(s: Sender, a: Act): Sender {
    if Enabled(s, a) then Step(s, a) else s
  }

  /** The guard under which the oldest frame is dropped. */
  predicate FindsQueueFull(s: Sender, a: Act) {
    a.Queue? && |s.queue| > QUEUE_MAX
  }

  /** The action takes a key frame, and so begins the stream anew. */
  predicate TakesKey(s: Sender, a: Act) {
    a.Take? && s.queue != [] && s.queue[0].format.H264? && s.queue[0].key
  }

  /** Since a key frame was last taken, some frame found the queue full with bytes of the H.264 stream at
      its head. */
  predicate Overran(width: int, height: int, acts: seq<Act>) {
    if acts == [] then false
    else
      var before, a := acts[..|acts| - 1], acts[|acts| - 1];
      var s := After(width, height, before);
      !TakesKey(s, a) && (Overran(width, height, before) || (FindsQueueFull(s, a) && Coded(s.queue[0]) != []))
  }

  /** No frame of the schedule ever finds the queue full. */
  predicate NeverFull(width: int, height: int, acts: seq<Act>) {
    forall n :: 0 <= n < |acts| ==> !FindsQueueFull(After(width, height, acts[..n]), acts[n])
  }

  /** What was sent since the key frame is all of the H.264 stream that left the queue since then. */
  predicate Whole(log: seq<FrameEvent>) {
    SentBytes(Run(log)) == StreamBytes(Run(log))
  }

  lemma {:induction false} PerformSnoc(s: Sender, acts: seq<Act>, a: Act)
    ensures Perform(s, acts + [a]) == Perform1(Perform(s, acts), a)
    decreases |acts|
  {
    if acts == [] {
      assert [a][1..] == [];
    } else {
      assert (acts + [a])[1..] == acts[1..] + [a];
      PerformSnoc(Perform1(s, acts[0]), acts[1..], a);
    }
  }

  lemma AfterSnoc(width: int, height: int, acts: seq<Act>, a: Act)
    ensures After(width, height, acts + [a]) == Perform1(After(width, height, acts), a)
    ensures Overran(width, height, acts + [a]) <==>
      var s := After(width, height, acts);
      !TakesKey(s, a) && (Overran(width, height, acts) || (FindsQueueFull(s, a) && Coded(s.queue[0]) != []))
  {
    PerformSnoc(Start(width, height), acts, a);
    assert (acts + [a])[..|acts|] == acts;
  }

  /** How one event changes what was dropped since the key frame. */
  lemma DroppedSnoc(log: seq<FrameEvent>, e: FrameEvent)
    ensures IsKey(e) ==> Run(log + [e]) != [] && DroppedBytes(Run(log + [e])) == []
    ensures !IsKey(e) ==> (Run(log + [e]) == [] <==> Run(log) == [])
    ensures !IsKey(e) && Run(log) != [] ==>
      DroppedBytes(Run(log + [e])) == DroppedBytes(Run(log)) + DroppedOf(e)
  {
    RunSnoc(log, e);
    SnocBytes(Run(log), e);
    SnocBytes([], e);
    assert [] + [e] == [e];
  }

  /** The bytes lost since the key frame are there exactly if the schedule overran. */
  predicate LossIsOverrun(log: seq<FrameEvent>, overran: bool) {
    Run(log) != [] ==> (DroppedBytes(Run(log)) != [] <==> overran)
  }

  lemma NeutralEvent(log: seq<FrameEvent>, e: FrameEvent, overran: bool)
    requires LossIsOverrun(log, overran) && !IsKey(e) && DroppedOf(e) == []
    ensures LossIsOverrun(log + [e], overran)
  {
    hide Run, DroppedBytes;
    DroppedSnoc(log, e);
  }

  lemma DroppedEvent(log: seq<FrameEvent>, f: Frame, overran: bool)
    requires LossIsOverrun(log, overran)
    ensures LossIsOverrun(log + [Dropped(f)], overran || Coded(f) != [])
  {
    hide Run, DroppedBytes;
    DroppedSnoc(log, Dropped(f));
  }

  lemma QueueLoss(s: Sender, f: Frame, overran: bool)
    requires LossIsOverrun(s.log, overran)
    ensures LossIsOverrun(QueueStep(s, f).log, overran || (|s.queue| > QUEUE_MAX && Coded(s.queue[0]) != []))
  {
    hide LossIsOverrun;
    if |s.queue| > QUEUE_MAX {
      DroppedEvent(s.log, s.queue[0], overran);
      NeutralEvent(s.log + [Dropped(s.queue[0])], Queued(f), overran || Coded(s.queue[0]) != []);
    } else {
      NeutralEvent(s.log, Queued(f), overran);
    }
  }

  lemma TakeLoss(s: Sender, overran: bool)
    requires LossIsOverrun(s.log, overran) && s.queue != []
    ensures LossIsOverrun(TakeStep(s).log, overran && !TakesKey(s, Take))
  {
    hide Run, DroppedBytes;
    DroppedSnoc(s.log, Taken(s.queue[0]));
  }

  lemma FlushLoss(s: Sender, enc: Encodings, overran: bool)
    requires LossIsOverrun(s.log, overran) && s.last.Some?
    ensures LossIsOverrun(FlushStep(s, enc).s.log, overran)
  {
    hide LossIsOverrun;
    var last := s.last.value;
    var resized := Resized(last.width, last.height);
    NeutralEvent(s.log, Message, overran);
    NeutralEvent(s.log, resized, overran);
    NeutralEvent(s.log, SentJpeg(last.data), overran);
    NeutralEvent(s.log, SentH264(last.data), overran);
    NeutralEvent(s.log + [resized], SentJpeg(last.data), overran);
    NeutralEvent(s.log + [resized], SentH264(last.data), overran);
  }

  lemma StepLoss(s: Sender, a: Act, overran: bool)
    requires LossIsOverrun(s.log, overran)
    ensures LossIsOverrun(Perform1(s, a).log,
      !TakesKey(s, a) && (overran || (FindsQueueFull(s, a) && Coded(s.queue[0]) != [])))
  {
    hide LossIsOverrun, QueueStep, TakeStep, FlushStep;
    match a
    case Queue(f) => QueueLoss(s, f, overran);
    case Take => if s.queue != [] { TakeLoss(s, overran); }
    case Flush(enc) => if s.last.Some? { FlushLoss(s, enc, overran); }
  }

  lemma {:induction false} OverrunIsLoss(width: int, height: int, acts: seq<Act>)
    ensures LossIsOverrun(After(width, height, acts).log, Overran(width, height, acts))
    decreases |acts|
  {
    hide Perform1;
    if acts != [] {
      var before, a := acts[..|acts| - 1], acts[|acts| - 1];
      assert before + [a] == acts;
      OverrunIsLoss(width, height, before);
      AfterSnoc(width, height, before, a);
      StepLoss(After(width, height, before), a, Overran(width, height, before));
    } else {
      assert Run([]) == [];
    }
  }

  /** A payload sent by the last action of a schedule is whole if and only if, since the key frame was
      taken, no frame found the queue full with bytes of the H.264 stream at its head. */
  lemma PayloadIsWholeIff(width: int, height: int, acts: seq<Act>)
    requires var log := After(width, height, acts).log; log != [] && log[|log| - 1].SentH264?
    ensures Whole(After(width, height, acts).log) <==> !Overran(width, height, acts)
  {
    hide LossIsOverrun, Run, SentBytes, StreamBytes, DroppedBytes;
    EveryRunIsClean(width, height, acts);
    var log := After(width, height, acts).log;
    assert log[..|log| - 1 + 1] == log;
    assert CleanSend(log);
    OverrunIsLoss(width, height, acts);
    LossMeaning(log, Overran(width, height, acts));
    IntactIffNothingDropped(log);
  }

  lemma LossMeaning(log: seq<FrameEvent>, overran: bool)
    requires LossIsOverrun(log, overran) && GapFree(Run(log))
    ensures DroppedBytes(Run(log)) != [] <==> overran
  {
    hide DroppedBytes;
  }

  // ----- Every payload of a schedule -----

  predicate NoDrops(log: seq<FrameEvent>) {
    forall t :: 0 <= t < |log| ==> !log[t].Dropped?
  }

  lemma StepDrops(s: Sender, a: Act)
    requires NoDrops(s.log) && !FindsQueueFull(s, a)
    ensures NoDrops(Perform1(s, a).log)
  {
  }

  lemma {:induction false} NeverFullNeverDrops(width: int, height: int, acts: seq<Act>)
    requires NeverFull(width, height, acts)
    ensures NoDrops(After(width, height, acts).log)
    decreases |acts|
  {
    hide Perform1;
    if acts != [] {
      var before, a := acts[..|acts| - 1], acts[|acts| - 1];
      assert before + [a] == acts;
      forall n | 0 <= n < |before| ensures !FindsQueueFull(After(width, height, before[..n]), before[n]) {
        assert before[..n] == acts[..n] && before[n] == acts[n];
      }
      NeverFullNeverDrops(width, height, before);
      AfterSnoc(width, height, before, a);
      assert acts[..|acts| - 1] == before;
      StepDrops(After(width, height, before), a);
    }
  }

  lemma {:induction false} NothingDropped(log: seq<FrameEvent>)
    requires NoDrops(log)
    ensures NoDrops(Run(log)) && DroppedBytes(log) == []
  {
    if log != [] {
      NothingDropped(log[..|log| - 1]);
    }
  }

  /** If no frame of a schedule ever finds the queue full, every payload sent in it is whole. */
  lemma NeverFullMeansWhole(width: int, height: int, acts: seq<Act>, t: nat)
    requires NeverFull(width, height, acts)
    requires var log := After(width, height, acts).log; t < |log| && log[t].SentH264?
    ensures Whole(After(width, height, acts).log[..t + 1])
  {
    hide Run, SentBytes, StreamBytes, DroppedBytes, NeverFull;
    var sofar := After(width, height, acts).log[..t + 1];
    NeverFullNeverDrops(width, height, acts);
    EveryRunIsClean(width, height, acts);
    NothingDropped(sofar);
    NothingDropped(Run(sofar));
    IntactIffNothingDropped(sofar);
  }

  // ----- A schedule whose payload has a hole -----

  const KEY: Frame := Frame(H264, true, 1, 1, [1])
  const LOST: Frame := Frame(H264, false, 1, 1, [2])
  const LATER: Frame := Frame(H264, false, 1, 1, [3])
  const CAPABLE := Encodings(true, true)

  function Repeated<T>(x: T, n: nat): (r: seq<T>)
    ensures |r| == n
  {
    if n == 0 then [] else Repeated(x, n - 1) + [x]
  }

  /** A key frame is taken; a delta and then more deltas arrive before the sender looks again. */
  function Backlog(n: nat): seq<Act> {
    [Queue(KEY), Take, Queue(LOST)] + Repeated(Queue(LATER), n)
  }

  /** The eleventh later delta finds eleven frames waiting; then one is taken and sent. */
  function Holed(): seq<Act> {
    Backlog(11) + [Take] + [Flush(CAPABLE)]
  }

  /** What matters of the sender on the way. */
  predicate Waits(s: Sender, data: seq<Byte>, queue: seq<Frame>) {
    s.last == Some(KEY.(data := data)) && s.hasKey && s.queue == queue && s.width == 1 && s.height == 1
  }

  lemma FirstDelta(acts: seq<Act>)
    requires acts == [Queue(KEY), Take, Queue(LOST)]
    ensures Waits(After(1, 1, acts), [1], [LOST]) && !Overran(1, 1, acts)
  {
    var a, b := [Queue(KEY)], [Queue(KEY), Take];
    assert a == [] + [Queue(KEY)] && b == a + [Take] && acts == b + [Queue(LOST)];
    AfterSnoc(1, 1, [], Queue(KEY));
    AfterSnoc(1, 1, a, Take);
    AfterSnoc(1, 1, b, Queue(LOST));
  }

  lemma BacklogSnoc(n: nat)
    ensures Backlog(n + 1) == Backlog(n) + [Queue(LATER)]
  {
    var start := [Queue(KEY), Take, Queue(LOST)];
    assert start + (Repeated(Queue(LATER), n) + [Queue(LATER)]) == start + Repeated(Queue(LATER), n) + [Queue(LATER)];
  }

  lemma {:induction false} BacklogGrows(n: nat)
    requires n <= 10
    ensures Waits(After(1, 1, Backlog(n)), [1], [LOST] + Repeated(LATER, n)) && !Overran(1, 1, Backlog(n))
  {
    if n == 0 {
      assert Backlog(0) == [Queue(KEY), Take, Queue(LOST)];
      FirstDelta(Backlog(0));
    } else {
      BacklogGrows(n - 1);
      BacklogSnoc(n - 1);
      AfterSnoc(1, 1, Backlog(n - 1), Queue(LATER));
      hide After, Overran, Backlog;
      assert [LOST] + (Repeated(LATER, n - 1) + [LATER]) == [LOST] + Repeated(LATER, n - 1) + [LATER];
    }
  }

  lemma BacklogOverruns()
    ensures var s := After(1, 1, Backlog(11));
      && Waits(s, [1], s.queue) && s.queue != [] && s.queue[0] == LATER
    ensures Overran(1, 1, Backlog(11))
  {
    BacklogGrows(10);
    BacklogSnoc(10);
    AfterSnoc(1, 1, Backlog(10), Queue(LATER));
    hide After, Overran, Backlog;
    assert Repeated(LATER, 10)[9] == LATER;
    AllLater(10);
  }

  lemma {:induction false} AllLater(n: nat)
    ensures forall i :: 0 <= i < n ==> Repeated(LATER, n)[i] == LATER
  {
    if n > 0 { AllLater(n - 1); }
  }

  lemma LaterIsMerged(s: Sender)
    requires s.queue != [] && s.queue[0] == LATER && Waits(s, [1], s.queue)
    ensures Waits(Perform1(s, Take), [1, 3], s.queue[1..]) && !TakesKey(s, Take)
  {
    var one: seq<Byte> := [1];
    assert one + LATER.data == [1, 3];
  }

  lemma MergedIsSent(s: Sender)
    requires Waits(s, [1, 3], s.queue)
    ensures Perform1(s, Flush(CAPABLE)).log == s.log + [SentH264([1, 3])]
  {
  }

  /** The payload sent goes on behind a frame that was never sent. */
  lemma HoledPayloadIsSent()
    ensures var log := After(1, 1, Holed()).log;
      log != [] && log[|log| - 1] == SentH264([1, 3]) && !Whole(log)
  {
    hide Perform, Overran, Backlog, Perform1, Waits, Whole;
    BacklogOverruns();
    var taken := Backlog(11) + [Take];
    AfterSnoc(1, 1, Backlog(11), Take);
    LaterIsMerged(After(1, 1, Backlog(11)));
    AfterSnoc(1, 1, taken, Flush(CAPABLE));
    SameQueue(After(1, 1, taken), After(1, 1, Backlog(11)).queue[1..]);
    MergedIsSent(After(1, 1, taken));
    PayloadIsWholeIff(1, 1, Holed());
  }

  lemma SameQueue(s: Sender, queue: seq<Frame>)
    requires Waits(s, [1, 3], queue)
    ensures Waits(s, [1, 3], s.queue)
  {
  }
}
