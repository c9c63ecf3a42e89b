/** The SPI transport of the Pico HID firmware: an interrupt handler that moves bytes between the
    bus and two 8-byte buffers, and a polling main loop, without any lock. The main loop's
    accesses to the shared memory are modelled one at a time, so that the handler may run between
    any two of them; one iteration of either loop of the handler is one step. */
module SpiLink {
  import opened Bits
  import opened HidProtocol

  // ----- Reference: what either end should see -----

  function DropZeros(bytes: seq<Byte>): seq<Byte> {
    if bytes != [] && bytes[0] == 0 then DropZeros(bytes[1..]) else bytes
  }

  /** Up to eight bytes of a reception, from its first non-zero byte on. */
  function Captured(bytes: seq<Byte>): (r: seq<Byte>)
    ensures |r| <= 8
  {
    var rest := DropZeros(bytes);
    if |rest| <= 8 then rest else rest[..8]
  }

  lemma {:induction false} DropZerosIsSuffix(bytes: seq<Byte>) returns (z: nat)
    ensures z <= |bytes| && DropZeros(bytes) == bytes[z..]
    ensures forall j :: 0 <= j < z ==> bytes[j] == 0
    ensures z < |bytes| ==> bytes[z] != 0
  {
    if bytes != [] && bytes[0] == 0 {
      var y := DropZerosIsSuffix(bytes[1..]);
      z := y + 1;
      forall j | 0 <= j < z ensures bytes[j] == 0 {
        if j > 0 {
          assert bytes[j] == bytes[1..][j - 1];
        }
      }
    } else {
      z := 0;
    }
  }

  /** A captured request is the eight bytes that start at the first non-zero byte received. */
  lemma CapturedMeaning(bytes: seq<Byte>) returns (z: nat)
    requires |Captured(bytes)| == 8
    ensures z + 8 <= |bytes| && Captured(bytes) == bytes[z..z + 8]
    ensures bytes[z] != 0 && forall j :: 0 <= j < z ==> bytes[j] == 0
  {
    z := DropZerosIsSuffix(bytes);
  }

  lemma {:induction false} DropZerosSnoc(bytes: seq<Byte>, b: Byte)
    ensures DropZeros(bytes + [b])
         == if DropZeros(bytes) == [] && b == 0 then [] else DropZeros(bytes) + [b]
  {
    if bytes == [] {
      assert bytes + [b] == [b];
    } else {
      assert (bytes + [b])[1..] == bytes[1..] + [b];
      DropZerosSnoc(bytes[1..], b);
    }
  }

  lemma CapturedSnoc(bytes: seq<Byte>, b: Byte)
    ensures Captured(bytes + [b])
         == if |Captured(bytes)| == 8 || (Captured(bytes) == [] && b == 0) then Captured(bytes)
            else Captured(bytes) + [b]
  {
    DropZerosSnoc(bytes, b);
  }

  /** The host's view of the bytes clocked out: it skips zeros between responses and takes eight
      bytes from each non-zero one. */
  datatype Decoded = Decoded(frames: seq<seq<Byte>>, partial: seq<Byte>)

  function Decode(sent: seq<Byte>): (d: Decoded)
    ensures |d.partial| < 8
  {
    if sent == [] then Decoded([], [])
    else
      var d := Decode(sent[..|sent| - 1]);
      var b := sent[|sent| - 1];
      if d.partial == [] && b == 0 then d
      else if |d.partial| == 7 then Decoded(d.frames + [d.partial + [b]], [])
      else Decoded(d.frames, d.partial + [b])
  }

  lemma DecodeSnoc(sent: seq<Byte>, b: Byte)
    ensures var d := Decode(sent);
      Decode(sent + [b]) ==
        if d.partial == [] && b == 0 then d
        else if |d.partial| == 7 then Decoded(d.frames + [d.partial + [b]], [])
        else Decoded(d.frames, d.partial + [b])
  {
    assert (sent + [b])[..|sent|] == sent;
  }

  // ----- The two parties as a state machine -----

  /** What the main loop is about to do with the shared memory. */
  datatype Main =
    | Polling                                   // test the first response byte
    | Armed                                     // it was clear: test the request counter
    | Reading(got: seq<Byte>)                   // inside the callback
    | Writing(left: nat, resp: Frame)           // `left` response bytes still to store, from the end

  /** Ghost record of a run: the bytes received, cut where a response finished leaving; all bytes
      sent; the requests handed to the callback and the responses it composed. */
  datatype History = History(segments: seq<seq<Byte>>, sent: seq<Byte>,
                             requests: seq<Frame>, responses: seq<Frame>)

  datatype Link = Link(inBuf: Frame, inIndex: nat, outBuf: Frame, outIndex: nat, receiving: bool,
                       main: Main, hist: History)

  datatype Act =
    | Tx                    // the handler finds room in the transmit FIFO
    | Rx(byte: Byte)        // the handler takes a byte from the receive FIFO
    | Go(resp: Frame)       // the main loop; `resp` is used where the callback composes a response

  const ZERO_FRAME: Frame := [0, 0, 0, 0, 0, 0, 0, 0]

  const INITIAL: Link :=
    Link(ZERO_FRAME, 0, ZERO_FRAME, 0, false, Polling, History([[]], [], [], []))

  function Last<T>(s: seq<T>): T
    requires s != []
  {
    s[|s| - 1]
  }

  function TxStep(s: Link): Link
    requires s.outIndex < 8
  {
    if s.outBuf[0] != 0 then
      var sent := s.hist.sent + [s.outBuf[s.outIndex]];
      if s.outIndex == 7 then
        s.(outIndex := 0, inIndex := 0, outBuf := s.outBuf[0 := 0],
           hist := s.hist.(sent := sent, segments := s.hist.segments + [[]]))
      else
        s.(outIndex := s.outIndex + 1, hist := s.hist.(sent := sent))
    else
      s.(hist := s.hist.(sent := s.hist.sent + [0]))
  }

  function RxStep(s: Link, b: Byte): Link
    requires s.inIndex <= 8 && s.hist.segments != []
  {
    var n := |s.hist.segments| - 1;
    var s := s.(hist := s.hist.(segments := s.hist.segments[n := s.hist.segments[n] + [b]]));
    var receiving := s.receiving || b != 0;
    if receiving && s.inIndex < 8 then
      s.(inBuf := s.inBuf[s.inIndex := b], inIndex := s.inIndex + 1, receiving := s.inIndex < 7)
    else
      s.(receiving := receiving && s.inIndex != 8)
  }

  function MainStep(s: Link, resp: Frame): Link
    requires s.main.Reading? ==> |s.main.got| <= 8
    requires s.main.Writing? ==> 1 <= s.main.left <= 8
  {
    match s.main
    case Polling => s.(main := if s.outBuf[0] == 0 then Armed else Polling)
    case Armed => s.(main := if s.inIndex == 8 then Reading([]) else Polling)
    case Reading(got) =>
      if |got| < 8 then s.(main := Reading(got + [s.inBuf[|got|]]))
      else
        s.(main := Writing(8, resp),
           hist := s.hist.(requests := s.hist.requests + [got],
                           responses := s.hist.responses + [resp]))
    case Writing(left, data) =>
      s.(outBuf := s.outBuf[left - 1 := data[left - 1]],
         main := if left == 1 then Polling else Writing(left - 1, data))
  }

  // ----- The invariant -----

  /** How many responses have left completely. */
  function Done(s: Link): int {
    |s.hist.segments| - 1
  }

  /** The main loop stays out of the buffers while a request is being gathered or a response is
      being sent, and the handler stays out of them while the main loop is inside. */
  ghost predicate Exclusive(s: Link) {
    && s.hist.segments != []
    && s.inIndex <= 8 && s.outIndex < 8
    && (s.receiving ==> 1 <= s.inIndex <= 7)
    && (!s.receiving ==> s.inIndex == 0 || s.inIndex == 8)
    && (s.outBuf[0] != 0 ==> s.inIndex == 8)
    && (s.outBuf[0] == 0 ==> s.outIndex == 0)
    && (!s.main.Polling? ==> s.outBuf[0] == 0)
    && (s.main.Reading? ==> s.inIndex == 8 && |s.main.got| <= 8)
    && (s.main.Writing? ==> s.inIndex == 8 && 1 <= s.main.left <= 8)
  }

  /** Requests: the input buffer holds what was captured since the last response left, and every
      request handed over is what was captured in its own segment. */
  ghost predicate RequestsRight(s: Link)
    requires Exclusive(s)
  {
    && s.inBuf[..s.inIndex] == Captured(Last(s.hist.segments))
    && (s.main.Reading? ==> s.main.got == s.inBuf[..|s.main.got|])
    && |s.hist.requests| <= |s.hist.segments|
    && forall k :: 0 <= k < |s.hist.requests| ==> s.hist.requests[k] == Captured(s.hist.segments[k])
  }

  /** Responses: one per request, at most one on its way, and what the host decodes are exactly the
      responses that left, followed by the part of the current one that is already out. */
  ghost predicate ResponsesRight(s: Link)
    requires Exclusive(s)
  {
    var h := s.hist;
    && |h.responses| == |h.requests|
    && |h.responses| == Done(s) + (if s.outBuf[0] != 0 || s.main.Writing? then 1 else 0)
    && (forall k :: 0 <= k < |h.responses| ==> h.responses[k][0] != 0)
    && (s.outBuf[0] != 0 ==> s.outBuf == Last(h.responses))
    && (s.main.Writing? ==> s.main.resp == Last(h.responses)
                            && s.outBuf[s.main.left..] == s.main.resp[s.main.left..])
    && Decode(h.sent) == Decoded(h.responses[..Done(s)], s.outBuf[..s.outIndex])
  }

  ghost predicate Inv(s: Link) {
    Exclusive(s) && RequestsRight(s) && ResponsesRight(s)
  }

  /** A callback never composes a response that begins with an idle byte. */
  predicate Sound(a: Act) {
    a.Go? ==> a.resp[0] != 0
  }

  ghost function Step(s: Link, a: Act): Link
    requires Inv(s)
  {
    match a
    case Tx => TxStep(s)
    case Rx(b) => RxStep(s, b)
    case Go(resp) => MainStep(s, resp)
  }

  lemma TxKeepsInv(s: Link)
    requires Inv(s)
    ensures Inv(TxStep(s))
  {
    var t := TxStep(s);
    if s.outBuf[0] != 0 {
      DecodeSnoc(s.hist.sent, s.outBuf[s.outIndex]);
      assert s.outBuf[..s.outIndex + 1] == s.outBuf[..s.outIndex] + [s.outBuf[s.outIndex]];
      if s.outIndex == 7 {
        assert s.outBuf[..8] == s.outBuf;
        assert t.hist.responses[..Done(t)] == s.hist.responses[..Done(s)] + [Last(s.hist.responses)];
        assert t.inBuf[..0] == [];
        assert t.outBuf[..0] == [];
      }
    } else {
      DecodeSnoc(s.hist.sent, 0);
    }
  }

  lemma RxKeepsInv(s: Link, b: Byte)
    requires Inv(s)
    ensures Inv(RxStep(s, b))
  {
    hide Decode, Captured;
    CapturedSnoc(Last(s.hist.segments), b);
    var t := RxStep(s, b);
    assert Last(t.hist.segments) == Last(s.hist.segments) + [b];
    assert Captured([]) == [] by { CapturedNothing(); }
  }

  lemma CapturedNothing()
    ensures Captured([]) == []
  {
  }

  lemma MainKeepsInv(s: Link, resp: Frame)
    requires Inv(s) && resp[0] != 0
    ensures Inv(MainStep(s, resp))
  {
    match s.main
    case Polling => hide Decode, Captured;
    case Armed => hide Decode, Captured;
    case Reading(got) => ReadingKeepsInv(s, resp);
    case Writing(_, _) => WritingKeepsInv(s, resp);
  }

  lemma ReadingKeepsInv(s: Link, resp: Frame)
    requires Inv(s) && s.main.Reading? && resp[0] != 0
    ensures Inv(MainStep(s, resp))
  {
    hide Decode, Captured;
    var t, got := MainStep(s, resp), s.main.got;
    if |got| < 8 {
      assert s.inBuf[..|got| + 1] == s.inBuf[..|got|] + [s.inBuf[|got|]];
    } else {
      assert s.inBuf[..8] == s.inBuf;
      assert t.hist.responses[..Done(t)] == s.hist.responses[..Done(s)];
    }
  }

  lemma WritingKeepsInv(s: Link, resp: Frame)
    requires Inv(s) && s.main.Writing?
    ensures Inv(MainStep(s, resp))
  {
    hide Decode, Captured;
    var t, left, data := MainStep(s, resp), s.main.left, s.main.resp;
    Written(s.outBuf, data, left);
    assert t.outBuf == s.outBuf[left - 1 := data[left - 1]];
  }

  /** Copied from the end, the buffer agrees with the response from one place further on. */
  lemma Written(buf: Frame, data: Frame, left: nat)
    requires 1 <= left <= 8 && buf[left..] == data[left..]
    ensures var next := buf[left - 1 := data[left - 1]];
      next[left - 1..] == data[left - 1..] && (left == 1 ==> next == data)
  {
    var next := buf[left - 1 := data[left - 1]];
    assert next[left - 1..] == [data[left - 1]] + buf[left..];
    assert data[left - 1..] == [data[left - 1]] + data[left..];
    if left == 1 {
      assert next[0..] == next && data[0..] == data;
    }
  }

  lemma StepKeepsInv(s: Link, a: Act)
    requires Inv(s) && Sound(a)
    ensures Inv(Step(s, a))
  {
    match a
    case Tx => TxKeepsInv(s);
    case Rx(b) => RxKeepsInv(s, b);
    case Go(resp) => MainKeepsInv(s, resp);
  }

  // ----- Runs: any interleaving whatsoever -----

  ghost predicate AllSound(acts: seq<Act>) {
    forall k :: 0 <= k < |acts| ==> Sound(acts[k])
  }

  ghost function RunFrom(s: Link, acts: seq<Act>): (t: Link)
    requires Inv(s) && AllSound(acts)
    ensures Inv(t)
    decreases |acts|
  {
    if acts == [] then s
    else
      StepKeepsInv(s, acts[0]);
      RunFrom(Step(s, acts[0]), acts[1..])
  }

  lemma InitialInv()
    ensures Inv(INITIAL)
  {
    assert INITIAL.inBuf[..0] == [] && INITIAL.outBuf[..0] == [];
  }

  function Flatten(segments: seq<seq<Byte>>): seq<Byte> {
    if segments == [] then [] else Flatten(segments[..|segments| - 1]) + Last(segments)
  }

  function ByteIn(a: Act): seq<Byte> {
    if a.Rx? then [a.byte] else []
  }

  function ReceivedBy(acts: seq<Act>): seq<Byte> {
    if acts == [] then [] else ByteIn(acts[0]) + ReceivedBy(acts[1..])
  }

  function TxCount(acts: seq<Act>): nat {
    if acts == [] then 0 else (if acts[0].Tx? then 1 else 0) + TxCount(acts[1..])
  }

  lemma RunFirst(s: Link, acts: seq<Act>)
    requires Inv(s) && AllSound(acts) && acts != []
    ensures Sound(acts[0]) && AllSound(acts[1..]) && Inv(Step(s, acts[0]))
    ensures RunFrom(s, acts) == RunFrom(Step(s, acts[0]), acts[1..])
  {
    StepKeepsInv(s, acts[0]);
  }

  /** The record is a record of the run: every byte received is in its segment, in order. */
  lemma {:induction false} SegmentsAreFaithful(s: Link, acts: seq<Act>)
    requires Inv(s) && AllSound(acts)
    ensures Flatten(RunFrom(s, acts).hist.segments) == Flatten(s.hist.segments) + ReceivedBy(acts)
    decreases |acts|
  {
    if acts == [] {
      assert Flatten(s.hist.segments) + [] == Flatten(s.hist.segments);
    } else {
      RunFirst(s, acts);
      StepFrame(s, acts[0]);
      CountFirst(acts);
      hide *;
      SegmentsAreFaithful(Step(s, acts[0]), acts[1..]);
      AppendAssoc(Flatten(s.hist.segments), ByteIn(acts[0]), ReceivedBy(acts[1..]));
    }
  }

  /** One byte is sent whenever the handler has room for one. */
  lemma {:induction false} SendingIsFaithful(s: Link, acts: seq<Act>)
    requires Inv(s) && AllSound(acts)
    ensures |RunFrom(s, acts).hist.sent| == |s.hist.sent| + TxCount(acts)
    decreases |acts|
  {
    if acts != [] {
      RunFirst(s, acts);
      StepFrame(s, acts[0]);
      CountFirst(acts);
      hide *;
      SendingIsFaithful(Step(s, acts[0]), acts[1..]);
    }
  }

  lemma AppendAssoc(a: seq<Byte>, b: seq<Byte>, c: seq<Byte>)
    ensures (a + b) + c == a + (b + c)
  {
  }

  lemma CountFirst(acts: seq<Act>)
    requires acts != []
    ensures ReceivedBy(acts) == ByteIn(acts[0]) + ReceivedBy(acts[1..])
    ensures TxCount(acts) == (if acts[0].Tx? then 1 else 0) + TxCount(acts[1..])
  {
  }

  lemma StepFrame(s: Link, a: Act)
    requires Inv(s) && Sound(a)
    ensures var t := Step(s, a);
      && Flatten(t.hist.segments) == Flatten(s.hist.segments) + ByteIn(a)
      && |t.hist.sent| == |s.hist.sent| + (if a.Tx? then 1 else 0)
  {
    hide Flatten;
    match a
    case Tx => TxFrame(s);
    case Rx(b) => RxFrame(s, b);
    case Go(_) =>
  }

  /** In every interleaving: each callback got exactly the eight bytes that start at the first
      non-zero byte received since the previous response was completely out; each request had one
      callback and one response; and the bytes sent are idle zeros and whole responses, untorn and
      in callback order, followed by the leading part of the one still leaving. */
  lemma EveryInterleavingIsCorrect(acts: seq<Act>)
    requires AllSound(acts)
    ensures Inv(INITIAL)
    ensures var t := RunFrom(INITIAL, acts); var h := t.hist; var done := |h.segments| - 1;
      && Flatten(h.segments) == ReceivedBy(acts) && |h.sent| == TxCount(acts)
      && |h.requests| == |h.responses| && done <= |h.responses| <= done + 1
      && (forall k :: 0 <= k < |h.requests| ==> h.requests[k] == Captured(h.segments[k]))
      && Decode(h.sent).frames == h.responses[..done]
      && (Decode(h.sent).partial != [] ==>
            done < |h.responses| && Decode(h.sent).partial <= h.responses[done])
  {
    InitialInv();
    SegmentsAreFaithful(INITIAL, acts);
    SendingIsFaithful(INITIAL, acts);
    var start := INITIAL.hist.segments;
    assert Flatten(start) == [] by { assert start[..0] == []; }
    var t := RunFrom(INITIAL, acts);
    assert Inv(t);
  }

  /** While the main loop is inside the callback or is storing a response, interrupts change
      neither the request nor the response under construction, and send only idle zeros. */
  lemma BuffersAreHeld(s: Link, a: Act)
    requires Inv(s) && !a.Go? && (s.main.Reading? || s.main.Writing?)
    ensures var t := Step(s, a);
      && t.inBuf == s.inBuf && t.inIndex == 8 && t.outBuf == s.outBuf && t.main == s.main
      && (t.hist.sent == s.hist.sent || t.hist.sent == s.hist.sent + [0])
  {
  }

  ghost predicate OnlyInterrupts(acts: seq<Act>) {
    forall k :: 0 <= k < |acts| ==> !acts[k].Go?
  }

  predicate RequestPending(s: Link) {
    s.inIndex == 8 && s.outBuf[0] == 0
  }

  lemma {:induction false} PendingIsStable(s: Link, acts: seq<Act>)
    requires Inv(s) && RequestPending(s) && OnlyInterrupts(acts)
    ensures AllSound(acts)
    ensures var t := RunFrom(s, acts); RequestPending(t) && t.main == s.main && t.inBuf == s.inBuf
    decreases |acts|
  {
    if acts != [] {
      hide RequestsRight, ResponsesRight;
      StepKeepsInv(s, acts[0]);
      PendingIsStable(Step(s, acts[0]), acts[1..]);
    }
  }

  /** A complete request is never missed: two accesses of the main loop later, with any interrupts
      in between, the callback is running on it. */
  lemma PendingRequestIsServed(s: Link, irq1: seq<Act>, r1: Frame, irq2: seq<Act>, r2: Frame)
    requires Inv(s) && RequestPending(s) && s.main.Polling?
    requires OnlyInterrupts(irq1) && OnlyInterrupts(irq2) && r1[0] != 0 && r2[0] != 0
    ensures AllSound(irq1) && AllSound(irq2)
    ensures var a := RunFrom(s, irq1);
      Inv(Step(a, Go(r1))) &&
      var b := RunFrom(Step(a, Go(r1)), irq2);
      MainStep(b, r2).main == Reading([]) && MainStep(b, r2).inBuf == s.inBuf
  {
    PendingIsStable(s, irq1);
    var a := RunFrom(s, irq1);
    StepKeepsInv(a, Go(r1));
    PendingIsStable(Step(a, Go(r1)), irq2);
  }

  /** A response is never stuck: as soon as the bus has asked for its remaining bytes it is out,
      whatever else happened meanwhile. */
  lemma {:induction false} ResponseLeaves(s: Link, acts: seq<Act>)
    requires Inv(s) && s.outBuf[0] != 0 && AllSound(acts)
    requires TxCount(acts) >= 8 - s.outIndex
    ensures Done(RunFrom(s, acts)) > Done(s)
    decreases |acts|
  {
    StepKeepsInv(s, acts[0]);
    var t := Step(s, acts[0]);
    if Done(t) > Done(s) {
      DoneGrows(t, acts[1..]);
    } else {
      ResponseLeaves(t, acts[1..]);
    }
  }

  lemma {:induction false} DoneGrows(s: Link, acts: seq<Act>)
    requires Inv(s) && AllSound(acts)
    ensures Done(RunFrom(s, acts)) >= Done(s)
    decreases |acts|
  {
    if acts != [] {
      hide Inv, Step, Done;
      StepKeepsInv(s, acts[0]);
      StepGrows(s, acts[0]);
      DoneGrows(Step(s, acts[0]), acts[1..]);
    }
  }

  lemma StepGrows(s: Link, a: Act)
    requires Inv(s) && Sound(a)
    ensures Done(Step(s, a)) >= Done(s)
  {
    hide RequestsRight, ResponsesRight;
  }

  // ----- The code -----

  /** One run of the interrupt handler: how often it finds room in the transmit FIFO, and the bytes
      it then finds in the receive FIFO. */
  datatype Irq = Irq(room: nat, incoming: seq<Byte>)

  /** A response for the accesses of the main loop that use none. */
  const ANY: Frame := [1, 0, 0, 0, 0, 0, 0, 0]

  function Sends(n: nat): (r: seq<Act>)
    ensures |r| == n
  {
    if n == 0 then [] else Sends(n - 1) + [Tx]
  }

  function Receives(bytes: seq<Byte>): (r: seq<Act>)
    ensures |r| == |bytes|
  {
    if bytes == [] then [] else Receives(bytes[..|bytes| - 1]) + [Rx(Last(bytes))]
  }

  /** What one run of the handler does. */
  function IrqActs(irq: Irq): seq<Act> {
    Sends(irq.room) + Receives(irq.incoming)
  }

  function AllIrqActs(irqs: seq<Irq>): seq<Act> {
    if irqs == [] then [] else AllIrqActs(irqs[..|irqs| - 1]) + IrqActs(Last(irqs))
  }

  /** `n` accesses of the main loop, each after the interrupts that come before it. */
  function Accesses(irq: nat -> seq<Irq>, from: nat, n: nat, resp: Frame): seq<Act> {
    if n == 0 then []
    else Accesses(irq, from, n - 1, resp) + AllIrqActs(irq(from + n - 1)) + [Go(resp)]
  }

  lemma AccessSnoc(irq: nat -> seq<Irq>, from: nat, n: nat)
    ensures Accesses(irq, from, n + 1, ANY) == Accesses(irq, from, n, ANY) + AllIrqActs(irq(from + n)) + [Go(ANY)]
    ensures Accesses(irq, from, 0, ANY) == []
  {
  }

  /** One poll: it stops at the first response byte, or at the request counter, or goes on to read the
      request, compose its response and store it. */
  function TaskActs(irq: nat -> seq<Irq>, resp: Frame, clear: bool, served: bool): seq<Act> {
    if !clear then Accesses(irq, 0, 1, ANY)
    else if !served then Accesses(irq, 0, 2, ANY)
    else Accesses(irq, 0, 2, ANY) + Accesses(irq, 2, 8, ANY) + [Go(resp)] + Accesses(irq, 10, 8, ANY)
  }

  /** The state is what a run of the model from power-on leads to. */
  ghost predicate IsRun(s: Link, acts: seq<Act>) {
    Inv(INITIAL) && AllSound(acts) && s == RunFrom(INITIAL, acts)
  }

  lemma {:induction false} RunSnoc(s: Link, acts: seq<Act>, a: Act)
    requires Inv(s) && AllSound(acts) && Sound(a)
    ensures AllSound(acts + [a]) && RunFrom(s, acts + [a]) == Step(RunFrom(s, acts), a)
    decreases |acts|
  {
    hide Inv, Step;
    if acts == [] {
      assert [] + [a] == [a] && [a][1..] == [];
      StepKeepsInv(s, a);
      RunFirst(s, [a]);
    } else {
      assert (acts + [a])[1..] == acts[1..] + [a];
      RunFirst(s, acts);
      RunSnoc(Step(s, acts[0]), acts[1..], a);
      assert AllSound(acts + [a]);
      RunFirst(s, acts + [a]);
    }
  }

  /** One more action makes a longer run. */
  lemma Extend(s: Link, acts: seq<Act>, a: Act)
    requires IsRun(s, acts) && Sound(a)
    ensures Inv(s) && IsRun(Step(s, a), acts + [a])
  {
    hide Inv, Step;
    RunSnoc(INITIAL, acts, a);
  }

  lemma RunHasInv(s: Link, acts: seq<Act>)
    requires IsRun(s, acts)
    ensures Inv(s)
  {
    hide Inv;
  }

  lemma EmptyRun()
    ensures IsRun(INITIAL, [])
  {
    InitialInv();
    hide Inv;
  }

  class Port {
    var inBuf: array<Byte>
    var inIndex: nat
    var outBuf: array<Byte>
    var outIndex: nat
    var receiving: bool
    ghost var main: Main
    ghost var hist: History
    ghost var acts: seq<Act>

    ghost predicate Shape()
      reads this
    {
      inBuf.Length == 8 && outBuf.Length == 8 && inBuf != outBuf
    }

    ghost function View(): Link
      requires Shape()
      reads this, inBuf, outBuf
    {
      Link(inBuf[..], inIndex, outBuf[..], outIndex, receiving, main, hist)
    }

    /** The memory is what the recorded actions of both parties, run by the model, lead to. */
    ghost predicate Valid()
      reads this, inBuf, outBuf
    {
      Shape() && IsRun(View(), acts)
    }

    constructor ()
      ensures Valid() && View() == INITIAL && acts == [] && fresh(inBuf) && fresh(outBuf)
    {
      inBuf := new Byte[8](_ => 0);
      inIndex := 0;
      outBuf := new Byte[8](_ => 0);
      outIndex := 0;
      receiving := false;
      main := Polling;
      hist := INITIAL.hist;
      acts := [];
      new;
      EmptyRun();
      hide IsRun;
      assert inBuf[..] == ZERO_FRAME && outBuf[..] == ZERO_FRAME;
    }

    /** The first loop of the handler, once. */
    method FillTx() returns (dr: Byte)
      requires Valid()
      modifies this`inIndex, this`outIndex, this`hist, this`acts, outBuf
      ensures Valid() && View() == TxStep(old(View())) && acts == old(acts) + [Tx]
      ensures Inv(old(View())) && hist.sent == old(hist.sent) + [dr]
    {
      hide RequestsRight, ResponsesRight, IsRun;
      ghost var s := View();
      Extend(s, acts, Tx);
      if outBuf[0] != 0 && outIndex < 8 {
        dr := outBuf[outIndex];
        outIndex := outIndex + 1;
        if outIndex == 8 {
          outIndex := 0;
          inIndex := 0;
          outBuf[0] := 0;
        }
      } else {
        dr := 0;
      }
      hist := TxStep(s).hist;
      acts := acts + [Tx];
      assert View() == TxStep(s);
    }

    /** The second loop of the handler, once. */
    method DrainRx(byte: Byte)
      requires Valid()
      modifies this`inIndex, this`receiving, this`hist, this`acts, inBuf
      ensures Valid() && View() == RxStep(old(View()), byte) && acts == old(acts) + [Rx(byte)]
      ensures Inv(old(View()))
    {
      hide RequestsRight, ResponsesRight, IsRun;
      ghost var s := View();
      Extend(s, acts, Rx(byte));
      if !receiving && byte != 0 {
        receiving := true;
      }
      if receiving && inIndex < 8 {
        inBuf[inIndex] := byte;
        inIndex := inIndex + 1;
      }
      if inIndex == 8 {
        receiving := false;
      }
      hist := RxStep(s, byte).hist;
      acts := acts + [Rx(byte)];
      assert View() == RxStep(s, byte);
    }

    /** The interrupt handler: as many sending steps as there was room, then a receiving step for each
        byte. A waiting request stays as it is. */
    method XferIsr(irq: Irq)
      requires Valid()
      modifies this`inIndex, this`outIndex, this`receiving, this`hist, this`acts, inBuf, outBuf
      ensures Valid() && acts == old(acts) + IrqActs(irq)
      ensures |hist.sent| == |old(hist.sent)| + irq.room
      ensures Flatten(hist.segments) == Flatten(old(hist.segments)) + irq.incoming
      ensures hist.requests == old(hist.requests) && hist.responses == old(hist.responses)
      ensures RequestPending(old(View())) ==>
        RequestPending(View()) && inBuf[..] == old(inBuf[..]) && outBuf[..] == old(outBuf[..])
    {
      hide Inv, Flatten, IsRun, Sends, Receives;
      Fill(irq.room);
      Drain(irq.incoming);
    }

    method Fill(room: nat)
      requires Valid()
      modifies this`inIndex, this`outIndex, this`hist, this`acts, outBuf
      ensures Valid() && acts == old(acts) + Sends(room)
      ensures |hist.sent| == |old(hist.sent)| + room && Flatten(hist.segments) == Flatten(old(hist.segments))
      ensures hist.requests == old(hist.requests) && hist.responses == old(hist.responses)
      ensures RequestPending(old(View())) ==>
        RequestPending(View()) && inBuf[..] == old(inBuf[..]) && outBuf[..] == old(outBuf[..])
    {
      hide Inv, Flatten, IsRun, TxStep;
      var n := 0;
      while n < room
        invariant 0 <= n <= room
        invariant Valid() && acts == old(acts) + Sends(n)
        invariant |hist.sent| == |old(hist.sent)| + n
        invariant Flatten(hist.segments) == Flatten(old(hist.segments))
        invariant hist.requests == old(hist.requests) && hist.responses == old(hist.responses)
        invariant RequestPending(old(View())) ==>
          RequestPending(View()) && inBuf[..] == old(inBuf[..]) && outBuf[..] == old(outBuf[..])
      {
        ghost var s := View();
        var dr := FillTx();
        TxFrame(s);
        n := n + 1;
      }
    }

    method Drain(incoming: seq<Byte>)
      requires Valid()
      modifies this`inIndex, this`receiving, this`hist, this`acts, inBuf
      ensures Valid() && acts == old(acts) + Receives(incoming)
      ensures hist.sent == old(hist.sent) && Flatten(hist.segments) == Flatten(old(hist.segments)) + incoming
      ensures hist.requests == old(hist.requests) && hist.responses == old(hist.responses)
      ensures RequestPending(old(View())) ==>
        RequestPending(View()) && inBuf[..] == old(inBuf[..]) && outBuf[..] == old(outBuf[..])
    {
      hide Inv, Flatten, IsRun, RxStep;
      var n := 0;
      assert incoming[..0] == [];
      while n < |incoming|
        invariant 0 <= n <= |incoming|
        invariant Valid() && acts == old(acts) + Receives(incoming[..n])
        invariant hist.sent == old(hist.sent)
        invariant Flatten(hist.segments) == Flatten(old(hist.segments)) + incoming[..n]
        invariant hist.requests == old(hist.requests) && hist.responses == old(hist.responses)
        invariant RequestPending(old(View())) ==>
          RequestPending(View()) && inBuf[..] == old(inBuf[..]) && outBuf[..] == old(outBuf[..])
      {
        ghost var s := View();
        DrainRx(incoming[n]);
        RxFrame(s, incoming[n]);
        assert incoming[..n + 1] == incoming[..n] + [incoming[n]];
        assert incoming[..n + 1][..n] == incoming[..n];
        n := n + 1;
      }
      assert incoming[..n] == incoming;
    }

    /** The handler may run any number of times between two accesses of the main loop. */
    method Interrupts(irqs: seq<Irq>)
      requires Valid()
      modifies this`inIndex, this`outIndex, this`receiving, this`hist, this`acts, inBuf, outBuf
      ensures Valid() && acts == old(acts) + AllIrqActs(irqs)
      ensures hist.requests == old(hist.requests) && hist.responses == old(hist.responses)
      ensures RequestPending(old(View())) ==>
        RequestPending(View()) && inBuf[..] == old(inBuf[..]) && outBuf[..] == old(outBuf[..])
    {
      hide Inv, IsRun, IrqActs;
      for k := 0 to |irqs|
        invariant Valid() && acts == old(acts) + AllIrqActs(irqs[..k])
        invariant hist.requests == old(hist.requests) && hist.responses == old(hist.responses)
        invariant RequestPending(old(View())) ==>
          RequestPending(View()) && inBuf[..] == old(inBuf[..]) && outBuf[..] == old(outBuf[..])
      {
        assert irqs[..k + 1][..k] == irqs[..k];
        XferIsr(irqs[k]);
      }
      assert irqs[..|irqs|] == irqs;
    }

    /** At every moment of the real memory's life: each request handed over is what was captured in its
        segment of the bytes received, and what the host decodes are the responses in callback order,
        whole, followed by the leading part of the one still leaving. */
    lemma MemoryIsCorrect()
      requires Valid()
      ensures var done := |hist.segments| - 1;
        && Flatten(hist.segments) == ReceivedBy(acts) && |hist.sent| == TxCount(acts)
        && |hist.requests| == |hist.responses| && 0 <= done <= |hist.responses| <= done + 1
        && (forall k :: 0 <= k < |hist.requests| ==>
              k < |hist.segments| && hist.requests[k] == Captured(hist.segments[k]))
        && Decode(hist.sent).frames == hist.responses[..done]
        && (Decode(hist.sent).partial != [] ==>
              done < |hist.responses| && Decode(hist.sent).partial <= hist.responses[done])
    {
      EveryInterleavingIsCorrect(acts);
      RunHasInv(View(), acts);
    }

    /** The two tests of a poll, with `irq(k)` happening before access number `k`. The states `first`
        and `second` are those the two accesses find. */
    method Poll(irq: nat -> seq<Irq>) returns (ready: bool, ghost first: Link, ghost second: Link)
      requires Valid() && main.Polling?
      modifies this`main, this`inIndex, this`outIndex, this`receiving, this`hist, this`acts, inBuf, outBuf
      ensures Valid() && main == (if ready then Reading([]) else Polling)
      ensures IsRun(first, old(acts) + AllIrqActs(irq(0)))
      ensures first.outBuf[0] == 0 ==> IsRun(second, old(acts) + Accesses(irq, 0, 1, ANY) + AllIrqActs(irq(1)))
      ensures ready <==> first.outBuf[0] == 0 && second.inIndex == 8
      ensures acts == old(acts) + Accesses(irq, 0, if first.outBuf[0] == 0 then 2 else 1, ANY)
      ensures hist.requests == old(hist.requests) && hist.responses == old(hist.responses)
      ensures RequestPending(old(View())) ==> ready && inBuf[..] == old(inBuf[..])
    {
      hide IsRun, AllIrqActs, Accesses;
      AccessSnoc(irq, 0, 0);
      AccessSnoc(irq, 0, 1);
      ready := false;
      var clear: bool;
      clear, first := TestResponse(irq(0));
      assert acts == old(acts) + Accesses(irq, 0, 1, ANY);
      second := first;
      if clear {
        ready, second := TestRequest(irq(1));
        assert acts == old(acts) + Accesses(irq, 0, 2, ANY);
      }
    }

    method TestResponse(irqs: seq<Irq>) returns (clear: bool, ghost found: Link)
      requires Valid() && main.Polling?
      modifies this`main, this`inIndex, this`outIndex, this`receiving, this`hist, this`acts, inBuf, outBuf
      ensures Valid() && main == (if clear then Armed else Polling)
      ensures IsRun(found, old(acts) + AllIrqActs(irqs)) && (clear <==> found.outBuf[0] == 0)
      ensures acts == old(acts) + AllIrqActs(irqs) + [Go(ANY)]
      ensures hist.requests == old(hist.requests) && hist.responses == old(hist.responses)
      ensures RequestPending(old(View())) ==> clear && RequestPending(View()) && inBuf[..] == old(inBuf[..])
    {
      hide RequestsRight, ResponsesRight, IsRun, AllIrqActs;
      Interrupts(irqs);
      found := View();
      Extend(found, acts, Go(ANY));
      clear := outBuf[0] == 0;
      main := if clear then Armed else Polling;
      acts := acts + [Go(ANY)];
      assert View() == MainStep(found, ANY);
    }

    method TestRequest(irqs: seq<Irq>) returns (full: bool, ghost found: Link)
      requires Valid() && main.Armed?
      modifies this`main, this`inIndex, this`outIndex, this`receiving, this`hist, this`acts, inBuf, outBuf
      ensures Valid() && main == (if full then Reading([]) else Polling)
      ensures IsRun(found, old(acts) + AllIrqActs(irqs)) && (full <==> found.inIndex == 8)
      ensures acts == old(acts) + AllIrqActs(irqs) + [Go(ANY)]
      ensures hist.requests == old(hist.requests) && hist.responses == old(hist.responses)
      ensures RequestPending(old(View())) ==> full && inBuf[..] == old(inBuf[..])
    {
      hide RequestsRight, ResponsesRight, IsRun, AllIrqActs;
      Interrupts(irqs);
      found := View();
      Extend(found, acts, Go(ANY));
      full := inIndex == 8;
      main := if full then Reading([]) else Polling;
      acts := acts + [Go(ANY)];
      assert View() == MainStep(found, ANY);
    }

    /** The callback looks at the request byte by byte. */
    method Read(irq: nat -> seq<Irq>) returns (request: Frame)
      requires Valid() && main == Reading([])
      modifies this`main, this`inIndex, this`outIndex, this`receiving, this`hist, this`acts, inBuf, outBuf
      ensures Valid() && main == Reading(request) && request == old(inBuf[..])
      ensures acts == old(acts) + Accesses(irq, 2, 8, ANY)
      ensures hist.requests == old(hist.requests) && hist.responses == old(hist.responses)
    {
      hide IsRun, AllIrqActs, RequestPending;
      ghost var frame := inBuf[..];
      var data: seq<Byte> := [];
      while |data| < 8
        invariant Valid() && main == Reading(data) && |data| <= 8
        invariant acts == old(acts) + Accesses(irq, 2, |data|, ANY)
        invariant inBuf[..] == frame && data == frame[..|data|]
        invariant hist.requests == old(hist.requests) && hist.responses == old(hist.responses)
      {
        var b := ReadByte(irq(2 + |data|), data);
        assert frame[..|data| + 1] == frame[..|data|] + [frame[|data|]];
        data := data + [b];
      }
      request := data;
    }

    method ReadByte(irqs: seq<Irq>, data: seq<Byte>) returns (b: Byte)
      requires Valid() && main == Reading(data) && |data| < 8
      modifies this`main, this`inIndex, this`outIndex, this`receiving, this`hist, this`acts, inBuf, outBuf
      ensures Valid() && main == Reading(data + [b]) && b == inBuf[|data|] && inBuf[..] == old(inBuf[..])
      ensures acts == old(acts) + AllIrqActs(irqs) + [Go(ANY)]
      ensures hist.requests == old(hist.requests) && hist.responses == old(hist.responses)
    {
      hide RequestsRight, ResponsesRight, IsRun, AllIrqActs;
      RunHasInv(View(), acts);
      Interrupts(irqs);
      ghost var s := View();
      Extend(s, acts, Go(ANY));
      b := inBuf[|data|];
      main := Reading(data + [b]);
      acts := acts + [Go(ANY)];
      assert View() == MainStep(s, ANY);
    }

    /** From here on the response to the request is decided. */
    ghost method Compose(request: Frame, resp: Frame)
      requires Valid() && main == Reading(request) && resp[0] != 0
      modifies this`main, this`hist, this`acts
      ensures Valid() && main == Writing(8, resp) && acts == old(acts) + [Go(resp)]
      ensures hist.requests == old(hist.requests) + [request] && hist.responses == old(hist.responses) + [resp]
    {
      hide RequestsRight, ResponsesRight, IsRun;
      ghost var s := View();
      Extend(s, acts, Go(resp));
      hist := MainStep(s, resp).hist;
      main := Writing(8, resp);
      acts := acts + [Go(resp)];
      assert View() == MainStep(s, resp);
    }

    /** Stores a response from its last byte to its first: the first one lets the handler send. */
    method Write(irq: nat -> seq<Irq>, data: Frame)
      requires Valid() && main == Writing(8, data) && data[0] != 0
      modifies this`main, this`inIndex, this`outIndex, this`receiving, this`hist, this`acts, inBuf, outBuf
      ensures Valid() && main.Polling? && outBuf[..] == data
      ensures acts == old(acts) + Accesses(irq, 10, 8, ANY)
      ensures hist.requests == old(hist.requests) && hist.responses == old(hist.responses)
    {
      hide RequestsRight, ResponsesRight, IsRun, AllIrqActs;
      var i := 7;
      while i >= 0
        invariant -1 <= i <= 7
        invariant Valid() && main == (if i < 0 then Polling else Writing(i + 1, data))
        invariant acts == old(acts) + Accesses(irq, 10, 7 - i, ANY)
        invariant hist.requests == old(hist.requests) && hist.responses == old(hist.responses)
        invariant outBuf[i + 1..] == data[i + 1..]
      {
        StoreByte(irq(10 + (7 - i)), data, i);
        i := i - 1;
      }
    }

    method StoreByte(irqs: seq<Irq>, data: Frame, i: nat)
      requires Valid() && i < 8 && main == Writing(i + 1, data) && outBuf[i + 1..] == data[i + 1..]
      modifies this`main, this`inIndex, this`outIndex, this`receiving, this`hist, this`acts, inBuf, outBuf
      ensures Valid() && main == (if i == 0 then Polling else Writing(i, data))
      ensures acts == old(acts) + AllIrqActs(irqs) + [Go(ANY)]
      ensures hist.requests == old(hist.requests) && hist.responses == old(hist.responses)
      ensures outBuf[i..] == data[i..]
    {
      hide RequestsRight, ResponsesRight, IsRun, AllIrqActs;
      RunHasInv(View(), acts);
      ghost var before := outBuf[i + 1..];
      Interrupts(irqs);
      assert outBuf[i + 1..] == before;
      ghost var s := View();
      Extend(s, acts, Go(ANY));
      outBuf[i] := data[i];
      main := if i == 0 then Polling else Writing(i, data);
      acts := acts + [Go(ANY)];
      assert View() == MainStep(s, ANY);
      assert outBuf[i..] == [data[i]] + outBuf[i + 1..];
    }

    method Callback(irq: nat -> seq<Irq>, resp: Frame)
      requires Valid() && main == Reading([]) && resp[0] != 0
      modifies this`main, this`inIndex, this`outIndex, this`receiving, this`hist, this`acts, inBuf, outBuf
      ensures Valid() && main == Writing(8, resp)
      ensures acts == old(acts) + Accesses(irq, 2, 8, ANY) + [Go(resp)]
      ensures hist.requests == old(hist.requests) + [old(inBuf[..])]
      ensures hist.responses == old(hist.responses) + [resp]
    {
      hide IsRun, Accesses;
      var request := Read(irq);
      Compose(request, resp);
    }

    /** One poll by the main loop. It serves a request exactly when its first access finds no response
        on its way and its second a complete request; then the callback reads just that request and
        its response is stored. Otherwise nothing is handed over. */
    method Task(irq: nat -> seq<Irq>, resp: Frame) returns (served: bool, ghost first: Link, ghost second: Link)
      requires Valid() && main.Polling? && resp[0] != 0
      modifies this`main, this`inIndex, this`outIndex, this`receiving, this`hist, this`acts, inBuf, outBuf
      ensures Valid() && main.Polling?
      ensures IsRun(first, old(acts) + AllIrqActs(irq(0)))
      ensures first.outBuf[0] == 0 ==> IsRun(second, old(acts) + Accesses(irq, 0, 1, ANY) + AllIrqActs(irq(1)))
      ensures served <==> first.outBuf[0] == 0 && second.inIndex == 8
      ensures acts == old(acts) + TaskActs(irq, resp, first.outBuf[0] == 0, served)
      ensures RequestPending(old(View())) ==> served && hist.requests == old(hist.requests) + [old(inBuf[..])]
      ensures served ==> outBuf[..] == resp && |hist.requests| == |old(hist.requests)| + 1
      ensures hist.responses == old(hist.responses) + if served then [resp] else []
      ensures !served ==> hist.requests == old(hist.requests)
    {
      hide IsRun, Accesses, AllIrqActs, RequestPending;
      served, first, second := Poll(irq);
      if served {
        Callback(irq, resp);
        Write(irq, resp);
      }
    }
  }

  lemma TxFrame(s: Link)
    requires Inv(s)
    ensures s.outIndex < 8
    ensures var t := TxStep(s);
      && Flatten(t.hist.segments) == Flatten(s.hist.segments)
      && |t.hist.sent| == |s.hist.sent| + 1
      && t.hist.requests == s.hist.requests && t.hist.responses == s.hist.responses
      && (RequestPending(s) ==> RequestPending(t) && t.inBuf == s.inBuf && t.outBuf == s.outBuf)
  {
    var before, after := s.hist.segments, TxStep(s).hist.segments;
    if after != before {
      assert after[..|after| - 1] == before;
    }
  }

  lemma RxFrame(s: Link, b: Byte)
    requires Inv(s)
    ensures s.inIndex <= 8 && s.hist.segments != []
    ensures var t := RxStep(s, b);
      && Flatten(t.hist.segments) == Flatten(s.hist.segments) + [b]
      && t.hist.sent == s.hist.sent
      && t.hist.requests == s.hist.requests && t.hist.responses == s.hist.responses
      && (RequestPending(s) ==> RequestPending(t) && t.inBuf == s.inBuf && t.outBuf == s.outBuf)
  {
    var before, after := s.hist.segments, RxStep(s, b).hist.segments;
    assert after[..|after| - 1] == before[..|before| - 1];
  }
}
