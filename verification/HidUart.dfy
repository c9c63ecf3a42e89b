/** The UART transport of the Pico HID firmware, and the main loop on top of it. Bytes are
    gathered into 8-byte frames; an incomplete frame is given up after 100 ms of silence. */
module HidUart {
  import opened Bits
  import opened Wrappers
  import opened HidProtocol

  const TIMEOUT_US: nat := 100000
  const U64: nat := 0x1_0000_0000_0000_0000

  /** What a poll finds: a byte in the receiver or none, and the time if it is asked for. */
  datatype Poll = Poll(byte: Option<Byte>, now: nat)

  datatype Outcome =
    | Quiet
    | Delivered(frame: Frame)
    | Discarded(bytes: seq<Byte>)

  // ----- Reference: how a polled byte stream is divided -----

  datatype Receiver = Receiver(pending: seq<Byte>, lastTs: nat)

  const INITIAL: Receiver := Receiver([], 0)

  predicate Silent(r: Receiver, now: nat) {
    (r.lastTs + TIMEOUT_US) % U64 < now
  }

  function Receive(r: Receiver, p: Poll): (Receiver, Outcome)
    requires |r.pending| < 8
  {
    match p.byte
    case Some(b) =>
      var got := r.pending + [b];
      if |got| == 8 then (Receiver([], r.lastTs), Delivered(got)) else (Receiver(got, p.now), Quiet)
    case None =>
      if r.pending != [] && Silent(r, p.now) then (Receiver([], r.lastTs), Discarded(r.pending))
      else (r, Quiet)
  }

  function ByteOf(p: Poll): seq<Byte> {
    if p.byte.Some? then [p.byte.value] else []
  }

  function BytesOf(o: Outcome): seq<Byte> {
    match o
    case Quiet => []
    case Delivered(f) => f
    case Discarded(bytes) => bytes
  }

  function InputOf(o: Outcome): seq<Input> {
    match o
    case Quiet => []
    case Delivered(f) => [Request(f)]
    case Discarded(_) => [Timeout]
  }

  /** The bytes that arrived, in order. */
  function Arrived(polls: seq<Poll>): seq<Byte> {
    if polls == [] then [] else Arrived(polls[..|polls| - 1]) + ByteOf(polls[|polls| - 1])
  }

  /** The bytes that left the receiver, in frames or discards, in order. */
  function Accounted(outcomes: seq<Outcome>): seq<Byte> {
    if outcomes == [] then []
    else Accounted(outcomes[..|outcomes| - 1]) + BytesOf(outcomes[|outcomes| - 1])
  }

  /** The inputs the frame handler sees, in order. */
  function Inputs(outcomes: seq<Outcome>): seq<Input> {
    if outcomes == [] then []
    else Inputs(outcomes[..|outcomes| - 1]) + InputOf(outcomes[|outcomes| - 1])
  }

  predicate WellSized(o: Outcome) {
    o.Discarded? ==> 1 <= |o.bytes| <= 7
  }

  lemma Snoc(polls: seq<Poll>, outcomes: seq<Outcome>, p: Poll, o: Outcome)
    ensures Arrived(polls + [p]) == Arrived(polls) + ByteOf(p)
    ensures Accounted(outcomes + [o]) == Accounted(outcomes) + BytesOf(o)
    ensures Inputs(outcomes + [o]) == Inputs(outcomes) + InputOf(o)
  {
    assert (polls + [p])[..|polls|] == polls;
    assert (outcomes + [o])[..|outcomes|] == outcomes;
  }

  /** One poll moves bytes between the receiver and the outside, and loses none. */
  lemma ReceiveAccounts(before: seq<Byte>, r: Receiver, p: Poll)
    requires |r.pending| < 8
    ensures var (r', o) := Receive(r, p);
      && (before + r.pending) + ByteOf(p) == (before + BytesOf(o)) + r'.pending
      && WellSized(o)
  {
  }

  // ----- Runs of the receiver -----

  function RunReceiver(polls: seq<Poll>): (r: (Receiver, seq<Outcome>))
    ensures |r.0.pending| < 8 && |r.1| == |polls|
  {
    if polls == [] then (INITIAL, [])
    else
      var (r, os) := RunReceiver(polls[..|polls| - 1]);
      var (r', o) := Receive(r, polls[|polls| - 1]);
      (r', os + [o])
  }

  lemma RunSnoc(polls: seq<Poll>, p: Poll)
    ensures var (r, os) := RunReceiver(polls);
      RunReceiver(polls + [p]) == (Receive(r, p).0, os + [Receive(r, p).1])
  {
    assert (polls + [p])[..|polls|] == polls;
  }

  /** Each byte received is in exactly one delivered frame, one discard of one to seven bytes, or
      the pending prefix, and order is kept. */
  ghost predicate Accounts(polled: seq<Poll>, outcomes: seq<Outcome>, pending: seq<Byte>) {
    && Arrived(polled) == Accounted(outcomes) + pending
    && forall k :: 0 <= k < |outcomes| ==> WellSized(outcomes[k])
  }

  lemma AccountsStep(polled: seq<Poll>, outcomes: seq<Outcome>, r: Receiver, p: Poll)
    requires |r.pending| < 8
    requires Accounts(polled, outcomes, r.pending)
    ensures var (r', o) := Receive(r, p); Accounts(polled + [p], outcomes + [o], r'.pending)
  {
    hide Receive, Arrived, Accounted;
    Snoc(polled, outcomes, p, Receive(r, p).1);
    ReceiveAccounts(Accounted(outcomes), r, p);
  }

  /** Over any run, no byte is lost, duplicated or reordered. */
  lemma {:induction false} ByteAccounting(polls: seq<Poll>)
    ensures var (r, os) := RunReceiver(polls); Accounts(polls, os, r.pending)
  {
    if polls != [] {
      hide Accounts, Receive;
      var n := |polls| - 1;
      ByteAccounting(polls[..n]);
      assert polls == polls[..n] + [polls[n]];
      AccountsStep(polls[..n], RunReceiver(polls[..n]).1, RunReceiver(polls[..n]).0, polls[n]);
    }
  }

  /** The time of the last byte. */
  function LastByteAt(polls: seq<Poll>): nat {
    if polls == [] then 0
    else if polls[|polls| - 1].byte.Some? then polls[|polls| - 1].now
    else LastByteAt(polls[..|polls| - 1])
  }

  lemma {:induction false} TimeIsKept(polls: seq<Poll>)
    ensures var r := RunReceiver(polls).0; r.pending != [] ==> r.lastTs == LastByteAt(polls)
  {
    if polls != [] {
      TimeIsKept(polls[..|polls| - 1]);
    }
  }

  /** Over any run: a poll gives up the pending bytes if and only if there are some, it finds none, and
      the last one came more than 100 ms ago on the 64-bit clock; it delivers a frame if and only if it
      finds the eighth byte. */
  lemma OutcomeIff(polls: seq<Poll>, p: Poll)
    ensures var pending := RunReceiver(polls).0.pending; var (r, os) := RunReceiver(polls + [p]); var o := os[|polls|];
      && (o.Discarded? <==>
            p.byte.None? && pending != [] && (LastByteAt(polls) + 100000) % 0x1_0000_0000_0000_0000 < p.now)
      && (o.Discarded? ==> o.bytes == pending)
      && (o.Delivered? <==> p.byte.Some? && |pending| == 7)
      && (o.Delivered? ==> o.frame == pending + [p.byte.value])
      && r.pending == if o.Quiet? then pending + ByteOf(p) else []
  {
    TimeIsKept(polls);
    RunSnoc(polls, p);
    hide RunReceiver;
  }

  // ----- The receiver object -----

  class ComUart {
    var buf: array<Byte>
    var index: nat
    var lastTs: nat

    ghost predicate Valid()
      reads this
    {
      buf.Length == 8 && index < 8
    }

    ghost function View(): (r: Receiver)
      requires Valid()
      reads this, buf
      ensures |r.pending| < 8
    {
      Receiver(buf[..index], lastTs)
    }

    constructor ()
      ensures Valid() && fresh(buf) && View() == INITIAL
    {
      buf := new Byte[8](_ => 0);
      index := 0;
      lastTs := 0;
      new;
      assert buf[..index] == [];
    }

    method Task(p: Poll) returns (o: Outcome)
      requires Valid()
      modifies this`index, this`lastTs, buf
      ensures Valid()
      ensures (View(), o) == Receive(old(View()), p)
    {
      o := Quiet;
      ghost var before := buf[..index];
      match p.byte {
        case Some(b) =>
          buf[index] := b;
          assert buf[..index + 1] == before + [b];
          if index == 7 {
            assert buf[..] == buf[..8];
            o := Delivered(buf[..]);
            index := 0;
          } else {
            lastTs := p.now;
            index := index + 1;
          }
        case None =>
          if index > 0 {
            if (lastTs + TIMEOUT_US) % U64 < p.now {
              o := Discarded(buf[..index]);
              index := 0;
            }
          }
      }
    }
  }

  // ----- The main loop -----

  /** The responses owed to a history of inputs, given what was reported while composing each. */
  function Replies(seen: seq<Input>, statuses: seq<Status>): (r: seq<Reply>)
    requires |seen| == |statuses|
    ensures |r| == |seen|
  {
    if seen == [] then []
    else
      var n := |seen| - 1;
      Replies(seen[..n], statuses[..n])
      + [Response(LastCode(seen), ResetDemanded(seen), statuses[n])]
  }

  lemma RepliesSnoc(seen: seq<Input>, statuses: seq<Status>, i: Input, s: Status)
    requires |seen| == |statuses|
    ensures var all := seen + [i];
      Replies(all, statuses + [s])
        == Replies(seen, statuses) + [Response(LastCode(all), ResetDemanded(all), s)]
  {
    assert (seen + [i])[..|seen|] == seen;
    assert (statuses + [s])[..|seen|] == statuses;
  }

  /** Every input got exactly one response, whose code is its own or, for a request to repeat, the
      last code before it; nothing more was read once a reset had been demanded. */
  ghost predicate Answers(seen: seq<Input>, statuses: seq<Status>, responses: seq<Reply>) {
    && |statuses| == |seen|
    && responses == Replies(seen, statuses)
    && (seen != [] ==> !ResetDemanded(seen[..|seen| - 1]))
  }

  lemma AnswersStep(seen: seq<Input>, statuses: seq<Status>, responses: seq<Reply>, i: Input, s: Status)
    requires Answers(seen, statuses, responses) && !ResetDemanded(seen)
    ensures var all := seen + [i];
      Answers(all, statuses + [s], responses + [Response(LastCode(all), ResetDemanded(all), s)])
  {
    hide Replies, LastCode, ResetDemanded, Response;
    assert (seen + [i])[..|seen|] == seen;
    RepliesSnoc(seen, statuses, i, s);
  }

  /** The firmware: transport, handler, and the line back to the host. The histories record every
      poll the transport made, what it delivered, and every response; `Valid` is byte accounting
      and at-most-once execution, at every moment of every run. */
  class Firmware {
    const uart: ComUart
    const handler: Handler
    ghost var polled: seq<Poll>
    ghost var outcomes: seq<Outcome>
    ghost var statuses: seq<Status>
    var responses: seq<Reply>

    ghost predicate Valid()
      reads this, uart, uart.buf, handler
    {
      && uart.Valid() && handler.Valid()
      && (uart.View(), outcomes) == RunReceiver(polled)
      && Accounts(polled, outcomes, uart.View().pending)
      && handler.seen == Inputs(outcomes)
      && Answers(handler.seen, statuses, responses)
    }

    constructor ()
      ensures Valid() && fresh(uart) && fresh(uart.buf) && fresh(handler)
      ensures polled == [] && outcomes == [] && responses == []
    {
      uart := new ComUart();
      handler := new Handler();
      polled, outcomes, statuses, responses := [], [], [], [];
    }

    /** One turn of the main loop, as far as the transport is concerned. */
    method Turn(p: Poll, s: Status)
      requires Valid()
      modifies this, uart`index, uart`lastTs, uart.buf, handler
      ensures Valid()
      ensures polled == old(polled) + if old(handler.resetRequired) then [] else [p]
      ensures old(handler.resetRequired) ==> outcomes == old(outcomes) && responses == old(responses)
    {
      hide Replies, LastCode, Response, Inputs, Accounts, Answers, RunReceiver, Receive, AllEffects;
      if !handler.resetRequired {
        ghost var was := uart.View();
        var o := uart.Task(p);
        ghost var now := uart.View();
        Snoc(polled, outcomes, p, o);
        RunSnoc(polled, p);
        polled := polled + [p];
        ByteAccounting(polled);
        outcomes := outcomes + [o];
        Answer(o, s);
        assert uart.View() == now;
      }
    }

    method Answer(o: Outcome, s: Status)
      requires handler.Valid() && !handler.resetRequired
      requires Answers(handler.seen, statuses, responses)
      modifies this`responses, this`statuses, handler
      ensures handler.Valid() && handler.seen == old(handler.seen) + InputOf(o)
      ensures Answers(handler.seen, statuses, responses)
    {
      hide Answers, Response;
      match o {
        case Quiet =>
        case Delivered(frame) =>
          AnswersStep(handler.seen, statuses, responses, Request(frame), s);
          var r := handler.DataHandler(frame, s);
          responses, statuses := responses + [r], statuses + [s];
        case Discarded(_) =>
          AnswersStep(handler.seen, statuses, responses, Timeout, s);
          var r := handler.TimeoutHandler(s);
          responses, statuses := responses + [r], statuses + [s];
      }
    }
  }

  ghost predicate Octets(bytes: seq<Byte>, inputs: seq<Input>, pending: seq<Byte>) {
    && |bytes| == 8 * |inputs| + |pending|
    && (forall i :: 0 <= i < |inputs| ==> inputs[i] == Request(bytes[8 * i..8 * i + 8]))
    && pending == bytes[8 * |inputs|..]
  }

  lemma OctetsExtend(bytes: seq<Byte>, inputs: seq<Input>, r: Receiver, p: Poll)
    requires |r.pending| < 8 && Octets(bytes, inputs, r.pending) && !Receive(r, p).1.Discarded?
    ensures Octets(bytes + ByteOf(p), inputs + InputOf(Receive(r, p).1), Receive(r, p).0.pending)
  {
    var after, m := bytes + ByteOf(p), |inputs|;
    assert after[8 * m..] == r.pending + ByteOf(p);
    if |after[8 * m..]| == 8 {
      assert after[8 * m..8 * m + 8] == after[8 * m..];
    }
    forall i | 0 <= i < m
      ensures bytes[8 * i..8 * i + 8] == after[8 * i..8 * i + 8]
    {
    }
  }

  /** If the host never pauses, frames are exactly the consecutive groups of eight bytes: a run
      without discards delivers byte number `8 * i + j` as byte `j` of frame `i`. */
  lemma {:induction false} FramesAreOctets(polls: seq<Poll>)
    requires forall k :: 0 <= k < |polls| ==> !RunReceiver(polls).1[k].Discarded?
    ensures var (r, os) := RunReceiver(polls); Octets(Arrived(polls), Inputs(os), r.pending)
  {
    if polls != [] {
      var n := |polls| - 1;
      var (r, os) := RunReceiver(polls[..n]);
      var (r', o) := Receive(r, polls[n]);
      assert RunReceiver(polls).1 == os + [o];
      Snoc(polls[..n], os, polls[n], o);
      assert !RunReceiver(polls).1[n].Discarded?;
      forall k | 0 <= k < n ensures !RunReceiver(polls[..n]).1[k].Discarded? {
        assert RunReceiver(polls).1[k] == os[k];
      }
      FramesAreOctets(polls[..n]);
      OctetsExtend(Arrived(polls[..n]), Inputs(os), r, polls[n]);
    }
  }
}
