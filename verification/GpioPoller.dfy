/** The state of the GPIO channels as it is sent to clients: in full when asked for, and otherwise
    only what has changed, over a notifier that lumps its notifications together. */
module GpioPoller {
  import opened Wrappers

  type Mask = bv8

  type Channel = string

  /** The state of one channel. */
  datatype Cell = Cell(online: bool, busy: bool, level: bool)

  datatype Io = Io(inputs: map<Channel, Cell>, outputs: map<Channel, Cell>)

  const NO_IO := Io(map[], map[])

  datatype Message = Full(io: Io) | Partial(diff: Io)

  /** What may happen: somebody notifies, or the poller wakes up and reads the channels. */
  datatype Step = Notify(mask: Mask) | Poll(io: Io)

  // ----- The notifier -----

  function Or(masks: seq<Mask>): Mask {
    if masks == [] then 0 else Or(masks[..|masks| - 1]) | masks[|masks| - 1]
  }

  predicate Requested(masks: seq<Mask>) {
    exists i :: 0 <= i < |masks| && masks[i] != 0
  }

  /** Lumped together, the notifications ask for the full state exactly when one of them does. */
  lemma {:induction false} OrIsRequested(masks: seq<Mask>)
    ensures Or(masks) > 0 <==> Requested(masks)
  {
    if masks != [] {
      var before, m := masks[..|masks| - 1], masks[|masks| - 1];
      OrIsRequested(before);
      OrZero(Or(before), m);
      if Requested(before) {
        var i :| 0 <= i < |before| && before[i] != 0;
        assert masks[i] != 0;
      } else if Requested(masks) {
        var i :| 0 <= i < |masks| && masks[i] != 0;
        if i < |before| { assert before[i] != 0; }
      }
    }
  }

  lemma OrZero(a: Mask, b: Mask)
    ensures a | b == 0 <==> a == 0 && b == 0
  {
  }

  class AioNotifier {
    var queue: seq<Mask>

    constructor ()
      ensures queue == []
    {
      queue := [];
    }

    method Notify(mask: Mask)
      modifies this`queue
      ensures queue == old(queue) + [mask]
    {
      queue := queue + [mask];
    }

    /** The first notification is waited for; all that are there by then are taken with it. */
    method Wait() returns (mask: Mask)
      requires queue != []
      modifies this`queue
      ensures queue == [] && mask == Or(old(queue))
    {
      ghost var all := queue;
      mask := queue[0];
      queue := queue[1..];
      ghost var n := 1;
      assert all[..1] == [mask] && [mask][..0] == [];
      OrOfOne(mask);
      while queue != []
        invariant 0 < n <= |all| && queue == all[n..] && mask == Or(all[..n])
      {
        assert all[..n + 1][..n] == all[..n];
        mask := mask | queue[0];
        queue := queue[1..];
        n := n + 1;
      }
      assert all[..n] == all;
    }
  }

  lemma OrOfOne(m: Mask)
    ensures Or([m]) == m
  {
    assert [m][..0] == [];
    OrWithZero(m);
  }

  lemma OrWithZero(m: Mask)
    ensures 0 | m == m
  {
  }

  // ----- The poller -----

  function Changes(now: map<Channel, Cell>, prev: map<Channel, Cell>): map<Channel, Cell> {
    map ch | ch in now && !(ch in prev && prev[ch] == now[ch]) :: now[ch]
  }

  function Diff(now: Io, prev: Io): Io {
    Io(Changes(now.inputs, prev.inputs), Changes(now.outputs, prev.outputs))
  }

  datatype State = State(queue: seq<Mask>, prev: Io, sent: seq<Message>)

  const INITIAL := State([], NO_IO, [])

  function Do(s: State, e: Step): State {
    match e
    case Notify(mask) => s.(queue := s.queue + [mask])
    case Poll(io) =>
      if Or(s.queue) > 0 then State([], io, s.sent + [Full(io)])
      else if Diff(io, s.prev) == NO_IO then s.(queue := [])
      else State([], io, s.sent + [Partial(Diff(io, s.prev))])
  }

  function After(run: seq<Step>): State {
    if run == [] then INITIAL else Do(After(run[..|run| - 1]), run[|run| - 1])
  }

  // ----- Reference: a client, and what it should see -----

  function Seen(view: Io, m: Message): Io {
    match m
    case Full(io) => io
    case Partial(d) => Io(view.inputs + d.inputs, view.outputs + d.outputs)
  }

  /** A client that replaces on full messages and overlays partial ones. */
  function View(start: Io, messages: seq<Message>): Io {
    if messages == [] then start else Seen(View(start, messages[..|messages| - 1]), messages[|messages| - 1])
  }

  /** The state last read. */
  function LastPolled(run: seq<Step>): Option<Io> {
    if run == [] then None
    else if run[|run| - 1].Poll? then Some(run[|run| - 1].io) else LastPolled(run[..|run| - 1])
  }

  /** The notifications since then. */
  function Waiting(run: seq<Step>): seq<Mask> {
    if run == [] || run[|run| - 1].Poll? then []
    else Waiting(run[..|run| - 1]) + [run[|run| - 1].mask]
  }

  /** All readings are of the same channels, and the poller wakes only when notified. */
  predicate Possible(run: seq<Step>, inputs: set<Channel>, outputs: set<Channel>) {
    run == [] ||
    var before, e := run[..|run| - 1], run[|run| - 1];
    Possible(before, inputs, outputs) &&
    (e.Poll? ==> Waiting(before) != [] && e.io.inputs.Keys == inputs && e.io.outputs.Keys == outputs)
  }

  predicate Inv(run: seq<Step>, inputs: set<Channel>, outputs: set<Channel>) {
    var s := After(run);
    && s.queue == Waiting(run)
    && s.prev == View(NO_IO, s.sent)
    && (LastPolled(run).Some? ==>
          s.prev == LastPolled(run).value && s.prev.inputs.Keys == inputs && s.prev.outputs.Keys == outputs)
    && (LastPolled(run).None? ==> s.sent == [])
  }

  lemma Overlay(now: map<Channel, Cell>, prev: map<Channel, Cell>)
    requires prev.Keys <= now.Keys
    ensures prev + Changes(now, prev) == now
  {
  }

  lemma Snoc(run: seq<Step>, e: Step)
    ensures After(run + [e]) == Do(After(run), e)
    ensures LastPolled(run + [e]) == if e.Poll? then Some(e.io) else LastPolled(run)
    ensures Waiting(run + [e]) == if e.Poll? then [] else Waiting(run) + [e.mask]
  {
    assert (run + [e])[..|run|] == run;
  }

  lemma ViewSnoc(start: Io, ms: seq<Message>, m: Message)
    ensures View(start, ms + [m]) == Seen(View(start, ms), m)
  {
    assert (ms + [m])[..|ms|] == ms;
  }

  lemma StepKeepsInv(run: seq<Step>, e: Step, inputs: set<Channel>, outputs: set<Channel>)
    requires Inv(run, inputs, outputs)
    requires e.Poll? ==> e.io.inputs.Keys == inputs && e.io.outputs.Keys == outputs
    ensures Inv(run + [e], inputs, outputs)
  {
    var s := After(run);
    Snoc(run, e);
    if e.Poll? {
      ViewSnoc(NO_IO, s.sent, Full(e.io));
      ViewSnoc(NO_IO, s.sent, Partial(Diff(e.io, s.prev)));
      if LastPolled(run).None? { assert View(NO_IO, []) == NO_IO; }
      Overlay(e.io.inputs, s.prev.inputs);
      Overlay(e.io.outputs, s.prev.outputs);
      if Diff(e.io, s.prev) == NO_IO { NoChange(e.io, s.prev); }
    }
  }

  lemma NoChange(now: Io, prev: Io)
    requires Diff(now, prev) == NO_IO && prev.inputs.Keys <= now.inputs.Keys && prev.outputs.Keys <= now.outputs.Keys
    ensures now == prev
  {
    Overlay(now.inputs, prev.inputs);
    Overlay(now.outputs, prev.outputs);
    assert prev.inputs + map[] == prev.inputs && prev.outputs + map[] == prev.outputs;
  }

  lemma {:induction false} EveryRunKeepsInv(run: seq<Step>, inputs: set<Channel>, outputs: set<Channel>)
    requires Possible(run, inputs, outputs)
    ensures Inv(run, inputs, outputs)
  {
    if run != [] {
      var before, e := run[..|run| - 1], run[|run| - 1];
      EveryRunKeepsInv(before, inputs, outputs);
      StepKeepsInv(before, e, inputs, outputs);
      assert before + [e] == run;
    }
  }

  /** Over every run, a client that was there from the start holds exactly the state last read. */
  lemma ClientHoldsLastPolled(run: seq<Step>, inputs: set<Channel>, outputs: set<Channel>)
    requires Possible(run, inputs, outputs) && LastPolled(run).Some?
    ensures View(NO_IO, After(run).sent) == LastPolled(run).value
  {
    EveryRunKeepsInv(run, inputs, outputs);
  }

  /** A request for the full state is never lost among others, and never made up: the next message
      after it, and only then, is full. */
  lemma FullIffRequested(run: seq<Step>, io: Io, inputs: set<Channel>, outputs: set<Channel>)
    requires Possible(run, inputs, outputs)
    ensures var before, after := After(run).sent, After(run + [Poll(io)]).sent;
      (Requested(Waiting(run)) <==> after == before + [Full(io)])
  {
    hide Or, Requested, View, Diff, Possible, Waiting;
    EveryRunKeepsInv(run, inputs, outputs);
    Snoc(run, Poll(io));
    OrIsRequested(Waiting(run));
    var before := After(run).sent;
    LastOf(before, Full(io));
    LastOf(before, Partial(Diff(io, After(run).prev)));
  }

  /** A partial message holds just the channels that differ from the last reading, with their new states;
      and there is one if and only if some channel does. */
  lemma PartialHoldsWhatChanged(run: seq<Step>, io: Io, inputs: set<Channel>, outputs: set<Channel>)
    requires Possible(run + [Poll(io)], inputs, outputs) && LastPolled(run).Some? && Or(Waiting(run)) == 0
    ensures var last, before, after := LastPolled(run).value, After(run).sent, After(run + [Poll(io)]).sent;
      && (last == io ==> after == before)
      && (last != io ==>
            && |after| == |before| + 1 && after[..|before|] == before && after[|before|].Partial?
            && Holds(after[|before|].diff.inputs, io.inputs, last.inputs)
            && Holds(after[|before|].diff.outputs, io.outputs, last.outputs))
  {
    assert (run + [Poll(io)])[..|run|] == run;
    EveryRunKeepsInv(run, inputs, outputs);
    var last := LastPolled(run).value;
    assert io.inputs.Keys == inputs && io.outputs.Keys == outputs;
    if Diff(io, last) == NO_IO { NoChange(io, last); }
  }

  predicate Holds(diff: map<Channel, Cell>, now: map<Channel, Cell>, last: map<Channel, Cell>) {
    && (forall ch :: ch in diff ==> ch in now && diff[ch] == now[ch])
    && (forall ch :: ch in now ==> (ch in diff <==> !(ch in last && last[ch] == now[ch])))
  }

  lemma LastOf(ms: seq<Message>, m: Message)
    ensures (ms + [m])[|ms|] == m && |ms + [m]| == |ms| + 1
  {
  }

  predicate HasFull(ms: seq<Message>) {
    exists i :: 0 <= i < |ms| && ms[i].Full?
  }

  lemma {:induction false} FullForgets(a: Io, b: Io, ms: seq<Message>)
    requires HasFull(ms)
    ensures View(a, ms) == View(b, ms)
  {
    var before, m := ms[..|ms| - 1], ms[|ms| - 1];
    if !m.Full? {
      var i :| 0 <= i < |ms| && ms[i].Full?;
      assert before[i].Full?;
      FullForgets(a, b, before);
    }
  }

  lemma {:induction false} ViewSum(start: Io, a: seq<Message>, b: seq<Message>)
    ensures View(start, a + b) == View(View(start, a), b)
  {
    if b == [] {
      assert a + b == a;
    } else {
      assert (a + b)[..|a + b| - 1] == a + b[..|b| - 1];
      ViewSum(start, a, b[..|b| - 1]);
    }
  }

  /** A client that joins late, with whatever it had, is right from the first full message on. */
  lemma LateClientCatchesUp(run: seq<Step>, start: Io, joined: nat, inputs: set<Channel>, outputs: set<Channel>)
    requires Possible(run, inputs, outputs) && joined <= |After(run).sent| && HasFull(After(run).sent[joined..])
    ensures LastPolled(run).Some? && View(start, After(run).sent[joined..]) == LastPolled(run).value
  {
    EveryRunKeepsInv(run, inputs, outputs);
    var sent := After(run).sent;
    FullForgets(start, View(NO_IO, sent[..joined]), sent[joined..]);
    ViewSum(NO_IO, sent[..joined], sent[joined..]);
    assert sent[..joined] + sent[joined..] == sent;
  }

  /** Before a step of a possible run the poller's queue is what was notified since the last reading. */
  lemma PossibleStep(run: seq<Step>, n: nat, inputs: set<Channel>, outputs: set<Channel>)
    requires Possible(run, inputs, outputs) && n < |run|
    ensures run[n].Poll? ==> After(run[..n]).queue != []
  {
    hide View, LastPolled, After;
    PossiblePrefix(run, n + 1, inputs, outputs);
    assert run[..n + 1][..n] == run[..n];
    PossiblePrefix(run, n, inputs, outputs);
    EveryRunKeepsInv(run[..n], inputs, outputs);
  }

  lemma {:induction false} PossiblePrefix(run: seq<Step>, n: nat, inputs: set<Channel>, outputs: set<Channel>)
    requires Possible(run, inputs, outputs) && n <= |run|
    ensures Possible(run[..n], inputs, outputs)
  {
    if n < |run| {
      PossiblePrefix(run[..|run| - 1], n, inputs, outputs);
      assert run[..|run| - 1][..n] == run[..n];
    } else {
      assert run[..n] == run;
    }
  }

  // ----- The program's own form -----

  class UserGpio {
    const notifier: AioNotifier
    var prev: Io
    var sent: seq<Message>

    constructor (notifier: AioNotifier)
      ensures this.notifier == notifier && prev == NO_IO && sent == []
    {
      this.notifier := notifier;
      prev, sent := NO_IO, [];
    }

    function Now(): State
      reads this, notifier
    {
      State(notifier.queue, prev, sent)
    }

    method TriggerState()
      modifies notifier
      ensures Now() == Do(old(Now()), Notify(1))
    {
      notifier.Notify(1);
    }

    /** One turn of the poll loop; the channels read `io`. */
    method PollOnce(io: Io)
      requires notifier.queue != []
      modifies this`prev, this`sent, notifier
      ensures Now() == Do(old(Now()), Poll(io))
    {
      var mask := notifier.Wait();
      if mask > 0 {
        prev := io;
        sent := sent + [Full(io)];
      } else {
        var inputs := Compare(io.inputs, prev.inputs);
        var outputs := Compare(io.outputs, prev.outputs);
        if inputs != map[] || outputs != map[] {
          prev := io;
          sent := sent + [Partial(Io(inputs, outputs))];
        }
      }
    }

    /** Drivers and callers notify, and the generator polls, in any order: a client that has read all
        messages holds the state last read. */
    method PollState(run: seq<Step>, ghost inputs: set<Channel>, ghost outputs: set<Channel>)
      requires Now() == INITIAL && Possible(run, inputs, outputs)
      modifies this`prev, this`sent, notifier
      ensures Now() == After(run)
      ensures LastPolled(run).Some? ==> View(NO_IO, sent) == LastPolled(run).value
    {
      hide View, LastPolled, Possible, Or, Diff;
      for i := 0 to |run|
        invariant Now() == After(run[..i])
      {
        PossibleStep(run, i, inputs, outputs);
        assert run[..i + 1][..i] == run[..i];
        match run[i]
        case Notify(mask) => if mask == 1 { TriggerState(); } else { notifier.Notify(mask); }
        case Poll(io) => PollOnce(io);
      }
      assert run[..|run|] == run;
      if LastPolled(run).Some? { ClientHoldsLastPolled(run, inputs, outputs); }
    }
  }

  /** The loop over the channels of one kind. */
  method Compare(now: map<Channel, Cell>, prev: map<Channel, Cell>) returns (diff: map<Channel, Cell>)
    ensures diff == Changes(now, prev)
  {
    diff := map[];
    var todo := now.Keys;
    while todo != {}
      invariant todo <= now.Keys
      invariant diff == map ch | ch in now && ch !in todo && !(ch in prev && prev[ch] == now[ch]) :: now[ch]
    {
      var ch :| ch in todo;
      todo := todo - {ch};
      if !(ch in prev && prev[ch] == now[ch]) {
        diff := diff[ch := now[ch]];
      }
    }
  }
}
