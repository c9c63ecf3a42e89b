/** The controller of the network block device. Any number of callers bind images while one poller
    turns the life of each bound process into events; each stretch of code between two suspensions
    is one step, and the steps may come in any order. */
module NbdController {
  import opened Wrappers

  type Image = string

  /** A process carries its binding's identifier and image. */
  datatype Proc = Proc(id: string, image: Image)

  datatype Stop = Stop(source: string, reason: string, normal: bool)

  /** What a process reports. */
  datatype Report = Running(online: bool, text: string) | Stopped(stop: Stop)

  datatype Event = Starting(id: string, image: Image) | Progress(report: Report)

  /** The binding shown to clients with each event. */
  datatype Binding = Binding(id: string, image: Image, stage: string, last: Option<Report>)

  datatype Emitted = Emitted(event: Event, binding: Binding)

  const UNKNOWN := Stop("main", "Unknown stop reason", false)

  datatype Poller = Waiting | Serving(stop: Option<Stop>) | Disconnecting(stop: Option<Stop>)

  datatype State = State(proc: Option<Proc>, queue: nat, locked: bool, poller: Poller,
                         binding: Option<Binding>, emitted: seq<Emitted>, asserts: bool)

  const INITIAL := State(None, 0, false, Waiting, None, [], true)

  datatype Step =
    | BindEnter              // the lock is taken and the device found free, or an error is raised
    | BindFail               // the remote could not be resolved; the lock is released
    | BindDone(proc: Proc)   // notified, the process set, the lock released
    | Wake                   // the poller was notified
    | Told(report: Report)   // the process reported something
    | Ended                  // the process is gone
    | Disconnected           // the device was disconnected after it

  predicate Enabled(s: State, e: Step) {
    match e
    case BindEnter => !s.locked && s.proc.None?
    case BindFail => s.locked
    case BindDone(_) => s.locked
    case Wake => s.poller.Waiting? && s.queue > 0
    case Told(_) => s.poller.Serving?
    case Ended => s.poller.Serving?
    case Disconnected => s.poller.Disconnecting?
  }

  function Emit(s: State, event: Event, binding: Binding): State {
    s.(binding := Some(binding), emitted := s.emitted + [Emitted(event, binding)])
  }

  /** Running and stopped need a binding to speak of. */
  function EmitProgress(s: State, report: Report): State {
    if s.binding.None? then s.(asserts := false)
    else
      var stage := if report.Running? then "running" else "stopped";
      Emit(s, Progress(report), s.binding.value.(stage := stage, last := Some(report)))
  }

  function Do(s: State, e: Step): State {
    match e
    case BindEnter => s.(locked := true)
    case BindFail => s.(locked := false)
    case BindDone(p) => s.(locked := false, queue := s.queue + 1, proc := Some(p), asserts := s.asserts && s.proc.None?)
    case Wake =>
      var s := s.(queue := 0);
      if s.proc.None? then s
      else
        var p := s.proc.value;
        Emit(s.(poller := Serving(None)), Starting(p.id, p.image), Binding(p.id, p.image, "starting", None))
    case Told(Running(online, text)) => EmitProgress(s, Running(online, text))
    case Told(Stopped(stop)) =>
      if s.poller.Serving? && s.poller.stop.None? then s.(poller := Serving(Some(stop))) else s
    case Ended => if s.poller.Serving? then s.(proc := None, poller := Disconnecting(s.poller.stop)) else s
    case Disconnected =>
      if s.poller.Disconnecting? then
        EmitProgress(s.(poller := Waiting), Stopped(if s.poller.stop.Some? then s.poller.stop.value else UNKNOWN))
      else s
  }

  predicate Possible(run: seq<Step>) {
    run == [] || (Possible(run[..|run| - 1]) && Enabled(After(run[..|run| - 1]), run[|run| - 1]))
  }

  function After(run: seq<Step>): State {
    if run == [] then INITIAL else Do(After(run[..|run| - 1]), run[|run| - 1])
  }

  // ----- Reference: what the binds and the reports of a run should show -----

  function Bound(run: seq<Step>): seq<Proc> {
    if run == [] then []
    else
      var e := run[|run| - 1];
      Bound(run[..|run| - 1]) + if e.BindDone? then [e.proc] else []
  }

  /** The reports of each process served, in the order they were picked up. */
  function Served(run: seq<Step>): seq<seq<Report>> {
    if run == [] then []
    else
      var e, before := run[|run| - 1], Served(run[..|run| - 1]);
      if e.Wake? then before + [[]]
      else if e.Told? && before != [] then before[|before| - 1 := before[|before| - 1] + [e.report]]
      else before
  }

  function Finished(run: seq<Step>): nat {
    if run == [] then 0 else Finished(run[..|run| - 1]) + if run[|run| - 1].Disconnected? then 1 else 0
  }

  function Shown(p: Proc, reports: seq<Report>): seq<Emitted> {
    if reports == [] then [Emitted(Starting(p.id, p.image), Binding(p.id, p.image, "starting", None))]
    else
      var r := reports[|reports| - 1];
      Shown(p, reports[..|reports| - 1]) +
      if r.Running? then [Emitted(Progress(r), Binding(p.id, p.image, "running", Some(r)))] else []
  }

  function FirstStop(reports: seq<Report>): Option<Stop> {
    if reports == [] then None
    else if FirstStop(reports[..|reports| - 1]).Some? then FirstStop(reports[..|reports| - 1])
    else if reports[|reports| - 1].Stopped? then Some(reports[|reports| - 1].stop) else None
  }

  function End(p: Proc, reports: seq<Report>): Emitted {
    var unknown := Stop("main", "Unknown stop reason", false);
    var r := Stopped(if FirstStop(reports).Some? then FirstStop(reports).value else unknown);
    Emitted(Progress(r), Binding(p.id, p.image, "stopped", Some(r)))
  }

  /** The events of the first processes: each starting, running any number of times, and, if it is
      one of the finished, stopped. */
  function Story(bound: seq<Proc>, served: seq<seq<Report>>, finished: nat): seq<Emitted>
    requires |served| <= |bound|
  {
    if served == [] then []
    else
      var n := |served| - 1;
      Story(bound, served[..n], finished) + Shown(bound[n], served[n]) +
      if n < finished then [End(bound[n], served[n])] else []
  }

  // ----- The invariant -----

  predicate Consistent(s: State, bound: seq<Proc>, served: seq<seq<Report>>, finished: nat) {
    && s.asserts
    && finished <= |served| <= |bound| <= |served| + 1
    && s.emitted == Story(bound, served, finished)
    && s.queue == |bound| - |served|
    && (s.locked ==> s.proc.None?)
    && (s.poller.Waiting? <==> finished == |served|)
    && (!s.poller.Waiting? ==> finished + 1 == |served|)
    && (s.queue == 1 ==> s.proc == Some(bound[|served|]) && !s.poller.Serving?)
    && (s.queue == 0 ==> (s.proc.Some? <==> s.poller.Serving?))
    && (s.poller.Serving? ==> s.proc == Some(bound[|served| - 1]))
    && (!s.poller.Waiting? ==>
          && s.poller.stop == FirstStop(served[|served| - 1])
          && s.binding.Some? && s.binding.value.id == bound[|served| - 1].id
          && s.binding.value.image == bound[|served| - 1].image)
  }

  predicate Inv(run: seq<Step>) {
    Consistent(After(run), Bound(run), Served(run), Finished(run))
  }

  lemma Snoc(run: seq<Step>, e: Step)
    ensures After(run + [e]) == Do(After(run), e)
    ensures Bound(run + [e]) == Bound(run) + if e.BindDone? then [e.proc] else []
    ensures Finished(run + [e]) == Finished(run) + if e.Disconnected? then 1 else 0
    ensures Served(run + [e]) ==
      if e.Wake? then Served(run) + [[]]
      else if e.Told? && Served(run) != [] then
        Served(run)[|Served(run)| - 1 := Served(run)[|Served(run)| - 1] + [e.report]]
      else Served(run)
  {
    assert (run + [e])[..|run|] == run;
  }

  lemma {:induction false} StoryOfMoreBinds(bound: seq<Proc>, more: seq<Proc>, served: seq<seq<Report>>, finished: nat)
    requires |served| <= |bound|
    ensures Story(bound + more, served, finished) == Story(bound, served, finished)
  {
    if served != [] {
      StoryOfMoreBinds(bound, more, served[..|served| - 1], finished);
    }
  }

  /** What is already finished does not change when the last process ends. */
  lemma {:induction false} StoryOfFinished(bound: seq<Proc>, served: seq<seq<Report>>, finished: nat, more: nat)
    requires |served| <= |bound| && |served| <= finished <= more
    ensures Story(bound, served, finished) == Story(bound, served, more)
  {
    if served != [] {
      StoryOfFinished(bound, served[..|served| - 1], finished, more);
    }
  }

  lemma StoryOfWake(bound: seq<Proc>, served: seq<seq<Report>>, finished: nat)
    requires |served| < |bound| && finished <= |served|
    ensures Story(bound, served + [[]], finished) == Story(bound, served, finished) + Shown(bound[|served|], [])
  {
    assert (served + [[]])[..|served|] == served;
  }

  lemma StoryOfTold(bound: seq<Proc>, served: seq<seq<Report>>, finished: nat, r: Report)
    requires 0 < |served| <= |bound| && finished < |served|
    ensures var n := |served| - 1;
      Story(bound, served[n := served[n] + [r]], finished) == Story(bound, served, finished) +
        if r.Running? then [Emitted(Progress(r), Binding(bound[n].id, bound[n].image, "running", Some(r)))] else []
  {
    var n := |served| - 1;
    var next := served[n := served[n] + [r]];
    assert next[..n] == served[..n];
    assert next[n][..|served[n]|] == served[n];
  }

  lemma StoryOfEnd(bound: seq<Proc>, served: seq<seq<Report>>, finished: nat)
    requires 0 < |served| <= |bound| && finished == |served| - 1
    ensures Story(bound, served, finished + 1)
         == Story(bound, served, finished) + [End(bound[finished], served[finished])]
  {
    StoryOfFinished(bound, served[..finished], finished, finished + 1);
  }

  lemma BindKeeps(s: State, bound: seq<Proc>, served: seq<seq<Report>>, finished: nat, e: Step)
    requires Consistent(s, bound, served, finished) && Enabled(s, e) && (e.BindEnter? || e.BindFail? || e.BindDone?)
    ensures Consistent(Do(s, e), bound + if e.BindDone? then [e.proc] else [], served, finished)
  {
    hide Story, FirstStop;
    if e.BindDone? {
      StoryOfMoreBinds(bound, [e.proc], served, finished);
    } else {
      assert bound + [] == bound;
    }
  }

  lemma WakeKeeps(s: State, bound: seq<Proc>, served: seq<seq<Report>>, finished: nat)
    requires Consistent(s, bound, served, finished) && Enabled(s, Wake)
    ensures Consistent(Do(s, Wake), bound, served + [[]], finished)
  {
    hide Story;
    StoryOfWake(bound, served, finished);
  }

  lemma ToldKeeps(s: State, bound: seq<Proc>, served: seq<seq<Report>>, finished: nat, r: Report)
    requires Consistent(s, bound, served, finished) && Enabled(s, Told(r))
    ensures served != []
    ensures Consistent(Do(s, Told(r)), bound, served[|served| - 1 := served[|served| - 1] + [r]], finished)
  {
    hide Story;
    var last := served[|served| - 1];
    StoryOfTold(bound, served, finished, r);
    assert (last + [r])[..|last|] == last;
  }

  lemma EndKeeps(s: State, bound: seq<Proc>, served: seq<seq<Report>>, finished: nat, e: Step)
    requires Consistent(s, bound, served, finished) && Enabled(s, e) && (e.Ended? || e.Disconnected?)
    ensures Consistent(Do(s, e), bound, served, finished + if e.Disconnected? then 1 else 0)
  {
    hide Story, FirstStop;
    if e.Disconnected? { StoryOfEnd(bound, served, finished); }
  }

  /** Every step, of whoever's, keeps the controller consistent with what was bound and reported. */
  lemma StepKeepsInv(run: seq<Step>, e: Step)
    requires Inv(run) && Enabled(After(run), e)
    ensures Inv(run + [e])
  {
    hide Consistent, Do;
    var s, bound, served, finished := After(run), Bound(run), Served(run), Finished(run);
    Snoc(run, e);
    assert bound + [] == bound;
    match e
    case Wake => WakeKeeps(s, bound, served, finished);
    case Told(r) => ToldKeeps(s, bound, served, finished, r);
    case Ended => EndKeeps(s, bound, served, finished, e);
    case Disconnected => EndKeeps(s, bound, served, finished, e);
    case _ => BindKeeps(s, bound, served, finished, e);
  }

  /** In every interleaving: the events are the stories of the processes in the order they were bound,
      a notification is queued exactly while a bound process is not picked up, and no assertion of
      the program fails. */
  lemma {:induction false} EveryInterleaving(run: seq<Step>)
    requires Possible(run)
    ensures Inv(run)
  {
    if run != [] {
      var before := run[..|run| - 1];
      EveryInterleaving(before);
      StepKeepsInv(before, run[|run| - 1]);
      assert before + [run[|run| - 1]] == run;
    }
  }

  // ----- When a bind may enter -----

  /** The last step of a bind was that one entered. */
  predicate BindIsGoing(run: seq<Step>) {
    if run == [] then false
    else
      var e := run[|run| - 1];
      e.BindEnter? || (!e.BindFail? && !e.BindDone? && BindIsGoing(run[..|run| - 1]))
  }

  /** A process was bound and has not ended since. */
  predicate ProcIsThere(run: seq<Step>) {
    if run == [] then false
    else
      var e := run[|run| - 1];
      e.BindDone? || (!e.Ended? && ProcIsThere(run[..|run| - 1]))
  }

  /** In every interleaving: the lock is held exactly while a bind is going on, and a process is known
      exactly from its bind to its end. */
  lemma {:induction false} LockAndProcFollow(run: seq<Step>)
    requires Possible(run)
    ensures After(run).locked <==> BindIsGoing(run)
    ensures After(run).proc.Some? <==> ProcIsThere(run)
  {
    hide Do;
    if run != [] {
      var before, e := run[..|run| - 1], run[|run| - 1];
      LockAndProcFollow(before);
      LockAndProcAfter(After(before), e);
    }
  }

  lemma LockAndProcAfter(s: State, e: Step)
    requires Enabled(s, e)
    ensures Do(s, e).locked <==> e.BindEnter? || (!e.BindFail? && !e.BindDone? && s.locked)
    ensures Do(s, e).proc.Some? <==> e.BindDone? || (!e.Ended? && s.proc.Some?)
  {
  }

  /** Nothing gets stuck: a bind that goes on can be finished either way, and the poller has a step to
      make unless it waits with every process bound started and stopped. */
  lemma SomethingIsPossible(run: seq<Step>, p: Proc)
    requires Possible(run)
    ensures BindIsGoing(run) ==> Enabled(After(run), BindFail) && Enabled(After(run), BindDone(p))
    ensures Finished(run) < |Bound(run)| ==>
      var s := After(run); Enabled(s, Wake) || Enabled(s, Ended) || Enabled(s, Disconnected)
  {
    LockAndProcFollow(run);
    EveryInterleaving(run);
  }

  /** So a bind can enter if and only if no other is going on and no process is bound; and a failed bind
      leaves nothing behind that would keep the next one out. */
  lemma BindMayEnterIff(run: seq<Step>)
    requires Possible(run)
    ensures Enabled(After(run), BindEnter) <==> !BindIsGoing(run) && !ProcIsThere(run)
    ensures Enabled(After(run), BindFail) ==>
      Possible(run + [BindFail]) && Enabled(After(run + [BindFail]), BindEnter)
  {
    LockAndProcFollow(run);
    EveryInterleaving(run);
    Snoc(run, BindFail);
    assert (run + [BindFail])[..|run|] == run;
  }

  // ----- Consequences read off the events alone -----

  function Starts(es: seq<Emitted>): seq<Proc> {
    if es == [] then []
    else
      var e := es[|es| - 1].event;
      Starts(es[..|es| - 1]) + if e.Starting? then [Proc(e.id, e.image)] else []
  }

  lemma {:induction false} StartsOfSum(a: seq<Emitted>, b: seq<Emitted>)
    ensures Starts(a + b) == Starts(a) + Starts(b)
  {
    if b == [] {
      assert a + b == a;
    } else {
      assert (a + b)[..|a + b| - 1] == a + b[..|b| - 1];
      StartsOfSum(a, b[..|b| - 1]);
    }
  }

  lemma {:induction false} StartsOfShown(p: Proc, reports: seq<Report>)
    ensures Starts(Shown(p, reports)) == [p]
  {
    if reports != [] {
      var before := Shown(p, reports[..|reports| - 1]);
      StartsOfShown(p, reports[..|reports| - 1]);
      StartsOfSum(before, Shown(p, reports)[|before|..]);
    }
  }

  lemma StartsOfEnd(p: Proc, reports: seq<Report>)
    ensures Starts([End(p, reports)]) == []
  {
    assert [End(p, reports)][..0] == [];
  }

  lemma StartsOfLast(before: seq<Emitted>, p: Proc, reports: seq<Report>, ended: bool)
    ensures Starts(before + Shown(p, reports) + if ended then [End(p, reports)] else []) == Starts(before) + [p]
  {
    hide Starts, Shown, End;
    var shown := Shown(p, reports);
    StartsOfShown(p, reports);
    StartsOfSum(before, shown);
    if ended {
      StartsOfEnd(p, reports);
      StartsOfSum(before + shown, [End(p, reports)]);
    } else {
      assert before + shown + [] == before + shown;
    }
  }

  lemma {:induction false} StartsOfStory(bound: seq<Proc>, served: seq<seq<Report>>, finished: nat)
    requires |served| <= |bound|
    ensures Starts(Story(bound, served, finished)) == bound[..|served|]
  {
    hide Starts, Shown, End;
    if served != [] {
      var n := |served| - 1;
      StartsOfStory(bound, served[..n], finished);
      StartsOfLast(Story(bound, served[..n], finished), bound[n], served[n], n < finished);
      assert bound[..n] + [bound[n]] == bound[..|served|];
    } else {
      StartsOfNothing();
    }
  }

  lemma StartsOfNothing()
    ensures Starts([]) == []
  {
  }

  /** Each successful bind is announced once, in bind order; a notification is waiting exactly when
      the last one is not announced yet. */
  lemma BindsAreAnnouncedInOrder(run: seq<Step>)
    requires Possible(run)
    ensures var starts, s := Starts(After(run).emitted), After(run);
      && starts <= Bound(run) && |Bound(run)| == |starts| + s.queue && s.queue <= 1
      && s.asserts
  {
    EveryInterleaving(run);
    StartsOfStory(Bound(run), Served(run), Finished(run));
  }

  /** With no bind, report or disconnection outstanding the story is complete: all processes bound
      have been started and stopped. */
  lemma QuietMeansComplete(run: seq<Step>)
    requires Possible(run) && After(run).poller.Waiting? && After(run).queue == 0
    ensures After(run).proc.None? && |Served(run)| == |Bound(run)|
    ensures After(run).emitted == Story(Bound(run), Served(run), |Bound(run)|)
  {
    EveryInterleaving(run);
  }

  // ----- The program's own form -----

  class Controller {
    var proc: Option<Proc>
    var queue: nat
    var locked: bool
    var poller: Poller
    var binding: Option<Binding>
    var emitted: seq<Emitted>
    var asserts: bool

    constructor ()
      ensures View() == INITIAL
    {
      proc, queue, locked, poller, binding, emitted, asserts := None, 0, false, Waiting, None, [], true;
    }

    function View(): State
      reads this
    {
      State(proc, queue, locked, poller, binding, emitted, asserts)
    }

    /** A bind up to its first suspension, once it has the lock. */
    method BindEnter(ready: bool) returns (r: Result<(), string>)
      requires !locked
      modifies this
      ensures r.Ok? <==> ready && Enabled(old(View()), Step.BindEnter)
      ensures View() == if r.Ok? then Do(old(View()), Step.BindEnter) else old(View())
    {
      locked := true;
      if !ready {
        locked := false;
        return Err("The device is not ready");
      }
      if proc.Some? {
        locked := false;
        return Err("NBD is already bound");
      }
      return Ok(());
    }

    /** The rest of a bind, once its remote is resolved or has failed. */
    method BindFinish(resolved: Option<Proc>) returns (r: Result<Proc, string>)
      requires locked
      modifies this
      ensures View() == Do(old(View()), if resolved.Some? then BindDone(resolved.value) else BindFail)
      ensures r.Ok? <==> resolved.Some?
      ensures r.Ok? ==> r.value == resolved.value
    {
      if resolved.None? {
        locked := false;
        return Err("The remote failed");
      }
      if proc.Some? { asserts := false; }
      queue := queue + 1;
      proc := resolved;
      locked := false;
      return Ok(resolved.value);
    }

    /** The poller's turn after a notification: all queued ones are taken at once. */
    method Wake()
      requires Enabled(View(), Step.Wake)
      modifies this
      ensures View() == Do(old(View()), Step.Wake)
    {
      queue := queue - 1;
      while queue > 0
        invariant View() == old(View()).(queue := queue)
      {
        queue := queue - 1;
      }
      if proc.Some? {
        poller := Serving(None);
        binding := Some(Binding(proc.value.id, proc.value.image, "starting", None));
        emitted := emitted + [Emitted(Starting(proc.value.id, proc.value.image), binding.value)];
      }
    }

    method Yield(report: Report)
      modifies this`asserts, this`binding, this`emitted
      ensures View() == EmitProgress(old(View()), report)
    {
      if binding.None? {
        asserts := false;
      } else {
        var stage := if report.Running? then "running" else "stopped";
        binding := Some(Binding(binding.value.id, binding.value.image, stage, Some(report)));
        emitted := emitted + [Emitted(Progress(report), binding.value)];
      }
    }

    method OnReport(report: Report)
      requires poller.Serving?
      modifies this
      ensures View() == Do(old(View()), Told(report))
    {
      if report.Stopped? {
        if poller.stop.None? {
          poller := Serving(Some(report.stop));
        }
      } else {
        Yield(report);
      }
    }

    method OnEnd()
      requires poller.Serving?
      modifies this
      ensures View() == Do(old(View()), Ended)
    {
      proc := None;
      poller := Disconnecting(poller.stop);
    }

    method OnDisconnected()
      requires poller.Disconnecting?
      modifies this
      ensures View() == Do(old(View()), Disconnected)
    {
      var stop := poller.stop;
      if stop.None? {
        stop := Some(UNKNOWN);
      }
      poller := Waiting;
      Yield(Stopped(stop.value));
    }
  }
}
