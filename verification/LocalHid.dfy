/** Events of a local keyboard or mouse: relative motion and wheel are gathered until the device
    reports, then queued in pieces that fit a byte; keys and buttons are queued at once. */
module LocalHid {
  const EV_SYN := 0
  const EV_KEY := 1
  const EV_REL := 2
  const REL_X := 0
  const REL_Y := 1
  const REL_HWHEEL := 6
  const REL_WHEEL := 8
  const STEP := 127

  /** An input event, and whether the device was grabbed when it was read. */
  datatype Input = Input(kind: int, code: int, value: int, grabbed: bool)

  /** What a device has: sync reports; and which codes are keys and which are buttons. */
  datatype Device = Device(hasSyn: bool, isKey: int -> bool, isButton: int -> bool)

  datatype Output =
    | Key(code: int, down: bool)
    | Button(code: int, down: bool)
    | Move(dx: int, dy: int)
    | Wheel(dx: int, dy: int)

  datatype State = State(moveX: int, moveY: int, wheelX: int, wheelY: int, queue: seq<Output>)

  const EMPTY := State(0, 0, 0, 0, [])

  function Abs(x: int): nat { if x < 0 then -x else x }

  function Min(a: int, b: int): int { if a < b then a else b }

  function Max(a: int, b: int): int { if a < b then b else a }

  // ----- Splitting -----

  /** The part of a distance that the piece numbered `k` carries. */
  function Piece(d: int, k: nat): int {
    (if d < 0 then -1 else 1) * Max(Min(Abs(d) - STEP * k, STEP), 0)
  }

  /** As many pieces as the longer distance needs. */
  function Pieces(dx: int, dy: int): nat {
    (Max(Abs(dx), Abs(dy)) + STEP - 1) / STEP
  }

  function Sum(d: int, n: nat): int {
    if n == 0 then 0 else Sum(d, n - 1) + Piece(d, n - 1)
  }

  lemma {:induction false} SumSofar(d: int, n: nat)
    ensures Sum(d, n) == (if d < 0 then -1 else 1) * Min(Abs(d), STEP * n)
  {
    if n > 0 { SumSofar(d, n - 1); }
  }

  /** The pieces make up the whole distance on both axes; each fits a signed byte, and none is empty; and
      there are no more of them than the longer axis needs. */
  lemma SplitConserves(dx: int, dy: int)
    ensures Sum(dx, Pieces(dx, dy)) == dx && Sum(dy, Pieces(dx, dy)) == dy
    ensures forall k :: 0 <= k < Pieces(dx, dy) ==>
      -127 <= Piece(dx, k) <= 127 && -127 <= Piece(dy, k) <= 127 && (Piece(dx, k) != 0 || Piece(dy, k) != 0)
    ensures var n := Pieces(dx, dy); -127 * n <= dx <= 127 * n && -127 * n <= dy <= 127 * n
    ensures var n := Pieces(dx, dy) - 1; n < 0 || dx < -127 * n || 127 * n < dx || dy < -127 * n || 127 * n < dy
  {
    var n := Pieces(dx, dy);
    assert STEP * n >= Max(Abs(dx), Abs(dy));
    SumSofar(dx, n);
    SumSofar(dy, n);
    forall k | 0 <= k < n ensures Piece(dx, k) != 0 || Piece(dy, k) != 0 {
      assert STEP * k <= STEP * (n - 1);
      assert STEP * (n - 1) < Max(Abs(dx), Abs(dy));
    }
  }

  function Split(dx: int, dy: int, n: nat): seq<(int, int)> {
    seq(n, k requires 0 <= k < n => (Piece(dx, k), Piece(dy, k)))
  }

  /** The loop; both counters go on below zero on the axis that is done first. */
  method SplittedDeltas(dx: int, dy: int) returns (r: seq<(int, int)>)
    ensures r == Split(dx, dy, Pieces(dx, dy))
  {
    var signX, signY := if dx < 0 then -1 else 1, if dy < 0 then -1 else 1;
    var x: int, y: int := Abs(dx), Abs(dy);
    r := [];
    ghost var n: nat := 0;
    while x > 0 || y > 0
      invariant x == Abs(dx) - STEP * n && y == Abs(dy) - STEP * n
      invariant n <= Pieces(dx, dy)
      invariant r == Split(dx, dy, n)
      decreases Max(x, y)
    {
      r := r + [(signX * Max(Min(x, STEP), 0), signY * Max(Min(y, STEP), 0))];
      x := x - STEP;
      y := y - STEP;
      n := n + 1;
    }
  }

  // ----- The code's step -----

  function Moves(xys: seq<(int, int)>): seq<Output> {
    seq(|xys|, i requires 0 <= i < |xys| => Move(xys[i].0, xys[i].1))
  }

  function Wheels(xys: seq<(int, int)>): seq<Output> {
    seq(|xys|, i requires 0 <= i < |xys| => Wheel(xys[i].0, xys[i].1))
  }

  function Gather(s: State, e: Input): State {
    if e.kind != EV_REL then s
    else if e.code == REL_X then s.(moveX := s.moveX + e.value)
    else if e.code == REL_Y then s.(moveY := s.moveY + e.value)
    else if e.code == REL_HWHEEL then s.(wheelX := s.wheelX + e.value)
    else if e.code == REL_WHEEL then s.(wheelY := s.wheelY + e.value)
    else s
  }

  function Flush(s: State): State {
    State(0, 0, 0, 0, s.queue + Moves(Split(s.moveX, s.moveY, Pieces(s.moveX, s.moveY)))
                              + Wheels(Split(s.wheelX, s.wheelY, Pieces(s.wheelX, s.wheelY))))
  }

  function Step(d: Device, s: State, e: Input): State {
    if !e.grabbed then
      if e.kind == EV_KEY && e.value != 2 && d.isKey(e.code)
      then s.(queue := s.queue + [Key(e.code, e.value != 0)]) else s
    else
      var s := Gather(s, e);
      if !d.hasSyn || e.kind == EV_SYN then Flush(s)
      else if e.kind == EV_KEY && e.value != 2 then
        if d.isKey(e.code) then s.(queue := s.queue + [Key(e.code, e.value != 0)])
        else if d.isButton(e.code) then s.(queue := s.queue + [Button(e.code, e.value != 0)])
        else s
      else s
  }

  function RunOf(d: Device, log: seq<Input>): State {
    if log == [] then EMPTY else Step(d, RunOf(d, log[..|log| - 1]), log[|log| - 1])
  }

  // ----- Reference, in the kernel's numbers (input-event-codes.h) -----

  /** Motion on axes 0 and 1, wheels on 6 and 8. */
  predicate IsAxis(axis: int) {
    axis == 0 || axis == 1 || axis == 6 || axis == 8
  }

  /** How far the device went on an axis while it was grabbed. */
  function Travel(log: seq<Input>, axis: int): int {
    if log == [] then 0
    else
      var e := log[|log| - 1];
      Travel(log[..|log| - 1], axis) + if e.grabbed && e.kind == 2 && e.code == axis then e.value else 0
  }

  function Carried(o: Output, axis: int): int {
    match o
    case Move(dx, dy) => if axis == 0 then dx else if axis == 1 then dy else 0
    case Wheel(dx, dy) => if axis == 6 then dx else if axis == 8 then dy else 0
    case _ => 0
  }

  function Total(queue: seq<Output>, axis: int): int {
    if queue == [] then 0 else Total(queue[..|queue| - 1], axis) + Carried(queue[|queue| - 1], axis)
  }

  function Pending(s: State, axis: int): int {
    if axis == 0 then s.moveX else if axis == 1 then s.moveY
    else if axis == 6 then s.wheelX else if axis == 8 then s.wheelY else 0
  }

  predicate Fits(o: Output) {
    match o
    case Move(dx, dy) => -127 <= dx <= 127 && -127 <= dy <= 127 && (dx != 0 || dy != 0)
    case Wheel(dx, dy) => -127 <= dx <= 127 && -127 <= dy <= 127 && (dx != 0 || dy != 0)
    case _ => true
  }

  predicate AllFit(queue: seq<Output>) {
    forall i :: 0 <= i < |queue| ==> Fits(queue[i])
  }

  /** The keys and buttons of a queue. */
  function Strokes(queue: seq<Output>): seq<Output> {
    if queue == [] then []
    else
      var o := queue[|queue| - 1];
      Strokes(queue[..|queue| - 1]) + if o.Key? || o.Button? then [o] else []
  }

  /** Key events are always relayed, for the hotkeys; while grabbed, only those of a device with sync
      reports, and then buttons too. Repeats never are. */
  function Relayed(d: Device, e: Input): seq<Output> {
    if e.kind != 1 || e.value == 2 || (e.grabbed && !d.hasSyn) then []
    else if d.isKey(e.code) then [Key(e.code, e.value != 0)]
    else if e.grabbed && d.isButton(e.code) then [Button(e.code, e.value != 0)]
    else []
  }

  function AllRelayed(d: Device, log: seq<Input>): seq<Output> {
    if log == [] then [] else AllRelayed(d, log[..|log| - 1]) + Relayed(d, log[|log| - 1])
  }

  // ----- Conservation -----

  lemma {:induction false} TotalSum(a: seq<Output>, b: seq<Output>, axis: int)
    ensures Total(a + b, axis) == Total(a, axis) + Total(b, axis)
    ensures Strokes(a + b) == Strokes(a) + Strokes(b)
  {
    if b == [] {
      assert a + b == a;
    } else {
      assert (a + b)[..|a + b| - 1] == a + b[..|b| - 1];
      TotalSum(a, b[..|b| - 1], axis);
    }
  }

  lemma Snoc(queue: seq<Output>, o: Output, axis: int)
    ensures Total(queue + [o], axis) == Total(queue, axis) + Carried(o, axis)
    ensures Strokes(queue + [o]) == Strokes(queue) + if o.Key? || o.Button? then [o] else []
  {
    assert (queue + [o])[..|queue|] == queue;
  }

  /** The pieces of a distance carry its partial sums, on the axes they are for and no other. */
  lemma {:induction false} MovesTotal(dx: int, dy: int, n: nat, axis: int)
    ensures var moves := Moves(Split(dx, dy, n));
      && Total(moves, axis) == (if axis == REL_X then Sum(dx, n) else if axis == REL_Y then Sum(dy, n) else 0)
      && Strokes(moves) == []
  {
    if n > 0 {
      MovesTotal(dx, dy, n - 1, axis);
      var before, o := Moves(Split(dx, dy, n - 1)), Move(Piece(dx, n - 1), Piece(dy, n - 1));
      assert Moves(Split(dx, dy, n)) == before + [o];
      Snoc(before, o, axis);
    }
  }

  lemma {:induction false} WheelsTotal(dx: int, dy: int, n: nat, axis: int)
    ensures var wheels := Wheels(Split(dx, dy, n));
      && Total(wheels, axis) == (if axis == REL_HWHEEL then Sum(dx, n) else if axis == REL_WHEEL then Sum(dy, n) else 0)
      && Strokes(wheels) == []
  {
    if n > 0 {
      WheelsTotal(dx, dy, n - 1, axis);
      var before, o := Wheels(Split(dx, dy, n - 1)), Wheel(Piece(dx, n - 1), Piece(dy, n - 1));
      assert Wheels(Split(dx, dy, n)) == before + [o];
      Snoc(before, o, axis);
    }
  }

  /** What a flush puts in the queue is what was pending, in as many pieces as the longer axis needs. */
  lemma FlushConserves(s: State, axis: int)
    requires IsAxis(axis) && AllFit(s.queue)
    ensures Total(Flush(s).queue, axis) == Total(s.queue, axis) + Pending(s, axis) && Pending(Flush(s), axis) == 0
    ensures Strokes(Flush(s).queue) == Strokes(s.queue)
    ensures AllFit(Flush(s).queue)
    ensures |Flush(s).queue| == |s.queue| + Pieces(s.moveX, s.moveY) + Pieces(s.wheelX, s.wheelY)
  {
    var n, m := Pieces(s.moveX, s.moveY), Pieces(s.wheelX, s.wheelY);
    var moves, wheels := Moves(Split(s.moveX, s.moveY, n)), Wheels(Split(s.wheelX, s.wheelY, m));
    SplitConserves(s.moveX, s.moveY);
    SplitConserves(s.wheelX, s.wheelY);
    MovesTotal(s.moveX, s.moveY, n, axis);
    WheelsTotal(s.wheelX, s.wheelY, m, axis);
    TotalSum(s.queue, moves, axis);
    TotalSum(s.queue + moves, wheels, axis);
    hide Total, Strokes, Sum, Pieces, Piece;
  }

  /** The queue and what is pending, together, are the travel; every piece fits; keys are relayed. */
  ghost predicate Conserved(d: Device, s: State, log: seq<Input>) {
    && (forall axis :: IsAxis(axis) ==> Total(s.queue, axis) + Pending(s, axis) == Travel(log, axis))
    && AllFit(s.queue)
    && Strokes(s.queue) == AllRelayed(d, log)
  }

  lemma LogSnoc(d: Device, log: seq<Input>, e: Input, axis: int)
    ensures Travel(log + [e], axis) ==
      Travel(log, axis) + if e.grabbed && e.kind == EV_REL && e.code == axis then e.value else 0
    ensures AllRelayed(d, log + [e]) == AllRelayed(d, log) + Relayed(d, e)
  {
    assert (log + [e])[..|log|] == log;
  }

  lemma StepConserves(d: Device, s: State, log: seq<Input>, e: Input, axis: int)
    requires Conserved(d, s, log) && IsAxis(axis)
    ensures var t := Step(d, s, e);
      && Total(t.queue, axis) + Pending(t, axis) == Travel(log + [e], axis)
      && AllFit(t.queue) && Strokes(t.queue) == AllRelayed(d, log + [e])
  {
    hide Total, Strokes, Travel, AllRelayed, Flush, AllFit;
    LogSnoc(d, log, e, axis);
    var t := Gather(s, e);
    assert t.queue == s.queue;
    assert Pending(t, axis) == Pending(s, axis) + if e.kind == EV_REL && e.code == axis then e.value else 0;
    assert AllRelayed(d, log) + [] == AllRelayed(d, log);
    FlushConserves(t, axis);
    KeySnoc(s.queue, Key(e.code, e.value != 0), axis);
    KeySnoc(s.queue, Button(e.code, e.value != 0), axis);
  }

  lemma KeySnoc(queue: seq<Output>, o: Output, axis: int)
    requires AllFit(queue) && (o.Key? || o.Button?)
    ensures Total(queue + [o], axis) == Total(queue, axis) && Strokes(queue + [o]) == Strokes(queue) + [o]
    ensures AllFit(queue + [o])
  {
    Snoc(queue, o, axis);
  }

  /** Over every stream of events nothing of the motion is lost or made up, and keys come through as
      they should. */
  lemma {:induction false} EveryStreamConserves(d: Device, log: seq<Input>)
    ensures Conserved(d, RunOf(d, log), log)
  {
    if log != [] {
      var before, e := log[..|log| - 1], log[|log| - 1];
      EveryStreamConserves(d, before);
      assert before + [e] == log;
      forall axis | IsAxis(axis)
        ensures Total(RunOf(d, log).queue, axis) + Pending(RunOf(d, log), axis) == Travel(log, axis)
      {
        StepConserves(d, RunOf(d, before), before, e, axis);
      }
      StepConserves(d, RunOf(d, before), before, e, REL_X);
    }
  }

  /** After a report of a grabbed device all of the travel so far is in the queue. */
  lemma ReportedMeansQueued(d: Device, log: seq<Input>, axis: int)
    requires log != [] && IsAxis(axis)
    requires var e := log[|log| - 1]; e.grabbed && (e.kind == 0 || !d.hasSyn)
    ensures Total(RunOf(d, log).queue, axis) == Travel(log, axis)
  {
    EveryStreamConserves(d, log);
  }

  /** What a device relays of an event if it has sync reports. */
  function Wanted(d: Device, e: Input): seq<Output> {
    Relayed(d.(hasSyn := true), e)
  }

  function AllWanted(d: Device, log: seq<Input>): seq<Output> {
    AllRelayed(d.(hasSyn := true), log)
  }

  /** No key or button event that should be relayed comes while the device is grabbed. */
  predicate NoneWantedWhileGrabbed(d: Device, log: seq<Input>) {
    forall i :: 0 <= i < |log| ==> log[i].grabbed ==> Wanted(d, log[i]) == []
  }

  lemma {:induction false} RelayedIsWanted(d: Device, log: seq<Input>)
    ensures |AllRelayed(d, log)| <= |AllWanted(d, log)|
    ensures d.hasSyn || NoneWantedWhileGrabbed(d, log) ==> AllRelayed(d, log) == AllWanted(d, log)
    ensures !d.hasSyn && !NoneWantedWhileGrabbed(d, log) ==> |AllRelayed(d, log)| < |AllWanted(d, log)|
  {
    if d.hasSyn {
      assert d.(hasSyn := true) == d;
    } else if log != [] {
      var before, e := log[..|log| - 1], log[|log| - 1];
      RelayedIsWanted(d, before);
      assert before + [e] == log;
      assert NoneWantedWhileGrabbed(d, log) <==>
        NoneWantedWhileGrabbed(d, before) && (e.grabbed ==> Wanted(d, e) == []);
    }
  }

  /** Every key and button that should come through does, if and only if the device has sync reports or
      none of them comes while it is grabbed. */
  lemma KeysComeThroughIff(d: Device, log: seq<Input>)
    ensures Strokes(RunOf(d, log).queue) == AllWanted(d, log) <==> d.hasSyn || NoneWantedWhileGrabbed(d, log)
  {
    EveryStreamConserves(d, log);
    RelayedIsWanted(d, log);
    hide Strokes, AllRelayed, RunOf, NoneWantedWhileGrabbed, AllWanted;
  }

  // ----- The program's own form -----

  class Hid {
    const device: Device
    var grabbed: bool
    var moveX: int
    var moveY: int
    var wheelX: int
    var wheelY: int
    var queue: seq<Output>

    constructor (device: Device)
      ensures this.device == device && View() == EMPTY && !grabbed
    {
      this.device := device;
      grabbed := false;
      moveX, moveY, wheelX, wheelY, queue := 0, 0, 0, 0, [];
    }

    function View(): State
      reads this
    {
      State(moveX, moveY, wheelX, wheelY, queue)
    }

    method SetGrabbed(grabbed: bool)
      modifies this`grabbed
      ensures this.grabbed == grabbed
    {
      if this.grabbed != grabbed {
        this.grabbed := grabbed;
      }
    }

    method Put(o: Output)
      modifies this`queue
      ensures queue == old(queue) + [o]
    {
      queue := queue + [o];
    }

    method FlushMove()
      modifies this`queue, this`moveX, this`moveY
      ensures moveX == moveY == 0
      ensures queue == old(queue) + Moves(Split(old(moveX), old(moveY), Pieces(old(moveX), old(moveY))))
    {
      if moveX != 0 || moveY != 0 {
        var xys := SplittedDeltas(moveX, moveY);
        for i := 0 to |xys|
          invariant queue == old(queue) + Moves(xys[..i])
          invariant moveX == old(moveX) && moveY == old(moveY)
        {
          Put(Move(xys[i].0, xys[i].1));
          assert Moves(xys[..i + 1]) == Moves(xys[..i]) + [Move(xys[i].0, xys[i].1)];
        }
        assert xys[..|xys|] == xys;
        moveX, moveY := 0, 0;
      }
    }

    method FlushWheel()
      modifies this`queue, this`wheelX, this`wheelY
      ensures wheelX == wheelY == 0
      ensures queue == old(queue) + Wheels(Split(old(wheelX), old(wheelY), Pieces(old(wheelX), old(wheelY))))
    {
      if wheelX != 0 || wheelY != 0 {
        var xys := SplittedDeltas(wheelX, wheelY);
        for i := 0 to |xys|
          invariant queue == old(queue) + Wheels(xys[..i])
          invariant wheelX == old(wheelX) && wheelY == old(wheelY)
        {
          Put(Wheel(xys[i].0, xys[i].1));
          assert Wheels(xys[..i + 1]) == Wheels(xys[..i]) + [Wheel(xys[i].0, xys[i].1)];
        }
        assert xys[..|xys|] == xys;
        wheelX, wheelY := 0, 0;
      }
    }

    /** One turn of the read loop. */
    method OnEvent(kind: int, code: int, value: int)
      modifies this`queue, this`moveX, this`moveY, this`wheelX, this`wheelY
      ensures View() == Step(device, old(View()), Input(kind, code, value, grabbed))
    {
      hide Moves, Wheels, Split, Pieces;
      if !grabbed {
        if kind == EV_KEY && value != 2 && device.isKey(code) {
          Put(Key(code, value != 0));
        }
        return;
      }
      if kind == EV_REL {
        if code == REL_X {
          moveX := moveX + value;
        } else if code == REL_Y {
          moveY := moveY + value;
        } else if code == REL_HWHEEL {
          wheelX := wheelX + value;
        } else if code == REL_WHEEL {
          wheelY := wheelY + value;
        }
      }
      if !device.hasSyn || kind == EV_SYN {
        FlushMove();
        FlushWheel();
      } else if kind == EV_KEY && value != 2 {
        if device.isKey(code) {
          Put(Key(code, value != 0));
        } else if device.isButton(code) {
          Put(Button(code, value != 0));
        }
      }
    }

    /** The read loop of a fresh device. Between two events it may be grabbed or released. */
    method PollToQueue(log: seq<Input>)
      requires View() == EMPTY
      modifies this`grabbed, this`queue, this`moveX, this`moveY, this`wheelX, this`wheelY
      ensures View() == RunOf(device, log)
      ensures forall axis :: IsAxis(axis) ==>
        Total(queue, axis) + Pending(View(), axis) == Travel(log, axis)
      ensures Strokes(queue) == AllRelayed(device, log)
    {
      hide Step, Travel, Total, Strokes, AllRelayed;
      for i := 0 to |log|
        invariant View() == RunOf(device, log[..i])
      {
        SetGrabbed(log[i].grabbed);
        OnEvent(log[i].kind, log[i].code, log[i].value);
        assert log[..i + 1][..i] == log[..i];
      }
      assert log[..|log|] == log;
      EveryStreamConserves(device, log);
    }
  }
}
