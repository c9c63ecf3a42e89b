/** The host's side of the HID protocol: a request is sent until it is acknowledged, over a line that
    may lose or damage anything, to a device that may reboot. When is it performed exactly once? */
module HidHost {
  import opened Bits
  import opened Crc16
  import opened HidProtocol

  // ----- The line -----

  /** What becomes of the eight bytes of a request: lost, delivered, damaged, or in part only, which the
      device gives up after a while. */
  datatype Arrival = Lost | Whole | Damaged(frame: Frame) | Partial

  /** What becomes of the response, if there is one; noise may be read even if there is none. */
  datatype Fate = Missing | Garbled(bytes: seq<Byte>) | Delivered

  /** One attempt: whether the device has power before it, and once more if the host gives up here,
      whether it has rebooted since the last attempt, and what the line does. */
  datatype Trip = Trip(powered: bool, stillPowered: bool, rebooted: bool, arrival: Arrival, fate: Fate,
                       status: Status)

  predicate CheckResponse(resp: seq<Byte>)
    requires |resp| >= 2
  {
    var n := |resp| - 2;
    Crc(resp[..n]) == Merge8(resp[n], resp[n + 1])
  }

  /** The checksums notice the damage of this trip. */
  predicate Noticed(t: Trip) {
    && (t.arrival.Damaged? ==> !Intact(t.arrival.frame))
    && (t.fate.Garbled? ==> |t.fate.bytes| in {4, 8} && !CheckResponse(t.fate.bytes))
  }

  ghost predicate AllNoticed(trips: nat -> Trip) {
    forall i :: Noticed(trips(i))
  }

  /** The device: its inputs since it was switched on, and all effects it has ever had. */
  datatype Device = Device(seen: seq<Input>, performed: seq<Effect>)

  function Arrives(req: Frame, a: Arrival): seq<Input> {
    match a
    case Lost => []
    case Whole => [Request(req)]
    case Damaged(f) => [Request(f)]
    case Partial => [Timeout]
  }

  function SeenBefore(d: Device, t: Trip): seq<Input> {
    if t.rebooted then [] else d.seen
  }

  /** What the device hears of a request; once a reset is demanded it hears nothing more. */
  function Heard(d: Device, req: Frame, t: Trip): (r: seq<Input>)
    ensures |r| <= 1
  {
    if ResetDemanded(SeenBefore(d, t)) then [] else Arrives(req, t.arrival)
  }

  function Hears(d: Device, req: Frame, t: Trip): Device {
    var heard := Heard(d, req, t);
    Device(SeenBefore(d, t) + heard, d.performed + AllEffects(heard))
  }

  /** What the host reads. */
  function Answer(d: Device, req: Frame, t: Trip): seq<Byte> {
    match t.fate
    case Missing => []
    case Garbled(bytes) => bytes
    case Delivered =>
      if Heard(d, req, t) == [] then []
      else
        var seen := Hears(d, req, t).seen;
        Response(LastCode(seen), ResetDemanded(seen), t.status)
  }

  // ----- The host's attempts -----

  function Repeat(): (r: Frame)
    ensures Intact(r) && CodeOf(r) == 0 && r[..6] == [0x33, 0x02, 0, 0, 0, 0]
  {
    var body: seq<Byte> := [MAGIC, CMD_REPEAT, 0, 0, 0, 0];
    var r := Seal(body);
    assert r[0] == r[..6][0] && r[1] == r[..6][1];
    r
  }

  datatype Verdict = Done | Refused | GaveUp

  datatype Round = Round(sent: Frame, heard: seq<Input>, resp: seq<Byte>)

  /** `ok` is what the caller is told. */
  datatype Outcome = Outcome(verdict: Verdict, ok: bool, rounds: seq<Round>, device: Device)

  const LEGACY_DONE: Byte := 0x20

  datatype Reading = Silence | Noise | Answered(code: Byte)

  function Read(resp: seq<Byte>): Reading {
    if |resp| < 4 then Silence else if !CheckResponse(resp) then Noise else Answered(resp[1])
  }

  predicate Refuses(code: Byte) {
    code == RESP_INVALID_ERROR || code == RESP_NONE
  }

  predicate Accepts(code: Byte) {
    code == LEGACY_DONE || code >= PONG_OK
  }

  function Process(req: Frame, common: nat, read: nat, trips: nat -> Trip, i: nat, d: Device): (r: Outcome)
    ensures |r.rounds| <= common
    decreases common
  {
    var t := trips(i);
    if !t.powered || common == 0 || read == 0 then Outcome(GaveUp, !t.stillPowered, [], d)
    else
      var resp := Answer(d, req, t);
      var round, after := Round(req, Heard(d, req, t), resp), Hears(d, req, t);
      match Read(resp)
      case Silence => First(round, Process(req, common - 1, read - 1, trips, i + 1, after))
      case Noise => First(round, Process(Repeat(), common - 1, read, trips, i + 1, after))
      case Answered(code) =>
        if Refuses(code) then Outcome(Refused, true, [round], after)
        else if Accepts(code) then Outcome(Done, true, [round], after)
        else First(round, Process(req, common - 1, read, trips, i + 1, after))
  }

  function First(round: Round, rest: Outcome): Outcome {
    rest.(rounds := [round] + rest.rounds)
  }

  // ----- What a round does -----

  /** A request the host makes, other than a request to repeat. */
  predicate Original(x: Frame) {
    Intact(x) && x[1] != CMD_REPEAT
  }

  /** The device heard the request itself. */
  predicate Hit(r: Round, x: Frame) {
    r.sent == x && r.heard == [Request(x)]
  }

  function Hits(rounds: seq<Round>, x: Frame): nat {
    if rounds == [] then 0 else (if Hit(rounds[0], x) then 1 else 0) + Hits(rounds[1..], x)
  }

  function Times(e: seq<Effect>, n: nat): seq<Effect> {
    if n == 0 then [] else e + Times(e, n - 1)
  }

  lemma EffectsOfOne(i: Input)
    ensures AllEffects([i]) == InputEffects(i)
  {
    assert [i][..0] == [];
  }

  lemma LastSnoc(seen: seq<Input>, i: Input)
    ensures LastCode(seen + [i]) == if InputCode(i) != 0 then InputCode(i) else LastCode(seen)
  {
    assert (seen + [i])[..|seen|] == seen;
  }

  /** The host reads the code of a delivered response, and noise as noise. */
  lemma ReadAnswer(d: Device, req: Frame, t: Trip)
    requires Noticed(t)
    ensures var heard, code := Heard(d, req, t), LastCode(Hears(d, req, t).seen);
            var reading := Read(Answer(d, req, t));
      match t.fate
      case Missing => reading.Silence?
      case Garbled(_) => reading.Noise?
      case Delivered =>
        if heard == [] then reading.Silence?
        else reading.Answered? && (code >= PONG_OK <==> reading.code >= PONG_OK)
             && (code < PONG_OK ==> reading.code == code)
  {
    hide Response, LastCode, Crc, ResetDemanded;
    if t.fate.Delivered? && Heard(d, req, t) != [] {
      var seen := Hears(d, req, t).seen;
      ResponseReadable(LastCode(seen), ResetDemanded(seen), t.status);
      hide Read;
      SealedIsRead(Response(LastCode(seen), ResetDemanded(seen), t.status));
    }
  }

  lemma SealedIsRead(f: Frame)
    requires Sealed(f)
    ensures Read(f) == Answered(f[1])
  {
  }

  lemma {:induction false} DeviceCodes(seen: seq<Input>)
    ensures LastCode(seen) in {RESP_NONE, RESP_CRC_ERROR, RESP_INVALID_ERROR, RESP_TIMEOUT_ERROR, PONG_OK}
  {
    if seen != [] {
      DeviceCodes(seen[..|seen| - 1]);
    }
  }

  /** What hearing an attempt does to the device: only a whole original has an effect or a good code. */
  lemma HearsStep(d: Device, req: Frame, t: Trip)
    requires Noticed(t) && Intact(req)
    ensures var after, heard := Hears(d, req, t), Heard(d, req, t);
      && (heard == [Request(req)] ==>
            after.performed == d.performed + EffectsOf(req)
            && (CodeOf(req) != 0 ==> LastCode(after.seen) == CodeOf(req))
            && (CodeOf(req) == 0 ==> LastCode(after.seen) == LastCode(SeenBefore(d, t))))
      && (heard != [] && heard != [Request(req)] ==>
            after.performed == d.performed && LastCode(after.seen) < PONG_OK)
      && (heard == [] ==>
            after.performed == d.performed && LastCode(after.seen) == LastCode(SeenBefore(d, t)))
      && LastCode(SeenBefore(d, t)) <= (if t.rebooted then RESP_NONE else LastCode(d.seen))
      && d.performed <= after.performed
  {
    hide ResetDemanded, CodeOf, Crc;
    var heard, before := Heard(d, req, t), SeenBefore(d, t);
    if heard == [] {
      assert before + [] == before && d.performed + AllEffects([]) == d.performed;
    } else {
      EffectsOfOne(heard[0]);
      LastSnoc(before, heard[0]);
      assert heard == [heard[0]];
      if t.arrival.Damaged? {
        DamagedCode(t.arrival.frame);
      }
      assert d.performed + [] == d.performed;
    }
  }

  lemma DamagedCode(f: Frame)
    requires !Intact(f)
    ensures CodeOf(f) == RESP_CRC_ERROR && EffectsOf(f) == []
  {
  }

  // ----- Once a repeat has been asked for -----

  predicate AllRepeats(rounds: seq<Round>) {
    forall i :: 0 <= i < |rounds| ==> rounds[i].sent == Repeat()
  }

  /** From the first damaged response on only repeats are sent: nothing is performed any more, and unless
      the device's last answer was good, no line, however good from here on, makes the call succeed. */
  lemma {:induction false} RepeatsOnly(common: nat, read: nat, trips: nat -> Trip, i: nat, d: Device)
    requires AllNoticed(trips)
    ensures var out := Process(Repeat(), common, read, trips, i, d);
      && out.device.performed == d.performed && AllRepeats(out.rounds)
      && (LastCode(d.seen) < PONG_OK ==> !out.verdict.Done?)
    decreases common
  {
    hide Hears, Answer, Heard, LastCode, Read, AllEffects, Repeat, CodeOf, Intact;
    var t := trips(i);
    if t.powered && common > 0 && read > 0 {
      RepeatStep(d, t);
      var after, reading := Hears(d, Repeat(), t), Read(Answer(d, Repeat(), t));
      RepeatsOnly(common - 1, if reading.Silence? then read - 1 else read, trips, i + 1, after);
    }
  }

  lemma RepeatStep(d: Device, t: Trip)
    requires Noticed(t)
    ensures var after, reading := Hears(d, Repeat(), t), Read(Answer(d, Repeat(), t));
      && after.performed == d.performed
      && (LastCode(d.seen) < PONG_OK ==>
            LastCode(after.seen) < PONG_OK && (reading.Answered? ==> !Accepts(reading.code)))
  {
    hide Hears, Answer, Heard, LastCode, Read, AllEffects, SeenBefore, Repeat, Crc;
    HearsStep(d, Repeat(), t);
    ReadAnswer(d, Repeat(), t);
    RepeatHasNoEffect();
    DeviceCodes(Hears(d, Repeat(), t).seen);
    assert d.performed + [] == d.performed;
  }

  lemma RepeatHasNoEffect()
    ensures EffectsOf(Repeat()) == [] && CodeOf(Repeat()) == 0
  {
    hide Repeat, Intact;
  }

  // ----- How often a request is performed -----

  lemma {:induction false} RepeatsAreNoHits(rounds: seq<Round>, x: Frame)
    requires AllRepeats(rounds) && Original(x)
    ensures Hits(rounds, x) == 0
  {
    hide Repeat, Intact;
    if rounds != [] {
      assert rounds[0].sent == Repeat() && Repeat() != x by { RepeatIsOther(x); }
      assert forall i :: 0 <= i < |rounds[1..]| ==> rounds[1..][i] == rounds[i + 1];
      RepeatsAreNoHits(rounds[1..], x);
    }
  }

  lemma RepeatIsOther(x: Frame)
    requires Original(x)
    ensures Repeat() != x
  {
    hide Repeat, Intact;
    assert CodeOf(Repeat()) == 0;
  }

  /** What one attempt to send an original does, by the way the host reads it. */
  lemma OriginalStep(x: Frame, d: Device, t: Trip)
    requires Noticed(t) && Original(x)
    ensures var after, heard := Hears(d, x, t), Heard(d, x, t); var reading := Read(Answer(d, x, t));
      && after.performed == d.performed + (if heard == [Request(x)] then EffectsOf(x) else [])
      && (heard == [Request(x)] && reading.Answered? ==> Refuses(reading.code) || Accepts(reading.code))
      && (heard != [Request(x)] && reading.Answered? ==> !Accepts(reading.code))
      && (heard != [] && heard != [Request(x)] ==> LastCode(after.seen) < PONG_OK)
      && (heard == [] && LastCode(after.seen) >= PONG_OK ==> LastCode(d.seen) >= PONG_OK)
  {
    hide Hears, Answer, Heard, LastCode, Read, AllEffects, SeenBefore, Intact, EffectsOf;
    HearsStep(d, x, t);
    ReadAnswer(d, x, t);
    DeviceCodes(Hears(d, x, t).seen);
    assert d.performed + [] == d.performed;
    CodeOfOriginal(x);
  }

  lemma CodeOfOriginal(x: Frame)
    requires Original(x)
    ensures CodeOf(x) == PONG_OK || CodeOf(x) == RESP_INVALID_ERROR
  {
  }

  lemma HitsFirst(round: Round, rest: seq<Round>, x: Frame)
    ensures Hits([round] + rest, x) == (if Hit(round, x) then 1 else 0) + Hits(rest, x)
  {
    assert ([round] + rest)[1..] == rest;
  }

  lemma HitsOne(round: Round, x: Frame)
    ensures Hits([round], x) == if Hit(round, x) then 1 else 0
  {
    HitsFirst(round, [], x);
    assert [round] + [] == [round];
  }

  lemma TimesMore(done: seq<Effect>, e: seq<Effect>, n: nat)
    ensures done + Times(e, n + 1) == done + e + Times(e, n)
    ensures done + Times(e, 0) == done && done + Times(e, 1) == done + e
  {
    assert Times(e, 1) == e + Times(e, 0);
  }

  /** A request is performed as often as the device has heard it. */
  lemma {:induction false} PerformedAsHeard(x: Frame, common: nat, read: nat, trips: nat -> Trip, i: nat, d: Device)
    requires AllNoticed(trips) && Original(x)
    ensures var out := Process(x, common, read, trips, i, d);
      out.device.performed == d.performed + Times(EffectsOf(x), Hits(out.rounds, x))
    decreases common
  {
    hide Hears, Answer, Heard, LastCode, Read, EffectsOf, Intact, Repeat, Times, Hits;
    var t := trips(i);
    TimesMore(d.performed, EffectsOf(x), 0);
    HitsOfNone(x);
    if t.powered && common > 0 && read > 0 {
      OriginalStep(x, d, t);
      var after, reading := Hears(d, x, t), Read(Answer(d, x, t));
      var round := Round(x, Heard(d, x, t), Answer(d, x, t));
      HitsOne(round, x);
      var rest := if reading.Noise? then Process(Repeat(), common - 1, read, trips, i + 1, after)
                  else Process(x, common - 1, if reading.Silence? then read - 1 else read, trips, i + 1, after);
      if reading.Noise? {
        RepeatsOnly(common - 1, read, trips, i + 1, after);
        RepeatsAreNoHits(rest.rounds, x);
      } else {
        PerformedAsHeard(x, common - 1, if reading.Silence? then read - 1 else read, trips, i + 1, after);
      }
      HitsFirst(round, rest.rounds, x);
      TimesMore(d.performed, EffectsOf(x), Hits(rest.rounds, x));
      TimesMore(after.performed, EffectsOf(x), 0);
      assert d.performed + [] == d.performed;
    }
  }

  lemma HitsOfNone(x: Frame)
    ensures Hits([], x) == 0
  {
  }

  /** Some attempt was heard, its response was not received, and a later attempt was heard again. */
  predicate HeardAgain(rounds: seq<Round>, x: Frame) {
    rounds != [] &&
    ((Hit(rounds[0], x) && |rounds[0].resp| < 4 && Hits(rounds[1..], x) > 0) || HeardAgain(rounds[1..], x))
  }

  lemma AgainFirst(round: Round, rest: seq<Round>, x: Frame)
    ensures HeardAgain([round] + rest, x) <==>
      (Hit(round, x) && |round.resp| < 4 && Hits(rest, x) > 0) || HeardAgain(rest, x)
  {
    assert ([round] + rest)[1..] == rest;
  }

  lemma {:induction false} AgainIsTwice(rounds: seq<Round>, x: Frame)
    ensures HeardAgain(rounds, x) ==> Hits(rounds, x) >= 2
  {
    if rounds != [] {
      AgainIsTwice(rounds[1..], x);
    }
  }

  /** A request is heard twice if and only if an attempt that was heard went unanswered and a later one
      was heard: an attempt that was heard and answered, however badly, is never followed by another. */
  lemma {:induction false} HeardTwiceIff(x: Frame, common: nat, read: nat, trips: nat -> Trip, i: nat, d: Device)
    requires AllNoticed(trips) && Original(x)
    ensures var rounds := Process(x, common, read, trips, i, d).rounds; Hits(rounds, x) >= 2 <==> HeardAgain(rounds, x)
    decreases common
  {
    hide Hears, Answer, Heard, LastCode, EffectsOf, Intact, Repeat, Hits, HeardAgain, CheckResponse;
    var t := trips(i);
    HitsOfNone(x);
    AgainIsTwice(Process(x, common, read, trips, i, d).rounds, x);
    if t.powered && common > 0 && read > 0 {
      OriginalStep(x, d, t);
      var after, reading := Hears(d, x, t), Read(Answer(d, x, t));
      var round := Round(x, Heard(d, x, t), Answer(d, x, t));
      HitsOne(round, x);
      if reading.Noise? {
        RepeatsOnly(common - 1, read, trips, i + 1, after);
        var rest := Process(Repeat(), common - 1, read, trips, i + 1, after);
        RepeatsAreNoHits(rest.rounds, x);
        HitsFirst(round, rest.rounds, x);
      } else {
        var left := if reading.Silence? then read - 1 else read;
        var rest := Process(x, common - 1, left, trips, i + 1, after);
        HeardTwiceIff(x, common - 1, left, trips, i + 1, after);
        HitsFirst(round, rest.rounds, x);
        AgainFirst(round, rest.rounds, x);
      }
    }
  }

  lemma {:induction false} TimesLength(e: seq<Effect>, n: nat)
    ensures |Times(e, n)| == n * |e|
  {
    if n > 0 { TimesLength(e, n - 1); }
  }

  /** At most once: over all losses, damage and reboots, a call performs its request more than once if
      and only if the response to an attempt that was performed got lost and a later attempt arrived. */
  lemma AtMostOnceIff(x: Frame, common: nat, read: nat, trips: nat -> Trip, d: Device)
    requires AllNoticed(trips) && Original(x) && EffectsOf(x) != []
    ensures var out := Process(x, common, read, trips, 0, d);
      |out.device.performed| <= |d.performed| + |EffectsOf(x)| <==> !HeardAgain(out.rounds, x)
  {
    hide Process, Hits, HeardAgain, Times, EffectsOf, Intact;
    PerformedAsHeard(x, common, read, trips, 0, d);
    HeardTwiceIff(x, common, read, trips, 0, d);
    var n, k := Hits(Process(x, common, read, trips, 0, d).rounds, x), |EffectsOf(x)|;
    TimesLength(EffectsOf(x), n);
    OneEffect(x);
  }

  lemma OneEffect(x: Frame)
    requires EffectsOf(x) != []
    ensures |EffectsOf(x)| == 1
  {
  }

  // ----- What success means -----

  /** Noise was read for an attempt of which the device had heard nothing. */
  predicate Phantom(rounds: seq<Round>, x: Frame) {
    exists k :: 0 <= k < |rounds| && rounds[k].sent == x && rounds[k].heard == [] && Read(rounds[k].resp).Noise?
  }

  predicate NeverHeard(rounds: seq<Round>, x: Frame) {
    forall k :: 0 <= k < |rounds| && rounds[k].sent == x ==> rounds[k].heard == []
  }

  lemma PhantomFirst(round: Round, rest: seq<Round>, x: Frame)
    ensures Phantom(rest, x) || (round.sent == x && round.heard == [] && Read(round.resp).Noise?)
      ==> Phantom([round] + rest, x)
    ensures NeverHeard(rest, x) && (round.sent == x ==> round.heard == []) ==> NeverHeard([round] + rest, x)
  {
    hide Read;
    var all := [round] + rest;
    assert all[0] == round;
    if Phantom(rest, x) {
      var k :| 0 <= k < |rest| && rest[k].sent == x && rest[k].heard == [] && Read(rest[k].resp).Noise?;
      assert all[k + 1] == rest[k];
    }
  }

  lemma {:induction false} RepeatsAreOther(rounds: seq<Round>, x: Frame)
    requires AllRepeats(rounds) && Original(x)
    ensures NeverHeard(rounds, x)
  {
    hide Repeat, Intact;
    RepeatIsOther(x);
  }

  /** Success without performance: only if the device heard nothing at all of the request, noise was
      taken for its response, and the answer to the repeat is that to an earlier request. */
  lemma {:induction false} DoneUnheard(x: Frame, common: nat, read: nat, trips: nat -> Trip, i: nat, d: Device)
    requires AllNoticed(trips) && Original(x)
    requires var out := Process(x, common, read, trips, i, d); out.verdict.Done? && Hits(out.rounds, x) == 0
    ensures var rounds := Process(x, common, read, trips, i, d).rounds; NeverHeard(rounds, x) && Phantom(rounds, x)
    ensures LastCode(d.seen) >= PONG_OK
    decreases common
  {
    hide Hears, Answer, Heard, LastCode, Read, EffectsOf, Intact, Repeat, Hits, CodeOf, Phantom, NeverHeard;
    var t := trips(i);
    OriginalStep(x, d, t);
    var after, reading := Hears(d, x, t), Read(Answer(d, x, t));
    var round := Round(x, Heard(d, x, t), Answer(d, x, t));
    HitsOne(round, x);
    if reading.Noise? {
      RepeatsOnly(common - 1, read, trips, i + 1, after);
      var rest := Process(Repeat(), common - 1, read, trips, i + 1, after);
      RepeatsAreOther(rest.rounds, x);
      HitsFirst(round, rest.rounds, x);
      PhantomFirst(round, rest.rounds, x);
    } else if !(reading.Answered? && (Refuses(reading.code) || Accepts(reading.code))) {
      var left := if reading.Silence? then read - 1 else read;
      var rest := Process(x, common - 1, left, trips, i + 1, after);
      HitsFirst(round, rest.rounds, x);
      DoneUnheard(x, common - 1, left, trips, i + 1, after);
      PhantomFirst(round, rest.rounds, x);
    }
  }

  /** Exactly once: a successful call on a line without phantom responses has performed its request, and
      just once if and only if no unanswered attempt was heard again. */
  lemma ExactlyOnceIff(x: Frame, common: nat, read: nat, trips: nat -> Trip, d: Device)
    requires AllNoticed(trips) && Original(x) && EffectsOf(x) != []
    requires var out := Process(x, common, read, trips, 0, d); out.verdict.Done? && !Phantom(out.rounds, x)
    ensures var out := Process(x, common, read, trips, 0, d);
      && d.performed + EffectsOf(x) <= out.device.performed
      && (out.device.performed == d.performed + EffectsOf(x) <==> !HeardAgain(out.rounds, x))
  {
    hide Process, Hits, HeardAgain, Times, EffectsOf, Intact, Phantom, NeverHeard, LastCode;
    var out := Process(x, common, read, trips, 0, d);
    PerformedAsHeard(x, common, read, trips, 0, d);
    HeardTwiceIff(x, common, read, trips, 0, d);
    if Hits(out.rounds, x) == 0 {
      DoneUnheard(x, common, read, trips, 0, d);
    } else {
      var n: nat := Hits(out.rounds, x) - 1;
      TimesMore(d.performed, EffectsOf(x), n);
      TimesLength(EffectsOf(x), n);
      OneEffect(x);
    }
  }

  // ----- How long the host goes on -----

  function Silences(rounds: seq<Round>): nat {
    if rounds == [] then 0 else (if |rounds[0].resp| < 4 then 1 else 0) + Silences(rounds[1..])
  }

  lemma SilencesFirst(round: Round, rest: seq<Round>)
    ensures Silences([round] + rest) == (if |round.resp| < 4 then 1 else 0) + Silences(rest)
  {
    assert ([round] + rest)[1..] == rest;
  }

  /** No attempt of the first ones is accepted or refused. */
  predicate AllGoOn(rounds: seq<Round>, n: nat) {
    n <= |rounds| && forall k :: 0 <= k < n ==> GoesOn(Read(rounds[k].resp))
  }

  /** Why a call ended as it did: with the first attempt that was accepted or refused, or, if there was
      none, because the power was gone, all attempts were made, or as many were met by silence as are
      allowed; the caller is then told whether the device is still without power. */
  predicate EndsRightly(out: Outcome, common: nat, read: nat, last: Trip) {
    var n, silent := |out.rounds|, Silences(out.rounds);
    && n <= common && silent <= read
    && (out.verdict.GaveUp? ==>
          && AllGoOn(out.rounds, n) && out.ok == !last.stillPowered
          && (!last.powered || n == common || silent == read))
    && (!out.verdict.GaveUp? ==>
          n > 0 && out.ok && AllGoOn(out.rounds, n - 1) && Settles(Read(out.rounds[n - 1].resp), out.verdict))
  }

  lemma {:induction false} CallsEndRightly(req: Frame, common: nat, read: nat, trips: nat -> Trip, i: nat, d: Device)
    ensures var out := Process(req, common, read, trips, i, d);
      EndsRightly(out, common, read, trips(i + |out.rounds|))
    decreases common
  {
    hide Hears, Answer, Heard, Read, Repeat, EndsRightly, Refuses, Accepts, Process;
    var t := trips(i);
    if !t.powered || common == 0 || read == 0 {
      LastAttempt(req, common, read, trips, i, d);
      NoAttempt(Outcome(GaveUp, !t.stillPowered, [], d), common, read, t);
    } else {
      var after, resp := Hears(d, req, t), Answer(d, req, t);
      var reading, round := Read(resp), Round(req, Heard(d, req, t), resp);
      Unfold(req, common, read, trips, i, d);
      if reading.Answered? && (Refuses(reading.code) || Accepts(reading.code)) {
        LastAttemptSettles(round, Process(req, common, read, trips, i, d), common, read, trips(i + 1));
      } else {
        SilenceIsShort(resp);
        var next, left := if reading.Noise? then Repeat() else req, if reading.Silence? then read - 1 else read;
        var rest := Process(next, common - 1, left, trips, i + 1, after);
        CallsEndRightly(next, common - 1, left, trips, i + 1, after);
        OneMoreAttempt(round, rest, common - 1, left, trips(i + 1 + |rest.rounds|));
      }
    }
  }

  /** One attempt, and the rest of the call if it does not end it. */
  lemma Unfold(req: Frame, common: nat, read: nat, trips: nat -> Trip, i: nat, d: Device)
    requires trips(i).powered && common > 0 && read > 0
    ensures var after, resp := Hears(d, req, trips(i)), Answer(d, req, trips(i));
            var reading, round := Read(resp), Round(req, Heard(d, req, trips(i)), resp);
            var out := Process(req, common, read, trips, i, d);
      if reading.Answered? && (Refuses(reading.code) || Accepts(reading.code))
      then out == Outcome(if Refuses(reading.code) then Refused else Done, true, [round], after)
      else out == First(round, Process(if reading.Noise? then Repeat() else req, common - 1,
                                       if reading.Silence? then read - 1 else read, trips, i + 1, after))
  {
    hide Hears, Answer, Heard, Read, Repeat, Refuses, Accepts;
  }

  lemma NoAttempt(out: Outcome, common: nat, read: nat, last: Trip)
    requires out.rounds == [] && out.verdict == GaveUp && out.ok == !last.stillPowered
    requires !last.powered || common == 0 || read == 0
    ensures EndsRightly(out, common, read, last)
  {
  }

  lemma LastAttemptSettles(round: Round, out: Outcome, common: nat, read: nat, last: Trip)
    requires out.rounds == [round] && common > 0 && out.ok && Read(round.resp).Answered?
    requires var code := Read(round.resp).code;
      (Refuses(code) && out.verdict == Refused) || (!Refuses(code) && Accepts(code) && out.verdict == Done)
    ensures EndsRightly(out, common, read, last)
  {
    SilenceIsShort(round.resp);
    SilencesFirst(round, []);
    assert [round] + [] == [round];
    hide Read;
  }

  lemma OneMoreAttempt(round: Round, rest: Outcome, common: nat, read: nat, last: Trip)
    requires EndsRightly(rest, common, read, last)
    requires var reading := Read(round.resp); reading.Answered? ==> !Refuses(reading.code) && !Accepts(reading.code)
    ensures EndsRightly(First(round, rest), common + 1, if |round.resp| < 4 then read + 1 else read, last)
  {
    hide Read, Silences;
    SilencesFirst(round, rest.rounds);
    var all := [round] + rest.rounds;
    assert all[0] == round && forall k :: 0 < k < |all| ==> all[k] == rest.rounds[k - 1];
  }

  lemma SilenceIsShort(resp: seq<Byte>)
    ensures Read(resp).Silence? <==> |resp| < 4
  {
  }

  predicate Settles(reading: Reading, verdict: Verdict) {
    && reading.Answered?
    && (verdict.Refused? <==> reading.code == 0x45 || reading.code == 0x24)
    && (verdict.Done? <==> reading.code == 0x20 || reading.code >= 0x80)
  }

  predicate GoesOn(reading: Reading) {
    reading.Answered? ==>
      reading.code != 0x45 && reading.code != 0x24 && reading.code != 0x20 && reading.code < 0x80
  }

  // ----- The failures -----

  /** How an attempt goes on, by the way its answer is read. */
  lemma NextAttempt(req: Frame, common: nat, read: nat, trips: nat -> Trip, i: nat, d: Device)
    requires trips(i).powered && common > 0 && read > 0
    ensures var reading, after := Read(Answer(d, req, trips(i))), Hears(d, req, trips(i));
            var out := Process(req, common, read, trips, i, d);
      match reading
      case Silence => SameEnd(out, Process(req, common - 1, read - 1, trips, i + 1, after))
      case Noise => SameEnd(out, Process(Repeat(), common - 1, read, trips, i + 1, after))
      case Answered(code) =>
        if Refuses(code) then out.verdict.Refused? && out.ok && out.device == after
        else if Accepts(code) then out.verdict.Done? && out.ok && out.device == after
        else SameEnd(out, Process(req, common - 1, read, trips, i + 1, after))
  {
    hide Hears, Answer, Heard, Read, Repeat, Process;
    Unfold(req, common, read, trips, i, d);
  }

  predicate SameEnd(a: Outcome, b: Outcome) {
    a.verdict == b.verdict && a.ok == b.ok && a.device == b.device
  }

  /** A whole request reaches a device that is running and has not been asked to reset. */
  lemma WholeIsHeard(d: Device, req: Frame, t: Trip)
    requires !t.rebooted && t.arrival.Whole? && !ResetDemanded(d.seen)
    ensures Heard(d, req, t) == [Request(req)] && Hears(d, req, t).seen == d.seen + [Request(req)]
  {
  }

  lemma DamagedIsOther(d: Device, x: Frame, t: Trip)
    requires Noticed(t) && Intact(x) && t.arrival.Damaged?
    ensures Heard(d, x, t) != [Request(x)]
  {
    hide Intact, ResetDemanded;
    if Heard(d, x, t) != [] {
      assert Heard(d, x, t)[0] == Request(t.arrival.frame);
    }
  }

  /** A damaged request whose refusal is damaged too is never sent again: the call cannot succeed, and
      the request is not performed, however good the line is from then on. */
  lemma DamagedBothWays(x: Frame, common: nat, read: nat, trips: nat -> Trip, d: Device)
    requires AllNoticed(trips) && Original(x) && trips(0).powered && common > 0 && read > 0
    requires trips(0).arrival.Damaged? && trips(0).fate.Garbled? && Heard(d, x, trips(0)) != []
    ensures var out := Process(x, common, read, trips, 0, d); !out.verdict.Done? && out.device.performed == d.performed
  {
    hide Hears, Answer, Heard, LastCode, Read, EffectsOf, Repeat, Process, Intact, CodeOf;
    var t := trips(0);
    DamagedIsOther(d, x, t);
    OriginalStep(x, d, t);
    ReadAnswer(d, x, t);
    NextAttempt(x, common, read, trips, 0, d);
    RepeatsOnly(common - 1, read, trips, 1, Hears(d, x, t));
    assert d.performed + [] == d.performed;
  }

  /** The response to a performed request is lost once: the request is performed twice. */
  lemma LostResponseDoubles(x: Frame, common: nat, read: nat, trips: nat -> Trip, d: Device)
    requires AllNoticed(trips) && Original(x) && EffectsOf(x) != [] && common >= 2 && read >= 2
    requires !ResetDemanded(d.seen) && !DemandsReset(x)
    requires forall k :: 0 <= k < 2 ==> trips(k).powered && !trips(k).rebooted && trips(k).arrival.Whole?
    requires trips(0).fate.Missing? && trips(1).fate.Delivered?
    ensures var out := Process(x, common, read, trips, 0, d);
      out.verdict.Done? && out.device.performed == d.performed + EffectsOf(x) + EffectsOf(x)
  {
    hide Hears, Answer, Heard, LastCode, Read, EffectsOf, Repeat, ResetDemanded, DemandsReset, Process, Crc;
    var after := Hears(d, x, trips(0));
    WholeIsHeard(d, x, trips(0));
    ResetSnoc(d.seen, Request(x));
    OriginalStep(x, d, trips(0));
    ReadAnswer(d, x, trips(0));
    NextAttempt(x, common, read, trips, 0, d);
    WholeIsAccepted(x, common - 1, read - 1, trips, 1, after);
  }

  lemma WholeIsAccepted(x: Frame, common: nat, read: nat, trips: nat -> Trip, i: nat, d: Device)
    requires AllNoticed(trips) && Original(x) && EffectsOf(x) != [] && common > 0 && read > 0
    requires !ResetDemanded(d.seen)
    requires trips(i).powered && !trips(i).rebooted && trips(i).arrival.Whole? && trips(i).fate.Delivered?
    ensures var out := Process(x, common, read, trips, i, d);
      out.verdict.Done? && out.device.performed == d.performed + EffectsOf(x)
  {
    hide Hears, Answer, Heard, LastCode, Read, EffectsOf, Repeat, ResetDemanded, Process, Crc;
    WholeIsHeard(d, x, trips(i));
    HearsStep(d, x, trips(i));
    ReadAnswer(d, x, trips(i));
    AcceptedCode(x);
    NextAttempt(x, common, read, trips, i, d);
  }

  lemma AcceptedCode(x: Frame)
    requires EffectsOf(x) != []
    ensures CodeOf(x) == PONG_OK
  {
  }

  /** The request is lost, noise is read, and the device repeats its answer to the request before: the
      call succeeds and nothing has been performed. */
  lemma EarlierAnswerIsTaken(x: Frame, common: nat, read: nat, trips: nat -> Trip, d: Device)
    requires AllNoticed(trips) && Original(x) && common >= 2 && read >= 1
    requires !ResetDemanded(d.seen) && LastCode(d.seen) == PONG_OK
    requires trips(0).powered && !trips(0).rebooted && trips(0).arrival.Lost? && trips(0).fate.Garbled?
    requires trips(1).powered && !trips(1).rebooted && trips(1).arrival.Whole? && trips(1).fate.Delivered?
    ensures var out := Process(x, common, read, trips, 0, d); out.verdict.Done? && out.device.performed == d.performed
  {
    hide LastCode, Read, EffectsOf, Repeat, ResetDemanded, Process, Crc, Answer, CodeOf, Intact;
    var after := Hears(d, x, trips(0));
    assert after.seen == d.seen + [] == d.seen;
    assert after.performed == d.performed + AllEffects([]) == d.performed;
    hide Hears, Heard, AllEffects;
    ReadAnswer(d, x, trips(0));
    NextAttempt(x, common, read, trips, 0, d);
    WholeIsHeard(after, Repeat(), trips(1));
    HearsStep(after, Repeat(), trips(1));
    RepeatHasNoEffect();
    ReadAnswer(after, Repeat(), trips(1));
    NextAttempt(Repeat(), common - 1, read, trips, 1, after);
    RepeatsOnly(common - 1, read, trips, 1, after);
  }

  // ----- The program's own form -----

  /** The line with a real device at its end. */
  class Line {
    var handler: Handler
    ghost var past: seq<Effect>

    ghost predicate Valid()
      reads this, handler
    {
      handler.Valid()
    }

    ghost function View(): Device
      reads this, handler
    {
      Device(handler.seen, past + handler.performed)
    }

    constructor ()
      ensures Valid() && View() == Device([], []) && fresh(handler)
    {
      handler := new Handler();
      past := [];
    }

    method Reboot()
      requires Valid()
      modifies this
      ensures Valid() && fresh(handler) && View() == Device([], old(View()).performed)
    {
      hide LastCode, ResetDemanded;
      past := past + handler.performed;
      handler := new Handler();
      assert handler.performed == [] && past + [] == past;
    }

    method Hear(i: Input, s: Status) returns (reply: seq<Byte>)
      requires Valid()
      modifies handler
      ensures Valid() && View() == Device(old(View()).seen + [i], old(View()).performed + AllEffects([i]))
      ensures reply == Response(LastCode(handler.seen), ResetDemanded(handler.seen), s)
    {
      hide InputEffects, LastCode, ResetDemanded, Response;
      PerformedOne(handler.seen, i);
      hide AllEffects;
      Regrouped(past, handler.performed, AllEffects([i]));
      match i
      case Request(f) => reply := handler.DataHandler(f, s);
      case Timeout => reply := handler.TimeoutHandler(s);
    }

    /** The device takes what arrives, and answers it, unless a reset is due. */
    method Deliver(heard: seq<Input>, s: Status) returns (reply: seq<Byte>)
      requires Valid() && |heard| <= 1
      modifies handler
      ensures Valid()
      ensures var d := old(View());
        View() == if ResetDemanded(d.seen) then d else Device(d.seen + heard, d.performed + AllEffects(heard))
      ensures reply == if ResetDemanded(old(handler.seen)) || heard == [] then []
                       else Response(LastCode(handler.seen), ResetDemanded(handler.seen), s)
    {
      hide AllEffects, LastCode, ResetDemanded, Response;
      reply := [];
      if handler.resetRequired {
      } else if heard == [] {
        NothingHeard(View());
      } else {
        assert heard == [heard[0]];
        reply := Hear(heard[0], s);
      }
    }

    /** One request and what is read in answer to it. */
    method Send(req: Frame, t: Trip) returns (resp: seq<Byte>)
      requires Valid()
      modifies this, handler
      ensures Valid() && (handler == old(handler) || fresh(handler))
      ensures View() == Hears(old(View()), req, t) && resp == Answer(old(View()), req, t)
    {
      hide AllEffects, LastCode, ResetDemanded, Response;
      ghost var d := View();
      if t.rebooted {
        Reboot();
      }
      ghost var before := View();
      var reply := Deliver(Arrives(req, t.arrival), t.status);
      NothingHeard(before);
      resp := [];
      match t.fate
      case Missing =>
      case Garbled(bytes) => resp := bytes;
      case Delivered => resp := reply;
    }

    /** A request is sent until it is answered, refused, or the retries are used up. */
    method ProcessRequest(x: Frame, commonRetries: nat, readRetries: nat, trips: nat -> Trip) returns (ok: bool)
      requires Valid()
      modifies this, handler
      ensures Valid()
      ensures var out := Process(x, commonRetries, readRetries, trips, 0, old(View()));
        ok == out.ok && View() == out.device
    {
      hide Hears, Answer, Heard, Repeat, CheckResponse, Process, AllEffects, LastCode, ResetDemanded;
      var req, common, read, errorRetval, i := x, commonRetries, readRetries, false, 0;
      ghost var out := Process(x, commonRetries, readRetries, trips, 0, View());
      while trips(i).powered && common > 0 && read > 0
        invariant Valid() && (handler == old(handler) || fresh(handler))
        invariant !errorRetval && SameEnd(out, Process(req, common, read, trips, i, View()))
        decreases common
      {
        NextAttempt(req, common, read, trips, i, View());
        var resp := Send(req, trips(i));
        if |resp| < 4 {
          read := read - 1;
        } else {
          var checked := Check(resp);
          if !checked {
            req := Repeat();
          } else {
            var code := resp[1];
            if code == RESP_TIMEOUT_ERROR || code == RESP_CRC_ERROR {
            } else if code == RESP_INVALID_ERROR || code == RESP_NONE {
              errorRetval := true;
              break;
            } else if code == LEGACY_DONE || code >= PONG_OK {
              return true;
            }
          }
        }
        common := common - 1;
        i := i + 1;
      }
      if !errorRetval {
        LastAttempt(req, common, read, trips, i, View());
      }
      if !trips(i).stillPowered {
        return true;
      }
      return errorRetval;
    }
  }

  method Check(resp: seq<Byte>) returns (ok: bool)
    requires |resp| >= 2
    ensures ok == CheckResponse(resp)
  {
    var n := |resp| - 2;
    var crc := MakeCrc16(resp[..n]);
    ok := crc == Merge8(resp[n], resp[n + 1]);
  }

  lemma LastAttempt(req: Frame, common: nat, read: nat, trips: nat -> Trip, i: nat, d: Device)
    requires !trips(i).powered || common == 0 || read == 0
    ensures Process(req, common, read, trips, i, d) == Outcome(GaveUp, !trips(i).stillPowered, [], d)
  {
  }

  lemma Regrouped(a: seq<Effect>, b: seq<Effect>, c: seq<Effect>)
    ensures a + (b + c) == a + b + c
  {
  }

  lemma NothingHeard(d: Device)
    ensures Device(d.seen + [], d.performed + AllEffects([])) == d
  {
    assert d.seen + [] == d.seen && d.performed + [] == d.performed;
  }

  lemma PerformedOne(before: seq<Input>, i: Input)
    ensures AllEffects(before + [i]) == AllEffects(before) + AllEffects([i])
  {
    hide InputEffects;
    assert (before + [i])[..|before|] == before;
    EffectsOfOne(i);
  }
}