/** The USB keyboard of the Pico HID firmware. An unbounded history of key events is kept in a
    modifier byte and six slots (the boot keyboard report of HID 1.11, appendix B.1), and a report
    is offered to the USB stack until it is accepted. */
module UsbKeyboard {
  import opened Bits

  type Key = bv8

  type Slots = s: seq<Key> | |s| == 6 witness [0, 0, 0, 0, 0, 0]

  const EMPTY: Slots := [0, 0, 0, 0, 0, 0]

  datatype Report = Report(mods: bv8, keys: Slots)

  /** The bus at the moment of a call: suspended, or ready to take a report or not. */
  datatype Bus = Bus(suspended: bool, accepts: bool)

  predicate IsModifier(key: Key) {
    0xE0 <= key <= 0xE7
  }

  function Bit(key: Key): bv8 {
    1 << (key & 0x07)
  }

  /** The modifiers have the codes 0xE0 to 0xE7 (HID Usage Tables, section 10). */
  function ModifierKey(i: nat): Key
    requires i < 8
  {
    (0xE0 + i) as bv8
  }

  /** Bit `i` of a report's modifier byte, as the host reads it. */
  predicate BitIsSet(mods: bv8, i: nat) {
    mods as int / Pow2(i) % 2 == 1
  }

  // ----- Reference: the keys held after a history of events -----

  datatype Event = Press(key: Key) | Release(key: Key) | Clear | Sync

  ghost function Held(h: seq<Event>): set<Key> {
    if h == [] then {}
    else
      var before := Held(h[..|h| - 1]);
      match h[|h| - 1]
      case Press(k) => before + {k}
      case Release(k) => before - {k}
      case Clear => {}
      case Sync => before
  }

  ghost function RegularHeld(h: seq<Event>): set<Key> {
    set k | k in Held(h) && !IsModifier(k)
  }

  /** At most six regular keys were ever held together since the last clear. */
  ghost predicate NeverCrowded(h: seq<Event>) {
    h == [] || (|RegularHeld(h)| <= 6 && (h[|h| - 1].Clear? || NeverCrowded(h[..|h| - 1])))
  }

  // ----- The slots -----

  function FreeSlotBelow(keys: Slots, n: nat): (pos: int)
    requires n <= 6
    ensures -1 <= pos < n
    ensures pos >= 0 ==> keys[pos] == 0
    ensures pos < 0 ==> forall i :: 0 <= i < n ==> keys[i] != 0
  {
    if n == 0 then -1 else if keys[n - 1] == 0 then n - 1 else FreeSlotBelow(keys, n - 1)
  }

  function PressSlots(keys: Slots, key: Key): Slots {
    if key in keys then keys
    else
      var pos := FreeSlotBelow(keys, 6);
      keys[(if pos >= 0 then pos else 0) := key]
  }

  function ReleaseSlots(keys: Slots, key: Key): Slots {
    seq(6, i requires 0 <= i < 6 => if keys[i] == key then 0 else keys[i])
  }

  ghost predicate Distinct(keys: Slots) {
    forall i, j :: 0 <= i < j < 6 && keys[i] != 0 ==> keys[i] != keys[j]
  }

  ghost predicate ShowsOnlyHeld(keys: Slots, held: set<Key>) {
    forall k :: k in keys && k != 0 ==> k in held && !IsModifier(k)
  }

  /** Bit `i` stands for the modifier with the code 0xE0 + i (HID 1.11, section 8.3). */
  ghost predicate ModsMatch(mods: bv8, held: set<Key>) {
    forall i :: 0 <= i < 8 ==> (BitIsSet(mods, i) <==> ModifierKey(i) in held)
  }

  ghost predicate ShowsAll(keys: Slots, held: set<Key>) {
    forall k :: k in held && !IsModifier(k) ==> k in keys
  }

  lemma Mask0(m: bv8)
    ensures m & 1 != 0 <==> m as int / 1 % 2 == 1
  {
  }

  lemma Mask1(m: bv8)
    ensures m & 2 != 0 <==> m as int / 2 % 2 == 1
  {
  }

  lemma Mask2(m: bv8)
    ensures m & 4 != 0 <==> m as int / 4 % 2 == 1
  {
  }

  lemma Mask3(m: bv8)
    ensures m & 8 != 0 <==> m as int / 8 % 2 == 1
  {
  }

  lemma Mask4(m: bv8)
    ensures m & 16 != 0 <==> m as int / 16 % 2 == 1
  {
  }

  lemma Mask5(m: bv8)
    ensures m & 32 != 0 <==> m as int / 32 % 2 == 1
  {
  }

  lemma Mask6(m: bv8)
    ensures m & 64 != 0 <==> m as int / 64 % 2 == 1
  {
  }

  lemma Mask7(m: bv8)
    ensures m & 128 != 0 <==> m as int / 128 % 2 == 1
  {
  }

  lemma BitValues()
    ensures Pow2(0) == 1 && Bit(0xE0) == 1
    ensures Pow2(1) == 2 && Bit(0xE1) == 2
    ensures Pow2(2) == 4 && Bit(0xE2) == 4
    ensures Pow2(3) == 8 && Bit(0xE3) == 8
    ensures Pow2(4) == 16 && Bit(0xE4) == 16
    ensures Pow2(5) == 32 && Bit(0xE5) == 32
    ensures Pow2(6) == 64 && Bit(0xE6) == 64
    ensures Pow2(7) == 128 && Bit(0xE7) == 128
  {
    assert Pow2(4) == 16;
  }

  lemma ModifierKeys()
    ensures ModifierKey(0) == 0xE0
    ensures ModifierKey(1) == 0xE1
    ensures ModifierKey(2) == 0xE2
    ensures ModifierKey(3) == 0xE3
    ensures ModifierKey(4) == 0xE4
    ensures ModifierKey(5) == 0xE5
    ensures ModifierKey(6) == 0xE6
    ensures ModifierKey(7) == 0xE7
  {
  }

  lemma BitAsMask(mods: bv8, i: nat)
    requires i < 8
    ensures BitIsSet(mods, i) <==> mods & Bit(ModifierKey(i)) != 0
  {
    hide Pow2, Bit, ModifierKey;
    BitValues();
    ModifierKeys();
    match i
    case 0 => Mask0(mods);
    case 1 => Mask1(mods);
    case 2 => Mask2(mods);
    case 3 => Mask3(mods);
    case 4 => Mask4(mods);
    case 5 => Mask5(mods);
    case 6 => Mask6(mods);
    case 7 => Mask7(mods);
  }

  lemma OnlyModifiers(i: nat)
    requires i < 8
    ensures IsModifier(ModifierKey(i))
  {
  }

  lemma ModBits(mods: bv8, key: Key, i: nat)
    requires IsModifier(key) && i < 8
    ensures BitIsSet(mods | Bit(key), i) <==> BitIsSet(mods, i) || key == ModifierKey(i)
    ensures BitIsSet(mods & !Bit(key), i) <==> BitIsSet(mods, i) && key != ModifierKey(i)
  {
    hide BitIsSet, Bit, ModifierKey, IsModifier;
    BitAsMask(mods, i);
    BitAsMask(mods | Bit(key), i);
    BitAsMask(mods & !Bit(key), i);
    OnlyModifiers(i);
    MaskBits(mods, key, ModifierKey(i));
  }

  lemma MaskBits(mods: bv8, key: Key, other: Key)
    requires IsModifier(key) && IsModifier(other)
    ensures (mods | Bit(key)) & Bit(other) != 0 <==> mods & Bit(other) != 0 || other == key
    ensures (mods & !Bit(key)) & Bit(other) != 0 <==> mods & Bit(other) != 0 && other != key
  {
  }

  lemma NoBitIsSet()
    ensures ModsMatch(0, {})
  {
    forall i | 0 <= i < 8 ensures !BitIsSet(0, i) { }
  }

  /** Six distinct regular keys fill the slots, so a seventh one held at the same time would exceed
      six: a key that would evict another is pressed only on a crowded keyboard. */
  lemma FullSlotsAreSixKeys(keys: Slots, held: set<Key>)
    requires Distinct(keys) && forall i :: 0 <= i < 6 ==> keys[i] != 0
    requires ShowsOnlyHeld(keys, held)
    ensures |set k | k in held && !IsModifier(k)| >= 6
  {
    var shown := {keys[0], keys[1], keys[2], keys[3], keys[4], keys[5]};
    var regular := set k | k in held && !IsModifier(k);
    assert |shown| == 6;
    assert shown <= regular;
    SubsetSize(shown, regular);
  }

  lemma {:induction false} SubsetSize<T>(a: set<T>, b: set<T>)
    requires a <= b
    ensures |a| <= |b|
  {
    if a != {} {
      var x :| x in a;
      SubsetSize(a - {x}, b - {x});
    }
  }

  // ----- What every event keeps -----

  datatype Kbd = Kbd(mods: bv8, keys: Slots, sent: bool, report: Report)

  const INITIAL: Kbd := Kbd(0, EMPTY, true, Report(0, EMPTY))

  /** The keyboard after any history: no key sits in two slots, only held keys are shown, the
      modifier byte is exact, an acknowledged state is what the host last got, and nothing held is
      missing as long as six slots were enough. */
  ghost predicate Tracks(s: Kbd, h: seq<Event>) {
    && Distinct(s.keys)
    && ShowsOnlyHeld(s.keys, Held(h))
    && ModsMatch(s.mods, Held(h))
    && (s.sent ==> s.report == Report(s.mods, s.keys))
    && (NeverCrowded(h) ==> ShowsAll(s.keys, Held(h)))
    && 0 !in Held(h)
  }

  function Apply(s: Kbd, e: Event): Kbd {
    match e
    case Press(k) =>
      if IsModifier(k) then s.(mods := s.mods | Bit(k)) else s.(keys := PressSlots(s.keys, k))
    case Release(k) =>
      if IsModifier(k) then s.(mods := s.mods & !Bit(k)) else s.(keys := ReleaseSlots(s.keys, k))
    case Clear => s.(mods := 0, keys := EMPTY)
    case Sync => s
  }

  lemma ModifierApplied(s: Kbd, k: Key)
    requires IsModifier(k)
    ensures Apply(s, Press(k)) == s.(mods := s.mods | Bit(k))
    ensures Apply(s, Release(k)) == s.(mods := s.mods & !Bit(k))
  {
  }

  lemma RegularApplied(s: Kbd, k: Key)
    requires !IsModifier(k)
    ensures Apply(s, Press(k)) == s.(keys := PressSlots(s.keys, k))
    ensures Apply(s, Release(k)) == s.(keys := ReleaseSlots(s.keys, k))
  {
  }

  /** Offering the state to the USB stack, after a change (`new`) or as a retry. */
  function Offer(s: Kbd, new_: bool, bus: Bus): Kbd {
    var sent := s.sent && !new_;
    if sent || bus.suspended || !bus.accepts then s.(sent := sent)
    else s.(sent := true, report := Report(s.mods, s.keys))
  }

  lemma PressOnFullIsCrowded(keys: Slots, h: seq<Event>, k: Key)
    requires Distinct(keys) && forall i :: 0 <= i < 6 ==> keys[i] != 0
    requires ShowsOnlyHeld(keys, Held(h)) && (NeverCrowded(h) ==> ShowsAll(keys, Held(h)))
    requires k !in keys && !IsModifier(k)
    ensures !NeverCrowded(h + [Press(k)])
  {
    var g := h + [Press(k)];
    assert g[..|g| - 1] == h;
    if k !in Held(h) {
      FullSlotsAreSixKeys(keys, Held(h));
      assert RegularHeld(g) == RegularHeld(h) + {k};
    }
  }

  lemma PressShows(keys: Slots, held: set<Key>, k: Key)
    requires Distinct(keys) && ShowsOnlyHeld(keys, held) && 0 !in held && k != 0 && !IsModifier(k)
    ensures Distinct(PressSlots(keys, k)) && ShowsOnlyHeld(PressSlots(keys, k), held + {k})
    ensures (k in keys || 0 in keys) && ShowsAll(keys, held) ==> ShowsAll(PressSlots(keys, k), held + {k})
  {
    if k !in keys {
      var after := PressSlots(keys, k);
      var pos := FreeSlotBelow(keys, 6);
      var at := if pos >= 0 then pos else 0;
      assert after[at] == k;
      forall x | 0 in keys && ShowsAll(keys, held) && x in held && !IsModifier(x) ensures x in after {
        assert x in keys && x != 0;
        var i :| 0 <= i < 6 && keys[i] == x;
        assert after[i] == x;
      }
    }
  }

  lemma ReleaseShows(keys: Slots, held: set<Key>, k: Key)
    requires Distinct(keys) && ShowsOnlyHeld(keys, held)
    ensures Distinct(ReleaseSlots(keys, k)) && ShowsOnlyHeld(ReleaseSlots(keys, k), held - {k})
    ensures ShowsAll(keys, held) ==> ShowsAll(ReleaseSlots(keys, k), held - {k})
  {
    var after := ReleaseSlots(keys, k);
    forall x | ShowsAll(keys, held) && x in held && x != k && !IsModifier(x) ensures x in after {
      var i :| 0 <= i < 6 && keys[i] == x;
      assert after[i] == x;
    }
  }

  lemma ModsFollow(mods: bv8, held: set<Key>, k: Key)
    requires ModsMatch(mods, held) && IsModifier(k)
    ensures ModsMatch(mods | Bit(k), held + {k}) && ModsMatch(mods & !Bit(k), held - {k})
  {
    hide BitIsSet, Bit, ModifierKey;
    forall i | 0 <= i < 8
      ensures BitIsSet(mods | Bit(k), i) <==> ModifierKey(i) in held + {k}
      ensures BitIsSet(mods & !Bit(k), i) <==> ModifierKey(i) in held - {k}
    {
      ModBits(mods, k, i);
    }
  }

  /** A regular key leaves modifiers alone, and a modifier leaves the slots alone. */
  lemma OthersUnmoved(s: Kbd, held: set<Key>, k: Key)
    requires ShowsOnlyHeld(s.keys, held) && ModsMatch(s.mods, held)
    ensures IsModifier(k) ==> ShowsOnlyHeld(s.keys, held + {k}) && ShowsOnlyHeld(s.keys, held - {k})
    ensures !IsModifier(k) ==> ModsMatch(s.mods, held + {k}) && ModsMatch(s.mods, held - {k})
  {
    hide BitIsSet, ModifierKey;
    forall i | 0 <= i < 8 ensures IsModifier(ModifierKey(i)) {
      OnlyModifiers(i);
    }
  }

  lemma PressTracks(s: Kbd, h: seq<Event>, k: Key)
    requires Tracks(s, h) && k != 0
    ensures var t := Apply(s, Press(k)); var g := h + [Press(k)];
      && Distinct(t.keys) && ShowsOnlyHeld(t.keys, Held(g)) && ModsMatch(t.mods, Held(g))
      && (NeverCrowded(g) ==> ShowsAll(t.keys, Held(g)))
  {
    var g := h + [Press(k)];
    assert g[..|g| - 1] == h;
    OthersUnmoved(s, Held(h), k);
    if IsModifier(k) {
      ModsFollow(s.mods, Held(h), k);
    } else {
      if k !in s.keys && 0 !in s.keys {
        PressOnFullIsCrowded(s.keys, h, k);
      }
      PressShows(s.keys, Held(h), k);
    }
  }

  lemma ReleaseTracks(s: Kbd, h: seq<Event>, k: Key)
    requires Tracks(s, h)
    ensures var t := Apply(s, Release(k)); var g := h + [Release(k)];
      && Distinct(t.keys) && ShowsOnlyHeld(t.keys, Held(g)) && ModsMatch(t.mods, Held(g))
      && (NeverCrowded(g) ==> ShowsAll(t.keys, Held(g)))
  {
    var g := h + [Release(k)];
    assert g[..|g| - 1] == h;
    OthersUnmoved(s, Held(h), k);
    if IsModifier(k) {
      ModsFollow(s.mods, Held(h), k);
    } else {
      ReleaseShows(s.keys, Held(h), k);
    }
  }

  lemma ClearTracks(s: Kbd, h: seq<Event>)
    ensures var t := Apply(s, Clear); var g := h + [Clear];
      && Distinct(t.keys) && ShowsOnlyHeld(t.keys, Held(g)) && ModsMatch(t.mods, Held(g))
      && ShowsAll(t.keys, Held(g))
  {
    NoBitIsSet();
  }

  /** Every event keeps the keyboard true to the extended history, whatever the bus does. */
  lemma EventTracks(s: Kbd, h: seq<Event>, e: Event, new_: bool, bus: Bus)
    requires Tracks(s, h) && (e.Press? ==> e.key != 0) && (!e.Sync? ==> new_)
    ensures Tracks(Offer(Apply(s, e), new_, bus), h + [e])
  {
    assert (h + [e])[..|h|] == h;
    hide Distinct, ShowsOnlyHeld, ShowsAll, ModsMatch;
    match e
    case Press(k) => PressTracks(s, h, k);
    case Release(k) => ReleaseTracks(s, h, k);
    case Clear => ClearTracks(s, h);
    case Sync =>
  }

  // ----- Consequences for the host -----

  /** Whenever the state is acknowledged and six slots were always enough, the report the host last
      got is exactly the held set: no key is missing, extra or shown twice. */
  lemma ReportIsExactlyHeld(s: Kbd, h: seq<Event>)
    requires Tracks(s, h) && s.sent && NeverCrowded(h)
    ensures (set k | k in s.report.keys && k != 0) == RegularHeld(h)
    ensures forall i :: 0 <= i < 8 ==> (BitIsSet(s.report.mods, i) <==> ModifierKey(i) in Held(h))
    ensures Distinct(s.report.keys)
  {
  }

  // ----- Whole runs -----

  /** An event, whether the state is to be offered anew, and what the bus does with it. */
  datatype Moment = Moment(event: Event, changed: bool, bus: Bus)

  /** Key zero is never passed on, and every change is offered. */
  predicate Sound(ms: seq<Moment>) {
    forall i :: 0 <= i < |ms| ==>
      && (ms[i].event.Press? ==> ms[i].event.key != 0)
      && (!ms[i].event.Sync? ==> ms[i].changed)
  }

  function RunOf(ms: seq<Moment>): Kbd {
    if ms == [] then INITIAL
    else
      var m := ms[|ms| - 1];
      Offer(Apply(RunOf(ms[..|ms| - 1]), m.event), m.changed, m.bus)
  }

  function Events(ms: seq<Moment>): (r: seq<Event>)
    ensures |r| == |ms|
  {
    if ms == [] then [] else Events(ms[..|ms| - 1]) + [ms[|ms| - 1].event]
  }

  /** At every moment since the last clear each held regular key was in a slot. */
  ghost predicate AlwaysShown(ms: seq<Moment>) {
    ms == [] ||
    (ShowsAll(RunOf(ms).keys, Held(Events(ms))) && (ms[|ms| - 1].event.Clear? || AlwaysShown(ms[..|ms| - 1])))
  }

  /** Over every run, whatever the bus does, the keyboard is true to its history. */
  lemma {:induction false} EveryRunTracks(ms: seq<Moment>)
    requires Sound(ms)
    ensures Tracks(RunOf(ms), Events(ms))
  {
    hide Tracks, Offer, Apply;
    if ms == [] {
      NothingHeldTracks();
    } else {
      var before, m := ms[..|ms| - 1], ms[|ms| - 1];
      EveryRunTracks(before);
      EventTracks(RunOf(before), Events(before), m.event, m.changed, m.bus);
    }
  }

  /** The bus has taken a report since the last change was offered. */
  predicate IsUpToDate(ms: seq<Moment>) {
    ms == [] ||
    var m := ms[|ms| - 1];
    (!m.bus.suspended && m.bus.accepts) || (!m.changed && IsUpToDate(ms[..|ms| - 1]))
  }

  /** Over every run a report is owed exactly as long as the bus has not taken one since the last change:
      a refused or suspended one is offered again at every later moment. */
  lemma {:induction false} SentIffUpToDate(ms: seq<Moment>)
    ensures RunOf(ms).sent <==> IsUpToDate(ms)
  {
    if ms != [] {
      SentIffUpToDate(ms[..|ms| - 1]);
    }
  }

  lemma NothingHeldTracks()
    ensures Tracks(INITIAL, [])
  {
    NoBitIsSet();
  }

  /** Six slots cannot show a seventh key. */
  lemma ShownIsNotCrowded(keys: Slots, h: seq<Event>)
    requires ShowsAll(keys, Held(h))
    ensures |RegularHeld(h)| <= 6
  {
    var slots := {keys[0], keys[1], keys[2], keys[3], keys[4], keys[5]};
    assert RegularHeld(h) <= slots;
    SubsetSize(RegularHeld(h), slots);
    AtMostSix(keys[0], keys[1], keys[2], keys[3], keys[4], keys[5]);
  }

  lemma AtMostSix(a: Key, b: Key, c: Key, d: Key, e: Key, f: Key)
    ensures |{a, b, c, d, e, f}| <= 6
  {
    assert {a, b, c, d, e, f} == {a} + {b} + {c} + {d} + {e} + {f};
  }

  /** Over every run: all held regular keys were in the slots at every moment since the last clear if
      and only if at most six of them were ever held together. */
  lemma {:induction false} ShownIffNeverCrowded(ms: seq<Moment>)
    requires Sound(ms)
    ensures AlwaysShown(ms) <==> NeverCrowded(Events(ms))
  {
    hide ShowsAll, Distinct, ShowsOnlyHeld, ModsMatch, Apply, Offer;
    if ms != [] {
      var before := ms[..|ms| - 1];
      ShownIffNeverCrowded(before);
      EveryRunTracks(ms);
      assert Events(ms)[..|ms| - 1] == Events(before);
      if ShowsAll(RunOf(ms).keys, Held(Events(ms))) {
        ShownIsNotCrowded(RunOf(ms).keys, Events(ms));
      }
    }
  }

  /** Over every run: whenever the state is acknowledged, the report the host last got has the modifiers
      held, and its keys are exactly the regular keys held as long as at most six of them were ever
      held together since the last clear. */
  lemma HostSeesExactlyHeld(ms: seq<Moment>)
    requires Sound(ms) && RunOf(ms).sent
    ensures var r := RunOf(ms).report;
      && Distinct(r.keys)
      && (forall i :: 0 <= i < 8 ==> (BitIsSet(r.mods, i) <==> ModifierKey(i) in Held(Events(ms))))
      && (NeverCrowded(Events(ms)) ==> (set k | k in r.keys && k != 0) == RegularHeld(Events(ms)))
      && (|RegularHeld(Events(ms))| > 6 ==> (set k | k in r.keys && k != 0) != RegularHeld(Events(ms)))
  {
    EveryRunTracks(ms);
    var s, h := RunOf(ms), Events(ms);
    if NeverCrowded(h) { ReportIsExactlyHeld(s, h); }
    if (set k | k in s.report.keys && k != 0) == RegularHeld(h) {
      SetShows(s.report.keys, h);
      ShownIsNotCrowded(s.report.keys, h);
    }
  }

  lemma SetShows(keys: Slots, h: seq<Event>)
    requires (set k | k in keys && k != 0) == RegularHeld(h)
    ensures ShowsAll(keys, Held(h))
  {
    forall k | k in Held(h) && !IsModifier(k) ensures k in keys {
      assert k in RegularHeld(h);
    }
  }

  /** What overflow costs: a held key that lost its slot stays invisible until it is pressed again
      (or everything is cleared), even when slots become free. */
  lemma {:induction false} EvictedStaysHidden(s: Kbd, k: Key, events: seq<Event>)
    requires k != 0 && !IsModifier(k) && k !in s.keys && Press(k) !in events
    ensures k !in ApplyAll(s, events).keys
    decreases |events|
  {
    if events != [] {
      assert events[0] != Press(k);
      assert k !in Apply(s, events[0]).keys;
      EvictedStaysHidden(Apply(s, events[0]), k, events[1..]);
    }
  }

  function ApplyAll(s: Kbd, events: seq<Event>): Kbd
    decreases |events|
  {
    if events == [] then s else ApplyAll(Apply(s, events[0]), events[1..])
  }

  /** A seventh key makes the bound of six sharp: it takes the slot of a key that is still held. */
  lemma SeventhKeyEvicts(s: Kbd, h: seq<Event>, k: Key)
    requires Tracks(s, h) && 0 !in s.keys && k != 0 && !IsModifier(k) && k !in s.keys
    ensures var t := Apply(s, Press(k)); var lost := s.keys[0];
      lost in Held(h + [Press(k)]) && lost !in t.keys && k in t.keys
  {
    assert (h + [Press(k)])[..|h|] == h;
    var t := Apply(s, Press(k));
    assert t.keys[0] == k;
  }

  // ----- Exactly when the report is the held set -----

  /** The event takes the slot of `k` for another key. */
  predicate EvictsNow(s: Kbd, e: Event, k: Key) {
    e.Press? && !IsModifier(e.key) && e.key !in s.keys && 0 !in s.keys && s.keys[0] == k
  }

  /** Since it was last pressed, `k` has lost its slot to another key. */
  predicate Evicted(ms: seq<Moment>, k: Key) {
    if ms == [] then false
    else
      var before, e := ms[..|ms| - 1], ms[|ms| - 1].event;
      e != Press(k) && (EvictsNow(RunOf(before), e, k) || Evicted(before, k))
  }

  lemma StepShows(s: Kbd, e: Event, k: Key)
    requires Distinct(s.keys) && k != 0 && !IsModifier(k)
    ensures k in Apply(s, e).keys <==>
      e == Press(k) || (k in s.keys && e != Release(k) && !e.Clear? && !EvictsNow(s, e, k))
  {
    match e
    case Press(x) => if !IsModifier(x) { PressKeeps(s.keys, x, k); }
    case Release(x) => if !IsModifier(x) { ReleaseKeeps(s.keys, x, k); }
    case Clear =>
    case Sync =>
  }

  lemma PressKeeps(keys: Slots, x: Key, k: Key)
    requires Distinct(keys) && k != 0
    ensures k in PressSlots(keys, x) <==>
      k == x || (k in keys && !(x !in keys && 0 !in keys && keys[0] == k))
  {
    if x !in keys {
      var pos := FreeSlotBelow(keys, 6);
      var at := if pos >= 0 then pos else 0;
      assert PressSlots(keys, x)[at] == x;
      if k in keys {
        var i :| 0 <= i < 6 && keys[i] == k;
        assert i != at ==> PressSlots(keys, x)[i] == k;
      }
    }
  }

  lemma ReleaseKeeps(keys: Slots, x: Key, k: Key)
    requires k != 0
    ensures k in ReleaseSlots(keys, x) <==> k in keys && k != x
  {
    if k in keys && k != x {
      var i :| 0 <= i < 6 && keys[i] == k;
      assert ReleaseSlots(keys, x)[i] == k;
    }
  }

  /** Over every run: a regular key that is held is in a slot if and only if it has not been evicted
      since it was last pressed. */
  lemma {:induction false} HeldIsShownIff(ms: seq<Moment>, k: Key)
    requires Sound(ms) && k in RegularHeld(Events(ms))
    ensures k in RunOf(ms).keys <==> !Evicted(ms, k)
  {
    hide Distinct, ShowsOnlyHeld, ShowsAll, ModsMatch;
    var before, m := ms[..|ms| - 1], ms[|ms| - 1];
    EveryRunTracks(before);
    EveryRunTracks(ms);
    assert Events(ms)[..|ms| - 1] == Events(before);
    StepShows(RunOf(before), m.event, k);
    hide Apply;
    if m.event != Press(k) {
      HeldIsShownIff(before, k);
    }
  }

  /** Over every run: an acknowledged report has exactly the regular keys held if and only if none of
      them has been evicted since it was last pressed. */
  lemma HostSeesHeldIff(ms: seq<Moment>)
    requires Sound(ms) && RunOf(ms).sent
    ensures (set k | k in RunOf(ms).report.keys && k != 0) == RegularHeld(Events(ms))
       <==> forall k :: k in RegularHeld(Events(ms)) ==> !Evicted(ms, k)
  {
    hide Evicted, Distinct, ModsMatch, ShowsAll, RegularHeld;
    EveryRunTracks(ms);
    var keys, held := RunOf(ms).keys, RegularHeld(Events(ms));
    assert RunOf(ms).report.keys == keys;
    forall k | k in held ensures k != 0 && (k in keys <==> !Evicted(ms, k)) {
      HeldIsShownIff(ms, k);
      HeldIsRegular(Events(ms), k);
    }
    forall k | k in keys && k != 0 ensures k in held {
      HeldIsRegular(Events(ms), k);
    }
    var shown := set k | k in keys && k != 0;
    SameIff(shown, held);
  }

  lemma SameIff(shown: set<Key>, held: set<Key>)
    requires shown <= held
    ensures shown == held <==> forall k :: k in held ==> k in shown
  {
    if forall k :: k in held ==> k in shown {
      assert held <= shown;
    }
  }

  lemma HeldIsRegular(h: seq<Event>, k: Key)
    ensures k in RegularHeld(h) <==> k in Held(h) && !IsModifier(k)
  {
  }

  /** A bus that takes every report. */
  const READY := Bus(false, true)

  function Pressed(k: Key): Moment {
    Moment(Press(k), true, READY)
  }

  lemma MomentSnoc(ms: seq<Moment>, e: Event)
    ensures var t := RunOf(ms + [Moment(e, true, READY)]);
      t.sent && t.keys == Apply(RunOf(ms), e).keys && t.report.keys == t.keys
    ensures Events(ms + [Moment(e, true, READY)]) == Events(ms) + [e]
    ensures Sound(ms) && (e.Press? ==> e.key != 0) ==> Sound(ms + [Moment(e, true, READY)])
  {
    assert (ms + [Moment(e, true, READY)])[..|ms|] == ms;
  }

  /** The last free slot is the one that is filled. */
  lemma PressedIntoFree(ms: seq<Moment>, k: Key, at: nat) returns (more: seq<Moment>)
    requires Sound(ms) && at < 6 && k != 0 && !IsModifier(k) && k !in RunOf(ms).keys
    requires RunOf(ms).keys[at] == 0 && forall j :: at < j < 6 ==> RunOf(ms).keys[j] != 0
    ensures Sound(more) && RunOf(more).keys == RunOf(ms).keys[at := k]
    ensures Held(Events(more)) == Held(Events(ms)) + {k}
  {
    hide RunOf, Events;
    more := ms + [Pressed(k)];
    MomentSnoc(ms, Press(k));
    FreeSlotIs(RunOf(ms).keys, 6, at);
    assert (Events(ms) + [Press(k)])[..|ms|] == Events(ms);
  }

  lemma {:induction false} FreeSlotIs(keys: Slots, n: nat, at: nat)
    requires at < n <= 6 && keys[at] == 0 && forall j :: at < j < n ==> keys[j] != 0
    ensures FreeSlotBelow(keys, n) == at
  {
    if at < n - 1 { FreeSlotIs(keys, n - 1, at); }
  }

  lemma ThreePressed() returns (ms: seq<Moment>)
    ensures Sound(ms) && RunOf(ms).keys == [0, 0, 0, 6, 5, 4]
    ensures Held(Events(ms)) == {4, 5, 6}
  {
    ms := [];
    assert RunOf(ms).keys == EMPTY && Held(Events(ms)) == {};
    hide RunOf, Events, Held, Sound;
    ms := PressedIntoFree(ms, 4, 5);
    ms := PressedIntoFree(ms, 5, 4);
    ms := PressedIntoFree(ms, 6, 3);
  }

  lemma SixPressed() returns (ms: seq<Moment>)
    ensures Sound(ms) && RunOf(ms).keys == [9, 8, 7, 6, 5, 4]
    ensures Held(Events(ms)) == {4, 5, 6, 7, 8, 9}
  {
    hide RunOf, Events, Held, Sound;
    ms := ThreePressed();
    ms := PressedIntoFree(ms, 7, 2);
    ms := PressedIntoFree(ms, 8, 1);
    ms := PressedIntoFree(ms, 9, 0);
  }

  /** A run in which a seventh key is pressed and released again: six keys are held, all reports are
      accepted, and still one of the six is missing from the last of them. */
  lemma EvictionOutlastsTheSeventhKey() returns (ms: seq<Moment>)
    ensures Sound(ms) && RunOf(ms).sent && RegularHeld(Events(ms)) == {4, 5, 6, 7, 8, 9}
    ensures 9 !in RunOf(ms).report.keys && Evicted(ms, 9)
  {
    var six := SixPressed();
    var seven := six + [Pressed(10)];
    hide RunOf, Events;
    MomentSnoc(six, Press(10));
    MomentSnoc(seven, Release(10));
    ms := seven + [Moment(Release(10), true, READY)];
    assert Events(ms)[..|seven|] == Events(seven) && Events(seven)[..|six|] == Events(six);
    assert RunOf(seven).keys == [10, 8, 7, 6, 5, 4];
    assert Held(Events(ms)) == {4, 5, 6, 7, 8, 9};
    HeldIsShownIff(ms, 9);
  }

  // ----- Long offline detection -----

  datatype Sample = Sample(online: bool, now: nat)

  const OFFLINE_US: nat := 50000

  /** When the current stretch of offline samples began, if there is one. */
  function OfflineSince(h: seq<Sample>): (since: seq<nat>)
    ensures |since| <= 1
  {
    if h == [] || h[|h| - 1].online then []
    else
      var before := OfflineSince(h[..|h| - 1]);
      if before != [] then before else [h[|h| - 1].now]
  }

  /** The device has been seen offline for more than 50 ms without interruption. */
  predicate LongOffline(h: seq<Sample>) {
    var since := OfflineSince(h);
    since != [] && since[0] + OFFLINE_US < h[|h| - 1].now
  }

  predicate InOrder(h: seq<Sample>) {
    forall i, j :: 0 <= i < j < |h| ==> h[i].now <= h[j].now
  }

  predicate OfflineFrom(h: seq<Sample>, i: nat) {
    i < |h| && forall j :: i <= j < |h| ==> !h[j].online
  }

  /** The stretch is that of the last samples, as far as they are all offline. */
  lemma {:induction false} OfflineStretch(h: seq<Sample>, i: nat)
    requires InOrder(h) && OfflineFrom(h, i)
    ensures OfflineSince(h) != [] && OfflineSince(h)[0] <= h[i].now
  {
    var before := h[..|h| - 1];
    if i < |before| {
      assert OfflineFrom(before, i);
      OfflineStretch(before, i);
    } else if OfflineSince(before) != [] {
      var k := StretchStart(before);
    }
  }

  lemma {:induction false} StretchStart(h: seq<Sample>) returns (k: nat)
    requires OfflineSince(h) != []
    ensures OfflineFrom(h, k) && OfflineSince(h)[0] == h[k].now
  {
    var before := h[..|h| - 1];
    if OfflineSince(before) != [] {
      k := StretchStart(before);
    } else {
      k := |h| - 1;
    }
  }

  /** The flag falls, on a clock that does not run backwards, if and only if all samples over more than
      50000 microseconds up to the last one were offline. */
  lemma LongOfflineMeans(h: seq<Sample>)
    requires InOrder(h)
    ensures LongOffline(h) <==> exists i: nat :: OfflineFrom(h, i) && h[i].now + 50000 < h[|h| - 1].now
  {
    if OfflineSince(h) != [] {
      var k := StretchStart(h);
    }
    if i: nat :| OfflineFrom(h, i) && h[i].now + 50000 < h[|h| - 1].now {
      OfflineStretch(h, i);
    }
  }

  // ----- The code -----

  class UsbKbd {
    const iface: int
    const isKbdUsb: bool
    var mods: bv8
    var keys: array<Key>
    var sent: bool
    var online: bool
    var offlineTs: nat
    var prevOnline: bool
    ghost var report: Report
    ghost var history: seq<Event>
    ghost var samples: seq<Sample>

    ghost predicate Active()
      reads this
    {
      iface >= 0 && isKbdUsb
    }

    ghost function View(): Kbd
      requires keys.Length == 6
      reads this, keys
    {
      Kbd(mods, keys[..], sent, report)
    }

    ghost predicate Valid()
      reads this, keys
    {
      && keys.Length == 6
      && (Active() ==> Tracks(View(), history))
      && (!Active() ==> mods == 0 && keys[..] == EMPTY)
      && IfaceTracks()
    }

    ghost predicate IfaceTracks()
      reads this`samples, this`online, this`prevOnline, this`offlineTs
    {
      && online == !LongOffline(samples)
      && prevOnline == (OfflineSince(samples) == [])
      && (!prevOnline ==> OfflineSince(samples) == [offlineTs])
    }

    constructor (iface: int, isKbdUsb: bool)
      ensures Valid() && fresh(keys) && history == [] && samples == []
      ensures this.iface == iface && this.isKbdUsb == isKbdUsb
    {
      this.iface, this.isKbdUsb := iface, isKbdUsb;
      mods := 0;
      keys := new Key[6](_ => 0);
      sent := true;
      online, offlineTs, prevOnline := true, 0, true;
      report := Report(0, EMPTY);
      history, samples := [], [];
      new;
      assert keys[..] == EMPTY;
      NoBitIsSet();
    }

    /** Brings the host up to date if needed and possible. */
    method SyncReport(new_: bool, bus: Bus)
      requires keys.Length == 6
      modifies this`mods, this`sent, this`report, keys
      ensures Active() ==> View() == Offer(old(View()), new_, bus)
      ensures !Active() ==> mods == 0 && keys[..] == EMPTY && sent && report == old(report)
    {
      if iface < 0 || !isKbdUsb {
        mods := 0;
        forall i | 0 <= i < 6 {
          keys[i] := 0;
        }
        sent := true;
        return;
      }
      if new_ {
        sent := false;
      }
      if !sent {
        if bus.suspended {
          // only a remote wakeup is requested
        } else {
          sent := bus.accepts;
          if bus.accepts {
            report := Report(mods, keys[..]);
          }
        }
      }
    }

    method PressRegular(key: Key)
      requires keys.Length == 6 && key != 0
      modifies keys
      ensures keys[..] == PressSlots(old(keys[..]), key)
    {
      var pos := -1;
      var i := 0;
      while i < 6
        invariant 0 <= i <= 6 && keys[..] == old(keys[..])
        invariant pos == FreeSlotBelow(keys[..], i)
        invariant forall j :: 0 <= j < i ==> keys[j] != key
      {
        if keys[i] == key {
          return;
        } else if keys[i] == 0 {
          pos := i;
        }
        i := i + 1;
      }
      assert key !in keys[..];
      keys[if pos >= 0 then pos else 0] := key;
    }

    method ReleaseRegular(key: Key)
      requires keys.Length == 6 && key != 0 && Distinct(keys[..])
      modifies keys
      ensures keys[..] == ReleaseSlots(old(keys[..]), key)
    {
      ghost var before := keys[..];
      var i := 0;
      while i < 6
        invariant 0 <= i <= 6 && keys[..] == before
        invariant forall j :: 0 <= j < i ==> keys[j] != key
      {
        if keys[i] == key {
          keys[i] := 0;
          break;
        }
        i := i + 1;
      }
      assert keys[..] == ReleaseSlots(before, key);
    }

    /** A key event from the host side. The caller has filtered out unmapped keys. */
    method SendKey(key: Key, state: bool, bus: Bus)
      requires Valid() && key != 0
      modifies this`mods, this`sent, this`report, this`history, keys
      ensures Valid()
      ensures Active() ==> history == old(history) + [if state then Press(key) else Release(key)]
      ensures Active() ==> View() == Offer(Apply(old(View()), history[|history| - 1]), true, bus)
    {
      hide Tracks, Apply, IfaceTracks, Distinct;
      if iface < 0 {
        return;
      }
      DistinctSlots();
      ghost var e := if state then Press(key) else Release(key);
      if Active() {
        EventTracks(View(), history, e, true, bus);
        history := history + [e];
      }
      if state {
        PressAny(key);
      } else {
        ReleaseAny(key);
      }
      SyncReport(true, bus);
    }

    method PressAny(key: Key)
      requires keys.Length == 6 && key != 0
      modifies this`mods, keys
      ensures View() == Apply(old(View()), Press(key))
    {
      hide Distinct, Apply, Bit, PressSlots;
      ghost var was := View();
      if IsModifier(key) {
        mods := mods | Bit(key);
        ModifierApplied(was, key);
      } else {
        PressRegular(key);
        RegularApplied(was, key);
      }
    }

    method ReleaseAny(key: Key)
      requires keys.Length == 6 && key != 0 && Distinct(keys[..])
      modifies this`mods, keys
      ensures View() == Apply(old(View()), Release(key))
    {
      hide Distinct, Apply, Bit, ReleaseSlots;
      ghost var was := View();
      if IsModifier(key) {
        mods := mods & !Bit(key);
        ModifierApplied(was, key);
      } else {
        ReleaseRegular(key);
        RegularApplied(was, key);
      }
    }

    lemma DistinctSlots()
      requires Valid()
      ensures Distinct(keys[..])
    {
    }

    method SendClear(bus: Bus)
      requires Valid()
      modifies this`mods, this`sent, this`report, this`history, keys
      ensures Valid()
      ensures Active() ==> history == old(history) + [Clear] && mods == 0 && keys[..] == EMPTY
    {
      if isKbdUsb {
        if Active() {
          EventTracks(View(), history, Clear, true, bus);
          history := history + [Clear];
        }
        mods := 0;
        forall i | 0 <= i < 6 {
          keys[i] := 0;
        }
        assert keys[..] == EMPTY;
        SyncReport(true, bus);
      }
    }

    /** The online check of the interface. */
    method CheckIface(nowOnline: bool, now: nat) returns (force: bool)
      requires IfaceTracks() && (samples != [] ==> samples[|samples| - 1].now <= now)
      modifies this`samples, this`online, this`offlineTs, this`prevOnline
      ensures IfaceTracks() && samples == old(samples) + [Sample(nowOnline, now)]
      ensures force <==> nowOnline && LongOffline(old(samples))
    {
      hide OfflineSince, LongOffline;
      force := false;
      if nowOnline {
        if !online {
          force := true;
        }
        online := true;
        offlineTs := 0;
      } else if prevOnline && !nowOnline {
        offlineTs := now;
      } else if !prevOnline && !nowOnline && offlineTs + OFFLINE_US < now {
        online := false;
      }
      prevOnline := nowOnline;
      if nowOnline {
        OnlineStep(samples, now);
      } else {
        OfflineStep(samples, now);
      }
      samples := samples + [Sample(nowOnline, now)];
    }

    /** The periodic poll: a return from a long absence forces a fresh report. */
    method Poll(nowOnline: bool, now: nat, bus: Bus) returns (force: bool)
      requires Valid() && (samples != [] ==> samples[|samples| - 1].now <= now)
      modifies this`mods, this`sent, this`report, this`history, this`samples, keys
      modifies this`online, this`offlineTs, this`prevOnline
      ensures Valid()
      ensures iface >= 0 ==> samples == old(samples) + [Sample(nowOnline, now)]
      ensures force <==> iface >= 0 && nowOnline && LongOffline(old(samples))
      ensures Active() ==> View() == Offer(old(View()), force, bus)
    {
      hide Tracks, LongOffline, OfflineSince, IfaceTracks;
      force := false;
      if iface >= 0 {
        force := CheckIface(nowOnline, now);
        if Active() {
          EventTracks(View(), history, Sync, force, bus);
          history := history + [Sync];
        }
        SyncReport(force, bus);
      }
    }
  }

  /** How one more sample changes the reference. */
  lemma OnlineStep(h: seq<Sample>, now: nat)
    ensures OfflineSince(h + [Sample(true, now)]) == [] && !LongOffline(h + [Sample(true, now)])
  {
  }

  lemma OfflineStep(h: seq<Sample>, now: nat)
    requires h != [] ==> h[|h| - 1].now <= now
    ensures var since := OfflineSince(h); var after := h + [Sample(false, now)];
      && OfflineSince(after) == (if since == [] then [now] else since)
      && (LongOffline(after) <==> since != [] && since[0] + OFFLINE_US < now)
      && (LongOffline(h) ==> LongOffline(after))
      && (since == [] ==> !LongOffline(h))
  {
    assert (h + [Sample(false, now)])[..|h|] == h;
  }
}
