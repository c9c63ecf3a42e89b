/** Typing a text: modifiers are pressed only when the next character needs them and released only
    when it does not, so the stream of key events is short; replayed on a keyboard it must still type
    each character with exactly its own modifiers. */
module TextPrinter {
  import opened Wrappers
  import opened Keysym

  const KEY_TAB := 15
  const KEY_ENTER := 28
  const KEY_SPACE := 57

  const PLAIN := Mods(false, false, false)

  /** What the C library knows about characters. */
  datatype Chars = Chars(printable: char -> bool, keysym: char -> Symbol)

  datatype KeyEvent = KeyEvent(key: int, down: bool)

  // ----- Reference: the choice for each character, typed one by one -----

  /** Typographic quotes and dashes are typed as plain ones; the long dash would need two keys, and so
      none is typed. */
  function Plainer(ch: char): Option<char> {
    if ch in {'\U{201A}', '\U{2018}', '\U{2019}'} then Some('\'')
    else if ch in {'\U{201E}', '\U{201C}', '\U{201D}'} then Some('"')
    else if ch == '\U{2013}' then Some('-')
    else if ch == '\U{2014}' then None
    else Some(ch)
  }

  /** Low, left and right quotes, single and double, and the short dash have a plain counterpart; the long
      dash has none that is one character, and all else is typed as it is. */
  lemma PlainerMeans(ch: char)
    ensures ch as int in {0x2018, 0x2019, 0x201A} ==> Plainer(ch) == Some('\'')
    ensures ch as int in {0x201C, 0x201D, 0x201E} ==> Plainer(ch) == Some('\"')
    ensures ch as int == 0x2013 ==> Plainer(ch) == Some('-')
    ensures ch as int == 0x2014 ==> Plainer(ch) == None
    ensures ch as int !in {0x2018, 0x2019, 0x201A, 0x201C, 0x201D, 0x201E, 0x2013, 0x2014} ==> Plainer(ch) == Some(ch)
  {
  }

  function ChoicesFor(chars: Chars, symmap: map<Symbol, seq<Choice>>, ch: char): seq<Choice> {
    if ch == '\n' then [Choice(PLAIN, KEY_ENTER)]
    else if ch == '\t' then [Choice(PLAIN, KEY_TAB)]
    else if ch == ' ' then [Choice(PLAIN, KEY_SPACE)]
    else match Plainer(ch)
      case None => []
      case Some(c) =>
        if chars.printable(c) && chars.keysym(c) in symmap then symmap[chars.keysym(c)] else []
  }

  function Picks(chars: Chars, symmap: map<Symbol, seq<Choice>>, text: string): seq<Choice> {
    if text == [] then []
    else
      var pick := Pick(ChoicesFor(chars, symmap, text[|text| - 1]));
      Picks(chars, symmap, text[..|text| - 1]) + if pick.Some? then [pick.value] else []
  }

  // ----- A keyboard that receives events -----

  /** A key that went down and came up again at once, with what was held when it went down. */
  datatype Typed = Typed(mods: set<int>, key: int)

  /** `begun` is the key that just went down, if the last event was one. */
  datatype Keyboard = Keyboard(held: set<int>, typed: seq<Typed>, begun: Option<Typed>)

  const RELEASED := Keyboard({}, [], None)

  function Press(kb: Keyboard, e: KeyEvent): Keyboard {
    if e.down then Keyboard(kb.held + {e.key}, kb.typed, Some(Typed(kb.held, e.key)))
    else if kb.begun.Some? && kb.begun.value.key == e.key
    then Keyboard(kb.held - {e.key}, kb.typed + [kb.begun.value], None)
    else Keyboard(kb.held - {e.key}, kb.typed, None)
  }

  function Replay(kb: Keyboard, es: seq<KeyEvent>): Keyboard {
    if es == [] then kb else Press(Replay(kb, es[..|es| - 1]), es[|es| - 1])
  }

  function Held(shift: bool, altgr: bool): set<int> {
    (if shift then {KEY_LEFTSHIFT} else {}) + if altgr then {KEY_RIGHTALT} else {}
  }

  function ModsOf(c: Choice): set<int> {
    Held(c.mods.shift, c.mods.altgr)
  }

  /** Typing one by one: each key goes down while exactly its own modifiers are held. */
  function Naive(picks: seq<Choice>): (r: seq<Typed>)
    ensures |r| == |picks|
  {
    if picks == [] then []
    else Naive(picks[..|picks| - 1]) + [NaiveOf(picks[|picks| - 1])]
  }

  function NaiveOf(c: Choice): Typed {
    Typed(ModsOf(c), c.key)
  }

  /** The keys down besides the two lazy modifiers. */
  function Others(kb: Keyboard): set<int> {
    kb.held - {KEY_LEFTSHIFT, KEY_RIGHTALT}
  }

  /** At every moment of the replay at most one of them is down. */
  predicate OneAtATime(kb: Keyboard, es: seq<KeyEvent>) {
    |Others(Replay(kb, es))| <= 1 && (es != [] ==> OneAtATime(kb, es[..|es| - 1]))
  }

  // ----- The code's stream -----

  datatype Stream = Stream(shift: bool, altgr: bool, events: seq<KeyEvent>)

  function Toggle(want: bool, have: bool, key: int): seq<KeyEvent> {
    if want == have then [] else [KeyEvent(key, want)]
  }

  function Emit(st: Stream, c: Choice): Stream {
    Stream(c.mods.shift, c.mods.altgr,
           st.events + Toggle(c.mods.shift, st.shift, KEY_LEFTSHIFT) + Toggle(c.mods.altgr, st.altgr, KEY_RIGHTALT)
           + [KeyEvent(c.key, true), KeyEvent(c.key, false)])
  }

  function EmitAll(picks: seq<Choice>): Stream {
    if picks == [] then Stream(false, false, [])
    else Emit(EmitAll(picks[..|picks| - 1]), picks[|picks| - 1])
  }

  function Events(picks: seq<Choice>): seq<KeyEvent> {
    var st := EmitAll(picks);
    st.events + Toggle(false, st.shift, KEY_LEFTSHIFT) + Toggle(false, st.altgr, KEY_RIGHTALT)
  }

  // ----- Replaying the stream -----

  lemma {:induction false} ReplaySum(kb: Keyboard, a: seq<KeyEvent>, b: seq<KeyEvent>)
    ensures Replay(kb, a + b) == Replay(Replay(kb, a), b)
  {
    if b == [] {
      assert a + b == a;
    } else {
      assert (a + b)[..|a + b| - 1] == a + b[..|b| - 1];
      ReplaySum(kb, a, b[..|b| - 1]);
    }
  }

  lemma {:induction false} OneAtATimeMeans(kb: Keyboard, es: seq<KeyEvent>, n: nat)
    requires OneAtATime(kb, es) && n <= |es|
    ensures |Others(Replay(kb, es[..n]))| <= 1
  {
    hide Others, Replay;
    if n < |es| {
      OneAtATimeMeans(kb, es[..|es| - 1], n);
      assert es[..|es| - 1][..n] == es[..n];
    } else {
      assert es[..n] == es;
    }
  }

  lemma {:induction false} OneAtATimeSum(kb: Keyboard, a: seq<KeyEvent>, b: seq<KeyEvent>)
    requires OneAtATime(kb, a) && OneAtATime(Replay(kb, a), b)
    ensures OneAtATime(kb, a + b)
  {
    if b == [] {
      assert a + b == a;
    } else {
      assert (a + b)[..|a + b| - 1] == a + b[..|b| - 1];
      OneAtATimeSum(kb, a, b[..|b| - 1]);
      ReplaySum(kb, a, b);
    }
  }

  /** What is held after a toggle, given what the program believes. */
  function Toggled(held: set<int>, want: bool, have: bool, key: int): set<int> {
    if want == have then held else if want then held + {key} else held - {key}
  }

  /** What is held when the key of a choice goes down. */
  function HeldFor(held: set<int>, st: Stream, c: Choice): set<int> {
    Toggled(Toggled(held, c.mods.shift, st.shift, KEY_LEFTSHIFT), c.mods.altgr, st.altgr, KEY_RIGHTALT)
  }

  /** No release of this key would complete a stroke. */
  predicate Apart(kb: Keyboard, key: int) {
    kb.begun.Some? ==> kb.begun.value.key != key
  }

  predicate OnlyLazy(held: set<int>) {
    held <= {KEY_LEFTSHIFT, KEY_RIGHTALT}
  }

  lemma ReplayOne(kb: Keyboard, e: KeyEvent)
    requires |Others(kb)| <= 1 && |Others(Press(kb, e))| <= 1
    ensures Replay(kb, [e]) == Press(kb, e) && OneAtATime(kb, [e])
  {
    hide Others, Press;
    assert [e][..0] == [];
  }

  lemma OthersOfLazy(kb: Keyboard)
    requires OnlyLazy(kb.held)
    ensures |Others(kb)| <= 1
  {
    assert Others(kb) == {};
  }

  lemma ToggleReplays(kb: Keyboard, want: bool, have: bool, key: int)
    requires Apart(kb, key) && (key == KEY_LEFTSHIFT || key == KEY_RIGHTALT) && OnlyLazy(kb.held)
    ensures var t := Replay(kb, Toggle(want, have, key));
      && t.held == Toggled(kb.held, want, have, key) && OnlyLazy(t.held) && t.typed == kb.typed
      && (t.begun == kb.begun || (t.begun.Some? && t.begun.value.key == key) || t.begun.None?)
    ensures OneAtATime(kb, Toggle(want, have, key))
  {
    hide Others;
    OthersOfLazy(kb);
    if want != have {
      var e := KeyEvent(key, want);
      assert OnlyLazy(Press(kb, e).held);
      OthersOfLazy(Press(kb, e));
      ReplayOne(kb, e);
      hide Replay, OneAtATime;
    }
  }

  lemma StrokeReplays(kb: Keyboard, key: int)
    requires OnlyLazy(kb.held)
    ensures Replay(kb, [KeyEvent(key, true), KeyEvent(key, false)])
         == Keyboard(kb.held - {key}, kb.typed + [Typed(kb.held, key)], None)
    ensures OneAtATime(kb, [KeyEvent(key, true), KeyEvent(key, false)])
  {
    var es := [KeyEvent(key, true), KeyEvent(key, false)];
    assert es[..1] == [es[0]] && [es[0]][..0] == [];
    assert Replay(kb, [es[0]]) == Press(kb, es[0]);
    assert Others(kb) == {} && Others(Press(kb, es[0])) <= {key};
    AtMostOne(Others(Press(kb, es[0])), key);
    assert kb.held + {key} - {key} == kb.held - {key};
    assert Others(Replay(kb, es)) == {};
  }

  lemma AtMostOne(s: set<int>, key: int)
    requires s <= {key}
    ensures |s| <= 1
  {
    assert s == {} || s == {key};
  }

  /** One choice, whatever the flags say and whatever is really held: its key goes down once. */
  lemma EmitReplays(kb: Keyboard, st: Stream, c: Choice)
    requires Replay(RELEASED, st.events) == kb && kb.begun.None? && OnlyLazy(kb.held)
    requires OneAtATime(RELEASED, st.events)
    ensures Replay(RELEASED, Emit(st, c).events)
         == Keyboard(HeldFor(kb.held, st, c) - {c.key}, kb.typed + [Typed(HeldFor(kb.held, st, c), c.key)], None)
    ensures OneAtATime(RELEASED, Emit(st, c).events)
  {
    hide OneAtATime, Replay, Toggle;
    var a, b := Toggle(c.mods.shift, st.shift, KEY_LEFTSHIFT), Toggle(c.mods.altgr, st.altgr, KEY_RIGHTALT);
    var stroke := [KeyEvent(c.key, true), KeyEvent(c.key, false)];
    ToggleReplays(kb, c.mods.shift, st.shift, KEY_LEFTSHIFT);
    var after := Replay(kb, a);
    ToggleReplays(after, c.mods.altgr, st.altgr, KEY_RIGHTALT);
    StrokeReplays(Replay(after, b), c.key);
    ReplaySum(RELEASED, st.events, a);
    ReplaySum(RELEASED, st.events + a, b);
    ReplaySum(RELEASED, st.events + a + b, stroke);
    OneAtATimeSum(RELEASED, st.events, a);
    OneAtATimeSum(RELEASED, st.events + a, b);
    OneAtATimeSum(RELEASED, st.events + a + b, stroke);
  }

  /** The keyboard after a number of choices. */
  function After(picks: seq<Choice>): Keyboard {
    Replay(RELEASED, EmitAll(picks).events)
  }

  /** After any number of choices, whatever they are: nothing is held that the flags do not say, and
      there has been one stroke for each choice. */
  lemma {:induction false} EmittedSoFar(picks: seq<Choice>)
    ensures var st, kb := EmitAll(picks), After(picks);
      && kb.held <= Held(st.shift, st.altgr) && kb.begun.None? && |kb.typed| == |picks|
    ensures OneAtATime(RELEASED, EmitAll(picks).events)
  {
    if picks != [] {
      hide OneAtATime, Replay, Emit;
      var before, c := picks[..|picks| - 1], picks[|picks| - 1];
      EmittedSoFar(before);
      var st, kb := EmitAll(before), After(before);
      EmitReplays(kb, st, c);
      EmitFlags(st, c);
    }
  }

  lemma EmitFlags(st: Stream, c: Choice)
    ensures Emit(st, c).shift == c.mods.shift && Emit(st, c).altgr == c.mods.altgr
  {
  }

  /** One choice more. */
  lemma AfterSnoc(picks: seq<Choice>)
    requires picks != []
    ensures var before, c := picks[..|picks| - 1], picks[|picks| - 1];
            var held := HeldFor(After(before).held, EmitAll(before), c);
      && After(picks) == Keyboard(held - {c.key}, After(before).typed + [Typed(held, c.key)], None)
      && EmitAll(picks).shift == c.mods.shift && EmitAll(picks).altgr == c.mods.altgr
  {
    hide OneAtATime, Replay, Emit;
    var before, c := picks[..|picks| - 1], picks[|picks| - 1];
    EmittedSoFar(before);
    EmitReplays(After(before), EmitAll(before), c);
    EmitFlags(EmitAll(before), c);
  }

  // ----- The real conditions -----

  /** The key of the choice is one of the modifiers to hold: its stroke releases that modifier. */
  predicate Own(c: Choice) {
    c.key in ModsOf(c)
  }

  predicate NoneOwn(picks: seq<Choice>) {
    forall i :: 0 <= i < |picks| ==> !Own(picks[i])
  }

  /** The flags say what is held. */
  predicate Faithful(picks: seq<Choice>) {
    After(picks).held == Held(EmitAll(picks).shift, EmitAll(picks).altgr)
  }

  lemma OwnIsReleased(picks: seq<Choice>)
    requires picks != [] && Own(picks[|picks| - 1])
    ensures !Faithful(picks)
  {
    AfterSnoc(picks);
  }

  lemma {:induction false} FaithfulSoFar(picks: seq<Choice>)
    requires NoneOwn(picks)
    ensures Faithful(picks)
  {
    if picks != [] {
      hide After, EmitAll;
      var before := picks[..|picks| - 1];
      FaithfulSoFar(before);
      AfterSnoc(picks);
      assert !Own(picks[|picks| - 1]);
    } else {
      assert After(picks) == RELEASED && Held(false, false) == {};
    }
  }

  /** For any choices: the flags say what is held after every number of them if and only if none is its
      own modifier. */
  lemma FlagsAreTrueIff(picks: seq<Choice>)
    ensures (forall n :: 0 <= n <= |picks| ==> Faithful(picks[..n])) <==> NoneOwn(picks)
  {
    hide Faithful, Own;
    if NoneOwn(picks) {
      forall n | 0 <= n <= |picks| ensures Faithful(picks[..n]) {
        FaithfulSoFar(picks[..n]);
      }
    } else {
      var i :| 0 <= i < |picks| && Own(picks[i]);
      assert picks[..i + 1][i] == picks[i];
      OwnIsReleased(picks[..i + 1]);
    }
  }

  /** A choice releases one of its own modifiers, and the next one needs it: the program still
      believes that it is held. */
  predicate Forgets(c: Choice, next: Choice) {
    Own(c) && c.key in ModsOf(next)
  }

  predicate NeverForgets(picks: seq<Choice>) {
    forall i :: 0 < i < |picks| ==> !Forgets(picks[i - 1], picks[i])
  }

  /** What is really held after the last choice, if none has been typed wrongly. */
  lemma HeldForNext(held: set<int>, st: Stream, c: Choice, next: Choice)
    requires held == ModsOf(c) - {c.key} && st.shift == c.mods.shift && st.altgr == c.mods.altgr
    ensures HeldFor(held, st, next) == ModsOf(next) <==> !Forgets(c, next)
  {
  }

  lemma NeverForgetsSnoc(picks: seq<Choice>)
    requires picks != []
    ensures NeverForgets(picks) <==>
      NeverForgets(picks[..|picks| - 1])
      && (|picks| >= 2 ==> !Forgets(picks[|picks| - 2], picks[|picks| - 1]))
  {
    hide Forgets;
    var before := picks[..|picks| - 1];
    assert forall i :: 0 <= i < |before| ==> before[i] == picks[i];
  }

  lemma {:induction false} TypedSoFarIff(picks: seq<Choice>)
    ensures After(picks).typed == Naive(picks) <==> NeverForgets(picks)
    ensures NeverForgets(picks) && picks != [] ==>
      var c := picks[|picks| - 1]; After(picks).held == ModsOf(c) - {c.key}
    decreases |picks|
  {
    hide After, EmitAll, Forgets;
    if picks != [] {
      hide NeverForgets;
      var before, c := picks[..|picks| - 1], picks[|picks| - 1];
      TypedSoFarIff(before);
      AfterSnoc(picks);
      NeverForgetsSnoc(picks);
      EmittedSoFar(before);
      if before != [] {
        AfterSnoc(before);
        var last := before[|before| - 1];
        if NeverForgets(before) {
          HeldForNext(After(before).held, EmitAll(before), last, c);
        }
      } else {
        FirstIsTyped(before, c);
      }
      SameLast(After(before).typed, Naive(before),
               Typed(HeldFor(After(before).held, EmitAll(before), c), c.key), NaiveOf(c));
    } else {
      assert After(picks).typed == [] by { EmittedSoFar(picks); }
    }
  }

  lemma SameLast(a: seq<Typed>, b: seq<Typed>, x: Typed, y: Typed)
    requires |a| == |b|
    ensures a + [x] == b + [y] <==> a == b && x == y
  {
    if a + [x] == b + [y] {
      assert (a + [x])[..|a|] == a && (b + [y])[..|b|] == b;
      assert (a + [x])[|a|] == x && (b + [y])[|b|] == y;
    }
  }

  lemma FirstIsTyped(none: seq<Choice>, c: Choice)
    requires none == []
    ensures HeldFor(After(none).held, EmitAll(none), c) == ModsOf(c)
    ensures NeverForgets(none)
  {
    assert After(none) == RELEASED;
  }

  /** The releases at the end leave nothing held and type nothing, whatever the choices were. */
  lemma Finished(picks: seq<Choice>)
    ensures Replay(RELEASED, Events(picks)) == Keyboard({}, After(picks).typed, None)
    ensures OneAtATime(RELEASED, Events(picks))
  {
    hide OneAtATime, Replay, Toggle, EmitAll;
    EmittedSoFar(picks);
    var st, kb := EmitAll(picks), After(picks);
    var a, b := Toggle(false, st.shift, KEY_LEFTSHIFT), Toggle(false, st.altgr, KEY_RIGHTALT);
    ReleaseReplays(kb, st.shift, KEY_LEFTSHIFT);
    var mid := Replay(kb, a);
    ReleaseReplays(mid, st.altgr, KEY_RIGHTALT);
    ReplaySum(RELEASED, st.events, a);
    ReplaySum(RELEASED, st.events + a, b);
    OneAtATimeSum(RELEASED, st.events, a);
    OneAtATimeSum(RELEASED, st.events + a, b);
    assert Replay(mid, b).held == {};
  }

  lemma ReleaseReplays(kb: Keyboard, have: bool, key: int)
    requires kb.begun.None? && (key == KEY_LEFTSHIFT || key == KEY_RIGHTALT) && OnlyLazy(kb.held)
    ensures Replay(kb, Toggle(false, have, key)) == Keyboard(Toggled(kb.held, false, have, key), kb.typed, None)
    ensures OneAtATime(kb, Toggle(false, have, key)) && OnlyLazy(Toggled(kb.held, false, have, key))
  {
    ToggleReplays(kb, false, have, key);
    assert [KeyEvent(key, false)][..0] == [];
  }

  /** For any choices: from a released keyboard the stream types every one with exactly its own
      modifiers, in order, and leaves nothing held, if and only if none that is its own modifier is
      followed at once by one that needs this modifier. In either case no two ordinary keys are down
      together. */
  lemma LazyTypesNaivelyIff(picks: seq<Choice>)
    ensures Replay(RELEASED, Events(picks)) == Keyboard({}, Naive(picks), None) <==> NeverForgets(picks)
    ensures OneAtATime(RELEASED, Events(picks))
  {
    hide OneAtATime, Replay, After, Events, Naive, NeverForgets;
    Finished(picks);
    TypedSoFarIff(picks);
  }

  /** So it does whenever no choice is its own modifier, as in every map that has been loaded. */
  lemma LazyTypesNaively(picks: seq<Choice>)
    requires NoneOwn(picks)
    ensures Replay(RELEASED, Events(picks)) == Keyboard({}, Naive(picks), None)
  {
    hide Replay, Events, Naive;
    LazyTypesNaivelyIff(picks);
  }

  const KEY_A := 30

  /** SHIFT with its own key, and then a capital letter: the letter is typed without SHIFT. */
  lemma OwnModifierSpoils(picks: seq<Choice>)
    requires var shift := Mods(true, false, false);
      picks == [Choice(shift, KEY_LEFTSHIFT), Choice(shift, KEY_A)]
    ensures After(picks).typed == [Typed({KEY_LEFTSHIFT}, KEY_LEFTSHIFT), Typed({}, KEY_A)]
    ensures Naive(picks)[1] == Typed({KEY_LEFTSHIFT}, KEY_A)
  {
    hide After, EmitAll;
    var one, none := picks[..1], picks[..0];
    assert one[..0] == none;
    AfterSnoc(picks);
    AfterSnoc(one);
    FirstIsTyped(none, picks[0]);
    EmittedSoFar(none);
  }

  // ----- The program's own form -----

  method KeysOf(chars: Chars, symmap: map<Symbol, seq<Choice>>, ch: char) returns (keys: seq<Choice>)
    ensures keys == ChoicesFor(chars, symmap, ch)
  {
    keys := [];
    if ch == '\n' {
      keys := [Choice(PLAIN, KEY_ENTER)];
    } else if ch == '\t' {
      keys := [Choice(PLAIN, KEY_TAB)];
    } else if ch == ' ' {
      keys := [Choice(PLAIN, KEY_SPACE)];
    } else {
      var plain := Plainer(ch);
      if plain.Some? && chars.printable(plain.value) && chars.keysym(plain.value) in symmap {
        keys := symmap[chars.keysym(plain.value)];
      }
    }
  }

  /** The events for one choice, given the modifiers that are down. */
  method EmitKey(st: Stream, c: Choice) returns (r: Stream)
    ensures r == Emit(st, c)
  {
    var shift, altgr, events := st.shift, st.altgr, st.events;
    if c.mods.shift && !shift {
      events := events + [KeyEvent(KEY_LEFTSHIFT, true)];
      shift := true;
    } else if !c.mods.shift && shift {
      events := events + [KeyEvent(KEY_LEFTSHIFT, false)];
      shift := false;
    }
    if c.mods.altgr && !altgr {
      events := events + [KeyEvent(KEY_RIGHTALT, true)];
      altgr := true;
    } else if !c.mods.altgr && altgr {
      events := events + [KeyEvent(KEY_RIGHTALT, false)];
      altgr := false;
    }
    events := events + [KeyEvent(c.key, true)];
    events := events + [KeyEvent(c.key, false)];
    r := Stream(shift, altgr, events);
  }

  lemma EmitNext(chars: Chars, symmap: map<Symbol, seq<Choice>>, text: string, ch: char)
    ensures var picks, pick := Picks(chars, symmap, text), Pick(ChoicesFor(chars, symmap, ch));
      EmitAll(Picks(chars, symmap, text + [ch]))
        == if pick.Some? then Emit(EmitAll(picks), pick.value) else EmitAll(picks)
  {
    hide ChoicesFor, Emit, Pick;
    var picks, pick := Picks(chars, symmap, text), Pick(ChoicesFor(chars, symmap, ch));
    assert (text + [ch])[..|text|] == text;
    if pick.Some? {
      assert (picks + [pick.value])[..|picks|] == picks;
    } else {
      assert picks + [] == picks;
    }
  }

  method EmitText(chars: Chars, symmap: map<Symbol, seq<Choice>>, text: string) returns (st: Stream)
    ensures st == EmitAll(Picks(chars, symmap, text))
  {
    hide ChoicesFor, Emit, Pick;
    st := Stream(false, false, []);
    for i := 0 to |text|
      invariant st == EmitAll(Picks(chars, symmap, text[..i]))
    {
      EmitNext(chars, symmap, text[..i], text[i]);
      assert text[..i] + [text[i]] == text[..i + 1];
      var keys := KeysOf(chars, symmap, text[i]);
      var pick := FirstUsable(keys);
      if pick.Some? {
        st := EmitKey(st, pick.value);
      }
    }
    assert text[..|text|] == text;
  }

  /** The events for a text, one character after the other, and the releases at the end. */
  method TextToEvdevKeys(chars: Chars, symmap: map<Symbol, seq<Choice>>, text: string) returns (events: seq<KeyEvent>)
    ensures events == Events(Picks(chars, symmap, text))
  {
    hide EmitAll, Picks;
    var st := EmitText(chars, symmap, text);
    events := st.events;
    if st.shift {
      events := events + [KeyEvent(KEY_LEFTSHIFT, false)];
    }
    if st.altgr {
      events := events + [KeyEvent(KEY_RIGHTALT, false)];
    }
  }

  /** The loop over the choices stops at the first that needs no CTRL. */
  method FirstUsable(keys: seq<Choice>) returns (pick: Option<Choice>)
    ensures pick == Pick(keys)
  {
    for i := 0 to |keys|
      invariant Pick(keys[..i]).None?
    {
      PickSnoc(keys[..i], keys[i]);
      assert keys[..i + 1] == keys[..i] + [keys[i]];
      if !keys[i].mods.ctrl {
        PickStays(keys, i + 1);
        return Some(keys[i]);
      }
    }
    assert keys[..|keys|] == keys;
    return None;
  }

  lemma {:induction false} PickStays(keys: seq<Choice>, n: nat)
    requires n <= |keys| && Pick(keys[..n]).Some?
    ensures Pick(keys) == Pick(keys[..n])
    decreases |keys|
  {
    if n < |keys| {
      assert keys[..|keys| - 1][..n] == keys[..n];
      PickStays(keys[..|keys| - 1], n);
    } else {
      assert keys[..n] == keys;
    }
  }
}
