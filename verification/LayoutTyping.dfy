/** From a layout file to what a computer receives: a request to print a text loads the symbol map of
    a layout and sends the key events of the text. */
module LayoutTyping {
  import opened Wrappers
  import opened Keysym
  import opened TextPrinter

  /** What the program looks up: names, key codes, the built-in table and the C library. */
  datatype Tables = Tables(look: Lookup, evdev: int -> Option<int>, builtin: map<Symbol, seq<At1Key>>, chars: Chars)

  // ----- Reference: the wanted choice, straight from the entries of the file -----

  /** The symbol a character is looked up under, if it is looked up at all. */
  function SymbolOf(t: Tables, ch: char): Option<Symbol> {
    match Plainer(ch)
    case None => None
    case Some(c) => if t.chars.printable(c) then Some(t.chars.keysym(c)) else None
  }

  /** The first usable entry of the file for a symbol, else the first usable built-in one. */
  function Wanted(t: Tables, lines: seq<Line>, sym: Symbol): Option<Choice> {
    var file := Pick(Candidates(t.evdev, KeysFor(AllEntries(t.look, lines), sym)));
    if file.Some? then file else Pick(Candidates(t.evdev, Of(t.builtin, sym)))
  }

  /** Line feed, tabulator and space have keys of their own: 28, 15 and 57. */
  function WantedFor(t: Tables, lines: seq<Line>, ch: char): Option<Choice> {
    if ch == '\n' then Some(Choice(Mods(false, false, false), 28))
    else if ch == '\t' then Some(Choice(Mods(false, false, false), 15))
    else if ch == ' ' then Some(Choice(Mods(false, false, false), 57))
    else
      match SymbolOf(t, ch)
      case None => None
      case Some(sym) => Wanted(t, lines, sym)
  }

  /** One choice for each character that can be typed; the others are left out. */
  function Meant(t: Tables, lines: seq<Line>, text: string): seq<Choice> {
    if text == [] then []
    else
      var n := |text| - 1;
      var wanted := WantedFor(t, lines, text[n]);
      Meant(t, lines, text[..n]) + if wanted.Some? then [wanted.value] else []
  }

  // ----- The map means the same -----

  ghost predicate Loaded(t: Tables, lines: seq<Line>, symmap: map<Symbol, seq<Choice>>) {
    forall sym :: Offers(symmap, sym,
      Candidates(t.evdev, KeysFor(AllEntries(t.look, lines), sym)) + Candidates(t.evdev, Of(t.builtin, sym)))
  }

  lemma PickOfOne(c: Choice)
    requires !c.mods.ctrl
    ensures Pick([c]) == Some(c)
  {
    PickSnoc([], c);
    assert [] + [c] == [c];
  }

  lemma CharIsWanted(t: Tables, lines: seq<Line>, symmap: map<Symbol, seq<Choice>>, ch: char)
    requires Loaded(t, lines, symmap)
    ensures Pick(ChoicesFor(t.chars, symmap, ch)) == WantedFor(t, lines, ch)
  {
    hide Candidates, KeysFor, AllEntries, Of, Pick;
    PickOfOne(Choice(PLAIN, KEY_ENTER));
    PickOfOne(Choice(PLAIN, KEY_TAB));
    PickOfOne(Choice(PLAIN, KEY_SPACE));
    PickOfNone();
    match SymbolOf(t, ch)
    case None =>
    case Some(sym) =>
      SymmapTypesTheFirst(symmap, sym, Candidates(t.evdev, KeysFor(AllEntries(t.look, lines), sym)),
                          Candidates(t.evdev, Of(t.builtin, sym)));
  }

  lemma PickOfNone()
    ensures Pick([]) == None
  {
  }

  lemma {:induction false} PicksAreMeant(t: Tables, lines: seq<Line>, symmap: map<Symbol, seq<Choice>>, text: string)
    requires Loaded(t, lines, symmap)
    ensures Picks(t.chars, symmap, text) == Meant(t, lines, text)
  {
    hide ChoicesFor, WantedFor, Pick, Loaded;
    if text != [] {
      PicksAreMeant(t, lines, symmap, text[..|text| - 1]);
      CharIsWanted(t, lines, symmap, text[|text| - 1]);
    }
  }

  // ----- No choice is its own modifier -----

  lemma {:induction false} CandidatesAreNotOwn(evdev: int -> Option<int>, keys: seq<At1Key>)
    ensures NoneOwn(Candidates(evdev, keys))
  {
    if keys != [] {
      var before, k := keys[..|keys| - 1], keys[|keys| - 1];
      CandidatesAreNotOwn(evdev, before);
      assert forall i :: 0 <= i < |Candidate(evdev, k)| ==> !Own(Candidate(evdev, k)[i]);
    }
  }

  lemma {:induction false} PickIsOne(choices: seq<Choice>)
    requires NoneOwn(choices)
    ensures Pick(choices).Some? ==> !Own(Pick(choices).value)
  {
    if choices != [] {
      var before := choices[..|choices| - 1];
      assert forall i :: 0 <= i < |before| ==> before[i] == choices[i];
      PickIsOne(before);
    }
  }

  lemma WantedIsNotOwn(t: Tables, lines: seq<Line>, ch: char)
    ensures WantedFor(t, lines, ch).Some? ==> !Own(WantedFor(t, lines, ch).value)
  {
    hide Candidates, Pick, NoneOwn, KeysFor, AllEntries, Of;
    match SymbolOf(t, ch)
    case None =>
    case Some(sym) =>
      var file, builtin := KeysFor(AllEntries(t.look, lines), sym), Of(t.builtin, sym);
      CandidatesAreNotOwn(t.evdev, file);
      CandidatesAreNotOwn(t.evdev, builtin);
      PickIsOne(Candidates(t.evdev, file));
      PickIsOne(Candidates(t.evdev, builtin));
  }

  /** Whatever the layout, the built-in table and the text are: an entry that would type a modifier with
      itself is refused when the map is built. */
  lemma {:induction false} MeantIsNotOwn(t: Tables, lines: seq<Line>, text: string)
    ensures NoneOwn(Meant(t, lines, text))
  {
    hide WantedFor, Own;
    if text != [] {
      MeantIsNotOwn(t, lines, text[..|text| - 1]);
      WantedIsNotOwn(t, lines, text[|text| - 1]);
    }
  }

  /** The handler of a print request; a limit of zero is no limit. For every layout and every text, the
      receiving keyboard is typed exactly the choices that are meant, each key going down while exactly
      its modifiers are held, never with another ordinary key; and nothing stays held. */
  method PrintText(t: Tables, lines: seq<Line>, limit: nat, text: string) returns (events: seq<KeyEvent>)
    ensures var printed := if limit > 0 && limit < |text| then text[..limit] else text;
      Replay(RELEASED, events) == Keyboard({}, Naive(Meant(t, lines, printed)), None)
    ensures OneAtATime(RELEASED, events)
  {
    hide Meant, Picks, Replay, Naive, OneAtATime, Events, Candidates, KeysFor, AllEntries, Of, NoneOwn;
    var printed := text;
    if limit > 0 && limit < |text| {
      printed := text[..limit];
    }
    var symmap := LoadSymmap(t.look, t.evdev, lines, t.builtin);
    events := TextToEvdevKeys(t.chars, symmap, printed);
    PicksAreMeant(t, lines, symmap, printed);
    MeantIsNotOwn(t, lines, printed);
    LazyTypesNaively(Meant(t, lines, printed));
    Finished(Meant(t, lines, printed));
  }
}
