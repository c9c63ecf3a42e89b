/** Keyboard layouts: from the lines of a layout file to the map that says how to type a character,
    where what comes first wins and the built-in table only fills the gaps. */
module Keysym {
  import opened Wrappers

  const KEY_LEFTCTRL := 29
  const KEY_LEFTSHIFT := 42
  const KEY_RIGHTSHIFT := 54
  const KEY_LEFTALT := 56
  const KEY_RIGHTCTRL := 97
  const KEY_RIGHTALT := 100

  datatype Mods = Mods(shift: bool, altgr: bool, ctrl: bool)

  /** A keysym of the X Window System. */
  datatype Symbol = Symbol(code: int)

  const NO_SYMBOL := Symbol(0)

  /** A key of the old keyboard controller, with the modifiers to hold. */
  datatype At1Key = At1Key(code: int, mods: Mods)

  /** How to type a character: a key of the kernel's, with modifiers. */
  datatype Choice = Choice(mods: Mods, key: int)

  /** The words of a layout line. */
  type Line = seq<string>

  /** What the model leaves open: names of symbols, hexadecimal numbers, upper case. */
  datatype Lookup = Lookup(keysym: string -> Symbol, hex: string -> Option<int>, upper: string -> string)

  // ----- The layout file -----

  /** The entries one line contributes: its own, and one for the upper-case symbol. */
  function Entries(look: Lookup, line: Line): seq<(Symbol, At1Key)> {
    if |line| < 2 then []
    else
      var sym, code, rest := look.keysym(line[0]), look.hex(line[1]), line[2..];
      if sym == NO_SYMBOL || code.None? then []
      else
        [(sym, At1Key(code.value, Mods("shift" in rest, "altgr" in rest, "ctrl" in rest)))] +
        if "addupper" in rest && look.keysym(look.upper(line[0])) != NO_SYMBOL
        then [(look.keysym(look.upper(line[0])), At1Key(code.value, Mods(true, false, false)))] else []
  }

  /** The keys a list of entries gives a symbol, in order. */
  function KeysFor(entries: seq<(Symbol, At1Key)>, sym: Symbol): seq<At1Key> {
    if entries == [] then []
    else
      var e := entries[|entries| - 1];
      KeysFor(entries[..|entries| - 1], sym) + if e.0 == sym then [e.1] else []
  }

  function AllEntries(look: Lookup, lines: seq<Line>): seq<(Symbol, At1Key)> {
    if lines == [] then [] else AllEntries(look, lines[..|lines| - 1]) + Entries(look, lines[|lines| - 1])
  }

  // ----- What a line says -----

  /** The line names a symbol and a key, and the words behind them say what to hold; "addupper" adds the
      upper-case symbol with SHIFT alone. */
  predicate Says(look: Lookup, line: Line, sym: Symbol, k: At1Key) {
    && |line| >= 2 && look.keysym(line[0]) != Symbol(0) && look.hex(line[1]) == Some(k.code)
    && ((sym == look.keysym(line[0])
         && (k.mods.shift <==> HasWord(line, "shift"))
         && (k.mods.altgr <==> HasWord(line, "altgr"))
         && (k.mods.ctrl <==> HasWord(line, "ctrl")))
        || (sym == look.keysym(look.upper(line[0])) && sym != Symbol(0) && HasWord(line, "addupper")
            && k.mods.shift && !k.mods.altgr && !k.mods.ctrl))
  }

  predicate HasWord(line: Line, word: string) {
    exists j :: 2 <= j < |line| && line[j] == word
  }

  predicate SomeSays(look: Lookup, lines: seq<Line>, sym: Symbol, k: At1Key) {
    exists i :: 0 <= i < |lines| && Says(look, lines[i], sym, k)
  }

  predicate Lists(layout: map<Symbol, seq<At1Key>>, sym: Symbol, k: At1Key) {
    sym in layout && k in layout[sym]
  }

  lemma WordsBehind(line: Line, word: string)
    requires |line| >= 2
    ensures word in line[2..] <==> HasWord(line, word)
  {
    if HasWord(line, word) {
      var j :| 2 <= j < |line| && line[j] == word;
      assert line[2..][j - 2] == word;
    }
  }

  /** The entries of a line are what it says, its own first. */
  lemma EntriesAreSaid(look: Lookup, line: Line, sym: Symbol, k: At1Key)
    ensures (sym, k) in Entries(look, line) <==> Says(look, line, sym, k)
    ensures Entries(look, line) != [] ==> Entries(look, line)[0].0 == look.keysym(line[0])
    ensures |Entries(look, line)| <= 2
  {
    if |line| >= 2 {
      WordsBehind(line, "shift");
      WordsBehind(line, "altgr");
      WordsBehind(line, "ctrl");
      WordsBehind(line, "addupper");
      hide HasWord;
    }
  }

  lemma {:induction false} AllEntriesAreSaid(look: Lookup, lines: seq<Line>, sym: Symbol, k: At1Key)
    ensures (sym, k) in AllEntries(look, lines) <==> SomeSays(look, lines, sym, k)
  {
    hide Says, Entries;
    if lines != [] {
      var before, line := lines[..|lines| - 1], lines[|lines| - 1];
      AllEntriesAreSaid(look, before, sym, k);
      EntriesAreSaid(look, line, sym, k);
      assert before + [line] == lines;
      assert (exists i :: 0 <= i < |before| && Says(look, before[i], sym, k))
        ==> exists i :: 0 <= i < |lines| && Says(look, lines[i], sym, k) by {
        if i :| 0 <= i < |before| && Says(look, before[i], sym, k) {
          assert lines[i] == before[i];
        }
      }
      if i :| 0 <= i < |lines| && Says(look, lines[i], sym, k) {
        assert i < |before| ==> before[i] == lines[i];
      }
    }
  }

  lemma {:induction false} KeysForMembers(entries: seq<(Symbol, At1Key)>, sym: Symbol, k: At1Key)
    ensures k in KeysFor(entries, sym) <==> (sym, k) in entries
  {
    if entries != [] {
      KeysForMembers(entries[..|entries| - 1], sym, k);
      assert entries == entries[..|entries| - 1] + [entries[|entries| - 1]];
    }
  }

  /** The keys a file gives a symbol are those its lines say, and later lines only add behind them. */
  lemma KeysAreSaid(look: Lookup, lines: seq<Line>, more: seq<Line>, sym: Symbol, k: At1Key)
    ensures k in KeysFor(AllEntries(look, lines), sym) <==> SomeSays(look, lines, sym, k)
    ensures KeysFor(AllEntries(look, lines), sym) <= KeysFor(AllEntries(look, lines + more), sym)
  {
    AllEntriesAreSaid(look, lines, sym, k);
    KeysForMembers(AllEntries(look, lines), sym, k);
    LinesAdd(look, lines, more, sym);
  }

  lemma {:induction false} KeysForSum(a: seq<(Symbol, At1Key)>, b: seq<(Symbol, At1Key)>, sym: Symbol)
    ensures KeysFor(a + b, sym) == KeysFor(a, sym) + KeysFor(b, sym)
  {
    if b == [] {
      assert a + b == a;
    } else {
      assert (a + b)[..|a + b| - 1] == a + b[..|b| - 1];
      KeysForSum(a, b[..|b| - 1], sym);
    }
  }

  lemma {:induction false} LinesAdd(look: Lookup, lines: seq<Line>, more: seq<Line>, sym: Symbol)
    ensures KeysFor(AllEntries(look, lines), sym) <= KeysFor(AllEntries(look, lines + more), sym)
  {
    hide Entries, KeysFor;
    if more == [] {
      assert lines + more == lines;
    } else {
      var n := |more| - 1;
      assert (lines + more)[..|lines + more| - 1] == lines + more[..n];
      LinesAdd(look, lines, more[..n], sym);
      KeysForSum(AllEntries(look, lines + more[..n]), Entries(look, more[n]), sym);
    }
  }

  /** A dictionary that groups the entries by symbol. */
  ghost predicate Groups(layout: map<Symbol, seq<At1Key>>, entries: seq<(Symbol, At1Key)>) {
    forall sym: Symbol ::
      && (sym in layout <==> KeysFor(entries, sym) != [])
      && (sym in layout ==> layout[sym] == KeysFor(entries, sym))
  }

  lemma GroupsSnoc(layout: map<Symbol, seq<At1Key>>, entries: seq<(Symbol, At1Key)>, e: (Symbol, At1Key))
    requires Groups(layout, entries)
    ensures Groups(layout[e.0 := (if e.0 in layout then layout[e.0] else []) + [e.1]], entries + [e])
  {
    assert (entries + [e])[..|entries|] == entries;
  }

  method Append(layout: map<Symbol, seq<At1Key>>, sym: Symbol, key: At1Key, ghost entries: seq<(Symbol, At1Key)>)
    returns (r: map<Symbol, seq<At1Key>>)
    requires Groups(layout, entries)
    ensures Groups(r, entries + [(sym, key)])
  {
    r := layout;
    if sym !in r {
      r := r[sym := []];
    }
    r := r[sym := r[sym] + [key]];
    GroupsSnoc(layout, entries, (sym, key));
    assert r == layout[sym := (if sym in layout then layout[sym] else []) + [key]];
  }

  method ReadKeyboardLayout(look: Lookup, lines: seq<Line>) returns (layout: map<Symbol, seq<At1Key>>)
    ensures Groups(layout, AllEntries(look, lines))
    ensures forall sym, k :: Lists(layout, sym, k) <==> SomeSays(look, lines, sym, k)
  {
    layout := map[];
    ghost var done: seq<(Symbol, At1Key)> := [];
    for i := 0 to |lines|
      invariant done == AllEntries(look, lines[..i]) && Groups(layout, done)
    {
      ghost var before := done;
      var parts := lines[i];
      if |parts| >= 2 {
        var sym := look.keysym(parts[0]);
        if sym != NO_SYMBOL {
          var code := look.hex(parts[1]);
          if code.Some? {
            var rest := parts[2..];
            var key := At1Key(code.value, Mods("shift" in rest, "altgr" in rest, "ctrl" in rest));
            layout := Append(layout, sym, key, done);
            done := done + [(sym, key)];
            if "addupper" in rest {
              var upper := look.keysym(look.upper(parts[0]));
              if upper != NO_SYMBOL {
                layout := Append(layout, upper, At1Key(code.value, Mods(true, false, false)), done);
                done := done + [(upper, At1Key(code.value, Mods(true, false, false)))];
              }
            }
          }
        }
      }
      assert lines[..i + 1][..i] == lines[..i];
      assert done == before + Entries(look, parts);
    }
    assert lines[..|lines|] == lines;
    forall sym, k ensures Lists(layout, sym, k) <==> SomeSays(look, lines, sym, k) {
      KeysAreSaid(look, lines, [], sym, k);
    }
  }

  // ----- The map of choices -----

  /** A modifier key cannot be typed while it is itself held as a modifier. */
  predicate Contradictory(key: int, mods: Mods) {
    || (key in {KEY_LEFTSHIFT, KEY_RIGHTSHIFT} && mods.shift)
    || (key in {KEY_LEFTALT, KEY_RIGHTALT} && mods.altgr)
    || (key in {KEY_LEFTCTRL, KEY_RIGHTCTRL} && mods.ctrl)
  }

  function Candidate(evdev: int -> Option<int>, k: At1Key): seq<Choice> {
    var key := evdev(k.code);
    if key.None? || Contradictory(key.value, k.mods) then [] else [Choice(k.mods, key.value)]
  }

  function Candidates(evdev: int -> Option<int>, keys: seq<At1Key>): seq<Choice> {
    if keys == [] then [] else Candidates(evdev, keys[..|keys| - 1]) + Candidate(evdev, keys[|keys| - 1])
  }

  /** What is offered for a list of keys: those the kernel has a code for, with the modifiers given,
      unless the key is itself such a modifier; left or right does not matter. */
  lemma {:induction false} CandidatesAre(evdev: int -> Option<int>, keys: seq<At1Key>, c: Choice)
    ensures c in Candidates(evdev, keys) <==>
      && (exists i :: 0 <= i < |keys| && keys[i].mods == c.mods && evdev(keys[i].code) == Some(c.key))
      && !(c.mods.shift && (c.key == 42 || c.key == 54))
      && !(c.mods.altgr && (c.key == 56 || c.key == 100))
      && !(c.mods.ctrl && (c.key == 29 || c.key == 97))
  {
    if keys != [] {
      var before, k := keys[..|keys| - 1], keys[|keys| - 1];
      CandidatesAre(evdev, before, c);
      assert c in Candidate(evdev, k) <==>
        k.mods == c.mods && evdev(k.code) == Some(c.key) && !Contradictory(c.key, c.mods);
      hide Contradictory;
      if i :| 0 <= i < |before| && before[i].mods == c.mods && evdev(before[i].code) == Some(c.key) {
        assert keys[i] == before[i];
      }
      if i :| 0 <= i < |keys| && keys[i].mods == c.mods && evdev(keys[i].code) == Some(c.key) {
        assert i < |before| ==> before[i] == keys[i];
      }
    }
  }

  /** And they keep their order. */
  lemma {:induction false} CandidatesSum(evdev: int -> Option<int>, a: seq<At1Key>, b: seq<At1Key>)
    ensures Candidates(evdev, a + b) == Candidates(evdev, a) + Candidates(evdev, b)
  {
    hide Candidate;
    if b == [] {
      assert a + b == a;
    } else {
      assert (a + b)[..|a + b| - 1] == a + b[..|b| - 1];
      CandidatesSum(evdev, a, b[..|b| - 1]);
    }
  }

  predicate HasMods(choices: seq<Choice>, mods: Mods) {
    exists i :: 0 <= i < |choices| && choices[i].mods == mods
  }

  /** The first candidate for each combination of modifiers. */
  function Firsts(cands: seq<Choice>): seq<Choice> {
    if cands == [] then []
    else
      var before, c := Firsts(cands[..|cands| - 1]), cands[|cands| - 1];
      if HasMods(before, c.mods) then before else before + [c]
  }

  /** The first choice that needs no CTRL. */
  function Pick(choices: seq<Choice>): Option<Choice> {
    if choices == [] then None
    else if Pick(choices[..|choices| - 1]).Some? then Pick(choices[..|choices| - 1])
    else if choices[|choices| - 1].mods.ctrl then None else Some(choices[|choices| - 1])
  }

  lemma {:induction false} FirstsHasAll(cands: seq<Choice>, mods: Mods)
    ensures HasMods(Firsts(cands), mods) <==> HasMods(cands, mods)
  {
    if cands != [] {
      var before, c := cands[..|cands| - 1], cands[|cands| - 1];
      FirstsHasAll(before, mods);
      FirstsHasAll(before, c.mods);
      HasSnoc(before, c, mods);
      HasSnoc(Firsts(before), c, mods);
      assert before + [c] == cands;
    }
  }

  lemma HasSnoc(choices: seq<Choice>, c: Choice, mods: Mods)
    ensures HasMods(choices + [c], mods) <==> HasMods(choices, mods) || c.mods == mods
  {
    assert (choices + [c])[|choices|] == c;
    if HasMods(choices, mods) {
      var i :| 0 <= i < |choices| && choices[i].mods == mods;
      assert (choices + [c])[i] == choices[i];
    }
  }

  lemma PickSnoc(choices: seq<Choice>, c: Choice)
    ensures Pick(choices + [c]) == if Pick(choices).Some? then Pick(choices) else if c.mods.ctrl then None else Some(c)
  {
    assert (choices + [c])[..|choices|] == choices;
  }

  /** The choice is one of the list that needs no CTRL, and all before it do. */
  lemma {:induction false} PickMeans(choices: seq<Choice>)
    ensures match Pick(choices)
      case None => forall i :: 0 <= i < |choices| ==> choices[i].mods.ctrl
      case Some(c) => exists i :: 0 <= i < |choices| && choices[i] == c && !c.mods.ctrl
                                  && forall j :: 0 <= j < i ==> choices[j].mods.ctrl
  {
    if choices != [] {
      var before := choices[..|choices| - 1];
      PickMeans(before);
      if Pick(before).Some? {
        var c := Pick(before).value;
        var i :| 0 <= i < |before| && before[i] == c && !c.mods.ctrl && forall j :: 0 <= j < i ==> before[j].mods.ctrl;
        assert choices[i] == c && forall j :: 0 <= j < i ==> choices[j] == before[j];
      }
    }
  }

  lemma {:induction false} PickNone(choices: seq<Choice>, mods: Mods)
    requires Pick(choices).None? && HasMods(choices, mods)
    ensures mods.ctrl
  {
    if choices != [] {
      var before, c := choices[..|choices| - 1], choices[|choices| - 1];
      assert before + [c] == choices;
      HasSnoc(before, c, mods);
      if c.mods != mods { PickNone(before, mods); }
    }
  }

  /** Dropping the later duplicates does not change what is typed: it is the first candidate that
      needs no CTRL. */
  lemma {:induction false} FirstsPickFirst(cands: seq<Choice>)
    ensures Pick(Firsts(cands)) == Pick(cands)
  {
    if cands != [] {
      var before, c := cands[..|cands| - 1], cands[|cands| - 1];
      FirstsPickFirst(before);
      PickSnoc(Firsts(before), c);
      if HasMods(Firsts(before), c.mods) && Pick(before).None? {
        PickNone(Firsts(before), c.mods);
      }
    }
  }

  /** What is kept is, of each combination of modifiers, the first. */
  lemma {:induction false} FirstsAreFirst(cands: seq<Choice>, c: Choice)
    ensures c in Firsts(cands) <==> exists i :: 0 <= i < |cands| && cands[i] == c && !HasMods(cands[..i], c.mods)
  {
    if cands != [] {
      var n := |cands| - 1;
      var before, last := cands[..n], cands[n];
      FirstsAreFirst(before, c);
      FirstsHasAll(before, last.mods);
      hide HasMods, Firsts;
      FirstsSnoc(before, last);
      assert before + [last] == cands;
      forall i | 0 <= i <= n ensures cands[..i] == before[..i] { }
      assert cands[n] == last && before[..n] == before;
      if i :| 0 <= i < |before| && before[i] == c && !HasMods(before[..i], c.mods) {
        assert cands[i] == c;
      }
    }
  }

  lemma FirstsSnoc(cands: seq<Choice>, c: Choice)
    ensures Firsts(cands + [c]) == if HasMods(Firsts(cands), c.mods) then Firsts(cands) else Firsts(cands) + [c]
  {
    assert (cands + [c])[..|cands|] == cands;
  }

  function Default(choices: seq<Choice>, c: Choice): seq<Choice> {
    if HasMods(choices, c.mods) then choices else choices + [c]
  }

  /** The map offers a symbol the given candidates, the first for each combination of modifiers; a
      symbol without candidates is not in the map. */
  ghost predicate Offers(symmap: map<Symbol, seq<Choice>>, sym: Symbol, cands: seq<Choice>) {
    if sym in symmap then cands != [] && symmap[sym] == Firsts(cands) else cands == []
  }

  lemma OffersSnoc(symmap: map<Symbol, seq<Choice>>, sym: Symbol, cands: seq<Choice>, c: Choice)
    requires Offers(symmap, sym, cands)
    ensures Offers(symmap[sym := Default(if sym in symmap then symmap[sym] else [], c)], sym, cands + [c])
  {
    assert (cands + [c])[..|cands|] == cands;
  }

  method AddKey(evdev: int -> Option<int>, symmap: map<Symbol, seq<Choice>>, sym: Symbol, k: At1Key,
          ghost cands: seq<Choice>)
    returns (r: map<Symbol, seq<Choice>>)
    requires Offers(symmap, sym, cands)
    ensures Offers(r, sym, cands + Candidate(evdev, k))
    ensures r - {sym} == symmap - {sym}
  {
    r := symmap;
    var key := evdev(k.code);
    if key.Some? && !Contradictory(key.value, k.mods) {
      if sym !in r {
        r := r[sym := []];
      }
      r := r[sym := Default(r[sym], Choice(k.mods, key.value))];
      OffersSnoc(symmap, sym, cands, Choice(k.mods, key.value));
      assert r == symmap[sym := Default(if sym in symmap then symmap[sym] else [], Choice(k.mods, key.value))];
    } else {
      assert cands + [] == cands;
    }
  }

  method AddKeys(evdev: int -> Option<int>, symmap: map<Symbol, seq<Choice>>, sym: Symbol, keys: seq<At1Key>,
          ghost cands: seq<Choice>)
    returns (r: map<Symbol, seq<Choice>>)
    requires Offers(symmap, sym, cands)
    ensures Offers(r, sym, cands + Candidates(evdev, keys))
    ensures r - {sym} == symmap - {sym}
  {
    r := symmap;
    assert cands + [] == cands;
    for i := 0 to |keys|
      invariant Offers(r, sym, cands + Candidates(evdev, keys[..i]))
      invariant r - {sym} == symmap - {sym}
    {
      assert keys[..i + 1][..i] == keys[..i];
      r := AddKey(evdev, r, sym, keys[i], cands + Candidates(evdev, keys[..i]));
      assert cands + Candidates(evdev, keys[..i]) + Candidate(evdev, keys[i])
          == cands + Candidates(evdev, keys[..i + 1]);
    }
    assert keys[..|keys|] == keys;
  }

  function Of(layout: map<Symbol, seq<At1Key>>, sym: Symbol): seq<At1Key> {
    if sym in layout then layout[sym] else []
  }

  /** One source; the symbols may come in any order. */
  method AddSource(evdev: int -> Option<int>, symmap: map<Symbol, seq<Choice>>, layout: map<Symbol, seq<At1Key>>,
                   ghost before: Symbol -> seq<Choice>) returns (r: map<Symbol, seq<Choice>>)
    requires forall sym :: Offers(symmap, sym, before(sym))
    ensures forall sym :: Offers(r, sym, before(sym) + Candidates(evdev, Of(layout, sym)))
  {
    r := symmap;
    var todo: set<Symbol> := layout.Keys;
    while todo != {}
      invariant todo <= layout.Keys
      invariant forall sym :: Offers(r, sym, Sofar(evdev, layout, before(sym), todo, sym))
    {
      var sym :| sym in todo;
      ghost var was, left := r, todo;
      assert Offers(r, sym, Sofar(evdev, layout, before(sym), todo, sym));
      r := AddKeys(evdev, r, sym, layout[sym], before(sym));
      todo := todo - {sym};
      forall s ensures Offers(r, s, Sofar(evdev, layout, before(s), todo, s)) {
        assert Offers(was, s, Sofar(evdev, layout, before(s), left, s));
        if s != sym { assert s in r <==> s in r - {sym}; assert s in was <==> s in was - {sym}; }
      }
    }
    forall sym ensures Offers(r, sym, before(sym) + Candidates(evdev, Of(layout, sym))) {
      assert Offers(r, sym, Sofar(evdev, layout, before(sym), {}, sym));
      assert before(sym) + [] == before(sym);
    }
  }

  function Sofar(evdev: int -> Option<int>, layout: map<Symbol, seq<At1Key>>, before: seq<Choice>, todo: set<Symbol>,
          sym: Symbol): seq<Choice> {
    if sym in todo || sym !in layout then before else before + Candidates(evdev, layout[sym])
  }

  /** The whole map: for every symbol the choices of the file come before the built-in ones, and of
      each combination of modifiers the first one stays. */
  method BuildSymmap(evdev: int -> Option<int>, file: map<Symbol, seq<At1Key>>, builtin: map<Symbol, seq<At1Key>>)
    returns (symmap: map<Symbol, seq<Choice>>)
    ensures forall sym :: Offers(symmap, sym, Candidates(evdev, Of(file, sym)) + Candidates(evdev, Of(builtin, sym)))
  {
    symmap := map[];
    symmap := AddSource(evdev, symmap, file, _ => []);
    ghost var first := (sym: Symbol) => Candidates(evdev, Of(file, sym));
    forall sym ensures Offers(symmap, sym, first(sym)) {
      assert Offers(symmap, sym, [] + first(sym));
      assert [] + first(sym) == first(sym);
    }
    symmap := AddSource(evdev, symmap, builtin, first);
  }

  /** From the lines of the file to the map. */
  method LoadSymmap(look: Lookup, evdev: int -> Option<int>, lines: seq<Line>, builtin: map<Symbol, seq<At1Key>>)
    returns (symmap: map<Symbol, seq<Choice>>)
    ensures forall sym :: Offers(symmap, sym,
      Candidates(evdev, KeysFor(AllEntries(look, lines), sym)) + Candidates(evdev, Of(builtin, sym)))
  {
    var layout := ReadKeyboardLayout(look, lines);
    symmap := BuildSymmap(evdev, layout, builtin);
    forall sym: Symbol ensures Of(layout, sym) == KeysFor(AllEntries(look, lines), sym) { }
  }

  /** What the map types for a symbol: the first usable entry of the file, else of the built-in
      table. */
  lemma SymmapTypesTheFirst(symmap: map<Symbol, seq<Choice>>, sym: Symbol, file: seq<Choice>, builtin: seq<Choice>)
    requires Offers(symmap, sym, file + builtin)
    ensures (if sym in symmap then Pick(symmap[sym]) else None)
         == if Pick(file).Some? then Pick(file) else Pick(builtin)
  {
    FirstsPickFirst(file + builtin);
    PickOfSum(file, builtin);
  }

  lemma {:induction false} PickOfSum(a: seq<Choice>, b: seq<Choice>)
    ensures Pick(a + b) == if Pick(a).Some? then Pick(a) else Pick(b)
  {
    if b == [] {
      assert a + b == a;
    } else {
      assert (a + b)[..|a + b| - 1] == a + b[..|b| - 1];
      PickOfSum(a, b[..|b| - 1]);
    }
  }
}
