/** The hotkeys of a relayed keyboard: two taps of the left Alt arm them, then a key runs its handler,
    or digits are collected for a numeric one; every event otherwise goes on to the proxy. Each step
    must follow the last tap or digit within two seconds. */
module MagicHandler {

  const MAGIC_KEY := 56
  const MAGIC_TIMEOUT := 2.0
  const MAGIC_TRIGGER := 2
  const KEY_1 := 2
  const KEY_8 := 9

  /** The keys that have a handler, and whether there is a numeric one. */
  datatype Config = Config(handlers: set<int>, numeric: bool)

  /** A key event with the two clock readings its handling may make, and the answer the numeric handler
      would give. */
  datatype Event = Event(key: int, down: bool, begin: real, end: real, accepted: bool)

  datatype Action = Proxied | Handled | Numeric(codes: seq<int>)

  // ----- Reference: unbroken chains of taps and digits -----

  predicate IsTap(e: Event) {
    e.key == MAGIC_KEY && !e.down
  }

  predicate IsDigit(e: Event) {
    e.key != MAGIC_KEY && e.down
  }

  function Taps(es: seq<Event>): nat {
    if es == [] then 0 else Taps(es[..|es| - 1]) + if IsTap(es[|es| - 1]) then 1 else 0
  }

  function Digits(es: seq<Event>): seq<int> {
    if es == [] then []
    else Digits(es[..|es| - 1]) + if IsDigit(es[|es| - 1]) then [es[|es| - 1].key - KEY_1] else []
  }

  /** When the last tap or digit was done. */
  function LastMark(es: seq<Event>): real {
    if es == [] then 0.0
    else
      var e := es[|es| - 1];
      if IsTap(e) || IsDigit(e) then e.end else LastMark(es[..|es| - 1])
  }

  predicate InTime(chain: seq<Event>, e: Event) {
    e.begin <= LastMark(chain) + MAGIC_TIMEOUT
  }

  /** The key would go to the numeric handler if it comes while the hotkeys are armed. */
  predicate IsNumeric(c: Config, e: Event) {
    IsDigit(e) && e.key !in c.handlers && c.numeric && KEY_1 <= e.key <= KEY_8
  }

  /** What a chain may go on with: Alt, any release, or, once armed, a digit the numeric handler wants
      more of. */
  predicate Continues(c: Config, chain: seq<Event>, e: Event) {
    && InTime(chain, e)
    && (IsDigit(e) ==> Taps(chain) >= MAGIC_TRIGGER && IsNumeric(c, e) && !e.accepted)
  }

  /** A chain begins with a tap and is never broken. */
  predicate Unbroken(c: Config, es: seq<Event>) {
    if es == [] then true
    else if |es| == 1 then IsTap(es[0])
    else Unbroken(c, es[..|es| - 1]) && Continues(c, es[..|es| - 1], es[|es| - 1])
  }

  predicate IsSuffix(a: seq<Event>, b: seq<Event>) {
    |a| <= |b| && b[|b| - |a|..] == a
  }

  /** The longest unbroken chain at the end of a history. */
  function Chain(c: Config, log: seq<Event>): seq<Event> {
    if log == [] then []
    else
      var e, chain := log[|log| - 1], Chain(c, log[..|log| - 1]);
      if chain != [] && Continues(c, chain, e) then chain + [e]
      else if IsTap(e) then [e] else []
  }

  lemma SuffixSnoc(a: seq<Event>, b: seq<Event>, e: Event)
    ensures IsSuffix(a + [e], b + [e]) <==> IsSuffix(a, b)
  {
    if |a| <= |b| {
      assert (b + [e])[|b| - |a|..] == b[|b| - |a|..] + [e];
      if b[|b| - |a|..] + [e] == a + [e] {
        assert (b[|b| - |a|..] + [e])[..|a|] == (a + [e])[..|a|];
        assert (a + [e])[..|a|] == a;
      }
    }
  }

  lemma ChainSnoc(c: Config, log: seq<Event>, e: Event)
    ensures Chain(c, log + [e]) ==
      if Chain(c, log) != [] && Continues(c, Chain(c, log), e) then Chain(c, log) + [e]
      else if IsTap(e) then [e] else []
  {
    assert (log + [e])[..|log|] == log;
  }

  lemma UnbrokenSnoc(c: Config, es: seq<Event>, e: Event)
    ensures Unbroken(c, es + [e]) <==> if es == [] then IsTap(e) else Unbroken(c, es) && Continues(c, es, e)
  {
    assert (es + [e])[..|es|] == es;
  }

  lemma {:induction false} ChainIsUnbroken(c: Config, log: seq<Event>)
    ensures Unbroken(c, Chain(c, log)) && IsSuffix(Chain(c, log), log)
  {
    if log != [] {
      var before, e := log[..|log| - 1], log[|log| - 1];
      ChainIsUnbroken(c, before);
      var chain := Chain(c, before);
      UnbrokenSnoc(c, chain, e);
      SuffixSnoc(chain, before, e);
      assert before + [e] == log;
    }
  }

  /** The marks of a chain that begins with a tap do not depend on what came before it. */
  lemma {:induction false} LastMarkOfSuffix(c: Config, a: seq<Event>, b: seq<Event>)
    requires a != [] && IsSuffix(a, b) && Unbroken(c, a)
    ensures LastMark(a) == LastMark(b) && Taps(a) <= Taps(b)
    decreases |a|
  {
    var e := a[|a| - 1];
    assert b[|b| - |a|..][|a| - 1] == e;
    if |a| > 1 {
      SuffixSnoc(a[..|a| - 1], b[..|b| - 1], e);
      assert a[..|a| - 1] + [e] == a && b[..|b| - 1] + [e] == b;
      LastMarkOfSuffix(c, a[..|a| - 1], b[..|b| - 1]);
    } else {
      assert a[..0] == [];
    }
  }

  lemma {:induction false} SuffixOfSuffix(a: seq<Event>, b: seq<Event>, log: seq<Event>)
    requires IsSuffix(a, log) && IsSuffix(b, log) && |a| <= |b|
    ensures IsSuffix(a, b)
  {
  }

  /** It is the longest. */
  lemma {:induction false} ChainIsLongest(c: Config, log: seq<Event>, es: seq<Event>)
    requires IsSuffix(es, log) && Unbroken(c, es)
    ensures |es| <= |Chain(c, log)|
    decreases |log|
  {
    if es != [] {
      var before, e, init := log[..|log| - 1], log[|log| - 1], es[..|es| - 1];
      assert before + [e] == log && init + [e] == es;
      hide Chain, Unbroken, LastMark, Taps, IsSuffix;
      SuffixSnoc(init, before, e);
      UnbrokenSnoc(c, init, e);
      ChainSnoc(c, before, e);
      if init != [] {
        ChainIsLongest(c, before, init);
        ChainIsUnbroken(c, before);
        SuffixOfSuffix(init, Chain(c, before), before);
        LastMarkOfSuffix(c, init, Chain(c, before));
      }
    }
  }

  // ----- The code's steps -----

  datatype State = State(taps: nat, ts: real, codes: seq<int>)

  const RESET := State(0, 0.0, [])

  function Step(c: Config, was: State, e: Event): (State, Action) {
    var s := if was.ts + MAGIC_TIMEOUT < e.begin then RESET else was;
    if e.key == MAGIC_KEY then (if e.down then s else s.(taps := s.taps + 1, ts := e.end), Proxied)
    else if !e.down then (s, Proxied)
    else if s.taps < MAGIC_TRIGGER then (RESET, Proxied)
    else if e.key in c.handlers then (RESET, Handled)
    else if c.numeric && KEY_1 <= e.key <= KEY_8 then
      var codes := s.codes + [e.key - KEY_1];
      (if e.accepted then RESET else State(s.taps, e.end, codes), Numeric(codes))
    else (RESET, Proxied)
  }

  function RunOf(c: Config, log: seq<Event>): State {
    if log == [] then RESET else Step(c, RunOf(c, log[..|log| - 1]), log[|log| - 1]).0
  }

  predicate Follows(s: State, chain: seq<Event>) {
    && s.taps == Taps(chain)
    && s.codes == Digits(chain)
    && (chain != [] ==> s.ts == LastMark(chain))
  }

  lemma MarksSnoc(es: seq<Event>, e: Event)
    ensures Taps(es + [e]) == Taps(es) + if IsTap(e) then 1 else 0
    ensures Digits(es + [e]) == Digits(es) + if IsDigit(e) then [e.key - KEY_1] else []
    ensures LastMark(es + [e]) == if IsTap(e) || IsDigit(e) then e.end else LastMark(es)
  {
    assert (es + [e])[..|es|] == es;
  }

  lemma StepFollows(c: Config, s: State, log: seq<Event>, e: Event)
    requires Follows(s, Chain(c, log))
    ensures Follows(Step(c, s, e).0, Chain(c, log + [e]))
  {
    ChainSnoc(c, log, e);
    MarksSnoc(Chain(c, log), e);
    MarksSnoc([], e);
    assert [] + [e] == [e];
    assert Taps([]) == 0 && Digits([]) == [];
  }

  /** The taps and digits the handler keeps are those of the longest unbroken chain. */
  lemma {:induction false} RunFollows(c: Config, log: seq<Event>)
    ensures Follows(RunOf(c, log), Chain(c, log))
  {
    if log != [] {
      RunFollows(c, log[..|log| - 1]);
      StepFollows(c, RunOf(c, log[..|log| - 1]), log[..|log| - 1], log[|log| - 1]);
      assert log[..|log| - 1] + [log[|log| - 1]] == log;
    }
  }

  // ----- What runs when -----

  /** Some unbroken chain with two taps leads up to the event. */
  ghost predicate Armed(c: Config, log: seq<Event>, e: Event) {
    exists es :: IsSuffix(es, log) && es != [] && Unbroken(c, es) && InTime(es, e) && Taps(es) >= MAGIC_TRIGGER
  }

  lemma ArmedIffChain(c: Config, log: seq<Event>, e: Event)
    ensures Armed(c, log, e)
       <==> Chain(c, log) != [] && InTime(Chain(c, log), e) && Taps(Chain(c, log)) >= MAGIC_TRIGGER
  {
    ChainIsUnbroken(c, log);
    if Armed(c, log, e) {
      var es :| IsSuffix(es, log) && es != [] && Unbroken(c, es) && InTime(es, e) && Taps(es) >= MAGIC_TRIGGER;
      ChainIsLongest(c, log, es);
      SuffixOfSuffix(es, Chain(c, log), log);
      LastMarkOfSuffix(c, es, Chain(c, log));
    }
  }

  lemma {:induction false} DigitsOfChain(c: Config, es: seq<Event>)
    requires Unbroken(c, es)
    ensures forall i :: 0 <= i < |Digits(es)| ==> 0 <= Digits(es)[i] <= 7
  {
    if |es| > 1 {
      DigitsOfChain(c, es[..|es| - 1]);
    } else if |es| == 1 {
      assert es[..0] == [];
    }
  }

  /** Over every history: a key handler runs exactly when its key comes armed; the numeric handler runs
      exactly when a digit comes armed, and gets the digits of the longest chain, in order, then this
      one; everything else goes to the proxy. */
  lemma HandlersRunIff(c: Config, log: seq<Event>, e: Event)
    ensures var act := Step(c, RunOf(c, log), e).1;
      && (act == Handled <==> IsDigit(e) && e.key in c.handlers && Armed(c, log, e))
      && (act.Numeric? <==> IsNumeric(c, e) && Armed(c, log, e))
      && (act.Numeric? ==> act.codes == Digits(Chain(c, log)) + [e.key - KEY_1]
                           && forall i :: 0 <= i < |act.codes| ==> 0 <= act.codes[i] <= 7)
  {
    hide Step, RunOf, Chain, Armed, Taps, Digits, LastMark, Unbroken;
    RunFollows(c, log);
    ArmedIffChain(c, log, e);
    ChainIsUnbroken(c, log);
    DigitsOfChain(c, Chain(c, log));
    StepRunsIff(c, RunOf(c, log), Chain(c, log), e);
  }

  /** The same of one step, by the chain the state follows. */
  lemma StepRunsIff(c: Config, s: State, chain: seq<Event>, e: Event)
    requires Follows(s, chain)
    ensures var act := Step(c, s, e).1; var armed := chain != [] && InTime(chain, e) && Taps(chain) >= MAGIC_TRIGGER;
      && (act == Handled <==> IsDigit(e) && e.key in c.handlers && armed)
      && (act.Numeric? <==> IsNumeric(c, e) && armed)
      && (act.Numeric? ==> 0 <= e.key - KEY_1 <= 7 && act.codes == Digits(chain) + [e.key - KEY_1])
  {
    if chain == [] { assert Taps([]) == 0; }
    hide Taps, Digits, LastMark;
  }

  // ----- What the proxy sees -----

  function Pressed(down: set<int>, e: Event): set<int> {
    if e.down then down + {e.key} else down - {e.key}
  }

  function ReallyDown(log: seq<Event>): set<int> {
    if log == [] then {} else Pressed(ReallyDown(log[..|log| - 1]), log[|log| - 1])
  }

  function ProxyDown(c: Config, log: seq<Event>): set<int> {
    if log == [] then {}
    else
      var before, e := log[..|log| - 1], log[|log| - 1];
      if Step(c, RunOf(c, before), e).1.Proxied? then Pressed(ProxyDown(c, before), e) else ProxyDown(c, before)
  }

  /** The proxy never holds a key that is up: every release reaches it. */
  lemma {:induction false} ProxyHoldsOnlyWhatIsDown(c: Config, log: seq<Event>)
    ensures ProxyDown(c, log) <= ReallyDown(log)
  {
    if log != [] {
      ProxyHoldsOnlyWhatIsDown(c, log[..|log| - 1]);
    }
  }

  // ----- The program's own form -----

  class Handler {
    const config: Config
    var taps: nat
    var ts: real
    var codes: seq<int>

    constructor (config: Config)
      ensures this.config == config && View() == RESET
    {
      this.config := config;
      taps, ts, codes := 0, 0.0, [];
    }

    function View(): State
      reads this
    {
      State(taps, ts, codes)
    }

    method HandleKey(e: Event) returns (act: Action)
      modifies this`taps, this`ts, this`codes
      ensures (View(), act) == Step(config, old(View()), e)
    {
      if ts + MAGIC_TIMEOUT < e.begin {
        taps, ts, codes := 0, 0.0, [];
      }
      if e.key == MAGIC_KEY {
        if !e.down {
          taps := taps + 1;
          ts := e.end;
        }
      } else if e.down {
        var taps0, codes0 := taps, codes;
        taps, ts, codes := 0, 0.0, [];
        if taps0 >= MAGIC_TRIGGER {
          if e.key in config.handlers {
            return Handled;
          } else if config.numeric && KEY_1 <= e.key <= KEY_8 {
            codes0 := codes0 + [e.key - KEY_1];
            if !e.accepted {
              taps, ts, codes := taps0, e.end, codes0;
            }
            return Numeric(codes0);
          }
        }
      }
      return Proxied;
    }
  }
}
