/** Reading a configuration against a scheme: an option takes the upper layer's value, else the lower
    layer's, which also becomes its default, else its default. Start-up reads the two layers in this
    way and, for the parts whose scheme depends on them, also merges them into one; the two views
    must agree. */
module YamlConfig {
  import opened Wrappers
  import opened YamlMerge

  /** `kind` names the conversion of the option's values. */
  datatype Opt = Opt(default: Node, kind: nat, ifNone: Option<Node>, ifEmpty: Option<Node>)

  datatype Item = Leaf(option: Opt) | Sub(scheme: seq<Entry>) | Bad

  datatype Entry = Entry(key: Key, item: Item)

  datatype Layer = Main | Override

  datatype Failure =
    | NotDict(layer: Layer, path: Path)
    | Invalid(value: Node, path: Path)
    | BadScheme(path: Path)

  /** A conversion may fail. */
  type Conv = (nat, Node) -> Option<Node>

  datatype Read = Read(value: Result<Node, Failure>, item: Item)

  datatype Made = Made(result: Result<Node, Failure>, scheme: seq<Entry>)

  /** The values that compare equal have the same normal form: flags are numbers. */
  function Norm(n: Node): Node {
    match n
    case Flag(b) => Num(if b then 1 else 0)
    case List(items) => List(seq(|items|, i requires 0 <= i < |items| => Norm(items[i])))
    case Dict(d) => Dict(map k | k in d :: Norm(d[k]))
    case _ => n
  }

  predicate Equal(a: Node, b: Node) {
    Norm(a) == Norm(b)
  }

  predicate Falsy(n: Node) {
    n.Null? || n == Flag(false) || n == Num(0) || n == Text("") || n == List([]) || n == Dict(map[])
  }

  function NewDefault(o: Opt, main: map<Key, Node>, k: Key): Node {
    if k in main && !Equal(o.default, main[k]) then main[k] else o.default
  }

  function Value(conv: Conv, o: Opt, raw: Node): Option<Node> {
    if o.ifNone.Some? && raw.Null? then o.ifNone
    else if o.ifEmpty.Some? && Falsy(raw) then o.ifEmpty
    else conv(o.kind, raw)
  }

  function GetOr(m: map<Key, Node>, k: Key, otherwise: Node): Node {
    if k in m then m[k] else otherwise
  }

  const NOTHING := Dict(map[])

  function ReadEntry(conv: Conv, main: map<Key, Node>, over: map<Key, Node>, e: Entry, path: Path): Read
    decreases e, 0
  {
    match e.item
    case Leaf(o) =>
      var default := NewDefault(o, main, e.key);
      var raw := GetOr(over, e.key, default);
      var value := Value(conv, o, raw);
      Read(if value.Some? then Ok(value.value) else Err(Invalid(raw, path + [e.key])), Leaf(o.(default := default)))
    case Sub(s) =>
      var made := Make(conv, GetOr(main, e.key, NOTHING), GetOr(over, e.key, NOTHING), s, path + [e.key]);
      Read(made.result, Sub(made.scheme))
    case Bad => Read(Err(BadScheme(path + [e.key])), Bad)
  }

  function Make(conv: Conv, main: Node, over: Node, s: seq<Entry>, path: Path): Made
    decreases s, |s| + 1
  {
    if !main.Dict? then Made(Err(NotDict(Main, path)), s)
    else if !over.Dict? then Made(Err(NotDict(Override, path)), s)
    else Fill(conv, main.dict, over.dict, s, path, |s|)
  }

  /** The first `n` entries. */
  function Fill(conv: Conv, main: map<Key, Node>, over: map<Key, Node>, s: seq<Entry>, path: Path, n: nat): (r: Made)
    requires n <= |s|
    ensures |r.scheme| == |s| && r.scheme[n..] == s[n..]
    ensures r.result.Ok? ==> r.result.value.Dict?
    decreases s, n
  {
    if n == 0 then Made(Ok(NOTHING), s)
    else
      var before := Fill(conv, main, over, s, path, n - 1);
      if before.result.Err? then before
      else Next(before, n - 1, s[n - 1].key, ReadEntry(conv, main, over, s[n - 1], path))
  }

  function Next(before: Made, i: nat, key: Key, read: Read): Made
    requires i < |before.scheme| && before.result.Ok? && before.result.value.Dict?
  {
    Made(if read.value.Ok? then Ok(Dict(before.result.value.dict[key := read.value.value])) else read.value,
         before.scheme[i := Entry(key, read.item)])
  }

  lemma FillNone(conv: Conv, main: map<Key, Node>, over: map<Key, Node>, s: seq<Entry>, path: Path)
    ensures Fill(conv, main, over, s, path, 0) == Made(Ok(NOTHING), s)
  {
  }

  lemma FillNext(conv: Conv, main: map<Key, Node>, over: map<Key, Node>, s: seq<Entry>, path: Path, n: nat)
    requires n < |s|
    ensures var before := Fill(conv, main, over, s, path, n);
      Fill(conv, main, over, s, path, n + 1) ==
      if before.result.Err? then before else Next(before, n, s[n].key, ReadEntry(conv, main, over, s[n], path))
  {
  }

  /** What an option is read as: the upper layer's value if there is one, else the lower layer's, unless
      that merely equals the default, else the default; and of that, what is given for a null or for an
      empty value, else its conversion. */
  lemma OptionIsRead(conv: Conv, main: map<Key, Node>, over: map<Key, Node>, k: Key, o: Opt, path: Path)
    ensures var read := ReadEntry(conv, main, over, Entry(k, Leaf(o)), path);
            var default := if k in main && Norm(main[k]) != Norm(o.default) then main[k] else o.default;
            var raw := if k in over then over[k] else default;
            var empty := raw in {Null, Flag(false), Num(0), Text(""), List([]), Dict(map[])};
      && read.item == Leaf(Opt(default, o.kind, o.ifNone, o.ifEmpty))
      && (raw == Null && o.ifNone.Some? ==> read.value == Ok(o.ifNone.value))
      && (empty && (raw != Null || o.ifNone.None?) && o.ifEmpty.Some? ==> read.value == Ok(o.ifEmpty.value))
      && ((raw != Null || o.ifNone.None?) && (!empty || o.ifEmpty.None?) ==>
            read.value
              == (if conv(o.kind, raw).Some? then Ok(conv(o.kind, raw).value) else Err(Invalid(raw, path + [k]))))
  {
  }

  // ----- Reading again gives the same -----

  lemma {:induction false} ReadEntryAgain(conv: Conv, main: map<Key, Node>, over: map<Key, Node>, e: Entry, path: Path)
    ensures var read := ReadEntry(conv, main, over, e, path);
      ReadEntry(conv, main, over, Entry(e.key, read.item), path) == read
    decreases e, 0
  {
    if e.item.Sub? {
      MakeAgain(conv, GetOr(main, e.key, NOTHING), GetOr(over, e.key, NOTHING), e.item.scheme, path + [e.key]);
    }
  }

  /** The options a run has changed stay as they are from then on, whatever comes after them. */
  lemma {:induction false} FillKeeps(conv: Conv, main: map<Key, Node>, over: map<Key, Node>, s: seq<Entry>,
          path: Path, n: nat, m: nat)
    requires n <= m <= |s|
    ensures Fill(conv, main, over, s, path, m).scheme[..n] == Fill(conv, main, over, s, path, n).scheme[..n]
    ensures Fill(conv, main, over, s, path, n).result.Err? ==>
      Fill(conv, main, over, s, path, m) == Fill(conv, main, over, s, path, n)
    decreases m
  {
    if n < m { FillKeeps(conv, main, over, s, path, n, m - 1); }
  }

  lemma FillLeaves(conv: Conv, main: map<Key, Node>, over: map<Key, Node>, s: seq<Entry>, path: Path, n: nat)
    requires n < |s| && Fill(conv, main, over, s, path, n).result.Ok?
    ensures Fill(conv, main, over, s, path, |s|).scheme[n]
         == Entry(s[n].key, ReadEntry(conv, main, over, s[n], path).item)
  {
    hide ReadEntry;
    FillKeeps(conv, main, over, s, path, n + 1, |s|);
    SamePrefix(Fill(conv, main, over, s, path, |s|).scheme, Fill(conv, main, over, s, path, n + 1).scheme, n);
  }

  lemma SamePrefix(a: seq<Entry>, b: seq<Entry>, n: nat)
    requires n < |a| && n < |b| && a[..n + 1] == b[..n + 1]
    ensures a[n] == b[n]
  {
    assert a[n] == a[..n + 1][n];
    assert b[n] == b[..n + 1][n];
  }

  lemma {:induction false} FillAgain(conv: Conv, main: map<Key, Node>, over: map<Key, Node>, s: seq<Entry>,
          t: seq<Entry>, path: Path, n: nat)
    requires n <= |s| && t == Fill(conv, main, over, s, path, |s|).scheme
    ensures Fill(conv, main, over, t, path, n) == Made(Fill(conv, main, over, s, path, n).result, t)
    decreases s, n
  {
    hide ReadEntry, Fill;
    if n == 0 {
      FillNone(conv, main, over, s, path);
      FillNone(conv, main, over, t, path);
    } else {
      FillAgain(conv, main, over, s, t, path, n - 1);
      FillNext(conv, main, over, s, path, n - 1);
      FillNext(conv, main, over, t, path, n - 1);
      if Fill(conv, main, over, s, path, n - 1).result.Ok? {
        FillLeaves(conv, main, over, s, path, n - 1);
        ReadEntryAgain(conv, main, over, s[n - 1], path);
        assert t[n - 1 := t[n - 1]] == t;
      }
    }
  }

  /** Reading a second time, with the defaults the first time left behind, gives the same
      configuration or the same failure, and leaves the defaults as they are. */
  lemma {:induction false} MakeAgain(conv: Conv, main: Node, over: Node, s: seq<Entry>, path: Path)
    ensures var made := Make(conv, main, over, s, path);
      Make(conv, main, over, made.scheme, path) == made
    decreases s, |s| + 1
  {
    if main.Dict? && over.Dict? {
      var t := Fill(conv, main.dict, over.dict, s, path, |s|).scheme;
      FillAgain(conv, main.dict, over.dict, s, t, path, |s|);
    }
  }

  // ----- Two layers and one merged layer -----

  /** Where and why, whichever layer is to blame. */
  function Blame(f: Failure): Failure {
    match f
    case NotDict(_, path) => NotDict(Main, path)
    case _ => f
  }

  predicate Same(a: Result<Node, Failure>, b: Result<Node, Failure>) {
    match (a, b)
    case (Ok(x), Ok(y)) => x == y
    case (Err(f), Err(g)) => Blame(f) == Blame(g)
    case _ => false
  }

  /** An option that has dictionaries in both layers must be hidden by the upper one; and a lower value
      that only compares equal to the default must be the default, or both must count as empty. */
  predicate OptionAgrees(o: Opt, main: map<Key, Node>, over: map<Key, Node>, k: Key) {
    k in main ==>
      if k in over then main[k].Dict? && over[k].Dict? ==> Hides(over[k], main[k])
      else o.default == main[k] || !Equal(o.default, main[k]) || (Falsy(o.default) && o.ifEmpty.Some?)
  }

  predicate EntryAgrees(main: map<Key, Node>, over: map<Key, Node>, e: Entry)
    decreases e, 0
  {
    match e.item
    case Leaf(o) => OptionAgrees(o, main, over, e.key)
    case Sub(s) =>
      || (e.key in main && e.key !in over && !main[e.key].Dict?)
      || Agrees(GetOr(main, e.key, NOTHING), GetOr(over, e.key, NOTHING), s)
    case Bad => true
  }

  /** No plain lower value under an upper section, and every option agrees. */
  predicate Agrees(main: Node, over: Node, s: seq<Entry>)
    decreases s, |s| + 1
  {
    && (over.Dict? ==> main.Dict?)
    && (main.Dict? && over.Dict? ==> forall i :: 0 <= i < |s| ==> EntryAgrees(main.dict, over.dict, s[i]))
  }

  lemma NormFalsy(a: Node)
    ensures Falsy(a) <==> Falsy(Norm(a))
  {
    match a
    case List(items) => assert |Norm(a).items| == |items|;
    case Dict(d) => assert Norm(a).dict.Keys == d.Keys;
    case _ =>
  }

  lemma EqualIsFalsy(a: Node, b: Node)
    requires Equal(a, b)
    ensures Falsy(a) <==> Falsy(b)
    ensures a.Null? <==> b.Null?
  {
    NormFalsy(a);
    NormFalsy(b);
  }

  /** What an option reads from the two layers and from the merged one. */
  lemma OptionReadsSame(conv: Conv, o: Opt, main: map<Key, Node>, over: map<Key, Node>, k: Key, path: Path)
    requires OptionAgrees(o, main, over, k)
    ensures Same(ReadEntry(conv, main, over, Entry(k, Leaf(o)), path).value,
                 ReadEntry(conv, map[], Merge(main, over), Entry(k, Leaf(o)), path).value)
  {
    if k in main && k in over {
      HidesIff(main[k], over[k]);
    } else if k in main && Equal(o.default, main[k]) {
      EqualIsFalsy(o.default, main[k]);
    }
  }

  lemma OverNothing(a: Node)
    requires a.Dict?
    ensures Over(a, NOTHING) == a && Over(NOTHING, a) == a
  {
    assert Over(a, NOTHING).dict == a.dict && Over(NOTHING, a).dict == a.dict;
  }

  lemma MergedSection(main: map<Key, Node>, over: map<Key, Node>, k: Key)
    ensures k in over || (k in main ==> main[k].Dict?) ==>
      GetOr(Merge(main, over), k, NOTHING) == Over(GetOr(main, k, NOTHING), GetOr(over, k, NOTHING))
  {
    if k in main && main[k].Dict? { OverNothing(main[k]); }
    if k in over && over[k].Dict? { OverNothing(over[k]); }
    OverNothing(NOTHING);
  }

  lemma {:induction false} EntryReadsSame(conv: Conv, main: map<Key, Node>, over: map<Key, Node>, e: Entry, path: Path)
    requires EntryAgrees(main, over, e)
    ensures Same(ReadEntry(conv, main, over, e, path).value,
                 ReadEntry(conv, map[], Merge(main, over), e, path).value)
    decreases e, 0
  {
    match e.item
    case Leaf(o) => OptionReadsSame(conv, o, main, over, e.key, path);
    case Sub(s) =>
      if e.key in main && e.key !in over && !main[e.key].Dict? {
        assert Merge(main, over)[e.key] == main[e.key];
        assert ReadEntry(conv, main, over, e, path).value == Err(NotDict(Main, path + [e.key]));
        assert ReadEntry(conv, map[], Merge(main, over), e, path).value == Err(NotDict(Override, path + [e.key]));
      } else {
        MergedSection(main, over, e.key);
        assert GetOr(map[], e.key, NOTHING) == NOTHING;
        LayeredIsMerged(conv, GetOr(main, e.key, NOTHING), GetOr(over, e.key, NOTHING), s, path + [e.key]);
      }
    case Bad =>
  }

  lemma {:induction false} FillReadsSame(conv: Conv, main: map<Key, Node>, over: map<Key, Node>, s: seq<Entry>,
          path: Path, n: nat)
    requires n <= |s| && forall i :: 0 <= i < |s| ==> EntryAgrees(main, over, s[i])
    ensures Same(Fill(conv, main, over, s, path, n).result, Fill(conv, map[], Merge(main, over), s, path, n).result)
    decreases s, n
  {
    hide ReadEntry, Over, EntryAgrees, Fill;
    if n == 0 {
      FillNone(conv, main, over, s, path);
      FillNone(conv, map[], Merge(main, over), s, path);
    } else {
      FillReadsSame(conv, main, over, s, path, n - 1);
      FillNext(conv, main, over, s, path, n - 1);
      FillNext(conv, map[], Merge(main, over), s, path, n - 1);
      EntryReadsSame(conv, main, over, s[n - 1], path);
    }
  }

  /** Reading the two layers is reading the merged one over nothing: the same configuration, or a
      failure for the same reason in the same place. */
  lemma {:induction false} LayeredIsMerged(conv: Conv, main: Node, over: Node, s: seq<Entry>, path: Path)
    requires Agrees(main, over, s)
    ensures Same(Make(conv, main, over, s, path).result, Make(conv, NOTHING, Over(main, over), s, path).result)
    decreases s, |s| + 1
  {
    if main.Dict? && over.Dict? { FillReadsSame(conv, main.dict, over.dict, s, path, |s|); }
  }

  /** A lower plain value under a section is an error in the layered reading, while the merged reading
      does not see it at all. */
  lemma PlainUnderSection(conv: Conv, main: map<Key, Node>, over: map<Key, Node>, k: Key, s: seq<Entry>, path: Path)
    requires k in main && !main[k].Dict? && k in over
    ensures ReadEntry(conv, main, over, Entry(k, Sub(s)), path).value == Err(NotDict(Main, path + [k]))
    ensures ReadEntry(conv, map[], Merge(main, over), Entry(k, Sub(s)), path).value
         == Make(conv, NOTHING, over[k], s, path + [k]).result
  {
    assert Over(main[k], over[k]) == over[k];
    assert Merge(main, over)[k] == over[k];
    assert GetOr(map[], k, NOTHING) == NOTHING;
  }

  // ----- The condition is exact -----

  /** Every section of the scheme is a dictionary, or absent, in both layers; the scheme is well
      formed. */
  predicate Sectioned(main: Node, over: Node, s: seq<Entry>)
    decreases s
  {
    && main.Dict? && over.Dict?
    && (forall i, j :: 0 <= i < j < |s| ==> s[i].key != s[j].key)
    && (forall i :: 0 <= i < |s| ==> !s[i].item.Bad?)
    && (forall i :: 0 <= i < |s| && s[i].item.Sub? ==>
          Sectioned(GetOr(main.dict, s[i].key, NOTHING), GetOr(over.dict, s[i].key, NOTHING), s[i].item.scheme))
  }

  ghost predicate Total(conv: Conv) {
    forall kind, n :: conv(kind, n).Some?
  }

  /** Under a conversion that accepts everything, each entry's value is there under its key. */
  lemma {:induction false} FillValues(conv: Conv, main: map<Key, Node>, over: map<Key, Node>, s: seq<Entry>,
          path: Path, n: nat)
    requires n <= |s| && Total(conv) && Sectioned(Dict(main), Dict(over), s)
    ensures var r := Fill(conv, main, over, s, path, n).result;
      && r.Ok?
      && (forall i :: 0 <= i < n ==> s[i].key in r.value.dict)
      && (forall i :: 0 <= i < n ==> Ok(r.value.dict[s[i].key]) == ReadEntry(conv, main, over, s[i], path).value)
    decreases s, n
  {
    hide Fill, Make, Over;
    if n == 0 {
      FillNone(conv, main, over, s, path);
    } else {
      FillValues(conv, main, over, s, path, n - 1);
      FillNext(conv, main, over, s, path, n - 1);
      var e := s[n - 1];
      if e.item.Sub? {
        MakeSucceeds(conv, GetOr(main, e.key, NOTHING), GetOr(over, e.key, NOTHING), e.item.scheme, path + [e.key]);
      }
    }
  }

  lemma {:induction false} MakeSucceeds(conv: Conv, main: Node, over: Node, s: seq<Entry>, path: Path)
    requires Total(conv) && Sectioned(main, over, s)
    ensures Make(conv, main, over, s, path).result.Ok?
    decreases s, |s| + 1
  {
    FillValues(conv, main.dict, over.dict, s, path, |s|);
  }

  lemma {:induction false} MergedIsSectioned(main: Node, over: Node, s: seq<Entry>)
    requires Sectioned(main, over, s)
    ensures Sectioned(NOTHING, Over(main, over), s)
    decreases s
  {
    forall i | 0 <= i < |s| && s[i].item.Sub?
      ensures Sectioned(NOTHING, GetOr(Merge(main.dict, over.dict), s[i].key, NOTHING), s[i].item.scheme)
    {
      MergedSection(main.dict, over.dict, s[i].key);
      MergedIsSectioned(GetOr(main.dict, s[i].key, NOTHING), GetOr(over.dict, s[i].key, NOTHING), s[i].item.scheme);
    }
  }

  /** A conversion that keeps different values different. */
  function Tag(w: Node): Conv {
    (kind: nat, n: Node) => Some(List([n, w]))
  }

  lemma TagIsNew(n: Node, w: Node)
    ensures List([n, w]) != w
  {
    assert [n, w][1] == w;
  }

  lemma OptionsDiffer(o: Opt, main: map<Key, Node>, over: map<Key, Node>, k: Key, path: Path) returns (w: Node)
    requires !OptionAgrees(o, main, over, k)
    ensures ReadEntry(Tag(w), main, over, Entry(k, Leaf(o)), path).value
         != ReadEntry(Tag(w), map[], Merge(main, over), Entry(k, Leaf(o)), path).value
  {
    w := if o.ifEmpty.Some? then o.ifEmpty.value else Null;
    if k in over {
      HidesIff(main[k], over[k]);
      var merged := Over(main[k], over[k]);
      TagIsNew(merged, w);
      assert merged.dict.Keys == main[k].dict.Keys + over[k].dict.Keys;
    } else {
      EqualIsFalsy(o.default, main[k]);
      assert [o.default, w][0] != [main[k], w][0];
    }
  }

  lemma {:induction false} EntriesDiffer(main: map<Key, Node>, over: map<Key, Node>, e: Entry,
          path: Path) returns (w: Node)
    requires !EntryAgrees(main, over, e)
    requires e.item.Sub? ==> Sectioned(GetOr(main, e.key, NOTHING), GetOr(over, e.key, NOTHING), e.item.scheme)
    ensures ReadEntry(Tag(w), main, over, e, path).value != ReadEntry(Tag(w), map[], Merge(main, over), e, path).value
    decreases e, 0
  {
    match e.item
    case Leaf(o) => w := OptionsDiffer(o, main, over, e.key, path);
    case Sub(s) =>
      MergedSection(main, over, e.key);
      w := ReadingsDiffer(GetOr(main, e.key, NOTHING), GetOr(over, e.key, NOTHING), s, path + [e.key]);
  }

  lemma {:induction false} ReadingsDiffer(main: Node, over: Node, s: seq<Entry>, path: Path) returns (w: Node)
    requires Sectioned(main, over, s) && !Agrees(main, over, s)
    ensures !Same(Make(Tag(w), main, over, s, path).result, Make(Tag(w), NOTHING, Over(main, over), s, path).result)
    ensures Make(Tag(w), main, over, s, path).result != Make(Tag(w), NOTHING, Over(main, over), s, path).result
    decreases s, |s| + 1
  {
    var i :| 0 <= i < |s| && !EntryAgrees(main.dict, over.dict, s[i]);
    w := EntriesDiffer(main.dict, over.dict, s[i], path);
    FillValues(Tag(w), main.dict, over.dict, s, path, |s|);
    MergedIsSectioned(main, over, s);
    FillValues(Tag(w), map[], Merge(main.dict, over.dict), s, path, |s|);
  }

  /** Where sections are dictionaries, the two readings agree under every conversion exactly when no
      option has unhidden dictionaries in both layers or a default that merely compares equal. */
  lemma LayeredIsMergedIff(main: Node, over: Node, s: seq<Entry>, path: Path)
    requires Sectioned(main, over, s)
    ensures (forall conv: Conv ::
               Same(Make(conv, main, over, s, path).result, Make(conv, NOTHING, Over(main, over), s, path).result))
       <==> Agrees(main, over, s)
  {
    if Agrees(main, over, s) {
      forall conv: Conv
        ensures Same(Make(conv, main, over, s, path).result, Make(conv, NOTHING, Over(main, over), s, path).result)
      {
        LayeredIsMerged(conv, main, over, s, path);
      }
    } else {
      var w := ReadingsDiffer(main, over, s, path);
    }
  }

  /** A lower value of true under a default of 1, with a conversion to numbers that takes no flags: the
      layered reading keeps the default and succeeds, the merged one fails at the flag. */
  lemma FlagHidesBehindNumber(conv: Conv, main: Node, s: seq<Entry>)
    requires conv(0, Num(1)) == Some(Num(1)) && conv(0, Flag(true)) == None
    requires main == Dict(map["x" := Flag(true)]) && s == [Entry("x", Leaf(Opt(Num(1), 0, None, None)))]
    ensures Make(conv, main, NOTHING, s, []).result == Ok(Dict(map["x" := Num(1)]))
    ensures Make(conv, NOTHING, Over(main, NOTHING), s, []).result == Err(Invalid(Flag(true), ["x"]))
  {
    OverNothing(main);
    assert Equal(Num(1), main.dict["x"]);
    var root: Path := [];
    assert root + ["x"] == ["x"];
    FillNone(conv, main.dict, map[], s, []);
    FillNext(conv, main.dict, map[], s, [], 0);
    FillNone(conv, map[], main.dict, s, []);
    FillNext(conv, map[], main.dict, s, [], 0);
  }

  // ----- The program's own form: options are objects, and their defaults are overwritten -----

  class OptionObject {
    var default: Node
    const kind: nat
    const ifNone: Option<Node>
    const ifEmpty: Option<Node>

    constructor (default: Node, kind: nat, ifNone: Option<Node>, ifEmpty: Option<Node>)
      ensures View() == Opt(default, kind, ifNone, ifEmpty)
    {
      this.default, this.kind, this.ifNone, this.ifEmpty := default, kind, ifNone, ifEmpty;
    }

    function View(): Opt
      reads this
    {
      Opt(default, kind, ifNone, ifEmpty)
    }
  }

  datatype SchemeNode = OptionNode(option: OptionObject) | SectionNode(scheme: seq<SchemeEntry>) | OtherNode

  datatype SchemeEntry = SchemeEntry(key: Key, node: SchemeNode)

  function Objects(s: seq<SchemeEntry>): set<OptionObject>
    decreases s
  {
    set i, o | 0 <= i < |s| && o in ObjectsOf(s[i]) :: o
  }

  function ObjectsOf(e: SchemeEntry): set<OptionObject>
    decreases e
  {
    match e.node
    case OptionNode(o) => {o}
    case SectionNode(s) => Objects(s)
    case OtherNode => {}
  }

  /** No option object stands in two places. */
  predicate Distinct(s: seq<SchemeEntry>)
    decreases s
  {
    && (forall i, j :: 0 <= i < j < |s| ==> ObjectsOf(s[i]) !! ObjectsOf(s[j]))
    && (forall i :: 0 <= i < |s| && s[i].node.SectionNode? ==> Distinct(s[i].node.scheme))
  }

  function ViewEntry(e: SchemeEntry): Entry
    reads ObjectsOf(e)
    decreases e
  {
    Entry(e.key, match e.node
      case OptionNode(o) => Leaf(o.View())
      case SectionNode(s) => Sub(View(s))
      case OtherNode => Bad)
  }

  function View(s: seq<SchemeEntry>): (r: seq<Entry>)
    reads Objects(s)
    ensures |r| == |s|
    decreases s
  {
    seq(|s|, i requires 0 <= i < |s| reads Objects(s) => ViewEntry(s[i]))
  }

  method ReadOption(conv: Conv, main: map<Key, Node>, over: map<Key, Node>, k: Key, option: OptionObject, path: Path)
    returns (r: Result<Node, Failure>)
    modifies option
    ensures Read(r, Leaf(option.View())) == ReadEntry(conv, main, over, Entry(k, Leaf(old(option.View()))), path)
  {
    if k in main && !Equal(option.default, main[k]) {
      option.default := main[k];
    }
    var value := if k in over then over[k] else option.default;
    if option.ifNone.Some? && value.Null? {
      return Ok(option.ifNone.value);
    } else if option.ifEmpty.Some? && Falsy(value) {
      return Ok(option.ifEmpty.value);
    }
    var converted := conv(option.kind, value);
    if converted.None? {
      return Err(Invalid(value, path + [k]));
    }
    return Ok(converted.value);
  }

  lemma ViewUntouched(conv: Conv, main: map<Key, Node>, over: map<Key, Node>, s: seq<Entry>, path: Path, n: nat)
    requires n < |s|
    ensures Fill(conv, main, over, s, path, n).scheme[n] == s[n]
  {
    hide ReadEntry;
    var t := Fill(conv, main, over, s, path, n).scheme;
    assert t[n] == t[n..][0] == s[n..][0];
  }

  method MakeConfig(conv: Conv, main: Node, over: Node, s: seq<SchemeEntry>, path: Path, ghost all: set<OptionObject>)
    returns (r: Result<Node, Failure>)
    requires Distinct(s) && Objects(s) <= all
    modifies Objects(s)
    ensures Made(r, View(s)) == Make(conv, main, over, old(View(s)), path)
    decreases s, 1
  {
    if !main.Dict? {
      return Err(NotDict(Main, path));
    }
    if !over.Dict? {
      return Err(NotDict(Override, path));
    }
    var config: map<Key, Node> := map[];
    ghost var s0 := View(s);
    for i := 0 to |s|
      invariant Made(Ok(Dict(config)), View(s)) == Fill(conv, main.dict, over.dict, s0, path, i)
    {
      ViewUntouched(conv, main.dict, over.dict, s0, path, i);
      var value := ReadNode(conv, main.dict, over.dict, s, i, path, all);
      FillKeeps(conv, main.dict, over.dict, s0, path, i + 1, |s|);
      if value.Err? {
        return value;
      }
      config := config[s[i].key := value.value];
    }
    return Ok(Dict(config));
  }

  /** One entry; the others keep their options. */
  method ReadNode(conv: Conv, main: map<Key, Node>, over: map<Key, Node>, s: seq<SchemeEntry>, i: nat, path: Path,
                  ghost all: set<OptionObject>)
    returns (r: Result<Node, Failure>)
    requires Distinct(s) && Objects(s) <= all && i < |s|
    modifies ObjectsOf(s[i])
    ensures Read(r, View(s)[i].item) == ReadEntry(conv, main, over, old(View(s))[i], path)
    ensures View(s) == old(View(s))[i := View(s)[i]] && View(s)[i].key == s[i].key
    decreases s, 0
  {
    match s[i].node {
    case OptionNode(o) =>
      r := ReadOption(conv, main, over, s[i].key, o, path);
    case SectionNode(t) =>
      r := MakeConfig(conv, if s[i].key in main then main[s[i].key] else NOTHING,
                      if s[i].key in over then over[s[i].key] else NOTHING, t, path + [s[i].key], all);
    case OtherNode =>
      r := Err(BadScheme(path + [s[i].key]));
    }
    forall j | 0 <= j < |s| && j != i ensures ViewEntry(s[j]) == old(ViewEntry(s[j])) {
      assert ObjectsOf(s[j]) !! ObjectsOf(s[i]);
      assert ObjectsOf(s[j]) <= all && unchanged(all - ObjectsOf(s[i]));
    }
  }
}
