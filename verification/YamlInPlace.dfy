/** The merge as the program runs it: on dictionaries that are objects, updated in place. */
module YamlInPlace {
  import opened Wrappers
  import opened YamlMerge

  /** What a dictionary holds under a key: a plain value, or another dictionary. */
  datatype Slot = Plain(node: Node) | Sub(mapping: Mapping)

  ghost function Footprint(c: Slot): set<Mapping>
    reads if c.Sub? then {c.mapping} else {}
  {
    if c.Sub? then c.mapping.Repr else {}
  }

  ghost predicate ValidSlot(c: Slot)
    reads if c.Sub? then {c.mapping} else {}, Footprint(c)
  {
    if c.Sub? then c.mapping.Valid() else !c.node.Dict?
  }

  ghost function SlotView(c: Slot): Node
    requires ValidSlot(c)
    reads if c.Sub? then {c.mapping} else {}, Footprint(c)
  {
    if c.Sub? then c.mapping.View() else c.node
  }

  /** The slot is a proper tree with the given value, within the given objects. */
  ghost predicate Holds(c: Slot, n: Node, area: set<Mapping>)
    reads if c.Sub? then {c.mapping} else {}, Footprint(c)
  {
    ValidSlot(c) && SlotView(c) == n && Footprint(c) <= area
  }

  datatype Held = Held(slot: Slot, node: Node, room: set<Mapping>)

  /** The two trees at the start of a merge, key by key: the values, and the objects that hold them. */
  datatype Plan = Plan(mine: map<Key, Node>, theirs: map<Key, Node>,
                             before: map<Key, set<Mapping>>, area: map<Key, set<Mapping>>)
  {
    ghost function Mine(k: Key): set<Mapping> { if k in before then before[k] else {} }

    ghost function Theirs(k: Key): set<Mapping> { if k in area then area[k] else {} }

    ghost predicate Apart(root: Mapping) {
      && mine.Keys == before.Keys && theirs.Keys == area.Keys
      && (forall k :: root !in Mine(k) + Theirs(k))
      && (forall j, k :: Mine(j) !! Theirs(k))
      && (forall j, k :: j != k ==> Mine(j) !! Mine(k) && Theirs(j) !! Theirs(k))
    }

    /** The objects of every other key. */
    ghost function Rest(key: Key): set<Mapping> {
      set k, o | k in mine.Keys + theirs.Keys && k != key && o in Mine(k) + Theirs(k) :: o
    }

    lemma Frames(root: Mapping, key: Key, keys: set<Key>, now: map<Key, Held>)
      requires Apart(root) && Fits(now, keys)
      ensures Mine(key) !! Theirs(key) && Mine(key) !! Rest(key) && root !in Mine(key) + Theirs(key) + Rest(key)
      ensures forall k :: k in now && k != key ==> now[k].room <= Rest(key)
    {
      forall k | k in now && k != key ensures now[k].room <= Rest(key) {
        forall o | o in now[k].room ensures o in Rest(key) {
          assert k in mine.Keys + theirs.Keys && o in Mine(k) + Theirs(k);
        }
      }
    }

    /** The keys hold what they should while the given ones are still to do. */
    ghost predicate Fits(now: map<Key, Held>, keys: set<Key>) {
      && now.Keys == mine.Keys + (theirs.Keys - keys)
      && forall k :: k in now ==> now[k].node == Want(k, keys) && now[k].room == Room(k, keys)
    }

    lemma WantIsOver(v: map<Key, Node>)
      requires v.Keys == mine.Keys + theirs.Keys && forall k :: k in v ==> v[k] == Want(k, {})
      ensures Dict(v) == Over(Dict(mine), Dict(theirs))
    {
      assert v == Over(Dict(mine), Dict(theirs)).dict;
    }

    lemma Separate(root: Mapping, r: set<Mapping>, s: set<Mapping>)
      requires mine.Keys == before.Keys && theirs.Keys == area.Keys && r !! s && root in r
      requires forall k :: k in before ==> root !in before[k] && before[k] <= r
      requires forall k :: k in area ==> area[k] <= s
      requires forall j, k :: j in before && k in before && j != k ==> before[j] !! before[k]
      requires forall j, k :: j in area && k in area && j != k ==> area[j] !! area[k]
      ensures Apart(root)
      ensures forall k :: Mine(k) <= r && Theirs(k) <= s
    {
    }

    lemma FitsStart(now: map<Key, Held>)
      requires mine.Keys == before.Keys == now.Keys && theirs.Keys == area.Keys
      requires forall k :: k in now ==> now[k].node == mine[k] && now[k].room == before[k]
      ensures Fits(now, theirs.Keys)
    {
    }

    lemma FitsStep(key: Key, keys: set<Key>, now: map<Key, Held>, slot: Slot)
      requires Fits(now, keys) && key in keys && keys <= theirs.Keys
      ensures Fits((now - {key})[key := Held(slot, Want(key, keys - {key}), Room(key, keys - {key}))], keys - {key})
    {
    }

    /** What a key should hold while the given keys are still to do. */
    ghost function Want(k: Key, keys: set<Key>): Node
      requires k in mine || k in theirs
    {
      if k in mine && (k in keys || k !in theirs) then mine[k]
      else if k in mine then Over(mine[k], theirs[k])
      else theirs[k]
    }

    ghost function Room(k: Key, keys: set<Key>): set<Mapping> {
      if k in keys then Mine(k) else Mine(k) + Theirs(k)
    }
  }

  class Mapping {
    var slots: map<Key, Slot>
    ghost var Repr: set<Mapping>

    /** A proper tree: no dictionary is reachable in two ways. */
    ghost predicate Valid()
      reads this, Repr
      decreases Repr
    {
      && this in Repr
      && (forall k :: k in slots && slots[k].Plain? ==> !slots[k].node.Dict?)
      && (forall k :: k in slots && slots[k].Sub? ==>
            && slots[k].mapping in Repr && slots[k].mapping.Repr <= Repr && this !in slots[k].mapping.Repr
            && slots[k].mapping.Valid())
      && (forall j, k :: j in slots && k in slots && j != k && slots[j].Sub? && slots[k].Sub? ==>
            slots[j].mapping.Repr !! slots[k].mapping.Repr)
    }

    /** The tree as a value. */
    ghost function View(): (n: Node)
      requires Valid()
      reads this, Repr
      ensures n.Dict? && n.dict.Keys == slots.Keys
      decreases Repr
    {
      Dict(map k | k in slots :: if slots[k].Plain? then slots[k].node else slots[k].mapping.View())
    }

    ghost function Areas(): (m: map<Key, set<Mapping>>)
      requires Valid()
      reads this, Repr
      ensures m.Keys == slots.Keys
    {
      map k | k in slots :: Footprint(slots[k])
    }

    lemma Parts()
      requires Valid()
      ensures Areas().Keys == slots.Keys == View().dict.Keys
      ensures forall k :: k in slots ==>
        && this !in Areas()[k] && Areas()[k] <= Repr
        && Holds(slots[k], View().dict[k], Areas()[k]) && Footprint(slots[k]) == Areas()[k]
      ensures forall j, k :: j in slots && k in slots && j != k ==> Areas()[j] !! Areas()[k]
    {
    }

    /** One turn of the loop: the value under one key is merged, or replaced by the other tree's own
        object. What lies within `rest` is not touched. */
    method MergeKey(key: Key, theirs: Slot, ghost rest: set<Mapping>)
      requires ValidSlot(theirs) && this !in Footprint(theirs)
      requires key in slots ==>
        ValidSlot(slots[key]) && this !in Footprint(slots[key]) && Footprint(slots[key]) !! Footprint(theirs)
      requires this !in rest && (key in slots ==> Footprint(slots[key]) !! rest)
      modifies this`slots, if key in slots then Footprint(slots[key]) else {}
      ensures unchanged(rest)
      ensures key in slots && slots == old(slots)[key := slots[key]]
      ensures !(key in old(slots) && old(slots)[key].Sub? && theirs.Sub?) ==> slots[key] == theirs
      ensures ValidSlot(slots[key])
      ensures SlotView(slots[key]) ==
        if key in old(slots) then Over(old(SlotView(slots[key])), old(SlotView(theirs))) else old(SlotView(theirs))
      ensures Footprint(slots[key]) <=
        (if key in old(slots) then old(Footprint(slots[key])) else {}) + old(Footprint(theirs))
      decreases Footprint(theirs), 1
    {
      if key in slots && slots[key].Sub? && theirs.Sub? {
        slots[key].mapping.MergeFrom(theirs.mapping);
      } else {
        slots := slots[key := theirs];
      }
    }

    static lemma IsHeld(c: Slot, n: Node, area: set<Mapping>)
      requires ValidSlot(c) && SlotView(c) == n && Footprint(c) <= area
      ensures Holds(c, n, area)
    {
    }

    /** A turn of the loop leaves alone what is held within `rest`. */
    method MergeKeyKeeping(key: Key, theirs: Slot, ghost rest: set<Mapping>, ghost kept: map<Key, Held>)
      requires ValidSlot(theirs) && this !in Footprint(theirs)
      requires key in slots ==>
        ValidSlot(slots[key]) && this !in Footprint(slots[key]) && Footprint(slots[key]) !! Footprint(theirs)
      requires this !in rest && (key in slots ==> Footprint(slots[key]) !! rest)
      requires forall k :: k in kept ==> Holds(kept[k].slot, kept[k].node, kept[k].room) && kept[k].room <= rest
      modifies this`slots, if key in slots then Footprint(slots[key]) else {}
      ensures key in slots && slots == old(slots)[key := slots[key]]
      ensures ValidSlot(slots[key])
      ensures SlotView(slots[key]) ==
        if key in old(slots) then Over(old(SlotView(slots[key])), old(SlotView(theirs))) else old(SlotView(theirs))
      ensures Footprint(slots[key]) <=
        (if key in old(slots) then old(Footprint(slots[key])) else {}) + old(Footprint(theirs))
      ensures forall k :: k in kept ==> Holds(kept[k].slot, kept[k].node, kept[k].room)
      decreases Footprint(theirs), 2
    {
      MergeKey(key, theirs, rest);
      hide Over, Mapping.View;
      forall k | k in kept ensures Holds(kept[k].slot, kept[k].node, kept[k].room) {
        var c := kept[k].slot;
        assert old(Holds(c, kept[k].node, kept[k].room));
        if c.Sub? { assert c.mapping in old(c.mapping.Repr); }
      }
    }

    /** What the keys hold now. */
    ghost predicate Keeps(now: map<Key, Held>)
      reads this, set k | k in now && now[k].slot.Sub? :: now[k].slot.mapping,
        set k, o | k in now && o in Footprint(now[k].slot) :: o
    {
      && now.Keys == slots.Keys
      && forall k :: k in now ==> now[k].slot == slots[k] && Holds(now[k].slot, now[k].node, now[k].room)
    }

    lemma Ready(p: Plan, theirs: Slot, key: Key, keys: set<Key>, now: map<Key, Held>)
      requires p.Apart(this) && key in keys && keys <= p.theirs.Keys && p.Fits(now, keys) && Keeps(now)
      requires Holds(theirs, p.theirs[key], p.Theirs(key))
      ensures ValidSlot(theirs) && SlotView(theirs) == p.theirs[key] && Footprint(theirs) <= p.Theirs(key)
      ensures this !in Footprint(theirs) && this !in p.Rest(key)
      ensures key in slots <==> key in p.mine
      ensures key in slots ==>
        && ValidSlot(slots[key]) && SlotView(slots[key]) == p.mine[key] && Footprint(slots[key]) <= p.Mine(key)
        && this !in Footprint(slots[key])
        && Footprint(slots[key]) !! Footprint(theirs) && Footprint(slots[key]) !! p.Rest(key)
      ensures now.Keys == slots.Keys && forall k :: k in now ==>
        now[k].slot == slots[k] && Holds(now[k].slot, now[k].node, now[k].room)
      ensures forall k :: k in now - {key} ==> now[k].room <= p.Rest(key)
    {
      p.Frames(this, key, keys, now);
      hide Mapping.Valid, Mapping.View, Plan.Apart, Plan.Rest;
    }

    lemma KeepsAll(now: map<Key, Held>, key: Key, next: map<Key, Held>)
      requires key in slots && slots.Keys == next.Keys == now.Keys + {key}
      requires forall k :: k in now - {key} ==>
        next[k] == now[k] && now[k].slot == slots[k] && Holds(now[k].slot, now[k].node, now[k].room)
      requires next[key].slot == slots[key] && Holds(next[key].slot, next[key].node, next[key].room)
      ensures Keeps(next)
    {
      hide Holds;
      forall k | k in next ensures next[k].slot == slots[k] && Holds(next[k].slot, next[k].node, next[k].room) {
        if k != key { assert k in now - {key}; }
      }
    }

    lemma Done(p: Plan, key: Key, keys: set<Key>, now: map<Key, Held>, next: map<Key, Held>)
      requires key in keys && keys <= p.theirs.Keys && p.Fits(now, keys)
      requires key in slots && slots.Keys == now.Keys + {key}
      requires next == (now - {key})[key := Held(slots[key], p.Want(key, keys - {key}), p.Room(key, keys - {key}))]
      requires Holds(slots[key], if key in p.mine then Over(p.mine[key], p.theirs[key]) else p.theirs[key],
                     p.Mine(key) + p.Theirs(key))
      requires forall k :: k in now - {key} ==> now[k].slot == slots[k] && Holds(now[k].slot, now[k].node, now[k].room)
      ensures Keeps(next)
      ensures p.Fits(next, keys - {key})
    {
      hide Holds, Over, Keeps, Plan.Fits;
      p.FitsStep(key, keys, now, slots[key]);
      KeepsAll(now, key, next);
    }

    method MergeStep(ghost p: Plan, theirs: Slot, key: Key, ghost keys: set<Key>, ghost now: map<Key, Held>)
      returns (ghost next: map<Key, Held>)
      requires p.Apart(this) && key in keys && keys <= p.theirs.Keys && p.Fits(now, keys) && Keeps(now)
      requires Holds(theirs, p.theirs[key], p.Theirs(key))
      modifies this`slots, p.Mine(key)
      ensures Keeps(next) && p.Fits(next, keys - {key}) && Repr == old(Repr)
      decreases p.Theirs(key), 3
    {
      hide *;
      Ready(p, theirs, key, keys, now);
      MergeKeyKeeping(key, theirs, p.Rest(key), now - {key});
      IsHeld(slots[key], if key in p.mine then Over(p.mine[key], p.theirs[key]) else p.theirs[key],
             p.Mine(key) + p.Theirs(key));
      next := (now - {key})[key := Held(slots[key], p.Want(key, keys - {key}), p.Room(key, keys - {key}))];
      Done(p, key, keys, now, next);
    }

    lemma Start(p: Plan, src: Mapping, now: map<Key, Held>, mine: set<Mapping>)
      requires Valid() && src.Valid() && mine !! src.Repr && this in mine
      requires p == Plan(View().dict, src.View().dict, Areas(), src.Areas())
      requires forall k :: k in slots ==> Areas()[k] <= mine
      requires now == map k | k in slots :: Held(slots[k], p.mine[k], p.before[k])
      ensures p.Apart(this) && p.Fits(now, src.slots.Keys) && Keeps(now)
      ensures forall k :: p.Mine(k) <= mine && p.Theirs(k) <= src.Repr
    {
      hide Mapping.Valid, Mapping.View, Mapping.Areas, Over, Holds, Plan.Apart, Plan.Fits;
      Parts();
      src.Parts();
      p.Separate(this, mine, src.Repr);
      p.FitsStart(now);
    }

    lemma KeptSlot(p: Plan, now: map<Key, Held>, k: Key)
      requires p.Apart(this) && p.Fits(now, {}) && Keeps(now) && k in slots
      ensures k in p.mine || k in p.theirs
      ensures Holds(slots[k], p.Want(k, {}), p.Mine(k) + p.Theirs(k)) && this !in Footprint(slots[k])
    {
      hide Mapping.Valid, Mapping.View, Over;
      assert now[k].slot == slots[k];
    }

    lemma KeptKeys(p: Plan, now: map<Key, Held>)
      requires p.Fits(now, {}) && Keeps(now)
      ensures slots.Keys == p.mine.Keys + p.theirs.Keys
    {
      hide Mapping.Valid, Mapping.View, Over, Holds;
    }

    lemma KeptApart(p: Plan, now: map<Key, Held>, j: Key, k: Key)
      requires p.Apart(this) && p.Fits(now, {}) && Keeps(now) && j in slots && k in slots && j != k
      ensures Footprint(slots[j]) !! Footprint(slots[k])
    {
      KeptSlot(p, now, j);
      KeptSlot(p, now, k);
      hide Mapping.Valid, Mapping.View, Over, Keeps, Plan.Fits;
    }

    lemma IsTree()
      requires this in Repr && forall k :: k in slots ==> Footprint(slots[k]) <= Repr
      requires forall k :: k in slots ==> ValidSlot(slots[k]) && this !in Footprint(slots[k])
      requires forall j, k :: j in slots && k in slots && j != k ==> Footprint(slots[j]) !! Footprint(slots[k])
      ensures Valid()
    {
      forall k | k in slots && slots[k].Sub? ensures slots[k].mapping in Repr {
        assert slots[k].mapping.Valid();
      }
    }

    lemma KeptIsValid(p: Plan, now: map<Key, Held>)
      requires p.Apart(this) && p.Fits(now, {}) && Keeps(now) && this in Repr
      requires forall k :: p.Mine(k) <= Repr && p.Theirs(k) <= Repr
      ensures Valid()
    {
      hide Mapping.Valid, Keeps, Plan.Fits, Plan.Apart, Footprint, ValidSlot;
      forall k | k in slots ensures ValidSlot(slots[k]) && this !in Footprint(slots[k]) && Footprint(slots[k]) <= Repr {
        KeptSlot(p, now, k);
      }
      forall j, k | j in slots && k in slots && j != k ensures Footprint(slots[j]) !! Footprint(slots[k]) {
        KeptApart(p, now, j, k);
      }
      IsTree();
    }

    lemma ViewSlots()
      requires Valid()
      ensures forall k :: k in slots ==> ValidSlot(slots[k]) && View().dict[k] == SlotView(slots[k])
    {
    }

    lemma Finish(p: Plan, now: map<Key, Held>)
      requires p.Apart(this) && p.Fits(now, {}) && Keeps(now) && this in Repr
      requires forall k :: p.Mine(k) <= Repr && p.Theirs(k) <= Repr
      ensures Valid() && View() == Over(Dict(p.mine), Dict(p.theirs))
    {
      hide Mapping.Valid, Mapping.View, Plan.Fits, Plan.Apart, Over, Keeps;
      KeptIsValid(p, now);
      ViewSlots();
      KeptKeys(p, now);
      forall k | k in slots ensures View().dict[k] == p.Want(k, {}) {
        KeptSlot(p, now, k);
      }
      p.WantIsOver(View().dict);
    }

    ghost method Widen(extra: set<Mapping>)
      requires Valid()
      modifies this`Repr
      ensures Valid() && Repr == old(Repr) + extra && View() == old(View()) && Areas() == old(Areas())
    {
      ghost var v, a := View(), Areas();
      Parts();
      assert this in Repr;
      hide Mapping.Valid, Mapping.View, Mapping.Areas, Over;
      Repr := Repr + extra;
      assert forall k :: k in slots ==> Holds(slots[k], v.dict[k], a[k]);
      Rebuilt(v, a);
    }

    lemma Rebuilt(v: Node, a: map<Key, set<Mapping>>)
      requires v.Dict? && v.dict.Keys == a.Keys == slots.Keys && this in Repr
      requires forall k :: k in slots ==>
        Holds(slots[k], v.dict[k], a[k]) && Footprint(slots[k]) == a[k] <= Repr && this !in a[k]
      requires forall j, k :: j in slots && k in slots && j != k ==> a[j] !! a[k]
      ensures Valid() && View() == v && Areas() == a
    {
      hide Mapping.Valid, Mapping.View;
      IsTree();
      ViewSlots();
      assert View().dict == v.dict;
    }

    /** The merge itself: afterwards this tree is the merge of the two values, and the other tree is
        what it was, though parts of it now belong to both. */
    method MergeFrom(src: Mapping)
      requires Valid() && src.Valid() && Repr !! src.Repr
      modifies Repr
      ensures Valid() && View() == Over(old(View()), old(src.View()))
      ensures src.Valid() && src.View() == old(src.View())
      ensures Repr <= old(Repr) + src.Repr
      decreases src.Repr, 0
    {
      hide *;
      Begin(src);
      Widen(src.Repr);
      ghost var p := Plan(View().dict, src.View().dict, Areas(), src.Areas());
      ghost var now := map k | k in slots :: Held(slots[k], p.mine[k], p.before[k]);
      Start(p, src, now, old(Repr));
      var keys := src.slots.Keys;
      while keys != {}
        invariant keys <= src.slots.Keys && p.Fits(now, keys) && Keeps(now)
        invariant Repr == old(Repr) + src.Repr
      {
        var key :| key in keys;
        src.Provides(p, key);
        now := MergeStep(p, src.slots[key], key, keys, now);
        keys := keys - {key};
      }
      Finish(p, now);
    }

    lemma Provides(p: Plan, key: Key)
      requires Valid() && key in slots && p.theirs == View().dict && p.area == Areas()
      ensures p.theirs.Keys == slots.Keys && Holds(slots[key], p.theirs[key], p.Theirs(key))
      ensures p.Theirs(key) < Repr
    {
      Parts();
    }

    lemma Begin(src: Mapping)
      requires Valid() && src.Valid() && Repr !! src.Repr
      ensures this in Repr && src in src.Repr
      ensures forall k :: k in slots ==> this !in Areas()[k] && Areas()[k] <= Repr
      ensures this !in src.Repr && src !in Repr
    {
      Parts();
    }
  }

  /** Merging into nothing is an error, merging nothing changes nothing. */
  method MergeInto(dest: Mapping?, src: Mapping?) returns (r: Result<(), string>)
    requires dest != null ==> dest.Valid()
    requires src != null ==> src.Valid() && (dest != null ==> dest.Repr !! src.Repr)
    modifies if dest == null then {} else dest.Repr
    ensures r.Err? <==> dest == null
    ensures dest != null ==> dest.Valid()
    ensures dest != null && src == null ==> dest.View() == old(dest.View())
    ensures dest != null && src != null ==> dest.View() == Over(old(dest.View()), old(src.View()))
    ensures src != null ==> src.Valid() && src.View() == old(src.View())
  {
    if dest == null {
      return Err("Could not merge into None");
    }
    if src == null {
      return Ok(());
    }
    if src.slots == map[] {
      NothingOver(dest.View(), src.View());
      return Ok(());
    }
    dest.MergeFrom(src);
    return Ok(());
  }

  lemma NothingOver(a: Node, b: Node)
    requires a.Dict? && b.Dict? && b.dict == map[]
    ensures Over(a, b) == a
  {
    assert Over(a, b).dict == a.dict;
  }
}
