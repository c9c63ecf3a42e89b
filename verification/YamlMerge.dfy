/** Configuration trees and the merge of one layer over another. */
module YamlMerge {
  import opened Wrappers

  type Key = string

  /** A loaded YAML value. */
  datatype Node =
    | Null
    | Flag(flag: bool)
    | Num(num: int)
    | Text(text: string)
    | List(items: seq<Node>)
    | Dict(dict: map<Key, Node>)

  type Path = seq<Key>

  // ----- Reference: lookups by path -----

  function Get(n: Node, path: Path): Option<Node> {
    if path == [] then Some(n)
    else if n.Dict? && path[0] in n.dict then Get(n.dict[path[0]], path[1..])
    else None
  }

  /** Whether the tree has something at the path, or something other than a dictionary on the way. */
  predicate Covers(n: Node, path: Path) {
    if !n.Dict? || path == [] then true
    else path[0] in n.dict && Covers(n.dict[path[0]], path[1..])
  }

  /** Laying one value over another: dictionaries unite, anything else replaces. */
  function Over(a: Node, b: Node): Node
    decreases a, b
  {
    if !a.Dict? || !b.Dict? then b
    else Dict(map k | k in a.dict.Keys + b.dict.Keys ::
                if k !in b.dict then a.dict[k]
                else if k !in a.dict then b.dict[k]
                else Over(a.dict[k], b.dict[k]))
  }

  function Merge(dest: map<Key, Node>, src: map<Key, Node>): map<Key, Node> {
    Over(Dict(dest), Dict(src)).dict
  }

  /** A leaf of the merged tree is a leaf of the upper layer, or a leaf of the lower one at a path the
      upper layer does not cover. */
  lemma {:induction false} LeavesOfMerge(a: Node, b: Node, path: Path, leaf: Node)
    requires !leaf.Dict?
    ensures Get(Over(a, b), path) == Some(leaf)
       <==> Get(b, path) == Some(leaf) || (Get(a, path) == Some(leaf) && !Covers(b, path))
    decreases path
  {
    if a.Dict? && b.Dict? && path != [] && path[0] in a.dict && path[0] in b.dict {
      LeavesOfMerge(a.dict[path[0]], b.dict[path[0]], path[1..], leaf);
    }
  }

  /** Merging the same layer twice is merging it once. */
  lemma {:induction false} MergeIsIdempotent(a: Node, b: Node)
    ensures Over(Over(a, b), b) == Over(a, b)
    decreases a, b
  {
    if a.Dict? && b.Dict? {
      var ab := Over(a, b).dict;
      forall k | k in ab ensures Over(Over(a, b), b).dict[k] == ab[k] {
        if k in b.dict {
          if k in a.dict { MergeIsIdempotent(a.dict[k], b.dict[k]); } else { OverItself(b.dict[k]); }
        }
      }
      assert Over(Over(a, b), b).dict == ab;
    } else {
      OverItself(b);
    }
  }

  lemma {:induction false} OverItself(a: Node)
    ensures Over(a, a) == a
  {
    if a.Dict? {
      forall k | k in a.dict ensures Over(a, a).dict[k] == a.dict[k] {
        OverItself(a.dict[k]);
      }
      assert Over(a, a).dict == a.dict;
    }
  }

  /** Whether laying `b` over `a` leaves nothing of `a`: `b` has every key that `a` has. */
  predicate Hides(b: Node, a: Node)
    decreases a
  {
    a.Dict? && b.Dict? ==>
      && a.dict.Keys <= b.dict.Keys
      && forall k :: k in a.dict && k in b.dict ==> Hides(b.dict[k], a.dict[k])
  }

  lemma {:induction false} HidesIff(a: Node, b: Node)
    ensures Over(a, b) == b <==> Hides(b, a)
    decreases a, b
  {
    if a.Dict? && b.Dict? {
      var ab := Over(a, b).dict;
      forall k | k in a.dict && k in b.dict ensures ab[k] == b.dict[k] <==> Hides(b.dict[k], a.dict[k]) {
        HidesIff(a.dict[k], b.dict[k]);
      }
      assert a.dict.Keys <= ab.Keys;
      if Hides(b, a) { assert ab == b.dict; }
    }
  }

  /** Somewhere the middle layer has a plain value between two dictionaries, of which the upper does
      not hide the lower. */
  predicate Clash(a: Node, b: Node, c: Node)
    decreases a
  {
    && a.Dict? && c.Dict?
    && if !b.Dict? then !Hides(c, a)
       else exists k :: k in a.dict && k in b.dict && k in c.dict && Clash(a.dict[k], b.dict[k], c.dict[k])
  }

  /** Layers can be merged in either grouping exactly when no middle value clashes. */
  lemma {:induction false} MergeIsAssociativeIff(a: Node, b: Node, c: Node)
    ensures Over(Over(a, b), c) == Over(a, Over(b, c)) <==> !Clash(a, b, c)
    decreases a
  {
    if !c.Dict? || !a.Dict? {
    } else if !b.Dict? {
      HidesIff(a, c);
    } else {
      var l, r := Over(Over(a, b), c).dict, Over(a, Over(b, c)).dict;
      assert l.Keys == r.Keys;
      forall k | k in l
        ensures l[k] == r[k] <==> !(k in a.dict && k in b.dict && k in c.dict && Clash(a.dict[k], b.dict[k], c.dict[k]))
      {
        if k in a.dict && k in b.dict && k in c.dict {
          MergeIsAssociativeIff(a.dict[k], b.dict[k], c.dict[k]);
        }
      }
      if !Clash(a, b, c) { assert l == r; }
    }
  }

  /** A plain value in the middle hides the lower dictionary only if the layers are taken in order. */
  lemma GroupingMatters()
    ensures exists a: Node, b: Node, c: Node :: Over(Over(a, b), c) != Over(a, Over(b, c))
  {
    var a, b, c := Dict(map["x" := Num(1)]), Null, Dict(map[]);
    assert "x" in a.dict && "x" !in c.dict;
    MergeIsAssociativeIff(a, b, c);
  }
}
