/**
 * Flattening of theme elements: the record kept for a root element lists the
 * `specificPixmaps` of every node of its subtree, in pre-order, each with its
 * image bound from the texture registry.
 */
module Flattening {
  import opened Wrappers
  import opened ThemeData

  /** `element.specificPixmaps`, an absent list read as empty. */
  function OwnPixmaps(e: Element): seq<Pixmap>
  {
    if e.specificPixmaps.Some? then e.specificPixmaps.value else []
  }

  /** `element.childrenThemeElements`, an absent list read as empty. */
  function Children(e: Element): seq<Element>
  {
    if e.childrenThemeElements.Present? then e.childrenThemeElements.elements else []
  }

  lemma ChildIsSmaller(e: Element, i: nat)
    requires i < |Children(e)|
    ensures Children(e)[i] < e
  {
    assert Children(e)[i] in e.childrenThemeElements.elements;
  }

  /** The pixmaps of a list, each with `image` bound to the texture it names (or `undefined`). */
  function BindAll(textures: map<string, Image>, ps: seq<Pixmap>): (r: seq<Pixmap>)
    ensures |r| == |ps|
  {
    seq(|ps|, i requires 0 <= i < |ps| => BindImage(textures, ps[i]))
  }

  /** Every pixmap of `ps` carries the image its texture names in `textures`. */
  predicate AllBound(textures: map<string, Image>, ps: seq<Pixmap>)
  {
    forall i | 0 <= i < |ps| :: ps[i].image == Lookup(textures, ps[i].texture)
  }

  /**
   * What `flattenThemeElement(flattened, e)` appends to `flattened.pixmaps`:
   * the node's own pixmaps, then each child's subtree, left to right.
   */
  function Flatten(textures: map<string, Image>, e: Element): (r: seq<Pixmap>)
    ensures BindAll(textures, OwnPixmaps(e)) <= r
    decreases e, 1
  {
    BindAll(textures, OwnPixmaps(e)) + FlattenChildren(textures, e, |Children(e)|)
  }

  /** The subtrees of the first `n` children of `parent`, flattened and concatenated. */
  function FlattenChildren(textures: map<string, Image>, parent: Element, n: nat): seq<Pixmap>
    requires n <= |Children(parent)|
    decreases parent, 0, n
  {
    if n == 0 then []
    else
      ChildIsSmaller(parent, n - 1);
      FlattenChildren(textures, parent, n - 1) + Flatten(textures, Children(parent)[n - 1])
  }

  /** Binding one more pixmap of a list appends its bound copy. */
  lemma BindAllSnoc(textures: map<string, Image>, ps: seq<Pixmap>, i: nat)
    requires i < |ps|
    ensures BindAll(textures, ps[..i + 1]) == BindAll(textures, ps[..i]) + [BindImage(textures, ps[i])]
  {
    assert BindAll(textures, ps[..i + 1])[i] == BindImage(textures, ps[i]);
  }

  /** Flattening one more child, after any `front`, appends that child's subtree. */
  lemma FlattenChildrenSnoc(textures: map<string, Image>, parent: Element, i: nat, front: seq<Pixmap>)
    requires i < |Children(parent)|
    ensures front + FlattenChildren(textures, parent, i) + Flatten(textures, Children(parent)[i])
            == front + FlattenChildren(textures, parent, i + 1)
  {
  }

  /** The flattened subtree after `front` is the node's bound pixmaps, then its children's subtrees. */
  lemma FlattenAfter(textures: map<string, Image>, e: Element, front: seq<Pixmap>)
    ensures front + BindAll(textures, OwnPixmaps(e)) + FlattenChildren(textures, e, |Children(e)|)
            == front + Flatten(textures, e)
  {
  }

  /** The nodes of the subtree rooted at `e`, in pre-order. */
  function Nodes(e: Element): (r: seq<Element>)
    ensures |r| > 0 && r[0] == e
    decreases e, 1
  {
    [e] + NodesOfChildren(e, |Children(e)|)
  }

  /** The pre-order nodes of the first `n` children's subtrees of `parent`. */
  function NodesOfChildren(parent: Element, n: nat): seq<Element>
    requires n <= |Children(parent)|
    decreases parent, 0, n
  {
    if n == 0 then []
    else
      ChildIsSmaller(parent, n - 1);
      NodesOfChildren(parent, n - 1) + Nodes(Children(parent)[n - 1])
  }

  /** The own pixmaps of every node of `ns` in order, bound, concatenated. */
  function OwnOfAll(textures: map<string, Image>, ns: seq<Element>): seq<Pixmap>
    decreases |ns|
  {
    if ns == [] then [] else BindAll(textures, OwnPixmaps(ns[0])) + OwnOfAll(textures, ns[1..])
  }

  lemma {:induction false} OwnOfAllAppend(textures: map<string, Image>, a: seq<Element>, b: seq<Element>)
    ensures OwnOfAll(textures, a + b) == OwnOfAll(textures, a) + OwnOfAll(textures, b)
    decreases |a|
  {
    if a == [] {
      assert a + b == b;
    } else {
      assert (a + b)[0] == a[0] && (a + b)[1..] == a[1..] + b;
      OwnOfAllAppend(textures, a[1..], b);
    }
  }

  /** Flattening is the pre-order concatenation: the own pixmaps of the subtree's nodes, in pre-order. */
  lemma {:induction false} FlattenIsPreorder(textures: map<string, Image>, e: Element)
    ensures Flatten(textures, e) == OwnOfAll(textures, Nodes(e))
    decreases e, 1
  {
    FlattenChildrenIsPreorder(textures, e, |Children(e)|);
    assert Nodes(e)[1..] == NodesOfChildren(e, |Children(e)|);
  }

  lemma {:induction false} FlattenChildrenIsPreorder(textures: map<string, Image>, parent: Element, n: nat)
    requires n <= |Children(parent)|
    ensures FlattenChildren(textures, parent, n) == OwnOfAll(textures, NodesOfChildren(parent, n))
    decreases parent, 0, n
  {
    if n > 0 {
      var child := Children(parent)[n - 1];
      ChildIsSmaller(parent, n - 1);
      FlattenChildrenIsPreorder(textures, parent, n - 1);
      FlattenIsPreorder(textures, child);
      OwnOfAllAppend(textures, NodesOfChildren(parent, n - 1), Nodes(child));
    }
  }

  lemma {:induction false} OwnOfAllBound(textures: map<string, Image>, ns: seq<Element>)
    ensures AllBound(textures, OwnOfAll(textures, ns))
    decreases |ns|
  {
    if ns != [] {
      OwnOfAllBound(textures, ns[1..]);
    }
  }

  /** Every pixmap of a flattened subtree carries the image its texture names in the registry. */
  lemma FlattenBound(textures: map<string, Image>, e: Element)
    ensures AllBound(textures, Flatten(textures, e))
  {
    FlattenIsPreorder(textures, e);
    OwnOfAllBound(textures, Nodes(e));
  }

  /** The record `loadThemeElements` keeps for a root: a copy of the root, with the subtree's pixmaps. */
  function FlatRecord(textures: map<string, Image>, root: Element): (r: FlatElement)
    ensures r.element == root
    ensures r.pixmaps == OwnOfAll(textures, Nodes(root))
  {
    FlattenIsPreorder(textures, root);
    FlatElement(root, Flatten(textures, root))
  }

  /** A root with pixmap `p0` and two leaf children holding `p1` and `p2` flattens to the three, in that order. */
  lemma FlattenTwoChildren(textures: map<string, Image>, p0: Pixmap, p1: Pixmap, p2: Pixmap)
    ensures var c1 := Element("c1", map[], Some([p1]), Absent);
            var c2 := Element("c2", map[], Some([p2]), Absent);
            var root := Element("root", map[], Some([p0]), Present([c1, c2]));
            Flatten(textures, root) == [BindImage(textures, p0), BindImage(textures, p1), BindImage(textures, p2)]
  {
    var c1 := Element("c1", map[], Some([p1]), Absent);
    var c2 := Element("c2", map[], Some([p2]), Absent);
    var root := Element("root", map[], Some([p0]), Present([c1, c2]));
    assert Flatten(textures, c1) == [BindImage(textures, p1)];
    assert Flatten(textures, c2) == [BindImage(textures, p2)];
    assert FlattenChildren(textures, root, 1) == [BindImage(textures, p1)];
  }
}
