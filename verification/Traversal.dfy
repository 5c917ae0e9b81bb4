/** The order in which RadixEnumerator visits a trie: depth first, a node before its
    children, children left to right. The enumerator's state is the path from the root to
    the node it stands on; what it has still to visit is a function of that path. */
module Traversal {
  import opened Wrappers
  import opened RadixTree

  /** A node followed by its subtree in visiting order. */
  function PreOrder<T>(n: Node<T>): seq<Node<T>>
    decreases n, 1
  {
    [n] + Forest(n.children)
  }

  /** The subtrees of a sequence of siblings, left to right, in visiting order. */
  function Forest<T>(cs: seq<Node<T>>): seq<Node<T>>
    decreases cs, 0
  {
    if |cs| == 0 then [] else PreOrder(cs[0]) + Forest(cs[1..])
  }

  /** The values held by a sequence of nodes, in order; valueless nodes are skipped. */
  function Valued<T>(ns: seq<Node<T>>): seq<T> {
    if |ns| == 0 then []
    else (if ns[0].value.Some? then [ns[0].value.value] else []) + Valued(ns[1..])
  }

  /** Position of the first child equal to `n`, |cs| when there is none. */
  function IndexOf<T(==)>(cs: seq<Node<T>>, n: Node<T>): (i: nat)
    ensures i <= |cs|
    ensures i < |cs| ==> cs[i] == n
    ensures forall j :: 0 <= j < i ==> cs[j] != n
  {
    if |cs| == 0 then 0
    else if cs[0] == n then 0
    else 1 + IndexOf(cs[1..], n)
  }

  /** The siblings after `n` (after its first occurrence), none when `n` is not a child. */
  function Following<T(==)>(cs: seq<Node<T>>, n: Node<T>): seq<Node<T>> {
    var i := IndexOf(cs, n);
    if i < |cs| then cs[i + 1..] else []
  }

  /** What remains to visit outside the subtree of the path's last node: at every level,
      the subtrees of the siblings that follow the path's node at that level. */
  function Above<T(==)>(path: seq<Node<T>>): seq<Node<T>>
    decreases |path|
  {
    if |path| <= 1 then []
    else Forest(Following(path[|path| - 2].children, path[|path| - 1])) + Above(path[..|path| - 1])
  }

  /** What remains to visit from the state (path, goUp): the last node's subtree unless the
      enumerator is on its way up from it, then everything above. */
  function Pending<T(==)>(path: seq<Node<T>>, goUp: bool): seq<Node<T>> {
    if |path| == 0 then []
    else (if goUp then [] else Forest(path[|path| - 1].children)) + Above(path)
  }

  /** Each node of the path is a child of the one before it. */
  ghost predicate Chain<T>(path: seq<Node<T>>) {
    forall j :: 0 < j < |path| ==> path[j] in path[j - 1].children
  }

  /** A path the enumerator can stand on: it starts at a root (empty edge) and follows child
      links through valid nodes. */
  ghost predicate Walkable<T>(path: seq<Node<T>>) {
    && Chain(path)
    && (forall j :: 0 <= j < |path| ==> Valid(path[j]))
    && (|path| > 0 ==> path[0].key == [])
  }

  lemma WalkablePush<T>(path: seq<Node<T>>, x: Node<T>)
    requires Walkable(path) && |path| > 0 && x in path[|path| - 1].children
    ensures Walkable(path + [x])
  {
    var p' := path + [x];
    var j :| 0 <= j < |path[|path| - 1].children| && path[|path| - 1].children[j] == x;
    assert Valid(x);
    forall j | 0 < j < |p'| ensures p'[j] in p'[j - 1].children {
      if j < |path| {
        assert p'[j] == path[j] && p'[j - 1] == path[j - 1];
      }
    }
  }

  lemma WalkablePop<T>(path: seq<Node<T>>)
    requires Walkable(path) && |path| > 0
    ensures Walkable(path[..|path| - 1])
  {
    var p' := path[..|path| - 1];
    forall j | 0 < j < |p'| ensures p'[j] in p'[j - 1].children {
      assert p'[j] == path[j] && p'[j - 1] == path[j - 1];
    }
  }

  /** The key a path spells: its edges concatenated (CurrentKey). */
  function Spell<T>(path: seq<Node<T>>): seq<char> {
    if |path| == 0 then [] else Spell(path[..|path| - 1]) + path[|path| - 1].key
  }

  // ---------------------------------------------------------------------------------
  // How the pending nodes change with each move of the enumerator

  /** Moving down to the first child visits it first. */
  lemma PendingFirstChild<T>(path: seq<Node<T>>)
    requires |path| > 0 && |path[|path| - 1].children| > 0
    ensures var c := path[|path| - 1].children[0];
      Pending(path, false) == [c] + Pending(path + [c], false)
  {
    var cs := path[|path| - 1].children;
    var c := cs[0];
    var path' := path + [c];
    var a, b, u := Forest(c.children), Forest(cs[1..]), Above(path);
    assert path'[..|path'| - 1] == path && path'[|path'| - 2] == path[|path| - 1];
    assert Following(cs, c) == cs[1..];
    assert Above(path') == b + u;
    assert Forest(cs) == ([c] + a) + b;
    Regroup([c], a, b, u);
  }

  /** A node without children has nothing below it to visit. */
  lemma PendingLeaf<T>(path: seq<Node<T>>)
    requires |path| > 0 && |path[|path| - 1].children| == 0
    ensures Pending(path, false) == Pending(path, true)
  {
  }

  /** Leaving a node for its next sibling visits that sibling first. */
  lemma PendingNextSibling<T>(path: seq<Node<T>>, i: nat)
    requires |path| >= 2
    requires var cs := path[|path| - 2].children;
      Siblings(cs) && i == IndexOf(cs, path[|path| - 1]) && i + 1 < |cs|
    ensures var up := path[..|path| - 1]; var x := path[|path| - 2].children[i + 1];
      Pending(path, true) == [x] + Pending(up + [x], false)
  {
    var up := path[..|path| - 1];
    var cs := path[|path| - 2].children;
    var x := cs[i + 1];
    var path' := up + [x];
    var a, b, u := Forest(x.children), Forest(cs[i + 2..]), Above(up);
    assert path'[..|path'| - 1] == up && path'[|path'| - 2] == path[|path| - 2];
    NextIndex(cs, i);
    assert Following(cs, x) == cs[i + 2..];
    assert Above(path') == b + u;
    assert cs[i + 1..][1..] == cs[i + 2..];
    assert Forest(cs[i + 1..]) == ([x] + a) + b;
    assert Pending(path, true) == Forest(cs[i + 1..]) + u;
    Regroup([x], a, b, u);
  }

  /** Among sorted siblings every node occurs once. */
  lemma NextIndex<T>(cs: seq<Node<T>>, i: nat)
    requires Siblings(cs) && i + 1 < |cs|
    ensures IndexOf(cs, cs[i + 1]) == i + 1
  {
    forall j | 0 <= j < i + 1 ensures cs[j] != cs[i + 1] {
      assert cs[j].key[0] < cs[i + 1].key[0];
    }
  }

  lemma Regroup<X>(x: seq<X>, a: seq<X>, b: seq<X>, u: seq<X>)
    ensures ((x + a) + b) + u == x + (a + (b + u))
  {
  }

  /** Leaving the last (or an unknown) child moves up to its parent. */
  lemma PendingUp<T>(path: seq<Node<T>>)
    requires |path| >= 2
    requires IndexOf(path[|path| - 2].children, path[|path| - 1]) + 1 >= |path[|path| - 2].children|
    ensures Pending(path, true) == Pending(path[..|path| - 1], true)
  {
    var cs := path[|path| - 2].children;
    assert Following(cs, path[|path| - 1]) == [];
  }

  // ---------------------------------------------------------------------------------
  // Values along the visiting order

  lemma {:induction false} ValuedAppend<T>(a: seq<Node<T>>, b: seq<Node<T>>)
    ensures Valued(a + b) == Valued(a) + Valued(b)
    decreases |a|
  {
    if |a| > 0 {
      assert (a + b)[1..] == a[1..] + b;
      ValuedAppend(a[1..], b);
    } else {
      assert a + b == b;
    }
  }

  /** Moving onto a node consumes its value, if any, from the values still to visit. */
  lemma ValuedCons<T>(x: Node<T>, rest: seq<Node<T>>)
    ensures Valued([x] + rest) == (if x.value.Some? then [x.value.value] else []) + Valued(rest)
  {
    assert ([x] + rest)[1..] == rest;
  }

  /** The traversal meets exactly as many values as the subtree counts. */
  lemma {:induction false} PreOrderCount<T>(n: Node<T>)
    ensures |Valued(PreOrder(n))| == ValueCount(n)
    decreases n, 1
  {
    ValuedCons(n, Forest(n.children));
    ForestOrderCount(n.children);
  }

  lemma {:induction false} ForestOrderCount<T>(cs: seq<Node<T>>)
    ensures |Valued(Forest(cs))| == ForestCount(cs)
    decreases cs, 0
  {
    if |cs| > 0 {
      ValuedAppend(PreOrder(cs[0]), Forest(cs[1..]));
      PreOrderCount(cs[0]);
      ForestOrderCount(cs[1..]);
    }
  }

  /** Every value an exact lookup finds below `cur` is met by the traversal of its
      children. */
  lemma {:induction false} FindVisited<T>(cur: Node<T>, k: seq<char>)
    requires Find(cur, k).Some?
    ensures Find(cur, k).value in Valued(Forest(cur.children))
    decreases cur, 0
  {
    var cs := cur.children;
    var i := ChildIndex(cs, k[0]);
    var c := cs[i];
    DescendVisited(c, k);
    ForestHas(cs, i);
  }

  lemma {:induction false} DescendVisited<T>(c: Node<T>, k: seq<char>)
    requires Descend(c, k).Some?
    ensures Descend(c, k).value in Valued(PreOrder(c))
    decreases c, 1
  {
    ValuedCons(c, Forest(c.children));
    var n := CommonPrefix(c.key, k);
    if n < |k| {
      FindVisited(c, k[n..]);
    }
  }

  /** The values of one child's subtree are among those of the siblings' subtrees. */
  lemma {:induction false} ForestHas<T>(cs: seq<Node<T>>, i: nat)
    requires i < |cs|
    ensures forall v :: v in Valued(PreOrder(cs[i])) ==> v in Valued(Forest(cs))
    decreases i
  {
    ValuedAppend(PreOrder(cs[0]), Forest(cs[1..]));
    if i > 0 {
      ForestHas(cs[1..], i - 1);
    }
  }

  // ---------------------------------------------------------------------------------
  // The enumerator's moves, each with what it does to the values still to report

  /** The value a node contributes when the enumerator moves onto it. */
  function Own<T>(x: Node<T>): seq<T> {
    if x.value.Some? then [x.value.value] else []
  }

  /** Moving down onto the first child. */
  lemma MoveDown<T>(path: seq<Node<T>>)
    requires Walkable(path) && |path| > 0 && |path[|path| - 1].children| > 0
    ensures var x := path[|path| - 1].children[0]; var next := path + [x];
      && Walkable(next) && next[0] == path[0]
      && Valued(Pending(path, false)) == Own(x) + Valued(Pending(next, false))
      && |Pending(next, false)| < |Pending(path, false)|
  {
    var x := path[|path| - 1].children[0];
    PendingFirstChild(path);
    ValuedCons(x, Pending(path + [x], false));
    WalkablePush(path, x);
  }

  /** Leaving a node for its next sibling. */
  lemma MoveAcross<T>(path: seq<Node<T>>, i: nat)
    requires Walkable(path) && |path| >= 2
    requires var cs := path[|path| - 2].children; i == IndexOf(cs, path[|path| - 1]) && i + 1 < |cs|
    ensures var x := path[|path| - 2].children[i + 1]; var next := path[..|path| - 1] + [x];
      && Walkable(next) && next[0] == path[0]
      && Valued(Pending(path, true)) == Own(x) + Valued(Pending(next, false))
      && |Pending(next, false)| < |Pending(path, true)|
  {
    var up := path[..|path| - 1];
    var x := path[|path| - 2].children[i + 1];
    assert Valid(path[|path| - 2]);
    PendingNextSibling(path, i);
    ValuedCons(x, Pending(up + [x], false));
    WalkablePop(path);
    WalkablePush(up, x);
  }

  /** Leaving the last child for its parent. */
  lemma MoveUp<T>(path: seq<Node<T>>)
    requires Walkable(path) && |path| >= 2
    requires IndexOf(path[|path| - 2].children, path[|path| - 1]) + 1 >= |path[|path| - 2].children|
    ensures var next := path[..|path| - 1];
      Walkable(next) && next[0] == path[0] && Pending(path, true) == Pending(next, true)
  {
    PendingUp(path);
    WalkablePop(path);
  }

  // ---------------------------------------------------------------------------------
  // The key a path spells

  /** Looking up, from the root, the key spelled by a path and then some more characters is
      looking up those characters below the path's last node. */
  lemma {:induction false} SpellFind<T>(path: seq<Node<T>>, rest: seq<char>)
    requires |path| > 0 && Walkable(path) && |rest| > 0
    ensures Find(path[0], Spell(path) + rest) == Find(path[|path| - 1], rest)
    decreases |path|
  {
    if |path| == 1 {
      assert Spell(path) == Spell(path[..0]) + path[0].key == [];
      assert Spell(path) + rest == rest;
    } else {
      var up := path[..|path| - 1];
      var parent := path[|path| - 2];
      var x := path[|path| - 1];
      WalkablePop(path);
      assert x in parent.children;
      var j :| 0 <= j < |parent.children| && parent.children[j] == x;
      assert |x.key| > 0;
      SpellFind(up, x.key + rest);
      assert Spell(path) + rest == Spell(up) + (x.key + rest);
      FindAt(parent, x.key + rest, j);
      CommonPrefixUnique(x.key, x.key + rest, |x.key|);
      assert (x.key + rest)[|x.key|..] == rest;
    }
  }

  /** The key a path spells looks up the value of the path's last node. */
  lemma SpellLookup<T>(path: seq<Node<T>>)
    requires |path| >= 2 && Walkable(path)
    ensures Find(path[0], Spell(path)) == path[|path| - 1].value
  {
    var up := path[..|path| - 1];
    var parent := path[|path| - 2];
    var x := path[|path| - 1];
    WalkablePop(path);
    var j :| 0 <= j < |parent.children| && parent.children[j] == x;
    assert |x.key| > 0;
    SpellFind(up, x.key);
    FindAt(parent, x.key, j);
    CommonPrefixSelf(x.key);
  }
}
