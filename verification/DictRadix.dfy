/** The DictRadix<T> object: a trie root, the value count and the override switch, with
    the insertion and exact lookup that walk it. */
module DataStructures {
  import opened Wrappers
  import opened RadixTree
  import opened TolerantCrawler
  import opened Traversal

  /** What one level of AddNode decides: go on below the child at `childPos`, whose edge
      of `n` characters the key runs through, or stop with the node that replaces the
      current one and whether a value was added. */
  datatype Step<T> = Continue(childPos: nat, n: nat) | Done(node: Node<T>, added: bool)

  /** A step of AddNode's descent: the node it left and the position of the child taken. */
  datatype Frame<T> = Frame(parent: Node<T>, pos: nat)

  /** Put `sub` back in place of the node reached through `path`: the in-place update of
      AddNode seen from the root. */
  function Plug<T>(path: seq<Frame<T>>, sub: Node<T>): Node<T>
    decreases |path|
  {
    if |path| == 0 then sub
    else
      var f := path[|path| - 1];
      var parent :=
        if f.pos < |f.parent.children| then f.parent.(children := f.parent.children[f.pos := sub])
        else f.parent;
      Plug(path[..|path| - 1], parent)
  }

  /** Descending one more level: plugging into the child at `f.pos` of `f.parent`. */
  lemma PlugPush<T>(path: seq<Frame<T>>, f: Frame<T>, sub: Node<T>)
    requires f.pos < |f.parent.children|
    ensures Plug(path + [f], sub)
         == Plug(path, f.parent.(children := f.parent.children[f.pos := sub]))
  {
    assert (path + [f])[..|path|] == path;
  }

  /** The child at `i` that AddNode's scan stops at (the first with a non-empty match) is
      the child Insert and Find choose for the remaining key `q`. */
  lemma AddStep<T>(cur: Node<T>, q: seq<char>, data: T, allowOverride: bool, i: nat, n: nat)
    requires RadixTree.Valid(cur) && |q| > 0 && i < |cur.children|
    requires n == CommonPrefix(cur.children[i].key, q) && n > 0
    ensures Insert(cur, q, data, allowOverride)
         == cur.(children := cur.children[i := Replace(cur.children[i], q, data, allowOverride)])
    ensures Find(cur, q) == Descend(cur.children[i], q)
  {
    ChildIndexAt(cur.children, i, q[0]);
  }

  /** AddNode's descent into the child at `i` whose whole edge the remaining key `q` runs
      through: the zipper and the lookup carry over to the rest of the key below it. */
  lemma DescendStep<T>(path: seq<Frame<T>>, cur: Node<T>, q: seq<char>, data: T, allowOverride: bool,
                       i: nat, n: nat, top: Node<T>, target: Node<T>, found: Option<T>,
                       path': seq<Frame<T>>, cur': Node<T>, q': seq<char>)
    requires RadixTree.Valid(cur) && |q| > 0 && i < |cur.children|
    requires n == CommonPrefix(cur.children[i].key, q) && n == |cur.children[i].key| && n < |q|
    requires Plug(path, cur) == top && Plug(path, Insert(cur, q, data, allowOverride)) == target
    requires Find(cur, q) == found
    requires path' == path + [Frame(cur, i)] && cur' == cur.children[i] && q' == q[n..]
    ensures RadixTree.Valid(cur') && |q'| > 0
    ensures Plug(path', cur') == top
    ensures Plug(path', Insert(cur', q', data, allowOverride)) == target
    ensures Find(cur', q') == found
  {
    var c := cur.children[i];
    AddStep(cur, q, data, allowOverride, i, n);
    assert Replace(c, q, data, allowOverride) == Insert(c, q', data, allowOverride);
    PlugPush(path, Frame(cur, i), Insert(c, q', data, allowOverride));
    PlugPush(path, Frame(cur, i), c);
    assert cur.children[i := c] == cur.children;
  }

  /** A node without children gets the rest of the key as its only child. */
  lemma LeafCase<T>(cur: Node<T>, q: seq<char>, data: T, allowOverride: bool)
    requires |cur.children| == 0 && |q| > 0
    ensures Insert(cur, q, data, allowOverride) == cur.(children := [Leaf(q, data)])
    ensures Find(cur, q) == None
  {
    assert cur.children[..0] + [Leaf(q, data)] + cur.children[0..] == [Leaf(q, data)];
  }

  /** The key leaves the edge of the child at `i` after `n` characters and goes on: the
      child is replaced by a bridge, and the key had no value. */
  lemma BridgeCase<T>(cur: Node<T>, q: seq<char>, data: T, allowOverride: bool, i: nat, n: nat)
    requires RadixTree.Valid(cur) && |q| > 0 && i < |cur.children|
    requires n == CommonPrefix(cur.children[i].key, q) && 0 < n < |cur.children[i].key| && n < |q|
    ensures Insert(cur, q, data, allowOverride)
         == cur.(children := cur.children[i := Bridge(cur.children[i], n, q[n..], data)])
    ensures Find(cur, q) == None
  {
    AddStep(cur, q, data, allowOverride, i, n);
  }

  /** The key ends `n` characters into the edge of the child at `i`: the edge is split and
      its upper half holds the value; the key had none. */
  lemma SplitCase<T>(cur: Node<T>, q: seq<char>, data: T, allowOverride: bool, i: nat, n: nat)
    requires RadixTree.Valid(cur) && |q| > 0 && i < |cur.children|
    requires n == CommonPrefix(cur.children[i].key, q) && n < |cur.children[i].key| && n == |q|
    ensures var c := cur.children[i];
      Insert(cur, q, data, allowOverride)
      == cur.(children := cur.children[i := Node(c.key[..n], Some(data), [c.(key := c.key[n..])])])
    ensures Find(cur, q) == None
  {
    AddStep(cur, q, data, allowOverride, i, n);
  }

  /** The key ends exactly at the child at `i`: its value is set when it had none or when
      overriding is allowed, and kept otherwise. */
  lemma SetCase<T>(cur: Node<T>, q: seq<char>, data: T, allowOverride: bool, i: nat, n: nat)
    requires RadixTree.Valid(cur) && |q| > 0 && i < |cur.children|
    requires n == CommonPrefix(cur.children[i].key, q) && n == |cur.children[i].key| == |q|
    ensures var c := cur.children[i];
      Insert(cur, q, data, allowOverride)
      == if c.value.None? || allowOverride then cur.(children := cur.children[i := c.(value := Some(data))])
         else cur
    ensures Find(cur, q) == cur.children[i].value
  {
    AddStep(cur, q, data, allowOverride, i, n);
    assert cur.children[i := cur.children[i]] == cur.children;
  }

  /** When no child's edge starts like `q`, Insert adds a leaf in sorted position and Find
      misses. */
  lemma AddDeadEnd<T>(cur: Node<T>, q: seq<char>, data: T, allowOverride: bool)
    requires RadixTree.Valid(cur) && |q| > 0
    requires forall j :: 0 <= j < |cur.children| ==> cur.children[j].key[0] != q[0]
    ensures Insert(cur, q, data, allowOverride) == cur.(children := InsertSorted(cur.children, Leaf(q, data)))
    ensures Find(cur, q) == None
  {
    FindNone(cur, q);
  }

  /** A sequence is its part before `p`, its element at `p` and its part after. */
  lemma Splice<X>(s: seq<X>, p: nat)
    requires p < |s|
    ensures s == s[..p] + [s[p]] + s[p + 1..]
  {
  }

  /** The dead-end insertion point determined by its two defining properties. */
  lemma {:induction false} InsertionPointAt<T>(cs: seq<Node<T>>, c: char, p: nat)
    requires p <= |cs|
    requires forall j :: 0 <= j < p ==> |cs[j].key| == 0 || !(c < cs[j].key[0])
    requires p < |cs| ==> |cs[p].key| > 0 && c < cs[p].key[0]
    ensures InsertionPoint(cs, c) == p
    decreases p
  {
    if p > 0 {
      InsertionPointAt(cs[1..], c, p - 1);
    }
  }

  /** One step of LookupImpl's scan over the children of `cur`: what the match length `n`
      against the child at `j` tells about the lookup of the remaining key `q`. */
  lemma ScanStep<T>(cur: Node<T>, q: seq<char>, j: nat, n: nat)
    requires RadixTree.Valid(cur) && j < |cur.children|
    requires forall i :: 0 <= i < j ==> |q| == 0 || cur.children[i].key[0] != q[0]
    requires n == CommonPrefix(cur.children[j].key, q)
    ensures n == |cur.children[j].key| && n == |q| ==> Find(cur, q) == cur.children[j].value
    ensures n == |cur.children[j].key| && n < |q| ==>
      RadixTree.Valid(cur.children[j]) && Find(cur, q) == Find(cur.children[j], q[n..])
    ensures n < |cur.children[j].key| && n > 0 ==> Find(cur, q) == None
    ensures n < |cur.children[j].key| && n == 0 ==> |q| == 0 || cur.children[j].key[0] != q[0]
    ensures n < |cur.children[j].key| && n == 0 && j + 1 == |cur.children| ==> Find(cur, q) == None
  {
    var c := cur.children[j];
    if n > 0 {
      FindAt(cur, q, j);
    } else if n < |c.key| && j + 1 == |cur.children| && |q| > 0 {
      FindNone(cur, q);
    }
  }

  /** The length GetCharArrayLength computes is the length of the buffer's word. */
  lemma LogicalLength(ar: seq<char>, i: nat)
    requires i <= |ar| && (forall j :: 0 <= j < i ==> ar[j] != '\0') && (i == |ar| || ar[i] == '\0')
    ensures |Logical(ar)| == i
  {
  }

  class DictRadix<T(==)> {
    /** m_root: its edge is empty (null) and it never holds a value. */
    var root: Node<T>
    /** m_nCount */
    var count: nat
    /** m_bAllowValueOverride */
    var allowValueOverride: bool

    /** The trie invariant, and Count as the number of valued nodes. */
    ghost predicate Valid()
      reads this
    {
      RadixTree.Valid(root) && root.key == [] && root.value == None && count == ValueCount(root)
    }

    constructor()
      ensures Valid() && root == Empty() && count == 0 && !allowValueOverride
    {
      root := Empty();
      count := 0;
      allowValueOverride := false;
    }

    /** Count: the number of keys holding a value. */
    function Count(): (c: nat)
      reads this
      requires Valid()
      ensures c == ValueCount(root)
    {
      count
    }

    /** The AllowValueOverride setter. */
    method SetAllowValueOverride(value: bool)
      modifies this
      ensures allowValueOverride == value && root == old(root) && count == old(count)
    {
      allowValueOverride := value;
    }

    /** Length of the word in a key buffer: the characters before the first '\0'. */
    static method GetCharArrayLength(ar: seq<char>) returns (i: nat)
      ensures i == |Logical(ar)|
      ensures i <= |ar| && ar[..i] == Logical(ar)
    {
      i := 0;
      while |ar| > i && ar[i] != '\0'
        invariant i <= |ar|
        invariant forall j :: 0 <= j < i ==> ar[j] != '\0'
      {
        i := i + 1;
      }
      LogicalLength(ar, i);
    }

    /** The key-matching loop of LookupImpl and AddNode: how many characters of `edge`
        the word `key[..keyLength]` matches from `keyPos` on. */
    static method MatchLength(edge: seq<char>, key: seq<char>, keyPos: nat, keyLength: nat) returns (n: nat)
      requires keyPos <= keyLength <= |key|
      ensures n == CommonPrefix(edge, key[keyPos..keyLength])
    {
      n := 0;
      while n < |edge| && keyPos + n < keyLength && edge[n] == key[keyPos + n]
        invariant n <= |edge| && keyPos + n <= keyLength
        invariant forall i :: 0 <= i < n ==> edge[i] == key[keyPos + i]
      {
        n := n + 1;
      }
      CommonPrefixUnique(edge, key[keyPos..keyLength], n);
    }

    /** The exact descent: the node the word of `key` ends at, if the trie has one. */
    method LookupImpl(key: seq<char>) returns (dn: Option<Node<T>>)
      requires Valid()
      ensures dn.Some? ==> dn.value.value == Find(root, Logical(key))
      ensures dn.None? ==> Find(root, Logical(key)) == None
    {
      var keyLength := GetCharArrayLength(key);
      ghost var found := Find(root, Logical(key));
      var keyPos := 0;
      var cur := root;
      assert key[0..keyLength] == Logical(key);
      while |cur.children| > 0
        invariant RadixTree.Valid(cur) && keyPos <= keyLength
        invariant Find(cur, key[keyPos..keyLength]) == found
        decreases cur
      {
        ghost var q, cur0, keyPos0 := key[keyPos..keyLength], cur, keyPos;
        var childPos := 0;
        while true
          invariant cur == cur0 && keyPos == keyPos0
          invariant childPos < |cur.children|
          invariant forall j :: 0 <= j < childPos ==> |q| == 0 || cur.children[j].key[0] != q[0]
          decreases |cur.children| - childPos
        {
          var child := cur.children[childPos];
          var n := MatchLength(child.key, key, keyPos, keyLength);
          ScanStep(cur, q, childPos, n);
          if n == |child.key| {
            if keyLength == keyPos + n {
              return Some(child);
            } else if keyLength > keyPos + n {
              keyPos := keyPos + n;
              cur := child;
              assert q[n..] == key[keyPos..keyLength];
              assert RadixTree.Valid(cur) && Find(cur, key[keyPos..keyLength]) == found;
              break;
            }
          } else if n > 0 || childPos + 1 == |cur.children| {
            return None;
          }
          childPos := childPos + 1;
        }
      }
      return None;
    }

    /** AddNode's dead-end block: the children copied into an array one longer, with
        `newChild` placed before the first child whose edge starts above its own. */
    static method InsertChild(cs: seq<Node<T>>, newChild: Node<T>) returns (r: seq<Node<T>>)
      requires forall j :: 0 <= j < |cs| ==> |cs[j].key| > 0
      requires |newChild.key| > 0
      ensures r == InsertSorted(cs, newChild)
    {
      var newArray := new Node<T>[|cs| + 1];
      var c := newChild.key[0];
      var curPos := 0;
      while curPos < |cs|
        modifies newArray
        invariant curPos <= |cs|
        invariant forall j :: 0 <= j < curPos ==> !(c < cs[j].key[0])
        invariant newArray[..curPos] == cs[..curPos]
      {
        if c < cs[curPos].key[0] {
          break;
        }
        newArray[curPos] := cs[curPos];
        assert newArray[..curPos + 1] == newArray[..curPos] + [cs[curPos]];
        curPos := curPos + 1;
      }
      ghost var p := curPos;
      InsertionPointAt(cs, c, p);
      newArray[curPos] := newChild;
      while curPos < |cs|
        modifies newArray
        invariant p <= curPos <= |cs|
        invariant newArray[..p] == cs[..p] && newArray[p] == newChild
        invariant forall j :: p < j <= curPos ==> newArray[j] == cs[j - 1]
      {
        newArray[curPos + 1] := cs[curPos];
        curPos := curPos + 1;
      }
      r := newArray[..];
      assert r[..p] == cs[..p] && r[p + 1..] == cs[p..];
      Splice(r, p);
    }

    /** One level of AddNode's descent, at the node `cur` reached after `keyPos` characters
        of the word `key[..keyLength]`: either the child to continue below, or the node that
        replaces `cur` once the word has been placed, with whether Count grows. */
    method AddAtNode(cur: Node<T>, key: seq<char>, keyPos: nat, keyLength: nat, data: T) returns (step: Step<T>)
      requires RadixTree.Valid(cur) && keyPos < keyLength <= |key|
      ensures step.Continue? ==>
        && step.childPos < |cur.children|
        && step.n == |cur.children[step.childPos].key|
        && step.n == CommonPrefix(cur.children[step.childPos].key, key[keyPos..keyLength])
        && keyPos + step.n < keyLength
      ensures step.Done? ==>
        && step.node == Insert(cur, key[keyPos..keyLength], data, allowValueOverride)
        && (step.added <==> Find(cur, key[keyPos..keyLength]).None?)
    {
      ghost var q := key[keyPos..keyLength];
      if |cur.children| == 0 {
        // No children: the rest of the key becomes the only child.
        var newChild := Leaf(key[keyPos..keyLength], data);
        LeafCase(cur, q, data, allowValueOverride);
        return Done(cur.(children := [newChild]), true);
      }
      var childPos := 0;
      var foundChild := false;
      while childPos < |cur.children|
        invariant !foundChild && childPos <= |cur.children|
        invariant forall j :: 0 <= j < childPos ==> cur.children[j].key[0] != q[0]
      {
        var child := cur.children[childPos];
        var n := MatchLength(child.key, key, keyPos, keyLength);
        if n > 0 {
          foundChild := true;
          if n == |child.key| && keyLength > keyPos + n {
            // The edge is consumed and the key goes on: continue below the child.
            return Continue(childPos, n);
          } else if |child.key| > n && keyLength > keyPos + n {
            // Diverging inside the edge: a bridge over the shortened child and a new leaf.
            var bridgeKey := child.key[..n];
            var newChild := child.(key := child.key[n..]);
            var newNode := Leaf(key[keyPos + n..keyLength], data);
            var bridge := if newChild.key[0] < newNode.key[0] then Node(bridgeKey, None, [newChild, newNode])
                          else Node(bridgeKey, None, [newNode, newChild]);
            assert key[keyPos + n..keyLength] == q[n..];
            BridgeCase(cur, q, data, allowValueOverride, childPos, n);
            return Done(cur.(children := cur.children[childPos := bridge]), true);
          } else if |child.key| > n && keyLength == keyPos + n {
            // The key ends inside the edge: split it, the upper half holding the value.
            var newChild := Node(child.key[..n], Some(data), [child.(key := child.key[n..])]);
            SplitCase(cur, q, data, allowValueOverride, childPos, n);
            return Done(cur.(children := cur.children[childPos := newChild]), true);
          } else if n == |child.key| && keyLength == keyPos + n {
            // The key ends exactly at the child: set its value when it has none, replace it
            // only when overriding is allowed.
            SetCase(cur, q, data, allowValueOverride, childPos, n);
            if child.value.None? {
              return Done(cur.(children := cur.children[childPos := child.(value := Some(data))]), true);
            } else if allowValueOverride {
              return Done(cur.(children := cur.children[childPos := child.(value := Some(data))]), false);
            }
            return Done(cur, false);
          }
        }
        childPos := childPos + 1;
      }
      // Dead end: a new child in sorted position.
      AddDeadEnd(cur, q, data, allowValueOverride);
      var newChild := Leaf(key[keyPos..keyLength], data);
      var newArray := InsertChild(cur.children, newChild);
      return Done(cur.(children := newArray), true);
    }

    /** AddNode: store `data` under the word of `key`. A word already holding a value keeps
        it unless AllowValueOverride is set; Count grows by one exactly when the word held
        no value before. */
    method AddNode(key: seq<char>, data: T)
      requires Valid() && |Logical(key)| > 0
      modifies this
      ensures Valid() && allowValueOverride == old(allowValueOverride)
      ensures root == Insert(old(root), Logical(key), data, allowValueOverride)
      ensures count == old(count) + if Find(old(root), Logical(key)).None? then 1 else 0
    {
      var keyLength := GetCharArrayLength(key);
      ghost var word := key[..keyLength];
      ghost var root0 := root;
      ghost var target := Insert(root0, word, data, allowValueOverride);
      ghost var found := Find(root0, word);
      InsertValid(root0, word, data, allowValueOverride);
      InsertCount(root0, word, data, allowValueOverride);
      var keyPos := 0;
      var cur := root;
      var path: seq<Frame<T>> := [];
      assert key[0..keyLength] == word;
      while true
        invariant RadixTree.Valid(cur) && keyPos < keyLength
        invariant root == root0 && count == old(count) && allowValueOverride == old(allowValueOverride)
        invariant Plug(path, cur) == root0
        invariant Plug(path, Insert(cur, key[keyPos..keyLength], data, allowValueOverride)) == target
        invariant Find(cur, key[keyPos..keyLength]) == found
        decreases cur
      {
        var step := AddAtNode(cur, key, keyPos, keyLength, data);
        if step.Done? {
          root := Plug(path, step.node);
          if step.added {
            count := count + 1;
          }
          return;
        }
        ghost var path0, cur0, q := path, cur, key[keyPos..keyLength];
        path := path + [Frame(cur, step.childPos)];
        cur := cur.children[step.childPos];
        keyPos := keyPos + step.n;
        assert q[step.n..] == key[keyPos..keyLength];
        DescendStep(path0, cur0, q, data, allowValueOverride, step.childPos, step.n,
                    root0, target, found, path, cur, key[keyPos..keyLength]);
      }
    }

    /** Lookup: the value stored under the word of `key`, None for default(T). */
    method Lookup(key: seq<char>) returns (r: Option<T>)
      requires Valid()
      ensures r == Find(root, Logical(key))
    {
      var dn := LookupImpl(key);
      if dn.None? {
        return None;
      }
      return dn.value.value;
    }

    /** LookupTolerant: a tolerant lookup by a fresh crawler over this trie. */
    method LookupTolerant(strKey: seq<char>, tolFuncs: seq<ToleranceFunc>) returns (o: Outcome<T>)
      requires WellBehaved(tolFuncs)
      ensures o == TolerantLookup(root, strKey, tolFuncs)
    {
      var tlc := new TolerantLookupCrawler(root, tolFuncs);
      o := tlc.LookupTolerant(strKey);
    }

    /** GetEnumerator: an enumerator standing on the root. */
    method GetEnumerator() returns (e: RadixEnumerator<T>)
      requires Valid()
      ensures fresh(e) && e.Valid() && e.radix == this && e.nodesPath == [root]
    {
      e := new RadixEnumerator(this);
    }

    /** Clear: back to an empty root and a zero count. */
    method Clear()
      modifies this
      ensures Valid() && root == Empty() && count == 0
      ensures allowValueOverride == old(allowValueOverride)
    {
      root := Empty();
      count := 0;
    }
  }

  /** RadixEnumerator: walks the trie depth first, a node before its children, stopping at
      every node that holds a value. `nodesPath` is the path from the root to the node it
      stands on. */
  class RadixEnumerator<T(==)> {
    const radix: DictRadix<T>
    var nodesPath: seq<Node<T>>

    /** The path starts at a root and follows child links through valid nodes. */
    ghost predicate Valid()
      reads this
    {
      Walkable(nodesPath)
    }

    /** The values MoveNext has still to report, in order. */
    function Visits(): seq<T>
      reads this
    {
      Valued(Pending(nodesPath, false))
    }

    constructor(r: DictRadix<T>)
      requires r.Valid()
      ensures Valid() && radix == r && nodesPath == [r.root]
    {
      radix := r;
      nodesPath := [r.root];
    }

    /** Current: the value of the node the enumerator stands on. */
    function Current(): Option<T>
      reads this
      requires |nodesPath| > 0
    {
      nodesPath[|nodesPath| - 1].value
    }

    /** CurrentKey: the edges of the path concatenated. */
    method CurrentKey() returns (k: seq<char>)
      ensures k == Spell(nodesPath)
    {
      k := [];
      var i := 0;
      while i < |nodesPath|
        invariant i <= |nodesPath|
        invariant k == Spell(nodesPath[..i])
      {
        assert nodesPath[..i + 1][..i] == nodesPath[..i];
        k := k + nodesPath[i].key;
        i := i + 1;
      }
      assert nodesPath[..i] == nodesPath;
    }

    /** MoveNext: go on to the next node that holds a value; false once the walk is over. */
    method MoveNext() returns (b: bool)
      requires Valid()
      modifies this
      ensures Valid()
      ensures b <==> old(Visits()) != []
      ensures b ==> |nodesPath| > 0 && Current() == Some(old(Visits())[0]) && Visits() == old(Visits())[1..]
      ensures !b ==> nodesPath == []
      ensures |nodesPath| > 0 ==> |old(nodesPath)| > 0 && nodesPath[0] == old(nodesPath)[0]
    {
      var path := nodesPath;
      ghost var start := path;
      ghost var goal := Valued(Pending(path, false));
      var goUp := false;
      b := false;
      while |path| > 0
        invariant Walkable(path)
        invariant Valued(Pending(path, goUp)) == goal
        invariant |path| > 0 ==> |start| > 0 && path[0] == start[0]
        decreases |Pending(path, goUp)|, |path|
      {
        var n := path[|path| - 1];
        if goUp || |n.children| == 0 {
          if !goUp {
            PendingLeaf(path);
          }
          if |path| == 1 {
            assert Pending(path, true) == [];
            path := [];
            assert Walkable(path);
            break;
          }
          var parent := path[|path| - 2];
          var found, i := SiblingAfter(parent.children, n);
          if found {
            var next := parent.children[i + 1];
            MoveAcross(path, i);
            path := path[..|path| - 1] + [next];
            if next.value.Some? {
              assert Walkable(path);
              Reported(next, Valued(Pending(path, false)));
              b := true;
              break;
            }
            goUp := false;
          } else {
            MoveUp(path);
            path := path[..|path| - 1];
            goUp := true;
          }
        } else {
          var first := n.children[0];
          MoveDown(path);
          path := path + [first];
          goUp := false;
          if first.value.Some? {
            assert Walkable(path);
            Reported(first, Valued(Pending(path, false)));
            b := true;
            break;
          }
        }
      }
      nodesPath := path;
    }

    /** MoveNext's search of the parent's children for the node it leaves: the position of
        `n` when another child follows it. */
    static method SiblingAfter(cs: seq<Node<T>>, n: Node<T>) returns (found: bool, i: nat)
      ensures found <==> IndexOf(cs, n) + 1 < |cs|
      ensures found ==> i == IndexOf(cs, n)
    {
      i := 0;
      while i < |cs|
        invariant i <= |cs|
        invariant forall j :: 0 <= j < i ==> cs[j] != n || j + 1 == |cs|
      {
        if cs[i] == n && i + 1 < |cs| {
          return true, i;
        }
        i := i + 1;
      }
      return false, i;
    }

    /** Reset: back on the root of the trie. */
    method Reset()
      requires radix.Valid()
      modifies this
      ensures Valid() && nodesPath == [radix.root]
    {
      nodesPath := [radix.root];
    }
  }

  /** Moving onto a node that holds a value reports that value first. */
  lemma Reported<T>(x: Node<T>, rest: seq<T>)
    requires x.value.Some?
    ensures Own(x) + rest != [] && (Own(x) + rest)[0] == x.value.value && (Own(x) + rest)[1..] == rest
  {
  }

  /** A new enumerator reports every value of the trie once per valued node: Count values in
      all, among them every value an exact lookup finds. */
  lemma EnumeratesAll<T>(d: DictRadix<T>, e: RadixEnumerator<T>)
    requires d.Valid() && e.nodesPath == [d.root]
    ensures |e.Visits()| == d.Count()
    ensures forall k :: Find(d.root, k).Some? ==> Find(d.root, k).value in e.Visits()
  {
    var cs := d.root.children;
    assert Pending(e.nodesPath, false) == Forest(cs) + [];
    assert Forest(cs) + [] == Forest(cs);
    ForestOrderCount(d.root.children);
    forall k | Find(d.root, k).Some? ensures Find(d.root, k).value in e.Visits() {
      FindVisited(d.root, k);
    }
  }

  /** The key the enumerator's path spells looks up the value it reports. */
  lemma CurrentKeyFinds<T>(e: RadixEnumerator<T>)
    requires e.Valid() && |e.nodesPath| >= 2
    ensures Find(e.nodesPath[0], Spell(e.nodesPath)) == e.Current()
  {
    SpellLookup(e.nodesPath);
  }
}
