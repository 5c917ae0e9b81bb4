/** The compressed trie of DictRadix<T> as a value: nodes, the exact lookup and the
    insertion they specify, and the invariants the trie keeps. */
module RadixTree {
  import opened Wrappers

  /** A DictNode: the edge label leading to it (`Key`), the value stored at it (`Value`,
      None standing for `default(T)`) and its children (`Children`, [] standing for null). */
  datatype Node<T> = Node(key: seq<char>, value: Option<T>, children: seq<Node<T>>)

  /** The root of a new or cleared trie. */
  function Empty<T>(): Node<T> { Node([], None, []) }

  /** A new leaf holding `data` under the edge `key`. */
  function Leaf<T>(key: seq<char>, data: T): Node<T> { Node(key, Some(data), []) }

  /** Number of leading characters `a` and `b` share: the `n` of AddNode's and LookupImpl's
      inner matching loops. */
  function CommonPrefix(a: seq<char>, b: seq<char>): (n: nat)
    ensures n <= |a| && n <= |b|
    ensures forall i :: 0 <= i < n ==> a[i] == b[i]
    ensures n < |a| && n < |b| ==> a[n] != b[n]
  {
    if |a| == 0 || |b| == 0 || a[0] != b[0] then 0
    else 1 + CommonPrefix(a[1..], b[1..])
  }

  /** The three properties in CommonPrefix's contract determine it. */
  lemma CommonPrefixUnique(a: seq<char>, b: seq<char>, n: nat)
    requires n <= |a| && n <= |b| && forall i :: 0 <= i < n ==> a[i] == b[i]
    requires n == |a| || n == |b| || a[n] != b[n]
    ensures CommonPrefix(a, b) == n
  {
  }

  /** Sibling invariant: every edge below the root is non-empty, and the children are
      strictly ascending by first character, so no two siblings share one. */
  ghost predicate Siblings<T>(cs: seq<Node<T>>) {
    && (forall i :: 0 <= i < |cs| ==> |cs[i].key| > 0)
    && (forall i, j :: 0 <= i < j < |cs| ==> cs[i].key[0] < cs[j].key[0])
  }

  /** The sibling invariant holds at every node of the subtree. */
  ghost predicate Valid<T>(n: Node<T>)
    decreases n
  {
    Siblings(n.children) && forall i :: 0 <= i < |n.children| ==> Valid(n.children[i])
  }

  /** Index of the first child whose edge starts with `c`, or |cs| when there is none. */
  function ChildIndex<T>(cs: seq<Node<T>>, c: char): (i: nat)
    ensures i <= |cs|
    ensures i < |cs| ==> |cs[i].key| > 0 && cs[i].key[0] == c
    ensures forall j :: 0 <= j < i ==> |cs[j].key| == 0 || cs[j].key[0] != c
  {
    if |cs| == 0 then 0
    else if |cs[0].key| > 0 && cs[0].key[0] == c then 0
    else 1 + ChildIndex(cs[1..], c)
  }

  /** Among valid siblings, the child starting with `c` is the one ChildIndex finds. */
  lemma ChildIndexAt<T>(cs: seq<Node<T>>, j: nat, c: char)
    requires Siblings(cs) && j < |cs| && cs[j].key[0] == c
    ensures ChildIndex(cs, c) == j
  {
  }

  /** Exact lookup of the key `k` below `cur`: the value LookupImpl finds for a valid trie.
      The child is chosen by the first character of `k`. */
  function Find<T>(cur: Node<T>, k: seq<char>): Option<T>
    decreases cur, 0
  {
    if |k| == 0 then None
    else
      var i := ChildIndex(cur.children, k[0]);
      if i == |cur.children| then None else Descend(cur.children[i], k)
  }

  /** Lookup of `k` through the child `c` whose edge `k` enters: the key must consume the
      whole edge, then either end there or continue below. */
  function Descend<T>(c: Node<T>, k: seq<char>): Option<T>
    decreases c, 1
  {
    var n := CommonPrefix(c.key, k);
    if n < |c.key| then None
    else if n == |k| then c.value
    else Find(c, k[n..])
  }

  /** The node that replaces `c` when the key reaching it diverges after `n` characters of
      its edge: a valueless bridge over the truncated old child and a new leaf. */
  function Bridge<T>(c: Node<T>, n: nat, rest: seq<char>, data: T): (b: Node<T>)
    requires n < |c.key| && |rest| > 0
  {
    var tail := c.(key := c.key[n..]);
    var leaf := Leaf(rest, data);
    Node(c.key[..n], None, if tail.key[0] < leaf.key[0] then [tail, leaf] else [leaf, tail])
  }

  /** Position of the first sibling whose first character is above `c`. */
  function InsertionPoint<T>(cs: seq<Node<T>>, c: char): (p: nat)
    ensures p <= |cs|
    ensures forall j :: 0 <= j < p ==> |cs[j].key| == 0 || !(c < cs[j].key[0])
    ensures p < |cs| ==> |cs[p].key| > 0 && c < cs[p].key[0]
  {
    if |cs| == 0 || (|cs[0].key| > 0 && c < cs[0].key[0]) then 0
    else 1 + InsertionPoint(cs[1..], c)
  }

  /** The dead-end insertion: `x` placed before the first sibling it sorts below. */
  function InsertSorted<T>(cs: seq<Node<T>>, x: Node<T>): seq<Node<T>>
    requires |x.key| > 0
  {
    var p := InsertionPoint(cs, x.key[0]);
    cs[..p] + [x] + cs[p..]
  }

  /** The trie below `cur` after AddNode stores `data` under the remaining key `k`. */
  function Insert<T>(cur: Node<T>, k: seq<char>, data: T, allowOverride: bool): Node<T>
    requires |k| > 0
    decreases cur, 0
  {
    var cs := cur.children;
    var i := ChildIndex(cs, k[0]);
    if i == |cs| then cur.(children := InsertSorted(cs, Leaf(k, data)))
    else cur.(children := cs[i := Replace(cs[i], k, data, allowOverride)])
  }

  /** What becomes of the child `c` whose edge the key `k` enters, by how far they agree:
      the key runs through the edge (descend), they diverge inside it (bridge), the key ends
      inside it (split), or the key ends exactly at it (set the value, or keep the old one
      when overriding is off). */
  function Replace<T>(c: Node<T>, k: seq<char>, data: T, allowOverride: bool): Node<T>
    decreases c, 1
  {
    var n := CommonPrefix(c.key, k);
    if n == |c.key| && n < |k| then Insert(c, k[n..], data, allowOverride)
    else if n < |c.key| && n < |k| then Bridge(c, n, k[n..], data)
    else if n < |c.key| then Node(c.key[..n], Some(data), [c.(key := c.key[n..])])
    else if c.value.None? || allowOverride then c.(value := Some(data))
    else c
  }

  /** Number of nodes holding a value in the subtree (the node itself included). */
  function ValueCount<T>(n: Node<T>): nat
    decreases n, 1
  {
    (if n.value.Some? then 1 else 0) + ForestCount(n.children)
  }

  /** Number of nodes holding a value in a sequence of subtrees. */
  function ForestCount<T>(cs: seq<Node<T>>): nat
    decreases cs, 0
  {
    if |cs| == 0 then 0 else ValueCount(cs[0]) + ForestCount(cs[1..])
  }

  // ---------------------------------------------------------------------------------
  // Counting lemmas

  lemma {:induction false} ForestCountAppend<T>(a: seq<Node<T>>, b: seq<Node<T>>)
    ensures ForestCount(a + b) == ForestCount(a) + ForestCount(b)
    decreases |a|
  {
    if |a| > 0 {
      assert (a + b)[1..] == a[1..] + b;
      ForestCountAppend(a[1..], b);
    } else {
      assert a + b == b;
    }
  }

  lemma ForestCountUpdate<T>(cs: seq<Node<T>>, i: nat, x: Node<T>)
    requires i < |cs|
    ensures ForestCount(cs[i := x]) == ForestCount(cs) - ValueCount(cs[i]) + ValueCount(x)
  {
    assert cs == cs[..i] + [cs[i]] + cs[i + 1..];
    assert cs[i := x] == cs[..i] + [x] + cs[i + 1..];
    ForestCountAppend(cs[..i] + [cs[i]], cs[i + 1..]);
    ForestCountAppend(cs[..i], [cs[i]]);
    ForestCountAppend(cs[..i] + [x], cs[i + 1..]);
    ForestCountAppend(cs[..i], [x]);
  }

  lemma ForestCountInsert<T>(cs: seq<Node<T>>, p: nat, x: Node<T>)
    requires p <= |cs|
    ensures ForestCount(cs[..p] + [x] + cs[p..]) == ForestCount(cs) + ValueCount(x)
  {
    assert cs == cs[..p] + cs[p..];
    ForestCountAppend(cs[..p], cs[p..]);
    ForestCountAppend(cs[..p] + [x], cs[p..]);
    ForestCountAppend(cs[..p], [x]);
  }

  // ---------------------------------------------------------------------------------
  // Lookup characterisation on valid siblings

  /** On valid siblings, the child starting with the key's first character decides the lookup. */
  lemma FindAt<T>(cur: Node<T>, k: seq<char>, j: nat)
    requires Siblings(cur.children) && |k| > 0 && j < |cur.children|
    requires cur.children[j].key[0] == k[0]
    ensures Find(cur, k) == Descend(cur.children[j], k)
  {
    ChildIndexAt(cur.children, j, k[0]);
  }

  /** On valid siblings, a key whose first character starts no edge is absent. */
  lemma FindNone<T>(cur: Node<T>, k: seq<char>)
    requires Siblings(cur.children) && |k| > 0
    requires forall j :: 0 <= j < |cur.children| ==> cur.children[j].key[0] != k[0]
    ensures Find(cur, k) == None
  {
  }
  // ---------------------------------------------------------------------------------
  // Common-prefix arithmetic

  lemma CommonPrefixTruncate(a: seq<char>, q: seq<char>, n: nat)
    requires n <= |a|
    ensures CommonPrefix(a[..n], q) == if n < CommonPrefix(a, q) then n else CommonPrefix(a, q)
  {
    var m := CommonPrefix(a, q);
    var t := if n < m then n else m;
    CommonPrefixUnique(a[..n], q, t);
  }

  lemma CommonPrefixShift(a: seq<char>, q: seq<char>, n: nat)
    requires n <= |a| && n <= |q| && forall i :: 0 <= i < n ==> a[i] == q[i]
    ensures CommonPrefix(a, q) == n + CommonPrefix(a[n..], q[n..])
  {
    var r := CommonPrefix(a[n..], q[n..]);
    forall i | n <= i < n + r ensures a[i] == q[i] {
      assert a[n..][i - n] == q[n..][i - n];
    }
    if n + r < |a| && n + r < |q| {
      assert a[n..][r] != q[n..][r];
    }
    CommonPrefixUnique(a, q, n + r);
  }

  lemma CommonPrefixSelf(a: seq<char>)
    ensures CommonPrefix(a, a) == |a|
  {
    CommonPrefixUnique(a, a, |a|);
  }

  // ---------------------------------------------------------------------------------
  // The sibling invariant under the two ways AddNode rewrites a child array

  lemma SiblingsUpdate<T>(cs: seq<Node<T>>, i: nat, x: Node<T>)
    requires Siblings(cs) && i < |cs| && |x.key| > 0 && x.key[0] == cs[i].key[0]
    ensures Siblings(cs[i := x])
  {
  }

  /** Where each sibling ends up after the dead-end insertion. */
  lemma InsertSortedAt<T>(cs: seq<Node<T>>, x: Node<T>)
    requires |x.key| > 0
    ensures var p := InsertionPoint(cs, x.key[0]); var r := InsertSorted(cs, x);
      && |r| == |cs| + 1 && r[p] == x
      && (forall j :: 0 <= j < p ==> r[j] == cs[j])
      && (forall j :: p < j < |r| ==> r[j] == cs[j - 1])
  {
  }

  /** The dead-end insertion of a valid subtree among valid ones. */
  lemma ValidInsertSorted<T>(cs: seq<Node<T>>, x: Node<T>)
    requires |x.key| > 0 && Valid(x) && forall j :: 0 <= j < |cs| ==> Valid(cs[j])
    ensures forall j :: 0 <= j < |InsertSorted(cs, x)| ==> Valid(InsertSorted(cs, x)[j])
  {
    InsertSortedAt(cs, x);
  }

  lemma SiblingsInsertSorted<T>(cs: seq<Node<T>>, x: Node<T>)
    requires Siblings(cs) && |x.key| > 0
    requires forall j :: 0 <= j < |cs| ==> cs[j].key[0] != x.key[0]
    ensures Siblings(InsertSorted(cs, x))
  {
    var p := InsertionPoint(cs, x.key[0]);
    InsertSortedAt(cs, x);
    forall j | p <= j < |cs| ensures x.key[0] < cs[j].key[0] {
      assert j == p || cs[p].key[0] < cs[j].key[0];
    }
    SiblingsInserted(cs, x, p, InsertSorted(cs, x));
  }

  /** Siblings stay sorted when a node is placed between those below it and those above. */
  lemma SiblingsInserted<T>(cs: seq<Node<T>>, x: Node<T>, p: nat, r: seq<Node<T>>)
    requires Siblings(cs) && |x.key| > 0 && p <= |cs|
    requires forall j :: 0 <= j < p ==> cs[j].key[0] < x.key[0]
    requires forall j :: p <= j < |cs| ==> x.key[0] < cs[j].key[0]
    requires |r| == |cs| + 1 && r[p] == x
    requires forall j :: 0 <= j < p ==> r[j] == cs[j]
    requires forall j :: p < j < |r| ==> r[j] == cs[j - 1]
    ensures Siblings(r)
  {
    forall a, b | 0 <= a < b < |r| ensures r[a].key[0] < r[b].key[0] {
      if b < p {
        assert r[a] == cs[a] && r[b] == cs[b];
      } else if b == p {
        assert r[a] == cs[a];
      } else if a > p {
        assert r[a] == cs[a - 1] && r[b] == cs[b - 1];
      } else if a == p {
        assert r[b] == cs[b - 1];
      } else {
        assert r[a] == cs[a] && r[b] == cs[b - 1];
      }
    }
  }

  /** AddNode keeps the sibling invariant everywhere and leaves the node's own edge and
      value alone. */
  lemma {:induction false} InsertValid<T>(cur: Node<T>, k: seq<char>, data: T, allowOverride: bool)
    requires Valid(cur) && |k| > 0
    ensures Valid(Insert(cur, k, data, allowOverride))
    ensures Insert(cur, k, data, allowOverride).key == cur.key
    ensures Insert(cur, k, data, allowOverride).value == cur.value
    decreases cur, 0
  {
    var cs := cur.children;
    var i := ChildIndex(cs, k[0]);
    var r := Insert(cur, k, data, allowOverride);
    if i == |cs| {
      var leaf := Leaf(k, data);
      SiblingsInsertSorted(cs, leaf);
      ValidInsertSorted(cs, leaf);
    } else {
      ReplaceValid(cs[i], k, data, allowOverride);
      SiblingsUpdate(cs, i, Replace(cs[i], k, data, allowOverride));
    }
  }

  /** The replacement child is valid and keeps the first character of the edge. */
  lemma {:induction false} ReplaceValid<T>(c: Node<T>, k: seq<char>, data: T, allowOverride: bool)
    requires Valid(c) && |c.key| > 0 && |k| > 0 && c.key[0] == k[0]
    ensures Valid(Replace(c, k, data, allowOverride))
    ensures |Replace(c, k, data, allowOverride).key| > 0
    ensures Replace(c, k, data, allowOverride).key[0] == c.key[0]
    decreases c, 1
  {
    var n := CommonPrefix(c.key, k);
    var r := Replace(c, k, data, allowOverride);
    if n == |c.key| && n < |k| {
      InsertValid(c, k[n..], data, allowOverride);
    } else if n < |c.key| && n < |k| {
      var tail := c.(key := c.key[n..]);
      assert Valid(tail);
      assert Valid(Leaf(k[n..], data));
      assert Siblings(r.children);
    } else if n < |c.key| {
      var tail := c.(key := c.key[n..]);
      assert Valid(tail);
    }
  }

  // ---------------------------------------------------------------------------------
  // Count bookkeeping

  /** AddNode adds exactly one valued node when the key had no value, and none otherwise. */
  lemma {:induction false} InsertCount<T>(cur: Node<T>, k: seq<char>, data: T, allowOverride: bool)
    requires Valid(cur) && |k| > 0
    ensures ValueCount(Insert(cur, k, data, allowOverride))
         == ValueCount(cur) + (if Find(cur, k).None? then 1 else 0)
    decreases cur, 0
  {
    var cs := cur.children;
    var i := ChildIndex(cs, k[0]);
    if i == |cs| {
      ForestCountInsert(cs, InsertionPoint(cs, k[0]), Leaf(k, data));
      assert ValueCount(Leaf(k, data)) == 1;
    } else {
      ForestCountUpdate(cs, i, Replace(cs[i], k, data, allowOverride));
      ReplaceCount(cs[i], k, data, allowOverride);
    }
  }

  /** The replacement child holds one more value exactly when `k` had none through it. */
  lemma {:induction false} ReplaceCount<T>(c: Node<T>, k: seq<char>, data: T, allowOverride: bool)
    requires Valid(c) && |k| > 0
    ensures ValueCount(Replace(c, k, data, allowOverride))
         == ValueCount(c) + (if Descend(c, k).None? then 1 else 0)
    decreases c, 1
  {
    var n := CommonPrefix(c.key, k);
    if n == |c.key| && n < |k| {
      InsertCount(c, k[n..], data, allowOverride);
    } else if n < |c.key| {
      var tail := c.(key := c.key[n..]);
      assert ValueCount(tail) == ValueCount(c);
      if n < |k| {
        var leaf := Leaf(k[n..], data);
        assert ValueCount(leaf) == 1;
        assert ForestCount([tail, leaf]) == ValueCount(tail) + ForestCount([leaf]);
        assert ForestCount([leaf, tail]) == ValueCount(leaf) + ForestCount([tail]);
      } else {
        assert ForestCount([tail]) == ValueCount(tail);
      }
    }
  }

  // ---------------------------------------------------------------------------------
  // Lookup after insertion

  /** Two keys agreeing on their first `n` characters are equal exactly when their rests are. */
  lemma SamePrefix(q: seq<char>, k: seq<char>, n: nat)
    requires n <= |q| && n <= |k| && forall i :: 0 <= i < n ==> q[i] == k[i]
    ensures q == k <==> q[n..] == k[n..]
  {
    if q[n..] == k[n..] {
      assert q == q[..n] + q[n..] && k == k[..n] + k[n..];
      assert q[..n] == k[..n];
    }
  }

  /** Descending through a leaf finds its value for its own key and nothing else. */
  lemma DescendLeaf<T>(key: seq<char>, data: T, q: seq<char>)
    ensures Descend(Leaf(key, data), q) == if q == key then Some(data) else None
  {
    var n := CommonPrefix(key, q);
    if n == |key| && n == |q| {
      assert q == q[..n] == key[..n] == key;
    }
    if q == key {
      CommonPrefixSelf(key);
    }
  }

  /** Only the children matter to Find. */
  lemma FindChildren<T>(a: Node<T>, b: Node<T>, q: seq<char>)
    requires a.children == b.children
    ensures Find(a, q) == Find(b, q)
  {
  }

  /** Descending into the truncated old child `c.key[n..]` behaves like descending into `c`
      with the first `n` characters already consumed. */
  lemma DescendTail<T>(c: Node<T>, n: nat, q: seq<char>)
    requires n < |c.key| && n <= |q| && forall i :: 0 <= i < n ==> c.key[i] == q[i]
    ensures Descend(c.(key := c.key[n..]), q[n..]) == Descend(c, q)
  {
    var tail := c.(key := c.key[n..]);
    CommonPrefixShift(c.key, q, n);
    var r := CommonPrefix(tail.key, q[n..]);
    assert CommonPrefix(c.key, q) == n + r;
    if r < |tail.key| {
      assert Descend(tail, q[n..]) == None && Descend(c, q) == None;
    } else if r == |q| - n {
      assert Descend(tail, q[n..]) == c.value && Descend(c, q) == c.value;
    } else {
      assert q[n..][r..] == q[n + r..];
      assert Descend(tail, q[n..]) == Find(tail, q[n + r..]);
      assert Descend(c, q) == Find(c, q[n + r..]);
      FindChildren(tail, c, q[n + r..]);
    }
  }

  /** The bridge split answers like the old child for every key but the inserted one. */
  lemma DescendBridge<T>(c: Node<T>, n: nat, k: seq<char>, data: T, q: seq<char>)
    requires n == CommonPrefix(c.key, k) && n < |c.key| && n < |k|
    ensures Descend(Bridge(c, n, k[n..], data), q) == if q == k then Some(data) else Descend(c, q)
  {
    var b := Bridge(c, n, k[n..], data);
    CommonPrefixTruncate(c.key, q, n);
    var m := CommonPrefix(b.key, q);
    if m == n && n < |q| {
      FindBridge(c, n, k, data, q);
    } else if m == n {
      CommonPrefixUnique(c.key, q, n);
    }
  }

  /** Below the bridge: the key continues into the old child or into the new leaf. */
  lemma FindBridge<T>(c: Node<T>, n: nat, k: seq<char>, data: T, q: seq<char>)
    requires n == CommonPrefix(c.key, k) && n < |c.key| && n < |k| && n < |q|
    requires forall i :: 0 <= i < n ==> q[i] == c.key[i]
    ensures Find(Bridge(c, n, k[n..], data), q[n..]) == if q == k then Some(data) else Descend(c, q)
  {
    var b := Bridge(c, n, k[n..], data);
    var tail := c.(key := c.key[n..]);
    var leaf := Leaf(k[n..], data);
    assert Siblings(b.children);
    SamePrefix(q, k, n);
    if q[n] == c.key[n] {
      FindAt(b, q[n..], if tail.key[0] < leaf.key[0] then 0 else 1);
      DescendTail(c, n, q);
    } else if q[n] == k[n] {
      FindAt(b, q[n..], if tail.key[0] < leaf.key[0] then 1 else 0);
      DescendLeaf(k[n..], data, q[n..]);
      CommonPrefixUnique(c.key, q, n);
    } else {
      CommonPrefixUnique(c.key, q, n);
    }
  }

  /** The split that puts the inserted value on the shared prefix answers like the old child
      for every key but the inserted one. */
  lemma DescendSplit<T>(c: Node<T>, k: seq<char>, data: T, q: seq<char>)
    requires |k| == CommonPrefix(c.key, k) < |c.key|
    ensures Descend(Node(c.key[..|k|], Some(data), [c.(key := c.key[|k|..])]), q)
         == if q == k then Some(data) else Descend(c, q)
  {
    var n := |k|;
    var s := Node(c.key[..n], Some(data), [c.(key := c.key[n..])]);
    CommonPrefixTruncate(c.key, q, n);
    var m := CommonPrefix(s.key, q);
    if m == n {
      assert q[..n] == c.key[..n] == k;
      if n < |q| {
        if q[n] == c.key[n] {
          FindAt(s, q[n..], 0);
          DescendTail(c, n, q);
        } else {
          CommonPrefixUnique(c.key, q, n);
        }
      } else {
        assert q == k;
      }
    }
  }

  /** Setting (or keeping) the value of the node the key ends at. */
  lemma DescendSet<T>(c: Node<T>, k: seq<char>, x: Node<T>, q: seq<char>)
    requires CommonPrefix(c.key, k) == |c.key| == |k|
    requires x.key == c.key && x.children == c.children
    ensures Descend(x, q) == if q == k then x.value else Descend(c, q)
  {
    var m := CommonPrefix(c.key, q);
    if m == |c.key| && m < |q| {
      FindChildren(x, c, q[m..]);
    }
    if m == |c.key| && m == |q| {
      assert q == c.key[..m] == k;
    }
    if q == k {
      CommonPrefixSelf(k);
    }
  }

  /** Lookup after insertion: the inserted key answers `data` unless it already held a value
      and overriding is off; every other key answers as before. */
  lemma {:induction false} InsertFind<T>(cur: Node<T>, k: seq<char>, data: T, allowOverride: bool, q: seq<char>)
    requires Valid(cur) && |k| > 0
    ensures Find(Insert(cur, k, data, allowOverride), q)
         == if q != k then Find(cur, q)
            else if Find(cur, k).None? || allowOverride then Some(data)
            else Find(cur, k)
    decreases cur, 0
  {
    var cs := cur.children;
    var i := ChildIndex(cs, k[0]);
    if |q| == 0 {
    } else if i == |cs| {
      InsertFindDeadEnd(cur, k, data, allowOverride, q);
    } else {
      ReplaceFind(cs[i], k, data, allowOverride, q);
      InsertFindChild(cur, k, data, allowOverride, q);
    }
  }

  /** Lookup after a dead-end insertion, which adds a leaf among the children. */
  lemma InsertFindDeadEnd<T>(cur: Node<T>, k: seq<char>, data: T, allowOverride: bool, q: seq<char>)
    requires Valid(cur) && |k| > 0 && |q| > 0
    requires ChildIndex(cur.children, k[0]) == |cur.children|
    ensures Find(Insert(cur, k, data, allowOverride), q)
         == if q != k then Find(cur, q) else Some(data)
  {
    var leaf := Leaf(k, data);
    assert Insert(cur, k, data, allowOverride) == cur.(children := InsertSorted(cur.children, leaf));
    FindInsertSorted(cur, leaf, q);
    if q[0] == k[0] {
      FindNone(cur, q);
      DescendLeaf(k, data, q);
    }
  }

  /** Finding below a node after a new child was sorted in among its children: keys that
      start like the new child go to it, all others as before. */
  lemma FindInsertSorted<T>(cur: Node<T>, x: Node<T>, q: seq<char>)
    requires Siblings(cur.children) && |x.key| > 0 && |q| > 0
    requires forall j :: 0 <= j < |cur.children| ==> cur.children[j].key[0] != x.key[0]
    ensures Find(cur.(children := InsertSorted(cur.children, x)), q)
         == if q[0] == x.key[0] then Descend(x, q) else Find(cur, q)
  {
    var cs := cur.children;
    var r := cur.(children := InsertSorted(cs, x));
    var p := InsertionPoint(cs, x.key[0]);
    InsertSortedAt(cs, x);
    SiblingsInsertSorted(cs, x);
    if q[0] == x.key[0] {
      FindAt(r, q, p);
    } else if j :| 0 <= j < |cs| && cs[j].key[0] == q[0] {
      FindAt(cur, q, j);
      FindAt(r, q, if j < p then j else j + 1);
    } else {
      FindNone(cur, q);
      forall j' | 0 <= j' < |r.children| ensures r.children[j'].key[0] != q[0] {
        if j' < p {
          assert r.children[j'] == cs[j'];
        } else if j' > p {
          assert r.children[j'] == cs[j' - 1];
        }
      }
      FindNone(r, q);
    }
  }

  /** Lookup after an insertion that rewrites the child `k` enters: the child decides. */
  lemma InsertFindChild<T>(cur: Node<T>, k: seq<char>, data: T, allowOverride: bool, q: seq<char>)
    requires Valid(cur) && |k| > 0 && |q| > 0
    requires ChildIndex(cur.children, k[0]) < |cur.children|
    ensures var i := ChildIndex(cur.children, k[0]);
      && Find(cur, k) == Descend(cur.children[i], k)
      && Find(Insert(cur, k, data, allowOverride), q)
         == if q[0] == k[0] then Descend(Replace(cur.children[i], k, data, allowOverride), q)
            else Find(cur, q)
  {
    InsertValid(cur, k, data, allowOverride);
    var cs := cur.children;
    var i := ChildIndex(cs, k[0]);
    var r := Insert(cur, k, data, allowOverride);
    FindAt(cur, k, i);
    ReplaceValid(cs[i], k, data, allowOverride);
    assert r.children == cs[i := Replace(cs[i], k, data, allowOverride)];
    if q[0] == k[0] {
      FindAt(r, q, i);
    } else if j :| 0 <= j < |cs| && cs[j].key[0] == q[0] {
      FindAt(cur, q, j);
      FindAt(r, q, j);
    } else {
      FindNone(cur, q);
      FindNone(r, q);
    }
  }

  /** Lookup through the replacement child, in the terms of InsertFind. */
  lemma {:induction false} ReplaceFind<T>(c: Node<T>, k: seq<char>, data: T, allowOverride: bool, q: seq<char>)
    requires Valid(c) && |k| > 0
    ensures Descend(Replace(c, k, data, allowOverride), q)
         == if q != k then Descend(c, q)
            else if Descend(c, k).None? || allowOverride then Some(data)
            else Descend(c, k)
    decreases c, 1
  {
    var n := CommonPrefix(c.key, k);
    var r := Replace(c, k, data, allowOverride);
    if n == |c.key| && n < |k| {
      InsertValid(c, k[n..], data, allowOverride);
      var m := CommonPrefix(c.key, q);
      if m == n && n < |q| {
        InsertFind(c, k[n..], data, allowOverride, q[n..]);
        SamePrefix(q, k, n);
      }
    } else if n < |c.key| && n < |k| {
      DescendBridge(c, n, k, data, q);
    } else if n < |c.key| {
      DescendSplit(c, k, data, q);
    } else {
      DescendSet(c, k, r, q);
    }
  }

  // ---------------------------------------------------------------------------------
  // Keys as the callers pass them, and sequences of insertions

  /** The word held in a key buffer: everything before the first '\0'. */
  function Logical(ar: seq<char>): (s: seq<char>)
    ensures |s| <= |ar| && s == ar[..|s|]
    ensures forall j :: 0 <= j < |s| ==> s[j] != '\0'
    ensures |s| < |ar| ==> ar[|s|] == '\0'
  {
    if |ar| == 0 || ar[0] == '\0' then [] else [ar[0]] + Logical(ar[1..])
  }

  /** A run of AddNode calls, in order, with the same override setting. */
  function InsertAll<T>(cur: Node<T>, entries: seq<(seq<char>, T)>, allowOverride: bool): Node<T>
    requires forall j :: 0 <= j < |entries| ==> |entries[j].0| > 0
    decreases |entries|
  {
    if |entries| == 0 then cur
    else InsertAll(Insert(cur, entries[0].0, entries[0].1, allowOverride), entries[1..], allowOverride)
  }

  /** The value of the first entry for `q`. */
  function FirstValue<T>(entries: seq<(seq<char>, T)>, q: seq<char>): Option<T> {
    if |entries| == 0 then None
    else if entries[0].0 == q then Some(entries[0].1)
    else FirstValue(entries[1..], q)
  }

  /** The value of the last entry for `q`. */
  function LastValue<T>(entries: seq<(seq<char>, T)>, q: seq<char>): Option<T> {
    if |entries| == 0 then None
    else if LastValue(entries[1..], q).Some? then LastValue(entries[1..], q)
    else if entries[0].0 == q then Some(entries[0].1)
    else None
  }

  /** The distinct keys of a run of insertions. */
  ghost function Keys<T>(entries: seq<(seq<char>, T)>): set<seq<char>> {
    set j | 0 <= j < |entries| :: entries[j].0
  }

  /** After a run of insertions a key answers its first value when overriding is off and its
      last value when it is on; a key present beforehand keeps its value unless overridden. */
  lemma {:induction false} InsertAllFind<T>(cur: Node<T>, entries: seq<(seq<char>, T)>, allowOverride: bool, q: seq<char>)
    requires Valid(cur)
    requires forall j :: 0 <= j < |entries| ==> |entries[j].0| > 0
    ensures Valid(InsertAll(cur, entries, allowOverride))
    ensures Find(InsertAll(cur, entries, allowOverride), q)
         == if allowOverride then
              (if LastValue(entries, q).Some? then LastValue(entries, q) else Find(cur, q))
            else
              (if Find(cur, q).Some? then Find(cur, q) else FirstValue(entries, q))
    decreases |entries|
  {
    if |entries| > 0 {
      var (k, d) := entries[0];
      var next := Insert(cur, k, d, allowOverride);
      InsertValid(cur, k, d, allowOverride);
      InsertFind(cur, k, d, allowOverride, q);
      InsertAllFind(next, entries[1..], allowOverride, q);
    }
  }

  lemma KeysCons<T>(entries: seq<(seq<char>, T)>)
    requires |entries| > 0
    ensures Keys(entries) == Keys(entries[1..]) + {entries[0].0}
  {
    var rest := entries[1..];
    forall q | q in Keys(entries) ensures q in Keys(rest) + {entries[0].0} {
      var j :| 0 <= j < |entries| && entries[j].0 == q;
      if j > 0 {
        assert rest[j - 1].0 == q;
      }
    }
    forall q | q in Keys(rest) ensures q in Keys(entries) {
      var j :| 0 <= j < |rest| && rest[j].0 == q;
      assert entries[j + 1].0 == q;
    }
  }

  /** The keys among `ks` that have no value below `cur`. */
  ghost function Absent<T>(cur: Node<T>, ks: set<seq<char>>): set<seq<char>> {
    set q | q in ks && Find(cur, q).None?
  }

  lemma AbsentStep<T>(cur: Node<T>, next: Node<T>, k: seq<char>, ks: set<seq<char>>)
    requires forall q :: Find(next, q).None? <==> Find(cur, q).None? && q != k
    ensures |Absent(cur, ks + {k})| == |Absent(next, ks)| + (if Find(cur, k).None? then 1 else 0)
  {
    if Find(cur, k).None? {
      assert Absent(cur, ks + {k}) == Absent(next, ks) + {k};
    } else {
      assert Absent(cur, ks + {k}) == Absent(next, ks);
    }
  }

  /** After a run of insertions the trie holds one more value per key of the run that had
      none beforehand: Count is the number of distinct keys added. */
  lemma {:induction false} InsertAllCount<T>(cur: Node<T>, entries: seq<(seq<char>, T)>, allowOverride: bool)
    requires Valid(cur)
    requires forall j :: 0 <= j < |entries| ==> |entries[j].0| > 0
    ensures ValueCount(InsertAll(cur, entries, allowOverride))
         == ValueCount(cur) + |Absent(cur, Keys(entries))|
    decreases |entries|
  {
    if |entries| == 0 {
      assert Absent(cur, Keys(entries)) == {};
    } else {
      var (k, d) := entries[0];
      var rest := entries[1..];
      var next := Insert(cur, k, d, allowOverride);
      InsertValid(cur, k, d, allowOverride);
      InsertCount(cur, k, d, allowOverride);
      InsertAllCount(next, rest, allowOverride);
      forall q ensures Find(next, q).None? <==> Find(cur, q).None? && q != k {
        InsertFind(cur, k, d, allowOverride, q);
      }
      KeysCons(entries);
      AbsentStep(cur, next, k, Keys(rest));
    }
  }
}
