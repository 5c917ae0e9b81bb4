/** The tolerant lookup of DictRadix<T>: a depth-first crawl that follows both exact
    character matches and every pluggable tolerance function at every edge position,
    collecting a (word, value, score) result for each path that consumes the whole key. */
module TolerantCrawler {
  import opened Wrappers
  import opened RadixTree

  /** What a tolerance function reports when it accepts an edge character: how many edge
      characters it consumes (the `byte?` it returns) and the cursor and score it writes back
      through its `ref` parameters. */
  datatype Tolerated = Tolerated(consumed: nat, keyPos: nat, score: real)

  /** A ToleranceFuncDelegate: the input key, the candidate's cursor, text and score, and the
      edge character under consideration; None declines (a null return). */
  type ToleranceFunc = (seq<char>, nat, seq<char>, real, char) -> Option<Tolerated>

  /** A partial match: input cursor, the text reconstructed so far, and its score. */
  datatype MatchCandidate = MatchCandidate(keyPos: nat, word: seq<char>, score: real)

  /** One tolerant hit: the reconstructed word, the value found, and the path's score. */
  datatype LookupResult<T> = LookupResult(word: seq<char>, data: T, score: real)

  /** How a tolerant lookup ends: it throws ArgumentOutOfRangeException (a tolerance function
      reported more edge characters than remain on the edge), or it returns a non-empty
      result list or null. */
  datatype Outcome<T> = OutOfRange | Returned(results: Option<seq<LookupResult<T>>>)

  /** What the crawl needs of the tolerance functions to terminate: one that consumes no edge
      character must move the cursor forward. */
  ghost predicate WellBehaved(tfs: seq<ToleranceFunc>) {
    forall j: int, key: seq<char>, pos: nat, word: seq<char>, score: real, ch: char ::
      0 <= j < |tfs| && pos < |key| && tfs[j](key, pos, word, score, ch).Some?
      && tfs[j](key, pos, word, score, ch).value.consumed == 0
      ==> tfs[j](key, pos, word, score, ch).value.keyPos > pos
  }

  /** Distance from `a` up to `b`, 0 when `a` is already past it. */
  function Gap(a: nat, b: nat): nat {
    if a <= b then b - a else 0
  }

  /** Results of two parts of the crawl run one after the other; None once either threw. */
  function Then<X>(a: Option<seq<X>>, b: Option<seq<X>>): Option<seq<X>> {
    if a.Some? && b.Some? then Some(a.value + b.value) else None
  }

  lemma ThenEmpty<X>(b: Option<seq<X>>)
    ensures Then(Some([]), b) == b
  {
    if b.Some? {
      assert [] + b.value == b.value;
    }
  }

  /** LookupTolerantImpl from the child at position `i` on: each child is matched from the
      start of its edge against the same candidate. None: the crawl threw. */
  function Crawl<T>(key: seq<char>, tfs: seq<ToleranceFunc>, cur: Node<T>, mc: MatchCandidate, i: nat)
    : Option<seq<LookupResult<T>>>
    requires WellBehaved(tfs) && i <= |cur.children|
    decreases cur, 1, |cur.children| - i, 0, 0, 0, 0
  {
    if i == |cur.children| then Some([])
    else Then(Match(key, tfs, cur.children[i], 0, mc), Crawl(key, tfs, cur, mc, i + 1))
  }

  /** DoKeyMatching(node, start, mc): match the edge of `node` from position `start`. */
  function Match<T>(key: seq<char>, tfs: seq<ToleranceFunc>, node: Node<T>, start: nat, mc: MatchCandidate)
    : Option<seq<LookupResult<T>>>
    requires WellBehaved(tfs)
    decreases node, 2, Gap(start, |node.key|), Gap(mc.keyPos, |key|), 3, 0, 0
  {
    Walk(key, tfs, node, start, mc, start, mc.keyPos)
  }

  /** The `while` loop of DoKeyMatching from edge position `nkp` and input position `ckp`:
      at each position every tolerance function is tried first, then the exact comparison
      either advances both positions or breaks out of the loop. */
  function Walk<T>(key: seq<char>, tfs: seq<ToleranceFunc>, node: Node<T>, start: nat, mc: MatchCandidate,
                   nkp: nat, ckp: nat): Option<seq<LookupResult<T>>>
    requires WellBehaved(tfs) && start <= nkp && ckp == mc.keyPos + (nkp - start)
    decreases node, 2, Gap(start, |node.key|), Gap(mc.keyPos, |key|), 2, Gap(nkp, |node.key|), 0
  {
    if nkp < |node.key| && ckp < |key| then
      var tolerated := Tolerate(key, tfs, node, start, mc, nkp, 0);
      if node.key[nkp] != key[ckp] then Then(tolerated, Finish(key, tfs, node, start, mc, nkp, ckp))
      else Then(tolerated, Walk(key, tfs, node, start, mc, nkp + 1, ckp + 1))
    else Finish(key, tfs, node, start, mc, nkp, ckp)
  }

  /** The `foreach` over the tolerance functions from the `j`-th on, at edge position `nkp`.
      Each is consulted with the candidate's own cursor, text and score. */
  function Tolerate<T>(key: seq<char>, tfs: seq<ToleranceFunc>, node: Node<T>, start: nat, mc: MatchCandidate,
                       nkp: nat, j: nat): Option<seq<LookupResult<T>>>
    requires WellBehaved(tfs) && start <= nkp < |node.key| && mc.keyPos < |key| && j <= |tfs|
    decreases node, 2, Gap(start, |node.key|), Gap(mc.keyPos, |key|), 1, Gap(nkp, |node.key|), |tfs| - j + 1
  {
    if j == |tfs| then Some([])
    else
      var here :=
        match tfs[j](key, mc.keyPos, mc.word, mc.score, node.key[nkp])
        case None => Some([])
        case Some(t) => Branch(key, tfs, node, start, mc, nkp, t);
      Then(here, Tolerate(key, tfs, node, start, mc, nkp, j + 1))
  }

  /** One accepted toleration: the new candidate gets the cursor and score the function
      reported and the consumed edge characters appended to the candidate's text; the crawl
      goes on into the node's children when the edge is used up, else along the same edge. */
  function Branch<T>(key: seq<char>, tfs: seq<ToleranceFunc>, node: Node<T>, start: nat, mc: MatchCandidate,
                     nkp: nat, t: Tolerated): Option<seq<LookupResult<T>>>
    requires WellBehaved(tfs) && start <= nkp < |node.key| && mc.keyPos < |key|
    requires t.consumed == 0 ==> t.keyPos > mc.keyPos
    decreases node, 2, Gap(start, |node.key|), Gap(mc.keyPos, |key|), 1, Gap(nkp, |node.key|), 0
  {
    var c := t.consumed;
    if 0 < c <= |node.key| && nkp + c > |node.key| then None
    else
      var letters := if 0 < c <= |node.key| then node.key[nkp..nkp + c] else [];
      var nmc := MatchCandidate(t.keyPos, mc.word + letters, t.score);
      if nkp + c == |node.key| then Crawl(key, tfs, node, nmc, 0)
      else Match(key, tfs, node, nkp + c, nmc)
  }

  /** After DoKeyMatching's loop: a fully matched edge either ends the key (a result when
      the node holds a value) or hands the rest of the key to the node's children. */
  function Finish<T>(key: seq<char>, tfs: seq<ToleranceFunc>, node: Node<T>, start: nat, mc: MatchCandidate,
                     nkp: nat, ckp: nat): Option<seq<LookupResult<T>>>
    requires WellBehaved(tfs) && start <= nkp
    decreases node, 2, Gap(start, |node.key|), Gap(mc.keyPos, |key|), 0, 0, 0
  {
    if nkp == |node.key| then
      var word := mc.word + node.key[start..nkp];
      if ckp == |key| then
        if node.value.Some? then Some([LookupResult(word, node.value.value, mc.score)]) else Some([])
      else Crawl(key, tfs, node, MatchCandidate(ckp, word, mc.score), 0)
    else Some([])
  }

  /** The start of every tolerant lookup: cursor 0, empty text, score 1.0. */
  function Initial(): MatchCandidate { MatchCandidate(0, [], 1.0) }

  /** LookupTolerant: the crawl from the root's children; a list is returned only when it is
      non-empty, null otherwise. */
  function TolerantLookup<T>(root: Node<T>, key: seq<char>, tfs: seq<ToleranceFunc>): (o: Outcome<T>)
    requires WellBehaved(tfs)
    ensures o.Returned? && o.results.Some? ==> |o.results.value| > 0
    ensures o.OutOfRange? <==> Crawl(key, tfs, root, Initial(), 0).None?
  {
    var c := Crawl(key, tfs, root, Initial(), 0);
    if c.None? then OutOfRange
    else if |c.value| > 0 then Returned(Some(c.value))
    else Returned(None)
  }

  // ---------------------------------------------------------------------------------
  // No tolerance functions: the crawl is the exact lookup

  /** The result list an exact lookup contributes. */
  function Hit<T>(key: seq<char>, found: Option<T>, score: real): seq<LookupResult<T>> {
    if found.Some? then [LookupResult(key, found.value, score)] else []
  }

  /** The text of an exact path: the consumed key prefix followed by the edge characters
      matched so far is the longer key prefix. */
  lemma ExactWord(key: seq<char>, p: nat, L: seq<char>, nkp: nat)
    requires p + nkp <= |key| && nkp <= |L| && forall i :: 0 <= i < nkp ==> L[i] == key[p + i]
    ensures key[..p] + L[0..nkp] == key[..p + nkp]
  {
  }

  /** With no tolerance functions a matching character only moves both cursors on. */
  lemma WalkAdvance<T>(key: seq<char>, c: Node<T>, p: nat, s: real, nkp: nat)
    requires nkp < |c.key| && p + nkp < |key| && c.key[nkp] == key[p + nkp]
    ensures Walk(key, [], c, 0, MatchCandidate(p, key[..p], s), nkp, p + nkp)
         == Walk(key, [], c, 0, MatchCandidate(p, key[..p], s), nkp + 1, p + nkp + 1)
  {
    var mc := MatchCandidate(p, key[..p], s);
    assert Tolerate(key, [], c, 0, mc, nkp, 0) == Some([]);
    ThenEmpty(Walk(key, [], c, 0, mc, nkp + 1, p + nkp + 1));
  }

  /** An edge left before its end (a differing character or the key used up) is a miss for
      both the crawl and the exact lookup. */
  lemma WalkStops<T>(key: seq<char>, c: Node<T>, p: nat, s: real, nkp: nat)
    requires p + nkp <= |key| && nkp < |c.key| && forall i :: 0 <= i < nkp ==> c.key[i] == key[p + i]
    requires p + nkp == |key| || c.key[nkp] != key[p + nkp]
    ensures Walk(key, [], c, 0, MatchCandidate(p, key[..p], s), nkp, p + nkp) == Some([])
    ensures Descend(c, key[p..]) == None
  {
    var mc := MatchCandidate(p, key[..p], s);
    DescendStops(c, key[p..], nkp);
    assert Finish(key, [], c, 0, mc, nkp, p + nkp) == Some([]);
    if p + nkp < |key| {
      assert Tolerate(key, [], c, 0, mc, nkp, 0) == Some([]);
      ThenEmpty(Finish(key, [], c, 0, mc, nkp, p + nkp));
    }
  }

  lemma DescendStops<T>(c: Node<T>, q: seq<char>, n: nat)
    requires n <= |q| && n < |c.key| && forall i :: 0 <= i < n ==> c.key[i] == q[i]
    requires n == |q| || c.key[n] != q[n]
    ensures Descend(c, q) == None
  {
    CommonPrefixUnique(c.key, q, n);
  }

  lemma {:induction false} WalkNoTolerance<T>(key: seq<char>, c: Node<T>, p: nat, s: real, nkp: nat)
    requires Valid(c) && p + nkp <= |key| && nkp <= |c.key|
    requires forall i :: 0 <= i < nkp ==> c.key[i] == key[p + i]
    ensures Walk(key, [], c, 0, MatchCandidate(p, key[..p], s), nkp, p + nkp)
         == Some(Hit(key, Descend(c, key[p..]), s))
    decreases c, 3, |c.key| - nkp
  {
    var L := c.key;
    if nkp < |L| {
      if p + nkp < |key| && L[nkp] == key[p + nkp] {
        WalkAdvance(key, c, p, s, nkp);
        WalkNoTolerance(key, c, p, s, nkp + 1);
      } else {
        WalkStops(key, c, p, s, nkp);
      }
    } else {
      WalkEdgeEnd(key, c, p, s);
    }
  }

  /** A fully matched edge: the crawl ends here or goes on into the node's children exactly
      as the exact lookup does. */
  lemma {:induction false} WalkEdgeEnd<T>(key: seq<char>, c: Node<T>, p: nat, s: real)
    requires Valid(c) && p + |c.key| <= |key|
    requires forall i :: 0 <= i < |c.key| ==> c.key[i] == key[p + i]
    ensures Walk(key, [], c, 0, MatchCandidate(p, key[..p], s), |c.key|, p + |c.key|)
         == Some(Hit(key, Descend(c, key[p..]), s))
    decreases c, 2, 0
  {
    var e := p + |c.key|;
    var mc := MatchCandidate(p, key[..p], s);
    EdgeEndCrawl(key, [], c, p, s);
    EdgeEndDescend(c, key, p);
    if e < |key| {
      var next := MatchCandidate(e, key[..e], s);
      CrawlNoTolerance(key, c, e, s, 0);
      assert Crawl(key, [], c, next, 0) == Some(Hit(key, Find(c, key[e..]), s));
    } else {
      assert Walk(key, [], c, 0, mc, |c.key|, e) == Some(Hit(key, c.value, s));
    }
  }

  /** What the crawl does once the whole edge matched: report the node at the end of the
      key, else crawl its children with the consumed prefix as the text. */
  lemma EdgeEndCrawl<T>(key: seq<char>, tfs: seq<ToleranceFunc>, c: Node<T>, p: nat, s: real)
    requires WellBehaved(tfs) && p + |c.key| <= |key|
    requires forall i :: 0 <= i < |c.key| ==> c.key[i] == key[p + i]
    ensures var e := p + |c.key|;
      Walk(key, tfs, c, 0, MatchCandidate(p, key[..p], s), |c.key|, e)
      == if e == |key| then Some(Hit(key, c.value, s)) else Crawl(key, tfs, c, MatchCandidate(e, key[..e], s), 0)
  {
    ExactWord(key, p, c.key, |c.key|);
    assert key[..|key|] == key;
  }

  /** The exact lookup past a fully matched edge. */
  lemma EdgeEndDescend<T>(c: Node<T>, key: seq<char>, p: nat)
    requires p + |c.key| <= |key|
    requires forall i :: 0 <= i < |c.key| ==> c.key[i] == key[p + i]
    ensures var e := p + |c.key|;
      Descend(c, key[p..]) == if e == |key| then c.value else Find(c, key[e..])
  {
    var q := key[p..];
    CommonPrefixUnique(c.key, q, |c.key|);
    assert q[|c.key|..] == key[p + |c.key|..];
  }

  lemma {:induction false} CrawlNoTolerance<T>(key: seq<char>, cur: Node<T>, p: nat, s: real, i: nat)
    requires Valid(cur) && p <= |key| && i <= |cur.children|
    ensures Crawl(key, [], cur, MatchCandidate(p, key[..p], s), i)
         == Some(if p < |key| && i <= ChildIndex(cur.children, key[p]) then Hit(key, Find(cur, key[p..]), s) else [])
    decreases cur, 1, |cur.children| - i
  {
    if i < |cur.children| {
      assert Valid(cur.children[i]);
      WalkNoTolerance(key, cur.children[i], p, s, 0);
      CrawlNoTolerance(key, cur, p, s, i + 1);
      CrawlExactStep(key, cur, p, s, i);
    }
  }

  /** One sibling of the exact crawl: the child ChildIndex picks contributes the exact
      lookup's hit, every other child nothing. */
  lemma CrawlExactStep<T>(key: seq<char>, cur: Node<T>, p: nat, s: real, i: nat)
    requires Siblings(cur.children) && p <= |key| && i < |cur.children|
    requires Walk(key, [], cur.children[i], 0, MatchCandidate(p, key[..p], s), 0, p)
          == Some(Hit(key, Descend(cur.children[i], key[p..]), s))
    requires Crawl(key, [], cur, MatchCandidate(p, key[..p], s), i + 1)
          == Some(if p < |key| && i + 1 <= ChildIndex(cur.children, key[p]) then Hit(key, Find(cur, key[p..]), s) else [])
    ensures Crawl(key, [], cur, MatchCandidate(p, key[..p], s), i)
         == Some(if p < |key| && i <= ChildIndex(cur.children, key[p]) then Hit(key, Find(cur, key[p..]), s) else [])
  {
    var cs := cur.children;
    var mc := MatchCandidate(p, key[..p], s);
    var rest := Crawl(key, [], cur, mc, i + 1);
    assert Crawl(key, [], cur, mc, i) == Then(Some(Hit(key, Descend(cs[i], key[p..]), s)), rest);
    if p < |key| && i == ChildIndex(cs, key[p]) {
      ChildDescend(cur, key[p..]);
      assert Hit(key, Find(cur, key[p..]), s) + [] == Hit(key, Find(cur, key[p..]), s);
    } else {
      ChildMiss(cs, key, p, i);
      ThenEmpty(rest);
    }
  }

  /** The exact lookup descends into the child ChildIndex picks. */
  lemma ChildDescend<T>(cur: Node<T>, q: seq<char>)
    requires |q| > 0 && ChildIndex(cur.children, q[0]) < |cur.children|
    ensures Find(cur, q) == Descend(cur.children[ChildIndex(cur.children, q[0])], q)
  {
  }

  /** Every other sibling misses the key. */
  lemma ChildMiss<T>(cs: seq<Node<T>>, key: seq<char>, p: nat, i: nat)
    requires Siblings(cs) && p <= |key| && i < |cs|
    requires p == |key| || i != ChildIndex(cs, key[p])
    ensures Descend(cs[i], key[p..]) == None
  {
    var q := key[p..];
    if p < |key| {
      assert q[0] == key[p];
      var ci := ChildIndex(cs, key[p]);
      if ci < i {
        assert cs[ci].key[0] < cs[i].key[0];
      }
    }
    CommonPrefixUnique(cs[i].key, q, 0);
  }

  /** With no tolerance functions LookupTolerant is the exact lookup: null when the key has
      no value, otherwise the one result (key, value, 1.0). */
  lemma TolerantLookupNoTolerance<T>(root: Node<T>, key: seq<char>)
    requires Valid(root)
    ensures TolerantLookup(root, key, [])
         == Returned(if Find(root, key).Some? then Some([LookupResult(key, Find(root, key).value, 1.0)]) else None)
  {
    assert key[..0] == [] && key[0..] == key;
    CrawlNoTolerance(key, root, 0, 1.0, 0);
  }

  // ---------------------------------------------------------------------------------
  // Any tolerance functions: the exact hit is always among the results

  lemma {:induction false} WalkHit<T>(key: seq<char>, tfs: seq<ToleranceFunc>, c: Node<T>, p: nat, s: real, nkp: nat, v: T)
    requires WellBehaved(tfs)
    requires p + nkp <= |key| && nkp <= |c.key| && forall i :: 0 <= i < nkp ==> c.key[i] == key[p + i]
    requires Descend(c, key[p..]) == Some(v)
    requires Walk(key, tfs, c, 0, MatchCandidate(p, key[..p], s), nkp, p + nkp).Some?
    ensures LookupResult(key, v, s) in Walk(key, tfs, c, 0, MatchCandidate(p, key[..p], s), nkp, p + nkp).value
    decreases c, 3, |c.key| - nkp
  {
    if nkp < |c.key| {
      var mc := MatchCandidate(p, key[..p], s);
      DescendAlong(c, key, p, nkp, v);
      WalkMatched(key, tfs, c, mc, nkp);
      ThenKeeps(Tolerate(key, tfs, c, 0, mc, nkp, 0), Walk(key, tfs, c, 0, mc, nkp + 1, p + nkp + 1));
      WalkHit(key, tfs, c, p, s, nkp + 1, v);
    } else {
      EdgeEndHit(key, tfs, c, p, s, v);
    }
  }

  lemma {:induction false} EdgeEndHit<T>(key: seq<char>, tfs: seq<ToleranceFunc>, c: Node<T>, p: nat, s: real, v: T)
    requires WellBehaved(tfs)
    requires p + |c.key| <= |key| && forall i :: 0 <= i < |c.key| ==> c.key[i] == key[p + i]
    requires Descend(c, key[p..]) == Some(v)
    requires Walk(key, tfs, c, 0, MatchCandidate(p, key[..p], s), |c.key|, p + |c.key|).Some?
    ensures LookupResult(key, v, s) in Walk(key, tfs, c, 0, MatchCandidate(p, key[..p], s), |c.key|, p + |c.key|).value
    decreases c, 2
  {
    var e := p + |c.key|;
    EdgeEndCrawl(key, tfs, c, p, s);
    EdgeEndDescend(c, key, p);
    if e < |key| {
      CrawlHit(key, tfs, c, e, s, 0, v);
    }
  }

  /** A matching character: the tolerated branches come first, then the walk goes on. */
  lemma WalkMatched<T>(key: seq<char>, tfs: seq<ToleranceFunc>, c: Node<T>, mc: MatchCandidate, nkp: nat)
    requires WellBehaved(tfs) && nkp < |c.key| && mc.keyPos + nkp < |key| && c.key[nkp] == key[mc.keyPos + nkp]
    ensures Walk(key, tfs, c, 0, mc, nkp, mc.keyPos + nkp)
         == Then(Tolerate(key, tfs, c, 0, mc, nkp, 0), Walk(key, tfs, c, 0, mc, nkp + 1, mc.keyPos + nkp + 1))
  {
  }

  /** One position of the walk: the tolerated branches, then the exact comparison. */
  lemma WalkStep<T>(key: seq<char>, tfs: seq<ToleranceFunc>, node: Node<T>, start: nat, mc: MatchCandidate,
                    nkp: nat, ckp: nat)
    requires WellBehaved(tfs) && start <= nkp < |node.key| && ckp == mc.keyPos + (nkp - start) && ckp < |key|
    ensures Walk(key, tfs, node, start, mc, nkp, ckp)
         == Then(Tolerate(key, tfs, node, start, mc, nkp, 0),
                 if node.key[nkp] != key[ckp] then Finish(key, tfs, node, start, mc, nkp, ckp)
                 else Walk(key, tfs, node, start, mc, nkp + 1, ckp + 1))
  {
  }

  /** The walk stops at the end of the edge or of the key. */
  lemma WalkEnds<T>(key: seq<char>, tfs: seq<ToleranceFunc>, node: Node<T>, start: nat, mc: MatchCandidate,
                    nkp: nat, ckp: nat)
    requires WellBehaved(tfs) && start <= nkp && ckp == mc.keyPos + (nkp - start)
    requires nkp >= |node.key| || ckp >= |key|
    ensures Walk(key, tfs, node, start, mc, nkp, ckp) == Finish(key, tfs, node, start, mc, nkp, ckp)
  {
  }

  /** A combined list holds everything its second part holds. */
  lemma ThenKeeps<X>(a: Option<seq<X>>, b: Option<seq<X>>)
    ensures Then(a, b).Some? ==> b.Some? && forall x :: x in b.value ==> x in Then(a, b).value
  {
  }

  /** A key whose exact lookup succeeds matches the whole edge. */
  lemma DescendAlong<T>(c: Node<T>, key: seq<char>, p: nat, nkp: nat, v: T)
    requires p + nkp <= |key| && nkp < |c.key| && forall i :: 0 <= i < nkp ==> c.key[i] == key[p + i]
    requires Descend(c, key[p..]) == Some(v)
    ensures p + nkp < |key| && c.key[nkp] == key[p + nkp]
  {
    var q := key[p..];
    assert CommonPrefix(c.key, q) == |c.key|;
    assert q[nkp] == c.key[nkp];
  }

  lemma {:induction false} CrawlHit<T>(key: seq<char>, tfs: seq<ToleranceFunc>, cur: Node<T>, p: nat, s: real, i: nat, v: T)
    requires WellBehaved(tfs) && p < |key| && i <= ChildIndex(cur.children, key[p])
    requires Find(cur, key[p..]) == Some(v)
    requires Crawl(key, tfs, cur, MatchCandidate(p, key[..p], s), i).Some?
    ensures LookupResult(key, v, s) in Crawl(key, tfs, cur, MatchCandidate(p, key[..p], s), i).value
    decreases cur, 1, |cur.children| - i
  {
    var cs := cur.children;
    var ci := ChildIndex(cs, key[p]);
    assert key[p..][0] == key[p];
    if i == ci {
      WalkHit(key, tfs, cs[i], p, s, 0, v);
    } else {
      CrawlHit(key, tfs, cur, p, s, i + 1, v);
    }
  }

  /** Whatever the tolerance functions, a lookup that does not throw returns a list holding
      the exact hit (key, value, 1.0) whenever the key has a value. */
  lemma TolerantLookupHit<T>(root: Node<T>, key: seq<char>, tfs: seq<ToleranceFunc>)
    requires WellBehaved(tfs) && Find(root, key).Some?
    requires TolerantLookup(root, key, tfs).Returned?
    ensures TolerantLookup(root, key, tfs).results.Some?
    ensures LookupResult(key, Find(root, key).value, 1.0) in TolerantLookup(root, key, tfs).results.value
  {
    assert key[..0] == [] && key[0..] == key;
    CrawlHit(key, tfs, root, 0, 1.0, 0, Find(root, key).value);
  }

  /** As written, a tolerated branch keeps only the edge characters the tolerance function
      consumed, and drops those of the same edge matched exactly before it: in a trie
      holding "abc", a function that accepts the edge character 'b' (halving the score) makes
      the key "ac" find the value under the word "bc". */
  lemma ToleratedWordKeepsOnlyConsumedLetters<T>(v: T)
    ensures var tf: ToleranceFunc :=
              (k: seq<char>, pos: nat, w: seq<char>, sc: real, ch: char) =>
                if ch == 'b' then Some(Tolerated(1, pos + 1, sc / 2.0)) else None;
      && WellBehaved([tf])
      && TolerantLookup(Node([], None, [Leaf("abc", v)]), "ac", [tf])
         == Returned(Some([LookupResult("bc", v, 0.5)]))
  {
    var tf: ToleranceFunc :=
      (k: seq<char>, pos: nat, w: seq<char>, sc: real, ch: char) =>
        if ch == 'b' then Some(Tolerated(1, pos + 1, sc / 2.0)) else None;
    var tfs := [tf];
    var key := "ac";
    var node := Leaf("abc", v);
    var root := Node([], None, [node]);
    var mc := Initial();
    var nmc := MatchCandidate(1, "b", 0.5);
    assert WellBehaved(tfs);
    assert node.key == "abc";
    var hit := [LookupResult("bc", v, 0.5)];
    // The branch tf opens at edge position 1 continues at position 2 and ends the key.
    assert tf(key, 1, "b", 0.5, 'c') == None;
    assert node.key[2] == 'c';
    ThenEmpty(Tolerate(key, tfs, node, 2, nmc, 2, 1));
    assert Tolerate(key, tfs, node, 2, nmc, 2, 0) == Some([]);
    assert node.key[2..3] == "c" && "b" + "c" == "bc";
    assert Finish(key, tfs, node, 2, nmc, 3, 2) == Some(hit);
    assert Walk(key, tfs, node, 2, nmc, 3, 2) == Some(hit);
    ThenEmpty(Walk(key, tfs, node, 2, nmc, 3, 2));
    assert Walk(key, tfs, node, 2, nmc, 2, 1) == Some(hit);
    assert Match(key, tfs, node, 2, nmc) == Some(hit);
    assert tf(key, 0, [], 1.0, 'b') == Some(Tolerated(1, 1, 0.5));
    assert node.key[1..2] == "b" && [] + "b" == "b";
    assert Branch(key, tfs, node, 0, mc, 1, Tolerated(1, 1, 0.5)) == Some(hit);
    assert Tolerate(key, tfs, node, 0, mc, 1, 1) == Some([]);
    assert hit + [] == hit;
    assert Tolerate(key, tfs, node, 0, mc, 1, 0) == Some(hit);
    // The exact path breaks at edge position 1 ('b' against 'c').
    assert Finish(key, tfs, node, 0, mc, 1, 1) == Some([]);
    assert Walk(key, tfs, node, 0, mc, 1, 1) == Some(hit);
    assert tf(key, 0, [], 1.0, 'a') == None;
    assert node.key[0] == 'a';
    ThenEmpty(Tolerate(key, tfs, node, 0, mc, 0, 1));
    assert Tolerate(key, tfs, node, 0, mc, 0, 0) == Some([]);
    ThenEmpty(Walk(key, tfs, node, 0, mc, 1, 1));
    assert Walk(key, tfs, node, 0, mc, 0, 0) == Some(hit);
    assert Match(key, tfs, node, 0, mc) == Some(hit);
    assert Crawl(key, tfs, root, mc, 1) == Some([]);
    assert Crawl(key, tfs, root, mc, 0) == Some(hit);
  }

  // ---------------------------------------------------------------------------------
  // Bookkeeping for the crawler's accumulated results

  lemma ThenAppend<X>(acc: seq<X>, a: Option<seq<X>>, r: Option<seq<X>>)
    ensures Then(Some(acc), Then(a, r)) == if a.Some? then Then(Some(acc + a.value), r) else None
  {
    if a.Some? && r.Some? {
      assert acc + (a.value + r.value) == (acc + a.value) + r.value;
    }
  }

  lemma SeqAssoc<X>(a: seq<X>, b: seq<X>, c: seq<X>)
    ensures (a + b) + c == a + (b + c)
  {
  }

  lemma ThenAssoc<X>(a: Option<seq<X>>, b: Option<seq<X>>, c: Option<seq<X>>)
    ensures Then(Then(a, b), c) == Then(a, Then(b, c))
  {
    if a.Some? && b.Some? && c.Some? {
      assert (a.value + b.value) + c.value == a.value + (b.value + c.value);
    }
  }

  /** The crawler object of one DictRadix: the trie it walks, its tolerance functions, the
      key of the current lookup and the results collected so far. */
  class TolerantLookupCrawler<T> {
    const root: Node<T>
    const toleranceFunctions: seq<ToleranceFunc>
    var key: seq<char>
    var resultSet: seq<LookupResult<T>>

    constructor(root: Node<T>, tolFuncs: seq<ToleranceFunc>)
      ensures this.root == root && toleranceFunctions == tolFuncs
      ensures key == [] && resultSet == []
    {
      this.root := root;
      toleranceFunctions := tolFuncs;
      key := [];
      resultSet := [];
    }

    /** One tolerant lookup of `strKey` with a fresh result list. */
    method LookupTolerant(strKey: seq<char>) returns (o: Outcome<T>)
      requires WellBehaved(toleranceFunctions)
      modifies this
      ensures key == strKey
      ensures o == TolerantLookup(root, strKey, toleranceFunctions)
    {
      key := strKey;
      resultSet := [];
      var ok := LookupTolerantImpl(root, Initial());
      if !ok {
        return OutOfRange;
      }
      assert resultSet == Crawl(key, toleranceFunctions, root, Initial(), 0).value;
      if |resultSet| > 0 {
        return Returned(Some(resultSet));
      }
      return Returned(None);
    }

    /** Match every child of `cur` against the candidate `mc`, appending what they find. */
    method LookupTolerantImpl(cur: Node<T>, mc: MatchCandidate) returns (ok: bool)
      requires WellBehaved(toleranceFunctions)
      modifies this`resultSet
      ensures ok == Crawl(key, toleranceFunctions, cur, mc, 0).Some?
      ensures ok ==> resultSet == old(resultSet) + Crawl(key, toleranceFunctions, cur, mc, 0).value
      decreases cur, 1, |cur.children| + 1, 0, 0, 0, 0
    {
      if |cur.children| == 0 {
        return true;
      }
      ghost var acc: seq<LookupResult<T>> := [];
      ThenEmpty(Crawl(key, toleranceFunctions, cur, mc, 0));
      var childPos := 0;
      while childPos < |cur.children|
        invariant childPos <= |cur.children|
        invariant resultSet == old(resultSet) + acc
        invariant Crawl(key, toleranceFunctions, cur, mc, 0)
               == Then(Some(acc), Crawl(key, toleranceFunctions, cur, mc, childPos))
      {
        var child := cur.children[childPos];
        ok := DoKeyMatching(child, 0, mc);
        ghost var found := Match(key, toleranceFunctions, child, 0, mc);
        ThenAppend(acc, found, Crawl(key, toleranceFunctions, cur, mc, childPos + 1));
        if !ok {
          return;
        }
        acc := acc + found.value;
        childPos := childPos + 1;
      }
      return true;
    }

    /** The body of DoKeyMatching's `foreach` for a tolerance function that accepted the
        edge character at `nkp`, reporting `t`: build the new candidate and crawl on. */
    method FollowToleration(node: Node<T>, start: nat, mc: MatchCandidate, nkp: nat, t: Tolerated)
      returns (ok: bool)
      requires WellBehaved(toleranceFunctions) && start <= nkp < |node.key| && mc.keyPos < |key|
      requires t.consumed == 0 ==> t.keyPos > mc.keyPos
      modifies this`resultSet
      ensures ok == Branch(key, toleranceFunctions, node, start, mc, nkp, t).Some?
      ensures ok ==> resultSet == old(resultSet) + Branch(key, toleranceFunctions, node, start, mc, nkp, t).value
      decreases node, 2, Gap(start, |node.key|), Gap(mc.keyPos, |key|), 1, Gap(nkp, |node.key|), 0
    {
      var consumedLetters := [];
      if t.consumed > 0 && t.consumed <= |node.key| {
        if nkp + t.consumed > |node.key| {
          // new string(node.Key, nodeKeyPos, tret) throws
          return false;
        }
        consumedLetters := node.key[nkp..nkp + t.consumed];
      }
      var nmc := MatchCandidate(t.keyPos, mc.word + consumedLetters, t.score);
      if nkp + t.consumed == |node.key| {
        ok := LookupTolerantImpl(node, nmc);
      } else {
        ok := DoKeyMatching(node, nkp + t.consumed, nmc);
      }
    }

    /** DoKeyMatching's `foreach` over the tolerance functions at edge position `nkp`: every
        function that accepts the edge character opens a branch of the crawl. */
    method Tolerations(node: Node<T>, start: nat, mc: MatchCandidate, nkp: nat) returns (ok: bool)
      requires WellBehaved(toleranceFunctions) && start <= nkp < |node.key| && mc.keyPos < |key|
      modifies this`resultSet
      ensures ok == Tolerate(key, toleranceFunctions, node, start, mc, nkp, 0).Some?
      ensures ok ==> resultSet == old(resultSet) + Tolerate(key, toleranceFunctions, node, start, mc, nkp, 0).value
      decreases node, 2, Gap(start, |node.key|), Gap(mc.keyPos, |key|), 1, Gap(nkp, |node.key|), |toleranceFunctions| + 1
    {
      var tfs := toleranceFunctions;
      ghost var acc: seq<LookupResult<T>> := [];
      ThenEmpty(Tolerate(key, tfs, node, start, mc, nkp, 0));
      var j := 0;
      while j < |tfs|
        invariant j <= |tfs|
        invariant resultSet == old(resultSet) + acc
        invariant Tolerate(key, tfs, node, start, mc, nkp, 0) == Then(Some(acc), Tolerate(key, tfs, node, start, mc, nkp, j))
      {
        var tret := tfs[j](key, mc.keyPos, mc.word, mc.score, node.key[nkp]);
        ghost var rest := Tolerate(key, tfs, node, start, mc, nkp, j + 1);
        ghost var here := if tret.Some? then Branch(key, tfs, node, start, mc, nkp, tret.value) else Some([]);
        assert Tolerate(key, tfs, node, start, mc, nkp, j) == Then(here, rest);
        ThenAppend(acc, here, rest);
        if tret.Some? {
          ok := FollowToleration(node, start, mc, nkp, tret.value);
          if !ok {
            return;
          }
          acc := acc + here.value;
        } else {
          assert acc + [] == acc;
        }
        j := j + 1;
      }
      assert acc + [] == acc;
      return true;
    }

    /** The end of DoKeyMatching: a fully matched edge yields the node's value when the key
        is used up, else the crawl goes on into the node's children. */
    method FinishMatching(node: Node<T>, start: nat, mc: MatchCandidate, nkp: nat, currentKeyPos: nat)
      returns (ok: bool)
      requires WellBehaved(toleranceFunctions) && start <= nkp
      modifies this`resultSet
      ensures ok == Finish(key, toleranceFunctions, node, start, mc, nkp, currentKeyPos).Some?
      ensures ok ==> resultSet == old(resultSet) + Finish(key, toleranceFunctions, node, start, mc, nkp, currentKeyPos).value
      decreases node, 2, Gap(start, |node.key|), Gap(mc.keyPos, |key|), 0, 0, 0
    {
      if nkp == |node.key| {
        var word := mc.word + node.key[start..nkp];
        if currentKeyPos == |key| {
          if node.value.Some? {
            resultSet := resultSet + [LookupResult(word, node.value.value, mc.score)];
          }
        } else {
          ok := LookupTolerantImpl(node, MatchCandidate(currentKeyPos, word, mc.score));
          return;
        }
      }
      return true;
    }

    /** DoKeyMatching's `while` loop: at each edge position the tolerance functions are tried,
        then the exact comparison moves both cursors on or stops the loop. Reports where the
        loop stopped and, as `acc`, the results the tolerated branches appended. */
    method MatchAlongEdge(node: Node<T>, start: nat, mc: MatchCandidate)
      returns (ok: bool, nkp: nat, currentKeyPos: nat, ghost acc: seq<LookupResult<T>>)
      requires WellBehaved(toleranceFunctions)
      modifies this`resultSet
      ensures ok ==> start <= nkp && currentKeyPos == mc.keyPos + (nkp - start)
      ensures ok ==> resultSet == old(resultSet) + acc
      ensures ok ==>
        Match(key, toleranceFunctions, node, start, mc)
        == Then(Some(acc), Finish(key, toleranceFunctions, node, start, mc, nkp, currentKeyPos))
      ensures !ok ==> Match(key, toleranceFunctions, node, start, mc).None?
      decreases node, 2, Gap(start, |node.key|), Gap(mc.keyPos, |key|), 2, 0, 0
    {
      var tfs := toleranceFunctions;
      nkp := start;
      currentKeyPos := mc.keyPos;
      acc := [];
      ThenEmpty(Match(key, tfs, node, start, mc));
      while nkp < |node.key| && currentKeyPos < |key|
        invariant start <= nkp && currentKeyPos == mc.keyPos + (nkp - start)
        invariant resultSet == old(resultSet) + acc
        invariant Match(key, tfs, node, start, mc) == Then(Some(acc), Walk(key, tfs, node, start, mc, nkp, currentKeyPos))
        decreases |node.key| - nkp
      {
        ghost var after :=
          if node.key[nkp] != key[currentKeyPos] then Finish(key, tfs, node, start, mc, nkp, currentKeyPos)
          else Walk(key, tfs, node, start, mc, nkp + 1, currentKeyPos + 1);
        ghost var tolerated := Tolerate(key, tfs, node, start, mc, nkp, 0);
        WalkStep(key, tfs, node, start, mc, nkp, currentKeyPos);
        ThenAppend(acc, tolerated, after);
        ok := Tolerations(node, start, mc, nkp);
        if !ok {
          return;
        }
        acc := acc + tolerated.value;
        // standard key matching
        if node.key[nkp] != key[currentKeyPos] {
          return;
        }
        currentKeyPos := currentKeyPos + 1;
        nkp := nkp + 1;
      }
      WalkEnds(key, tfs, node, start, mc, nkp, currentKeyPos);
      ok := true;
    }

    /** Match the edge of `node` from position `nodeKeyPos` against the candidate `mc`,
        appending what the tolerated branches and the exact path find. */
    method DoKeyMatching(node: Node<T>, nodeKeyPos: nat, mc: MatchCandidate) returns (ok: bool)
      requires WellBehaved(toleranceFunctions)
      modifies this`resultSet
      ensures ok == Match(key, toleranceFunctions, node, nodeKeyPos, mc).Some?
      ensures ok ==> resultSet == old(resultSet) + Match(key, toleranceFunctions, node, nodeKeyPos, mc).value
      decreases node, 2, Gap(nodeKeyPos, |node.key|), Gap(mc.keyPos, |key|), 3, 0, 0
    {
      var nkp, currentKeyPos;
      ghost var acc;
      ok, nkp, currentKeyPos, acc := MatchAlongEdge(node, nodeKeyPos, mc);
      if !ok {
        return;
      }
      ghost var finish := Finish(key, toleranceFunctions, node, nodeKeyPos, mc, nkp, currentKeyPos);
      ok := FinishMatching(node, nodeKeyPos, mc, nkp, currentKeyPos);
      if ok {
        SeqAssoc(old(resultSet), acc, finish.value);
      }
    }

  }
}
