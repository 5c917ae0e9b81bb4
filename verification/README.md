# HebMorph radix dictionary, stream lemmatizer and lemmas filter in Dafny

This project models the core of HebMorph as used by the Umbraco Hebrew search site. It
covers four parts:

- `DictRadix<T>`, the radix tree (compressed trie) that maps Hebrew words to their
  morphological data. The model covers insertion with and without value override, exact
  lookup over a NUL-terminated character buffer, the count of stored values, the tolerant
  crawler, and the depth-first enumerator with its path of nodes.
- `StreamLemmatizer.LemmatizeNextToken`, which reads the next word from the tokenizer. It
  skips stand-alone prefixes, strips prefixes from acronyms, consults the word-correction
  hook, and then lemmatizes the word exactly, falls back to an acronym token, or lemmatizes
  it tolerantly.
- `StreamLemmasFilter.IncrementToken`, the Lucene token filter. It emits a word, and then
  each distinct lemma of that word at the same position.
- The site's prefix expansion for unknown words (`RegisterEvents.SetExamineSearch`).

The files are:

- `Wrappers.dfy`: `Option`.
- `RadixTree.dfy`: the trie as a value, with its specification functions `Find`, `Insert`,
  `Replace` and `ValueCount` and their lemmas.
- `TolerantCrawler.dfy`: the crawl as recursive functions (`Crawl`, `Match`, `Walk`,
  `Tolerate`, `Branch`, `Finish`), and the crawler class proved against them.
- `Traversal.dfy`: the pre-order of the trie and the order in which the enumerator visits
  nodes.
- `DictRadix.dfy`: the `DictRadix` and `RadixEnumerator` classes.
- `StreamLemmatizer.dfy`: the lemmatizer class, with `Analyse` (what one token becomes) and
  `Run` (the noise-skipping loop) as its specification.
- `StreamLemmasFilter.dfy`: the filter class.
- `RegisterEvents.dfy`: the prefix expansion.

Trie nodes are values (`Node(key, value, children)`). The dictionary object keeps the root
in a field, and `AddNode` rebuilds the path it changed, using a zipper (`Frame`, `Plug`). An
empty value slot (`default(T)` in C#) is `None`. Every method of the two classes is proved
against the specification functions. The lemmas then state what the C# promises about
those functions:

- what a later lookup finds after an insertion (override or not);
- how the count changes;
- that siblings stay sorted by first character;
- that the tolerant crawl without tolerance functions is an exact lookup;
- that the enumerator yields every stored value exactly once, in pre-order.

The tokenizer is a cursor over a sequence of raw tokens. The morphological primitives are a
record of functions (`Primitives`). The hspell-backed `Lemmatize`, `LemmatizeTolerant`,
`IsLegalPrefix`, `TryStrippingPrefix` and `RemoveNiqqud` live in `Lemmatizer`, which is not
part of this model. `StreamLemmatizer.cs` in this version has no static `LemmatizeUnknownWord`
field. The site's hook is therefore modelled by itself, as a function from a word to the
list it returns.

`AddNode` increments the count only when it creates a new value slot. Overwriting an
existing value (with override allowed) leaves the count unchanged (`AddNode`'s `ensures`,
and `RadixTree.InsertCount`).

## Model

| member | source | states |
|---|---|---|
| RadixTree.CommonPrefix | HebMorph/DataStructures/DictRadix.cs:298-303 | the matching loop's `n`: the length of the longest common prefix of the edge and the remaining key, with the first differing characters when both go on |
| RadixTree.ChildIndex | HebMorph/DataStructures/DictRadix.cs:190-222 | the child a key character leads to: the first child whose edge starts with it, or past the end when none does |
| RadixTree.InsertionPoint | HebMorph/DataStructures/DictRadix.cs:401-405 | the dead-end position: every earlier sibling's first character is not above the new one, and the sibling there starts with a greater one |
| RadixTree.Logical | HebMorph/DataStructures/DictRadix.cs:248-253 | the word held in a buffer: the prefix before the first NUL, containing no NUL, followed by NUL or the end of the buffer |
| RadixTree.InsertValid | HebMorph/DataStructures/DictRadix.cs:255-421 | insertion keeps the trie well formed: non-empty edges, siblings sorted by distinct first characters |
| RadixTree.ReplaceValid | HebMorph/DataStructures/DictRadix.cs:316-389 | rewriting the matching child keeps it well formed and keeps its first character, so sibling order survives |
| RadixTree.SiblingsInsertSorted | HebMorph/DataStructures/DictRadix.cs:393-418 | a new leaf put at its insertion point keeps siblings strictly ordered by first character |
| RadixTree.InsertSortedAt | HebMorph/DataStructures/DictRadix.cs:401-414 | the dead-end copy: the earlier children, then the new node, then the later children, one longer |
| RadixTree.InsertFind | HebMorph/DataStructures/DictRadix.cs:255-421 | after inserting `k`, lookups of other keys are unchanged, and `k` finds the new data unless a value was there and override is off |
| RadixTree.ReplaceFind | HebMorph/DataStructures/DictRadix.cs:291-389 | the same for the child the key descends into (bridge, split or set value) |
| RadixTree.InsertFindDeadEnd | HebMorph/DataStructures/DictRadix.cs:393-418 | when no child starts with the key's first character, the new leaf makes the key findable and changes nothing else |
| RadixTree.InsertFindChild | HebMorph/DataStructures/DictRadix.cs:291-391 | when a child starts with the key's first character, only lookups through that child can change |
| RadixTree.FindInsertSorted | HebMorph/DataStructures/DictRadix.cs:393-418 | adding a sibling with a new first character leaves lookups through the other children alone |
| RadixTree.DescendBridge | HebMorph/DataStructures/DictRadix.cs:316-351 | the bridge node (common prefix, no value, the old tail and the new tail ordered) finds the new key's data and everything the old child found |
| RadixTree.DescendSplit | HebMorph/DataStructures/DictRadix.cs:353-374 | the split (key ends inside an edge) puts the data on the new prefix node and keeps every old lookup |
| RadixTree.DescendSet | HebMorph/DataStructures/DictRadix.cs:376-389 | setting the value on an exact match changes the lookup of that key only |
| RadixTree.InsertCount | HebMorph/DataStructures/DictRadix.cs:283 | the number of stored values grows by one exactly when the key had no value, and an override adds none |
| RadixTree.ReplaceCount | HebMorph/DataStructures/DictRadix.cs:348 | the same for the rewritten child (the counter increments at 283, 348, 371, 381 and 416) |
| RadixTree.ForestCountAppend | HebMorph/DataStructures/DictRadix.cs:401-414 | the values under a list of siblings add up over a concatenation |
| RadixTree.InsertAllFind | HebMorph/DataStructures/DictRadix.cs:376-389 | after a series of insertions a key finds the last value given (override on) or the first value it ever had (override off) |
| RadixTree.InsertAllCount | HebMorph/DataStructures/DictRadix.cs:154-155 | after a series of insertions `Count` has grown by the number of distinct new keys |
| RadixTree.CommonPrefixShift | HebMorph/DataStructures/DictRadix.cs:298-303 | resuming the matching after `n` agreed characters adds `n` to the match |
| RadixTree.FindNone | HebMorph/DataStructures/DictRadix.cs:216-220 | when no child starts with the key's first character the lookup fails |
| DataStructures.DictRadix.constructor | HebMorph/DataStructures/DictRadix.cs:160-163 | a new dictionary is an empty root with count 0 and override off |
| DataStructures.DictRadix.Count | HebMorph/DataStructures/DictRadix.cs:154-155 | the counter equals the number of values in the trie |
| DataStructures.DictRadix.SetAllowValueOverride | HebMorph/DataStructures/DictRadix.cs:157-158 | the setter changes only the flag |
| DataStructures.DictRadix.GetCharArrayLength | HebMorph/DataStructures/DictRadix.cs:248-253 | the index of the first NUL, or the buffer length: the length of the logical word |
| DataStructures.DictRadix.MatchLength | HebMorph/DataStructures/DictRadix.cs:196-201 | the inner matching loop computes the common prefix of edge and remaining key |
| DataStructures.DictRadix.LookupImpl | HebMorph/DataStructures/DictRadix.cs:182-226 | a node is returned only when its value is what the key finds; null only when the key finds nothing |
| DataStructures.DictRadix.Lookup | HebMorph/DataStructures/DictRadix.cs:165-175 | the value stored under the logical word, or none |
| DataStructures.DictRadix.LookupTolerant | HebMorph/DataStructures/DictRadix.cs:242-246 | delegates to a crawler over the root: the tolerant lookup of the key |
| DataStructures.DictRadix.InsertChild | HebMorph/DataStructures/DictRadix.cs:398-418 | the array copy at the dead end inserts the new leaf at its sorted position |
| DataStructures.DictRadix.AddAtNode | HebMorph/DataStructures/DictRadix.cs:268-420 | one pass of the insertion loop: either descend into the fully matched child, or finish with the node as `Insert` makes it and report whether a value slot was added |
| DataStructures.DictRadix.AddNode | HebMorph/DataStructures/DictRadix.cs:255-421 | the new trie is the specification insertion of the logical word, the trie stays well formed, and the count grows by one exactly when the key was absent |
| DataStructures.DictRadix.GetEnumerator | HebMorph/DataStructures/DictRadix.cs:528-531 | a fresh enumerator positioned on the root |
| DataStructures.DictRadix.Clear | HebMorph/DataStructures/DictRadix.cs:423-427 | an empty root and a zero count |
| DataStructures.LeafCase | HebMorph/DataStructures/DictRadix.cs:271-285 | a node with no children gets a single leaf with the rest of the key, and the key was absent |
| DataStructures.BridgeCase | HebMorph/DataStructures/DictRadix.cs:316-351 | a partial match that ends inside both edge and key replaces the child by a bridge, and the key was absent |
| DataStructures.SplitCase | HebMorph/DataStructures/DictRadix.cs:353-374 | a key that ends inside an edge splits that edge, and the key was absent |
| DataStructures.SetCase | HebMorph/DataStructures/DictRadix.cs:376-389 | an exact match sets the value when the slot is empty or override is on, and otherwise leaves the trie alone |
| DataStructures.AddDeadEnd | HebMorph/DataStructures/DictRadix.cs:393-418 | no child starts with the key's character: a sorted insertion of a new leaf, and the key was absent |
| DataStructures.AddStep | HebMorph/DataStructures/DictRadix.cs:291-314 | a matching child is the only one insertion touches, and the lookup goes through it |
| DataStructures.ScanStep | HebMorph/DataStructures/DictRadix.cs:202-222 | each outcome of the lookup's child scan (return value, descend, null, next child) agrees with `Find` |
| DataStructures.LogicalLength | HebMorph/DataStructures/DictRadix.cs:248-253 | the first NUL position is the logical length |
| DataStructures.RadixEnumerator.constructor | HebMorph/DataStructures/DictRadix.cs:435-440 | the path holds only the root |
| DataStructures.RadixEnumerator.CurrentKey | HebMorph/DataStructures/DictRadix.cs:449-460 | the concatenation of the edges along the path |
| DataStructures.RadixEnumerator.MoveNext | HebMorph/DataStructures/DictRadix.cs:462-497 | true exactly when a value is still to come; the current value is then the first pending one and the pending list loses it; false leaves an empty path |
| DataStructures.RadixEnumerator.SiblingAfter | HebMorph/DataStructures/DictRadix.cs:474-484 | the search for the node just left finds it exactly when a later sibling exists |
| DataStructures.RadixEnumerator.Reset | HebMorph/DataStructures/DictRadix.cs:499-503 | back on the root |
| DataStructures.EnumeratesAll | HebMorph/DataStructures/DictRadix.cs:462-497 | from a fresh enumerator, the values still to come number `Count` and include every value a lookup can find |
| DataStructures.CurrentKeyFinds | HebMorph/DataStructures/DictRadix.cs:449-460 | the current key looks up the current value |
| Traversal.PreOrderCount | HebMorph/DataStructures/DictRadix.cs:462-497 | the enumeration order lists exactly `ValueCount` values |
| Traversal.ForestOrderCount | HebMorph/DataStructures/DictRadix.cs:462-497 | the same for a list of siblings |
| Traversal.FindVisited | HebMorph/DataStructures/DictRadix.cs:462-497 | every value a lookup finds is visited |
| Traversal.SpellFind | HebMorph/DataStructures/DictRadix.cs:449-460 | looking up the spelled path from its first node reaches the node at its end |
| Traversal.SpellLookup | HebMorph/DataStructures/DictRadix.cs:449-460 | the spelled key of a path finds the value of its last node |
| Traversal.MoveDown | HebMorph/DataStructures/DictRadix.cs:488-494 | pushing the first child reports it next and shortens what is pending |
| Traversal.MoveAcross | HebMorph/DataStructures/DictRadix.cs:474-484 | going up and on to the next sibling reports it next and shortens what is pending |
| Traversal.MoveUp | HebMorph/DataStructures/DictRadix.cs:470-473 | popping a last child loses nothing pending |
| Traversal.PendingNextSibling | HebMorph/DataStructures/DictRadix.cs:474-484 | the sibling after the node left is the next node in pre-order |
| TolerantCrawler.TolerantLookup | HebMorph/DataStructures/DictRadix.cs:65-76 | a returned list is never empty (null otherwise), and the lookup throws exactly when the crawl overruns |
| TolerantCrawler.TolerantLookupNoTolerance | HebMorph/DataStructures/DictRadix.cs:65-148 | with no tolerance functions the crawl is an exact lookup: one result with score 1.0, or null |
| TolerantCrawler.TolerantLookupHit | HebMorph/DataStructures/DictRadix.cs:121-125 | whatever the tolerance functions, an exact hit is among the results with score 1.0 |
| TolerantCrawler.CrawlNoTolerance | HebMorph/DataStructures/DictRadix.cs:78-91 | without tolerance the child scan yields the exact lookup of the rest of the key |
| TolerantCrawler.WalkNoTolerance | HebMorph/DataStructures/DictRadix.cs:97-147 | without tolerance matching along an edge yields the exact lookup |
| TolerantCrawler.WalkEdgeEnd | HebMorph/DataStructures/DictRadix.cs:129-147 | at the end of a matched edge the crawl reports the value or recurses into the children |
| TolerantCrawler.CrawlHit | HebMorph/DataStructures/DictRadix.cs:78-91 | an exact hit below a node is among the crawl's results |
| TolerantCrawler.WalkHit | HebMorph/DataStructures/DictRadix.cs:97-126 | an exact hit below an edge survives tolerance branches along it |
| TolerantCrawler.ToleratedWordKeepsOnlyConsumedLetters | HebMorph/DataStructures/DictRadix.cs:111-116 | the C# as written drops the letters of the edge that matched exactly before a toleration: a tolerated branch reports only the word from earlier edges plus the consumed letters. With a trie holding "abc" and a function that tolerates `b`, the key "ac" is reported as "bc" with score 0.5, not "abc" |
| TolerantCrawler.TolerantLookupCrawler.constructor | HebMorph/DataStructures/DictRadix.cs:53-57 | the root and tolerance functions are stored |
| TolerantCrawler.TolerantLookupCrawler.LookupTolerant | HebMorph/DataStructures/DictRadix.cs:65-76 | the result is the tolerant lookup of the key |
| TolerantCrawler.TolerantLookupCrawler.LookupTolerantImpl | HebMorph/DataStructures/DictRadix.cs:78-91 | the child scan appends the crawl's results, or reports the overrun |
| TolerantCrawler.TolerantLookupCrawler.DoKeyMatching | HebMorph/DataStructures/DictRadix.cs:94-148 | edge matching appends the results of `Match`, or reports the overrun |
| TolerantCrawler.TolerantLookupCrawler.MatchAlongEdge | HebMorph/DataStructures/DictRadix.cs:97-126 | the matching loop's accumulated results and its stopping position |
| TolerantCrawler.TolerantLookupCrawler.Tolerations | HebMorph/DataStructures/DictRadix.cs:100-119 | each tolerance function is tried in order on the edge character |
| TolerantCrawler.TolerantLookupCrawler.FollowToleration | HebMorph/DataStructures/DictRadix.cs:105-117 | an accepted toleration branches with the consumed letters and the new score |
| TolerantCrawler.TolerantLookupCrawler.FinishMatching | HebMorph/DataStructures/DictRadix.cs:129-147 | after the loop: report a full match, recurse into the children, or stop |
| Lemmatization.NoCorrection | HebMorph/StreamLemmatizer.cs:193-196 | the default correction hook corrects nothing |
| Lemmatization.Redetect | HebMorph/StreamLemmatizer.cs:118-125 | the acronym flag stays only when the stripped word still holds a quote; other flags are kept |
| Lemmatization.AnalyseSkips | HebMorph/StreamLemmatizer.cs:104-111 | a token is skipped exactly when it is a Hebrew construct or acronym that is a legal prefix |
| Lemmatization.AnalyseLiteral | HebMorph/StreamLemmatizer.cs:182-185 | a non-Hebrew token yields one plain token, numeric when the tokenizer said so |
| Lemmatization.AnalyseCorrection | HebMorph/StreamLemmatizer.cs:131-137 | a non-empty correction replaces the word and is its only, custom, lemma |
| Lemmatization.AnalyseLemmatized | HebMorph/StreamLemmatizer.cs:139-180 | exact lemmas if any; otherwise the acronym token for a real acronym; otherwise the tolerant lemmas (if enabled) or nothing |
| Lemmatization.AnalyseLemmas | HebMorph/StreamLemmatizer.cs:139-180 | a Hebrew word's tokens are Hebrew tokens with a lemma and a prefix length within the word |
| Lemmatization.RunOutcome | HebMorph/StreamLemmatizer.cs:76-191 | the result is 0 exactly at the end of the stream, with no tokens; otherwise 1, for the first token not skipped; the offsets are those of the last token read |
| Lemmatization.RunLemmas | HebMorph/StreamLemmatizer.cs:139-180 | a Hebrew word returned carries well-formed lemmas |
| Lemmatization.StreamLemmatizer.constructor | HebMorph/StreamLemmatizer.cs:39-43 | a tokenizer at the start of the stream, tolerance on |
| Lemmatization.StreamLemmatizer.SetStream | HebMorph/StreamLemmatizer.cs:56-62 | the tokenizer restarts on the new stream |
| Lemmatization.StreamLemmatizer.NextToken | HebMorph/StreamLemmatizer.cs:85-87 | the next raw token, or the empty kind at the end |
| Lemmatization.StreamLemmatizer.LemmatizeNextToken | HebMorph/StreamLemmatizer.cs:76-191 | the returned position, word, tokens, tokenizer position and offsets are exactly the outcome `Run` specifies for the current state |
| Lemmatization.Appended | HebMorph/StreamLemmatizer.cs:149-150 | the lemmas are appended in order |
| Analysis.Seen | Lucene.Net.Analysis.Hebrew/Analysis/StreamLemmasFilter.cs:98-101 | every lemma of a Hebrew token already passed is recorded |
| Analysis.NextFresh | Lucene.Net.Analysis.Hebrew/Analysis/StreamLemmasFilter.cs:94-105 | the loop stops on a Hebrew token whose lemma has not been emitted yet |
| Analysis.NextFreshFirst | Lucene.Net.Analysis.Hebrew/Analysis/StreamLemmasFilter.cs:96-99 | everything the loop skips is not a Hebrew token or repeats a lemma already emitted |
| Analysis.SeenOnly | Lucene.Net.Analysis.Hebrew/Analysis/StreamLemmasFilter.cs:101 | only lemmas of passed tokens are recorded |
| Analysis.SeenNext | Lucene.Net.Analysis.Hebrew/Analysis/StreamLemmasFilter.cs:96-101 | passing one more token records its lemma, if it is a Hebrew token |
| Analysis.LemmaTerm | Lucene.Net.Analysis.Hebrew/Analysis/StreamLemmasFilter.cs:200 | the term is the lemma, or the text after the prefix when there is none |
| Analysis.RunPresentable | Lucene.Net.Analysis.Hebrew/Analysis/StreamLemmasFilter.cs:113-123 | what the lemmatizer returns is either a literal token or a list of Hebrew lemmas |
| Analysis.StreamLemmasFilter.constructor | Lucene.Net.Analysis.Hebrew/Analysis/StreamLemmasFilter.cs:74-88 | the lemmatizer is set on the stream, keeping its tolerance flag and offsets; empty stack, index 0 |
| Analysis.StreamLemmasFilter.ClearAttributes | Lucene.Net.Analysis.Hebrew/Analysis/StreamLemmasFilter.cs:108 | the attributes are reset and nothing else changes |
| Analysis.StreamLemmasFilter.CreateHebrewToken | Lucene.Net.Analysis.Hebrew/Analysis/StreamLemmasFilter.cs:198-216 | the term is the lemma (or the text after the prefix), at the same position, typed Hebrew; always true |
| Analysis.StreamLemmasFilter.LowerTerm | Lucene.Net.Analysis.Hebrew/Analysis/StreamLemmasFilter.cs:134-138 | every character of the term is lower-cased |
| Analysis.StreamLemmasFilter.IncrementToken | Lucene.Net.Analysis.Hebrew/Analysis/StreamLemmasFilter.cs:91-196 | a queued, not yet emitted lemma is emitted at the same position and recorded; otherwise the next word is read and presented as numeric, lower-cased non-Hebrew, `word$` for an unknown word, a lone lemma, or `word$` with its lemmas queued; false exactly at the end; the lemmatizer's tolerance flag is kept, and an emitted queued lemma leaves the lemmatizer untouched |
| Analysis.StreamLemmasFilter.EmitPending | Lucene.Net.Analysis.Hebrew/Analysis/StreamLemmasFilter.cs:94-105 | true exactly when a queued lemma not yet emitted exists; it is then emitted at the same position with the offsets kept and recorded as emitted; the lemmatizer is untouched |
| Analysis.StreamLemmasFilter.ReadWord | Lucene.Net.Analysis.Hebrew/Analysis/StreamLemmasFilter.cs:107-196 | the reset followed by the reading and presentation of the next word; the lemmatizer's tolerance flag is kept |
| Analysis.StreamLemmasFilter.Present | Lucene.Net.Analysis.Hebrew/Analysis/StreamLemmasFilter.cs:122-195 | the case split on what the lemmatizer returned |
| Analysis.StreamLemmasFilter.PresentLiteral | Lucene.Net.Analysis.Hebrew/Analysis/StreamLemmasFilter.cs:123-143 | numeric tokens keep their text; other non-Hebrew tokens are lower-cased; the stack is cleared |
| Analysis.StreamLemmasFilter.PresentHebrew | Lucene.Net.Analysis.Hebrew/Analysis/StreamLemmasFilter.cs:154-195 | unknown word, lone lemma, or marked word with the lemmas left queued |
| Infrastructure.PrefixesShape | Website/Infrastructure/RegisterEvents.cs:19 | sixteen prefixes of one to three letters |
| Infrastructure.LemmatizeUnknownWord | Website/Infrastructure/RegisterEvents.cs:21-34 | the hook returns the expansion with the strings of one character or less dropped |
| Infrastructure.StrippedMembers | Website/Infrastructure/RegisterEvents.cs:25 | the stripped forms are exactly the word minus each listed prefix it starts with |
| Infrastructure.BlocksCount | Website/Infrastructure/RegisterEvents.cs:28-31 | sixteen prefixed forms per base form |
| Infrastructure.BlocksLayout | Website/Infrastructure/RegisterEvents.cs:28-31 | block `i`, entry `j` is prefix `j` in front of base form `i` |
| Infrastructure.ExpansionCount | Website/Infrastructure/RegisterEvents.cs:25-31 | 17·(k+1) strings before filtering, for k matching prefixes |
| Infrastructure.ExpansionOrder | Website/Infrastructure/RegisterEvents.cs:25-31 | the stripped forms, the word, then the prefixed forms block by block; the added strings are not expanded again |
| Infrastructure.KeepMembers | Website/Infrastructure/RegisterEvents.cs:33 | the filter keeps exactly the strings longer than one character |
| Infrastructure.ResultLengths | Website/Infrastructure/RegisterEvents.cs:33 | no returned string has one character or less |
| Infrastructure.ResultHasWord | Website/Infrastructure/RegisterEvents.cs:26 | the word itself is returned when longer than one character |
| Infrastructure.ResultHasStripped | Website/Infrastructure/RegisterEvents.cs:25 | each stripped form longer than one character is returned |
| Infrastructure.ResultHasPrefixed | Website/Infrastructure/RegisterEvents.cs:28-33 | every prefix in front of every base form is returned, when the result is longer than one character |

## Left out

- `AddNode(string)`, `Lookup(string)` and the other string overloads: they convert to a character array and are covered by the array versions.
- Nodes are immutable values, and `AddNode` rebuilds the path it changes. Object identity, aliasing of shared nodes and the in-place update of `Children` arrays are not modelled. The enumerator's test `Children[i] == n` is value equality (sibling keys are distinct, so the same child is found).
- `default(T)` as "no value" is `None`. A stored value equal to `default(T)` (which C# would treat as absent) is not modelled.
- `DictRadix.AddNode`: requires a non-empty logical key. What the C# does with an empty key depends on the trie. If the root has no children yet, the leaf case (DictRadix.cs:271-285) creates a child with an empty edge, which breaks the sorted-siblings invariant. Once the root holds any key, every child matches 0 characters and the scan reaches the dead end, where `newChild.Key[0]` on the zero-length edge (DictRadix.cs:405) throws `IndexOutOfRangeException`. After an empty-edge child has been created, the next dead-end insertion at the root also throws at line 405, this time reading `cur.Children[0].Key[0]`.
- `DictRadix.AddNode`: the redundant test `key[keyPos] != '\0'` in the matching loop is folded into the logical word, since positions beyond the first NUL are never read.
- Text units. A C# `char` is a UTF-16 code unit, but a Dafny `char` is a Unicode scalar value. The two agree on text in the Basic Multilingual Plane, which holds all Hebrew letters, niqqud and punctuation. They differ for supplementary-plane characters (above U+FFFF), which C# stores as two surrogate code units. For such text the C# lengths (`Length`, the length filter at RegisterEvents.cs:33, the byte-wide bounds below), its `Substring` positions (StreamLemmasFilter.cs:170, 200) and its first-character comparisons (the sibling order at DictRadix.cs:401-405, and so the enumeration order at 462-497) are not those of the model. As an example, a single emoji is one Dafny character, so the model drops it, while C# counts two units and keeps it.
- The counter `m_nCount` is an unbounded natural, not a 32-bit `int`.
- Byte-wide cursors. The C# keeps several lookup counters in `byte`: the cursor and match length of `LookupImpl` (DictRadix.cs:184), its child index (DictRadix.cs:190), the crawler's child index (DictRadix.cs:85), the candidate's key position (DictRadix.cs:41, 48), the edge and key positions of `DoKeyMatching` (DictRadix.cs:94-96), and the `(byte)` casts of a toleration (DictRadix.cs:102-116). `AddNode` counts with `int`, so it stores keys and edges of any length, and nodes with any number of children. The model's counters are unbounded naturals, with no bound in any `requires`. Its lookup and crawl contracts therefore describe the C# only for keys and edges shorter than 256 characters, and for nodes with fewer than 256 children. Beyond those bounds the C# counters wrap to 0: a lookup can compare the wrong characters and return a wrong result, and the child loops (DictRadix.cs:85, and DictRadix.cs:217 with more than 256 children) never end. The lines below name each member this affects.
- MatchLength: `n` and `keyPos` wrap at 256 in the C#. Holds only for matches shorter than 256 characters.
- LookupImpl: the byte cursor, match length and child index wrap. Holds only within the byte-wide bounds above; beyond them the C# can return a wrong node or loop forever.
- Lookup: inherits `LookupImpl`'s byte-wide bounds.
- LookupTolerant: both `DictRadix.LookupTolerant` and `TolerantLookupCrawler.LookupTolerant` hold only within the byte-wide bounds above.
- TolerantLookup: the crawl's key and edge positions are naturals. For keys or edges of 256 characters or more, or nodes with 256 or more children, the C# wraps and can loop forever, and this function does not describe it.
- LookupTolerantImpl: with 256 or more children the C# `byte childPos` never reaches `Children.Length` (DictRadix.cs:85), so the scan never ends. The model scans every child.
- DoKeyMatching: `nodeKeyPos` and `currentKeyPos` are bytes in the C# (DictRadix.cs:94-96) and wrap on edges or keys of 256 characters or more.
- MatchAlongEdge: the same byte-wide wrap of the matching loop (DictRadix.cs:97-126) is not modelled.
- FollowToleration: the casts `(byte)tret` and `(byte)(nodeKeyPos + tret)` (DictRadix.cs:110-116) are not modelled; the new edge position is `nodeKeyPos + consumed`, unbounded.
- The crawler's scores are `real`, not `float`. The tolerance functions are parameters that must advance the key position when they consume no edge letters (`WellBehaved`); without that the C# crawl can recurse forever.
- The crawler's guard at line 110 compares the consumed length with the whole edge length, not with what is left of the edge after the current position. A branch that overruns the edge throws `ArgumentOutOfRangeException` in `new string(...)`. That exception is modelled as the `OutOfRange` outcome; the corrected guard is not modelled.
- `RadixEnumerator`: `Dispose` (empty), the non-generic `Current` (same as `Current`) and `Current` after the end of the enumeration (the C# dereferences an empty list) are not modelled. `MoveNext` works on a local copy of the path and writes it back.
- The tokenizer is a cursor over already-split raw tokens. Reading characters from a `TextReader`, Unicode classification and niqqud removal belong to the tokenizer and the base `Lemmatizer`, which are not part of this model. The end-of-stream token's text is taken as "".
- The hspell primitives (`Lemmatize`, `LemmatizeTolerant`, `IsLegalPrefix`, `TryStrippingPrefix`, `RemoveNiqqud`) and `LookupWordCorrection` are uninterpreted functions. The filter's invariant (`WellBehaved`, part of `StreamLemmasFilter.Valid`) asks that the lemmas they return are Hebrew tokens with a lemma and a prefix length within the word, since the filter would otherwise throw at StreamLemmasFilter.cs:98 and 170. The lemmatizer itself asks nothing of them.
- `LemmatizeNextToken` returns its tokens as a new sequence rather than clearing and filling the caller's list.
- `StreamLemmasFilter`: the lemma filter is taken as null (no filtering), and `CorrectOffset` as the identity. `Char.ToLower` is the `toLower` parameter. The term buffer of `SetTermText` is the `term` string. The filter's `Reset` and Lucene's attribute plumbing are not modelled.
- `RegisterEvents`: the request cache and the assignment to the static hook are not modelled. `StartsWith` is ordinal (the C# default is culture-sensitive).
- `Infrastructure.ResultHasPrefixed`: holds only when prefix plus base form is longer than one character, because shorter strings are filtered out.
