/**
 * The word expansion the site registers for unknown words: strip each listed Hebrew
 * prefix the word starts with, keep the word itself, prepend every listed prefix to each
 * of these base forms, and drop the strings of one character or less.
 */
module Infrastructure {

  /** The prefixes, in list order: ב, מה, שה, ל, מ, ו, וה, ושה, כשה, וב, ומה, ול, ומ, כש, כשב, ש. */
  const Prefixes: seq<string> := [
    "\U{05D1}", "\U{05DE}\U{05D4}", "\U{05E9}\U{05D4}", "\U{05DC}", "\U{05DE}", "\U{05D5}",
    "\U{05D5}\U{05D4}", "\U{05D5}\U{05E9}\U{05D4}", "\U{05DB}\U{05E9}\U{05D4}",
    "\U{05D5}\U{05D1}", "\U{05D5}\U{05DE}\U{05D4}", "\U{05D5}\U{05DC}", "\U{05D5}\U{05DE}",
    "\U{05DB}\U{05E9}", "\U{05DB}\U{05E9}\U{05D1}", "\U{05E9}"]

  /** Sixteen prefixes, none of them empty. */
  lemma PrefixesShape()
    ensures |Prefixes| == 16
    ensures forall i :: 0 <= i < |Prefixes| ==> 1 <= |Prefixes[i]| <= 3
  {
  }

  /** The word without each prefix of `ps` it starts with (ordinal comparison), in `ps` order. */
  function Stripped(ps: seq<string>, word: string): (r: seq<string>)
    ensures |r| <= |ps|
  {
    if |ps| == 0 then []
    else
      var rest := Stripped(ps[..|ps| - 1], word);
      var p := ps[|ps| - 1];
      if p <= word then rest + [word[|p|..]] else rest
  }

  /** Every prefix of `ps` put in front of `w`, in `ps` order. */
  function Prefixed(ps: seq<string>, w: string): (r: seq<string>)
    ensures |r| == |ps|
    ensures forall j :: 0 <= j < |ps| ==> r[j] == ps[j] + w
  {
    if |ps| == 0 then [] else Prefixed(ps[..|ps| - 1], w) + [ps[|ps| - 1] + w]
  }

  /** The prefixed forms of each base form, one block of sixteen per base form, in order. */
  function Blocks(bases: seq<string>): seq<string>
  {
    if |bases| == 0 then [] else Blocks(bases[..|bases| - 1]) + Prefixed(Prefixes, bases[|bases| - 1])
  }

  /** The strings longer than one character, in order. */
  function Keep(ws: seq<string>): seq<string>
  {
    if |ws| == 0 then [] else Keep(ws[..|ws| - 1]) + (if |ws[|ws| - 1]| > 1 then [ws[|ws| - 1]] else [])
  }

  /** The base forms: the stripped forms, then the word. */
  function Bases(word: string): seq<string>
  {
    Stripped(Prefixes, word) + [word]
  }

  /** Every string before filtering, in the order the list is built. */
  function Expansion(word: string): seq<string>
  {
    Bases(word) + Blocks(Bases(word))
  }

  /** The expansion of an unknown word. */
  method LemmatizeUnknownWord(word: string) returns (r: seq<string>)
    ensures r == Keep(Expansion(word))
  {
    var words := Stripped(Prefixes, word);
    words := words + [word];
    var snapshot := words;
    for i := 0 to |snapshot|
      invariant words == snapshot + Blocks(snapshot[..i])
    {
      assert snapshot[..i + 1][..i] == snapshot[..i];
      words := words + Prefixed(Prefixes, snapshot[i]);
    }
    assert snapshot[..|snapshot|] == snapshot;
    r := Keep(words);
  }

  /** A stripped form is exactly the word minus a listed prefix it starts with. */
  lemma {:induction false} StrippedMembers(ps: seq<string>, word: string, x: string)
    ensures x in Stripped(ps, word) <==>
      exists i :: 0 <= i < |ps| && ps[i] <= word && x == word[|ps[i]|..]
  {
    if |ps| > 0 {
      var ps' := ps[..|ps| - 1];
      StrippedMembers(ps', word, x);
      if x in Stripped(ps', word) {
        var i :| 0 <= i < |ps'| && ps'[i] <= word && x == word[|ps'[i]|..];
        assert ps[i] == ps'[i];
      }
      if exists i :: 0 <= i < |ps| && ps[i] <= word && x == word[|ps[i]|..] {
        var i :| 0 <= i < |ps| && ps[i] <= word && x == word[|ps[i]|..];
        if i < |ps| - 1 {
          assert ps'[i] == ps[i];
        }
      }
    }
  }

  /** Sixteen forms per base form, no deduplication. */
  lemma {:induction false} BlocksCount(bases: seq<string>)
    ensures |Blocks(bases)| == 16 * |bases|
  {
    if |bases| > 0 {
      BlocksCount(bases[..|bases| - 1]);
    }
  }

  /** Block `i` holds the sixteen prefixes, in list order, in front of base form `i`. */
  lemma {:induction false} BlocksLayout(bases: seq<string>, i: nat, j: nat)
    requires i < |bases| && j < 16
    ensures |Blocks(bases)| == 16 * |bases|
    ensures Blocks(bases)[16 * i + j] == Prefixes[j] + bases[i]
  {
    BlocksCount(bases);
    var init := bases[..|bases| - 1];
    BlocksCount(init);
    if i < |bases| - 1 {
      BlocksLayout(init, i, j);
      assert init[i] == bases[i];
    }
  }

  /** Before filtering there are 17·(k+1) strings, k being the number of matching prefixes. */
  lemma ExpansionCount(word: string)
    ensures |Expansion(word)| == 17 * (|Stripped(Prefixes, word)| + 1)
  {
    BlocksCount(Bases(word));
  }

  /**
   * The order of the list before filtering: the stripped forms, then the word, then for
   * each base form in that order its sixteen prefixed forms in list order; the prefixed
   * forms are never expanded again.
   */
  lemma ExpansionOrder(word: string, i: nat, j: nat)
    requires i < |Bases(word)| && j < 16
    ensures var e := Expansion(word); var b := Bases(word);
      e[..|b|] == b && b[|b| - 1] == word &&
      |e| == |b| + 16 * |b| && e[|b| + 16 * i + j] == Prefixes[j] + b[i]
  {
    BlocksLayout(Bases(word), i, j);
  }

  /** The strings kept are exactly those longer than one character, in order. */
  lemma {:induction false} KeepMembers(ws: seq<string>, x: string)
    ensures x in Keep(ws) <==> x in ws && |x| > 1
  {
    if |ws| > 0 {
      KeepMembers(ws[..|ws| - 1], x);
      assert ws == ws[..|ws| - 1] + [ws[|ws| - 1]];
    }
  }

  /** Every string returned is longer than one character. */
  lemma ResultLengths(word: string, x: string)
    requires x in Keep(Expansion(word))
    ensures |x| > 1
  {
    KeepMembers(Expansion(word), x);
  }

  /** The word itself is returned whenever it is longer than one character. */
  lemma ResultHasWord(word: string)
    requires |word| > 1
    ensures word in Keep(Expansion(word))
  {
    assert Expansion(word)[|Bases(word)| - 1] == word;
    KeepMembers(Expansion(word), word);
  }

  /** The word minus each listed prefix it starts with is returned when longer than one character. */
  lemma ResultHasStripped(word: string, i: nat)
    requires i < |Prefixes| && Prefixes[i] <= word && |word| - |Prefixes[i]| > 1
    ensures word[|Prefixes[i]|..] in Keep(Expansion(word))
  {
    var x := word[|Prefixes[i]|..];
    StrippedMembers(Prefixes, word, x);
    assert x in Bases(word);
    KeepMembers(Expansion(word), x);
  }

  /** Every listed prefix in front of every base form is returned when longer than one character. */
  lemma ResultHasPrefixed(word: string, i: nat, j: nat)
    requires i < |Bases(word)| && j < |Prefixes|
    requires |Prefixes[j] + Bases(word)[i]| > 1
    ensures Prefixes[j] + Bases(word)[i] in Keep(Expansion(word))
  {
    PrefixesShape();
    ExpansionOrder(word, i, j);
    KeepMembers(Expansion(word), Prefixes[j] + Bases(word)[i]);
  }
}
