/**
 * The Lucene tokenizer stage over the stream lemmatizer: each call to `IncrementToken`
 * either emits one queued lemma of the current word (position increment 0) or reads the
 * next word and emits its surface form, marked with '$' when lemmas follow or the word
 * is unknown. The Lucene attributes are plain fields: term, position increment, type
 * and offsets.
 */
module Analysis {
  import opened Wrappers
  import opened Lemmatization

  /** The token-type signatures the filter writes; `Word` is Lucene's cleared default. */
  datatype TermType = Word | HebrewType | NumericType | NonHebrewType

  /** The lemmas of the Hebrew tokens of `ts` that carry one. */
  function Seen(ts: seq<Token>): (s: set<string>)
    ensures forall i :: 0 <= i < |ts| && ts[i].HebrewToken? && ts[i].lemmaText.Some? ==>
      ts[i].lemmaText.value in s
  {
    if |ts| == 0 then {}
    else
      var t := ts[|ts| - 1];
      Seen(ts[..|ts| - 1]) + (if t.HebrewToken? && t.lemmaText.Some? then {t.lemmaText.value} else {})
  }

  /** Every Hebrew token of the queue carries a lemma. */
  predicate Queued(ts: seq<Token>)
  {
    forall i :: 0 <= i < |ts| ==> ts[i].HebrewToken? ==> ts[i].lemmaText.Some?
  }

  /** The first queued position at or after `i` holding a Hebrew token whose lemma is not in `seen`. */
  function NextFresh(ts: seq<Token>, i: nat, seen: set<string>): (r: Option<nat>)
    ensures r.Some? ==> i <= r.value < |ts| && ts[r.value].HebrewToken? &&
                        ts[r.value].lemmaText.Some? && ts[r.value].lemmaText.value !in seen
    decreases |ts| - i
  {
    if i >= |ts| then None
    else if ts[i].HebrewToken? && ts[i].lemmaText.Some? && ts[i].lemmaText.value !in seen then Some(i)
    else NextFresh(ts, i + 1, seen)
  }

  /**
   * NextFresh finds the first fresh lemma: everything it passes over is not a Hebrew
   * token or repeats a lemma already seen; when it finds none, the rest of the queue is
   * all such entries.
   */
  lemma {:induction false} NextFreshFirst(ts: seq<Token>, i: nat, seen: set<string>)
    ensures var r := NextFresh(ts, i, seen);
      forall k :: i <= k < |ts| && (r.None? || k < r.value) ==>
        !ts[k].HebrewToken? || ts[k].lemmaText.None? || ts[k].lemmaText.value in seen
    decreases |ts| - i
  {
    if i < |ts| && !(ts[i].HebrewToken? && ts[i].lemmaText.Some? && ts[i].lemmaText.value !in seen) {
      NextFreshFirst(ts, i + 1, seen);
    }
  }

  /** Extending the emitted prefix by one entry adds at most that entry's lemma. */
  lemma SeenNext(ts: seq<Token>, i: nat)
    requires i < |ts|
    ensures Seen(ts[..i + 1]) ==
      Seen(ts[..i]) + (if ts[i].HebrewToken? && ts[i].lemmaText.Some? then {ts[i].lemmaText.value} else {})
  {
    assert ts[..i + 1][..i] == ts[..i];
  }

  /** A lemma is in Seen only if some Hebrew token of the sequence carries it. */
  lemma {:induction false} SeenOnly(ts: seq<Token>, x: string)
    requires x in Seen(ts)
    ensures exists i :: 0 <= i < |ts| && ts[i].HebrewToken? && ts[i].lemmaText == Some(x)
  {
    var t := ts[|ts| - 1];
    if x in Seen(ts[..|ts| - 1]) {
      SeenOnly(ts[..|ts| - 1], x);
      var i :| 0 <= i < |ts| - 1 && ts[..|ts| - 1][i].HebrewToken? && ts[..|ts| - 1][i].lemmaText == Some(x);
      assert ts[i] == ts[..|ts| - 1][i];
    } else {
      assert t.HebrewToken? && t.lemmaText == Some(x);
    }
  }

  /** The term written for a lemma token: the lemma, or the text without its prefix when it has none. */
  function LemmaTerm(t: Token): (r: string)
    requires t.HebrewToken?
    requires t.lemmaText.None? ==> t.prefixLength <= |t.text|
    ensures t.lemmaText.Some? ==> r == t.lemmaText.value
    ensures t.lemmaText.None? ==> t.text == t.text[..t.prefixLength] + r
  {
    match t.lemmaText
    case Some(l) => l
    case None => t.text[t.prefixLength..]
  }

  /** The single-token case that indexes the lemma alone. */
  predicate LoneLemma(word: string, ts: seq<Token>, alwaysSaveMarkedOriginal: bool)
  {
    |ts| == 1 && ts[0].HebrewToken? && ts[0].lemmaText.Some? && !alwaysSaveMarkedOriginal &&
    ts[0].prefixLength <= |word| && ts[0].lemmaText.value == word[ts[0].prefixLength..]
  }

  /** A word the lemmatizer returned as one plain token. */
  predicate Literal(ts: seq<Token>)
  {
    |ts| == 1 && !ts[0].HebrewToken?
  }

  /** What a call of the lemmatizer returns can be presented: one literal token, or usable lemmas. */
  lemma RunPresentable(p: Primitives, tolerate: bool, input: seq<RawToken>, cursor: nat,
                       start: int, end: int)
    requires WellBehaved(p) && cursor <= |input|
    ensures var c := Run(p, tolerate, input, cursor, start, end);
      c.pos == 0 ==> c.tokens == []
    ensures var c := Run(p, tolerate, input, cursor, start, end);
      c.pos != 0 ==> Literal(c.tokens) || LemmaList(c.word, c.tokens)
  {
    RunOutcome(p, tolerate, input, cursor, start, end);
    RunLemmas(p, tolerate, input, cursor, start, end);
    var c := Run(p, tolerate, input, cursor, start, end);
    if c.pos != 0 && Hebrew !in input[c.cursor - 1].kind {
      AnalyseLiteral(p, tolerate, input[c.cursor - 1]);
    }
  }

  class StreamLemmasFilter {
    const lemmatizer: StreamLemmatizer
    /** `Char.ToLower` under the current culture. */
    const toLower: char -> char
    var alwaysSaveMarkedOriginal: bool
    /** The tokens of the current word, the next one to look at, and the lemmas emitted so far. */
    var stack: seq<Token>
    var index: nat
    var previousLemmas: set<string>
    /** The token attributes. */
    var term: string
    var posIncrement: int
    var termType: TermType
    var startOffset: int
    var endOffset: int

    /** The primitives deliver well-formed lemmas, the queue is consistent, and `previousLemmas` is
        exactly the lemmas already passed over. */
    ghost predicate Valid()
      reads this, lemmatizer
    {
      lemmatizer.Valid() && WellBehaved(lemmatizer.prims) &&
      (forall i :: 0 <= i < |lemmatizer.input| ==> lemmatizer.input[i].kind != {}) &&
      index <= |stack| && Queued(stack) && previousLemmas == Seen(stack[..index])
    }

    /** The queue position the next call will emit, if any. */
    function Pending(): Option<nat>
      reads this
    {
      NextFresh(stack, index, previousLemmas)
    }

    /** The term `s` after the in-place lowercasing. */
    function Lowered(s: string): (r: string)
      ensures |r| == |s| && forall i :: 0 <= i < |s| ==> r[i] == toLower(s[i])
    {
      seq(|s|, i requires 0 <= i < |s| => toLower(s[i]))
    }

    constructor(stream: seq<RawToken>, l: StreamLemmatizer, lower: char -> char, alwaysSave: bool)
      requires l.Valid() && WellBehaved(l.prims) && forall i :: 0 <= i < |stream| ==> stream[i].kind != {}
      modifies l
      ensures Valid() && lemmatizer == l && toLower == lower
      ensures l.input == stream && l.cursor == 0
      ensures alwaysSaveMarkedOriginal == alwaysSave
      ensures stack == [] && index == 0 && previousLemmas == {}
      ensures l.tolerateWhenLemmatizingStream == old(l.tolerateWhenLemmatizingStream)
      ensures l.startOffset == old(l.startOffset) && l.endOffset == old(l.endOffset)
    {
      lemmatizer := l;
      toLower := lower;
      alwaysSaveMarkedOriginal := alwaysSave;
      stack := [];
      index := 0;
      previousLemmas := {};
      term := "";
      posIncrement := 1;
      termType := Word;
      startOffset := 0;
      endOffset := 0;
      new;
      l.SetStream(stream);
    }

    /** Resets every attribute to Lucene's defaults. */
    method ClearAttributes()
      modifies this
      ensures term == "" && posIncrement == 1 && termType == Word && startOffset == 0 && endOffset == 0
      ensures stack == old(stack) && index == old(index) && previousLemmas == old(previousLemmas)
      ensures alwaysSaveMarkedOriginal == old(alwaysSaveMarkedOriginal)
    {
      term, posIncrement, termType := "", 1, Word;
      startOffset, endOffset := 0, 0;
    }

    /** Writes a lemma token: its lemma as term, position increment 0, Hebrew type. */
    method CreateHebrewToken(t: Token) returns (created: bool)
      requires t.HebrewToken? && (t.lemmaText.None? ==> t.prefixLength <= |t.text|)
      modifies this
      ensures created
      ensures term == LemmaTerm(t) && posIncrement == 0 && termType == HebrewType
      ensures startOffset == old(startOffset) && endOffset == old(endOffset)
      ensures stack == old(stack) && index == old(index) && previousLemmas == old(previousLemmas)
      ensures alwaysSaveMarkedOriginal == old(alwaysSaveMarkedOriginal)
    {
      term := if t.lemmaText.None? then t.text[t.prefixLength..] else t.lemmaText.value;
      posIncrement := 0;
      termType := HebrewType;
      created := true;
    }

    /** Lowercases the term character by character. */
    method LowerTerm()
      modifies this
      ensures term == Lowered(old(term))
      ensures posIncrement == old(posIncrement) && termType == old(termType)
      ensures startOffset == old(startOffset) && endOffset == old(endOffset)
      ensures stack == old(stack) && index == old(index) && previousLemmas == old(previousLemmas)
      ensures alwaysSaveMarkedOriginal == old(alwaysSaveMarkedOriginal)
    {
      var buffer := term;
      for i := 0 to |buffer|
        invariant |buffer| == |term|
        invariant forall j :: 0 <= j < i ==> buffer[j] == toLower(term[j])
        invariant forall j :: i <= j < |buffer| ==> buffer[j] == term[j]
      {
        buffer := buffer[i := toLower(buffer[i])];
      }
      term := buffer;
    }

    /**
     * What reading a word leaves behind, given the lemmatizer's outcome `c`: nothing at the
     * end of the stream; the word itself for a literal token; the lone lemma when it is the
     * word minus its prefix; otherwise the word marked with '$', with its lemmas queued.
     */
    ghost predicate WordRead(c: Call, b: bool)
      reads this, lemmatizer
    {
      index == 0 && previousLemmas == {} && posIncrement == 1 &&
      lemmatizer.cursor == c.cursor &&
      lemmatizer.startOffset == c.startOffset && lemmatizer.endOffset == c.endOffset &&
      (b <==> c.pos != 0) &&
      (c.pos == 0 ==>
         stack == [] && term == "" && termType == Word && startOffset == 0 && endOffset == 0) &&
      (c.pos != 0 ==> startOffset == c.startOffset && endOffset == c.endOffset) &&
      (c.pos != 0 && Literal(c.tokens) ==>
         stack == [] &&
         (c.tokens[0].isNumeric ==> term == c.word && termType == NumericType) &&
         (!c.tokens[0].isNumeric ==> term == Lowered(c.word) && termType == NonHebrewType)) &&
      (c.pos != 0 && c.tokens == [] ==>
         stack == [] && term == c.word + "$" && termType == HebrewType) &&
      (c.pos != 0 && LoneLemma(c.word, c.tokens, alwaysSaveMarkedOriginal) ==>
         stack == [] && term == c.tokens[0].lemmaText.value && termType == HebrewType) &&
      (c.pos != 0 && c.tokens != [] && !Literal(c.tokens) &&
       !LoneLemma(c.word, c.tokens, alwaysSaveMarkedOriginal) ==>
         stack == c.tokens && term == c.word + "$" && termType == HebrewType)
    }

    /**
     * Emits the next distinct lemma queued for the current word, or else resets the state
     * and reads the next word; false exactly at the end of the stream.
     */
    method IncrementToken() returns (b: bool)
      requires Valid()
      modifies this, lemmatizer
      ensures Valid()
      ensures lemmatizer.input == old(lemmatizer.input)
      ensures alwaysSaveMarkedOriginal == old(alwaysSaveMarkedOriginal)
      ensures old(Pending()).Some? ==>
        var t := old(stack[Pending().value]);
        b && stack == old(stack) && index == old(Pending().value) + 1 &&
        t.lemmaText.value !in old(previousLemmas) &&
        previousLemmas == old(previousLemmas) + {t.lemmaText.value} &&
        term == t.lemmaText.value && posIncrement == 0 && termType == HebrewType &&
        startOffset == old(startOffset) && endOffset == old(endOffset) &&
        lemmatizer.cursor == old(lemmatizer.cursor)
      ensures old(Pending()).Some? ==> unchanged(lemmatizer)
      ensures old(Pending()).None? ==> WordRead(old(lemmatizer.Upcoming()), b)
      ensures lemmatizer.tolerateWhenLemmatizingStream == old(lemmatizer.tolerateWhenLemmatizingStream)
    {
      var found := EmitPending();
      if found {
        return true;
      }
      b := ReadWord();
    }

    /** The drain loop: emits the first queued lemma not emitted yet, if there is one. */
    method EmitPending() returns (found: bool)
      requires Valid()
      modifies this
      ensures Valid() && stack == old(stack)
      ensures alwaysSaveMarkedOriginal == old(alwaysSaveMarkedOriginal)
      ensures found <==> old(Pending()).Some?
      ensures found ==>
        var t := old(stack[Pending().value]);
        index == old(Pending().value) + 1 &&
        t.lemmaText.value !in old(previousLemmas) &&
        previousLemmas == old(previousLemmas) + {t.lemmaText.value} &&
        term == t.lemmaText.value && posIncrement == 0 && termType == HebrewType &&
        startOffset == old(startOffset) && endOffset == old(endOffset)
    {
      ghost var pending := Pending();
      NextFreshFirst(stack, index, previousLemmas);
      var i := index;
      while i < |stack|
        invariant index <= i <= |stack| && previousLemmas == old(previousLemmas)
        invariant previousLemmas == Seen(stack[..i])
        invariant pending.None? || i <= pending.value
        invariant stack == old(stack)
        invariant alwaysSaveMarkedOriginal == old(alwaysSaveMarkedOriginal)
        invariant startOffset == old(startOffset) && endOffset == old(endOffset)
        decreases |stack| - i
      {
        var res := stack[i];
        SeenNext(stack, i);
        i := i + 1;
        if !res.HebrewToken? || res.lemmaText.value in previousLemmas {
          continue;
        }
        previousLemmas := previousLemmas + {res.lemmaText.value};
        index := i;
        var created := CreateHebrewToken(res);
        if created {
          return true;
        }
      }
      index := i;
      found := false;
    }

    /** Resets the queue and the attributes, then reads and presents the next word. */
    method ReadWord() returns (b: bool)
      requires lemmatizer.Valid() && WellBehaved(lemmatizer.prims)
      requires forall i :: 0 <= i < |lemmatizer.input| ==> lemmatizer.input[i].kind != {}
      modifies this, lemmatizer
      ensures Valid()
      ensures lemmatizer.input == old(lemmatizer.input)
      ensures alwaysSaveMarkedOriginal == old(alwaysSaveMarkedOriginal)
      ensures WordRead(old(lemmatizer.Upcoming()), b)
      ensures lemmatizer.tolerateWhenLemmatizingStream == old(lemmatizer.tolerateWhenLemmatizingStream)
    {
      ghost var c := lemmatizer.Upcoming();
      RunPresentable(lemmatizer.prims, lemmatizer.tolerateWhenLemmatizingStream, lemmatizer.input,
                     lemmatizer.cursor, lemmatizer.startOffset, lemmatizer.endOffset);
      ClearAttributes();
      index := 0;
      stack := [];
      previousLemmas := {};
      var pos, word, tokens := lemmatizer.LemmatizeNextToken();
      if pos == 0 {
        return false;
      }
      startOffset, endOffset := lemmatizer.startOffset, lemmatizer.endOffset;
      Present(word, tokens);
      return true;
    }

    /** Presents a word read from the lemmatizer, with the tokens it returned. */
    method Present(word: string, tokens: seq<Token>)
      requires Literal(tokens) || LemmaList(word, tokens)
      requires posIncrement == 1
      modifies this
      ensures index == old(index) && previousLemmas == old(previousLemmas) && posIncrement == 1
      ensures Queued(stack) && (stack == [] || stack == tokens)
      ensures startOffset == old(startOffset) && endOffset == old(endOffset)
      ensures alwaysSaveMarkedOriginal == old(alwaysSaveMarkedOriginal)
      ensures Literal(tokens) ==>
        stack == [] &&
        (tokens[0].isNumeric ==> term == word && termType == NumericType) &&
        (!tokens[0].isNumeric ==> term == Lowered(word) && termType == NonHebrewType)
      ensures tokens == [] ==> stack == [] && term == word + "$" && termType == HebrewType
      ensures LoneLemma(word, tokens, alwaysSaveMarkedOriginal) ==>
        stack == [] && term == tokens[0].lemmaText.value && termType == HebrewType
      ensures tokens != [] && !Literal(tokens) && !LoneLemma(word, tokens, alwaysSaveMarkedOriginal) ==>
        stack == tokens && term == word + "$" && termType == HebrewType
    {
      stack := tokens;
      if |stack| == 1 && !stack[0].HebrewToken? {
        PresentLiteral(word);
        return;
      }
      PresentHebrew(word);
    }

    /** A non-Hebrew word: its text (lowercased unless numeric) with the matching type; nothing stays queued. */
    method PresentLiteral(word: string)
      requires Literal(stack)
      modifies this
      ensures stack == [] && index == old(index) && previousLemmas == old(previousLemmas)
      ensures posIncrement == old(posIncrement)
      ensures startOffset == old(startOffset) && endOffset == old(endOffset)
      ensures alwaysSaveMarkedOriginal == old(alwaysSaveMarkedOriginal)
      ensures old(stack[0].isNumeric) ==> term == word && termType == NumericType
      ensures !old(stack[0].isNumeric) ==> term == Lowered(word) && termType == NonHebrewType
    {
      term := word;
      if stack[0].isNumeric {
        termType := NumericType;
      } else {
        termType := NonHebrewType;
        LowerTerm();
      }
      stack := [];
    }

    /**
     * A Hebrew word: unknown words and words with several lemmas or a marked original
     * present `word + "$"` (the lemmas stay queued); a lone lemma equal to the word minus
     * its prefix is presented alone with position increment 1.
     */
    method PresentHebrew(word: string)
      requires LemmaList(word, stack) && !Literal(stack) && posIncrement == 1
      modifies this
      ensures index == old(index) && previousLemmas == old(previousLemmas) && posIncrement == 1
      ensures startOffset == old(startOffset) && endOffset == old(endOffset)
      ensures alwaysSaveMarkedOriginal == old(alwaysSaveMarkedOriginal)
      ensures termType == HebrewType
      ensures old(stack) == [] ==> stack == [] && term == word + "$"
      ensures LoneLemma(word, old(stack), alwaysSaveMarkedOriginal) ==>
        stack == [] && term == old(stack[0].lemmaText.value)
      ensures old(stack) != [] && !LoneLemma(word, old(stack), alwaysSaveMarkedOriginal) ==>
        stack == old(stack) && term == word + "$"
    {
      if |stack| == 0 {
        term := word + "$";
        termType := HebrewType;
        return;
      }
      if |stack| == 1 {
        var hebToken := stack[0];
        if !alwaysSaveMarkedOriginal && hebToken.lemmaText.value == word[hebToken.prefixLength..] {
          var _ := CreateHebrewToken(hebToken);
          posIncrement := 1;
          stack := [];
          return;
        } else {
          term := word + "$";
        }
      } else {
        term := word + "$";
      }
      termType := HebrewType;
    }
  }
}
