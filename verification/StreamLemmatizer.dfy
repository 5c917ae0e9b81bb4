/**
 * The stream lemmatizer: pulls typed tokens from a tokenizer and turns each word into
 * a list of tokens (lemmas for Hebrew words, the literal text otherwise).
 *
 * The tokenizer is a cursor over a sequence of raw tokens; the morphological
 * primitives of the Lemmatizer base class and the word-correction hook are
 * uninterpreted functions gathered in `Primitives`.
 */
module Lemmatization {
  import opened Wrappers

  /** The flags of a tokenizer token type (a C# [Flags] enum; 0 means end of stream). */
  datatype Flag = Hebrew | NonHebrew | Numeric | Mixed | Construct | Acronym

  /** One token as the tokenizer reports it: its type, its text and where it lies in the input. */
  datatype RawToken = RawToken(kind: set<Flag>, text: string, offset: int, lengthInSource: nat)

  /** Morphological masks; only the two synthetic masks the lemmatizer creates are named. */
  datatype DMask = DCustom | DAcronym | Morph(bits: nat)

  /** `Token` and its subclass `HebrewToken`; a null lemma is `None`. */
  datatype Token =
    | Token(text: string, isNumeric: bool)
    | HebrewToken(text: string, prefixLength: nat, mask: DMask, lemmaText: Option<string>, score: real)

  /**
   * The lemmatizer primitives the stream lemmatizer relies on. `lookupWordCorrection`
   * is the overridable hook; `None` stands for a null result.
   */
  datatype Primitives = Primitives(
    removeNiqqud: string -> string,
    isLegalPrefix: string -> bool,
    tryStrippingPrefix: string -> string,
    lookupWordCorrection: string -> Option<string>,
    lemmatize: string -> seq<Token>,
    lemmatizeTolerant: string -> seq<Token>)

  /** The hook's default: no correction for any word. */
  function NoCorrection(word: string): (r: Option<string>)
    ensures r.None?
  {
    None
  }

  /** A token built from a corrected word or an unknown acronym: prefix 0, lemma = text, score 1. */
  function Synthetic(word: string, mask: DMask): Token
  {
    HebrewToken(word, 0, mask, Some(word), 1.0)
  }

  /** A lemma list usable by the stream: Hebrew tokens that carry a lemma and a prefix inside the word. */
  predicate LemmaList(word: string, ts: seq<Token>)
  {
    forall i :: 0 <= i < |ts| ==>
      ts[i].HebrewToken? && ts[i].lemmaText.Some? && ts[i].prefixLength <= |word|
  }

  /** What the primitives must deliver for the filter downstream not to dereference null. */
  ghost predicate WellBehaved(p: Primitives)
  {
    (forall w :: LemmaList(w, p.lemmatize(w))) &&
    (forall w :: LemmaList(w, p.lemmatizeTolerant(w)))
  }

  /** What one token leads to: it is skipped as a lone prefix, or it ends the call. */
  datatype Verdict = Skip | Emit(word: string, tokens: seq<Token>)

  /** The acronym flag after prefix stripping: kept only if the stripped text still has a '"'. */
  function Redetect(kind: set<Flag>, stripped: string): (k: set<Flag>)
    ensures Acronym in k <==> Acronym in kind && '"' in stripped
    ensures k - {Acronym} == kind - {Acronym}
  {
    if '"' in stripped then kind else kind - {Acronym}
  }

  /** The decision for one non-end-of-stream token. */
  function Analyse(p: Primitives, tolerate: bool, t: RawToken): Verdict
  {
    if Hebrew in t.kind then
      var w := p.removeNiqqud(t.text);
      if (Construct in t.kind || Acronym in t.kind) && p.isLegalPrefix(w) then Skip
      else
        var word := if Acronym in t.kind then p.tryStrippingPrefix(w) else w;
        var kind := if Acronym in t.kind then Redetect(t.kind, word) else t.kind;
        var corrected := p.lookupWordCorrection(word);
        if corrected.Some? && corrected.value != "" then
          Emit(corrected.value, [Synthetic(corrected.value, DCustom)])
        else
          var lemmas := p.lemmatize(word);
          if |lemmas| == 0 && Acronym in kind then Emit(word, [Synthetic(word, DAcronym)])
          else if tolerate && |lemmas| == 0 then Emit(word, p.lemmatizeTolerant(word))
          else Emit(word, lemmas)
    else if Numeric in t.kind then Emit(t.text, [Token(t.text, true)])
    else Emit(t.text, [Token(t.text, false)])
  }

  /** The outcome of one `LemmatizeNextToken` call and the tokenizer/offset state it leaves. */
  datatype Call = Call(pos: int, word: string, tokens: seq<Token>,
                       cursor: nat, startOffset: int, endOffset: int)

  /** `LemmatizeNextToken` as a function of the remaining input and the offsets. */
  function Run(p: Primitives, tolerate: bool, input: seq<RawToken>, cursor: nat,
               start: int, end: int): Call
    decreases |input| - cursor
  {
    if cursor >= |input| then Call(0, "", [], cursor, start, end)
    else
      var t := input[cursor];
      match Analyse(p, tolerate, t)
      case Skip => Run(p, tolerate, input, cursor + 1, t.offset, t.offset + t.lengthInSource)
      case Emit(w, ts) => Call(1, w, ts, cursor + 1, t.offset, t.offset + t.lengthInSource)
  }

  /** Every token Analyse emits for a Hebrew word carries a lemma whose prefix lies inside the word. */
  lemma AnalyseLemmas(p: Primitives, tolerate: bool, t: RawToken)
    requires WellBehaved(p)
    requires Hebrew in t.kind && Analyse(p, tolerate, t).Emit?
    ensures LemmaList(Analyse(p, tolerate, t).word, Analyse(p, tolerate, t).tokens)
  {
    var w := p.removeNiqqud(t.text);
    var word := if Acronym in t.kind then p.tryStrippingPrefix(w) else w;
    assert LemmaList(word, p.lemmatize(word));
    assert LemmaList(word, p.lemmatizeTolerant(word));
  }

  /** A non-Hebrew token yields exactly one plain token with its text, flagged numeric iff Numeric. */
  lemma AnalyseLiteral(p: Primitives, tolerate: bool, t: RawToken)
    requires Hebrew !in t.kind
    ensures Analyse(p, tolerate, t) == Emit(t.text, [Token(t.text, Numeric in t.kind)])
  {
  }

  /** A Construct or Acronym Hebrew token whose stripped text is a legal prefix is skipped, and only those. */
  lemma AnalyseSkips(p: Primitives, tolerate: bool, t: RawToken)
    ensures Analyse(p, tolerate, t).Skip? <==>
      Hebrew in t.kind && (Construct in t.kind || Acronym in t.kind) &&
      p.isLegalPrefix(p.removeNiqqud(t.text))
  {
  }

  /**
   * A non-empty correction yields exactly one D_CUSTOM token with score 1 and becomes the
   * word; no lemmatization is consulted.
   */
  lemma AnalyseCorrection(p: Primitives, tolerate: bool, t: RawToken, word: string, c: string)
    requires Hebrew in t.kind && Analyse(p, tolerate, t).Emit?
    requires word == (if Acronym in t.kind then p.tryStrippingPrefix(p.removeNiqqud(t.text))
                      else p.removeNiqqud(t.text))
    requires p.lookupWordCorrection(word) == Some(c) && c != ""
    ensures Analyse(p, tolerate, t) == Emit(c, [HebrewToken(c, 0, DCustom, Some(c), 1.0)])
  {
  }

  /**
   * Without a correction, a Hebrew word with exact lemmas yields all of them in order and
   * tolerant lookup is not consulted; an acronym (after re-detection) without lemmas yields
   * one D_ACRONYM token; otherwise tolerant lemmas are taken iff tolerance is on, and an
   * unknown word may yield no token at all.
   */
  lemma AnalyseLemmatized(p: Primitives, tolerate: bool, t: RawToken, word: string)
    requires Hebrew in t.kind && Analyse(p, tolerate, t).Emit?
    requires word == (if Acronym in t.kind then p.tryStrippingPrefix(p.removeNiqqud(t.text))
                      else p.removeNiqqud(t.text))
    requires p.lookupWordCorrection(word).None? || p.lookupWordCorrection(word) == Some("")
    ensures Analyse(p, tolerate, t).word == word
    ensures |p.lemmatize(word)| > 0 ==> Analyse(p, tolerate, t).tokens == p.lemmatize(word)
    ensures |p.lemmatize(word)| == 0 && Acronym in t.kind && '"' in word ==>
      Analyse(p, tolerate, t).tokens == [HebrewToken(word, 0, DAcronym, Some(word), 1.0)]
    ensures |p.lemmatize(word)| == 0 && !(Acronym in t.kind && '"' in word) ==>
      Analyse(p, tolerate, t).tokens == (if tolerate then p.lemmatizeTolerant(word) else [])
  {
  }

  /**
   * The result of a call: 0 exactly when the input ran out, with no tokens; otherwise 1,
   * the verdict of the token just read, every token in between being a skipped prefix;
   * the offsets are those of the last token read.
   */
  lemma {:induction false} RunOutcome(p: Primitives, tolerate: bool, input: seq<RawToken>,
                                      cursor: nat, start: int, end: int)
    requires cursor <= |input|
    decreases |input| - cursor
    ensures var c := Run(p, tolerate, input, cursor, start, end);
      cursor <= c.cursor <= |input| &&
      (forall i :: cursor <= i < c.cursor - 1 ==> Analyse(p, tolerate, input[i]).Skip?) &&
      (c.pos == 0 || c.pos == 1) &&
      (c.pos == 1 ==> c.cursor > cursor) &&
      (c.pos == 0 <==> c.cursor == |input| && (c.cursor == cursor || Analyse(p, tolerate, input[c.cursor - 1]).Skip?)) &&
      (c.pos == 0 ==> c.tokens == [] && c.word == "") &&
      (c.pos == 1 ==> Analyse(p, tolerate, input[c.cursor - 1]) == Emit(c.word, c.tokens)) &&
      (c.cursor > cursor ==> c.startOffset == input[c.cursor - 1].offset &&
                             c.endOffset == c.startOffset + input[c.cursor - 1].lengthInSource) &&
      (c.cursor == cursor ==> c.startOffset == start && c.endOffset == end)
  {
    if cursor < |input| {
      var t := input[cursor];
      if Analyse(p, tolerate, t).Skip? {
        RunOutcome(p, tolerate, input, cursor + 1, t.offset, t.offset + t.lengthInSource);
      }
    }
  }

  /** A Hebrew word emitted by a call carries only usable lemmas. */
  lemma RunLemmas(p: Primitives, tolerate: bool, input: seq<RawToken>, cursor: nat, start: int, end: int)
    requires WellBehaved(p) && cursor <= |input|
    ensures var c := Run(p, tolerate, input, cursor, start, end);
      c.pos == 1 && 0 < c.cursor <= |input| && Hebrew in input[c.cursor - 1].kind ==>
        LemmaList(c.word, c.tokens)
  {
    RunOutcome(p, tolerate, input, cursor, start, end);
    var c := Run(p, tolerate, input, cursor, start, end);
    if c.pos == 1 && Hebrew in input[c.cursor - 1].kind {
      AnalyseLemmas(p, tolerate, input[c.cursor - 1]);
    }
  }

  /** The stream lemmatizer with its tokenizer cursor and the offsets of the last token read. */
  class StreamLemmatizer {
    const prims: Primitives
    var tolerateWhenLemmatizingStream: bool
    /** The tokenizer: the tokens of the current stream and the position of the next one. */
    var input: seq<RawToken>
    var cursor: nat
    var startOffset: int
    var endOffset: int

    ghost predicate Valid()
      reads this
    {
      cursor <= |input|
    }

    /** What the next `LemmatizeNextToken` call will produce. */
    function Upcoming(): Call
      reads this
    {
      Run(prims, tolerateWhenLemmatizingStream, input, cursor, startOffset, endOffset)
    }

    constructor(p: Primitives, stream: seq<RawToken>)
      ensures Valid() && prims == p && input == stream && cursor == 0
      ensures tolerateWhenLemmatizingStream
      ensures startOffset == 0 && endOffset == 0
    {
      prims := p;
      tolerateWhenLemmatizingStream := true;
      input := stream;
      cursor := 0;
      startOffset := 0;
      endOffset := 0;
    }

    /** Points the tokenizer at a new stream. */
    method SetStream(stream: seq<RawToken>)
      requires Valid()
      modifies this
      ensures Valid() && input == stream && cursor == 0
      ensures tolerateWhenLemmatizingStream == old(tolerateWhenLemmatizingStream)
      ensures startOffset == old(startOffset) && endOffset == old(endOffset)
    {
      input := stream;
      cursor := 0;
    }

    /** The tokenizer's next token, or an empty type at the end of the stream. */
    method NextToken() returns (kind: set<Flag>, text: string)
      requires Valid()
      modifies this
      ensures Valid() && input == old(input)
      ensures old(cursor) < |input| ==> cursor == old(cursor) + 1 && kind == input[old(cursor)].kind &&
                                        text == input[old(cursor)].text
      ensures old(cursor) == |input| ==> cursor == old(cursor) && kind == {} && text == ""
      ensures tolerateWhenLemmatizingStream == old(tolerateWhenLemmatizingStream)
      ensures startOffset == old(startOffset) && endOffset == old(endOffset)
    {
      if cursor < |input| {
        kind, text := input[cursor].kind, input[cursor].text;
        cursor := cursor + 1;
      } else {
        kind, text := {}, "";
      }
    }

    /**
     * Reads tokens until one yields a word: returns 1 with the word and its tokens, or 0 at
     * the end of the stream. Lone prefixes are skipped without emitting anything.
     */
    method LemmatizeNextToken() returns (pos: int, nextToken: string, retTokens: seq<Token>)
      requires Valid()
      requires forall i :: 0 <= i < |input| ==> input[i].kind != {}
      modifies this
      ensures Valid() && input == old(input)
      ensures tolerateWhenLemmatizingStream == old(tolerateWhenLemmatizingStream)
      ensures Call(pos, nextToken, retTokens, cursor, startOffset, endOffset) == old(Upcoming())
    {
      retTokens := [];
      var currentPos := 0;
      while true
        invariant Valid() && input == old(input)
        invariant tolerateWhenLemmatizingStream == old(tolerateWhenLemmatizingStream)
        invariant currentPos == 0 && retTokens == []
        invariant Upcoming() == old(Upcoming())
        decreases |input| - cursor
      {
        var kind;
        kind, nextToken := NextToken();
        if kind == {} {
          return 0, nextToken, retTokens;
        }
        startOffset := input[cursor - 1].offset;
        endOffset := startOffset + input[cursor - 1].lengthInSource;
        currentPos := currentPos + 1;
        if Hebrew in kind {
          nextToken := prims.removeNiqqud(nextToken);
          if Construct in kind || Acronym in kind {
            if prims.isLegalPrefix(nextToken) {
              currentPos := currentPos - 1;
              continue;
            }
          }
          if Acronym in kind {
            nextToken := prims.tryStrippingPrefix(nextToken);
            if '"' !in nextToken {
              kind := kind - {Acronym};
            }
          }
          var correctedWord := prims.lookupWordCorrection(nextToken);
          if correctedWord.Some? && correctedWord.value != "" {
            retTokens := retTokens + [Synthetic(correctedWord.value, DCustom)];
            nextToken := correctedWord.value;
            break;
          }
          var lemmas := prims.lemmatize(nextToken);
          if |lemmas| > 0 {
            retTokens := Appended(retTokens, lemmas);
          }
          if |retTokens| == 0 && Acronym in kind {
            retTokens := retTokens + [Synthetic(nextToken, DAcronym)];
          } else if tolerateWhenLemmatizingStream && |retTokens| == 0 {
            lemmas := prims.lemmatizeTolerant(nextToken);
            if |lemmas| > 0 {
              retTokens := Appended(retTokens, lemmas);
            }
          }
        } else if Numeric in kind {
          retTokens := retTokens + [Token(nextToken, true)];
        } else {
          retTokens := retTokens + [Token(nextToken, false)];
        }
        break;
      }
      return currentPos, nextToken, retTokens;
    }
  }

  /** Adds every element of `more` at the end of `list`, in order. */
  method Appended(list: seq<Token>, more: seq<Token>) returns (r: seq<Token>)
    ensures r == list + more
  {
    r := list;
    for i := 0 to |more|
      invariant r == list + more[..i]
    {
      r := r + [more[i]];
    }
  }
}
