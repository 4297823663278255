/** Absolute ordinals of sentences and words in reading order (`getSentencePositionAbs`,
    `getWordPositionAbs`), and the order facts that relate them to positions. */
module Ordinals {
  import D = DocumentModel
  import opened Positions

  /** Number of sentences in the paragraphs before paragraph `p`. */
  function SentencesBefore(doc: D.Document, p: int): nat
    requires p <= |doc|
    decreases p
  {
    if p <= 0 then 0 else SentencesBefore(doc, p - 1) + |doc[p - 1]|
  }

  /** Number of words in the first `s` sentences of a paragraph. */
  function WordsInSentences(par: D.Paragraph, s: int): nat
    requires s <= |par|
    decreases s
  {
    if s <= 0 then 0 else WordsInSentences(par, s - 1) + |par[s - 1]|
  }

  /** Number of words in the paragraphs before paragraph `p`. */
  function WordsBefore(doc: D.Document, p: int): nat
    requires p <= |doc|
    decreases p
  {
    if p <= 0 then 0 else WordsBefore(doc, p - 1) + WordsInSentences(doc[p - 1], |doc[p - 1]|)
  }

  function TotalSentences(doc: D.Document): nat {
    SentencesBefore(doc, |doc|)
  }

  function TotalWords(doc: D.Document): nat {
    WordsBefore(doc, |doc|)
  }

  /** `getSentencePositionAbs`: the number of sentences before `pos` in reading order. */
  function SentenceAbs(doc: D.Document, pos: SentPos): (r: int)
    requires pos.paragraph <= |doc|
    ensures r >= pos.sentence
    ensures pos.paragraph <= 0 ==> r == pos.sentence
  {
    SentencesBefore(doc, pos.paragraph) + pos.sentence
  }

  /** `getWordPositionAbs`: the number of words before `pos` in reading order. */
  function WordAbs(doc: D.Document, pos: WordPos): (r: int)
    requires 0 <= pos.paragraph < |doc| && pos.sentence <= |doc[pos.paragraph]|
    ensures r >= pos.word
    ensures pos.paragraph == 0 && pos.sentence <= 0 ==> r == pos.word
  {
    WordsBefore(doc, pos.paragraph) + WordsInSentences(doc[pos.paragraph], pos.sentence) + pos.word
  }

  /** Reading order on sentence positions. */
  predicate SentBefore(a: SentPos, b: SentPos) {
    a.paragraph < b.paragraph || (a.paragraph == b.paragraph && a.sentence < b.sentence)
  }

  /** Reading order on word positions. */
  predicate WordBefore(a: WordPos, b: WordPos) {
    || a.paragraph < b.paragraph
    || (a.paragraph == b.paragraph && a.sentence < b.sentence)
    || (a.paragraph == b.paragraph && a.sentence == b.sentence && a.word < b.word)
  }

  lemma {:induction false} SentencesBeforeGrows(doc: D.Document, p: int, q: int)
    requires 0 <= p < q <= |doc|
    ensures SentencesBefore(doc, p) + |doc[p]| <= SentencesBefore(doc, q)
    decreases q
  {
    if q > p + 1 {
      SentencesBeforeGrows(doc, p, q - 1);
    }
  }

  lemma {:induction false} WordsInSentencesGrows(par: D.Paragraph, s: int, t: int)
    requires 0 <= s < t <= |par|
    ensures WordsInSentences(par, s) + |par[s]| <= WordsInSentences(par, t)
    decreases t
  {
    if t > s + 1 {
      WordsInSentencesGrows(par, s, t - 1);
    }
  }

  lemma {:induction false} WordsBeforeGrows(doc: D.Document, p: int, q: int)
    requires 0 <= p < q <= |doc|
    ensures WordsBefore(doc, p) + WordsInSentences(doc[p], |doc[p]|) <= WordsBefore(doc, q)
    decreases q
  {
    if q > p + 1 {
      WordsBeforeGrows(doc, p, q - 1);
    }
  }

  /** A sentence's ordinal is below the document's sentence count. */
  lemma SentenceAbsBound(doc: D.Document, a: SentPos)
    requires ValidSent(doc, a)
    ensures 0 <= SentenceAbs(doc, a) < TotalSentences(doc)
  {
    SentencesBeforeGrows(doc, a.paragraph, |doc|);
  }

  /** A word's ordinal is below the document's word count. */
  lemma WordAbsBound(doc: D.Document, a: WordPos)
    requires ValidWord(doc, a)
    ensures 0 <= WordAbs(doc, a) < TotalWords(doc)
  {
    var par := doc[a.paragraph];
    WordsInSentencesGrows(par, a.sentence, |par|);
    WordsBeforeGrows(doc, a.paragraph, |doc|);
  }

  lemma SentenceAbsStrict(doc: D.Document, a: SentPos, b: SentPos)
    requires ValidSent(doc, a) && ValidSent(doc, b) && SentBefore(a, b)
    ensures SentenceAbs(doc, a) < SentenceAbs(doc, b)
  {
    if a.paragraph < b.paragraph {
      SentencesBeforeGrows(doc, a.paragraph, b.paragraph);
    }
  }

  lemma WordAbsStrict(doc: D.Document, a: WordPos, b: WordPos)
    requires ValidWord(doc, a) && ValidWord(doc, b) && WordBefore(a, b)
    ensures WordAbs(doc, a) < WordAbs(doc, b)
  {
    if a.paragraph < b.paragraph {
      var par := doc[a.paragraph];
      WordsInSentencesGrows(par, a.sentence, |par|);
      WordsBeforeGrows(doc, a.paragraph, b.paragraph);
    } else if a.sentence < b.sentence {
      WordsInSentencesGrows(doc[a.paragraph], a.sentence, b.sentence);
    }
  }

  /** On valid sentence positions the ordinal is an order isomorphism onto `[0, TotalSentences)`. */
  lemma SentenceAbsOrder(doc: D.Document, a: SentPos, b: SentPos)
    requires ValidSent(doc, a) && ValidSent(doc, b)
    ensures SentenceAbs(doc, a) < SentenceAbs(doc, b) <==> SentBefore(a, b)
    ensures SentenceAbs(doc, a) == SentenceAbs(doc, b) <==> a == b
  {
    if SentBefore(a, b) {
      SentenceAbsStrict(doc, a, b);
    } else if SentBefore(b, a) {
      SentenceAbsStrict(doc, b, a);
    }
  }

  /** On valid word positions the ordinal is an order isomorphism onto `[0, TotalWords)`. */
  lemma WordAbsOrder(doc: D.Document, a: WordPos, b: WordPos)
    requires ValidWord(doc, a) && ValidWord(doc, b)
    ensures WordAbs(doc, a) < WordAbs(doc, b) <==> WordBefore(a, b)
    ensures WordAbs(doc, a) == WordAbs(doc, b) <==> a == b
  {
    if WordBefore(a, b) {
      WordAbsStrict(doc, a, b);
    } else if WordBefore(b, a) {
      WordAbsStrict(doc, b, a);
    }
  }
}
