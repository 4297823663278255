/** The punctuation jumps behind alt+arrow: `getNextPunctuationPosition` and
    `getPrevPunctuationPosition`, with the recursive searches they are built on. */
module Punctuation {
  import opened Options
  import D = DocumentModel
  import opened Positions
  import opened Ordinals
  import opened WordNav

  /** The characters of `\s` in an ECMAScript regular expression (white space and line terminators). */
  predicate IsWhitespace(c: char) {
    || c == ' ' || c == '\t' || c == '\n' || c == '\U{000B}' || c == '\U{000C}' || c == '\r'
    || c == '\U{00A0}' || c == '\U{1680}' || ('\U{2000}' <= c <= '\U{200A}')
    || c == '\U{2028}' || c == '\U{2029}' || c == '\U{202F}' || c == '\U{205F}' || c == '\U{3000}'
    || c == '\U{FEFF}'
  }

  /** One character of the class `[\s;:.,"]`. */
  predicate IsPunctuationChar(c: char) {
    IsWhitespace(c) || c == ';' || c == ':' || c == '.' || c == ',' || c == '"'
  }

  /** `PUNTUATION_REGEX.test(token)`: the unanchored class matches somewhere in the token. */
  function HasPunctuation(token: string): (r: bool)
    ensures r <==> exists i :: 0 <= i < |token| && IsPunctuationChar(token[i])
  {
    if |token| == 0 then false
    else IsPunctuationChar(token[0]) || HasPunctuation(token[1..])
  }

  /** The search predicate of `getNextPunctuationPosition`, applied to the word just reached. */
  predicate NextStop(doc: D.Document, at: WordPos)
    requires ValidWord(doc, at)
  {
    || IsLastWordOfDocument(doc, at)
    || HasPunctuation(doc[at.paragraph][at.sentence][at.word])
    || IsLastWordInSentence(doc, at)
  }

  /** The search predicate of `getPrevPunctuationPosition`: the word just reached is a paragraph's
      first word, or the word before it contains punctuation. */
  predicate PrevStop(doc: D.Document, at: WordPos, before: Option<WordPos>)
    requires before.Some? ==> ValidWord(doc, before.value)
  {
    || (at.word == 0 && at.sentence == 0 && at.paragraph == 0)
    || (at.word == 0 && at.sentence == 0)
    || (before.Some? && HasPunctuation(doc[before.value.paragraph][before.value.sentence][before.value.word]))
  }

  /** `k` steps of `getNextWordPosition(…, true)`; `None` once the document's end is passed. */
  function NextWalk(doc: D.Document, pos: WordPos, k: nat): (r: Option<WordPos>)
    requires D.WellFormed(doc) && ValidWord(doc, pos)
    ensures r.Some? ==> ValidWord(doc, r.value)
    decreases k
  {
    if k == 0 then Some(pos)
    else
      var next := GetNextWordPosition(doc, pos, true);
      if next.None? then None else NextWalk(doc, next.value, k - 1)
  }

  /** `k` steps of `getPreviousWordPosition(…, true)`. */
  function PrevWalk(doc: D.Document, pos: WordPos, k: nat): (r: Option<WordPos>)
    requires D.WellFormed(doc) && ValidWord(doc, pos)
    ensures r.Some? ==> ValidWord(doc, r.value)
    decreases k
  {
    if k == 0 then Some(pos)
    else
      var prev := GetPreviousWordPosition(doc, pos, true);
      if prev.None? then None else PrevWalk(doc, prev.value, k - 1)
  }

  /** `findNextWordPositionRecursively` with the search of `getNextPunctuationPosition`. */
  function GetNextPunctuationPosition(doc: D.Document, pos: WordPos): (r: Option<WordPos>)
    requires D.WellFormed(doc) && ValidWord(doc, pos)
    ensures r.Some? ==> ValidWord(doc, r.value) && WordBefore(pos, r.value) && NextStop(doc, r.value)
    decreases TotalWords(doc) - WordAbs(doc, pos)
  {
    var next := GetNextWordPosition(doc, pos, true);
    if next.None? then None
    else
      WordAbsOrder(doc, pos, next.value);
      WordAbsBound(doc, next.value);
      if NextStop(doc, next.value) then next
      else GetNextPunctuationPosition(doc, next.value)
  }

  /** `findPreviousWordPositionRecurssively` with the search of `getPrevPunctuationPosition`. */
  function GetPrevPunctuationPosition(doc: D.Document, pos: WordPos): (r: Option<WordPos>)
    requires D.WellFormed(doc) && ValidWord(doc, pos)
    ensures r.Some? ==> ValidWord(doc, r.value) && WordBefore(r.value, pos)
    ensures r.Some? ==> PrevStop(doc, r.value, GetPreviousWordPosition(doc, r.value, true))
    decreases WordAbs(doc, pos)
  {
    var prev := GetPreviousWordPosition(doc, pos, true);
    if prev.None? then None
    else
      WordAbsOrder(doc, pos, prev.value);
      var before := GetPreviousWordPosition(doc, prev.value, true);
      if PrevStop(doc, prev.value, before) then prev
      else GetPrevPunctuationPosition(doc, prev.value)
  }

  /** Step `k` of the forward walk is its first stop. */
  ghost predicate FirstNextStopAt(doc: D.Document, pos: WordPos, k: nat)
    requires D.WellFormed(doc) && ValidWord(doc, pos)
  {
    && 1 <= k
    && NextWalk(doc, pos, k).Some?
    && NextStop(doc, NextWalk(doc, pos, k).value)
    && forall j: nat :: 1 <= j < k ==> NextWalk(doc, pos, j).Some? && !NextStop(doc, NextWalk(doc, pos, j).value)
  }

  /** Step `k` of the backward walk is its first stop, judged with the word one step further back. */
  ghost predicate FirstPrevStopAt(doc: D.Document, pos: WordPos, k: nat)
    requires D.WellFormed(doc) && ValidWord(doc, pos)
  {
    && 1 <= k
    && PrevWalk(doc, pos, k).Some?
    && PrevStop(doc, PrevWalk(doc, pos, k).value, PrevWalk(doc, pos, k + 1))
    && forall j: nat :: 1 <= j < k ==>
         (PrevWalk(doc, pos, j).Some? && !PrevStop(doc, PrevWalk(doc, pos, j).value, PrevWalk(doc, pos, j + 1)))
  }

  /** The forward jump returns the first stop on the `getNextWordPosition` walk, and `null` exactly
      when the walk reaches no stop. */
  lemma {:induction false} NextPunctuationIsFirstStop(doc: D.Document, pos: WordPos)
    requires D.WellFormed(doc) && ValidWord(doc, pos)
    ensures GetNextPunctuationPosition(doc, pos).Some? ==>
      exists k: nat :: FirstNextStopAt(doc, pos, k) && NextWalk(doc, pos, k) == GetNextPunctuationPosition(doc, pos)
    ensures GetNextPunctuationPosition(doc, pos).None? ==>
      forall j: nat :: 1 <= j && NextWalk(doc, pos, j).Some? ==> !NextStop(doc, NextWalk(doc, pos, j).value)
    decreases TotalWords(doc) - WordAbs(doc, pos)
  {
    var next := GetNextWordPosition(doc, pos, true);
    if next.None? {
      assert forall j: nat :: 1 <= j ==> NextWalk(doc, pos, j).None?;
    } else {
      WordAbsOrder(doc, pos, next.value);
      WordAbsBound(doc, next.value);
      assert NextWalk(doc, pos, 1) == Some(next.value);
      assert forall j: nat :: 1 <= j ==> NextWalk(doc, pos, j) == NextWalk(doc, next.value, j - 1);
      if NextStop(doc, next.value) {
        assert FirstNextStopAt(doc, pos, 1);
      } else {
        NextPunctuationIsFirstStop(doc, next.value);
        var r := GetNextPunctuationPosition(doc, next.value);
        if r.Some? {
          var k: nat :| FirstNextStopAt(doc, next.value, k) && NextWalk(doc, next.value, k) == r;
          assert NextWalk(doc, pos, k + 1) == r;
          assert FirstNextStopAt(doc, pos, k + 1) by {
            forall j: nat | 1 <= j < k + 1
              ensures NextWalk(doc, pos, j).Some? && !NextStop(doc, NextWalk(doc, pos, j).value)
            {
              if j > 1 {
                assert NextWalk(doc, pos, j) == NextWalk(doc, next.value, j - 1);
              }
            }
          }
        }
      }
    }
  }

  /** The backward jump returns the first stop on the `getPreviousWordPosition` walk, and `null`
      exactly when the walk reaches no stop. */
  lemma {:induction false} PrevPunctuationIsFirstStop(doc: D.Document, pos: WordPos)
    requires D.WellFormed(doc) && ValidWord(doc, pos)
    ensures GetPrevPunctuationPosition(doc, pos).Some? ==>
      exists k: nat :: FirstPrevStopAt(doc, pos, k) && PrevWalk(doc, pos, k) == GetPrevPunctuationPosition(doc, pos)
    ensures GetPrevPunctuationPosition(doc, pos).None? ==>
      forall j: nat :: 1 <= j && PrevWalk(doc, pos, j).Some? ==>
        !PrevStop(doc, PrevWalk(doc, pos, j).value, PrevWalk(doc, pos, j + 1))
    decreases WordAbs(doc, pos)
  {
    var prev := GetPreviousWordPosition(doc, pos, true);
    if prev.None? {
      assert forall j: nat :: 1 <= j ==> PrevWalk(doc, pos, j).None?;
    } else {
      WordAbsOrder(doc, pos, prev.value);
      assert PrevWalk(doc, pos, 1) == Some(prev.value);
      assert forall j: nat :: 1 <= j ==> PrevWalk(doc, pos, j) == PrevWalk(doc, prev.value, j - 1);
      var before := GetPreviousWordPosition(doc, prev.value, true);
      assert PrevWalk(doc, pos, 2) == before by {
        assert PrevWalk(doc, pos, 2) == PrevWalk(doc, prev.value, 1);
      }
      if PrevStop(doc, prev.value, before) {
        assert FirstPrevStopAt(doc, pos, 1);
      } else {
        PrevPunctuationIsFirstStop(doc, prev.value);
        var r := GetPrevPunctuationPosition(doc, prev.value);
        if r.Some? {
          var k: nat :| FirstPrevStopAt(doc, prev.value, k) && PrevWalk(doc, prev.value, k) == r;
          assert PrevWalk(doc, pos, k + 1) == r;
          assert PrevWalk(doc, pos, k + 2) == PrevWalk(doc, prev.value, k + 1);
          assert FirstPrevStopAt(doc, pos, k + 1) by {
            forall j: nat | 1 <= j < k + 1
              ensures PrevWalk(doc, pos, j).Some? &&
                !PrevStop(doc, PrevWalk(doc, pos, j).value, PrevWalk(doc, pos, j + 1))
            {
              if j > 1 {
                assert PrevWalk(doc, pos, j) == PrevWalk(doc, prev.value, j - 1);
                assert PrevWalk(doc, pos, j + 1) == PrevWalk(doc, prev.value, j);
              }
            }
          }
        } else {
          forall j: nat | 1 <= j && PrevWalk(doc, pos, j).Some?
            ensures !PrevStop(doc, PrevWalk(doc, pos, j).value, PrevWalk(doc, pos, j + 1))
          {
            if j > 1 {
              assert PrevWalk(doc, pos, j) == PrevWalk(doc, prev.value, j - 1);
              assert PrevWalk(doc, pos, j + 1) == PrevWalk(doc, prev.value, j);
            }
          }
        }
      }
    }
  }

  /** Tokens `["The","quick,","brown","fox"]`: back from "fox" the jump stops on "brown", the word
      after the punctuation; forward from "The" it stops on "quick," itself. */
  lemma PunctuationScenario()
    ensures var doc: D.Document := [[["The", "quick,", "brown", "fox"]]];
      && GetPrevPunctuationPosition(doc, WordPos(0, 0, 3)) == Some(WordPos(0, 0, 2))
      && GetNextPunctuationPosition(doc, WordPos(0, 0, 0)) == Some(WordPos(0, 0, 1))
  {
    var doc: D.Document := [[["The", "quick,", "brown", "fox"]]];
    assert D.WellFormed(doc);
    assert HasPunctuation(doc[0][0][1]) by {
      assert IsPunctuationChar(doc[0][0][1][5]);
    }
    assert GetPreviousWordPosition(doc, WordPos(0, 0, 3), true) == Some(WordPos(0, 0, 2));
    assert GetPreviousWordPosition(doc, WordPos(0, 0, 2), true) == Some(WordPos(0, 0, 1));
    assert GetNextWordPosition(doc, WordPos(0, 0, 0), true) == Some(WordPos(0, 0, 1));
  }
}
