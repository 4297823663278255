/** Word-level navigation: `moveWordPosition`, the paragraph helpers `getNextParagraphPosition` /
    `getPrevParagraphPosition`, and the word steppers `getNextWordPosition` / `getPreviousWordPosition`. */
module WordNav {
  import opened Options
  import D = DocumentModel
  import opened Positions
  import opened Ordinals
  import opened SentenceNav

  /** "Empty" for `moveWordPosition`: a single sentence without tokens. */
  predicate TokenlessParagraph(par: D.Paragraph) {
    |par| == 1 && |par[0]| == 0
  }

  /** "Empty" for the word steppers' paragraph jumps: a single sentence with a falsy first token. */
  predicate HollowParagraph(par: D.Paragraph) {
    |par| == 1 && FalsyFirst(par[0])
  }

  /** A parsed document has no tokenless paragraph, so `moveWordPosition` never skips one. */
  lemma WellFormedHasNoTokenless(doc: D.Document, q: int)
    requires D.WellFormed(doc) && 0 <= q < |doc|
    ensures !TokenlessParagraph(doc[q])
  {
  }

  /** The forward `while` of `moveWordPosition`. */
  function WordSkipForward(doc: D.Document, cur: WordPos, ignore: bool): (r: WordPos)
    requires 0 <= cur.paragraph < |doc|
    ensures
      || (&& cur.paragraph < r.paragraph < |doc| && r.sentence == 0 && r.word == 0
          && (!ignore || !TokenlessParagraph(doc[r.paragraph])))
      || (r == WordPos(|doc| - 1, cur.sentence, cur.word)
          && forall q :: cur.paragraph < q < |doc| ==> ignore && TokenlessParagraph(doc[q]))
    decreases |doc| - cur.paragraph
  {
    if cur.paragraph < |doc| - 1 then
      if !ignore || !TokenlessParagraph(doc[cur.paragraph + 1]) then WordPos(cur.paragraph + 1, 0, 0)
      else WordSkipForward(doc, WordPos(cur.paragraph + 1, cur.sentence, cur.word), ignore)
    else cur
  }

  /** The backward `while` of `moveWordPosition`. */
  function WordSkipBackward(doc: D.Document, cur: WordPos, ignore: bool): (r: WordPos)
    requires 0 <= cur.paragraph < |doc|
    requires forall q :: 0 <= q < |doc| ==> |doc[q]| >= 1
    ensures
      || (&& 0 <= r.paragraph < cur.paragraph && r.sentence == |doc[r.paragraph]| - 1
          && r.word == |doc[r.paragraph][r.sentence]| - 1
          && (!ignore || !TokenlessParagraph(doc[r.paragraph])))
      || (r == WordPos(0, cur.sentence, cur.word)
          && forall q :: 0 <= q < cur.paragraph ==> ignore && TokenlessParagraph(doc[q]))
    decreases cur.paragraph
  {
    if cur.paragraph > 0 then
      var q := cur.paragraph - 1;
      if !ignore || !TokenlessParagraph(doc[q]) then WordPos(q, |doc[q]| - 1, |doc[q][|doc[q]| - 1]| - 1)
      else WordSkipBackward(doc, WordPos(q, cur.sentence, cur.word), ignore)
    else cur
  }

  /** One iteration of the `for` loop of `moveWordPosition`, before its edge check. */
  function WordStep(doc: D.Document, cur: WordPos, forward: bool, ignore: bool): (r: WordPos)
    requires D.WellFormed(doc) && ValidWord(doc, cur)
    ensures ValidWord(doc, r)
  {
    var par := doc[cur.paragraph];
    if forward then
      if cur.word == |par[cur.sentence]| - 1 then
        if cur.sentence == |par| - 1 then
          WellFormedHasNoTokenless(doc, |doc| - 1);
          WordSkipForward(doc, cur, ignore)
        else WordPos(cur.paragraph, cur.sentence + 1, 0)
      else WordPos(cur.paragraph, cur.sentence, cur.word + 1)
    else
      if cur.word == 0 then
        if cur.sentence == 0 then
          WellFormedHasNoTokenless(doc, 0);
          WordSkipBackward(doc, cur, ignore)
        else WordPos(cur.paragraph, cur.sentence - 1, |par[cur.sentence - 1]| - 1)
      else WordPos(cur.paragraph, cur.sentence, cur.word - 1)
  }

  predicate AtWordEdge(doc: D.Document, cur: WordPos, forward: bool)
    requires ValidWord(doc, cur)
  {
    if forward then
      && cur.paragraph == |doc| - 1
      && cur.sentence == |doc[cur.paragraph]| - 1
      && cur.word == |doc[cur.paragraph][cur.sentence]| - 1
    else cur.paragraph == 0 && cur.sentence == 0 && cur.word == 0
  }

  function MoveWordSteps(doc: D.Document, cur: WordPos, n: nat, forward: bool, ignore: bool): (r: WordPos)
    requires D.WellFormed(doc) && ValidWord(doc, cur)
    ensures ValidWord(doc, r)
    decreases n
  {
    if n == 0 then cur
    else
      var next := WordStep(doc, cur, forward, ignore);
      if AtWordEdge(doc, next, forward) then next
      else MoveWordSteps(doc, next, n - 1, forward, ignore)
  }

  /** `moveWordPosition`: `|steps|` word steps in the direction of `steps`, stopping at the edges. */
  function MoveWordPosition(doc: D.Document, position: WordPos, steps: int, ignore: bool): (r: WordPos)
    requires D.WellFormed(doc) && ValidWord(doc, position)
    ensures ValidWord(doc, r)
    ensures steps == 0 ==> r == position
  {
    if steps > 0 then MoveWordSteps(doc, position, steps, true, ignore)
    else if steps < 0 then MoveWordSteps(doc, position, -steps, false, ignore)
    else position
  }

  lemma WordStepAbs(doc: D.Document, cur: WordPos, forward: bool, ignore: bool)
    requires D.WellFormed(doc) && ValidWord(doc, cur)
    ensures WordAbs(doc, WordStep(doc, cur, forward, ignore)) ==
      if AtWordEdge(doc, cur, forward) then WordAbs(doc, cur)
      else if forward then WordAbs(doc, cur) + 1 else WordAbs(doc, cur) - 1
  {
    var p := cur.paragraph;
    var par := doc[p];
    if forward && cur.word == |par[cur.sentence]| - 1 && cur.sentence == |par| - 1 && p < |doc| - 1 {
      WellFormedHasNoTokenless(doc, p + 1);
      assert WordSkipForward(doc, cur, ignore) == WordPos(p + 1, 0, 0);
    } else if !forward && cur.word == 0 && cur.sentence == 0 && p > 0 {
      WellFormedHasNoTokenless(doc, p - 1);
      var q := p - 1;
      assert WordSkipBackward(doc, cur, ignore) == WordPos(q, |doc[q]| - 1, |doc[q][|doc[q]| - 1]| - 1);
    }
  }

  lemma WordEdgeAbs(doc: D.Document, cur: WordPos, forward: bool)
    requires D.WellFormed(doc) && ValidWord(doc, cur) && AtWordEdge(doc, cur, forward)
    ensures WordAbs(doc, cur) == if forward then TotalWords(doc) - 1 else 0
  {
  }

  lemma {:induction false} MoveWordStepsClamp(doc: D.Document, cur: WordPos, n: nat, forward: bool, ignore: bool)
    requires D.WellFormed(doc) && ValidWord(doc, cur)
    ensures WordAbs(doc, MoveWordSteps(doc, cur, n, forward, ignore)) ==
      if forward then Clamp(WordAbs(doc, cur) + n, 0, TotalWords(doc) - 1)
      else Clamp(WordAbs(doc, cur) - n, 0, TotalWords(doc) - 1)
    decreases n
  {
    WordAbsBound(doc, cur);
    if n > 0 {
      var next := WordStep(doc, cur, forward, ignore);
      WordStepAbs(doc, cur, forward, ignore);
      if AtWordEdge(doc, next, forward) {
        WordEdgeAbs(doc, next, forward);
      } else {
        MoveWordStepsClamp(doc, next, n - 1, forward, ignore);
      }
    }
  }

  /** On a parsed document `moveWordPosition` moves the absolute word ordinal by `steps`, clamped to
      the document, whatever `ignoreEmptyParagraph` is. */
  lemma MoveWordClamp(doc: D.Document, position: WordPos, steps: int, ignore: bool)
    requires D.WellFormed(doc) && ValidWord(doc, position)
    ensures WordAbs(doc, MoveWordPosition(doc, position, steps, ignore)) ==
      Clamp(WordAbs(doc, position) + steps, 0, TotalWords(doc) - 1)
  {
    WordAbsBound(doc, position);
    if steps > 0 {
      MoveWordStepsClamp(doc, position, steps, true, ignore);
    } else if steps < 0 {
      MoveWordStepsClamp(doc, position, -steps, false, ignore);
    }
  }

  /** One word forward and one word back returns to the start, from every word but the document's
      last (where the forward move is clamped). */
  lemma MoveWordRoundTrip(doc: D.Document, position: WordPos, ignore: bool)
    requires D.WellFormed(doc) && ValidWord(doc, position)
    requires WordAbs(doc, position) < TotalWords(doc) - 1
    ensures MoveWordPosition(doc, MoveWordPosition(doc, position, 1, ignore), -1, ignore) == position
  {
    var next := MoveWordPosition(doc, position, 1, ignore);
    MoveWordClamp(doc, position, 1, ignore);
    MoveWordClamp(doc, next, -1, ignore);
    WordAbsOrder(doc, MoveWordPosition(doc, next, -1, ignore), position);
  }

  /** The text `"Hi you. Go now."` parses to the sentences `["Hi","you"]`, `["","Go","now"]` and
      `[""]`; one word forward from "you" is the leading `""`. */
  lemma TerminatedWordStep()
    ensures var doc: D.Document := [[["Hi", "you"], ["", "Go", "now"], [""]]];
      && D.CreateDocument("Hi you. Go now.") == doc
      && MoveWordPosition(doc, WordPos(0, 0, 1), 1, true) == WordPos(0, 1, 0) && doc[0][1][0] == ""
  {
    D.GreetingExample();
    var doc: D.Document := [[["Hi", "you"], ["", "Go", "now"], [""]]];
    assert D.WellFormed(doc);
  }

  /** `getNextParagraphPosition`: the start of the next paragraph at the requested precision
      (PARAGRAPH meaning "not given"); CHARACTER falls through the `switch` to `null`. */
  function GetNextParagraphPosition(doc: D.Document, pos: Pos, precision: Option<Precision>): (r: Option<Pos>)
    ensures r.None? <==> pos.paragraph == |doc| - 1 || EffectivePrecision(pos, precision) == Character
    ensures r.Some? ==> r.value.paragraph == pos.paragraph + 1 && r.value.character.None?
    ensures r.Some? ==> GetPrecision(r.value) == EffectivePrecision(pos, precision)
    ensures r.Some? ==> OrZero(r.value.sentence) == 0 && OrZero(r.value.word) == 0
  {
    if pos.paragraph == |doc| - 1 then None
    else
      match EffectivePrecision(pos, precision)
      case Word => Some(Pos(pos.paragraph + 1, Some(0), Some(0), None))
      case Sentence => Some(Pos(pos.paragraph + 1, Some(0), None, None))
      case Paragraph => Some(Pos(pos.paragraph + 1, None, None, None))
      case Character => None
  }

  /** `getPrevParagraphPosition`: the end of the previous paragraph at the requested precision. */
  function GetPrevParagraphPosition(doc: D.Document, pos: Pos, precision: Option<Precision>): (r: Option<Pos>)
    requires pos.paragraph != 0 && EffectivePrecision(pos, precision).Rank() >= Sentence.Rank() ==>
      1 <= pos.paragraph <= |doc|
    requires pos.paragraph != 0 && EffectivePrecision(pos, precision) == Word ==> |doc[pos.paragraph - 1]| >= 1
    ensures r.None? <==> pos.paragraph == 0 || EffectivePrecision(pos, precision) == Character
    ensures r.Some? ==> r.value.paragraph == pos.paragraph - 1 && r.value.character.None?
    ensures r.Some? ==> GetPrecision(r.value) == EffectivePrecision(pos, precision)
    ensures r.Some? && r.value.sentence.Some? ==> r.value.sentence.value == |doc[pos.paragraph - 1]| - 1
    ensures r.Some? && r.value.word.Some? ==>
      r.value.word.value == |doc[pos.paragraph - 1][|doc[pos.paragraph - 1]| - 1]| - 1
  {
    if pos.paragraph == 0 then None
    else
      var q := pos.paragraph - 1;
      match EffectivePrecision(pos, precision)
      case Word => Some(Pos(q, Some(|doc[q]| - 1), Some(|doc[q][|doc[q]| - 1]| - 1), None))
      case Sentence => Some(Pos(q, Some(|doc[q]| - 1), None, None))
      case Paragraph => Some(Pos(q, None, None, None))
      case Character => None
  }

  predicate IsLastWordInSentence(doc: D.Document, pos: WordPos)
    requires ValidWord(doc, pos)
  {
    pos.word == |doc[pos.paragraph][pos.sentence]| - 1
  }

  /** The last word of the last sentence of the last paragraph. */
  predicate IsLastWordOfDocument(doc: D.Document, pos: WordPos)
    requires ValidWord(doc, pos)
  {
    && pos.paragraph == |doc| - 1
    && pos.sentence == |doc[pos.paragraph]| - 1
    && pos.word == |doc[pos.paragraph][pos.sentence]| - 1
  }

  /** `getNextWordPosition`. A jump into the next paragraph or sentence lands on its word 0; a paragraph
      whose only sentence starts with a falsy token is walked through, and the next sentence comes from
      `getNextSentencePosition`, which skips sentences with a falsy first token. */
  function GetNextWordPosition(doc: D.Document, pos: WordPos, ignore: bool): (r: Option<WordPos>)
    requires D.WellFormed(doc) && ValidWord(doc, pos)
    ensures IsLastWordOfDocument(doc, pos) ==> r.None?
    ensures r.Some? ==> ValidWord(doc, r.value) && WordBefore(pos, r.value)
    ensures (r.Some? && (r.value.paragraph, r.value.sentence) != (pos.paragraph, pos.sentence)
             && !HollowParagraph(doc[r.value.paragraph])) ==> r.value.word == 0
    ensures !ignore && !IsLastWordInSentence(doc, pos) ==>
      r == Some(WordPos(pos.paragraph, pos.sentence, pos.word + 1))
    decreases |doc| - pos.paragraph, |doc[pos.paragraph]| - pos.sentence, |doc[pos.paragraph][pos.sentence]| - pos.word
  {
    var current := doc[pos.paragraph][pos.sentence];
    if IsLastWordOfDocument(doc, pos) then None
    else if pos.word == |current| - 1 && pos.sentence == |doc[pos.paragraph]| - 1 then
      var nextParagraph := GetNextParagraphPosition(doc, pos.ToBlock(), None);
      if nextParagraph.None? then None
      else
        var q := nextParagraph.value.paragraph;
        if HollowParagraph(doc[q]) then GetNextWordPosition(doc, WordPos(q, 0, 0), true)
        else Some(WordPos(q, 0, 0))
    else if pos.word == |current| - 1 then
      var nextSentence := GetNextSentencePosition(doc, SentPos(pos.paragraph, pos.sentence), true);
      if nextSentence.None? then None
      else Some(WordPos(nextSentence.value.paragraph, nextSentence.value.sentence, 0))
    else if ignore && current[pos.word + 1] == "" then
      GetNextWordPosition(doc, WordPos(pos.paragraph, pos.sentence, pos.word + 1), true)
    else Some(WordPos(pos.paragraph, pos.sentence, pos.word + 1))
  }

  /** `getPreviousWordPosition`. A jump into the previous paragraph or sentence lands on its last word;
      a previous paragraph whose only sentence starts with a falsy token is walked through from its
      word 0, which at paragraph 0 gives `null`. */
  function GetPreviousWordPosition(doc: D.Document, pos: WordPos, ignore: bool): (r: Option<WordPos>)
    requires D.WellFormed(doc) && ValidWord(doc, pos)
    ensures pos == WordPos(0, 0, 0) ==> r.None?
    ensures r.Some? ==> ValidWord(doc, r.value) && WordBefore(r.value, pos)
    ensures r.Some? && (r.value.paragraph, r.value.sentence) != (pos.paragraph, pos.sentence) ==>
      IsLastWordInSentence(doc, r.value)
    ensures !ignore && pos.word != 0 ==> r == Some(WordPos(pos.paragraph, pos.sentence, pos.word - 1))
    decreases pos.paragraph, pos.sentence, pos.word
  {
    var current := doc[pos.paragraph][pos.sentence];
    if pos.word == 0 && pos.sentence == 0 && pos.paragraph == 0 then None
    else if pos.word == 0 && pos.sentence == 0 then
      var prevParagraph := GetPrevParagraphPosition(doc, pos.ToBlock(), None);
      if prevParagraph.None? then None
      else
        var q := prevParagraph.value.paragraph;
        if HollowParagraph(doc[q]) then GetPreviousWordPosition(doc, WordPos(q, 0, 0), true)
        else Some(WordPos(q, |doc[q]| - 1, |doc[q][|doc[q]| - 1]| - 1))
    else if pos.word == 0 then
      var prevSentence := GetPrevSentencePosition(doc, SentPos(pos.paragraph, pos.sentence), true);
      if prevSentence.None? then None
      else
        var ps := prevSentence.value;
        Some(WordPos(ps.paragraph, ps.sentence, |doc[ps.paragraph][ps.sentence]| - 1))
    else if ignore && current[pos.word - 1] == "" then
      GetPreviousWordPosition(doc, WordPos(pos.paragraph, pos.sentence, pos.word - 1), true)
    else Some(WordPos(pos.paragraph, pos.sentence, pos.word - 1))
  }

  /** The text `"A b. C d"`: the second sentence starts with `""`, so `getNextSentencePosition` skips
      it and the word after "b" is `null` although "C" and "d" follow. */
  lemma NextWordSkipsLeadingBlankSentence()
    ensures var doc: D.Document := [[["A", "b"], ["", "C", "d"]]];
      D.WellFormed(doc) && GetNextWordPosition(doc, WordPos(0, 0, 1), true).None?
  {
    var doc: D.Document := [[["A", "b"], ["", "C", "d"]]];
    assert D.WellFormed(doc);
    assert GetNextSentencePosition(doc, SentPos(0, 1), true).None?;
  }
}
