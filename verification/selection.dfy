/** Selection ranges: equality and containment at the harmonised precision, sorted bounds, and the
    range movers `moveSelection`, `moveSelectionBySentence` and `expandSelection`. */
module Selection {
  import opened Options
  import D = DocumentModel
  import opened Positions
  import opened Ordinals
  import opened SentenceNav
  import opened WordNav

  /** Both ends of a range index existing elements of the document. */
  ghost predicate ValidRange(doc: D.Document, range: Range) {
    ValidPos(doc, range.from) && (range.to.Some? ==> ValidPos(doc, range.to.value))
  }

  function SentOf(pos: Pos): SentPos
    requires pos.sentence.Some?
  {
    SentPos(pos.paragraph, pos.sentence.value)
  }

  function WordOf(pos: Pos): WordPos
    requires IsWordPosition(pos)
  {
    WordPos(pos.paragraph, pos.sentence.value, pos.word.value)
  }

  /** `x` lies between `a` and `b` inclusive, whichever of them is larger. */
  predicate Between(x: int, a: int, b: int) {
    (if a <= b then a else b) <= x <= (if a <= b then b else a)
  }

  /** `isEqualPosition`: equality of the two positions harmonised to their common precision. */
  function IsEqualPosition(a: Pos, b: Pos): (r: bool)
    ensures r ==> a.paragraph == b.paragraph
  {
    var m := MatchPrecision([a, b]);
    var x := m.result[0];
    var y := m.result[1];
    match m.precision
    case Paragraph => x.paragraph == y.paragraph
    case Sentence => x.paragraph == y.paragraph && x.sentence == y.sentence
    case Word => x.paragraph == y.paragraph && x.sentence == y.sentence && x.word == y.word
  }

  /** Equality is symmetric, and for shaped positions of the same precision without a character it
      is plain equality; across precisions only the coarser fields are compared. */
  lemma IsEqualPositionProperties(a: Pos, b: Pos)
    ensures IsEqualPosition(a, b) == IsEqualPosition(b, a)
    ensures IsEqualPosition(a, a)
    ensures (Shaped(a) && Shaped(b) && a.character.None? && b.character.None? &&
             GetPrecision(a) == GetPrecision(b)) ==> (IsEqualPosition(a, b) <==> a == b)
    ensures IsWordPosition(a) && IsSentencePosition(b) ==>
            (IsEqualPosition(a, b) <==> a.paragraph == b.paragraph && a.sentence == b.sentence)
  {
    var m := MatchPrecision([a, b]);
    var n := MatchPrecision([b, a]);
    assert m.precision == n.precision by {
      assert [a, b][0] == [b, a][1] && [a, b][1] == [b, a][0];
    }
  }

  /** The ends and the target can be measured at `precision`. */
  ghost predicate Measurable(doc: D.Document, precision: Precision, from: Pos, to: Pos, t: Pos) {
    && precision != Character
    && (precision == Sentence ==>
          && from.sentence.Some? && to.sentence.Some? && t.sentence.Some?
          && 0 <= from.paragraph < |doc| && 0 <= to.paragraph < |doc| && 0 <= t.paragraph < |doc|)
    && (precision == Word ==>
          && IsWordPosition(from) && IsWordPosition(to) && IsWordPosition(t)
          && ValidWord(doc, WordOf(from)) && ValidWord(doc, WordOf(to)) && ValidWord(doc, WordOf(t)))
  }

  /** The body of `isInsideSelectionRange` once the positions are harmonised to `precision`. */
  function WithinAt(doc: D.Document, precision: Precision, from: Pos, to: Pos, t: Pos): bool
    requires Measurable(doc, precision, from, to, t)
  {
    var withinParagraph := Between(t.paragraph, from.paragraph, to.paragraph);
    match precision
    case Paragraph => withinParagraph
    case Sentence =>
      withinParagraph &&
      Between(SentenceAbs(doc, SentOf(t)), SentenceAbs(doc, SentOf(from)), SentenceAbs(doc, SentOf(to)))
    case Word =>
      withinParagraph &&
      Between(WordAbs(doc, WordOf(t)), WordAbs(doc, WordOf(from)), WordAbs(doc, WordOf(to)))
  }

  lemma HarmonisedMeasurable(doc: D.Document, from: Pos, to: Pos, target: Pos)
    requires ValidPos(doc, from) && ValidPos(doc, to) && ValidPos(doc, target)
    ensures var m := MatchPrecision([from, to, target]);
      Measurable(doc, m.precision, m.result[0], m.result[1], m.result[2])
  {
    var ps := [from, to, target];
    assert ValidPos(doc, ps[0]) && ValidPos(doc, ps[1]) && ValidPos(doc, ps[2]);
  }

  /** `isInsideSelectionRange`: the target lies between the two ends at their common precision. */
  function IsInsideSelectionRange(doc: D.Document, target: Pos, range: Range): (r: bool)
    requires ValidRange(doc, range) && ValidPos(doc, target)
    ensures r ==> Between(target.paragraph, range.from.paragraph, RangeToPosition(range).paragraph)
  {
    var m := MatchPrecision([range.from, RangeToPosition(range), target]);
    HarmonisedMeasurable(doc, range.from, RangeToPosition(range), target);
    WithinAt(doc, m.precision, m.result[0], m.result[1], m.result[2])
  }

  lemma LowestPrecisionOfThree(a: Pos, b: Pos, c: Pos)
    ensures LowestPrecision([a, b, c]) ==
      Coarser(Coarser(Coarser(Word, GetPrecision(a)), GetPrecision(b)), GetPrecision(c))
  {
    var ps := [a, b, c];
    assert ps[..2] == [a, b] && ps[..2][..1] == [a] && ps[..2][..1][..0] == [];
    assert LowestPrecision([a]) == Coarser(Word, GetPrecision(a));
    assert LowestPrecision([a, b]) == Coarser(LowestPrecision([a]), GetPrecision(b));
    assert LowestPrecision(ps) == Coarser(LowestPrecision([a, b]), GetPrecision(c));
  }

  lemma WithinAtSwap(doc: D.Document, precision: Precision, from: Pos, to: Pos, t: Pos)
    requires Measurable(doc, precision, from, to, t)
    ensures Measurable(doc, precision, to, from, t)
    ensures WithinAt(doc, precision, from, to, t) == WithinAt(doc, precision, to, from, t)
  {
  }

  /** Containment does not depend on which end is the anchor. */
  lemma InsideSelectionSymmetric(doc: D.Document, target: Pos, from: Pos, to: Pos)
    requires ValidPos(doc, from) && ValidPos(doc, to) && ValidPos(doc, target)
    ensures IsInsideSelectionRange(doc, target, Range(from, Some(to))) ==
            IsInsideSelectionRange(doc, target, Range(to, Some(from)))
  {
    var m := MatchPrecision([from, to, target]);
    var n := MatchPrecision([to, from, target]);
    HarmonisedMeasurable(doc, from, to, target);
    assert n == Matched(m.precision, [m.result[1], m.result[0], m.result[2]]) by {
      var ps := [from, to, target];
      var qs := [to, from, target];
      assert ps[0] == qs[1] && ps[1] == qs[0] && ps[2] == qs[2];
      LowestPrecisionOfThree(from, to, target);
      LowestPrecisionOfThree(to, from, target);
    }
    WithinAtSwap(doc, m.precision, m.result[0], m.result[1], m.result[2]);
  }

  /** Both ends of a range are inside it. */
  lemma InsideSelectionEnds(doc: D.Document, from: Pos, to: Pos)
    requires ValidPos(doc, from) && ValidPos(doc, to)
    ensures IsInsideSelectionRange(doc, from, Range(from, Some(to)))
    ensures IsInsideSelectionRange(doc, to, Range(from, Some(to)))
  {
    var mf := MatchPrecision([from, to, from]);
    var mt := MatchPrecision([from, to, to]);
    assert mf.result[2] == mf.result[0];
    assert mt.result[2] == mt.result[1];
  }

  /** At word precision, for in-bounds positions, containment is exactly "the target's word ordinal
      lies between the ends' ordinals". */
  lemma InsideSelectionAtWordPrecision(doc: D.Document, target: WordPos, from: WordPos, to: WordPos)
    requires ValidWord(doc, from) && ValidWord(doc, to) && ValidWord(doc, target)
    ensures IsInsideSelectionRange(doc, target.ToBlock(), Range(from.ToBlock(), Some(to.ToBlock()))) <==>
            Between(WordAbs(doc, target), WordAbs(doc, from), WordAbs(doc, to))
  {
    var m := MatchPrecision([from.ToBlock(), to.ToBlock(), target.ToBlock()]);
    assert m.precision == Word;
    assert WordOf(m.result[0]) == from && WordOf(m.result[1]) == to && WordOf(m.result[2]) == target;
    WordAbsOrder(doc, target, from);
    WordAbsOrder(doc, target, to);
    WordAbsOrder(doc, from, to);
  }

  /** JavaScript `<` on possibly-`undefined` numbers: `undefined` compares false both ways. */
  predicate JsLess(a: Option<int>, b: Option<int>) {
    a.Some? && b.Some? && a.value < b.value
  }

  datatype Bounds = Bounds(lower: Pos, upper: Pos)

  /** The (paragraph, sentence, word) key that the bound comparisons look at. */
  function Key(pos: Pos): (int, Option<int>, Option<int>) {
    (pos.paragraph, pos.sentence, pos.word)
  }

  /** Reading order on word-level positions. */
  predicate KeyBefore(a: Pos, b: Pos)
    requires IsWordPosition(a) && IsWordPosition(b)
  {
    WordBefore(WordOf(a), WordOf(b))
  }

  /** `getSelectionBoundSorted`. */
  function GetSelectionBoundSorted(range: Range): (r: Bounds)
    ensures r.lower == range.from || r.lower == RangeToPosition(range)
    ensures r.upper == range.from || r.upper == RangeToPosition(range)
    ensures r.lower.paragraph <= r.upper.paragraph
  {
    var from := range.from;
    var to := RangeToPosition(range);
    var fromFirst :=
      || from.paragraph < to.paragraph
      || (from.paragraph == to.paragraph && JsLess(from.sentence, to.sentence))
      || (from.paragraph == to.paragraph && from.sentence == to.sentence && JsLess(from.word, to.word));
    var fromLast :=
      || from.paragraph > to.paragraph
      || (from.paragraph == to.paragraph && JsLess(to.sentence, from.sentence))
      || (from.paragraph == to.paragraph && from.sentence == to.sentence && JsLess(to.word, from.word));
    Bounds(if fromFirst then from else to, if fromLast then from else to)
  }

  /** For word-level ends the bounds are the two ends in reading order; swapping the ends does not
      change them unless the ends share a key. */
  lemma BoundSortedOrdersEnds(from: Pos, to: Pos)
    requires IsWordPosition(from) && IsWordPosition(to)
    ensures var b := GetSelectionBoundSorted(Range(from, Some(to)));
      && IsWordPosition(b.lower) && IsWordPosition(b.upper)
      && !KeyBefore(b.upper, b.lower)
      && (if KeyBefore(from, to) then b == Bounds(from, to)
          else if KeyBefore(to, from) then b == Bounds(to, from)
          else b == Bounds(to, to) && Key(from) == Key(to))
    ensures Key(from) != Key(to) ==>
      GetSelectionBoundSorted(Range(to, Some(from))) == GetSelectionBoundSorted(Range(from, Some(to)))
  {
  }

  /** Without a `to` both bounds are the clone of `from`. */
  lemma BoundSortedAnchorOnly(from: Pos)
    ensures GetSelectionBoundSorted(Range(from, None)) == Bounds(ClonePosition(from), ClonePosition(from))
  {
  }

  /** The ends of a range whose `to` is present and whose `from` is word-level may be looked up. */
  ghost predicate FullSentenceDefined(doc: D.Document, range: Range) {
    range.to.Some? && range.from.word.Some? ==>
      && ValidRange(doc, range)
      && range.from.sentence.Some? && range.to.value.sentence.Some?
  }

  /** `isSelectingFullSentence`: the sorted range starts on a word 0 and ends on a sentence's last word. */
  function IsSelectingFullSentence(doc: D.Document, range: Range): (r: bool)
    requires FullSentenceDefined(doc, range)
    ensures r ==> range.to.Some? && range.from.word.Some?
    ensures r ==> GetSelectionBoundSorted(range).lower.word == Some(0)
    ensures r ==> var upper := GetSelectionBoundSorted(range).upper;
      && upper.sentence.Some? && 0 <= upper.paragraph < |doc| && 0 <= upper.sentence.value < |doc[upper.paragraph]|
      && upper.word == Some(|doc[upper.paragraph][upper.sentence.value]| - 1)
  {
    if range.to.None? || range.from.word.None? then false
    else
      var b := GetSelectionBoundSorted(range);
      var upper := b.upper;
      b.lower.word == Some(0) &&
      upper.word == Some(|doc[upper.paragraph][upper.sentence.value]| - 1)
  }

  /** Selecting a whole sentence, in either direction, is recognised as such. */
  lemma WholeSentenceIsFull(doc: D.Document, s: SentPos)
    requires D.WellFormed(doc) && ValidSent(doc, s)
    ensures var first := WordPos(s.paragraph, s.sentence, 0).ToBlock();
      var last := WordPos(s.paragraph, s.sentence, |doc[s.paragraph][s.sentence]| - 1).ToBlock();
      && IsSelectingFullSentence(doc, Range(first, Some(last)))
      && IsSelectingFullSentence(doc, Range(last, Some(first)))
  {
  }

  /** Repeats `getNextWordPosition(…, false) || w` (or the previous-word variant) `n` times. */
  function WalkWords(doc: D.Document, w: WordPos, n: nat, forward: bool): (r: WordPos)
    requires D.WellFormed(doc) && ValidWord(doc, w)
    ensures ValidWord(doc, r)
    ensures forward ==> WordAbs(doc, r) >= WordAbs(doc, w)
    ensures !forward ==> WordAbs(doc, r) <= WordAbs(doc, w)
    decreases n
  {
    if n == 0 then w
    else
      var step := if forward then GetNextWordPosition(doc, w, false) else GetPreviousWordPosition(doc, w, false);
      var next := step.OrElse(w);
      WordAbsOrder(doc, w, next);
      var r := WalkWords(doc, next, n - 1, forward);
      r
  }

  /** Inside one sentence a forward walk of `n` words lands exactly `n` words further on. */
  lemma {:induction false} WalkWithinSentenceForward(doc: D.Document, w: WordPos, n: nat)
    requires D.WellFormed(doc) && ValidWord(doc, w)
    requires w.word + n < |doc[w.paragraph][w.sentence]|
    ensures WalkWords(doc, w, n, true) == WordPos(w.paragraph, w.sentence, w.word + n)
    decreases n
  {
    if n > 0 {
      var next := WordPos(w.paragraph, w.sentence, w.word + 1);
      assert GetNextWordPosition(doc, w, false) == Some(next);
      WalkWithinSentenceForward(doc, next, n - 1);
    }
  }

  /** Inside one sentence a backward walk of `n` words lands exactly `n` words earlier. */
  lemma {:induction false} WalkWithinSentenceBackward(doc: D.Document, w: WordPos, n: nat)
    requires D.WellFormed(doc) && ValidWord(doc, w)
    requires n <= w.word
    ensures WalkWords(doc, w, n, false) == WordPos(w.paragraph, w.sentence, w.word - n)
    decreases n
  {
    if n > 0 {
      var next := WordPos(w.paragraph, w.sentence, w.word - 1);
      assert GetPreviousWordPosition(doc, w, false) == Some(next);
      WalkWithinSentenceBackward(doc, next, n - 1);
    }
  }

  /** Where the stepper gives `null` the walk stays put, however many steps remain. */
  lemma {:induction false} WalkWordsStops(doc: D.Document, w: WordPos, n: nat, forward: bool)
    requires D.WellFormed(doc) && ValidWord(doc, w)
    requires forward ==> GetNextWordPosition(doc, w, false).None?
    requires !forward ==> GetPreviousWordPosition(doc, w, false).None?
    ensures WalkWords(doc, w, n, forward) == w
    decreases n
  {
    if n > 0 {
      WalkWordsStops(doc, w, n - 1, forward);
    }
  }

  /** Where the stepper finds a word the walk really moves: it never stays on its start. */
  lemma WalkWordsProgress(doc: D.Document, w: WordPos, n: nat, forward: bool)
    requires D.WellFormed(doc) && ValidWord(doc, w) && n > 0
    requires forward ==> GetNextWordPosition(doc, w, false).Some?
    requires !forward ==> GetPreviousWordPosition(doc, w, false).Some?
    ensures forward ==> WordAbs(doc, WalkWords(doc, w, n, forward)) > WordAbs(doc, w)
    ensures !forward ==> WordAbs(doc, WalkWords(doc, w, n, forward)) < WordAbs(doc, w)
    ensures WalkWords(doc, w, n, forward) != w
  {
    var step := if forward then GetNextWordPosition(doc, w, false) else GetPreviousWordPosition(doc, w, false);
    WordAbsOrder(doc, w, step.value);
    var r := WalkWords(doc, step.value, n - 1, forward);
    assert WalkWords(doc, w, n, forward) == r;
  }

  function Abs(x: int): nat {
    if x < 0 then -x else x
  }

  /** `moveSelection`: both ends move by `offset` at the common precision; without `preserveRange`
      the result collapses onto the moved `to`. PARAGRAPH precision throws. */
  function MoveSelection(doc: D.Document, range: Range, offset: int, preserveRange: bool, ignore: bool)
    : (r: Result<Range>)
    requires D.WellFormed(doc) && ValidRange(doc, range)
    ensures r.Failure? <==> GetSelectionPrecision(range) == Paragraph
    ensures r.Success? ==> r.value.to.Some?
    ensures r.Success? && !preserveRange ==> r.value.to == Some(r.value.from)
    ensures r.Success? ==> GetPrecision(r.value.from) == GetSelectionPrecision(range)
    ensures var m := MatchPrecision([range.from, RangeToPosition(range)]);
      m.precision == Sentence ==>
        && r.value.to == Some(MoveSentencePosition(doc, SentOf(m.result[1]), offset, ignore).ToBlock())
        && (preserveRange ==> r.value.from == MoveSentencePosition(doc, SentOf(m.result[0]), offset, ignore).ToBlock())
    ensures var m := MatchPrecision([range.from, RangeToPosition(range)]);
      m.precision == Word ==>
        && r.value.to == Some(WalkWords(doc, WordOf(m.result[1]), Abs(offset), offset > 0).ToBlock())
        && (preserveRange ==> r.value.from == WalkWords(doc, WordOf(m.result[0]), Abs(offset), offset > 0).ToBlock())
  {
    var ends := [range.from, RangeToPosition(range)];
    var m := MatchPrecision(ends);
    assert ValidPos(doc, ends[0]) && ValidPos(doc, ends[1]);
    var from := m.result[0];
    var to := m.result[1];
    match m.precision
    case Paragraph => Failure("Function not implemented.")
    case Sentence =>
      var newFrom := MoveSentencePosition(doc, SentOf(from), offset, ignore).ToBlock();
      var newTo := MoveSentencePosition(doc, SentOf(to), offset, ignore).ToBlock();
      Success(Range(if preserveRange then newFrom else newTo, Some(newTo)))
    case Word =>
      var newFrom := WalkWords(doc, WordOf(from), Abs(offset), offset > 0).ToBlock();
      var newTo := WalkWords(doc, WordOf(to), Abs(offset), offset > 0).ToBlock();
      Success(Range(if preserveRange then newFrom else newTo, Some(newTo)))
  }

  /** At word precision both ends stay in bounds and move in the direction of `offset`. */
  lemma MoveSelectionWordDirection(doc: D.Document, from: WordPos, to: WordPos, offset: int, preserveRange: bool)
    requires D.WellFormed(doc) && ValidWord(doc, from) && ValidWord(doc, to)
    ensures var r := MoveSelection(doc, Range(from.ToBlock(), Some(to.ToBlock())), offset, preserveRange, true);
      && r.Success? && IsWordPosition(r.value.from) && ValidWord(doc, WordOf(r.value.from))
      && IsWordPosition(r.value.to.value) && ValidWord(doc, WordOf(r.value.to.value))
      && (offset > 0 ==> WordAbs(doc, WordOf(r.value.to.value)) >= WordAbs(doc, to))
      && (offset <= 0 ==> WordAbs(doc, WordOf(r.value.to.value)) <= WordAbs(doc, to))
      && (preserveRange && offset > 0 ==> WordAbs(doc, WordOf(r.value.from)) >= WordAbs(doc, from))
      && (preserveRange && offset <= 0 ==> WordAbs(doc, WordOf(r.value.from)) <= WordAbs(doc, from))
  {
    var m := MatchPrecision([from.ToBlock(), to.ToBlock()]);
    assert m.precision == Word;
    assert WordOf(m.result[0]) == from && WordOf(m.result[1]) == to;
  }

  /** Within one sentence without empty tokens, a collapsing move by one word lands on the word after
      the moved `to`. */
  lemma MoveSelectionCollapses(doc: D.Document, from: WordPos, to: WordPos)
    requires D.WellFormed(doc) && ValidWord(doc, from) && ValidWord(doc, to)
    requires to.word + 1 < |doc[to.paragraph][to.sentence]|
    ensures MoveSelection(doc, Range(from.ToBlock(), Some(to.ToBlock())), 1, false, true) ==
      Success(Range(WordPos(to.paragraph, to.sentence, to.word + 1).ToBlock(),
                    Some(WordPos(to.paragraph, to.sentence, to.word + 1).ToBlock())))
  {
    var m := MatchPrecision([from.ToBlock(), to.ToBlock()]);
    assert m.precision == Word;
    assert WordOf(m.result[0]) == from && WordOf(m.result[1]) == to;
    assert WalkWords(doc, to, 1, true) == WordPos(to.paragraph, to.sentence, to.word + 1);
  }

  /** At sentence precision each end is moved by `moveSentencePosition`. When the last paragraph is
      not skipped both ends stay in bounds and move in the direction of `offset`; when no paragraph is
      skipped each end's sentence ordinal moves by exactly `offset`, clamped to the document. */
  lemma MoveSelectionSentenceMoves(doc: D.Document, from: SentPos, to: SentPos, offset: int,
                                   preserveRange: bool, ignore: bool)
    requires D.WellFormed(doc) && ValidSent(doc, from) && ValidSent(doc, to)
    ensures var r := MoveSelection(doc, Range(from.ToBlock(), Some(to.ToBlock())), offset, preserveRange, ignore);
      && r.Success? && IsSentencePosition(r.value.from) && IsSentencePosition(r.value.to.value)
      && SentOf(r.value.to.value) == MoveSentencePosition(doc, to, offset, ignore)
      && (preserveRange ==> SentOf(r.value.from) == MoveSentencePosition(doc, from, offset, ignore))
      && ((!ignore || !BlankParagraph(doc[|doc| - 1])) ==>
            && ValidSent(doc, SentOf(r.value.to.value)) && ValidSent(doc, SentOf(r.value.from))
            && (offset >= 0 ==> SentenceAbs(doc, SentOf(r.value.to.value)) >= SentenceAbs(doc, to))
            && (offset <= 0 ==> SentenceAbs(doc, SentOf(r.value.to.value)) <= SentenceAbs(doc, to)))
      && (NoBlankSkips(doc, ignore) ==>
            SentenceAbs(doc, SentOf(r.value.to.value)) == Clamp(SentenceAbs(doc, to) + offset, 0, TotalSentences(doc) - 1))
      && (preserveRange && NoBlankSkips(doc, ignore) ==>
            SentenceAbs(doc, SentOf(r.value.from)) == Clamp(SentenceAbs(doc, from) + offset, 0, TotalSentences(doc) - 1))
  {
    var m := MatchPrecision([from.ToBlock(), to.ToBlock()]);
    assert m.precision == Sentence;
    assert SentOf(m.result[0]) == from && SentOf(m.result[1]) == to;
    if !ignore || !BlankParagraph(doc[|doc| - 1]) {
      MoveSentenceInBounds(doc, from, offset, ignore);
      MoveSentenceInBounds(doc, to, offset, ignore);
    }
    if NoBlankSkips(doc, ignore) {
      MoveSentenceClamp(doc, from, offset, ignore);
      MoveSentenceClamp(doc, to, offset, ignore);
    }
  }

  /** A preserved sentence range that is not pushed against either end of the document keeps its
      width. */
  lemma MoveSelectionKeepsWidth(doc: D.Document, from: SentPos, to: SentPos, offset: int, ignore: bool)
    requires D.WellFormed(doc) && ValidSent(doc, from) && ValidSent(doc, to) && NoBlankSkips(doc, ignore)
    requires 0 <= SentenceAbs(doc, from) + offset < TotalSentences(doc)
    requires 0 <= SentenceAbs(doc, to) + offset < TotalSentences(doc)
    ensures var r := MoveSelection(doc, Range(from.ToBlock(), Some(to.ToBlock())), offset, true, ignore);
      && r.Success? && IsSentencePosition(r.value.from) && IsSentencePosition(r.value.to.value)
      && SentenceAbs(doc, SentOf(r.value.to.value)) - SentenceAbs(doc, SentOf(r.value.from)) ==
         SentenceAbs(doc, to) - SentenceAbs(doc, from)
  {
    MoveSelectionSentenceMoves(doc, from, to, offset, true, ignore);
  }

  /** A word-level move that stays inside `to`'s sentence lands exactly `offset` words from `to`;
      with `preserveRange` and the same for `from`, the range keeps its shape. */
  lemma MoveSelectionWithinSentence(doc: D.Document, from: WordPos, to: WordPos, offset: int,
                                    preserveRange: bool, ignore: bool)
    requires D.WellFormed(doc) && ValidWord(doc, from) && ValidWord(doc, to)
    requires 0 <= to.word + offset < |doc[to.paragraph][to.sentence]|
    ensures var r := MoveSelection(doc, Range(from.ToBlock(), Some(to.ToBlock())), offset, preserveRange, ignore);
      && r.Success?
      && r.value.to == Some(WordPos(to.paragraph, to.sentence, to.word + offset).ToBlock())
      && (!preserveRange ==> r.value.from == WordPos(to.paragraph, to.sentence, to.word + offset).ToBlock())
      && (preserveRange && 0 <= from.word + offset < |doc[from.paragraph][from.sentence]| ==>
            r.value.from == WordPos(from.paragraph, from.sentence, from.word + offset).ToBlock())
  {
    var m := MatchPrecision([from.ToBlock(), to.ToBlock()]);
    assert m.precision == Word;
    assert WordOf(m.result[0]) == from && WordOf(m.result[1]) == to;
    if offset > 0 {
      WalkWithinSentenceForward(doc, to, offset);
      if 0 <= from.word + offset < |doc[from.paragraph][from.sentence]| {
        WalkWithinSentenceForward(doc, from, offset);
      }
    } else {
      WalkWithinSentenceBackward(doc, to, -offset);
      if 0 <= from.word + offset < |doc[from.paragraph][from.sentence]| {
        WalkWithinSentenceBackward(doc, from, -offset);
      }
    }
  }

  /** `moveSelectionBySentence`. A word-level `from` is cut down to its sentence and the offset is
      ignored; otherwise both ends move by `offset` sentences. */
  function MoveSelectionBySentence(doc: D.Document, range: Range, offset: int, preserveRange: bool, ignore: bool)
    : (r: Range)
    requires range.from.sentence.Some? && RangeToPosition(range).sentence.Some?
    requires offset != 0 ==> 0 <= range.from.paragraph < |doc| && 0 <= RangeToPosition(range).paragraph < |doc|
    ensures r.to.Some? && IsSentencePosition(r.from) && IsSentencePosition(r.to.value)
    ensures IsWordPosition(range.from) ==>
      r == Range(SentOf(range.from).ToBlock(), Some(SentOf(range.from).ToBlock()))
    ensures !preserveRange ==> r.to == Some(r.from)
    ensures !IsWordPosition(range.from) ==>
      r.to == Some(MoveSentencePosition(doc, SentOf(RangeToPosition(range)), offset, ignore).ToBlock())
    ensures !IsWordPosition(range.from) && preserveRange ==>
      r.from == MoveSentencePosition(doc, SentOf(range.from), offset, ignore).ToBlock()
  {
    if IsWordPosition(range.from) then
      var sentence := SentOf(range.from).ToBlock();
      Range(sentence, Some(sentence))
    else
      var newFrom := MoveSentencePosition(doc, SentOf(range.from), offset, ignore).ToBlock();
      var newTo := MoveSentencePosition(doc, SentOf(RangeToPosition(range)), offset, ignore).ToBlock();
      Range(if preserveRange then newFrom else newTo, Some(newTo))
  }

  /** `expandSelection`: the harmonised `from` stays, only `to` moves. PARAGRAPH precision throws. */
  function ExpandSelection(doc: D.Document, range: Range, offset: int): (r: Result<Range>)
    requires D.WellFormed(doc) && ValidRange(doc, range)
    ensures r.Failure? <==> GetSelectionPrecision(range) == Paragraph
    ensures r.Success? ==> r.value.from == MatchPrecision([range.from, RangeToPosition(range)]).result[0]
    ensures r.Success? ==> r.value.to.Some? && GetPrecision(r.value.to.value) == GetSelectionPrecision(range)
    ensures var m := MatchPrecision([range.from, RangeToPosition(range)]);
      m.precision == Sentence ==>
        r.value.to == Some(MoveSentencePosition(doc, SentOf(m.result[1]), offset, true).ToBlock())
    ensures var m := MatchPrecision([range.from, RangeToPosition(range)]);
      m.precision == Word ==>
        r.value.to == Some(WalkWords(doc, WordOf(m.result[1]), Abs(offset), offset > 0).ToBlock())
  {
    var ends := [range.from, RangeToPosition(range)];
    var m := MatchPrecision(ends);
    assert ValidPos(doc, ends[0]) && ValidPos(doc, ends[1]);
    var from := m.result[0];
    var to := m.result[1];
    match m.precision
    case Sentence => Success(Range(from, Some(MoveSentencePosition(doc, SentOf(to), offset, true).ToBlock())))
    case Paragraph => Failure("Paragraph-level expansion not implemented.")
    case Word => Success(Range(from, Some(WalkWords(doc, WordOf(to), Abs(offset), offset > 0).ToBlock())))
  }

  /** When `from` is already at the common precision, expanding keeps it exactly. */
  lemma ExpandKeepsAnchor(doc: D.Document, range: Range, offset: int)
    requires D.WellFormed(doc) && ValidRange(doc, range)
    requires range.from.character.None? && GetPrecision(range.from) == GetSelectionPrecision(range)
    ensures ExpandSelection(doc, range, offset).Success? ==> ExpandSelection(doc, range, offset).value.from == range.from
  {
  }

  /** Expanding moves `to` exactly as a preserving move that skips blank paragraphs does, and leaves
      the harmonised `from` where it was. */
  lemma ExpandMatchesMove(doc: D.Document, range: Range, offset: int)
    requires D.WellFormed(doc) && ValidRange(doc, range)
    ensures ExpandSelection(doc, range, offset).Success? == MoveSelection(doc, range, offset, true, true).Success?
    ensures ExpandSelection(doc, range, offset).Success? ==>
      && ExpandSelection(doc, range, offset).value.to == MoveSelection(doc, range, offset, true, true).value.to
      && ExpandSelection(doc, range, offset).value.from == MatchPrecision([range.from, RangeToPosition(range)]).result[0]
  {
  }
}
