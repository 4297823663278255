/** The cursor state and the pure bodies of its updaters: `selectFrom`, `selectTo`, the Shift level
    switch, every hotkey's `setSelectionRange(prev => …)` body, and Escape, as one transition function. */
module CursorMachine {
  import opened Options
  import D = DocumentModel
  import opened Positions
  import opened Ordinals
  import opened SentenceNav
  import opened WordNav
  import opened Punctuation
  import opened Selection
  import opened WordRegistry

  datatype CursorState = CursorState(position: Pos, isSelecting: bool, selectionLevel: Precision, range: Option<Range>)

  /** The provider's initial state. */
  const Initial: CursorState := CursorState(WORD_ZERO, false, Word, None)

  /** The visual word registry as seen by the vertical arrows: `getWordVisualPositionInfo`, and the
      positions of the results of `getWordAbove` / `getWordBelow`. */
  datatype Visual = Visual(
    info: WordPos -> Option<VisualPos>,
    above: VisualPos -> Option<WordPos>,
    below: VisualPos -> Option<WordPos>)

  datatype Command =
    | SelectFrom(pos: Pos)
    | SelectTo(pos: Pos)
    | StopSelecting
    | ClearSelection
    | SetPosition(pos: Pos)
    | ShiftDown
    | ShiftUp
    | ArrowUp
    | ArrowDown
    | ArrowLeft
    | ArrowRight
    | ShiftTab
    | Tab
    | AltLeft
    | AltRight
    | MetaShiftDown
    | MetaShiftUp
    | ShiftArrowUp
    | ShiftArrowDown
    | ShiftArrowLeft
    | ShiftArrowRight
    | AltDown
    | AltUp
    | AltShiftUp
    | AltShiftDown
    | AltShiftLeft
    | AltShiftRight
    | Escape

  /** A range whose ends are in bounds and carry a sentence, as every handler expects. */
  ghost predicate Anchored(doc: D.Document, range: Range) {
    ValidRange(doc, range) && range.from.sentence.Some? && RangeToPosition(range).sentence.Some?
  }

  ghost predicate AnchoredOpt(doc: D.Document, range: Option<Range>) {
    range.Some? ==> Anchored(doc, range.value)
  }

  ghost predicate ValidState(doc: D.Document, st: CursorState) {
    && D.WellFormed(doc)
    && ValidPos(doc, st.position) && st.position.sentence.Some?
    && AnchoredOpt(doc, st.range)
  }

  /** Positions handed in by the blocks are in bounds and carry a sentence. */
  ghost predicate CommandFits(doc: D.Document, cmd: Command) {
    (cmd.SelectFrom? || cmd.SelectTo? || cmd.SetPosition?) ==> ValidPos(doc, cmd.pos) && cmd.pos.sentence.Some?
  }

  /** The registry only hands out positions of the current document. */
  ghost predicate VisualSound(doc: D.Document, vis: Visual) {
    && (forall v :: vis.above(v).Some? ==> ValidWord(doc, vis.above(v).value))
    && (forall v :: vis.below(v).Some? ==> ValidWord(doc, vis.below(v).value))
  }

  function Offset(forward: bool): int {
    if forward then 1 else -1
  }

  /** The anchor an arrow key creates from no selection: `convertToSentencePosition(position)` with
      the default `"start"`, which is always sentence 0 of the cursor's paragraph. */
  function SentenceAnchor(doc: D.Document, position: Pos): (r: Range)
    ensures r == Range(SentPos(position.paragraph, 0).ToBlock(), Some(SentPos(position.paragraph, 0).ToBlock()))
  {
    var anchor := ConvertToSentencePosition(doc, position, Start);
    Range(anchor, Some(anchor))
  }

  lemma ConvertToWordPositionValid(doc: D.Document, pos: Pos, rounding: Rounding)
    requires D.WellFormed(doc) && ValidPos(doc, pos) && pos.sentence.Some?
    ensures IsWordPosition(ConvertToWordPosition(doc, pos, rounding))
    ensures ValidWord(doc, WordOf(ConvertToWordPosition(doc, pos, rounding)))
    ensures ValidPos(doc, ConvertToWordPosition(doc, pos, rounding))
  {
  }

  /** `moveSelection` and `expandSelection` throw only at paragraph precision, which an anchored range
      never has: no hotkey throws from a valid state. */
  lemma AnchoredNeverParagraph(doc: D.Document, range: Range)
    requires D.WellFormed(doc) && Anchored(doc, range)
    ensures GetSelectionPrecision(range) != Paragraph
    ensures forall offset, preserve, ignore :: MoveSelection(doc, range, offset, preserve, ignore).Success?
    ensures forall offset :: ExpandSelection(doc, range, offset).Success?
  {
  }

  /** ArrowUp / ArrowDown. */
  function ArrowVerticalRange(doc: D.Document, position: Pos, prev: Option<Range>, down: bool, vis: Visual)
    : (r: Option<Range>)
    requires D.WellFormed(doc) && AnchoredOpt(doc, prev)
    ensures prev.None? ==> r == Some(SentenceAnchor(doc, position))
    ensures prev.Some? ==> r.Some?
    ensures prev.Some? && GetSelectionPrecision(prev.value) != Word ==>
      r == Some(MoveSelectionBySentence(doc, prev.value, Offset(down), false, true))
    ensures prev.Some? && GetSelectionPrecision(prev.value) == Word && IsSelectingFullSentence(doc, prev.value) ==>
      && r == Some(MoveSelectionBySentence(doc, ConvertSelectionPrecision(prev.value, Sentence), Offset(down), false, true))
      && r.value.to == Some(r.value.from) && IsSentencePosition(r.value.from)
    ensures prev.Some? && GetSelectionPrecision(prev.value) == Word && !IsSelectingFullSentence(doc, prev.value) ==>
      var info := vis.info(WordOf(RangeToPosition(prev.value)));
      var target := if info.None? then None else if down then vis.below(info.value) else vis.above(info.value);
      r == if target.None? then prev else Some(Range(target.value.ToBlock(), None))
  {
    if prev.None? then Some(SentenceAnchor(doc, position))
    else
      var range := prev.value;
      if GetSelectionPrecision(range) == Word then
        if IsSelectingFullSentence(doc, range) then
          Some(MoveSelectionBySentence(doc, ConvertSelectionPrecision(range, Sentence), Offset(down), false, true))
        else
          var current := RangeToPosition(range);
          var visual := vis.info(WordOf(current));
          if visual.None? then prev
          else
            var target := if down then vis.below(visual.value) else vis.above(visual.value);
            if target.None? then prev
            else Some(CreateSelection(Some(target.value.ToBlock()), None, None))
      else Some(MoveSelectionBySentence(doc, range, Offset(down), false, true))
  }

  /** ArrowLeft / ArrowRight. */
  function ArrowHorizontalRange(doc: D.Document, position: Pos, prev: Option<Range>, right: bool)
    : (r: Option<Range>)
    requires D.WellFormed(doc) && AnchoredOpt(doc, prev)
    ensures r.Some?
    ensures prev.None? ==> r == Some(Range(position, Some(position)))
    ensures prev.Some? && IsSentencePosition(RangeToPosition(prev.value)) ==>
      var p := RangeToPosition(prev.value);
      var s := p.sentence.value;
      r == Some(Range(WordPos(p.paragraph, s, if right then |doc[p.paragraph][s]| - 1 else 0).ToBlock(), None))
    ensures prev.Some? && !IsSentencePosition(RangeToPosition(prev.value)) ==>
      r.value == MoveSelection(doc, prev.value, Offset(right), false, true).value && r.value.to == Some(r.value.from)
  {
    if prev.None? then Some(Range(position, Some(position)))
    else
      var range := prev.value;
      var prevPosition := RangeToPosition(range);
      if IsSentencePosition(prevPosition) then
        Some(Range(ConvertToWordPosition(doc, prevPosition, if right then End else Start), None))
      else
        AnchoredNeverParagraph(doc, range);
        Some(MoveSelection(doc, range, Offset(right), false, true).value)
  }

  /** Tab / Shift+Tab. */
  function TabRange(doc: D.Document, position: Pos, prev: Option<Range>, forward: bool): (r: Option<Range>)
    requires D.WellFormed(doc) && AnchoredOpt(doc, prev)
    ensures prev.None? ==> r == Some(SentenceAnchor(doc, position))
    ensures r.Some? && r.value.to == Some(r.value.from)
    ensures prev.Some? && IsWordPosition(prev.value.from) ==>
      r == Some(Range(SentOf(prev.value.from).ToBlock(), Some(SentOf(prev.value.from).ToBlock())))
    ensures prev.Some? ==> r == Some(MoveSelectionBySentence(doc, prev.value, Offset(forward), false, true))
  {
    if prev.None? then Some(SentenceAnchor(doc, position))
    else Some(MoveSelectionBySentence(doc, prev.value, Offset(forward), false, true))
  }

  /** Alt+ArrowLeft / Alt+ArrowRight: jump to the punctuation stop; none found gives `WORD_ZERO`. */
  function AltHorizontalRange(doc: D.Document, prev: Option<Range>, right: bool): (r: Option<Range>)
    requires D.WellFormed(doc) && AnchoredOpt(doc, prev)
    ensures prev.None? ==> r.None?
    ensures prev.Some? ==> r.Some? && r.value.to.None? && IsWordPosition(r.value.from) && ValidWord(doc, WordOf(r.value.from))
  {
    if prev.None? then None
    else
      var pos := ConvertToWordPosition(doc, RangeToPosition(prev.value), Start);
      ConvertToWordPositionValid(doc, RangeToPosition(prev.value), Start);
      var stop := if right then GetNextPunctuationPosition(doc, WordOf(pos)) else GetPrevPunctuationPosition(doc, WordOf(pos));
      if stop.None? then Some(CreateSelection(None, None, Some(Word)))
      else Some(CreateSelection(Some(stop.value.ToBlock()), None, Some(Word)))
  }

  /** Meta+Shift+ArrowUp / Meta+Shift+ArrowDown: move the whole range, keeping its extent. */
  function MetaShiftVerticalRange(doc: D.Document, prev: Option<Range>, down: bool): (r: Option<Range>)
    requires D.WellFormed(doc) && AnchoredOpt(doc, prev)
    ensures prev.None? ==> r.None?
    ensures prev.Some? ==> r.Some? && r.value.to.Some?
  {
    if prev.None? then None
    else
      AnchoredNeverParagraph(doc, prev.value);
      Some(MoveSelection(doc, prev.value, Offset(down), true, true).value)
  }

  /** Shift+ArrowUp / Shift+ArrowDown: switch to sentence precision, or grow the sentence range. */
  function ShiftVerticalRange(doc: D.Document, prev: Option<Range>, down: bool): (r: Option<Range>)
    requires D.WellFormed(doc) && AnchoredOpt(doc, prev)
    ensures prev.None? ==> r.None?
    ensures prev.Some? ==> r.Some?
    ensures prev.Some? ==> r.value.from == CreatePosition(prev.value.from, Some(Sentence))
    ensures prev.Some? && GetPrecision(prev.value.from) != Sentence ==>
      r.value == CreateSelection(Some(prev.value.from), prev.value.to, Some(Sentence))
    ensures prev.Some? && GetPrecision(prev.value.from) == Sentence ==>
      var selection := CreateSelection(Some(prev.value.from), prev.value.to, Some(Sentence));
      && ExpandSelection(doc, selection, Offset(down)).Success?
      && r.value.to == ExpandSelection(doc, selection, Offset(down)).value.to
  {
    if prev.None? then None
    else
      var range := prev.value;
      var selection := CreateSelection(Some(range.from), range.to, Some(Sentence));
      if GetPrecision(range.from) != Sentence then Some(selection)
      else Some(ExpandSelection(doc, selection, Offset(down)).value)
  }

  /** Shift+ArrowLeft / Shift+ArrowRight: switch to word precision, or grow the word range. */
  function ShiftHorizontalRange(doc: D.Document, prev: Option<Range>, right: bool): (r: Option<Range>)
    requires D.WellFormed(doc) && AnchoredOpt(doc, prev)
    ensures prev.None? ==> r.None?
    ensures prev.Some? ==> r.Some?
    ensures prev.Some? ==> r.value.from == CreatePosition(prev.value.from, Some(Word))
    ensures prev.Some? && GetPrecision(prev.value.from) != Word ==>
      r.value == CreateSelection(Some(prev.value.from), prev.value.to, Some(Word))
    ensures prev.Some? && GetPrecision(prev.value.from) == Word ==>
      var selection := CreateSelection(Some(prev.value.from), prev.value.to, Some(Word));
      && ExpandSelection(doc, selection, Offset(right)).Success?
      && r.value.to == ExpandSelection(doc, selection, Offset(right)).value.to
  {
    if prev.None? then None
    else
      var range := prev.value;
      var selection := CreateSelection(Some(range.from), range.to, Some(Word));
      if GetPrecision(range.from) != Word then Some(selection)
      else Some(ExpandSelection(doc, selection, Offset(right)).value)
  }

  /** Alt+ArrowDown / Alt+ArrowUp: collapse onto the paragraph boundary sentence, if there is one. */
  function AltVerticalRange(doc: D.Document, prev: Option<Range>, down: bool): (r: Option<Range>)
    requires D.WellFormed(doc) && AnchoredOpt(doc, prev)
    ensures prev.None? ==> r.None?
    ensures prev.Some? ==> r.Some?
    ensures prev.Some? && r != prev ==> r.value.to == Some(r.value.from) && IsSentencePosition(r.value.from)
  {
    if prev.None? then None
    else
      var range := prev.value;
      var boundary := if down then GetNextParagraphLastSentence(doc, range.from, true)
                      else GetPrevParagraphFirstSentence(doc, range.from, true);
      if boundary.None? then prev
      else Some(Range(boundary.value.ToBlock(), Some(boundary.value.ToBlock())))
  }

  /** Alt+Shift+ArrowUp / Alt+Shift+ArrowDown: extend `to` to the paragraph boundary sentence; `to`
      becomes `null` when there is none. */
  function AltShiftVerticalRange(doc: D.Document, prev: Option<Range>, down: bool): (r: Option<Range>)
    requires D.WellFormed(doc) && AnchoredOpt(doc, prev)
    ensures prev.None? ==> r.None?
    ensures prev.Some? ==> r.Some? && r.value.from == prev.value.from
    ensures prev.Some? && r.value.to.Some? ==> IsSentencePosition(r.value.to.value)
  {
    if prev.None? then None
    else
      var range := prev.value;
      var end := range.to.OrElse(range.from);
      var boundary := if down then GetNextParagraphLastSentence(doc, end, true)
                      else GetPrevParagraphFirstSentence(doc, end, true);
      Some(Range(range.from, if boundary.None? then None else Some(boundary.value.ToBlock())))
  }

  /** Alt+Shift+ArrowLeft / Alt+Shift+ArrowRight: extend `to` to the punctuation stop. */
  function AltShiftHorizontalRange(doc: D.Document, prev: Option<Range>, right: bool): (r: Option<Range>)
    requires D.WellFormed(doc) && AnchoredOpt(doc, prev)
    ensures prev.None? ==> r.None?
    ensures prev.Some? ==> r.Some?
    ensures prev.Some? && GetPrecision(prev.value.from) == Word ==> r.value.from == prev.value.from
    ensures prev.Some? && GetPrecision(prev.value.from) != Word ==>
      r.value == CreateSelection(Some(prev.value.from), Some(RangeToPosition(prev.value)), Some(Word))
  {
    if prev.None? then None
    else
      var range := prev.value;
      var selection := CreateSelection(Some(range.from), Some(RangeToPosition(range)), Some(Word));
      if GetPrecision(range.from) != Word then Some(selection)
      else
        var end := selection.to.value;
        ConvertToWordPositionValid(doc, end, Start);
        var stop := if right then GetNextPunctuationPosition(doc, WordOf(end)) else GetPrevPunctuationPosition(doc, WordOf(end));
        Some(Range(range.from, if stop.None? then None else Some(stop.value.ToBlock())))
  }

  /** Escape: the cursor lands on the word form of the last boundary of the range. */
  function EscapeState(doc: D.Document, st: CursorState): (r: CursorState)
    requires ValidState(doc, st)
    ensures r.range.None? && !r.isSelecting && r.selectionLevel == Word
    ensures IsWordPosition(r.position) && ValidPos(doc, r.position)
    ensures st.range.None? ==> r.position == WORD_ZERO
    ensures st.range.Some? ==>
      r.position == ConvertToWordPosition(doc, st.range.value.to.OrElse(st.range.value.from), Start)
  {
    var last := if st.range.None? then WORD_ZERO else st.range.value.to.OrElse(st.range.value.from);
    ConvertToWordPositionValid(doc, last, Start);
    CursorState(ConvertToWordPosition(doc, last, Start), false, Word, None)
  }

  /** One command applied to the cursor state. */
  function Step(doc: D.Document, st: CursorState, cmd: Command, vis: Visual): (r: CursorState)
    requires ValidState(doc, st) && CommandFits(doc, cmd)
    ensures !cmd.SetPosition? && !cmd.Escape? ==> r.position == st.position
    ensures r.isSelecting <==> cmd.SelectFrom? || (st.isSelecting && !cmd.StopSelecting? && !cmd.Escape?)
    ensures cmd.SelectFrom? ==> r.selectionLevel == GetPrecision(cmd.pos) && r.range == Some(Range(cmd.pos, None))
    ensures cmd.SelectTo? ==>
      && r.range == Some(Range(if st.range.Some? then st.range.value.from else WORD_ZERO, Some(cmd.pos)))
      && r.selectionLevel == st.selectionLevel
    ensures cmd.ShiftDown? ==> r == st.(selectionLevel := Sentence)
    ensures cmd.ShiftUp? ==> r == st.(selectionLevel := Word)
    ensures cmd.StopSelecting? ==> r.range == st.range && r.selectionLevel == st.selectionLevel
    ensures cmd.ClearSelection? ==> r.range.None? && r.selectionLevel == st.selectionLevel
  {
    var prev := st.range;
    match cmd
    case SelectFrom(pos) => st.(isSelecting := true, selectionLevel := GetPrecision(pos), range := Some(Range(pos, None)))
    case SelectTo(pos) => st.(range := Some(Range(if prev.Some? then prev.value.from else WORD_ZERO, Some(pos))))
    case StopSelecting => st.(isSelecting := false)
    case ClearSelection => st.(range := None)
    case SetPosition(pos) => st.(position := pos)
    case ShiftDown => st.(selectionLevel := Sentence)
    case ShiftUp => st.(selectionLevel := Word)
    case ArrowUp => st.(range := ArrowVerticalRange(doc, st.position, prev, false, vis))
    case ArrowDown =>
      var level := if prev.Some? && GetSelectionPrecision(prev.value) != Word then Sentence else st.selectionLevel;
      st.(selectionLevel := level, range := ArrowVerticalRange(doc, st.position, prev, true, vis))
    case ArrowLeft => st.(selectionLevel := Word, range := ArrowHorizontalRange(doc, st.position, prev, false))
    case ArrowRight => st.(selectionLevel := Word, range := ArrowHorizontalRange(doc, st.position, prev, true))
    case ShiftTab =>
      var level := if prev.Some? then Sentence else st.selectionLevel;
      st.(selectionLevel := level, range := TabRange(doc, st.position, prev, false))
    case Tab =>
      var level := if prev.Some? then Sentence else st.selectionLevel;
      st.(selectionLevel := level, range := TabRange(doc, st.position, prev, true))
    case AltLeft => st.(range := AltHorizontalRange(doc, prev, false))
    case AltRight => st.(range := AltHorizontalRange(doc, prev, true))
    case MetaShiftDown => st.(range := MetaShiftVerticalRange(doc, prev, true))
    case MetaShiftUp => st.(range := MetaShiftVerticalRange(doc, prev, false))
    case ShiftArrowUp => st.(range := ShiftVerticalRange(doc, prev, false))
    case ShiftArrowDown => st.(range := ShiftVerticalRange(doc, prev, true))
    case ShiftArrowLeft => st.(range := ShiftHorizontalRange(doc, prev, false))
    case ShiftArrowRight => st.(range := ShiftHorizontalRange(doc, prev, true))
    case AltDown => st.(range := AltVerticalRange(doc, prev, true))
    case AltUp => st.(range := AltVerticalRange(doc, prev, false))
    case AltShiftUp => st.(range := AltShiftVerticalRange(doc, prev, false))
    case AltShiftDown => st.(range := AltShiftVerticalRange(doc, prev, true))
    case AltShiftLeft => st.(range := AltShiftHorizontalRange(doc, prev, false))
    case AltShiftRight => st.(range := AltShiftHorizontalRange(doc, prev, true))
    case Escape => EscapeState(doc, st)
  }

  /** The document parses and its last paragraph is not blank: `moveSentencePosition` with blank
      paragraphs skipped then stays inside it (`SentenceNav.MoveSentenceInBounds`). */
  ghost predicate Settled(doc: D.Document) {
    D.WellFormed(doc) && !BlankParagraph(doc[|doc| - 1])
  }

  lemma MoveBySentenceAnchored(doc: D.Document, range: Range, offset: int, preserveRange: bool)
    requires Settled(doc) && Anchored(doc, range)
    ensures Anchored(doc, MoveSelectionBySentence(doc, range, offset, preserveRange, true))
  {
    if !IsWordPosition(range.from) {
      MoveSentenceInBounds(doc, SentOf(range.from), offset, true);
      MoveSentenceInBounds(doc, SentOf(RangeToPosition(range)), offset, true);
    }
  }

  lemma MoveSelectionAnchored(doc: D.Document, range: Range, offset: int, preserveRange: bool)
    requires Settled(doc) && Anchored(doc, range)
    ensures MoveSelection(doc, range, offset, preserveRange, true).Success?
    ensures Anchored(doc, MoveSelection(doc, range, offset, preserveRange, true).value)
  {
    var ends := [range.from, RangeToPosition(range)];
    assert ValidPos(doc, ends[0]) && ValidPos(doc, ends[1]);
    var m := MatchPrecision(ends);
    if m.precision == Sentence {
      var a, b := SentOf(m.result[0]), SentOf(m.result[1]);
      assert ValidSent(doc, a) && ValidSent(doc, b);
      MovedSentencesAnchored(doc, a, b, offset, preserveRange);
    }
  }

  /** Both ends of a sentence range moved with blank paragraphs skipped stay in the document. */
  lemma MovedSentencesAnchored(doc: D.Document, a: SentPos, b: SentPos, offset: int, preserveRange: bool)
    requires Settled(doc) && ValidSent(doc, a) && ValidSent(doc, b)
    ensures var newFrom, newTo := MoveSentencePosition(doc, a, offset, true), MoveSentencePosition(doc, b, offset, true);
      Anchored(doc, Range(if preserveRange then newFrom.ToBlock() else newTo.ToBlock(), Some(newTo.ToBlock())))
  {
    MoveSentenceInBounds(doc, a, offset, true);
    MoveSentenceInBounds(doc, b, offset, true);
  }

  lemma ExpandAnchored(doc: D.Document, range: Range, offset: int)
    requires Settled(doc) && Anchored(doc, range)
    ensures ExpandSelection(doc, range, offset).Success?
    ensures Anchored(doc, ExpandSelection(doc, range, offset).value)
  {
    var ends := [range.from, RangeToPosition(range)];
    assert ValidPos(doc, ends[0]) && ValidPos(doc, ends[1]);
    var m := MatchPrecision(ends);
    if m.precision == Sentence {
      MoveSentenceInBounds(doc, SentOf(m.result[1]), offset, true);
    }
  }

  lemma ArrowVerticalAnchored(doc: D.Document, position: Pos, range: Range, down: bool, vis: Visual)
    requires Settled(doc) && Anchored(doc, range) && VisualSound(doc, vis)
    ensures AnchoredOpt(doc, ArrowVerticalRange(doc, position, Some(range), down, vis))
  {
    if GetSelectionPrecision(range) == Word {
      if IsSelectingFullSentence(doc, range) {
        MoveBySentenceAnchored(doc, ConvertSelectionPrecision(range, Sentence), Offset(down), false);
      }
    } else {
      MoveBySentenceAnchored(doc, range, Offset(down), false);
    }
  }

  lemma ArrowHorizontalAnchored(doc: D.Document, range: Range, right: bool)
    requires Settled(doc) && Anchored(doc, range)
    ensures forall position :: AnchoredOpt(doc, ArrowHorizontalRange(doc, position, Some(range), right))
  {
    var prevPosition := RangeToPosition(range);
    if IsSentencePosition(prevPosition) {
      ConvertToWordPositionValid(doc, prevPosition, if right then End else Start);
    } else {
      MoveSelectionAnchored(doc, range, Offset(right), false);
    }
  }

  lemma ShiftAnchored(doc: D.Document, range: Range, forward: bool)
    requires Settled(doc) && Anchored(doc, range)
    ensures AnchoredOpt(doc, ShiftVerticalRange(doc, Some(range), forward))
    ensures AnchoredOpt(doc, ShiftHorizontalRange(doc, Some(range), forward))
  {
    var sentences := CreateSelection(Some(range.from), range.to, Some(Sentence));
    var words := CreateSelection(Some(range.from), range.to, Some(Word));
    if GetPrecision(range.from) == Sentence {
      ExpandAnchored(doc, sentences, Offset(forward));
    }
    if GetPrecision(range.from) == Word {
      ExpandAnchored(doc, words, Offset(forward));
    }
  }

  lemma AltHorizontalAnchored(doc: D.Document, prev: Option<Range>, right: bool)
    requires Settled(doc) && AnchoredOpt(doc, prev)
    ensures AnchoredOpt(doc, AltHorizontalRange(doc, prev, right))
  {
  }

  lemma AltVerticalAnchored(doc: D.Document, prev: Option<Range>, down: bool)
    requires Settled(doc) && AnchoredOpt(doc, prev)
    ensures AnchoredOpt(doc, AltVerticalRange(doc, prev, down))
    ensures AnchoredOpt(doc, AltShiftVerticalRange(doc, prev, down))
  {
  }

  lemma AltShiftHorizontalAnchored(doc: D.Document, prev: Option<Range>, right: bool)
    requires Settled(doc) && AnchoredOpt(doc, prev)
    ensures AnchoredOpt(doc, AltShiftHorizontalRange(doc, prev, right))
  {
  }

  /** Every command keeps a valid state valid, provided the registry only reports words of the
      document and the last paragraph is not blank (`TabOverrun` shows the second is needed). */
  lemma StepPreservesValidState(doc: D.Document, st: CursorState, cmd: Command, vis: Visual)
    requires Settled(doc) && ValidState(doc, st) && CommandFits(doc, cmd) && VisualSound(doc, vis)
    ensures ValidState(doc, Step(doc, st, cmd, vis))
  {
    var prev := st.range;
    match cmd {
      case ArrowUp => if prev.Some? { ArrowVerticalAnchored(doc, st.position, prev.value, false, vis); }
      case ArrowDown => if prev.Some? { ArrowVerticalAnchored(doc, st.position, prev.value, true, vis); }
      case ArrowLeft => if prev.Some? { ArrowHorizontalAnchored(doc, prev.value, false); }
      case ArrowRight => if prev.Some? { ArrowHorizontalAnchored(doc, prev.value, true); }
      case ShiftTab => if prev.Some? { MoveBySentenceAnchored(doc, prev.value, -1, false); }
      case Tab => if prev.Some? { MoveBySentenceAnchored(doc, prev.value, 1, false); }
      case AltLeft => AltHorizontalAnchored(doc, prev, false);
      case AltRight => AltHorizontalAnchored(doc, prev, true);
      case MetaShiftDown => if prev.Some? { MoveSelectionAnchored(doc, prev.value, 1, true); }
      case MetaShiftUp => if prev.Some? { MoveSelectionAnchored(doc, prev.value, -1, true); }
      case ShiftArrowUp => if prev.Some? { ShiftAnchored(doc, prev.value, false); }
      case ShiftArrowDown => if prev.Some? { ShiftAnchored(doc, prev.value, true); }
      case ShiftArrowLeft => if prev.Some? { ShiftAnchored(doc, prev.value, false); }
      case ShiftArrowRight => if prev.Some? { ShiftAnchored(doc, prev.value, true); }
      case AltDown => AltVerticalAnchored(doc, prev, true);
      case AltUp => AltVerticalAnchored(doc, prev, false);
      case AltShiftUp => AltVerticalAnchored(doc, prev, false);
      case AltShiftDown => AltVerticalAnchored(doc, prev, true);
      case AltShiftLeft => AltShiftHorizontalAnchored(doc, prev, false);
      case AltShiftRight => AltShiftHorizontalAnchored(doc, prev, true);
      case _ =>
    }
  }

  /** Tab on a sentence range collapses it onto one sentence step after its `to` (Shift+Tab: before),
      with blank paragraphs skipped as `SentenceNav.SentenceStepLanding` describes; when no paragraph
      is blank the landing ordinal is the next (previous) one, clamped to the document. */
  lemma TabMovesOneSentence(doc: D.Document, from: SentPos, to: SentPos, forward: bool)
    requires D.WellFormed(doc) && ValidSent(doc, from) && ValidSent(doc, to)
    ensures var r := TabRange(doc, from.ToBlock(), Some(Range(from.ToBlock(), Some(to.ToBlock()))), forward);
      var landing := SentenceStep(doc, to, forward, true);
      && r == Some(Range(landing.ToBlock(), Some(landing.ToBlock())))
      && (NoBlankSkips(doc, true) ==>
            && ValidSent(doc, landing)
            && SentenceAbs(doc, landing) == Clamp(SentenceAbs(doc, to) + Offset(forward), 0, TotalSentences(doc) - 1))
  {
    MoveOneSentence(doc, to, forward, true);
    if NoBlankSkips(doc, true) {
      MoveSentenceClamp(doc, to, Offset(forward), true);
    }
  }

  /** Shift+ArrowDown on a sentence range keeps the anchor and moves `to` one sentence step on
      (Shift+ArrowUp: back), with blank paragraphs skipped; when no paragraph is blank the new `to` has
      the next (previous) ordinal, clamped to the document. */
  lemma ShiftVerticalGrowsBySentence(doc: D.Document, from: SentPos, to: SentPos, down: bool)
    requires D.WellFormed(doc) && ValidSent(doc, from) && ValidSent(doc, to)
    ensures var r := ShiftVerticalRange(doc, Some(Range(from.ToBlock(), Some(to.ToBlock()))), down);
      var landing := SentenceStep(doc, to, down, true);
      && r == Some(Range(from.ToBlock(), Some(landing.ToBlock())))
      && (NoBlankSkips(doc, true) ==>
            && ValidSent(doc, landing)
            && SentenceAbs(doc, landing) == Clamp(SentenceAbs(doc, to) + Offset(down), 0, TotalSentences(doc) - 1))
  {
    var selection := CreateSelection(Some(from.ToBlock()), Some(to.ToBlock()), Some(Sentence));
    assert selection == Range(from.ToBlock(), Some(to.ToBlock()));
    var m := MatchPrecision([from.ToBlock(), to.ToBlock()]);
    assert m.precision == Sentence && SentOf(m.result[1]) == to && m.result[0] == from.ToBlock();
    MoveOneSentence(doc, to, down, true);
    if NoBlankSkips(doc, true) {
      MoveSentenceClamp(doc, to, Offset(down), true);
    }
  }

  /** Shift+ArrowRight on a word range keeps the anchor and moves `to` one word on (Shift+ArrowLeft:
      back) while it stays inside its sentence. */
  lemma ShiftHorizontalGrowsByWord(doc: D.Document, from: WordPos, to: WordPos, right: bool)
    requires D.WellFormed(doc) && ValidWord(doc, from) && ValidWord(doc, to)
    requires 0 <= to.word + Offset(right) < |doc[to.paragraph][to.sentence]|
    ensures var r := ShiftHorizontalRange(doc, Some(Range(from.ToBlock(), Some(to.ToBlock()))), right);
      && r.Some? && r.value.from == from.ToBlock()
      && r.value.to == Some(WordPos(to.paragraph, to.sentence, to.word + Offset(right)).ToBlock())
  {
    var selection := CreateSelection(Some(from.ToBlock()), Some(to.ToBlock()), Some(Word));
    assert selection == Range(from.ToBlock(), Some(to.ToBlock()));
    var m := MatchPrecision([from.ToBlock(), to.ToBlock()]);
    assert m.precision == Word && WordOf(m.result[1]) == to;
    if right {
      WalkWithinSentenceForward(doc, to, 1);
    } else {
      WalkWithinSentenceBackward(doc, to, 1);
    }
  }

  /** On `"A. B\n"`, whose last paragraph is blank like that of every text ending in a line break,
      Tab on the sentence range at `(0,1)` moves it to `(1,1)`: the state leaves the document. */
  lemma TabOverrun(vis: Visual)
    ensures var doc: D.Document := [[["A"], ["", "B"]], [[""]]];
      var st := CursorState(WordPos(0, 0, 0).ToBlock(), false, Sentence,
                            Some(Range(SentPos(0, 1).ToBlock(), Some(SentPos(0, 1).ToBlock()))));
      && D.CreateDocument("A. B\n") == doc
      && ValidState(doc, st)
      && Step(doc, st, Tab, vis).range == Some(Range(SentPos(1, 1).ToBlock(), Some(SentPos(1, 1).ToBlock())))
      && !ValidState(doc, Step(doc, st, Tab, vis))
  {
    D.TrailingNewlineExample();
    var doc: D.Document := [[["A"], ["", "B"]], [[""]]];
    assert D.WellFormed(doc);
    assert MoveSentencePosition(doc, SentPos(0, 1), 1, true) == SentPos(1, 1) by {
      assert SkipForward(doc, 1, 1, true) == SentPos(1, 1);
      assert BlankParagraph(doc[1]);
    }
  }

  /** Alt+ArrowRight from the document's last word finds no stop and falls back to `WORD_ZERO`. */
  lemma AltRightAtLastWord(doc: D.Document, range: Range)
    requires D.WellFormed(doc) && Anchored(doc, range)
    requires IsWordPosition(RangeToPosition(range)) && IsLastWordOfDocument(doc, WordOf(RangeToPosition(range)))
    ensures AltHorizontalRange(doc, Some(range), true) == Some(Range(WORD_ZERO, None))
  {
    var end := RangeToPosition(range);
    assert WordOf(ConvertToWordPosition(doc, end, Start)) == WordOf(end);
    assert GetNextPunctuationPosition(doc, WordOf(end)) == None;
  }

  /** Escape after a drag puts the cursor on the word form of where the drag ended. */
  lemma EscapeAfterDrag(doc: D.Document, st: CursorState, pos: Pos, vis: Visual)
    requires ValidState(doc, st) && ValidPos(doc, pos) && pos.sentence.Some?
    ensures var dragged := Step(doc, st, SelectTo(pos), vis);
      var done := Step(doc, dragged, Escape, vis);
      && done.range.None? && !done.isSelecting
      && done.position == ConvertToWordPosition(doc, pos, Start)
  {
  }
}
