/** Sentence-level navigation: `moveSentencePosition`, the sentence steppers
    `getNextSentencePosition` / `getPrevSentencePosition`, and the paragraph jumps
    `getNextParagraphLastSentence` / `getPrevParagraphFirstSentence`. */
module SentenceNav {
  import opened Options
  import D = DocumentModel
  import opened Positions
  import opened Ordinals

  /** "Empty" for `moveSentencePosition` and the paragraph jumps: one sentence whose first token is `""`. */
  predicate BlankParagraph(par: D.Paragraph) {
    |par| == 1 && |par[0]| >= 1 && par[0][0] == ""
  }

  /** "Empty" for the steppers: the first token is falsy (`""`, or missing altogether). */
  predicate FalsyFirst(sentence: D.Sentence) {
    |sentence| == 0 || sentence[0] == ""
  }

  function Clamp(x: int, lo: int, hi: int): int {
    if x < lo then lo else if x > hi then hi else x
  }

  /** The forward `while` of `moveSentencePosition`: the next paragraph that is not skipped, at
      sentence 0; if every later paragraph is skipped, the last paragraph with `s` left as it was. */
  function SkipForward(doc: D.Document, p: int, s: int, ignore: bool): (r: SentPos)
    requires 0 <= p < |doc|
    ensures
      || (&& p < r.paragraph < |doc| && r.sentence == 0
          && (!ignore || !BlankParagraph(doc[r.paragraph]))
          && forall q :: p < q < r.paragraph ==> ignore && BlankParagraph(doc[q]))
      || (&& r == SentPos(|doc| - 1, s)
          && forall q :: p < q < |doc| ==> ignore && BlankParagraph(doc[q]))
    decreases |doc| - p
  {
    if p < |doc| - 1 then
      if !ignore || !BlankParagraph(doc[p + 1]) then SentPos(p + 1, 0)
      else SkipForward(doc, p + 1, s, ignore)
    else SentPos(p, s)
  }

  /** The backward `while`: the previous paragraph that is not skipped, at its last sentence; if every
      earlier paragraph is skipped, paragraph 0 with `s` left as it was. */
  function SkipBackward(doc: D.Document, p: int, s: int, ignore: bool): (r: SentPos)
    requires 0 <= p < |doc|
    ensures
      || (&& 0 <= r.paragraph < p && r.sentence == |doc[r.paragraph]| - 1
          && (!ignore || !BlankParagraph(doc[r.paragraph]))
          && forall q :: r.paragraph < q < p ==> ignore && BlankParagraph(doc[q]))
      || (&& r == SentPos(0, s)
          && forall q :: 0 <= q < p ==> ignore && BlankParagraph(doc[q]))
    decreases p
  {
    if p > 0 then
      if !ignore || !BlankParagraph(doc[p - 1]) then SentPos(p - 1, |doc[p - 1]| - 1)
      else SkipBackward(doc, p - 1, s, ignore)
    else SentPos(p, s)
  }

  /** One iteration of the `for` loop of `moveSentencePosition`, before its edge check. */
  function SentenceStep(doc: D.Document, cur: SentPos, forward: bool, ignore: bool): (r: SentPos)
    requires 0 <= cur.paragraph < |doc|
    ensures 0 <= r.paragraph < |doc|
  {
    if forward then
      if cur.sentence == |doc[cur.paragraph]| - 1 then SkipForward(doc, cur.paragraph, cur.sentence, ignore)
      else SentPos(cur.paragraph, cur.sentence + 1)
    else
      if cur.sentence == 0 then SkipBackward(doc, cur.paragraph, cur.sentence, ignore)
      else SentPos(cur.paragraph, cur.sentence - 1)
  }

  /** The `break` condition: the last sentence of the document going forward, the first going back. */
  predicate AtSentenceEdge(doc: D.Document, cur: SentPos, forward: bool)
    requires 0 <= cur.paragraph < |doc|
  {
    if forward then cur.paragraph == |doc| - 1 && cur.sentence == |doc[cur.paragraph]| - 1
    else cur.paragraph == 0 && cur.sentence == 0
  }

  function MoveSentenceSteps(doc: D.Document, cur: SentPos, n: nat, forward: bool, ignore: bool): (r: SentPos)
    requires 0 <= cur.paragraph < |doc|
    ensures 0 <= r.paragraph < |doc|
    decreases n
  {
    if n == 0 then cur
    else
      var next := SentenceStep(doc, cur, forward, ignore);
      if AtSentenceEdge(doc, next, forward) then next
      else MoveSentenceSteps(doc, next, n - 1, forward, ignore)
  }

  /** `moveSentencePosition`: `|steps|` sentence steps in the direction of `steps`, stopping early at
      the document's edge. Only `doc[paragraph]` is ever indexed, so the sentence may be any number. */
  function MoveSentencePosition(doc: D.Document, position: SentPos, steps: int, ignore: bool): (r: SentPos)
    requires steps != 0 ==> 0 <= position.paragraph < |doc|
    ensures steps != 0 ==> 0 <= r.paragraph < |doc|
    ensures steps == 0 ==> r == position
  {
    if steps > 0 then MoveSentenceSteps(doc, position, steps, true, ignore)
    else if steps < 0 then MoveSentenceSteps(doc, position, -steps, false, ignore)
    else position
  }

  /** Where one sentence step lands, with skipping: the neighbouring sentence inside the paragraph;
      across a paragraph edge, the nearest paragraph that is not skipped, every paragraph passed over
      being skipped as blank; or, forward with every later paragraph skipped, the last paragraph with
      the sentence index unchanged, and backward with every earlier one skipped, `(0, 0)`. */
  lemma SentenceStepLanding(doc: D.Document, cur: SentPos, forward: bool, ignore: bool)
    requires 0 <= cur.paragraph < |doc|
    ensures var r := SentenceStep(doc, cur, forward, ignore);
      var p := cur.paragraph;
      && (forward && cur.sentence != |doc[p]| - 1 ==> r == SentPos(p, cur.sentence + 1))
      && (forward && cur.sentence == |doc[p]| - 1 ==>
            || (&& p < r.paragraph && r.sentence == 0 && (!ignore || !BlankParagraph(doc[r.paragraph]))
                && forall q :: p < q < r.paragraph ==> ignore && BlankParagraph(doc[q]))
            || (&& r == SentPos(|doc| - 1, cur.sentence)
                && forall q :: p < q < |doc| ==> ignore && BlankParagraph(doc[q])))
      && (!forward && cur.sentence != 0 ==> r == SentPos(p, cur.sentence - 1))
      && (!forward && cur.sentence == 0 ==>
            || (&& r.paragraph < p && r.sentence == |doc[r.paragraph]| - 1
                && (!ignore || !BlankParagraph(doc[r.paragraph]))
                && forall q :: r.paragraph < q < p ==> ignore && BlankParagraph(doc[q]))
            || (&& r == SentPos(0, 0)
                && forall q :: 0 <= q < p ==> ignore && BlankParagraph(doc[q])))
  {
  }

  /** A move by one sentence, as every hotkey makes it, is exactly one step of the loop: the edge check
      after the step changes nothing. */
  lemma MoveOneSentence(doc: D.Document, cur: SentPos, forward: bool, ignore: bool)
    requires 0 <= cur.paragraph < |doc|
    ensures MoveSentencePosition(doc, cur, if forward then 1 else -1, ignore) == SentenceStep(doc, cur, forward, ignore)
  {
    var next := SentenceStep(doc, cur, forward, ignore);
    assert MoveSentenceSteps(doc, next, 0, forward, ignore) == next;
    assert MoveSentenceSteps(doc, cur, 1, forward, ignore) == next;
  }

  /** No paragraph is skipped: either skipping is off, or no paragraph is blank. */
  ghost predicate NoBlankSkips(doc: D.Document, ignore: bool) {
    !ignore || forall q :: 0 <= q < |doc| ==> !BlankParagraph(doc[q])
  }

  lemma SentenceStepAbs(doc: D.Document, cur: SentPos, forward: bool, ignore: bool)
    requires D.WellFormed(doc) && ValidSent(doc, cur) && NoBlankSkips(doc, ignore)
    ensures ValidSent(doc, SentenceStep(doc, cur, forward, ignore))
    ensures SentenceAbs(doc, SentenceStep(doc, cur, forward, ignore)) ==
      if AtSentenceEdge(doc, cur, forward) then SentenceAbs(doc, cur)
      else if forward then SentenceAbs(doc, cur) + 1 else SentenceAbs(doc, cur) - 1
  {
    var p := cur.paragraph;
    if forward && cur.sentence == |doc[p]| - 1 && p < |doc| - 1 {
      assert !ignore || !BlankParagraph(doc[p + 1]);
      assert SkipForward(doc, p, cur.sentence, ignore) == SentPos(p + 1, 0);
    } else if !forward && cur.sentence == 0 && p > 0 {
      assert !ignore || !BlankParagraph(doc[p - 1]);
      assert SkipBackward(doc, p, cur.sentence, ignore) == SentPos(p - 1, |doc[p - 1]| - 1);
    }
  }

  lemma EdgeAbs(doc: D.Document, cur: SentPos, forward: bool)
    requires D.WellFormed(doc) && ValidSent(doc, cur) && AtSentenceEdge(doc, cur, forward)
    ensures SentenceAbs(doc, cur) == if forward then TotalSentences(doc) - 1 else 0
  {
  }

  lemma {:induction false} MoveSentenceStepsClamp(doc: D.Document, cur: SentPos, n: nat, forward: bool, ignore: bool)
    requires D.WellFormed(doc) && ValidSent(doc, cur) && NoBlankSkips(doc, ignore)
    ensures ValidSent(doc, MoveSentenceSteps(doc, cur, n, forward, ignore))
    ensures SentenceAbs(doc, MoveSentenceSteps(doc, cur, n, forward, ignore)) ==
      if forward then Clamp(SentenceAbs(doc, cur) + n, 0, TotalSentences(doc) - 1)
      else Clamp(SentenceAbs(doc, cur) - n, 0, TotalSentences(doc) - 1)
    decreases n
  {
    SentenceAbsBound(doc, cur);
    if n > 0 {
      var next := SentenceStep(doc, cur, forward, ignore);
      SentenceStepAbs(doc, cur, forward, ignore);
      if AtSentenceEdge(doc, next, forward) {
        EdgeAbs(doc, next, forward);
      } else {
        MoveSentenceStepsClamp(doc, next, n - 1, forward, ignore);
      }
    }
  }

  /** With no paragraph skipped, `moveSentencePosition` moves the absolute sentence ordinal by `steps`,
      clamped to the document; the result stays in bounds. */
  lemma MoveSentenceClamp(doc: D.Document, position: SentPos, steps: int, ignore: bool)
    requires D.WellFormed(doc) && ValidSent(doc, position) && NoBlankSkips(doc, ignore)
    ensures ValidSent(doc, MoveSentencePosition(doc, position, steps, ignore))
    ensures SentenceAbs(doc, MoveSentencePosition(doc, position, steps, ignore)) ==
      Clamp(SentenceAbs(doc, position) + steps, 0, TotalSentences(doc) - 1)
  {
    SentenceAbsBound(doc, position);
    if steps > 0 {
      MoveSentenceStepsClamp(doc, position, steps, true, ignore);
    } else if steps < 0 {
      MoveSentenceStepsClamp(doc, position, -steps, false, ignore);
    }
  }

  lemma SentenceStepMonotone(doc: D.Document, cur: SentPos, forward: bool, ignore: bool)
    requires D.WellFormed(doc) && ValidSent(doc, cur)
    requires !ignore || !BlankParagraph(doc[|doc| - 1])
    ensures ValidSent(doc, SentenceStep(doc, cur, forward, ignore))
    ensures forward ==> SentenceAbs(doc, SentenceStep(doc, cur, forward, ignore)) >= SentenceAbs(doc, cur)
    ensures !forward ==> SentenceAbs(doc, SentenceStep(doc, cur, forward, ignore)) <= SentenceAbs(doc, cur)
  {
    var p := cur.paragraph;
    var r := SentenceStep(doc, cur, forward, ignore);
    if forward && cur.sentence == |doc[p]| - 1 && p < |doc| - 1 {
      assert r.paragraph > p;
      SentencesBeforeGrows(doc, p, r.paragraph);
    } else if !forward && cur.sentence == 0 && p > 0 && r.paragraph < p {
      SentencesBeforeGrows(doc, r.paragraph, p);
    }
  }

  lemma {:induction false} MoveSentenceStepsInBounds(doc: D.Document, cur: SentPos, n: nat, forward: bool, ignore: bool)
    requires D.WellFormed(doc) && ValidSent(doc, cur)
    requires !ignore || !BlankParagraph(doc[|doc| - 1])
    ensures ValidSent(doc, MoveSentenceSteps(doc, cur, n, forward, ignore))
    ensures forward ==> SentenceAbs(doc, MoveSentenceSteps(doc, cur, n, forward, ignore)) >= SentenceAbs(doc, cur)
    ensures !forward ==> SentenceAbs(doc, MoveSentenceSteps(doc, cur, n, forward, ignore)) <= SentenceAbs(doc, cur)
    decreases n
  {
    if n > 0 {
      var next := SentenceStep(doc, cur, forward, ignore);
      SentenceStepMonotone(doc, cur, forward, ignore);
      if !AtSentenceEdge(doc, next, forward) {
        MoveSentenceStepsInBounds(doc, next, n - 1, forward, ignore);
      }
    }
  }

  /** Unless the last paragraph is skipped, `moveSentencePosition` stays in bounds and moves in the
      direction of `steps`. */
  lemma MoveSentenceInBounds(doc: D.Document, position: SentPos, steps: int, ignore: bool)
    requires D.WellFormed(doc) && ValidSent(doc, position)
    requires !ignore || !BlankParagraph(doc[|doc| - 1])
    ensures ValidSent(doc, MoveSentencePosition(doc, position, steps, ignore))
    ensures steps >= 0 ==> SentenceAbs(doc, MoveSentencePosition(doc, position, steps, ignore)) >= SentenceAbs(doc, position)
    ensures steps <= 0 ==> SentenceAbs(doc, MoveSentencePosition(doc, position, steps, ignore)) <= SentenceAbs(doc, position)
  {
    if steps > 0 {
      MoveSentenceStepsInBounds(doc, position, steps, true, ignore);
    } else if steps < 0 {
      MoveSentenceStepsInBounds(doc, position, -steps, false, ignore);
    }
  }

  /** The text `"A. B\n"`, which ends in a line break like the editor's own starting content: every
      paragraph after the first is blank, so the forward move reaches the last paragraph without
      resetting the sentence, which is then out of bounds. */
  lemma TrailingBlankParagraphOverrun()
    ensures var doc := D.CreateDocument("A. B\n");
      && D.WellFormed(doc) && ValidSent(doc, SentPos(0, 1))
      && MoveSentencePosition(doc, SentPos(0, 1), 1, true) == SentPos(1, 1)
      && !ValidSent(doc, SentPos(1, 1))
  {
    D.TrailingNewlineExample();
    var doc: D.Document := [[["A"], ["", "B"]], [[""]]];
    assert SkipForward(doc, 1, 1, true) == SentPos(1, 1);
    assert BlankParagraph(doc[1]);
  }

  /** The text `"A.\n\nB."` parses with a trailing `[""]` sentence after `"A"`, so one forward step
      from the first sentence stays in paragraph 0. */
  lemma TerminatedSentenceStep()
    ensures MoveSentencePosition(D.CreateDocument("A.\n\nB."), SentPos(0, 0), 1, true) == SentPos(0, 1)
  {
    D.BlankLineExample();
  }

  /** Every paragraph after `p` would be skipped. */
  predicate NothingAhead(doc: D.Document, p: int, ignore: bool)
    requires 0 <= p < |doc|
  {
    forall q | p < q < |doc| :: ignore && BlankParagraph(doc[q])
  }

  /** One step of the corrected mover: a forward step from a paragraph's last sentence with nothing
      but skipped paragraphs ahead stays where it is, instead of landing on the last paragraph with
      the old sentence index. */
  function SentenceStepFixed(doc: D.Document, cur: SentPos, forward: bool, ignore: bool): (r: SentPos)
    requires 0 <= cur.paragraph < |doc|
    ensures 0 <= r.paragraph < |doc|
  {
    if forward && cur.sentence == |doc[cur.paragraph]| - 1 && NothingAhead(doc, cur.paragraph, ignore) then cur
    else SentenceStep(doc, cur, forward, ignore)
  }

  function MoveSentenceStepsFixed(doc: D.Document, cur: SentPos, n: nat, forward: bool, ignore: bool): (r: SentPos)
    requires 0 <= cur.paragraph < |doc|
    ensures 0 <= r.paragraph < |doc|
    decreases n
  {
    if n == 0 then cur
    else
      var next := SentenceStepFixed(doc, cur, forward, ignore);
      if AtSentenceEdge(doc, next, forward) then next
      else MoveSentenceStepsFixed(doc, next, n - 1, forward, ignore)
  }

  /** `moveSentencePosition` as evidently intended: the move ends at the last sentence it can reach
      instead of overrunning into a trailing blank paragraph. */
  function MoveSentencePositionFixed(doc: D.Document, position: SentPos, steps: int, ignore: bool): (r: SentPos)
    requires steps != 0 ==> 0 <= position.paragraph < |doc|
    ensures steps != 0 ==> 0 <= r.paragraph < |doc|
    ensures steps == 0 ==> r == position
  {
    if steps > 0 then MoveSentenceStepsFixed(doc, position, steps, true, ignore)
    else if steps < 0 then MoveSentenceStepsFixed(doc, position, -steps, false, ignore)
    else position
  }

  lemma SentenceStepFixedMonotone(doc: D.Document, cur: SentPos, forward: bool, ignore: bool)
    requires D.WellFormed(doc) && ValidSent(doc, cur)
    ensures ValidSent(doc, SentenceStepFixed(doc, cur, forward, ignore))
    ensures forward ==> SentenceAbs(doc, SentenceStepFixed(doc, cur, forward, ignore)) >= SentenceAbs(doc, cur)
    ensures !forward ==> SentenceAbs(doc, SentenceStepFixed(doc, cur, forward, ignore)) <= SentenceAbs(doc, cur)
  {
    var p := cur.paragraph;
    var r := SentenceStepFixed(doc, cur, forward, ignore);
    if forward && cur.sentence == |doc[p]| - 1 && !NothingAhead(doc, p, ignore) {
      assert r == SkipForward(doc, p, cur.sentence, ignore);
      assert r.paragraph > p;
      SentencesBeforeGrows(doc, p, r.paragraph);
    } else if !forward && cur.sentence == 0 && p > 0 && r.paragraph < p {
      SentencesBeforeGrows(doc, r.paragraph, p);
    }
  }

  lemma {:induction false} MoveSentenceStepsFixedInBounds(doc: D.Document, cur: SentPos, n: nat, forward: bool, ignore: bool)
    requires D.WellFormed(doc) && ValidSent(doc, cur)
    ensures ValidSent(doc, MoveSentenceStepsFixed(doc, cur, n, forward, ignore))
    ensures forward ==> SentenceAbs(doc, MoveSentenceStepsFixed(doc, cur, n, forward, ignore)) >= SentenceAbs(doc, cur)
    ensures !forward ==> SentenceAbs(doc, MoveSentenceStepsFixed(doc, cur, n, forward, ignore)) <= SentenceAbs(doc, cur)
    decreases n
  {
    if n > 0 {
      var next := SentenceStepFixed(doc, cur, forward, ignore);
      SentenceStepFixedMonotone(doc, cur, forward, ignore);
      if !AtSentenceEdge(doc, next, forward) {
        MoveSentenceStepsFixedInBounds(doc, next, n - 1, forward, ignore);
      }
    }
  }

  /** The corrected mover stays inside every well-formed document and moves in the direction of
      `steps`, whatever paragraphs are blank. */
  lemma MoveSentenceFixedInBounds(doc: D.Document, position: SentPos, steps: int, ignore: bool)
    requires D.WellFormed(doc) && ValidSent(doc, position)
    ensures ValidSent(doc, MoveSentencePositionFixed(doc, position, steps, ignore))
    ensures steps >= 0 ==> SentenceAbs(doc, MoveSentencePositionFixed(doc, position, steps, ignore)) >= SentenceAbs(doc, position)
    ensures steps <= 0 ==> SentenceAbs(doc, MoveSentencePositionFixed(doc, position, steps, ignore)) <= SentenceAbs(doc, position)
  {
    if steps > 0 {
      MoveSentenceStepsFixedInBounds(doc, position, steps, true, ignore);
    } else if steps < 0 {
      MoveSentenceStepsFixedInBounds(doc, position, -steps, false, ignore);
    }
  }

  lemma {:induction false} MoveSentenceStepsFixedAgrees(doc: D.Document, cur: SentPos, n: nat, forward: bool, ignore: bool)
    requires D.WellFormed(doc) && 0 <= cur.paragraph < |doc|
    requires !ignore || !BlankParagraph(doc[|doc| - 1])
    ensures MoveSentenceStepsFixed(doc, cur, n, forward, ignore) == MoveSentenceSteps(doc, cur, n, forward, ignore)
    decreases n
  {
    if n > 0 {
      var p := cur.paragraph;
      if forward && cur.sentence == |doc[p]| - 1 && NothingAhead(doc, p, ignore) {
        var lastParagraph := doc[|doc| - 1];
        assert p < |doc| - 1 ==> ignore && BlankParagraph(lastParagraph);
        assert SentenceStep(doc, cur, forward, ignore) == cur;
      }
      var next := SentenceStep(doc, cur, forward, ignore);
      if !AtSentenceEdge(doc, next, forward) {
        MoveSentenceStepsFixedAgrees(doc, next, n - 1, forward, ignore);
      }
    }
  }

  /** The correction changes nothing unless the last paragraph is skipped: there the two movers agree
      on every position and step count. */
  lemma MoveSentenceFixedAgrees(doc: D.Document, position: SentPos, steps: int, ignore: bool)
    requires D.WellFormed(doc) && 0 <= position.paragraph < |doc|
    requires !ignore || !BlankParagraph(doc[|doc| - 1])
    ensures MoveSentencePositionFixed(doc, position, steps, ignore) == MoveSentencePosition(doc, position, steps, ignore)
  {
    if steps > 0 {
      MoveSentenceStepsFixedAgrees(doc, position, steps, true, ignore);
    } else if steps < 0 {
      MoveSentenceStepsFixedAgrees(doc, position, -steps, false, ignore);
    }
  }

  /** With no paragraph skipped, the corrected mover moves the sentence ordinal by `steps`, clamped
      to the document. */
  lemma MoveSentenceFixedClamp(doc: D.Document, position: SentPos, steps: int, ignore: bool)
    requires D.WellFormed(doc) && ValidSent(doc, position) && NoBlankSkips(doc, ignore)
    ensures ValidSent(doc, MoveSentencePositionFixed(doc, position, steps, ignore))
    ensures SentenceAbs(doc, MoveSentencePositionFixed(doc, position, steps, ignore)) ==
      Clamp(SentenceAbs(doc, position) + steps, 0, TotalSentences(doc) - 1)
  {
    MoveSentenceFixedAgrees(doc, position, steps, ignore);
    MoveSentenceClamp(doc, position, steps, ignore);
  }

  /** On `"A. B\n"` the corrected mover stays on the last sentence it can reach. */
  lemma TrailingBlankParagraphStays()
    ensures MoveSentencePositionFixed(D.CreateDocument("A. B\n"), SentPos(0, 1), 1, true) == SentPos(0, 1)
  {
    D.TrailingNewlineExample();
    var doc: D.Document := [[["A"], ["", "B"]], [[""]]];
    assert NothingAhead(doc, 0, true);
  }

  /** `getNextSentencePosition` (only `paragraph` and `sentence` of its argument are read). */
  function GetNextSentencePosition(doc: D.Document, pos: SentPos, ignore: bool): (r: Option<SentPos>)
    requires D.WellFormed(doc) && ValidSent(doc, pos)
    ensures r.Some? ==> ValidSent(doc, r.value) && SentBefore(pos, r.value)
    ensures r.Some? && ignore ==> !FalsyFirst(doc[r.value.paragraph][r.value.sentence])
    ensures r.Some? ==> forall t :: ValidSent(doc, t) && SentBefore(pos, t) && SentBefore(t, r.value) ==>
      ignore && FalsyFirst(doc[t.paragraph][t.sentence])
    ensures r.None? <==> forall t :: ValidSent(doc, t) && SentBefore(pos, t) ==>
      ignore && FalsyFirst(doc[t.paragraph][t.sentence])
    decreases |doc| - pos.paragraph, |doc[pos.paragraph]| - pos.sentence
  {
    if pos.paragraph == |doc| - 1 && pos.sentence == |doc[pos.paragraph]| - 1 then
      assert forall t :: ValidSent(doc, t) ==> !SentBefore(pos, t);
      None
    else
      var last := |doc[pos.paragraph]| - 1;
      var next := if pos.sentence == last then SentPos(pos.paragraph + 1, 0)
                  else SentPos(pos.paragraph, pos.sentence + 1);
      assert forall t :: ValidSent(doc, t) && SentBefore(pos, t) ==> t == next || SentBefore(next, t);
      if ignore && FalsyFirst(doc[next.paragraph][next.sentence]) then GetNextSentencePosition(doc, next, true)
      else Some(next)
  }

  /** `getPrevSentencePosition`. Within paragraph 0 the previous sentence is returned unchecked. */
  function GetPrevSentencePosition(doc: D.Document, pos: SentPos, ignore: bool): (r: Option<SentPos>)
    requires D.WellFormed(doc) && ValidSent(doc, pos)
    ensures r.Some? ==> ValidSent(doc, r.value) && SentBefore(r.value, pos)
    ensures r.Some? && ignore && r.value.paragraph > 0 ==> !FalsyFirst(doc[r.value.paragraph][r.value.sentence])
    ensures r.Some? ==> forall t :: ValidSent(doc, t) && SentBefore(r.value, t) && SentBefore(t, pos) ==>
      ignore && FalsyFirst(doc[t.paragraph][t.sentence])
    ensures r.None? ==> (pos == SentPos(0, 0) ||
      forall t :: ValidSent(doc, t) && SentBefore(t, pos) ==> ignore && FalsyFirst(doc[t.paragraph][t.sentence]))
    decreases pos.paragraph, pos.sentence
  {
    if pos.paragraph == 0 && pos.sentence == 0 then None
    else if pos.paragraph == 0 && pos.sentence > 0 then Some(SentPos(0, pos.sentence - 1))
    else
      var prev := if pos.sentence == 0 then SentPos(pos.paragraph - 1, |doc[pos.paragraph - 1]| - 1)
                  else SentPos(pos.paragraph, pos.sentence - 1);
      assert forall t :: ValidSent(doc, t) && SentBefore(t, pos) ==> t == prev || SentBefore(t, prev);
      if ignore && FalsyFirst(doc[prev.paragraph][prev.sentence]) then GetPrevSentencePosition(doc, prev, true)
      else Some(prev)
  }

  /** Without skipping, the steppers return the adjacent sentence. */
  lemma SentenceSteppersAdjacent(doc: D.Document, pos: SentPos)
    requires D.WellFormed(doc) && ValidSent(doc, pos)
    ensures GetNextSentencePosition(doc, pos, false).Some? ==>
      SentenceAbs(doc, GetNextSentencePosition(doc, pos, false).value) == SentenceAbs(doc, pos) + 1
    ensures GetNextSentencePosition(doc, pos, false).None? <==> SentenceAbs(doc, pos) == TotalSentences(doc) - 1
    ensures GetPrevSentencePosition(doc, pos, false).Some? ==>
      SentenceAbs(doc, GetPrevSentencePosition(doc, pos, false).value) == SentenceAbs(doc, pos) - 1
    ensures GetPrevSentencePosition(doc, pos, false).None? <==> SentenceAbs(doc, pos) == 0
  {
    var p := pos.paragraph;
    SentenceAbsBound(doc, pos);
    if p == |doc| - 1 && pos.sentence == |doc[p]| - 1 {
    } else {
      SentencesBeforeGrows(doc, p, |doc|);
      var last := |doc[p]| - 1;
      if pos.sentence == last {
        SentenceAbsBound(doc, SentPos(p + 1, 0));
      }
    }
    if p > 0 {
      SentencesBeforeGrows(doc, 0, p);
    }
  }

  /** `getNextParagraphLastSentence`: snap to the current paragraph's last sentence, otherwise jump to
      the last sentence of the next paragraph that is not skipped. */
  function GetNextParagraphLastSentence(doc: D.Document, pos: Pos, ignore: bool): (r: Option<SentPos>)
    requires 0 <= pos.paragraph < |doc|
    ensures r.Some? ==> pos.paragraph <= r.value.paragraph < |doc|
    ensures r.Some? ==> r.value.sentence == |doc[r.value.paragraph]| - 1
    ensures r == Some(SentPos(pos.paragraph, |doc[pos.paragraph]| - 1)) <==>
      pos.sentence != Some(|doc[pos.paragraph]| - 1)
    ensures r.Some? && r.value.paragraph > pos.paragraph ==>
      && (!ignore || !BlankParagraph(doc[r.value.paragraph]))
      && forall q :: pos.paragraph < q < r.value.paragraph ==> ignore && BlankParagraph(doc[q])
    ensures r.None? <==>
      pos.sentence == Some(|doc[pos.paragraph]| - 1) &&
      forall q :: pos.paragraph < q < |doc| ==> ignore && BlankParagraph(doc[q])
    decreases |doc| - pos.paragraph
  {
    var p := pos.paragraph;
    if pos.sentence != Some(|doc[p]| - 1) then Some(SentPos(p, |doc[p]| - 1))
    else if p >= |doc| - 1 then None
    else if ignore && BlankParagraph(doc[p + 1]) then
      if p < |doc| - 2 then GetNextParagraphLastSentence(doc, Pos(p + 1, Some(0), None, None), ignore)
      else None
    else Some(SentPos(p + 1, |doc[p + 1]| - 1))
  }

  /** `getPrevParagraphFirstSentence`: snap to sentence 0 of the current paragraph, otherwise jump to
      sentence 0 of the previous paragraph that is not skipped. */
  function GetPrevParagraphFirstSentence(doc: D.Document, pos: Pos, ignore: bool): (r: Option<SentPos>)
    requires 0 <= pos.paragraph < |doc|
    ensures r.Some? ==> 0 <= r.value.paragraph <= pos.paragraph && r.value.sentence == 0
    ensures r == Some(SentPos(pos.paragraph, 0)) <==> pos.sentence != Some(0)
    ensures r.Some? && r.value.paragraph < pos.paragraph ==>
      && (!ignore || !BlankParagraph(doc[r.value.paragraph]))
      && forall q :: r.value.paragraph < q < pos.paragraph ==> ignore && BlankParagraph(doc[q])
    ensures r.None? <==>
      pos.sentence == Some(0) && forall q :: 0 <= q < pos.paragraph ==> ignore && BlankParagraph(doc[q])
    decreases pos.paragraph
  {
    var p := pos.paragraph;
    if pos.sentence != Some(0) then Some(SentPos(p, 0))
    else if p == 0 then None
    else if ignore && BlankParagraph(doc[p - 1]) then
      GetPrevParagraphFirstSentence(doc, Pos(p - 1, Some(0), None, None), ignore)
    else Some(SentPos(p - 1, 0))
  }
}
