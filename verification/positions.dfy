/** Positions at four precisions and the precision algebra over them: inference, projection,
    harmonisation of several positions to their coarsest common precision, and range helpers. */
module Positions {
  import opened Options
  import D = DocumentModel

  /** Precision levels, coarsest first; `Rank` is the numeric value of the enum. */
  datatype Precision = Paragraph | Sentence | Word | Character {
    function Rank(): nat {
      match this
      case Paragraph => 0
      case Sentence => 1
      case Word => 2
      case Character => 3
    }
  }

  /** `Math.min` over two precisions. */
  function Coarser(a: Precision, b: Precision): Precision {
    if a.Rank() <= b.Rank() then a else b
  }

  /** A BlockPosition. A missing field is `undefined`; which fields are present decides the precision. */
  datatype Pos = Pos(paragraph: int, sentence: Option<int>, word: Option<int>, character: Option<int>)

  /** A WordPosition `{paragraph, sentence, word}`. */
  datatype WordPos = WordPos(paragraph: int, sentence: int, word: int) {
    function ToBlock(): Pos {
      Pos(paragraph, Some(sentence), Some(word), None)
    }
  }

  /** A SentencePosition `{paragraph, sentence}`. */
  datatype SentPos = SentPos(paragraph: int, sentence: int) {
    function ToBlock(): Pos {
      Pos(paragraph, Some(sentence), None, None)
    }
  }

  /** A SelectionRange; `to == None` is an anchor-only selection. */
  datatype Range = Range(from: Pos, to: Option<Pos>)

  datatype Rounding = Start | End

  const WORD_ZERO: Pos := Pos(0, Some(0), Some(0), None)

  /** The shapes the program builds: a word needs a sentence, a character needs a word. */
  predicate Shaped(pos: Pos) {
    && (pos.word.Some? ==> pos.sentence.Some?)
    && (pos.character.Some? ==> pos.word.Some?)
  }

  /** Every field present indexes an existing element of the document. */
  ghost predicate ValidPos(doc: D.Document, pos: Pos) {
    && Shaped(pos)
    && 0 <= pos.paragraph < |doc|
    && (pos.sentence.Some? ==> 0 <= pos.sentence.value < |doc[pos.paragraph]|)
    && (pos.word.Some? ==> 0 <= pos.word.value < |doc[pos.paragraph][pos.sentence.value]|)
  }

  ghost predicate ValidSent(doc: D.Document, pos: SentPos) {
    0 <= pos.paragraph < |doc| && 0 <= pos.sentence < |doc[pos.paragraph]|
  }

  ghost predicate ValidWord(doc: D.Document, pos: WordPos) {
    && 0 <= pos.paragraph < |doc|
    && 0 <= pos.sentence < |doc[pos.paragraph]|
    && 0 <= pos.word < |doc[pos.paragraph][pos.sentence]|
  }

  /** JavaScript truthiness of an optional number: present and non-zero. */
  predicate Truthy(n: Option<int>) {
    n.Some? && n.value != 0
  }

  /** `n || 0`. */
  function OrZero(n: Option<int>): int {
    if Truthy(n) then n.value else 0
  }

  function GetPrecision(pos: Pos): (r: Precision)
    ensures r != Character
    ensures r == Word <==> pos.word.Some?
    ensures r == Paragraph <==> pos.word.None? && pos.sentence.None?
  {
    if pos.word.Some? then Word
    else if pos.sentence.Some? then Sentence
    else Paragraph
  }

  function GetPrecisionName(precision: Precision): (name: string)
    ensures |name| >= 4
  {
    match precision
    case Sentence => "sentence"
    case Paragraph => "paragraph"
    case Character => "character"
    case Word => "word"
  }

  /** Distinct precisions have distinct names. */
  lemma PrecisionNamesDistinct(a: Precision, b: Precision)
    requires GetPrecisionName(a) == GetPrecisionName(b)
    ensures a == b
  {
    assert GetPrecisionName(a)[0] == GetPrecisionName(b)[0];
    assert GetPrecisionName(a)[1] == GetPrecisionName(b)[1];
  }

  /** `distToParagraph`: the signed paragraph distance. */
  function DistToParagraph(a: Pos, b: Pos): (d: int)
    ensures b.paragraph + d == a.paragraph
  {
    a.paragraph - b.paragraph
  }

  /** The precision `createPosition` projects to: `precision || getPrecision(position)`, so an
      explicit PARAGRAPH (= 0) counts as "not given". */
  function EffectivePrecision(pos: Pos, precision: Option<Precision>): Precision {
    if precision.Some? && precision.value != Paragraph then precision.value else GetPrecision(pos)
  }

  function CreatePosition(pos: Pos, precision: Option<Precision>): (r: Pos)
    ensures r.paragraph == pos.paragraph
    ensures Shaped(r)
    ensures GetPrecision(r) == Coarser(EffectivePrecision(pos, precision), Word)
    ensures r.sentence.Some? ==> r.sentence.value == OrZero(pos.sentence)
    ensures r.word.Some? ==> r.word.value == OrZero(pos.word)
  {
    var p := pos.paragraph;
    var s := OrZero(pos.sentence);
    var w := OrZero(pos.word);
    var c := OrZero(pos.character);
    match EffectivePrecision(pos, precision)
    case Character => Pos(p, Some(s), Some(w), Some(c))
    case Word => Pos(p, Some(s), Some(w), None)
    case Sentence => Pos(p, Some(s), None, None)
    case Paragraph => Pos(p, None, None, None)
  }

  /** Projecting twice to WORD is projecting once. */
  lemma CreatePositionIdempotent(pos: Pos, precision: Precision)
    requires precision != Paragraph
    ensures CreatePosition(CreatePosition(pos, Some(precision)), Some(precision)) ==
            CreatePosition(pos, Some(precision))
  {
  }

  /** Without a precision, a shaped position without a character field is cloned unchanged. */
  lemma CreatePositionOwnPrecision(pos: Pos)
    requires Shaped(pos) && pos.character.None?
    ensures CreatePosition(pos, None) == pos
  {
  }

  /** Asking for PARAGRAPH precision does not coarsen: it is read as "no precision given". */
  lemma CreatePositionParagraphQuirk(pos: Pos)
    ensures CreatePosition(pos, Some(Paragraph)) == CreatePosition(pos, None)
    ensures pos.word.Some? ==> GetPrecision(CreatePosition(pos, Some(Paragraph))) == Word
  {
  }

  /** `clonePosition` keeps paragraph, sentence and word and drops the character. */
  function ClonePosition(pos: Pos): (r: Pos)
    ensures r.character.None?
    ensures GetPrecision(r) == GetPrecision(pos)
    ensures r.paragraph == pos.paragraph && r.sentence == pos.sentence && r.word == pos.word
  {
    Pos(pos.paragraph, pos.sentence, pos.word, None)
  }

  /** `range.to || clonePosition(range.from)`: the moving end of a range. */
  function RangeToPosition(range: Range): (r: Pos)
    ensures range.to.Some? ==> r == range.to.value
    ensures range.to.None? ==> r == ClonePosition(range.from)
  {
    range.to.OrElse(ClonePosition(range.from))
  }

  function CreateSelection(from: Option<Pos>, to: Option<Pos>, precision: Option<Precision>): (r: Range)
    ensures from.None? ==> r == Range(WORD_ZERO, None)
    ensures from.Some? ==> r.from == CreatePosition(from.value, precision)
    ensures from.Some? ==> r.to.Some? == to.Some?
    ensures from.Some? && to.Some? ==> r.to.value == CreatePosition(to.value, precision)
  {
    if from.None? then Range(WORD_ZERO, None)
    else Range(CreatePosition(from.value, precision),
               if to.Some? then Some(CreatePosition(to.value, precision)) else None)
  }

  predicate IsWordPosition(pos: Pos) {
    pos.sentence.Some? && pos.word.Some?
  }

  predicate IsSentencePosition(pos: Pos) {
    pos.sentence.Some? && pos.word.None?
  }

  /** `convertToWordPosition`: a position with a non-zero word is returned as it is; any other is
      rounded to the first word (`Start`) or the last word (`End`) of its sentence. */
  function ConvertToWordPosition(doc: D.Document, from: Pos, rounding: Rounding): (r: Pos)
    requires rounding == End && !Truthy(from.word) ==>
      0 <= from.paragraph < |doc| && 0 <= OrZero(from.sentence) < |doc[from.paragraph]|
    ensures r.paragraph == from.paragraph && r.word.Some?
    ensures Shaped(from) ==> IsWordPosition(r) && Shaped(r)
    ensures r == from <== Truthy(from.word)
    ensures !Truthy(from.word) ==> r.sentence == Some(OrZero(from.sentence)) && r.character.None?
    ensures !Truthy(from.word) && rounding == Start ==> r.word == Some(0)
    ensures !Truthy(from.word) && rounding == End ==>
      r.word == Some(|doc[from.paragraph][OrZero(from.sentence)]| - 1)
  {
    if Truthy(from.word) then from
    else
      var sentence := OrZero(from.sentence);
      var word := if Truthy(from.word) || rounding == Start then 0
                  else |doc[from.paragraph][sentence]| - 1;
      Pos(from.paragraph, Some(sentence), Some(word), None)
  }

  /** `convertToSentencePosition`. Because `a || b ? x : y` reads as `(a || b) ? x : y`, a position
      with a non-zero sentence, and every position rounded to `Start`, lands on sentence 0. */
  function ConvertToSentencePosition(doc: D.Document, from: Pos, rounding: Rounding): (r: Pos)
    requires rounding == End && !Truthy(from.sentence) ==> 0 <= from.paragraph < |doc|
    ensures IsSentencePosition(r) && r.paragraph == from.paragraph && r.character.None?
    ensures rounding == Start || Truthy(from.sentence) ==> r.sentence == Some(0)
    ensures rounding == End && !Truthy(from.sentence) ==> r.sentence == Some(|doc[from.paragraph]| - 1)
  {
    Pos(from.paragraph,
        Some(if Truthy(from.sentence) || rounding == Start then 0 else |doc[from.paragraph]| - 1),
        None, None)
  }

  /** The common precision of `matchPrecision`: WORD, lowered by each position's precision in turn. */
  function LowestPrecision(ps: seq<Pos>): (r: Precision)
    ensures r.Rank() <= Word.Rank()
    ensures forall i :: 0 <= i < |ps| ==> r.Rank() <= GetPrecision(ps[i]).Rank()
    ensures r == Word || exists i :: 0 <= i < |ps| && GetPrecision(ps[i]) == r
    decreases |ps|
  {
    if |ps| == 0 then Word
    else
      var r := Coarser(LowestPrecision(ps[..|ps| - 1]), GetPrecision(ps[|ps| - 1]));
      assert forall i :: 0 <= i < |ps| - 1 ==> ps[..|ps| - 1][i] == ps[i];
      r
  }

  /** One position projected to a harmonised precision: finer fields become `undefined`. */
  function Harmonise(pos: Pos, precision: Precision): Pos {
    Pos(pos.paragraph,
        if precision.Rank() >= Sentence.Rank() then pos.sentence else None,
        if precision.Rank() >= Word.Rank() then pos.word else None,
        None)
  }

  datatype Matched = Matched(precision: Precision, result: seq<Pos>)

  /** `matchPrecision`: the coarsest common precision and every position projected to it. */
  function MatchPrecision(ps: seq<Pos>): (m: Matched)
    ensures m.precision != Character
    ensures forall i :: 0 <= i < |ps| ==> m.precision.Rank() <= GetPrecision(ps[i]).Rank()
    ensures m.precision == Word || exists i :: 0 <= i < |ps| && GetPrecision(ps[i]) == m.precision
    ensures |m.result| == |ps|
    ensures forall i :: 0 <= i < |ps| ==> m.result[i].paragraph == ps[i].paragraph
    ensures forall i :: 0 <= i < |ps| ==>
      m.result[i].sentence == (if m.precision.Rank() >= Sentence.Rank() then ps[i].sentence else None)
    ensures forall i :: 0 <= i < |ps| ==>
      m.result[i].word == (if m.precision == Word then ps[i].word else None)
    ensures forall i :: 0 <= i < |ps| ==> m.result[i].character.None?
  {
    var precision := LowestPrecision(ps);
    Matched(precision, seq(|ps|, i requires 0 <= i < |ps| => Harmonise(ps[i], precision)))
  }

  /** For shaped inputs every harmonised position has exactly the common precision. */
  lemma {:induction false} MatchedPrecisionExact(ps: seq<Pos>, i: int)
    requires forall j :: 0 <= j < |ps| ==> Shaped(ps[j])
    requires 0 <= i < |ps|
    ensures GetPrecision(MatchPrecision(ps).result[i]) == MatchPrecision(ps).precision
    ensures Shaped(MatchPrecision(ps).result[i])
  {
    var m := MatchPrecision(ps);
    assert m.precision.Rank() <= GetPrecision(ps[i]).Rank();
  }

  /** `getSelectionPrecision`: the coarsest precision of `from` and the moving end. */
  function GetSelectionPrecision(range: Range): (r: Precision)
    ensures r == MatchPrecision([range.from, RangeToPosition(range)]).precision
    ensures r.Rank() == if GetPrecision(range.from).Rank() <= GetPrecision(RangeToPosition(range)).Rank()
                        then GetPrecision(range.from).Rank() else GetPrecision(RangeToPosition(range)).Rank()
  {
    var pair := [range.from, RangeToPosition(range)];
    assert pair[..1] == [range.from] && pair[..1][..0] == [];
    assert LowestPrecision(pair[..1]) == Coarser(Word, GetPrecision(range.from));
    assert LowestPrecision(pair) == Coarser(LowestPrecision(pair[..1]), GetPrecision(pair[1]));
    var fromPrecision := GetPrecision(range.from);
    var toPrecision := GetPrecision(range.to.OrElse(ClonePosition(range.from)));
    if fromPrecision == Paragraph || toPrecision == Paragraph then Paragraph
    else if fromPrecision == Sentence || toPrecision == Sentence then Sentence
    else if fromPrecision == Word || toPrecision == Word then Word
    else Character
  }

  /** `convertSelectionPrecision`: both ends projected with `createPosition`. */
  function ConvertSelectionPrecision(range: Range, precision: Precision): (r: Range)
    ensures r.from == CreatePosition(range.from, Some(precision))
    ensures r.to.Some? == range.to.Some?
    ensures range.to.Some? ==> r.to.value == CreatePosition(range.to.value, Some(precision))
    ensures precision == Sentence ==> IsSentencePosition(r.from)
    ensures precision == Word ==> IsWordPosition(r.from) && r.from.character.None?
  {
    Range(CreatePosition(range.from, Some(precision)),
          if range.to.Some? then Some(CreatePosition(range.to.value, Some(precision))) else None)
  }
}
