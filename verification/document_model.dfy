/** The three-level prompt document: paragraphs of sentences of tokens, built from flat text by
    splitting on "\n", then on every ".", then on every " ". */
module DocumentModel {
  import opened TextSplit

  type Token = string
  type Sentence = seq<Token>
  type Paragraph = seq<Sentence>
  type Document = seq<Paragraph>

  /** The shape every navigation function indexes on: no level is ever empty. */
  ghost predicate WellFormed(doc: Document) {
    && |doc| >= 1
    && (forall p :: 0 <= p < |doc| ==> |doc[p]| >= 1)
    && (forall p, s :: 0 <= p < |doc| && 0 <= s < |doc[p]| ==> |doc[p][s]| >= 1)
  }

  function CreateSentence(text: string): (sentence: Sentence)
    ensures |sentence| >= 1
    ensures sentence[0] == "" <==> (|text| == 0 || text[0] == ' ')
  {
    SplitFirstPiece(text, ' ');
    Split(text, ' ')
  }

  function CreateParagraph(text: string): (paragraph: Paragraph)
    ensures |paragraph| == |Split(text, '.')| >= 1
    ensures forall s :: 0 <= s < |paragraph| ==> paragraph[s] == CreateSentence(Split(text, '.')[s])
  {
    var pieces := Split(text, '.');
    seq(|pieces|, i requires 0 <= i < |pieces| => CreateSentence(pieces[i]))
  }

  function CreateDocument(text: string): (doc: Document)
    ensures |doc| == |Split(text, '\n')|
    ensures forall p :: 0 <= p < |doc| ==> doc[p] == CreateParagraph(Split(text, '\n')[p])
  {
    var pieces := Split(text, '\n');
    seq(|pieces|, i requires 0 <= i < |pieces| => CreateParagraph(pieces[i]))
  }

  /** Inverse of the parser: tokens joined by " ", sentences by ".", paragraphs by "\n". */
  function RenderParagraph(paragraph: Paragraph): string
    requires |paragraph| >= 1
    requires forall s :: 0 <= s < |paragraph| ==> |paragraph[s]| >= 1
  {
    Join(seq(|paragraph|, i requires 0 <= i < |paragraph| => Join(paragraph[i], ' ')), '.')
  }

  function Render(doc: Document): string
    requires WellFormed(doc)
  {
    Join(seq(|doc|, i requires 0 <= i < |doc| => RenderParagraph(doc[i])), '\n')
  }

  /** Every parsed document is well-formed: each split yields at least one piece. */
  lemma ParsedIsWellFormed(text: string)
    ensures WellFormed(CreateDocument(text))
  {
  }

  /** One paragraph per "\n"-separated segment. */
  lemma ParagraphCount(text: string)
    ensures |CreateDocument(text)| == Count(text, '\n') + 1
  {
    SplitCount(text, '\n');
  }

  lemma {:induction false} RenderParagraphRoundTrip(text: string)
    ensures RenderParagraph(CreateParagraph(text)) == text
  {
    var pieces := Split(text, '.');
    var paragraph := CreateParagraph(text);
    var joined := seq(|paragraph|, i requires 0 <= i < |paragraph| => Join(paragraph[i], ' '));
    forall i | 0 <= i < |pieces|
      ensures joined[i] == pieces[i]
    {
      JoinSplit(pieces[i], ' ');
    }
    assert joined == pieces;
    JoinSplit(text, '.');
  }

  /** The split is lossless: rendering the parsed document reproduces the input text exactly. */
  lemma {:induction false} RenderRoundTrip(text: string)
    ensures WellFormed(CreateDocument(text))
    ensures Render(CreateDocument(text)) == text
  {
    var pieces := Split(text, '\n');
    var doc := CreateDocument(text);
    var joined := seq(|doc|, i requires 0 <= i < |doc| => RenderParagraph(doc[i]));
    forall i | 0 <= i < |pieces|
      ensures joined[i] == pieces[i]
    {
      RenderParagraphRoundTrip(pieces[i]);
    }
    assert joined == pieces;
    JoinSplit(text, '\n');
  }

  /** No token contains a space, a period or a newline. */
  lemma {:induction false} TokensHaveNoSeparators(text: string)
    ensures var doc := CreateDocument(text);
      forall p, s, k :: 0 <= p < |doc| && 0 <= s < |doc[p]| && 0 <= k < |doc[p][s]| ==>
        ' ' !in doc[p][s][k] && '.' !in doc[p][s][k] && '\n' !in doc[p][s][k]
  {
    var doc := CreateDocument(text);
    var paragraphs := Split(text, '\n');
    SplitPieces(text, '\n');
    forall p, s, k | 0 <= p < |doc| && 0 <= s < |doc[p]| && 0 <= k < |doc[p][s]|
      ensures ' ' !in doc[p][s][k] && '.' !in doc[p][s][k] && '\n' !in doc[p][s][k]
    {
      var ptext := paragraphs[p];
      var sentences := Split(ptext, '.');
      SplitPieces(ptext, '.');
      var stext := sentences[s];
      SplitPieces(stext, ' ');
      var token := Split(stext, ' ')[k];
      assert doc[p][s][k] == token;
      assert '\n' !in ptext;
      assert forall ch :: ch in token ==> ch in stext;
      assert forall ch :: ch in stext ==> ch in ptext;
    }
  }

  /** A sentence piece that begins with a space (everything after ". ") gets a leading "" token. */
  lemma LeadingEmptyToken(text: string, p: nat, s: nat)
    requires p < |CreateDocument(text)| && s < |CreateDocument(text)[p]|
    ensures var piece := Split(Split(text, '\n')[p], '.')[s];
      CreateDocument(text)[p][s][0] == "" <==> (|piece| == 0 || piece[0] == ' ')
  {
  }

  /** The empty text parses to one paragraph holding one sentence holding one empty token. */
  lemma EmptyTextDocument()
    ensures CreateDocument("") == [[[""]]]
  {
    assert Split("", '\n') == [""];
    assert CreateParagraph("") == [[""]];
  }

  /** The sentence splits behind `TwoSentenceExample`. */
  lemma ExampleSentenceSplits()
    ensures Split("A b", ' ') == ["A", "b"]
    ensures Split(" C", ' ') == ["", "C"]
  {
    SplitNoSeparator("A", ' ');
    SplitNoSeparator("b", ' ');
    SplitNoSeparator("C", ' ');
    SplitAtFirst("A", ' ', "b");
    SplitAtFirst("", ' ', "C");
    assert "A b" == "A" + [' '] + "b" && " C" == "" + [' '] + "C";
  }

  /** The paragraph and document splits behind `TwoSentenceExample`. */
  lemma ExampleParagraphSplits()
    ensures Split("A b. C", '.') == ["A b", " C"]
    ensures Split("A b. C", '\n') == ["A b. C"]
  {
    SplitNoSeparator(" C", '.');
    SplitAtFirst("A b", '.', " C");
    assert "A b. C" == "A b" + ['.'] + " C";
    SplitNoSeparator("A b. C", '\n');
  }

  /** A two-sentence paragraph: the second sentence starts with "" and periods are separators,
      so no token keeps its ".". */
  lemma TwoSentenceExample()
    ensures CreateDocument("A b. C") == [[["A", "b"], ["", "C"]]]
  {
    ExampleSentenceSplits();
    ExampleParagraphSplits();
    var paragraph := CreateParagraph("A b. C");
    assert paragraph == [["A", "b"], ["", "C"]];
  }

  /** Text that ends in "\n" parses to a document whose last paragraph is the blank `[[""]]`. */
  lemma TrailingNewlineBlank(text: string)
    requires |text| >= 1 && text[|text| - 1] == '\n'
    ensures var doc := CreateDocument(text); doc[|doc| - 1] == [[""]]
  {
    var body := text[..|text| - 1];
    assert text == body + ['\n'];
    SplitTrailing(body, '\n');
    assert Split("", '.') == [""];
    assert Split("", ' ') == [""];
  }

  /** `"A. B\n"`: two sentences, then a blank paragraph from the final line break. */
  lemma TrailingNewlineExample()
    ensures CreateDocument("A. B\n") == [[["A"], ["", "B"]], [[""]]]
  {
    assert "A. B\n" == Join(["A. B", ""], '\n');
    SplitJoin(["A. B", ""], '\n');
    assert "A. B" == Join(["A", " B"], '.');
    SplitJoin(["A", " B"], '.');
    assert " B" == Join(["", "B"], ' ');
    SplitJoin(["", "B"], ' ');
    SplitNoSeparator("A", ' ');
    assert CreateParagraph("A. B") == [["A"], ["", "B"]];
    assert CreateParagraph("") == [[""]];
  }

  /** `"A.\n\nB."`: each terminated paragraph ends with an empty sentence, and the blank line is a
      blank paragraph. */
  lemma BlankLineExample()
    ensures CreateDocument("A.\n\nB.") == [[["A"], [""]], [[""]], [["B"], [""]]]
  {
    assert "A.\n\nB." == Join(["A.", "", "B."], '\n');
    SplitJoin(["A.", "", "B."], '\n');
    assert "A." == Join(["A", ""], '.');
    SplitJoin(["A", ""], '.');
    assert "B." == Join(["B", ""], '.');
    SplitJoin(["B", ""], '.');
    SplitNoSeparator("A", ' ');
    SplitNoSeparator("B", ' ');
    assert CreateSentence("") == [""];
    assert CreateParagraph("A.") == [["A"], [""]];
    assert CreateParagraph("") == [[""]];
    assert CreateParagraph("B.") == [["B"], [""]];
  }

  /** The sentence splits of `"Hi you. Go now."`. */
  lemma GreetingSentences()
    ensures CreateSentence("Hi you") == ["Hi", "you"]
    ensures CreateSentence(" Go now") == ["", "Go", "now"]
    ensures CreateSentence("") == [""]
  {
    assert "Hi you" == Join(["Hi", "you"], ' ');
    SplitJoin(["Hi", "you"], ' ');
    assert " Go now" == Join(["", "Go", "now"], ' ');
    SplitJoin(["", "Go", "now"], ' ');
  }

  /** The paragraph and document splits of `"Hi you. Go now."`. */
  lemma GreetingPieces()
    ensures Split("Hi you. Go now.", '.') == ["Hi you", " Go now", ""]
    ensures Split("Hi you. Go now.", '\n') == ["Hi you. Go now."]
  {
    var pieces := ["Hi you", " Go now", ""];
    assert Join(pieces[1..], '.') == " Go now" + "." + "";
    assert "Hi you. Go now." == Join(pieces, '.');
    SplitJoin(pieces, '.');
    SplitNoSeparator("Hi you. Go now.", '\n');
  }

  /** A paragraph whose text splits into three pieces has those pieces' sentences. */
  lemma ParagraphOfThree(text: string, a: string, b: string, c: string)
    requires Split(text, '.') == [a, b, c]
    ensures CreateParagraph(text) == [CreateSentence(a), CreateSentence(b), CreateSentence(c)]
  {
  }

  lemma GreetingParagraph()
    ensures CreateParagraph("Hi you. Go now.") == [["Hi", "you"], ["", "Go", "now"], [""]]
  {
    GreetingPieces();
    ParagraphOfThree("Hi you. Go now.", "Hi you", " Go now", "");
    GreetingSentences();
  }

  /** `"Hi you. Go now."`: the second sentence starts with `""` and a final empty sentence follows
      the last period. */
  lemma GreetingExample()
    ensures CreateDocument("Hi you. Go now.") == [[["Hi", "you"], ["", "Go", "now"], [""]]]
  {
    GreetingPieces();
    GreetingParagraph();
  }
}
