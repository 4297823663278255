# Prompt editor core, modelled in Dafny

The prompt editor works on a three-level document: paragraphs, sentences, tokens. This project models
the index logic behind it:

- the parser that turns text into that document;
- the position and precision algebra;
- the word, sentence, paragraph and punctuation navigation;
- the selection operations;
- the pure bodies of the cursor hotkeys, as a single transition function;
- the visual word registry that the vertical arrows consult;
- the small helpers of the diff viewer;
- the bounded list of prompt variations.

Modules, one per file:

- `Options`: `Option` and `Result`. A `Result` failure stands for a thrown error.
- `TextSplit`: `String.prototype.split` on one character, its inverse `Join`, and separator counting.
- `DocumentModel`: `createSentence`, `createParagraph`, `createDocument`, and the renderer that inverts them.
- `Positions`: block positions.
  - Each of `sentence`, `word` and `character` is an optional field; the fields present decide the precision.
  - `createPosition`, the two converters, `matchPrecision` and `getSelectionPrecision`.
- `Ordinals`: the absolute sentence and word ordinals of `getSentencePositionAbs` and `getWordPositionAbs`, which order positions in reading order.
- `SentenceNav` and `WordNav`: `moveSentencePosition`, `moveWordPosition`, the sentence, word and paragraph steppers, and the paragraph jumps.
- `Punctuation`: the two punctuation jumps and their recursive searches.
- `Selection`: `isEqualPosition`, `isInsideSelectionRange`, `getSelectionBoundSorted`, `isSelectingFullSentence`, `moveSelection`, `moveSelectionBySentence` and `expandSelection`.
- `WordRegistry`: `WordPositionInfoProvider`'s line table, position index and nearest-word search.
- `CursorMachine`: cursor state, commands, one range updater per hotkey pair, and `Step`.
- `DiffViewer`: `truncateString`, `turnTrailingLineBreakIntoBR`, and the per-chunk display decision.
- `Workspace`: `createVariation` and the editors' `onPromptTextUpdate`.

Three different notions of an "empty" paragraph are kept apart, because the code uses all three:

- `BlankParagraph`: one sentence whose first token is `""`. Used by `moveSentencePosition` and the paragraph jumps.
- `HollowParagraph`: one sentence whose first token is falsy. Used by the steppers.
- `TokenlessParagraph`: one sentence with no tokens. Used by `moveWordPosition`; a parsed document never has one.

JavaScript truthiness is modelled explicitly:

- `precision || getPrecision(p)` treats PARAGRAPH (0) as "not given".
- A word index of 0 is falsy.
- `a || b ? x : y` groups as `(a || b) ? x : y`, so `convertToSentencePosition` with `"start"` always yields sentence 0.
- A comparison with `undefined` is false.

Some consequences of the code that are easy to miss, each proved on a concrete text:

- **Parser.** The parser splits on every `"."` and then on every `" "`, so the text after `". "` starts with an empty token: `"A b. C"` parses to `[[["A","b"],["","C"]]]` (`DocumentModel.TwoSentenceExample`). A text ending in `"."` gets a final sentence `[""]`, and a text ending in `"\n"` gets a final paragraph `[[""]]` (`DocumentModel.TrailingNewlineBlank`).
- **Word move.** In `"Hi you. Go now."`, one word on from `you` is `(0,1,0)`, whose token is `""`, not `Go` (`WordNav.TerminatedWordStep`).
- **Sentence move.** In `"A.\n\nB."`, with blank paragraphs ignored, one sentence on from `(0,0)` is `(0,1)`, the empty sentence after `"A."`, not `(2,0)` (`SentenceNav.TerminatedSentenceStep`).
- **Backward punctuation jump.** Back from `fox` in `["The","quick,","brown","fox"]` lands on `brown`, the word after the punctuation, not on `quick,` (`Punctuation.PunctuationScenario`).

## Model

| member | source | states |
|---|---|---|
| TextSplit.Split | src/components/PromptTextEditor/DocumentProvider.tsx:19-34 | splitting on a character always yields at least one piece |
| TextSplit.JoinSplit | src/components/PromptTextEditor/DocumentProvider.tsx:19-34 | joining the pieces of a split with the separator gives back the original string |
| TextSplit.SplitCount | src/components/PromptTextEditor/DocumentProvider.tsx:31-34 | a split yields one more piece than there are separators |
| TextSplit.SplitPieces | src/components/PromptTextEditor/DocumentProvider.tsx:19-34 | no piece contains the separator, and every character of a piece occurs in the input |
| TextSplit.SplitFirstPiece | src/components/PromptTextEditor/DocumentProvider.tsx:20 | the first piece is empty exactly when the input is empty or starts with the separator |
| TextSplit.SplitJoin | src/components/PromptTextEditor/DocumentProvider.tsx:19-34 | splitting the join of pieces that do not contain the separator gives back exactly those pieces |
| TextSplit.SplitTrailing | src/components/PromptTextEditor/DocumentProvider.tsx:31-34 | a trailing separator adds one empty piece after the pieces of the text before it |
| DocumentModel.CreateSentence | src/components/PromptTextEditor/DocumentProvider.tsx:19-22 | a sentence has at least one token, and its first token is "" exactly when the text is empty or starts with a space |
| DocumentModel.CreateParagraph | src/components/PromptTextEditor/DocumentProvider.tsx:25-28 | one sentence per "."-separated piece, each parsed by createSentence |
| DocumentModel.CreateDocument | src/components/PromptTextEditor/DocumentProvider.tsx:31-34 | one paragraph per "\n"-separated piece, each parsed by createParagraph |
| DocumentModel.ParsedIsWellFormed | src/components/PromptTextEditor/DocumentProvider.tsx:19-34 | a parsed document has at least one paragraph, every paragraph at least one sentence, every sentence at least one token |
| DocumentModel.ParagraphCount | src/components/PromptTextEditor/DocumentProvider.tsx:31-34 | the number of paragraphs is the number of "\n" plus one |
| DocumentModel.RenderParagraphRoundTrip | src/components/PromptTextEditor/DocumentProvider.tsx:19-28 | joining a parsed paragraph's tokens with " " and its sentences with "." gives back its text |
| DocumentModel.RenderRoundTrip | src/components/PromptTextEditor/DocumentProvider.tsx:19-34 | rendering a parsed document with " ", "." and "\n" reproduces the input text exactly |
| DocumentModel.TokensHaveNoSeparators | src/components/PromptTextEditor/DocumentProvider.tsx:19-34 | no token of a parsed document contains " ", "." or "\n" |
| DocumentModel.LeadingEmptyToken | src/components/PromptTextEditor/DocumentProvider.tsx:20-27 | a sentence's first token is "" exactly when its piece of text is empty or begins with a space |
| DocumentModel.EmptyTextDocument | src/components/PromptTextEditor/DocumentProvider.tsx:19-34 | the empty text parses to [[[""]]] |
| DocumentModel.TwoSentenceExample | src/components/PromptTextEditor/DocumentProvider.tsx:19-34 | "A b. C" parses to [[["A","b"],["","C"]]]: the text after ". " starts with an empty token |
| DocumentModel.TrailingNewlineBlank | src/components/PromptTextEditor/DocumentProvider.tsx:31-34 | a text ending in "\n" parses to a document whose last paragraph is [[""]], one sentence whose first token is "" |
| DocumentModel.TrailingNewlineExample | src/components/PromptTextEditor/DocumentProvider.tsx:19-34 | "A. B\n" parses to [[["A"],["","B"]],[[""]]] |
| DocumentModel.BlankLineExample | src/components/PromptTextEditor/DocumentProvider.tsx:19-34 | "A.\n\nB." parses to [[["A"],[""]],[[""]],[["B"],[""]]] |
| DocumentModel.GreetingExample | src/components/PromptTextEditor/DocumentProvider.tsx:19-34 | "Hi you. Go now." parses to [[["Hi","you"],["","Go","now"],[""]]] |
| Positions.GetPrecision | src/components/PromptTextEditor/CursorStateProvider.tsx:65-76 | the precision is WORD exactly when a word is present, PARAGRAPH exactly when neither sentence nor word is, and never CHARACTER |
| Positions.GetPrecisionName | src/components/PromptTextEditor/CursorStateProvider.tsx:78-89 | the lower-case name of the precision; distinct precisions get distinct names (`Positions.PrecisionNamesDistinct`) |
| Positions.PrecisionNamesDistinct | src/components/PromptTextEditor/CursorStateProvider.tsx:78-89 | distinct precisions have distinct names |
| Positions.DistToParagraph | src/components/PromptTextEditor/CursorStateProvider.tsx:136-144 | the distance added to the second paragraph index gives the first |
| Positions.CreatePosition | src/components/PromptTextEditor/CursorStateProvider.tsx:146-178 | the paragraph is kept, the result is well shaped, its precision is min(requested precision or own precision, WORD), and present fields are the input's fields with undefined read as 0 |
| Positions.CreatePositionIdempotent | src/components/PromptTextEditor/CursorStateProvider.tsx:146-178 | creating a position twice at the same precision (other than PARAGRAPH) gives the same position as creating it once |
| Positions.CreatePositionOwnPrecision | src/components/PromptTextEditor/CursorStateProvider.tsx:146-178 | without a precision, a well-shaped position without a character is returned unchanged |
| Positions.CreatePositionParagraphQuirk | src/components/PromptTextEditor/CursorStateProvider.tsx:147 | asking for PARAGRAPH behaves as asking for nothing, because `precision \|\| …` treats 0 as absent |
| Positions.ClonePosition | src/components/PromptTextEditor/CursorStateProvider.tsx:1198-1204 | the clone keeps paragraph, sentence, word and precision and drops the character |
| Positions.RangeToPosition | src/components/PromptTextEditor/CursorStateProvider.tsx:199-201 | the range's `to`, or a clone of `from` when `to` is absent |
| Positions.CreateSelection | src/components/PromptTextEditor/CursorStateProvider.tsx:179-194 | without `from` the selection is `{WORD_ZERO, null}`; otherwise both ends are created at the precision and `to` is present exactly when given |
| Positions.ConvertToWordPosition | src/components/PromptTextEditor/CursorStateProvider.tsx:220-238 | a non-zero word is returned as it is; otherwise the sentence (or 0) is kept and the word is 0 for "start" or the sentence's last word for "end" |
| Positions.ConvertToSentencePosition | src/components/PromptTextEditor/CursorStateProvider.tsx:239-251 | the result is sentence-level; with "start" or a non-zero sentence it is sentence 0, otherwise the paragraph's last sentence |
| Positions.LowestPrecision | src/components/PromptTextEditor/CursorStateProvider.tsx:253-262 | the result is at most WORD, at most every input's precision, and is WORD or some input's precision |
| Positions.MatchPrecision | src/components/PromptTextEditor/CursorStateProvider.tsx:253-277 | the precision is the minimum of WORD and every input's precision, never CHARACTER; the output has the input's length and keeps each paragraph, and keeps sentence and word exactly when the precision admits them |
| Positions.MatchedPrecisionExact | src/components/PromptTextEditor/CursorStateProvider.tsx:253-277 | every harmonised position has exactly the common precision, so forPrecision runs exactly one handler |
| Positions.GetSelectionPrecision | src/components/PromptTextEditor/CursorStateProvider.tsx:1206-1229 | the precision of a range is matchPrecision of its two ends, the lower of their precisions |
| Positions.ConvertSelectionPrecision | src/components/PromptTextEditor/CursorStateProvider.tsx:1272-1288 | both ends are created at the precision, and `to` is present exactly when it was |
| Ordinals.SentenceAbs | src/components/PromptTextEditor/CursorStateProvider.tsx:279-289 | the sentences before the position in reading order: at least its own index, exactly it in paragraph 0; bounds and order in `Ordinals.SentenceAbsBound` and `Ordinals.SentenceAbsOrder` |
| Ordinals.WordAbs | src/components/PromptTextEditor/CursorStateProvider.tsx:291-312 | the words before the position in reading order: at least its own index, exactly it in the first sentence; bounds and order in `Ordinals.WordAbsBound` and `Ordinals.WordAbsOrder` |
| Ordinals.SentenceAbsBound | src/components/PromptTextEditor/CursorStateProvider.tsx:279-289 | a valid sentence's ordinal lies in [0, total sentences) |
| Ordinals.WordAbsBound | src/components/PromptTextEditor/CursorStateProvider.tsx:291-312 | a valid word's ordinal lies in [0, total words) |
| Ordinals.SentenceAbsOrder | src/components/PromptTextEditor/CursorStateProvider.tsx:279-289 | between valid sentences, ordinal order is exactly (paragraph, sentence) lexicographic order, and equal ordinals mean equal positions |
| Ordinals.WordAbsOrder | src/components/PromptTextEditor/CursorStateProvider.tsx:291-312 | between valid words, ordinal order is exactly (paragraph, sentence, word) lexicographic order, and equal ordinals mean equal positions |
| SentenceNav.SkipForward | src/components/PromptTextEditor/CursorStateProvider.tsx:453-469 | the next paragraph not skipped as blank, at sentence 0; or, if every later paragraph is skipped, the last paragraph with the sentence index unchanged |
| SentenceNav.SkipBackward | src/components/PromptTextEditor/CursorStateProvider.tsx:477-495 | the previous paragraph not skipped as blank, at its last sentence; or, if every earlier one is skipped, paragraph 0 with the sentence index unchanged |
| SentenceNav.MoveSentencePosition | src/components/PromptTextEditor/CursorStateProvider.tsx:439-504 | zero steps return the position unchanged; any other move stays inside the paragraph range |
| SentenceNav.SentenceStepLanding | src/components/PromptTextEditor/CursorStateProvider.tsx:453-496 | one step lands on the neighbouring sentence inside a paragraph; across a paragraph edge on the nearest paragraph not skipped (sentence 0 forward, last sentence back), every paragraph passed over being blank and skipped; forward with every later paragraph skipped, on the last paragraph with the sentence index unchanged; back with every earlier one skipped, on (0,0) |
| SentenceNav.MoveOneSentence | src/components/PromptTextEditor/CursorStateProvider.tsx:439-504 | a move by one sentence is exactly one step of the loop |
| SentenceNav.MoveSentenceClamp | src/components/PromptTextEditor/CursorStateProvider.tsx:439-504 | when no paragraph is skipped, the result is valid and its ordinal is clamp(start + steps, 0, total − 1) |
| SentenceNav.MoveSentenceInBounds | src/components/PromptTextEditor/CursorStateProvider.tsx:439-504 | when the last paragraph is not blank, the result is valid and moves in the direction of the steps |
| SentenceNav.TrailingBlankParagraphOverrun | src/components/PromptTextEditor/CursorStateProvider.tsx:459-469 | on "A. B\n", a text ending in a line break, one sentence on from the last sentence (0,1) lands on (1,1), which the one-sentence last paragraph does not have |
| SentenceNav.TerminatedSentenceStep | src/components/PromptTextEditor/CursorStateProvider.tsx:439-504 | in "A.\n\nB." one sentence on from (0,0) is (0,1), the empty sentence after "A." |
| SentenceNav.MoveSentencePositionFixed | src/components/PromptTextEditor/CursorStateProvider.tsx:439-504 | moveSentencePosition with the overrun corrected: zero steps return the position, and any other move stays inside the paragraph range (its in-bounds and agreement lemmas follow) |
| SentenceNav.MoveSentenceFixedInBounds | src/components/PromptTextEditor/CursorStateProvider.tsx:439-504 | the corrected mover stays inside every parsed document and moves in the direction of the steps, whatever paragraphs are blank |
| SentenceNav.MoveSentenceFixedAgrees | src/components/PromptTextEditor/CursorStateProvider.tsx:439-504 | the corrected mover and moveSentencePosition agree on every position and step count unless blank paragraphs are ignored and the last paragraph is blank |
| SentenceNav.MoveSentenceFixedClamp | src/components/PromptTextEditor/CursorStateProvider.tsx:439-504 | when no paragraph is skipped, the corrected mover's result is valid and its ordinal is clamp(start + steps, 0, total − 1) |
| SentenceNav.TrailingBlankParagraphStays | src/components/PromptTextEditor/CursorStateProvider.tsx:459-469 | on "A. B\n" the corrected mover keeps (0,1) where moveSentencePosition overruns |
| SentenceNav.GetNextSentencePosition | src/components/PromptTextEditor/CursorStateProvider.tsx:1158-1197 | a result is valid, later, not falsy-first when skipping, and every sentence passed over is falsy-first and skipped; null exactly when every later sentence is skipped |
| SentenceNav.GetPrevSentencePosition | src/components/PromptTextEditor/CursorStateProvider.tsx:793-829 | a result is valid, earlier, and every sentence passed over is skipped; outside paragraph 0 it is not falsy-first when skipping; null only at (0,0) or when every earlier sentence is skipped |
| SentenceNav.SentenceSteppersAdjacent | src/components/PromptTextEditor/CursorStateProvider.tsx:793-829 | without skipping, the steppers change the sentence ordinal by exactly one, and return null exactly at the last and first sentence |
| SentenceNav.GetNextParagraphLastSentence | src/components/PromptTextEditor/CursorStateProvider.tsx:713-755 | the result is its paragraph's last sentence; it snaps within the paragraph exactly when not already there; skipped paragraphs are blank; null exactly at the boundary with every later paragraph skipped |
| SentenceNav.GetPrevParagraphFirstSentence | src/components/PromptTextEditor/CursorStateProvider.tsx:757-791 | the result is sentence 0; it snaps within the paragraph exactly when not already there; skipped paragraphs are blank; null exactly at sentence 0 with every earlier paragraph skipped |
| WordNav.WellFormedHasNoTokenless | src/components/PromptTextEditor/CursorStateProvider.tsx:517-518 | a parsed document has no zero-token paragraph, so moveWordPosition never skips one |
| WordNav.WordSkipForward | src/components/PromptTextEditor/CursorStateProvider.tsx:515-528 | the next paragraph not skipped, at (0,0); or the last paragraph with sentence and word unchanged when every later one is skipped |
| WordNav.WordSkipBackward | src/components/PromptTextEditor/CursorStateProvider.tsx:560-575 | the previous paragraph not skipped, at its last word; or paragraph 0 with sentence and word unchanged when every earlier one is skipped |
| WordNav.MoveWordPosition | src/components/PromptTextEditor/CursorStateProvider.tsx:506-593 | the result is a valid word, and zero steps return the position |
| WordNav.MoveWordClamp | src/components/PromptTextEditor/CursorStateProvider.tsx:506-593 | on a parsed document, the result's ordinal is clamp(start + steps, 0, total words − 1), whether empty paragraphs are ignored or not |
| WordNav.MoveWordRoundTrip | src/components/PromptTextEditor/CursorStateProvider.tsx:506-593 | one word forward then one word back returns to the start, from every word but the document's last |
| WordNav.TerminatedWordStep | src/components/PromptTextEditor/CursorStateProvider.tsx:506-593 | in "Hi you. Go now." one word on from "you" is (0,1,0), whose token is "" |
| WordNav.GetNextParagraphPosition | src/components/PromptTextEditor/CursorStateProvider.tsx:1130-1156 | null exactly at the last paragraph or at CHARACTER precision; otherwise the next paragraph at the requested precision, at its start |
| WordNav.GetPrevParagraphPosition | src/components/PromptTextEditor/CursorStateProvider.tsx:900-928 | null exactly at paragraph 0 or at CHARACTER precision; otherwise the previous paragraph at the requested precision, at its last sentence and word |
| WordNav.GetNextWordPosition | src/components/PromptTextEditor/CursorStateProvider.tsx:998-1069 | null at the document's last word; a result is valid and strictly later; a new sentence outside a hollow paragraph starts at word 0; without skipping, away from the sentence end it is the next word index |
| WordNav.GetPreviousWordPosition | src/components/PromptTextEditor/CursorStateProvider.tsx:930-996 | null at (0,0,0); a result is valid and strictly earlier; entering another sentence lands on its last word; without skipping, away from word 0 it is the previous word index |
| WordNav.NextWordSkipsLeadingBlankSentence | src/components/PromptTextEditor/CursorStateProvider.tsx:1052-1064 | when skipping, the next word after "b" in [["A","b"],["","C","d"]] is null: the sentence starting with "" is passed over |
| Punctuation.HasPunctuation | src/components/PromptTextEditor/CursorStateProvider.tsx:20 | a token matches exactly when one of its characters is whitespace or one of ; : . , " |
| Punctuation.GetNextPunctuationPosition | src/components/PromptTextEditor/CursorStateProvider.tsx:1071-1128 | a result is valid, strictly later, and a stop: it contains punctuation, or ends its sentence or the document |
| Punctuation.GetPrevPunctuationPosition | src/components/PromptTextEditor/CursorStateProvider.tsx:835-898 | a result is valid, strictly earlier, and a stop: a paragraph's first word, or a word whose preceding word contains punctuation |
| Punctuation.NextPunctuationIsFirstStop | src/components/PromptTextEditor/CursorStateProvider.tsx:1071-1128 | a result is the first stop reached by repeated getNextWordPosition; null means no word on that walk is a stop |
| Punctuation.PrevPunctuationIsFirstStop | src/components/PromptTextEditor/CursorStateProvider.tsx:835-898 | a result is the first stop reached by repeated getPreviousWordPosition; null means no word on that walk is a stop |
| Punctuation.PunctuationScenario | src/components/PromptTextEditor/CursorStateProvider.tsx:835-898 | in ["The","quick,","brown","fox"] back from "fox" lands on "brown" and forward from "The" on "quick," |
| Selection.IsEqualPosition | src/components/PromptTextEditor/CursorStateProvider.tsx:334-350 | equal positions share their paragraph |
| Selection.IsEqualPositionProperties | src/components/PromptTextEditor/CursorStateProvider.tsx:334-350 | the comparison is symmetric and reflexive, is plain equality at a shared precision, and compares only paragraph and sentence between a word and a sentence |
| Selection.IsInsideSelectionRange | src/components/PromptTextEditor/CursorStateProvider.tsx:352-437 | a target inside the range has its paragraph between the ends' paragraphs; the exact characterisation at word precision is `Selection.InsideSelectionAtWordPrecision` |
| Selection.InsideSelectionSymmetric | src/components/PromptTextEditor/CursorStateProvider.tsx:352-437 | swapping `from` and `to` does not change whether a target is inside |
| Selection.InsideSelectionEnds | src/components/PromptTextEditor/CursorStateProvider.tsx:352-437 | both ends of a range are inside it |
| Selection.InsideSelectionAtWordPrecision | src/components/PromptTextEditor/CursorStateProvider.tsx:352-437 | at word precision a target is inside exactly when its word ordinal lies between the ends' ordinals |
| Selection.GetSelectionBoundSorted | src/components/PromptTextEditor/CursorStateProvider.tsx:1230-1257 | each bound is one of the two ends and the lower bound's paragraph is not after the upper's; the order of word-level ends is `Selection.BoundSortedOrdersEnds` |
| Selection.BoundSortedOrdersEnds | src/components/PromptTextEditor/CursorStateProvider.tsx:1230-1257 | for word-level ends the bounds are the two ends in reading order, the lower not after the upper, and swapping distinct ends gives the same bounds |
| Selection.BoundSortedAnchorOnly | src/components/PromptTextEditor/CursorStateProvider.tsx:1230-1257 | without `to` both bounds are the clone of `from` |
| Selection.IsSelectingFullSentence | src/components/PromptTextEditor/CursorStateProvider.tsx:1259-1270 | a full-sentence answer needs a `to` and a word-level `from`; the lower bound sits on word 0 and the upper bound on the last word of its sentence |
| Selection.WholeSentenceIsFull | src/components/PromptTextEditor/CursorStateProvider.tsx:1259-1270 | selecting a sentence from its first to its last word, in either direction, is recognised as a full sentence |
| Selection.WalkWords | src/components/PromptTextEditor/CursorStateProvider.tsx:621-637 | repeating the word stepper stays valid and moves in the requested direction |
| Selection.WalkWithinSentenceForward | src/components/PromptTextEditor/CursorStateProvider.tsx:621-637 | inside one sentence a forward walk of n words lands exactly n words further on |
| Selection.WalkWithinSentenceBackward | src/components/PromptTextEditor/CursorStateProvider.tsx:621-637 | inside one sentence a backward walk of n words lands exactly n words earlier |
| Selection.WalkWordsStops | src/components/PromptTextEditor/CursorStateProvider.tsx:621-637 | where the stepper returns null (`|| w` keeps w) the walk stays on its start |
| Selection.WalkWordsProgress | src/components/PromptTextEditor/CursorStateProvider.tsx:621-637 | where the stepper finds a word, a walk of at least one step strictly moves past its start in the walk's direction |
| Selection.MoveSelection | src/components/PromptTextEditor/CursorStateProvider.tsx:595-640 | fails exactly at paragraph precision; otherwise `to` is the harmonised `to` moved by offset sentences with moveSentencePosition (sentence precision) or walked |offset| words (word precision), `from` is the moved harmonised `from` with preserveRange and equals `to` without |
| Selection.MoveSelectionWordDirection | src/components/PromptTextEditor/CursorStateProvider.tsx:595-640 | at word precision both moved ends are valid words that move in the offset's direction |
| Selection.MoveSelectionCollapses | src/components/PromptTextEditor/CursorStateProvider.tsx:595-640 | a collapsing move by one word inside a sentence gives `{w+1, w+1}` for the next word w+1 after `to` |
| Selection.MoveSelectionSentenceMoves | src/components/PromptTextEditor/CursorStateProvider.tsx:595-640 | at sentence precision each end is its moveSentencePosition; unless the last paragraph is skipped both are valid and move in the offset's direction; with no paragraph skipped each end's ordinal moves by exactly offset, clamped to the document |
| Selection.MoveSelectionKeepsWidth | src/components/PromptTextEditor/CursorStateProvider.tsx:595-640 | a preserved sentence range not pushed against either end of the document keeps its width in sentences |
| Selection.MoveSelectionWithinSentence | src/components/PromptTextEditor/CursorStateProvider.tsx:595-640 | a word move that stays inside `to`'s sentence puts `to` exactly offset words on, collapses onto it without preserveRange, and shifts `from` the same way with it |
| Selection.MoveSelectionBySentence | src/components/PromptTextEditor/CursorStateProvider.tsx:642-679 | both ends are sentence positions; a word-level `from` gives its collapsed sentence whatever the offset; otherwise `to` (and `from` with preserveRange) are the ends moved by offset sentences with moveSentencePosition, and the range collapses without preserveRange |
| Selection.ExpandSelection | src/components/PromptTextEditor/CursorStateProvider.tsx:681-711 | fails exactly at paragraph precision; otherwise `from` is the harmonised `from` and `to` is the harmonised `to` moved by offset sentences with moveSentencePosition skipping blank paragraphs, or walked |offset| words |
| Selection.ExpandKeepsAnchor | src/components/PromptTextEditor/CursorStateProvider.tsx:681-711 | when `from` already has the range's precision, expanding keeps it exactly |
| Selection.ExpandMatchesMove | src/components/PromptTextEditor/CursorStateProvider.tsx:681-711 | expanding moves `to` exactly as a range-preserving moveSelection that skips blank paragraphs, and fails exactly when it does |
| WordRegistry.NatToString | src/components/PromptTextEditor/WordPositionInfoProvder.tsx:51-52 | a number prints as a non-empty string of decimal digits |
| WordRegistry.ParseNatToString | src/components/PromptTextEditor/WordPositionInfoProvder.tsx:51-52 | reading the printed digits back gives the number |
| WordRegistry.PositionHash | src/components/PromptTextEditor/WordPositionInfoProvder.tsx:51-52 | the `paragraph-sentence-word` key; two in-document positions share it exactly when equal (`WordRegistry.PositionHashInjective`) |
| WordRegistry.PositionHashInjective | src/components/PromptTextEditor/WordPositionInfoProvder.tsx:51-52 | two in-document positions have the same hash exactly when they are equal |
| WordRegistry.RegisterWordInfo | src/components/PromptTextEditor/WordPositionInfoProvder.tsx:69-80 | the word joins its line, replacing only the word at its pixelLeft; other lines are untouched; the line count grows to cover the line |
| WordRegistry.GetWordVisualPositionInfo | src/components/PromptTextEditor/WordPositionInfoProvder.tsx:116-119 | a position has visual information exactly when its hash was registered |
| WordRegistry.RegisterThenLookup | src/components/PromptTextEditor/WordPositionInfoProvder.tsx:69-80 | after registering a word, its position looks up to the word's line and pixelLeft |
| WordRegistry.RegisterFrame | src/components/PromptTextEditor/WordPositionInfoProvder.tsx:69-80 | registering a word leaves every other in-document position's lookup unchanged |
| WordRegistry.SamePlaceReplaces | src/components/PromptTextEditor/WordPositionInfoProvder.tsx:53-54 | a later word at the same line and pixelLeft replaces the earlier one |
| WordRegistry.ClosestInLine | src/components/PromptTextEditor/WordPositionInfoProvder.tsx:87-104 | nothing exactly when every word is at least 100000000 away; otherwise the nearest word, nearer than every word before it |
| WordRegistry.FirstClosestUnique | src/components/PromptTextEditor/WordPositionInfoProvder.tsx:98 | the strict comparison picks a single word: the first among the nearest |
| WordRegistry.SearchClosestWordInLine | src/components/PromptTextEditor/WordPositionInfoProvder.tsx:82-105 | throws exactly when the line was never created; otherwise the nearest word on that line as above |
| WordRegistry.GetWordAbove | src/components/PromptTextEditor/WordPositionInfoProvder.tsx:106-110 | nothing on line 0; otherwise throws exactly when the line above was never created, and a word found is the nearest on that line |
| WordRegistry.GetWordBelow | src/components/PromptTextEditor/WordPositionInfoProvder.tsx:111-115 | nothing when line + 1 reaches the line count; otherwise throws exactly when the line below was never created, and a word found is the nearest on that line |
| CursorMachine.SentenceAnchor | src/components/PromptTextEditor/CursorStateProvider.tsx:1399-1404 | the anchor an arrow key creates from no selection is sentence 0 of the cursor's paragraph, as both ends |
| CursorMachine.AnchoredNeverParagraph | src/components/PromptTextEditor/CursorStateProvider.tsx:595-711 | a range whose ends carry a sentence is never at paragraph precision, so moveSelection and expandSelection do not throw on it |
| CursorMachine.ArrowVerticalRange | src/components/PromptTextEditor/CursorStateProvider.tsx:1397-1464 | from no selection, the sentence anchor; a full-sentence word selection becomes its sentence conversion moved one sentence and collapsed; another word selection becomes a from-only selection on the word above or below when the registry has one, else stays; a sentence-level selection moves by one sentence |
| CursorMachine.ArrowHorizontalRange | src/components/PromptTextEditor/CursorStateProvider.tsx:1466-1498 | from no selection, `{position, position}`; when the selection's head is a sentence, a from-only selection on that sentence's first word (left) or last word (right); otherwise the collapsed result of moveSelection by one step at the range's common precision (a word, or a sentence when `from` is sentence-level) |
| CursorMachine.TabRange | src/components/PromptTextEditor/CursorStateProvider.tsx:1503-1530 | from no selection, the sentence anchor; otherwise the selection moved by one sentence (forward for Tab, back for Shift+Tab) and collapsed, which is from's sentence when `from` is word-level |
| CursorMachine.AltHorizontalRange | src/components/PromptTextEditor/CursorStateProvider.tsx:1535-1562 | no selection stays none; otherwise a from-only selection on a valid word of the document |
| CursorMachine.MetaShiftVerticalRange | src/components/PromptTextEditor/CursorStateProvider.tsx:1567-1579 | no selection stays none; otherwise the result is a selection with a `to` |
| CursorMachine.ShiftVerticalRange | src/components/PromptTextEditor/CursorStateProvider.tsx:1584-1609 | no selection stays none; `from` becomes sentence-level; a selection not already at sentence level is only converted; one already there gets `to` expanded by one sentence |
| CursorMachine.ShiftHorizontalRange | src/components/PromptTextEditor/CursorStateProvider.tsx:1611-1631 | no selection stays none; `from` becomes word-level; a selection not already at word level is only converted; one already there gets `to` expanded by one word |
| CursorMachine.AltVerticalRange | src/components/PromptTextEditor/CursorStateProvider.tsx:1636-1663 | no selection stays none; a selection stays a selection, and whenever it changes it becomes one collapsed sentence |
| CursorMachine.AltShiftVerticalRange | src/components/PromptTextEditor/CursorStateProvider.tsx:1668-1692 | no selection stays none; `from` is kept, and `to`, when present, is a sentence position |
| CursorMachine.AltShiftHorizontalRange | src/components/PromptTextEditor/CursorStateProvider.tsx:1694-1734 | no selection stays none; a non-word `from` turns the selection into its word-level conversion; a word-level `from` is kept |
| CursorMachine.EscapeState | src/components/PromptTextEditor/CursorStateProvider.tsx:1744-1754 | no range, not selecting, WORD level, and the cursor on the word form (start rounding) of the range's `to`, or of `from` when there is no `to`; WORD_ZERO when there was no range |
| CursorMachine.Step | src/components/PromptTextEditor/CursorStateProvider.tsx:1315-1392 | only SetPosition and Escape move the cursor; a selection is in progress exactly after selectFrom until stopSelecting or Escape; selectFrom sets the level to the position's precision and the range to {pos, null}; selectTo keeps `from` (WORD_ZERO without a range) and sets `to`; Shift down and up set SENTENCE and WORD and change nothing else |
| CursorMachine.MoveSelectionAnchored | src/components/PromptTextEditor/CursorStateProvider.tsx:595-640 | moving an in-bounds range with blank paragraphs ignored succeeds and stays in bounds when the last paragraph is not blank |
| CursorMachine.ExpandAnchored | src/components/PromptTextEditor/CursorStateProvider.tsx:681-711 | expanding an in-bounds range succeeds and stays in bounds when the last paragraph is not blank |
| CursorMachine.MoveBySentenceAnchored | src/components/PromptTextEditor/CursorStateProvider.tsx:642-679 | moving an in-bounds range by sentences stays in bounds when the last paragraph is not blank |
| CursorMachine.StepPreservesValidState | src/components/PromptTextEditor/CursorStateProvider.tsx:1315-1754 | every command keeps the cursor and selection inside the document, given a registry that reports only document words and a last paragraph that is not blank |
| CursorMachine.TabMovesOneSentence | src/components/PromptTextEditor/CursorStateProvider.tsx:1503-1530 | on a sentence range, Tab collapses onto one sentence step after `to` and Shift+Tab onto one before, blank paragraphs skipped as SentenceStepLanding describes; with no blank paragraph that is the next or previous ordinal, clamped to the document |
| CursorMachine.ShiftVerticalGrowsBySentence | src/components/PromptTextEditor/CursorStateProvider.tsx:1584-1609 | on a sentence range, Shift+ArrowDown/Up keeps `from` and moves `to` one sentence step on/back, blank paragraphs skipped; with no blank paragraph that is the next or previous ordinal, clamped to the document |
| CursorMachine.ShiftHorizontalGrowsByWord | src/components/PromptTextEditor/CursorStateProvider.tsx:1611-1631 | on a word range, Shift+ArrowRight/Left keeps `from` and moves `to` one word on/back while it stays in its sentence |
| CursorMachine.TabOverrun | src/components/PromptTextEditor/CursorStateProvider.tsx:1503-1530 | on "A. B\n", Tab on the valid sentence range at (0,1) gives the range at (1,1), a state outside the document |
| CursorMachine.AltRightAtLastWord | src/components/PromptTextEditor/CursorStateProvider.tsx:1549-1562 | Alt+ArrowRight at the document's last word finds no stop and selects WORD_ZERO |
| CursorMachine.EscapeAfterDrag | src/components/PromptTextEditor/CursorStateProvider.tsx:1744-1754 | after dragging to a position, Escape clears the range and puts the cursor on that position's word form |
| DiffViewer.TruncateString | src/components/DiffViewer/DiffViewer.tsx:56-68 | a short enough string is unchanged; a longer one is a prefix of ⌊(m−3)/2⌋ characters, "...", and the matching suffix, of length exactly m when m ≥ 3, and just "..." when m < 3 |
| DiffViewer.TrailingNewlines | src/components/DiffViewer/DiffViewer.tsx:70-84 | the count covers exactly the final run of "\n": those characters are breaks and the one before is not |
| DiffViewer.TurnTrailingLineBreakIntoBR | src/components/DiffViewer/DiffViewer.tsx:70-84 | the backward loop emits one break per trailing "\n" |
| DiffViewer.TrailingNewlinesAppend | src/components/DiffViewer/DiffViewer.tsx:70-84 | no break when the string does not end in "\n"; each appended "\n" adds one |
| DiffViewer.ChunkDisplay | src/components/DiffViewer/DiffViewer.tsx:18-48 | a removed chunk is hidden exactly when the next chunk is an addition; otherwise it is bracketed and truncated to 152 characters when at least 150 long; the lines shown join back into the chunk |
| DiffViewer.KeptChunksShowLines | src/components/DiffViewer/DiffViewer.tsx:18-48 | unchanged and added chunks show all their lines, one per "\n" plus one |
| Workspace.Initial | src/components/ProjectWorkspace/ProjectWorkspace.tsx:27 | the list starts with the single initial content |
| Workspace.CreateVariation | src/components/ProjectWorkspace/ProjectWorkspace.tsx:38-46 | at four entries the list is unchanged; below, one copy of the current entry is appended and earlier entries stay |
| Workspace.UpdateVariation | src/components/ProjectWorkspace/ProjectWorkspace.tsx:128-133 | editor i's update replaces entry i and nothing else |
| Workspace.RunBounded | src/components/ProjectWorkspace/ProjectWorkspace.tsx:38-46 | whatever the sequence of creations and edits, the list keeps between one and four entries |
| Workspace.RunLength | src/components/ProjectWorkspace/ProjectWorkspace.tsx:38-46 | the list never shrinks and grows by at most one per action |

## Left out

- React wiring is not modelled. This covers contexts, hooks, providers, window listeners, hotkey binding, the `inputMode` toggle, the `hasSelectionRangeChanged` flag, the body-cursor style effect and edit-mode entry. Only the updater bodies are modelled.
- Each `Step` applies one command to the latest state. React's batching of state updates is not modelled.
- Drag and drop of sentences is not modelled: pointer tracking and the floating-point nearest-target search. The rendering blocks, the page and the JSX of the workspace and diff viewer are left out too. All of this is DOM and float work.
- The diff itself comes from an external library. `DiffViewer.ChunkDisplay` takes its chunk list as input.
- Several names are imported but defined outside the modelled modules, so they are not part of this model:
  - `convertDocumentToString`
  - `getTextFromRange`
  - `updateWord` / `getWord`
  - `rawText`
  - `moveSentence` / `copySentence`
  - the content constant the workspace starts from (`Workspace.Initial` takes it as a parameter)

  As a result there is no text-to-selection-offset conversion.
- The `Variable` token alternative is left out. The parser never produces it, so tokens are strings.
- Word geometry is abstract. Pixel offsets are integers, and how a word measures its line and offset is outside the model.
- WordRegistry.SearchClosestWordInLine: the line table keeps words in insertion order. `Object.values` would list non-negative integer keys in ascending order first. With the fractional pixel values that occur in practice, insertion order is what happens. The order only matters for which of two equally near words is found.
- DiffViewer.TruncateString: string lengths count characters. JavaScript counts UTF-16 code units, so the two differ for text outside the Basic Multilingual Plane.
- Out-of-range indexing, which throws a TypeError in JavaScript, is excluded by preconditions. Navigation takes a well-formed document and in-bounds positions. `CommandFits` requires the positions handed to selectFrom, selectTo and setPosition to carry a sentence, as the blocks build them with `createPosition` at the WORD or SENTENCE selection level.
- Arithmetic on a missing field, which gives NaN in JavaScript, happens only for positions without a sentence. The preconditions exclude those where the code would do it.
- CursorMachine.StepPreservesValidState holds only for documents whose last paragraph is not blank, and for a registry that reports only words of the document (`VisualSound`). Every text ending in a line break, the editor's own content included, has a blank last paragraph (`DocumentModel.TrailingNewlineBlank`). There Tab and the other forward sentence moves can leave the document, as `CursorMachine.TabOverrun` shows; see Findings.
- CursorMachine.MoveSelectionAnchored, CursorMachine.ExpandAnchored and CursorMachine.MoveBySentenceAnchored likewise hold only when the last paragraph is not blank.
- SentenceNav.MoveSentenceClamp states the clamped ordinal only when no paragraph is skipped. With skipping, `SentenceNav.MoveSentenceInBounds` states bounds and direction, and for a single step `SentenceNav.SentenceStepLanding` states the landing place.
- Selection.MoveSelectionSentenceMoves and Selection.MoveSelectionKeepsWidth state exact ordinals only when no paragraph is skipped, for the same reason. A multi-step move with skipping is described by its bounds and direction.
- TabMovesOneSentence and ShiftVerticalGrowsBySentence (in `CursorMachine`) state the landing ordinal only when no paragraph is blank. With blank paragraphs they state the landing place as one sentence step, which `SentenceNav.SentenceStepLanding` describes.
- SentenceNav.GetPrevSentencePosition states its null case one way only: null implies that every earlier sentence was skipped, but not the other way round, because the sentences of paragraph 0 are returned without the emptiness check.
- WordNav.GetNextWordPosition states "a new sentence starts at word 0" only for paragraphs that are not hollow. For a hollow paragraph the stepper searches on from inside it.
- CursorMachine.MetaShiftVerticalRange, CursorMachine.AltVerticalRange, CursorMachine.AltShiftVerticalRange, CursorMachine.AltShiftHorizontalRange and CursorMachine.AltHorizontalRange state the shape of the new selection (sentence or word level, collapsed or from-only, inside the document) and not which sentence or word it lands on. The landing place is whatever the navigation functions they call return, and those carry their own contracts.
- CursorMachine.ArrowVerticalRange takes the registry lookups as functions (`Visual`). It is not tied to a `WordRegistry.Registry` value, because a missing line makes the registry search throw, while the hotkey handler is written as if it only returned nothing.
- Workspace.UpdateVariation: `onPromptTextUpdate` assigns into the existing array and returns that same array. The model returns a new list with the entry replaced; the consequence that React may skip a re-render is not modelled.
- The two `console.log` calls in `turnTrailingLineBreakIntoBR` (DiffViewer.tsx lines 73 and 81) are console output with no effect on the result, and are not modelled.

## Findings

| source | as written | input that shows it | evidently intended | confidence | as-written member | corrected member |
|---|---|---|---|---|---|---|
| src/components/PromptTextEditor/CursorStateProvider.tsx:459-469 | a forward step from a paragraph's last sentence, with blank paragraphs ignored and every later paragraph blank, moves to the last paragraph without resetting the sentence index | "A. B\n" (the editor's own content also ends in "\n"), from (0,1), one step: the result is (1,1), but paragraph 1 has one sentence; Tab on that sentence range does the same (`CursorMachine.TabOverrun`) | stay on the last sentence that can be reached | not executed | SentenceNav.TrailingBlankParagraphOverrun | SentenceNav.MoveSentencePositionFixed |
