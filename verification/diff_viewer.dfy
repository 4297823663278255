/** The pure parts of the diff viewer: how a chunk of a word diff is displayed, the middle truncation
    of long removed chunks and the count of trailing line breaks. The diff itself is an input. */
module DiffViewer {
  import opened TextSplit

  /** One chunk of the diff library's output. */
  datatype Chunk = Chunk(value: string, added: bool, removed: bool)

  /** What a chunk renders as: nothing; a bracketed truncated text followed by `breaks` line breaks;
      or the chunk's lines separated by line breaks. */
  datatype Display =
    | Hidden
    | Bracketed(text: string, breaks: nat)
    | Lines(pieces: seq<string>)

  const MAX_DELETED_LENGTH: int := 150

  function Clip(x: int, lo: int, hi: int): int
    requires lo <= hi
  {
    if x < lo then lo else if x > hi then hi else x
  }

  /** `String.prototype.substring`: both ends are clipped to the string and swapped if reversed. */
  function Substring(s: string, start: int, end: int): (r: string)
    ensures |r| <= |s|
  {
    var a := Clip(start, 0, |s|);
    var b := Clip(end, 0, |s|);
    if a <= b then s[a..b] else s[b..a]
  }

  /** `truncateString`: a string longer than the limit keeps a prefix and a suffix around `...`. */
  function TruncateString(s: string, maxLength: int): (r: string)
    ensures |s| <= maxLength ==> r == s
    ensures |s| > maxLength && maxLength >= 3 ==>
      |r| == maxLength
      && r[..(maxLength - 3) / 2] == s[..(maxLength - 3) / 2]
      && r[(maxLength - 3) / 2..(maxLength - 3) / 2 + 3] == "..."
      && r[(maxLength - 3) / 2 + 3..] == s[|s| - (maxLength - 3 - (maxLength - 3) / 2)..]
    ensures |s| > maxLength && maxLength < 3 ==> r == "..."
  {
    if |s| <= maxLength then s
    else
      var prefixLength := (maxLength - 3) / 2;
      var suffixLength := maxLength - prefixLength - 3;
      Substring(s, 0, prefixLength) + "..." + Substring(s, |s| - suffixLength, |s|)
  }

  /** The number of line breaks at the end of `s`. */
  function TrailingNewlines(s: string): (n: nat)
    ensures n <= |s|
    ensures forall k :: |s| - n <= k < |s| ==> s[k] == '\n'
    ensures n < |s| ==> s[|s| - 1 - n] != '\n'
    decreases |s|
  {
    if |s| == 0 || s[|s| - 1] != '\n' then 0 else TrailingNewlines(s[..|s| - 1]) + 1
  }

  /** `turnTrailingLineBreakIntoBR`: one break per trailing `"\n"`, counted by the backward loop. */
  method TurnTrailingLineBreakIntoBR(s: string) returns (breaks: nat)
    ensures breaks == TrailingNewlines(s)
  {
    breaks := 0;
    var i := |s| - 1;
    while i >= 0
      invariant -1 <= i < |s| && breaks == |s| - 1 - i
      invariant forall k :: i < k < |s| ==> s[k] == '\n'
      decreases i
    {
      if s[i] == '\n' {
        breaks := breaks + 1;
        i := i - 1;
        continue;
      }
      break;
    }
    TrailingNewlinesUnique(s, breaks);
  }

  /** The trailing-break count is the only `n` whose last `n` characters are breaks and that is
      preceded by a non-break or the start of the string. */
  lemma TrailingNewlinesUnique(s: string, n: nat)
    requires n <= |s|
    requires forall k :: |s| - n <= k < |s| ==> s[k] == '\n'
    requires n < |s| ==> s[|s| - 1 - n] != '\n'
    ensures TrailingNewlines(s) == n
  {
  }

  /** A string without a final line break gets none; each extra final break adds one. */
  lemma TrailingNewlinesAppend(s: string)
    ensures (|s| == 0 || s[|s| - 1] != '\n') <==> TrailingNewlines(s) == 0
    ensures TrailingNewlines(s + "\n") == TrailingNewlines(s) + 1
  {
    assert (s + "\n")[..|s + "\n"| - 1] == s;
  }

  /** The display decision for chunk `index` of the diff. */
  function ChunkDisplay(chunks: seq<Chunk>, index: int): (r: Display)
    requires 0 <= index < |chunks|
    ensures r.Hidden? <==>
      chunks[index].removed && index + 1 < |chunks| && chunks[index + 1].added
    ensures r.Bracketed? <==>
      && chunks[index].removed && !(index + 1 < |chunks| && chunks[index + 1].added)
      && |chunks[index].value| >= MAX_DELETED_LENGTH
    ensures r.Bracketed? ==> |r.text| == MAX_DELETED_LENGTH + 2 && r.breaks == TrailingNewlines(chunks[index].value)
    ensures r.Lines? ==> |r.pieces| >= 1 && Join(r.pieces, '\n') == chunks[index].value
  {
    var chunk := chunks[index];
    var isNextAdded := index != |chunks| - 1 && chunks[index + 1].added;
    var shouldShowDeleted := chunk.removed && !isNextAdded;
    JoinSplit(chunk.value, '\n');
    if shouldShowDeleted && |chunk.value| >= MAX_DELETED_LENGTH then
      Bracketed("[" + TruncateString(chunk.value, MAX_DELETED_LENGTH) + "]", TrailingNewlines(chunk.value))
    else if !chunk.removed || (shouldShowDeleted && |chunk.value| < MAX_DELETED_LENGTH) then
      Lines(Split(chunk.value, '\n'))
    else Hidden
  }

  /** Unchanged and added chunks always show their lines in full, one piece per line. */
  lemma KeptChunksShowLines(chunks: seq<Chunk>, index: int)
    requires 0 <= index < |chunks| && !chunks[index].removed
    ensures ChunkDisplay(chunks, index) == Lines(Split(chunks[index].value, '\n'))
    ensures |ChunkDisplay(chunks, index).pieces| == Count(chunks[index].value, '\n') + 1
  {
    SplitCount(chunks[index].value, '\n');
  }
}
