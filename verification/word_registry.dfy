/** The visual word registry: every rendered word reports its line and horizontal offset; the
    vertical arrow keys look up the word drawn closest above or below. Pixel values are plain
    integers here. */
module WordRegistry {
  import opened Options
  import opened TextSplit
  import opened Positions

  /** Where a word is drawn: its line and horizontal pixel offset. */
  datatype VisualPos = VisualPos(line: int, pixelLeft: int)

  datatype WordInfo = WordInfo(line: int, position: WordPos, pixelLeft: int, text: string)

  /** `lines` holds the entries of the line array that exist, each line's words in insertion order
      (at most one per `pixelLeft`); `lineCount` is the array's `length`; `index` maps a word
      position's hash to where it is drawn. */
  datatype Registry = Registry(lines: map<int, seq<WordInfo>>, lineCount: nat, index: map<string, VisualPos>)

  /** The registry right after the document changes. */
  const Empty: Registry := Registry(map[], 0, map[])

  /** The distance `searchClosestWordInLine` starts from: words at least this far away are never found. */
  const CLOSEST_START: nat := 100000000

  function DigitChar(d: nat): (c: char)
    requires d < 10
    ensures '0' <= c <= '9' && (c as int) - ('0' as int) == d
  {
    (('0' as int) + d) as char
  }

  predicate AllDigits(s: string) {
    forall i :: 0 <= i < |s| ==> '0' <= s[i] <= '9'
  }

  /** Decimal rendering of a natural number, as a template literal prints it. */
  function NatToString(n: nat): (s: string)
    ensures |s| >= 1 && AllDigits(s)
    decreases n
  {
    if n < 10 then [DigitChar(n)] else NatToString(n / 10) + [DigitChar(n % 10)]
  }

  function ParseNat(s: string): nat
    requires AllDigits(s)
  {
    if |s| == 0 then 0 else 10 * ParseNat(s[..|s| - 1]) + ((s[|s| - 1] as int) - ('0' as int))
  }

  lemma {:induction false} ParseNatToString(n: nat)
    ensures ParseNat(NatToString(n)) == n
    decreases n
  {
    if n >= 10 {
      var s := NatToString(n);
      assert s[..|s| - 1] == NatToString(n / 10);
      ParseNatToString(n / 10);
    }
  }

  function IntToString(i: int): string {
    if i < 0 then "-" + NatToString(-i) else NatToString(i)
  }

  /** `getWordPositionHash`: `paragraph-sentence-word`. */
  function PositionHash(p: WordPos): (r: string)
    ensures |r| >= 5 && '-' in r
  {
    IntToString(p.paragraph) + "-" + IntToString(p.sentence) + "-" + IntToString(p.word)
  }

  predicate NonNegative(p: WordPos) {
    p.paragraph >= 0 && p.sentence >= 0 && p.word >= 0
  }

  lemma HashPieces(p: WordPos)
    requires NonNegative(p)
    ensures Split(PositionHash(p), '-') == [NatToString(p.paragraph), NatToString(p.sentence), NatToString(p.word)]
  {
    var a, b, c := NatToString(p.paragraph), NatToString(p.sentence), NatToString(p.word);
    assert '-' !in a && '-' !in b && '-' !in c;
    assert PositionHash(p) == a + ['-'] + (b + ['-'] + c);
    SplitAtFirst(a, '-', b + ['-'] + c);
    SplitAtFirst(b, '-', c);
    SplitNoSeparator(c, '-');
  }

  /** Two positions inside a document share a hash exactly when they are equal. */
  lemma PositionHashInjective(p: WordPos, q: WordPos)
    requires NonNegative(p) && NonNegative(q)
    ensures PositionHash(p) == PositionHash(q) <==> p == q
  {
    if PositionHash(p) == PositionHash(q) {
      HashPieces(p);
      HashPieces(q);
      ParseNatToString(p.paragraph);
      ParseNatToString(q.paragraph);
      ParseNatToString(p.sentence);
      ParseNatToString(q.sentence);
      ParseNatToString(p.word);
      ParseNatToString(q.word);
    }
  }

  /** Words of a line are keyed by their `pixelLeft`. */
  ghost predicate KeysDistinct(line: seq<WordInfo>) {
    forall i, j :: 0 <= i < j < |line| ==> line[i].pixelLeft != line[j].pixelLeft
  }

  ghost predicate Consistent(reg: Registry) {
    forall l :: l in reg.lines ==> KeysDistinct(reg.lines[l]) && (l >= 0 ==> l < reg.lineCount)
  }

  /** The index of the word stored under `pixelLeft`, if any. */
  function SlotOf(line: seq<WordInfo>, pixelLeft: int): (r: Option<nat>)
    ensures r.Some? ==> r.value < |line| && line[r.value].pixelLeft == pixelLeft
    ensures r.None? ==> forall i :: 0 <= i < |line| ==> line[i].pixelLeft != pixelLeft
  {
    if |line| == 0 then None
    else if line[|line| - 1].pixelLeft == pixelLeft then Some(|line| - 1)
    else SlotOf(line[..|line| - 1], pixelLeft)
  }

  /** Assigning `line[hash(w)] = w`: replace the word under the same key, or append a new key. */
  function Upsert(line: seq<WordInfo>, w: WordInfo): (r: seq<WordInfo>)
    requires KeysDistinct(line)
    ensures KeysDistinct(r)
    ensures w in r
    ensures forall u :: u in line && u.pixelLeft != w.pixelLeft ==> u in r
    ensures forall u :: u in r ==> u == w || (u in line && u.pixelLeft != w.pixelLeft)
  {
    var slot := SlotOf(line, w.pixelLeft);
    if slot.Some? then
      var r := line[slot.value := w];
      assert r[slot.value] == w;
      assert forall u :: u in line && u.pixelLeft != w.pixelLeft ==> u in r by {
        forall u | u in line && u.pixelLeft != w.pixelLeft ensures u in r {
          var k :| 0 <= k < |line| && line[k] == u;
          assert r[k] == u;
        }
      }
      assert forall u :: u in r ==> u == w || (u in line && u.pixelLeft != w.pixelLeft) by {
        forall u | u in r ensures u == w || (u in line && u.pixelLeft != w.pixelLeft) {
          var k :| 0 <= k < |r| && r[k] == u;
          if k != slot.value {
            assert line[k] == u;
          }
        }
      }
      r
    else line + [w]
  }

  function LineOf(reg: Registry, l: int): seq<WordInfo> {
    if l in reg.lines then reg.lines[l] else []
  }

  /** `registerWordInfo`. */
  function RegisterWordInfo(reg: Registry, w: WordInfo): (r: Registry)
    requires Consistent(reg)
    ensures Consistent(r)
    ensures w.line in r.lines && w in r.lines[w.line]
    ensures forall u :: u in LineOf(reg, w.line) && u.pixelLeft != w.pixelLeft ==> u in r.lines[w.line]
    ensures forall u :: u in r.lines[w.line] ==> u == w || (u in LineOf(reg, w.line) && u.pixelLeft != w.pixelLeft)
    ensures forall l :: l != w.line ==> (l in r.lines <==> l in reg.lines)
    ensures forall l :: l != w.line && l in reg.lines ==> r.lines[l] == reg.lines[l]
    ensures r.lineCount == (if w.line >= reg.lineCount then w.line + 1 else reg.lineCount)
  {
    var line := Upsert(LineOf(reg, w.line), w);
    var count := if w.line >= reg.lineCount then w.line + 1 else reg.lineCount;
    Registry(reg.lines[w.line := line], count, reg.index[PositionHash(w.position) := VisualPos(w.line, w.pixelLeft)])
  }

  /** `getWordVisualPositionInfo`. */
  function GetWordVisualPositionInfo(reg: Registry, p: WordPos): (r: Option<VisualPos>)
    ensures r.Some? <==> PositionHash(p) in reg.index
  {
    if PositionHash(p) in reg.index then Some(reg.index[PositionHash(p)]) else None
  }

  /** After registering a word, its position looks up to where it was drawn. */
  lemma RegisterThenLookup(reg: Registry, w: WordInfo)
    requires Consistent(reg)
    ensures GetWordVisualPositionInfo(RegisterWordInfo(reg, w), w.position) == Some(VisualPos(w.line, w.pixelLeft))
  {
  }

  /** Registering a word leaves the lookup of every other in-document position unchanged. */
  lemma RegisterFrame(reg: Registry, w: WordInfo, p: WordPos)
    requires Consistent(reg) && NonNegative(p) && NonNegative(w.position) && p != w.position
    ensures GetWordVisualPositionInfo(RegisterWordInfo(reg, w), p) == GetWordVisualPositionInfo(reg, p)
  {
    PositionHashInjective(p, w.position);
  }

  /** A later word drawn at the same place on the same line replaces the earlier one. */
  lemma SamePlaceReplaces(reg: Registry, w1: WordInfo, w2: WordInfo)
    requires Consistent(reg) && w1.line == w2.line && w1.pixelLeft == w2.pixelLeft && w1 != w2
    ensures var r := RegisterWordInfo(RegisterWordInfo(reg, w1), w2);
      w2 in r.lines[w2.line] && w1 !in r.lines[w2.line]
  {
  }

  function Dist(w: WordInfo, x: int): nat {
    if w.pixelLeft - x < 0 then x - w.pixelLeft else w.pixelLeft - x
  }

  /** `line[i]` is the nearest word to `x`, nearer than every word before it, and nearer than the
      starting distance. */
  ghost predicate FirstClosestAt(line: seq<WordInfo>, x: int, i: int) {
    && 0 <= i < |line|
    && Dist(line[i], x) < CLOSEST_START
    && (forall j :: 0 <= j < |line| ==> Dist(line[i], x) <= Dist(line[j], x))
    && (forall j :: 0 <= j < i ==> Dist(line[i], x) < Dist(line[j], x))
  }

  /** `w` is the word of `line` that the search settles on. */
  ghost predicate ClosestIn(line: seq<WordInfo>, x: int, w: WordInfo) {
    exists i :: FirstClosestAt(line, x, i) && line[i] == w
  }

  /** The strict comparison makes the answer unique: only one index is the first nearest word. */
  lemma FirstClosestUnique(line: seq<WordInfo>, x: int, i: int, j: int)
    requires FirstClosestAt(line, x, i) && FirstClosestAt(line, x, j)
    ensures i == j
  {
  }

  /** The loop of `searchClosestWordInLine`. */
  method ClosestInLine(line: seq<WordInfo>, x: int) returns (r: Option<WordInfo>)
    ensures r.None? <==> forall j :: 0 <= j < |line| ==> Dist(line[j], x) >= CLOSEST_START
    ensures r.Some? ==> ClosestIn(line, x, r.value)
  {
    var closest: Option<WordInfo> := None;
    var closestDist := CLOSEST_START;
    ghost var at := 0;
    for i := 0 to |line|
      invariant closestDist <= CLOSEST_START
      invariant forall j :: 0 <= j < i ==> closestDist <= Dist(line[j], x)
      invariant closest.None? ==> closestDist == CLOSEST_START
      invariant closest.Some? ==>
        && 0 <= at < i && line[at] == closest.value && closestDist == Dist(line[at], x) && closestDist < CLOSEST_START
        && (forall j :: 0 <= j < at ==> closestDist < Dist(line[j], x))
    {
      var d := Dist(line[i], x);
      if d < closestDist {
        closestDist := d;
        closest := Some(line[i]);
        at := i;
      }
    }
    if closest.Some? {
      assert FirstClosestAt(line, x, at);
    }
    r := closest;
  }

  /** `searchClosestWordInLine`. A line that was never created throws, because `Object.values`
      rejects `undefined`. */
  method SearchClosestWordInLine(reg: Registry, lineNumber: int, x: int) returns (r: Result<Option<WordInfo>>)
    ensures r.Failure? <==> lineNumber !in reg.lines
    ensures r.Success? && r.value.None? ==>
      forall j :: 0 <= j < |reg.lines[lineNumber]| ==> Dist(reg.lines[lineNumber][j], x) >= CLOSEST_START
    ensures r.Success? && r.value.Some? ==>
      ClosestIn(reg.lines[lineNumber], x, r.value.value)
  {
    if lineNumber !in reg.lines {
      return Failure("Cannot convert undefined or null to object");
    }
    var closest := ClosestInLine(reg.lines[lineNumber], x);
    r := Success(closest);
  }

  /** `getWordAbove`. */
  method GetWordAbove(reg: Registry, v: VisualPos) returns (r: Result<Option<WordInfo>>)
    ensures v.line < 1 ==> r == Success(None)
    ensures v.line >= 1 ==> (r.Failure? <==> v.line - 1 !in reg.lines)
    ensures r.Success? && r.value.Some? ==>
      ClosestIn(reg.lines[v.line - 1], v.pixelLeft, r.value.value)
  {
    if v.line - 1 < 0 {
      return Success(None);
    }
    r := SearchClosestWordInLine(reg, v.line - 1, v.pixelLeft);
  }

  /** `getWordBelow`. */
  method GetWordBelow(reg: Registry, v: VisualPos) returns (r: Result<Option<WordInfo>>)
    ensures v.line + 1 >= reg.lineCount ==> r == Success(None)
    ensures v.line + 1 < reg.lineCount ==> (r.Failure? <==> v.line + 1 !in reg.lines)
    ensures r.Success? && r.value.Some? ==>
      ClosestIn(reg.lines[v.line + 1], v.pixelLeft, r.value.value)
  {
    if v.line + 1 >= reg.lineCount {
      return Success(None);
    }
    r := SearchClosestWordInLine(reg, v.line + 1, v.pixelLeft);
  }
}
