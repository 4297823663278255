/** JavaScript's `String.prototype.split` with a one-character separator, and its inverse `join`. */
module TextSplit {

  /** `s.split(c)`: the pieces between occurrences of `c`; the empty string gives `[""]`. */
  function Split(s: string, c: char): (pieces: seq<string>)
    ensures |pieces| >= 1
    decreases |s|
  {
    if |s| == 0 then [""]
    else if s[0] == c then [""] + Split(s[1..], c)
    else
      var rest := Split(s[1..], c);
      [[s[0]] + rest[0]] + rest[1..]
  }

  /** `pieces.join(c)`. */
  function Join(pieces: seq<string>, c: char): string
    requires |pieces| >= 1
    decreases |pieces|
  {
    if |pieces| == 1 then pieces[0] else pieces[0] + [c] + Join(pieces[1..], c)
  }

  /** Number of occurrences of `c` in `s`. */
  function Count(s: string, c: char): nat
    decreases |s|
  {
    if |s| == 0 then 0 else (if s[0] == c then 1 else 0) + Count(s[1..], c)
  }

  /** Splitting then joining with the same separator gives back the text. */
  lemma {:induction false} JoinSplit(s: string, c: char)
    ensures Join(Split(s, c), c) == s
    decreases |s|
  {
    if |s| == 0 {
    } else if s[0] == c {
      var rest := Split(s[1..], c);
      JoinSplit(s[1..], c);
      assert Split(s, c) == [""] + rest;
      assert ([""] + rest)[1..] == rest;
      assert Join(Split(s, c), c) == "" + [c] + Join(rest, c);
      assert s == [c] + s[1..];
    } else {
      var rest := Split(s[1..], c);
      JoinSplit(s[1..], c);
      var pieces := [[s[0]] + rest[0]] + rest[1..];
      assert Split(s, c) == pieces;
      if |rest| == 1 {
        assert Join(pieces, c) == [s[0]] + rest[0];
        assert s == [s[0]] + s[1..];
      } else {
        assert pieces[1..] == rest[1..];
        assert Join(rest, c) == rest[0] + [c] + Join(rest[1..], c);
        assert Join(pieces, c) == [s[0]] + rest[0] + [c] + Join(rest[1..], c);
        assert s == [s[0]] + s[1..];
      }
    }
  }

  /** One piece per separator, plus one. */
  lemma {:induction false} SplitCount(s: string, c: char)
    ensures |Split(s, c)| == Count(s, c) + 1
    decreases |s|
  {
    if |s| > 0 {
      SplitCount(s[1..], c);
    }
  }

  /** No piece contains the separator, and every character of a piece comes from `s`. */
  lemma {:induction false} SplitPieces(s: string, c: char)
    ensures forall i :: 0 <= i < |Split(s, c)| ==> c !in Split(s, c)[i]
    ensures forall i, ch :: 0 <= i < |Split(s, c)| && ch in Split(s, c)[i] ==> ch in s
    decreases |s|
  {
    if |s| > 0 {
      SplitPieces(s[1..], c);
      var rest := Split(s[1..], c);
      if s[0] == c {
        assert Split(s, c) == [""] + rest;
        forall i, ch | 0 <= i < |Split(s, c)| && ch in Split(s, c)[i]
          ensures ch in s
        {
          assert i > 0 && Split(s, c)[i] == rest[i - 1];
          assert ch in s[1..];
        }
      } else {
        var pieces := [[s[0]] + rest[0]] + rest[1..];
        assert Split(s, c) == pieces;
        forall i | 0 <= i < |pieces|
          ensures c !in pieces[i]
        {
          if i == 0 {
            assert c !in rest[0];
          } else {
            assert pieces[i] == rest[i];
          }
        }
        forall i, ch | 0 <= i < |pieces| && ch in pieces[i]
          ensures ch in s
        {
          if i == 0 {
            if ch != s[0] {
              assert ch in rest[0];
              assert ch in s[1..];
            }
          } else {
            assert pieces[i] == rest[i];
            assert ch in s[1..];
          }
        }
      }
    }
  }

  /** The first piece is empty exactly when the text is empty or starts with the separator. */
  lemma SplitFirstPiece(s: string, c: char)
    ensures Split(s, c)[0] == "" <==> (|s| == 0 || s[0] == c)
  {
  }

  /** Text without the separator is a single piece. */
  lemma {:induction false} SplitNoSeparator(s: string, c: char)
    requires c !in s
    ensures Split(s, c) == [s]
    decreases |s|
  {
    if |s| > 0 {
      SplitNoSeparator(s[1..], c);
      assert [s[0]] + s[1..] == s;
    }
  }

  /** Splitting at the first separator: the text before it is the first piece. */
  lemma {:induction false} SplitAtFirst(a: string, c: char, b: string)
    requires c !in a
    ensures Split(a + [c] + b, c) == [a] + Split(b, c)
    decreases |a|
  {
    if |a| == 0 {
      assert a + [c] + b == [c] + b;
      assert ([c] + b)[1..] == b;
    } else {
      SplitAtFirst(a[1..], c, b);
      assert (a + [c] + b)[1..] == a[1..] + [c] + b;
      assert [a[0]] + a[1..] == a;
    }
  }

  /** Joining separator-free pieces and splitting again gives the pieces back. */
  lemma {:induction false} SplitJoin(pieces: seq<string>, c: char)
    requires |pieces| >= 1
    requires forall i :: 0 <= i < |pieces| ==> c !in pieces[i]
    ensures Split(Join(pieces, c), c) == pieces
    decreases |pieces|
  {
    if |pieces| == 1 {
      SplitNoSeparator(pieces[0], c);
    } else {
      SplitJoin(pieces[1..], c);
      SplitAtFirst(pieces[0], c, Join(pieces[1..], c));
      assert [pieces[0]] + pieces[1..] == pieces;
    }
  }

  /** A trailing separator adds one empty piece at the end. */
  lemma {:induction false} SplitTrailing(s: string, c: char)
    ensures Split(s + [c], c) == Split(s, c) + [""]
    decreases |s|
  {
    if |s| == 0 {
      assert s + [c] == [c];
      assert Split([c], c) == [""] + Split([c][1..], c);
      assert [c][1..] == "";
    } else {
      SplitTrailing(s[1..], c);
      assert (s + [c])[1..] == s[1..] + [c];
      assert (s + [c])[0] == s[0];
    }
  }
}
