/** `String.prototype.split` and `Array.prototype.join` with a one-character separator. */
module Strings {
  import opened Wrappers

  /**
   * `s.split(c)`: the maximal pieces of `s` between occurrences of `c`.
   * Like JavaScript, it always yields at least one piece (`"".split(c)` is `[""]`).
   */
  function Split(s: string, c: char): (r: seq<string>)
    ensures |r| >= 1
    ensures forall i :: 0 <= i < |r| ==> c !in r[i]
    decreases |s|
  {
    if |s| == 0 then [""]
    else
      var t := Split(s[1..], c);
      if s[0] == c then [""] + t else [[s[0]] + t[0]] + t[1..]
  }

  /** `xs.join(c)` */
  function Join(xs: seq<string>, c: char): string
    decreases |xs|
  {
    if |xs| == 0 then "" else if |xs| == 1 then xs[0] else xs[0] + [c] + Join(xs[1..], c)
  }

  /** Joining the pieces with the separator gives back the original string. */
  lemma {:induction false} JoinSplit(s: string, c: char)
    ensures Join(Split(s, c), c) == s
    decreases |s|
  {
    if |s| > 0 {
      JoinSplit(s[1..], c);
      var t := Split(s[1..], c);
      if s[0] == c {
        assert Join([""] + t, c) == "" + [c] + Join(t, c) by {
          assert ([""] + t)[1..] == t;
        }
      } else {
        var r := [[s[0]] + t[0]] + t[1..];
        if |t| == 1 {
          assert Join(r, c) == [s[0]] + t[0];
        } else {
          assert r[1..] == t[1..];
          assert Join(t, c) == t[0] + [c] + Join(t[1..], c);
        }
      }
    }
  }

  lemma {:induction false} SplitWithoutSeparator(s: string, c: char)
    requires c !in s
    ensures Split(s, c) == [s]
    decreases |s|
  {
    if |s| > 0 {
      SplitWithoutSeparator(s[1..], c);
      assert [s[0]] + s[1..] == s;
    }
  }

  lemma {:induction false} SplitAtSeparator(x: string, y: string, c: char)
    requires c !in x
    ensures Split(x + [c] + y, c) == [x] + Split(y, c)
    decreases |x|
  {
    if |x| == 0 {
      assert (x + [c] + y)[1..] == y;
    } else {
      var s := x + [c] + y;
      assert s[1..] == x[1..] + [c] + y;
      SplitAtSeparator(x[1..], y, c);
      assert [x[0]] + x[1..] == x;
    }
  }

  /** Splitting a joined list gives it back, provided no piece contains the separator. */
  lemma {:induction false} SplitJoin(xs: seq<string>, c: char)
    requires |xs| >= 1
    requires forall i :: 0 <= i < |xs| ==> c !in xs[i]
    ensures Split(Join(xs, c), c) == xs
    decreases |xs|
  {
    if |xs| == 1 {
      SplitWithoutSeparator(xs[0], c);
    } else {
      SplitJoin(xs[1..], c);
      SplitAtSeparator(xs[0], Join(xs[1..], c), c);
    }
  }

  /** `s.split(c)[1]`: the second piece, `undefined` when `s` has no separator. */
  function SecondSegment(s: string, c: char): Option<string> {
    var pieces := Split(s, c);
    if |pieces| > 1 then Some(pieces[1]) else None
  }

  /**
   * The second piece is present exactly when `s` contains the separator, and then it is
   * the text between the first separator and the next one (or the end of `s`).
   */
  lemma {:induction false} SecondSegmentSpec(s: string, c: char)
    ensures SecondSegment(s, c).Some? <==> c in s
    ensures SecondSegment(s, c).Some? ==>
      var i := FirstSeparator(s, c);
      var t := SecondSegment(s, c).value;
      c !in s[..i] && i + 1 + |t| <= |s| && s[i + 1..i + 1 + |t|] == t && c !in t &&
      (i + 1 + |t| == |s| || s[i + 1 + |t|] == c)
  {
    if c in s {
      var i := FirstSeparator(s, c);
      var rest := s[i + 1..];
      assert s == s[..i] + [c] + rest;
      SplitAtSeparator(s[..i], rest, c);
      var t := Split(rest, c)[0];
      assert SecondSegment(s, c) == Some(t);
      HeadPiece(rest, c);
    } else {
      SplitWithoutSeparator(s, c);
    }
  }

  /** Index of the first `c` in `s`; `|s|` when there is none. */
  function FirstSeparator(s: string, c: char): (i: nat)
    ensures i <= |s| && c !in s[..i]
    ensures i < |s| ==> s[i] == c
    decreases |s|
  {
    if |s| == 0 then 0
    else if s[0] == c then 0
    else
      var j := FirstSeparator(s[1..], c);
      assert s[..j + 1] == [s[0]] + s[1..][..j];
      j + 1
  }

  /** The first piece is the longest separator-free prefix. */
  lemma {:induction false} HeadPiece(s: string, c: char)
    ensures var h := Split(s, c)[0];
      |h| <= |s| && s[..|h|] == h && (|h| == |s| || s[|h|] == c)
    decreases |s|
  {
    if |s| > 0 {
      HeadPiece(s[1..], c);
    }
  }
}
