/** String operations the uploader relies on: the ASCII part of JavaScript's
    `toUpperCase`/`toLowerCase`, `Array.prototype.join`, and, for reading a
    message back, the search for a delimiter and the split on it. */
module Text {
  import opened Wrappers

  function UpperChar(c: char): char {
    if 'a' <= c <= 'z' then (c as int - 32) as char else c
  }

  function LowerChar(c: char): char {
    if 'A' <= c <= 'Z' then (c as int + 32) as char else c
  }

  /** `s.toUpperCase()` restricted to ASCII letters. */
  function Upper(s: string): string {
    seq(|s|, i requires 0 <= i < |s| => UpperChar(s[i]))
  }

  /** `s.toLowerCase()` restricted to ASCII letters. */
  function Lower(s: string): string {
    seq(|s|, i requires 0 <= i < |s| => LowerChar(s[i]))
  }

  /** No character of an upper-cased string is a lower-case ASCII letter. */
  lemma UpperHasNoLowercase(s: string, i: int)
    requires 0 <= i < |s|
    ensures !('a' <= Upper(s)[i] <= 'z')
  {
  }

  /** Upper-casing is idempotent, so an already upper-cased type compares the same. */
  lemma UpperIdempotent(s: string)
    ensures Upper(Upper(s)) == Upper(s)
  {
  }

  /** `ps.join(sep)`: the pieces in order with `sep` between neighbours. */
  function Join(ps: seq<string>, sep: string): string
  {
    if |ps| == 0 then ""
    else if |ps| == 1 then ps[0]
    else ps[0] + sep + Join(ps[1..], sep)
  }

  /** `d` starts at position `i` of `s`. */
  predicate OccursAt(d: string, s: string, i: int)
  {
    0 <= i && i + |d| <= |s| && s[i..i + |d|] == d
  }

  /** `d` is a substring of `s`. */
  predicate Occurs(d: string, s: string)
  {
    exists i :: 0 <= i <= |s| && OccursAt(d, s, i)
  }

  /** A piece whose last character cannot start or continue `d`, so no occurrence
      of `d` can straddle the end of the piece. */
  predicate EndsOutside(p: string, d: string)
  {
    p == [] || p[|p| - 1] !in d
  }

  lemma OccursAtShift(d: string, s: string, i: int)
    requires |s| > 0 && i >= 0
    ensures OccursAt(d, s[1..], i) <==> OccursAt(d, s, i + 1)
  {
    if 0 <= i && i + |d| <= |s| - 1 {
      assert s[1..][i..i + |d|] == s[i + 1..i + 1 + |d|];
    }
  }

  /** The leftmost position of `d` in `s` (`s.indexOf(d)`), or None. */
  function IndexOf(s: string, d: string): (r: Option<nat>)
    requires |d| > 0
    ensures r.Some? ==> OccursAt(d, s, r.value)
    ensures r.Some? ==> forall j :: 0 <= j < r.value ==> !OccursAt(d, s, j)
    ensures r.None? <==> !Occurs(d, s)
    decreases |s|
  {
    if |s| < |d| then None
    else if s[..|d|] == d then Some(0)
    else
      var rest := IndexOf(s[1..], d);
      forall i | OccursAt(d, s, i) && i > 0
        ensures OccursAt(d, s[1..], i - 1)
      {
        OccursAtShift(d, s, i - 1);
      }
      match rest
      case None => None
      case Some(i) =>
        OccursAtShift(d, s, i);
        forall j | 0 < j < i + 1
          ensures !OccursAt(d, s, j)
        {
          OccursAtShift(d, s, j - 1);
        }
        Some(i + 1)
  }

  /** `s.split(d)`: the text between consecutive leftmost occurrences of `d`. */
  function Split(s: string, d: string): (r: seq<string>)
    requires |d| > 0
    ensures |r| > 0
    decreases |s|
  {
    match IndexOf(s, d)
    case None => [s]
    case Some(i) => [s[..i]] + Split(s[i + |d|..], d)
  }

  /** When `p` does not contain `d` and ends outside it, the first `d` in
      `p + d + rest` is the one right after `p`. */
  lemma IndexOfAfterPiece(p: string, d: string, rest: string)
    requires |d| > 0 && !Occurs(d, p) && EndsOutside(p, d)
    ensures IndexOf(p + d + rest, d) == Some(|p|)
  {
    var s := p + d + rest;
    assert s[|p|..|p| + |d|] == d;
    assert OccursAt(d, s, |p|);
    forall j | 0 <= j < |p|
      ensures !OccursAt(d, s, j)
    {
      if j + |d| <= |p| {
        assert s[j..j + |d|] == p[j..j + |d|];
        assert !OccursAt(d, p, j);
      }
    }
  }

  /** Splitting a join gives the pieces back, provided the delimiter appears in
      no piece and no occurrence can straddle a piece's end. */
  lemma {:induction false} SplitJoin(ps: seq<string>, d: string)
    requires |d| > 0 && |ps| > 0
    requires forall k :: 0 <= k < |ps| ==> !Occurs(d, ps[k])
    requires forall k :: 0 <= k < |ps| - 1 ==> EndsOutside(ps[k], d)
    ensures Split(Join(ps, d), d) == ps
    decreases |ps|
  {
    if |ps| == 1 {
      assert IndexOf(ps[0], d) == None;
    } else {
      var rest := Join(ps[1..], d);
      assert Join(ps, d) == ps[0] + d + rest;
      IndexOfAfterPiece(ps[0], d, rest);
      SplitAfterPiece(ps[0], d, rest);
      SplitJoin(ps[1..], d);
      assert [ps[0]] + ps[1..] == ps;
    }
  }

  lemma SplitAfterPiece(p: string, d: string, rest: string)
    requires |d| > 0 && IndexOf(p + d + rest, d) == Some(|p|)
    ensures Split(p + d + rest, d) == [p] + Split(rest, d)
  {
    var s := p + d + rest;
    assert s[..|p|] == p;
    assert s[|p| + |d|..] == rest;
  }

  /** A string without the character `c` neither contains nor ends inside `[c]`. */
  lemma AbsentChar(c: char, p: string)
    requires c !in p
    ensures !Occurs([c], p) && EndsOutside(p, [c])
  {
    forall i | 0 <= i <= |p|
      ensures !OccursAt([c], p, i)
    {
      if i + 1 <= |p| {
        assert p[i..i + 1][0] == p[i];
      }
    }
  }

  /** Every piece with `pre` in front. */
  function Prefixed(pre: string, ps: seq<string>): seq<string>
  {
    seq(|ps|, k requires 0 <= k < |ps| => pre + ps[k])
  }

  /** Joining with `d + pre` and putting `pre` in front is joining with `d`
      pieces that each start with `pre`. */
  lemma {:induction false} JoinPrefixed(ps: seq<string>, d: string, pre: string)
    requires |ps| > 0
    ensures pre + Join(ps, d + pre) == Join(Prefixed(pre, ps), d)
    decreases |ps|
  {
    if |ps| > 1 {
      JoinPrefixed(ps[1..], d, pre);
      assert Prefixed(pre, ps)[1..] == Prefixed(pre, ps[1..]);
      var rest := Join(ps[1..], d + pre);
      assert pre + (ps[0] + (d + pre) + rest) == (pre + ps[0]) + d + (pre + rest);
    }
  }

  /** Joining one more piece at the end adds a separator and that piece. */
  lemma {:induction false} JoinSnoc(ps: seq<string>, t: string, d: string)
    requires |ps| > 0
    ensures Join(ps + [t], d) == Join(ps, d) + d + t
    decreases |ps|
  {
    if |ps| == 1 {
      assert (ps + [t])[1..] == [t];
    } else {
      assert (ps + [t])[1..] == ps[1..] + [t];
      JoinSnoc(ps[1..], t, d);
    }
  }

  /** Joining an empty first piece, some frames and a last piece. */
  lemma JoinBetween(frames: seq<string>, d: string, last: string)
    requires |frames| > 0
    ensures Join([""] + frames + [last], d) == d + Join(frames, d) + d + last
  {
    var front := [""] + frames;
    JoinSnoc(front, last, d);
    assert front[0] == "" && front[1..] == frames;
    assert Join(front, d) == "" + d + Join(frames, d);
  }

  /** A multipart body laid out as a join: `d + eol` first, the pieces joined
      by `d + eol`, then `d + "--" + eol`, is the empty preamble, the pieces
      each preceded by `eol` (or a lone `eol` when there are none) and the
      closing `"--" + eol`, joined by `d`. */
  lemma FramingAsJoin(ps: seq<string>, d: string, eol: string)
    ensures d + eol + Join(ps, d + eol) + (d + "--" + eol)
         == Join([""] + (if ps == [] then [eol] else Prefixed(eol, ps)) + ["--" + eol], d)
  {
    var frames := if ps == [] then [eol] else Prefixed(eol, ps);
    var j := Join(ps, d + eol);
    JoinBetween(frames, d, "--" + eol);
    if ps != [] {
      JoinPrefixed(ps, d, eol);
    }
    assert Join(frames, d) == eol + j;
    Regroup(d, eol, j, "--");
  }

  lemma Regroup(d: string, eol: string, j: string, dashes: string)
    ensures d + eol + j + (d + dashes + eol) == d + (eol + j) + d + (dashes + eol)
  {
  }
}
