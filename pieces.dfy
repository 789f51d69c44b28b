/** The pieces of a string separated by a delimiter: the part before the
    first delimiter, the parts between consecutive delimiters and the part
    after the last one, empty parts included. Both tokenizers of the server
    are specified in terms of these pieces. */
module Delimited {

  /** The position of the last `d` in `s`. */
  function LastIndex(s: seq<char>, d: char): (k: nat)
    requires d in s
    ensures k < |s| && s[k] == d && d !in s[k + 1..]
  {
    if s[|s| - 1] == d then |s| - 1
    else
      assert s == s[..|s| - 1] + [s[|s| - 1]];
      var k := LastIndex(s[..|s| - 1], d);
      assert s[k + 1..] == s[..|s| - 1][k + 1..] + [s[|s| - 1]];
      k
  }

  lemma LastIndexUnique(s: seq<char>, d: char, k: nat)
    requires k < |s| && s[k] == d && d !in s[k + 1..]
    ensures LastIndex(s, d) == k
  {
  }

  /** The `d`-separated pieces of `s`, in order. */
  function Pieces(s: seq<char>, d: char): (ps: seq<seq<char>>)
    ensures |ps| >= 1
    decreases |s|
  {
    if d !in s then [s]
    else
      var k := LastIndex(s, d);
      Pieces(s[..k], d) + [s[k + 1..]]
  }

  /** The pieces put back together, a `d` between neighbours. */
  function Join(ps: seq<seq<char>>, d: char): seq<char>
    requires |ps| >= 1
  {
    if |ps| == 1 then ps[0] else Join(ps[..|ps| - 1], d) + [d] + ps[|ps| - 1]
  }

  /** Joining the pieces gives the string back. */
  lemma {:induction false} JoinPieces(s: seq<char>, d: char)
    ensures Join(Pieces(s, d), d) == s
    decreases |s|
  {
    if d in s {
      var k := LastIndex(s, d);
      var ps := Pieces(s, d);
      assert ps[..|ps| - 1] == Pieces(s[..k], d);
      JoinPieces(s[..k], d);
      assert s == s[..k] + [d] + s[k + 1..];
    }
  }

  /** No piece contains the delimiter. */
  lemma {:induction false} PiecesFree(s: seq<char>, d: char)
    ensures forall p :: p in Pieces(s, d) ==> d !in p
    decreases |s|
  {
    if d in s {
      var k := LastIndex(s, d);
      PiecesFree(s[..k], d);
    }
  }

  /** Text after a last delimiter becomes the last piece. */
  lemma PiecesAppend(x: seq<char>, y: seq<char>, d: char)
    requires d !in y
    ensures Pieces(x + [d] + y, d) == Pieces(x, d) + [y]
  {
    var s := x + [d] + y;
    assert s[|x| + 1..] == y;
    LastIndexUnique(s, d, |x|);
    assert s[..|x|] == x;
  }

  /** Pieces of two strings joined by a delimiter. */
  lemma {:induction false} PiecesConcat(x: seq<char>, y: seq<char>, d: char)
    ensures Pieces(x + [d] + y, d) == Pieces(x, d) + Pieces(y, d)
    decreases |y|
  {
    if d !in y {
      PiecesAppend(x, y, d);
    } else {
      var k := LastIndex(y, d);
      var y1, y2 := y[..k], y[k + 1..];
      assert y == y1 + [d] + y2;
      assert x + [d] + y == (x + [d] + y1) + [d] + y2;
      PiecesAppend(x + [d] + y1, y2, d);
      PiecesConcat(x, y1, d);
    }
  }

  /** A string without the delimiter is a single piece. */
  lemma PiecesSingle(s: seq<char>, d: char)
    requires d !in s
    ensures Pieces(s, d) == [s]
  {
  }

  /** The pieces are the only delimiter-free sequence whose join is the string. */
  lemma {:induction false} PiecesUnique(ps: seq<seq<char>>, d: char)
    requires |ps| >= 1
    requires forall i :: 0 <= i < |ps| ==> d !in ps[i]
    ensures Pieces(Join(ps, d), d) == ps
    decreases |ps|
  {
    if |ps| > 1 {
      var init, last := ps[..|ps| - 1], ps[|ps| - 1];
      assert Pieces(Join(init, d), d) == init by {
        assert forall i :: 0 <= i < |init| ==> init[i] == ps[i];
        PiecesUnique(init, d);
      }
      assert Pieces(Join(ps, d), d) == Pieces(Join(init, d), d) + [last] by {
        assert Join(ps, d) == Join(init, d) + [d] + last;
        PiecesAppend(Join(init, d), last, d);
      }
      assert ps == init + [last];
    } else {
      PiecesSingle(ps[0], d);
      assert ps == [ps[0]];
    }
  }
}
