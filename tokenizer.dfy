/** The free functions `split_string` and `replace_all` of the std::string
    servers (QT_GETServer/server.cpp and AsynchronusGetServer/server.cpp hold
    the same `split_string`). */
module Tokenizer {
  import opened StdString
  import opened Delimited

  /** The test `split_string` applies before pushing a piece: its first
      character (the NUL terminator for an empty piece) is not NUL, and it
      is not a lone space. */
  predicate Kept(p: seq<char>)
  {
    At0(p) != '\0' && p != " "
  }

  /** The pieces that pass `Kept`, in their original order. */
  function Keep(ps: seq<seq<char>>): (r: seq<seq<char>>)
    ensures |r| <= |ps|
  {
    if ps == [] then []
    else
      Keep(ps[..|ps| - 1]) + if Kept(ps[|ps| - 1]) then [ps[|ps| - 1]] else []
  }

  /** What `Keep` returns passes the test and comes from its argument. */
  lemma {:induction false} KeepSound(ps: seq<seq<char>>)
    ensures forall p :: p in Keep(ps) ==> Kept(p) && p in ps
    decreases |ps|
  {
    if ps != [] {
      KeepSound(ps[..|ps| - 1]);
      assert forall p :: p in ps[..|ps| - 1] ==> p in ps;
    }
  }

  lemma {:induction false} KeepConcat(a: seq<seq<char>>, b: seq<seq<char>>)
    ensures Keep(a + b) == Keep(a) + Keep(b)
    decreases |b|
  {
    if b == [] {
      assert a + b == a;
    } else {
      var b0 := b[..|b| - 1];
      assert (a + b)[..|a + b| - 1] == a + b0;
      KeepConcat(a, b0);
    }
  }

  /** What `split_string(s, d)` returns: the pieces of `s` between
      delimiters, without empty pieces, pieces starting with NUL and lone
      spaces. */
  function Tokens(s: seq<char>, d: char): (r: seq<seq<char>>)
    ensures |r| <= |Pieces(s, d)|
    ensures forall t :: t in r ==> Kept(t) && t in Pieces(s, d)
  {
    KeepSound(Pieces(s, d));
    Keep(Pieces(s, d))
  }

  /** Every token passes the test, is non-empty and holds no delimiter. */
  lemma TokensSound(s: seq<char>, d: char)
    ensures forall t :: t in Tokens(s, d) ==> Kept(t) && |t| > 0 && d !in t
  {
    PiecesFree(s, d);
    KeepSound(Pieces(s, d));
  }

  /** Tokens of two strings joined by the delimiter. */
  lemma TokensConcat(x: seq<char>, y: seq<char>, d: char)
    ensures Tokens(x + [d] + y, d) == Tokens(x, d) + Tokens(y, d)
  {
    PiecesConcat(x, y, d);
    KeepConcat(Pieces(x, d), Pieces(y, d));
  }

  /** A delimiter-free string that passes the test is its own only token. */
  lemma TokensSingle(s: seq<char>, d: char)
    requires d !in s
    ensures Tokens(s, d) == if Kept(s) then [s] else []
  {
    assert Keep([s]) == Keep([][..0]) + if Kept(s) then [s] else [];
  }

  /** The token list stays sorted by position: the tokens of a prefix ending
      at a delimiter, followed by the next piece if it passes the test. */
  lemma TokensStep(s: seq<char>, d: char, b: nat, e: nat)
    requires b < e <= |s| && s[b] == d && d !in s[b + 1..e]
    ensures Tokens(s[..e], d) == Tokens(s[..b], d) + if Kept(s[b + 1..e]) then [s[b + 1..e]] else []
  {
    assert s[..e] == s[..b] + [d] + s[b + 1..e];
    PiecesAppend(s[..b], s[b + 1..e], d);
    PiecesFree(s[..b], d);
    var ps := Pieces(s[..b], d) + [s[b + 1..e]];
    assert ps[..|ps| - 1] == Pieces(s[..b], d);
  }

  /** Where the piece after the delimiter at `b` ends: the next delimiter, or the end of `s`. */
  function NextOrEnd(s: seq<char>, d: char, b: nat): (e: nat)
    requires b < |s| < NPOS
    ensures b < e <= |s| && d !in s[b + 1..e]
    ensures e < |s| ==> s[e] == d
  {
    var f := FindChar(s, d, b + 1);
    if f == NPOS then |s| else f
  }

  lemma FindCharSkip(s: seq<char>, c: char, i: Word, j: Word)
    requires |s| < NPOS && i <= j
    requires forall k :: i <= k < j && k < |s| ==> s[k] != c
    ensures FindChar(s, c, i) == FindChar(s, c, j)
    decreases j - i
  {
    if i < j && i < |s| {
      FindCharSkip(s, c, i + 1, j);
    }
  }

  /** The loop state of `split_string` at the top of an iteration: `begin`
      is `npos` before the first delimiter has been passed, and otherwise the
      position of a delimiter, with `end` the next delimiter or the end. */
  ghost predicate SplitState(str: seq<char>, det: char, b: Word, e: Word)
  {
    |str| < NPOS &&
    (b == NPOS ==> e == FindChar(str, det, 0)) &&
    (b != NPOS ==> b < |str| && str[b] == det && e == NextOrEnd(str, det, b))
  }

  /** Where the piece read in an iteration ends. */
  ghost function Stop(str: seq<char>, b: Word, e: Word): nat
  {
    if b != NPOS then e else if e == NPOS then |str| else e
  }

  /** Where the piece read in an iteration starts. */
  ghost function PieceStart(b: Word): nat
  {
    if b == NPOS then 0 else b + 1
  }

  /** `end` after the `if (end == begin + 1) end++;` adjustment. */
  ghost function Adjusted(b: Word, e: Word): Word
  {
    if e == Inc(b) then Inc(e) else e
  }

  /** The `temp` an iteration computes before deciding whether to push it. */
  ghost function Candidate(str: seq<char>, det: char, b: Word, e: Word): seq<char>
    requires SplitState(str, det, b, e)
  {
    var e1 := Adjusted(b, e);
    var t := Substr(str, Inc(b), Minus(Dec(e1), b));
    var t1 := if b == NPOS && e1 == NPOS then str else t;
    if At0(t1) == det then ['\0'] else t1
  }

  /** The piece an iteration reads: from after `begin` (or from 0) up to
      `end`. */
  ghost function PieceOf(str: seq<char>, b: Word, e: Word): seq<char>
    requires PieceStart(b) <= Stop(str, b, e) <= |str|
  {
    str[PieceStart(b)..Stop(str, b, e)]
  }

  /** The piece read in an iteration lies inside `str`, after `begin`, and
      the tokens up to its end are the tokens before `begin` plus the piece
      when it passes `Kept`. */
  lemma SplitIteration(str: seq<char>, det: char, b: Word, e: Word)
    requires SplitState(str, det, b, e)
    ensures PieceStart(b) <= Stop(str, b, e) <= |str|
    ensures b != NPOS ==> b < Stop(str, b, e)
    ensures var piece := PieceOf(str, b, e);
      (if b == NPOS then [] else Tokens(str[..b], det)) + (if Kept(piece) then [piece] else [])
      == Tokens(str[..Stop(str, b, e)], det)
  {
    var stop := Stop(str, b, e);
    if b == NPOS {
      assert str[..stop] == PieceOf(str, b, e);
      TokensSingle(str[..stop], det);
    } else {
      TokensStep(str, det, b, stop);
    }
  }

  /** The `temp` the iteration cuts out, with its `end` adjustment, its
      `size_t` wrap of `begin + 1` and its `temp[0] == det` test, passes
      `Kept` exactly when the piece does, and is then the piece. */
  lemma CandidateIsPiece(str: seq<char>, det: char, b: Word, e: Word)
    requires SplitState(str, det, b, e)
    ensures PieceStart(b) <= Stop(str, b, e) <= |str|
    ensures var c := Candidate(str, det, b, e);
      var piece := PieceOf(str, b, e);
      (Kept(c) <==> Kept(piece)) && (Kept(c) ==> c == piece)
  {
    SplitIteration(str, det, b, e);
    var stop, start := Stop(str, b, e), PieceStart(b);
    var c := Candidate(str, det, b, e);
    if stop == start {
      assert c == [] || c == ['\0'];
    } else {
      assert c == str[start..stop];
    }
  }

  /** The next search, from `end - 1`, finds the delimiter that ends the
      piece, or nothing when the piece ran to the end of the string. */
  lemma SplitResume(str: seq<char>, det: char, b: Word, e: Word)
    requires SplitState(str, det, b, e)
    ensures var stop := Stop(str, b, e);
      var next := FindChar(str, det, Dec(Adjusted(b, e)));
      (next == NPOS ==> str[..stop] == str) &&
      (next != NPOS ==> next == stop)
  {
    var stop := Stop(str, b, e);
    if stop < |str| {
      FindCharSkip(str, det, Dec(Adjusted(b, e)), stop);
    } else {
      assert str[..stop] == str;
    }
  }

  /** The body of one `split_string` iteration up to the push test: the
      `temp` it cuts out passes the test exactly when the piece between
      `begin` and `end` does, and is then that piece; the search from the
      adjusted `end - 1` finds the delimiter closing the piece, or nothing
      when the piece reached the end of the string. */
  method CutPiece(str: seq<char>, det: char, begin: Word, end: Word) returns (temp: seq<char>, end1: Word)
    requires SplitState(str, det, begin, end)
    ensures PieceStart(begin) <= Stop(str, begin, end) <= |str|
    ensures var piece := PieceOf(str, begin, end);
      (Kept(temp) <==> Kept(piece)) && (Kept(temp) ==> temp == piece)
    ensures var stop := Stop(str, begin, end);
      var next := FindChar(str, det, Dec(end1));
      (next == NPOS ==> stop == |str|) && (next != NPOS ==> next == stop)
  {
    end1 := end;
    if end1 == Inc(begin) {
      end1 := Inc(end1);
    }
    temp := Substr(str, Inc(begin), Minus(Dec(end1), begin));
    if begin == NPOS && end1 == NPOS {
      temp := str;
    }
    if At0(temp) == det {
      temp := ['\0'];
    }
    assert temp == Candidate(str, det, begin, end) && end1 == Adjusted(begin, end);
    CandidateIsPiece(str, det, begin, end);
    SplitResume(str, det, begin, end);
  }

  /** The search for the `end` of the piece after the delimiter at `begin`. */
  method FindEnd(str: seq<char>, det: char, begin: Word) returns (end: Word)
    requires begin < |str| < NPOS
    ensures end == NextOrEnd(str, det, begin)
  {
    assert Inc(begin) == begin + 1;
    end := FindChar(str, det, Inc(begin));
    if end == NPOS {
      end := |str|;
    }
  }

  /** `split_string` (QT_GETServer/server.cpp:346-369), with its `size_t`
      index arithmetic: `begin` starts at `npos` (-1) and wraps to 0. */
  method SplitString(str: seq<char>, det: char) returns (result: seq<seq<char>>)
    requires |str| < NPOS
    ensures result == Tokens(str, det)
  {
    var temp: seq<char>;
    result := [];
    var begin: Word := NPOS;
    var end: Word := FindChar(str, det, Inc(begin));
    while true
      invariant SplitState(str, det, begin, end)
      invariant begin == NPOS ==> result == []
      invariant begin != NPOS ==> result == Tokens(str[..begin], det)
      decreases if begin == NPOS then |str| + 1 else |str| - begin
    {
      ghost var b, e := begin, end;
      SplitIteration(str, det, b, e);
      ghost var stop := Stop(str, b, e);
      temp, end := CutPiece(str, det, begin, end);
      if At0(temp) != '\0' && temp != " " {
        result := result + [temp];
      }
      assert result == Tokens(str[..stop], det);
      begin := FindChar(str, det, Dec(end));
      if begin == NPOS {
        assert str[..stop] == str;
        break;
      }
      end := FindEnd(str, det, begin);
    }
  }

  /** `s` with each leftmost, non-overlapping occurrence of `from` replaced
      by `to`; scanning resumes after the inserted text. */
  function Replaced(s: seq<char>, from: seq<char>, to: seq<char>): (r: seq<char>)
    requires |from| > 0
    ensures |to| == |from| ==> |r| == |s|
    ensures |s| < |from| ==> r == s
    decreases |s|
  {
    if |s| < |from| then s
    else if s[..|from|] == from then to + Replaced(s[|from|..], from, to)
    else [s[0]] + Replaced(s[1..], from, to)
  }

  /** Text in which `from` starts nowhere before `k` is copied up to `k`. */
  lemma {:induction false} ReplacedSkip(u: seq<char>, from: seq<char>, to: seq<char>, k: nat)
    requires |from| > 0 && k <= |u|
    requires forall i :: 0 <= i < k ==> !OccursAt(u, from, i)
    ensures Replaced(u, from, to) == u[..k] + Replaced(u[k..], from, to)
    decreases k
  {
    if k > 0 {
      if |u| < |from| {
        ReplacedShort(u, from, to, k);
      } else {
        var v := u[1..];
        ReplacedCopies(u, from, to);
        NoOccurrenceShift(u, from, 1, k - 1);
        ReplacedSkip(v, from, to, k - 1);
        assert u[..k] == [u[0]] + v[..k - 1];
        assert u[k..] == v[k - 1..];
      }
    }
  }

  /** A text shorter than `from` is copied whole. */
  lemma ReplacedShort(u: seq<char>, from: seq<char>, to: seq<char>, k: nat)
    requires |u| < |from| && k <= |u|
    ensures Replaced(u, from, to) == u[..k] + Replaced(u[k..], from, to)
  {
    assert u == u[..k] + u[k..];
  }

  /** Where `from` does not start, the first character is copied. */
  lemma ReplacedCopies(u: seq<char>, from: seq<char>, to: seq<char>)
    requires 0 < |from| <= |u| && !OccursAt(u, from, 0)
    ensures Replaced(u, from, to) == [u[0]] + Replaced(u[1..], from, to)
  {
  }

  /** Replacing a string by itself changes nothing. */
  lemma {:induction false} ReplacedIdentity(s: seq<char>, from: seq<char>)
    requires |from| > 0
    ensures Replaced(s, from, from) == s
    decreases |s|
  {
    if |s| >= |from| {
      if s[..|from|] == from {
        ReplacedIdentity(s[|from|..], from);
        assert s == s[..|from|] + s[|from|..];
      } else {
        ReplacedIdentity(s[1..], from);
        assert s == [s[0]] + s[1..];
      }
    }
  }

  /** Text in which `from` does not occur comes back unchanged. */
  lemma ReplacedAbsent(s: seq<char>, from: seq<char>, to: seq<char>)
    requires |from| > 0
    requires forall i :: 0 <= i ==> !OccursAt(s, from, i)
    ensures Replaced(s, from, to) == s
  {
    ReplacedSkip(s, from, to, |s|);
    assert s[|s|..] == [];
  }

  /** An occurrence-free stretch of `r` after `startPos` is one of `r[startPos..]` too. */
  lemma NoOccurrenceShift(r: seq<char>, from: seq<char>, startPos: nat, k: nat)
    requires startPos <= |r|
    requires forall i :: startPos <= i < startPos + k ==> !OccursAt(r, from, i)
    ensures forall i :: 0 <= i < k ==> !OccursAt(r[startPos..], from, i)
  {
    var u := r[startPos..];
    forall i | 0 <= i < k
      ensures !OccursAt(u, from, i)
    {
      assert !OccursAt(r, from, startPos + i);
      if i + |from| <= |u| {
        assert u[i..i + |from|] == r[startPos + i..startPos + i + |from|];
      }
    }
  }

  /** The replacement of a text whose first occurrence of `from` is at `k`. */
  lemma ReplacedFirst(u: seq<char>, from: seq<char>, to: seq<char>, k: nat)
    requires |from| > 0 && OccursAt(u, from, k)
    requires forall i :: 0 <= i < k ==> !OccursAt(u, from, i)
    ensures Replaced(u, from, to) == u[..k] + to + Replaced(u[k + |from|..], from, to)
  {
    var v, rest := u[k..], u[k + |from|..];
    assert Replaced(v, from, to) == to + Replaced(rest, from, to) by {
      assert v[..|from|] == from;
      assert v[|from|..] == rest;
    }
    assert Replaced(u, from, to) == u[..k] + Replaced(v, from, to) by {
      ReplacedSkip(u, from, to, k);
    }
  }

  /** One replacement of `replace_all`: splicing `to` in at the first
      occurrence at or after `startPos` keeps the text before the new resume
      point plus the replacement of the rest equal to what it was. */
  lemma ReplaceStep(r: seq<char>, from: seq<char>, to: seq<char>, startPos: nat, found: nat)
    requires |from| > 0 && startPos <= found && OccursAt(r, from, found)
    requires forall i :: startPos <= i < found ==> !OccursAt(r, from, i)
    ensures var r' := r[..found] + to + r[found + |from|..];
      r'[..found + |to|] + Replaced(r'[found + |to|..], from, to)
      == r[..startPos] + Replaced(r[startPos..], from, to)
  {
    var u, k := r[startPos..], found - startPos;
    NoOccurrenceShift(r, from, startPos, k);
    assert u[k..k + |from|] == r[found..found + |from|];
    var rest := r[found + |from|..];
    assert u[k + |from|..] == rest;
    var r' := r[..found] + to + rest;
    var x := Replaced(rest, from, to);
    calc {
      r'[..found + |to|] + Replaced(r'[found + |to|..], from, to);
      { assert r'[..found + |to|] == r[..found] + to;
        assert r[..found] == r[..startPos] + u[..k];
        Associative(r[..startPos], u[..k], to);
        assert r'[found + |to|..] == rest; }
      r[..startPos] + (u[..k] + to) + x;
      { Associative(r[..startPos], u[..k] + to, x); }
      r[..startPos] + (u[..k] + to + x);
      { ReplacedFirst(u, from, to, k); }
      r[..startPos] + Replaced(u, from, to);
    }
  }

  lemma Associative(a: seq<char>, b: seq<char>, c: seq<char>)
    ensures a + b + c == a + (b + c)
  {
  }

  /** Once `from` occurs nowhere at or after `startPos`, the rest is final. */
  lemma ReplaceDone(r: seq<char>, from: seq<char>, to: seq<char>, startPos: nat)
    requires |from| > 0 && startPos <= |r|
    requires forall i :: startPos <= i ==> !OccursAt(r, from, i)
    ensures r[..startPos] + Replaced(r[startPos..], from, to) == r
  {
    var u := r[startPos..];
    NoOccurrenceShift(r, from, startPos, |u|);
    forall i | 0 <= i
      ensures !OccursAt(u, from, i)
    {
      if i >= |u| {
        assert i + |from| > |u|;
      }
    }
    ReplacedAbsent(u, from, to);
    assert r[..startPos] + u == r;
  }

  /** `replace_all` (QT_GETServer/server.cpp:371-378). An empty `from` would
      make the loop run forever, so it is excluded. */
  method ReplaceAll(str: seq<char>, from: seq<char>, to: seq<char>) returns (r: seq<char>)
    requires |from| > 0
    ensures r == Replaced(str, from, to)
  {
    r := str;
    var startPos: nat := 0;
    var found := FindSub(r, from, startPos);
    while found != -1
      invariant startPos <= |r|
      invariant found == FindSub(r, from, startPos)
      invariant r[..startPos] + Replaced(r[startPos..], from, to) == Replaced(str, from, to)
      decreases |r| - startPos
    {
      ReplaceStep(r, from, to, startPos, found);
      r := r[..found] + to + r[found + |from|..];
      startPos := found + |to|;
      found := FindSub(r, from, startPos);
    }
    ReplaceDone(r, from, to, startPos);
  }
}
