/** The contents of a `String` object (AsynchronusGetServer/string.cpp) as a
    value: its buffer `str[0..stringSize)`. A well-formed buffer ends with
    NUL; the text is what precedes the first NUL, and the cells after that
    NUL (unused capacity) still take part in `findch`, `findstr`, `==` and
    `+`. The class in string_class.dfy is proved against these functions. */
module StringValue {
  import opened Common
  import opened Delimited

  /** The class invariant on a buffer: at least one cell, the last one NUL. */
  predicate WellFormed(b: seq<char>)
  {
    |b| >= 1 && b[|b| - 1] == '\0'
  }

  /** The first `n` characters of a text, again a text. */
  function TextPrefix(s: CText, n: nat): (r: CText)
    requires n <= |s|
    ensures r == s[..n]
  {
    assert forall i :: 0 <= i < n ==> s[..n][i] == s[i];
    s[..n]
  }

  /** `length()`: the index of the first NUL. */
  function Len(b: seq<char>): (n: nat)
    requires WellFormed(b)
    ensures n < |b| && b[n] == '\0'
    ensures forall i :: 0 <= i < n ==> b[i] != '\0'
  {
    var t := CStr(b);
    assert forall i :: 0 <= i < |t| ==> b[i] == t[i];
    |t|
  }

  /** The text of a buffer: its characters before the first NUL. */
  function Chars(b: seq<char>): (t: CText)
    requires WellFormed(b)
    ensures t == b[..Len(b)]
  {
    CStr(b)
  }

  /** `capacity()`. */
  function Capacity(b: seq<char>): (c: nat)
    requires WellFormed(b)
    ensures c == |b| - 1 && Len(b) <= c
  {
    |b| - 1
  }

  /** A buffer without unused capacity: its only NUL is the last cell. */
  predicate Tight(b: seq<char>)
  {
    WellFormed(b) && '\0' !in b[..|b| - 1]
  }

  /** The tight buffer holding the text `t`. */
  function Of(t: CText): (b: seq<char>)
    ensures Tight(b) && Len(b) == |t| && Chars(b) == t
  {
    var b := t + ['\0'];
    assert b[..|t|] == t;
    b
  }

  /** A tight buffer is the buffer of its text. */
  lemma TightLen(b: seq<char>)
    requires Tight(b)
    ensures Len(b) == |b| - 1 && b == Of(Chars(b))
  {
    assert b == b[..|b| - 1] + [b[|b| - 1]];
  }

  /** The buffer of `String(int x)` (string.cpp:21-26): capacity `x`, every
      cell NUL, so the text is empty. */
  function Blank(x: nat): (b: seq<char>)
    ensures WellFormed(b) && Capacity(b) == x && Chars(b) == []
    ensures forall i :: 0 <= i < |b| ==> b[i] == '\0'
  {
    seq(x + 1, _ => '\0')
  }

  /** The buffer of the text before the first NUL of `x`, as
      `String(const char x[])` builds it (string.cpp:42-55). */
  function FromCStrBuf(x: seq<char>): (b: seq<char>)
    requires '\0' in x
    ensures Tight(b) && Chars(b) == CStr(x)
    ensures Len(b) == Capacity(b) == |CStr(x)|
  {
    Of(CStr(x))
  }

  /** `String(int N, const char x[])` (string.cpp:59-67): capacity `N`
      holding the first `N` cells of `x`, NULs included. */
  function WithCapacityFromBuf(n: nat, x: seq<char>): (b: seq<char>)
    requires n <= |x|
    ensures WellFormed(b) && Capacity(b) == n
    ensures b[..n] == x[..n]
  {
    x[..n] + ['\0']
  }

  // ---------------------------------------------------------------------
  // operator+ (string.cpp:143-155)

  /** The buffer of `a + b`: all of `a` but its last NUL, then all of `b`. */
  function ConcatBuf(a: seq<char>, b: seq<char>): (r: seq<char>)
    requires WellFormed(a) && WellFormed(b)
    ensures WellFormed(r) && Capacity(r) == Capacity(a) + Capacity(b)
  {
    a[..|a| - 1] + b
  }

  /** When `a` has no unused capacity, `a + b` holds `a`'s text followed
      by `b`'s, and stays tight when `b` is. */
  lemma ConcatTight(a: seq<char>, b: seq<char>)
    requires Tight(a) && WellFormed(b)
    ensures Chars(ConcatBuf(a, b)) == Chars(a) + Chars(b)
    ensures Tight(b) ==> Tight(ConcatBuf(a, b))
  {
    TightLen(a);
    var r := ConcatBuf(a, b);
    var n := |a| - 1 + Len(b);
    assert r[..n] == a[..|a| - 1] + b[..Len(b)];
    assert r[n] == '\0';
    forall i | 0 <= i < n
      ensures r[i] != '\0'
    {
      if i >= |a| - 1 {
        assert r[i] == b[i - (|a| - 1)];
      }
    }
    assert Len(r) == n;
    if Tight(b) {
      TightLen(b);
      assert r[..|r| - 1] == a[..|a| - 1] + b[..|b| - 1];
    }
  }

  /** When `a` has unused capacity, its NUL comes first in `a + b`, so the
      text of `b` is lost from the text of the result. */
  lemma ConcatWithSlack(a: seq<char>, b: seq<char>)
    requires WellFormed(a) && WellFormed(b) && Len(a) < Capacity(a)
    ensures Chars(ConcatBuf(a, b)) == Chars(a)
  {
    var r := ConcatBuf(a, b);
    assert r[..Len(a) + 1] == a[..Len(a) + 1];
    assert Len(r) == Len(a);
  }

  // ---------------------------------------------------------------------
  // operator== (string.cpp:168-185)

  /** `a == b`: the cells agree up to the shorter buffer. */
  function EqualBuf(a: seq<char>, b: seq<char>): (r: bool)
    ensures r <==> forall i :: 0 <= i < |a| && i < |b| ==> a[i] == b[i]
    ensures |a| == |b| ==> (r <==> a == b)
  {
    var m := if |a| < |b| then |a| else |b|;
    a[..m] == b[..m]
  }

  /** On tight buffers `==` is equality of the texts. */
  lemma EqualTight(a: seq<char>, b: seq<char>)
    requires Tight(a) && Tight(b)
    ensures EqualBuf(a, b) <==> Chars(a) == Chars(b)
  {
    TightLen(a);
    TightLen(b);
    if |a| < |b| {
      assert b[|a| - 1] in b[..|b| - 1];
      assert a[..|a|][|a| - 1] != b[..|a|][|a| - 1];
    } else if |b| < |a| {
      assert a[|b| - 1] in a[..|a| - 1];
      assert a[..|b|][|b| - 1] != b[..|b|][|b| - 1];
    } else {
      assert a[..|a|] == a && b[..|b|] == b;
    }
  }

  // ---------------------------------------------------------------------
  // substr (string.cpp:271-284)

  /** The buffer `substr(start, end)` returns. A negative `start` that is not
      beyond `end` would index before the buffer, so it is excluded. */
  function SubstrBuf(b: seq<char>, start: int, end: int): (r: seq<char>)
    requires WellFormed(b)
    requires start > end || 0 <= start
    ensures Tight(r)
    ensures start > end || start >= Len(b) ==> Chars(r) == []
    ensures 0 <= start <= end && start < Len(b) ==>
      Chars(r) == Chars(b)[start..if end < Len(b) then end + 1 else Len(b)]
  {
    var n := Len(b);
    if start > end then Of([])
    else
      var e := if end >= n then n - 1 else end;
      if start >= n then Of([])
      else
        assert forall i :: start <= i <= e ==> b[i] != '\0';
        Of(b[start..e + 1])
  }

  /** The non-empty case of `SubstrBuf`: the characters `start..last`,
      `last` being `end` cut back to the last character, then a NUL. */
  lemma SubstrCut(b: seq<char>, start: int, end: int, last: int)
    requires WellFormed(b) && 0 <= start <= end && start < Len(b)
    requires last == if end >= Len(b) then Len(b) - 1 else end
    ensures start <= last < Len(b)
    ensures SubstrBuf(b, start, end) == b[start..last + 1] + ['\0']
  {
  }

  // ---------------------------------------------------------------------
  // findch (string.cpp:287-297)

  /** `findch(pos, ch)`: the least index at or after `pos` (at least 0)
      holding `ch`, anywhere in the buffer, or -1. */
  function FindChBuf(b: seq<char>, pos: int, ch: char): (r: int)
    ensures var p := if pos < 0 then 0 else pos;
      (r == -1 <==> forall i :: p <= i < |b| ==> b[i] != ch) &&
      (r != -1 ==> p <= r < |b| && b[r] == ch && forall i :: p <= i < r ==> b[i] != ch)
    decreases if pos < 0 then |b| + 1 else if pos >= |b| then 0 else |b| - pos
  {
    if pos < 0 then FindChBuf(b, 0, ch)
    else if pos >= |b| then -1
    else if b[pos] == ch then pos
    else FindChBuf(b, pos + 1, ch)
  }

  // ---------------------------------------------------------------------
  // findstr (string.cpp:301-322)

  /** What the inner loop of `findstr` accepts at `i`: the first cell of
      the pattern matches at `i`, and the cell `length(p) - 1` further on
      matches the pattern's last character. The cells in between are
      compared, but each comparison is overwritten by the next one. */
  predicate AcceptedAt(b: seq<char>, p: seq<char>, i: nat)
    requires WellFormed(p)
  {
    var n := Len(p);
    i < |b| && b[i] == p[0] && n >= 1 && i + n - 1 < |b| && b[i + n - 1] == p[n - 1]
  }

  /** `findstr(pos, p)` as written: the least `i >= pos` the inner loop
      accepts, or -1. */
  function FindStrBuf(b: seq<char>, pos: nat, p: seq<char>): (r: int)
    requires WellFormed(p)
    ensures r == -1 <==> forall i :: pos <= i ==> !AcceptedAt(b, p, i)
    ensures r != -1 ==> pos <= r && AcceptedAt(b, p, r)
    ensures r != -1 ==> forall i :: pos <= i < r ==> !AcceptedAt(b, p, i)
    decreases |b| - pos
  {
    if pos >= |b| then -1
    else if AcceptedAt(b, p, pos) then pos
    else FindStrBuf(b, pos + 1, p)
  }

  /** The text of `p` occurs in the buffer at `i`. */
  predicate OccursAt(b: seq<char>, p: seq<char>, i: nat)
    requires WellFormed(p)
  {
    i + Len(p) <= |b| && b[i..i + Len(p)] == Chars(p)
  }

  /** `findstr` as its comment describes it: the least `i >= pos` where the
      text of `p` occurs, or -1; an empty pattern is never found, as in the
      code. */
  function FindStrIntended(b: seq<char>, pos: nat, p: seq<char>): (r: int)
    requires WellFormed(p)
    ensures r == -1 <==> forall i :: pos <= i ==> Len(p) == 0 || !OccursAt(b, p, i)
    ensures r != -1 ==> pos <= r && Len(p) > 0 && OccursAt(b, p, r)
    ensures r != -1 ==> forall i :: pos <= i < r ==> !OccursAt(b, p, i)
    decreases |b| - pos
  {
    if pos + Len(p) > |b| || Len(p) == 0 then -1
    else if OccursAt(b, p, pos) then pos
    else FindStrIntended(b, pos + 1, p)
  }

  /** Every real occurrence is accepted, but not conversely: in "axb" the
      pattern "ayb" is reported at 0. */
  lemma FindStrAcceptsNonOccurrence()
    ensures FindStrBuf(Of("axb"), 0, Of("ayb")) == 0
    ensures FindStrIntended(Of("axb"), 0, Of("ayb")) == -1
  {
    var b, p := Of("axb"), Of("ayb");
    assert AcceptedAt(b, p, 0);
    forall i | 0 <= i
      ensures !OccursAt(b, p, i)
    {
      if i == 0 {
        assert b[0..3][1] != p[..3][1];
      }
    }
  }

  /** The intended search never reports a position the code would reject. */
  lemma OccursImpliesAccepted(b: seq<char>, p: seq<char>, i: nat)
    requires WellFormed(p) && Len(p) > 0 && OccursAt(b, p, i)
    ensures AcceptedAt(b, p, i)
  {
    var n := Len(p);
    assert b[i..i + n][0] == b[i];
    assert b[i..i + n][n - 1] == b[i + n - 1];
  }

  /** The code finds a match no later than the intended search does. */
  lemma {:induction false} FindStrNoLater(b: seq<char>, pos: nat, p: seq<char>)
    requires WellFormed(p)
    requires FindStrIntended(b, pos, p) != -1
    ensures FindStrBuf(b, pos, p) != -1 && FindStrBuf(b, pos, p) <= FindStrIntended(b, pos, p)
  {
    OccursImpliesAccepted(b, p, FindStrIntended(b, pos, p));
  }

  /** The first accepted position at or after `pos` is what the search returns. */
  lemma FindStrBufLeast(b: seq<char>, pos: nat, p: seq<char>, i: nat)
    requires WellFormed(p) && pos <= i && AcceptedAt(b, p, i)
    requires forall k :: pos <= k < i ==> !AcceptedAt(b, p, k)
    ensures FindStrBuf(b, pos, p) == i
  {
  }

  /** The first occurrence at or after `pos` is what the intended search returns. */
  lemma FindStrIntendedLeast(b: seq<char>, pos: nat, p: seq<char>, i: nat)
    requires WellFormed(p) && Len(p) > 0 && pos <= i && OccursAt(b, p, i)
    requires forall k :: pos <= k < i ==> !OccursAt(b, p, k)
    ensures FindStrIntended(b, pos, p) == i
  {
  }

  // ---------------------------------------------------------------------
  // split(char) (string.cpp:326-350)

  /** What `split(det)` returns for a tight buffer holding `s`: one tight
      buffer per `det`-separated piece, empty pieces included. */
  function SplitBufs(s: CText, det: char): (r: seq<seq<char>>)
    ensures |r| == |Pieces(s, det)| >= 1
    ensures forall i :: 0 <= i < |r| ==> Tight(r[i])
  {
    var ps := Pieces(s, det);
    PiecesNoNul(s, det);
    seq(|ps|, i requires 0 <= i < |ps| => Of(ps[i]))
  }

  lemma PiecesNoNul(s: CText, d: char)
    ensures forall p :: p in Pieces(s, d) ==> '\0' !in p
  {
    JoinPieces(s, d);
    forall p | p in Pieces(s, d)
      ensures '\0' !in p
    {
      var ps := Pieces(s, d);
      var k :| 0 <= k < |ps| && ps[k] == p;
      PieceInJoin(ps, d, k);
    }
  }

  /** Every piece is a contiguous part of the joined string. */
  lemma {:induction false} PieceInJoin(ps: seq<seq<char>>, d: char, k: nat)
    requires k < |ps|
    ensures forall c :: c in ps[k] ==> c in Join(ps, d)
    decreases |ps|
  {
    if |ps| > 1 {
      if k < |ps| - 1 {
        PieceInJoin(ps[..|ps| - 1], d, k);
        assert ps[..|ps| - 1][k] == ps[k];
      }
    }
  }

  /** Without a delimiter, `split` returns the string itself. */
  lemma SplitNoDelimiter(s: CText, det: char)
    requires det !in s
    ensures SplitBufs(s, det) == [Of(s)]
  {
    PiecesSingle(s, det);
  }

  /** The texts of the returned strings, joined by `det`, give the string back. */
  lemma SplitJoin(s: CText, det: char)
    ensures var r := SplitBufs(s, det);
      Join(seq(|r| , i requires 0 <= i < |r| => Chars(r[i])), det) == s
  {
    var r := SplitBufs(s, det);
    var texts := seq(|r|, i requires 0 <= i < |r| => Chars(r[i]));
    assert texts == Pieces(s, det);
    JoinPieces(s, det);
  }

  /** Two adjacent delimiters
      enclose an empty piece. */
  lemma PiecesDoubled(x: seq<char>, y: seq<char>, d: char)
    ensures Pieces(x + [d, d] + y, d) == Pieces(x, d) + [[]] + Pieces(y, d)
  {
    var z := [] + [d] + y;
    assert x + [d, d] + y == x + [d] + z;
    PiecesConcat(x, z, d);
    PiecesConcat([], y, d);
    PiecesSingle([], d);
  }

  /** No piece holds a NUL. */
  predicate NulFree(ps: seq<seq<char>>)
  {
    forall i :: 0 <= i < |ps| ==> '\0' !in ps[i]
  }

  /** The tight buffers of the given texts. */
  function OfAll(ps: seq<seq<char>>): (r: seq<seq<char>>)
    requires NulFree(ps)
  {
    if ps == [] then [] else [Of(ps[0])] + OfAll(ps[1..])
  }

  lemma {:induction false} OfAllAt(ps: seq<seq<char>>)
    requires NulFree(ps)
    ensures |OfAll(ps)| == |ps| && forall i :: 0 <= i < |ps| ==> OfAll(ps)[i] == Of(ps[i])
  {
    if ps != [] {
      OfAllAt(ps[1..]);
    }
  }

  lemma {:induction false} OfAllConcat(a: seq<seq<char>>, b: seq<seq<char>>)
    requires NulFree(a) && NulFree(b)
    ensures NulFree(a + b) && OfAll(a + b) == OfAll(a) + OfAll(b)
  {
    NulFreeConcat(a, b);
    if a == [] {
      assert a + b == b;
    } else {
      OfAllConcatStep(a, b);
      OfAllConcat(a[1..], b);
    }
  }

  lemma NulFreeConcat(a: seq<seq<char>>, b: seq<seq<char>>)
    requires NulFree(a) && NulFree(b)
    ensures NulFree(a + b)
  {
    var ab := a + b;
    forall i | 0 <= i < |ab|
      ensures ab[i] == if i < |a| then a[i] else b[i - |a|]
    {
    }
  }

  /** One unfolding of `OfAll` on a concatenation with a non-empty front. */
  lemma OfAllConcatStep(a: seq<seq<char>>, b: seq<seq<char>>)
    requires NulFree(a) && NulFree(b) && NulFree(a + b) && a != []
    ensures NulFree(a[1..]) && OfAll(a + b) == [Of(a[0])] + OfAll(a[1..] + b)
    ensures OfAll(a) == [Of(a[0])] + OfAll(a[1..])
  {
    assert (a + b)[0] == a[0] && (a + b)[1..] == a[1..] + b;
  }

  lemma OfAllSingle(y: seq<char>)
    requires '\0' !in y
    ensures NulFree([y]) && OfAll([y]) == [Of(y)]
  {
    assert [y][1..] == [];
  }

  lemma SplitBufsOfAll(s: CText, det: char)
    ensures NulFree(Pieces(s, det)) && SplitBufs(s, det) == OfAll(Pieces(s, det))
  {
    PiecesNoNul(s, det);
    var ps := Pieces(s, det);
    assert NulFree(ps) by {
      assert forall i :: 0 <= i < |ps| ==> ps[i] in ps;
    }
    OfAllAt(ps);
  }

  /** Two adjacent delimiters yield an empty element between the pieces on
      either side. */
  lemma SplitDoubled(x: CText, y: CText, det: char)
    requires det != '\0'
    ensures var s: CText := x + [det, det] + y;
      SplitBufs(s, det) == SplitBufs(x, det) + [Of([])] + SplitBufs(y, det)
  {
    var s: CText := x + [det, det] + y;
    var px, py := Pieces(x, det), Pieces(y, det);
    PiecesDoubled(x, y, det);
    SplitBufsOfAll(x, det);
    SplitBufsOfAll(y, det);
    SplitBufsOfAll(s, det);
    OfAllAround(px, py);
  }

  lemma OfAllAround(px: seq<seq<char>>, py: seq<seq<char>>)
    requires NulFree(px) && NulFree(py)
    ensures NulFree(px + [[]] + py) && OfAll(px + [[]] + py) == OfAll(px) + [Of([])] + OfAll(py)
  {
    OfAllSingle([]);
    OfAllConcat(px, [[]]);
    OfAllConcat(px + [[]], py);
  }

  /** Appending a delimiter and a delimiter-free text adds one element. */
  lemma SplitAppend(x: CText, y: CText, det: char)
    requires det != '\0' && det !in y
    ensures var s: CText := x + [det] + y;
      SplitBufs(s, det) == SplitBufs(x, det) + [Of(y)]
  {
    var s: CText := x + [det] + y;
    var px := Pieces(x, det);
    assert Pieces(s, det) == px + [y] by { PiecesAppend(x, y, det); }
    assert NulFree(px) && SplitBufs(x, det) == OfAll(px) by { SplitBufsOfAll(x, det); }
    OfAllSingle(y);
    assert OfAll(px + [y]) == OfAll(px) + [Of(y)] by { OfAllConcat(px, [y]); }
    assert SplitBufs(s, det) == OfAll(px + [y]) by { SplitBufsOfAll(s, det); }
  }

  // The loop of `split(det)`, one iteration at a time.

  /** The buffer of `String(char x)` (string.cpp:29-39): the one-character
      text `x`, or the empty text for NUL. */
  function CharBuf(x: char): (b: seq<char>)
    ensures Tight(b) && Chars(b) == if x == '\0' then [] else [x]
  {
    if x == '\0' then Of([]) else Of([x])
  }

  /** Where the piece after the delimiter at `begin` ends: the next
      delimiter, or `capacity()` when there is none. */
  function NextEnd(b: seq<char>, det: char, begin: int): int
    requires WellFormed(b)
  {
    var f := FindChBuf(b, begin + 1, det);
    if f == -1 then |b| - 1 else f
  }

  /** The loop state at the top of an iteration: `begin` is -1 before the
      first delimiter is passed, and otherwise the position of a delimiter. */
  ghost predicate SplitState(b: seq<char>, det: char, begin: int, end: int)
  {
    WellFormed(b) && det != '\0' && -1 <= begin < |b| &&
    (begin == -1 ==> end == FindChBuf(b, 0, det)) &&
    (begin >= 0 ==> b[begin] == det && end == NextEnd(b, det, begin))
  }

  /** `end` after `if (end == begin + 1) end = end + 1;`. */
  function Adjusted(begin: int, end: int): int
  {
    if end == begin + 1 then end + 1 else end
  }

  /** The buffer `temp` holds when it is pushed: `substr(begin + 1, end - 1)`,
      the whole text when no delimiter was found, and the empty string in
      place of a lone delimiter. */
  ghost function SplitTemp(b: seq<char>, det: char, begin: int, end: int): seq<char>
    requires WellFormed(b) && begin >= -1
  {
    Unless(PieceText(b, begin, Adjusted(begin, end)), det)
  }

  /** `substr(begin + 1, end - 1)`, or the whole text when neither `begin`
      nor `end` is a position. */
  function PieceText(b: seq<char>, begin: int, end: int): seq<char>
    requires WellFormed(b) && begin >= -1
  {
    if begin == -1 && end == -1 then FromCStrBuf(b) else SubstrBuf(b, begin + 1, end - 1)
  }

  /** `if (temp == det) temp = '\0';` */
  function Unless(t: seq<char>, det: char): seq<char>
  {
    if EqualBuf(t, CharBuf(det)) then CharBuf('\0') else t
  }

  /** The next `begin`: `findch(end - 1, det)`. */
  ghost function SplitNext(b: seq<char>, det: char, begin: int, end: int): int
  {
    FindChBuf(b, Adjusted(begin, end) - 1, det)
  }

  /** On any buffer the loop moves forward, and the state it reaches is
      again a loop state. */
  lemma SplitAdvance(b: seq<char>, det: char, begin: int, end: int)
    requires SplitState(b, det, begin, end)
    ensures var n := SplitNext(b, det, begin, end);
      (n == -1 || n > begin) && (n != -1 ==> SplitState(b, det, n, NextEnd(b, det, n)))
  {
  }

  /** Where the piece read by an iteration ends, on a tight buffer. */
  ghost function SplitStop(b: seq<char>, begin: int, end: int): int
  {
    if begin == -1 && end == -1 then |b| - 1 else end
  }

  /** On a tight buffer the piece an iteration reads runs from after
      `begin` to the next delimiter or the end of the text. */
  lemma SplitPieceBounds(b: seq<char>, det: char, begin: int, end: int)
    requires Tight(b) && SplitState(b, det, begin, end)
    ensures var s, stop := Chars(b), SplitStop(b, begin, end);
      begin + 1 <= stop <= |s| && det !in s[begin + 1..stop] &&
      (stop < |s| ==> s[stop] == det) &&
      (FindChBuf(b, stop, det) == -1 ==> stop == |s|)
  {
    TightLen(b);
    var s, stop := Chars(b), SplitStop(b, begin, end);
    assert s == b[..|b| - 1];
    forall i | begin + 1 <= i < stop
      ensures s[i] != det
    {
    }
  }

  /** Without any delimiter, the whole text is pushed. */
  lemma SplitTempWhole(b: seq<char>, det: char)
    requires Tight(b) && det != '\0' && det !in Chars(b)
    ensures SplitTemp(b, det, -1, -1) == Of(Chars(b))
  {
    TightLen(b);
    var s := Chars(b);
    assert b == s + ['\0'];
    CStrOfCText(s);
    assert FromCStrBuf(b) == Of(s);
    EqualTight(Of(s), Of([det]));
  }

  /** A delimiter right after `begin`, or `begin` at the last character,
      gives an empty piece. */
  lemma SplitTempEmpty(b: seq<char>, det: char, begin: int)
    requires Tight(b) && det != '\0' && -1 <= begin < |b| - 1
    requires begin + 1 < |b| - 1 ==> b[begin + 1] == det
    ensures SplitTemp(b, det, begin, begin + 1) == Of([])
  {
    if begin + 1 < |b| - 1 {
      SplitTempDoubled(b, det, begin);
    } else {
      SplitTempAtEnd(b, det, begin);
    }
  }

  lemma SplitTempDoubled(b: seq<char>, det: char, begin: int)
    requires Tight(b) && det != '\0' && -1 <= begin && begin + 1 < |b| - 1 && b[begin + 1] == det
    ensures SplitTemp(b, det, begin, begin + 1) == Of([])
  {
    SplitTempAdjacent(b, det, begin);
    SubstrOne(b, begin + 1);
    UnlessDelimiter(det);
  }

  lemma SplitTempAtEnd(b: seq<char>, det: char, begin: int)
    requires Tight(b) && det != '\0' && begin == |b| - 2
    ensures SplitTemp(b, det, begin, begin + 1) == Of([])
  {
    SplitTempAdjacent(b, det, begin);
    SubstrPastEnd(b, begin + 1);
    UnlessEmpty(det);
  }

  /** A delimiter right after `begin` is skipped over by the adjustment of
      `end`, leaving `substr(begin + 1, begin + 1)`. */
  lemma SplitTempAdjacent(b: seq<char>, det: char, begin: int)
    requires WellFormed(b) && -1 <= begin
    ensures SplitTemp(b, det, begin, begin + 1) == Unless(SubstrBuf(b, begin + 1, begin + 1), det)
  {
    var end := Adjusted(begin, begin + 1);
    assert end == begin + 2;
    assert PieceText(b, begin, end) == SubstrBuf(b, begin + 1, end - 1);
  }

  /** `substr(i, i)` inside the text is the one character at `i`. */
  lemma SubstrOne(b: seq<char>, i: nat)
    requires Tight(b) && i < |b| - 1
    ensures SubstrBuf(b, i, i) == Of([b[i]])
  {
    TightLen(b);
    SubstrInside(b, i, i);
    assert Chars(b)[i..i + 1] == [b[i]];
  }

  /** `substr(i, i)` at the terminating NUL is the empty string. */
  lemma SubstrPastEnd(b: seq<char>, i: nat)
    requires Tight(b) && i == |b| - 1
    ensures SubstrBuf(b, i, i) == Of([])
  {
    TightLen(b);
    TightLen(SubstrBuf(b, i, i));
  }

  /** A string equal to the delimiter is replaced by the empty string. */
  lemma UnlessDelimiter(det: char)
    requires det != '\0'
    ensures Unless(Of([det]), det) == Of([])
  {
    EqualTight(Of([det]), CharBuf(det));
  }

  /** The empty string is kept. */
  lemma UnlessEmpty(det: char)
    requires det != '\0'
    ensures Unless(Of([]), det) == Of([])
  {
    EqualTight(Of([]), CharBuf(det));
  }

  /** `substr` of a tight buffer within its text is the tight buffer of
      that part of the text. */
  lemma SubstrInside(b: seq<char>, start: nat, last: nat)
    requires Tight(b) && start <= last < |b| - 1
    ensures SubstrBuf(b, start, last) == Of(Chars(b)[start..last + 1])
  {
    TightLen(b);
    var t := SubstrBuf(b, start, last);
    assert Chars(t) == Chars(b)[start..last + 1];
    TightLen(t);
  }

  /** Otherwise the characters strictly between the delimiters are pushed. */
  lemma SplitTempPiece(b: seq<char>, det: char, begin: int, end: int)
    requires Tight(b) && det != '\0' && -1 <= begin && begin + 1 < end <= |b| - 1
    requires b[begin + 1] != det
    ensures SplitTemp(b, det, begin, end) == Of(Chars(b)[begin + 1..end])
  {
    var s := Chars(b);
    assert |s| == |b| - 1 && s[begin + 1] == b[begin + 1] by {
      TightLen(b);
    }
    var piece := s[begin + 1..end];
    assert piece != [det] by {
      assert piece[0] == s[begin + 1];
    }
    SplitTempApart(b, det, begin, end);
    SubstrInside(b, begin + 1, end - 1);
    UnlessOther(piece, det);
  }

  /** Delimiters further apart leave `substr(begin + 1, end - 1)`. */
  lemma SplitTempApart(b: seq<char>, det: char, begin: int, end: int)
    requires WellFormed(b) && -1 <= begin && begin + 1 < end
    ensures SplitTemp(b, det, begin, end) == Unless(SubstrBuf(b, begin + 1, end - 1), det)
  {
    assert Adjusted(begin, end) == end;
    assert PieceText(b, begin, end) == SubstrBuf(b, begin + 1, end - 1);
  }

  /** A string other than the delimiter is kept. */
  lemma UnlessOther(t: CText, det: char)
    requires t != [det]
    ensures Unless(Of(t), det) == Of(t)
  {
    EqualTight(Of(t), CharBuf(det));
  }

  /** What an iteration needs to know about the piece it reads. */
  ghost predicate PieceShape(b: seq<char>, det: char, begin: int, end: int)
  {
    var stop := SplitStop(b, begin, end);
    Tight(b) && det != '\0' && -1 <= begin && begin + 1 <= stop <= |b| - 1 &&
    (begin == -1 && end == -1 ==> det !in b[..|b| - 1]) &&
    (!(begin == -1 && end == -1) ==> end == stop) &&
    (stop > begin + 1 ==> b[begin + 1] != det) &&
    (stop == begin + 1 && stop < |b| - 1 ==> b[stop] == det)
  }

  lemma PieceShapeOf(b: seq<char>, det: char, begin: int, end: int)
    requires Tight(b) && SplitState(b, det, begin, end)
    ensures PieceShape(b, det, begin, end)
  {
    SplitPieceBounds(b, det, begin, end);
    TightLen(b);
    var s, stop := Chars(b), SplitStop(b, begin, end);
    if stop > begin + 1 {
      assert s[begin + 1..stop][0] == b[begin + 1];
    }
  }

  /** On a tight buffer an iteration pushes exactly the piece between
      `begin` and the next delimiter. */
  lemma SplitIteration(b: seq<char>, det: char, begin: int, end: int)
    requires PieceShape(b, det, begin, end)
    ensures var s, stop := Chars(b), SplitStop(b, begin, end);
      SplitTemp(b, det, begin, end) == Of(s[begin + 1..stop])
  {
    if begin == -1 && end == -1 {
      SplitIterationWhole(b, det);
    } else if end == begin + 1 {
      SplitIterationEmpty(b, det, begin);
    } else {
      SplitIterationPiece(b, det, begin, end);
    }
  }

  lemma SplitIterationWhole(b: seq<char>, det: char)
    requires PieceShape(b, det, -1, -1)
    ensures var s := Chars(b); SplitTemp(b, det, -1, -1) == Of(s[0..SplitStop(b, -1, -1)])
  {
    TightLen(b);
    var s := Chars(b);
    assert s[0..SplitStop(b, -1, -1)] == s;
    SplitTempWhole(b, det);
  }

  lemma SplitIterationEmpty(b: seq<char>, det: char, begin: int)
    requires PieceShape(b, det, begin, begin + 1)
    ensures var s := Chars(b); SplitTemp(b, det, begin, begin + 1) == Of(s[begin + 1..SplitStop(b, begin, begin + 1)])
  {
    TightLen(b);
    var s := Chars(b);
    assert s[begin + 1..SplitStop(b, begin, begin + 1)] == [];
    SplitTempEmpty(b, det, begin);
  }

  lemma SplitIterationPiece(b: seq<char>, det: char, begin: int, end: int)
    requires PieceShape(b, det, begin, end) && !(begin == -1 && end == -1) && end != begin + 1
    ensures var s := Chars(b); SplitTemp(b, det, begin, end) == Of(s[begin + 1..SplitStop(b, begin, end)])
  {
    TightLen(b);
    SplitTempPiece(b, det, begin, end);
  }

  /** On a tight buffer the next search starts where the piece ends. */
  lemma SplitNextFromStop(b: seq<char>, det: char, begin: int, end: int)
    requires Tight(b) && SplitState(b, det, begin, end)
    ensures SplitNext(b, det, begin, end) == FindChBuf(b, SplitStop(b, begin, end), det)
  {
    SplitPieceBounds(b, det, begin, end);
    TightLen(b);
  }

  /** On a tight buffer the elements for the text up to the end of the piece
      an iteration reads are those up to its start, followed by what the
      iteration pushes. */
  lemma SplitPiecePushed(b: seq<char>, det: char, begin: int, end: int)
    requires Tight(b) && SplitState(b, det, begin, end)
    ensures var s, stop := Chars(b), SplitStop(b, begin, end);
      -1 <= begin < stop <= |s| &&
      SplitBufs(s[..stop], det)
        == (if begin == -1 then [] else SplitBufs(s[..begin], det)) + [SplitTemp(b, det, begin, end)]
  {
    var s, stop := Chars(b), SplitStop(b, begin, end);
    SplitPieceBounds(b, det, begin, end);
    PieceShapeOf(b, det, begin, end);
    SplitIteration(b, det, begin, end);
    SplitBufsStep(s, det, begin, stop);
  }

  /** The elements for the text up to a piece's end are those for the text
      up to its start, followed by the piece. */
  lemma SplitBufsStep(s: CText, det: char, begin: int, stop: int)
    requires det != '\0' && -1 <= begin < stop <= |s|
    requires det !in s[begin + 1..stop] && (begin >= 0 ==> s[begin] == det)
    ensures SplitBufs(s[..stop], det)
      == (if begin == -1 then [] else SplitBufs(s[..begin], det)) + [Of(s[begin + 1..stop])]
  {
    if begin == -1 {
      SplitBufsFirst(s, det, stop);
    } else {
      SplitBufsNext(s, det, begin, stop);
    }
  }

  lemma SplitBufsFirst(s: CText, det: char, stop: nat)
    requires det != '\0' && stop <= |s| && det !in s[..stop]
    ensures SplitBufs(s[..stop], det) == [Of(s[..stop])]
  {
    SplitNoDelimiter(s[..stop], det);
  }

  lemma SplitBufsNext(s: CText, det: char, begin: nat, stop: nat)
    requires det != '\0' && begin < stop <= |s|
    requires det !in s[begin + 1..stop] && s[begin] == det
    ensures SplitBufs(s[..stop], det) == SplitBufs(s[..begin], det) + [Of(s[begin + 1..stop])]
  {
    var x: CText, y: CText := s[..begin], s[begin + 1..stop];
    assert s[..stop] == x + [det] + y;
    SplitAppend(x, y, det);
  }
}
