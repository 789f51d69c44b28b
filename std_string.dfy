/** The parts of `std::string` and `size_t` that the tokenizers rely on.
    `size_t` is 64 bits wide, and `npos` (written `-1` in the source) is its
    largest value. */
module StdString {

  const NPOS: nat := 0xFFFF_FFFF_FFFF_FFFF

  /** A `size_t` value. */
  type Word = x: nat | x <= NPOS

  /** `x + 1` in `size_t`: `npos + 1` wraps to 0. */
  function Inc(x: Word): (r: Word)
    ensures r == (x + 1) % (NPOS + 1)
  {
    if x == NPOS then 0 else x + 1
  }

  /** `x - 1` in `size_t`: `0 - 1` wraps to `npos`. */
  function Dec(x: Word): (r: Word)
    ensures (r + 1) % (NPOS + 1) == x
  {
    if x == 0 then NPOS else x - 1
  }

  /** `a - b` in `size_t`. */
  function Minus(a: Word, b: Word): (r: Word)
    ensures (r + b) % (NPOS + 1) == a
  {
    if a >= b then a - b else a + (NPOS + 1) - b
  }

  /** `s.find(c, pos)`: the first index at or after `pos` holding `c`, else `npos`. */
  function FindChar(s: seq<char>, c: char, pos: Word): (r: Word)
    requires |s| < NPOS
    ensures r == NPOS <==> forall i :: pos <= i < |s| ==> s[i] != c
    ensures r != NPOS ==> pos <= r < |s| && s[r] == c
    ensures r != NPOS ==> forall i :: pos <= i < r ==> s[i] != c
    decreases |s| - pos
  {
    if pos >= |s| then NPOS
    else if s[pos] == c then pos
    else FindChar(s, c, pos + 1)
  }

  predicate OccursAt(s: seq<char>, t: seq<char>, i: int)
  {
    0 <= i && i + |t| <= |s| && s[i..i + |t|] == t
  }

  /** `s.find(t, pos)` for a non-empty `t`: the first index at or after `pos`
      where `t` occurs, with -1 standing for `npos`. */
  function FindSub(s: seq<char>, t: seq<char>, pos: nat): (r: int)
    requires |t| > 0
    ensures r == -1 <==> forall i :: pos <= i ==> !OccursAt(s, t, i)
    ensures r != -1 ==> pos <= r && OccursAt(s, t, r)
    ensures r != -1 ==> forall i :: pos <= i < r ==> !OccursAt(s, t, i)
    decreases |s| - pos
  {
    if pos + |t| > |s| then -1
    else if s[pos..pos + |t|] == t then assert OccursAt(s, t, pos); pos
    else FindSub(s, t, pos + 1)
  }

  /** `s.substr(pos, len)`; `pos > s.size()` throws, so the caller must exclude it. */
  function Substr(s: seq<char>, pos: Word, len: Word): (r: seq<char>)
    requires pos <= |s|
    ensures |r| == if len < |s| - pos then len else |s| - pos
    ensures r == s[pos..pos + |r|]
  {
    s[pos..pos + (if len < |s| - pos then len else |s| - pos)]
  }

  /** `t[0]`: for an empty string this is the terminating NUL. */
  function At0(t: seq<char>): char
  {
    if |t| == 0 then '\0' else t[0]
  }
}
