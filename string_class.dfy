/** The class `String` of AsynchronusGetServer/string.cpp: a heap `char`
    buffer `str` of `stringSize` cells whose last cell is NUL. Each
    operation is proved against the buffer functions of `StringValue`. A
    C++ `String` is a value: a copy never shares its buffer, so results
    here are fresh objects with fresh buffers. */
module StringClass {
  import opened Common
  import opened Delimited
  import opened StringValue

  class String {
    var str: array<char>
    var stringSize: int

    /** The class invariant: the buffer has `stringSize >= 1` cells and
        the last one is NUL. */
    ghost predicate Valid()
      reads this, str
    {
      str.Length == stringSize && WellFormed(str[..])
    }

    /** The contents of the buffer. */
    function Buf(): seq<char>
      reads this, str
    {
      str[..]
    }

    /** `String()` (string.cpp:13-18): the empty string. */
    constructor Empty()
      ensures Valid() && Buf() == Blank(0) && fresh(str)
    {
      var a := new char[1];
      a[0] := '\0';
      stringSize := 1;
      str := a;
    }

    /** `String(int x)` (string.cpp:21-26): the empty string with room for
        `x` characters. A negative `x` leaves no cell for the NUL
        (`x == -1` allocates `new char[0]`) or fails (`x < -1`); no caller
        passes one. */
    constructor WithCapacity(x: int)
      requires x >= 0
      ensures Valid() && Buf() == Blank(x) && fresh(str)
    {
      var a := new char[x + 1];
      for i := 0 to x + 1
        invariant forall k :: 0 <= k < i ==> a[k] == '\0'
      {
        a[i] := '\0';
      }
      stringSize := x + 1;
      str := a;
    }

    /** `String(char x)` (string.cpp:29-39): capacity 1 holding `x`, or the
        empty string of capacity 0 for NUL. */
    constructor FromChar(x: char)
      ensures Valid() && Buf() == CharBuf(x) && fresh(str)
    {
      var a := new char[2];
      for i := 0 to 2
        invariant forall k :: 0 <= k < i ==> a[k] == '\0'
      {
        a[i] := '\0';
      }
      stringSize := 2;
      str := a;
      new;
      if x == '\0' {
        ResetCapacity(0);
      } else {
        str[0] := x;
      }
    }

    /** `String(const char x[])` (string.cpp:42-55): the characters of `x`
        before its NUL, with no spare capacity. */
    constructor FromCStr(x: seq<char>)
      requires '\0' in x
      ensures Valid() && Buf() == FromCStrBuf(x) && fresh(str)
    {
      ghost var t := CStr(x);
      assert x[..|t|] == t && x[|t|] == '\0';
      var counter := 0;
      while x[counter] != '\0'
        invariant 0 <= counter <= |t|
        decreases |t| - counter
      {
        counter := counter + 1;
      }
      assert counter == |t| by {
        assert forall i :: 0 <= i < |t| ==> x[i] == t[i];
      }
      var a := new char[counter + 1];
      a[counter] := '\0';
      for i := 0 to counter
        invariant a[counter] == '\0'
        invariant a[..i] == t[..i]
      {
        assert x[i] == t[i];
        if x[i] == '\0' {
          break;
        }
        a[i] := x[i];
      }
      stringSize := counter + 1;
      str := a;
      assert a[..] == a[..counter] + [a[counter]];
    }

    /** `String(int N, const char x[])` (string.cpp:59-67): capacity `N`
        holding the first `N` cells of `x`. It reads `x[0..N)`, so `N` may
        not exceed the array, and `x` must hold a NUL for its length count. */
    constructor WithCapacityFrom(n: int, x: seq<char>)
      requires 0 <= n <= |x| && '\0' in x
      ensures Valid() && Buf() == WithCapacityFromBuf(n, x) && fresh(str)
    {
      var a := new char[n + 1];
      for i := 0 to n + 1
        invariant forall k :: 0 <= k < i ==> a[k] == '\0'
      {
        a[i] := '\0';
      }
      var counter := 0;
      while x[counter] != '\0'
        invariant 0 <= counter <= |CStr(x)| && x[..counter] == CStr(x)[..counter]
        decreases |CStr(x)| - counter
      {
        counter := counter + 1;
      }
      for i := 0 to n
        invariant a[n] == '\0'
        invariant a[..i] == x[..i]
      {
        a[i] := x[i];
      }
      stringSize := n + 1;
      str := a;
      assert a[..] == a[..n] + [a[n]];
    }

    /** The copy constructor (string.cpp:70-78). */
    constructor Copy(x: String)
      requires x.Valid()
      ensures Valid() && Buf() == x.Buf() && fresh(str)
    {
      var a := new char[x.stringSize];
      for i := 0 to x.stringSize
        invariant a[..i] == x.str[..i]
      {
        a[i] := x.str[i];
      }
      stringSize := x.stringSize;
      str := a;
    }

    /** `operator=` (string.cpp:121-134). The right-hand side is passed by
        value, so its copy never shares this buffer and the copy always
        happens. */
    method Assign(rhs: String)
      requires Valid() && rhs.Valid()
      modifies this
      ensures Valid() && Buf() == old(rhs.Buf()) && fresh(str)
    {
      var copy := new String.Copy(rhs);
      assert str != copy.str;
      if str != copy.str {
        var a := new char[copy.stringSize];
        for i := 0 to copy.stringSize
          modifies a
          invariant a[..i] == copy.str[..i]
        {
          a[i] := copy.str[i];
        }
        assert a[..] == copy.Buf();
        stringSize := copy.stringSize;
        str := a;
      }
    }

    /** `operator+` (string.cpp:143-155): this buffer without its last cell,
        then the whole right-hand buffer. */
    method Concat(rhs: String) returns (result: String)
      requires Valid() && rhs.Valid()
      ensures result.Valid() && result.Buf() == ConcatBuf(Buf(), rhs.Buf())
      ensures fresh(result) && fresh(result.str)
    {
      result := new String.WithCapacity(stringSize + rhs.stringSize - 2);
      var offset := stringSize - 1;
      result.Write(0, str[..]);
      result.Write(offset, rhs.str[..]);
      assert result.str[..] == str[..offset] + rhs.str[..];
    }

    /** One copying loop of `operator+`: `src` written into the buffer
        from position `at` on, the other cells left as they were. */
    method Write(at: int, src: seq<char>)
      requires 0 <= at && at + |src| <= str.Length
      modifies str
      ensures str[..at] == old(str[..at])
      ensures str[at..at + |src|] == src
      ensures str[at + |src|..] == old(str[at + |src|..])
    {
      for i := 0 to |src|
        invariant str[..at] == old(str[..at])
        invariant str[at..at + i] == src[..i]
        invariant str[at + |src|..] == old(str[at + |src|..])
      {
        str[at + i] := src[i];
      }
    }

    /** `operator+=` (string.cpp:161-165). */
    method ConcatAssign(rhs: String)
      requires Valid() && rhs.Valid()
      modifies this
      ensures Valid() && Buf() == ConcatBuf(old(Buf()), old(rhs.Buf()))
    {
      var sum := Concat(rhs);
      Assign(sum);
    }

    /** `operator==` (string.cpp:168-185): the cells agree up to the
        shorter buffer. */
    method EqualTo(rhs: String) returns (equal: bool)
      requires Valid() && rhs.Valid()
      ensures equal == EqualBuf(Buf(), rhs.Buf())
    {
      equal := true;
      var index := 0;
      var m := if stringSize < rhs.stringSize then stringSize else rhs.stringSize;
      while equal && (index < stringSize && index < rhs.stringSize)
        invariant 0 <= index <= m
        invariant equal ==> str[..index] == rhs.str[..index]
        invariant !equal ==> index >= 1 && str[index - 1] != rhs.str[index - 1]
      {
        if rhs.str[index] == str[index] {
          equal := true;
        } else if rhs.str[index] != str[index] {
          equal := false;
        }
        index := index + 1;
      }
      if !equal {
        assert str[..m][index - 1] != rhs.str[..m][index - 1];
      }
    }

    /** `swap` (string.cpp:243-251): exchanges the sizes and the buffer
        pointers, and touches no buffer. */
    method Swap(rhs: String)
      requires Valid() && rhs.Valid()
      modifies this, rhs
      ensures Valid() && rhs.Valid()
      ensures stringSize == old(rhs.stringSize) && str == old(rhs.str)
      ensures rhs.stringSize == old(stringSize) && rhs.str == old(str)
      ensures Buf() == old(rhs.Buf()) && rhs.Buf() == old(Buf())
    {
      var tStrSize := rhs.stringSize;
      rhs.stringSize := stringSize;
      stringSize := tStrSize;
      var temp := rhs.str;
      rhs.str := str;
      str := temp;
    }

    /** `capacity()` (string.cpp:254): never less than the length. */
    function Capacity(): (c: int)
      requires Valid()
      reads this, str
      ensures c == |Buf()| - 1 && 0 <= Len(Buf()) <= c
    {
      stringSize - 1
    }

    /** `resetCapacity(x)` (string.cpp:257-260): `*this = String(x, str)`.
        It reads `str[0..x)`, so `x` may not exceed the buffer. */
    method ResetCapacity(x: int)
      requires Valid() && 0 <= x <= stringSize
      modifies this
      ensures Valid() && Buf() == WithCapacityFromBuf(x, old(Buf())) && fresh(str)
    {
      var t := new String.WithCapacityFrom(x, str[..]);
      Assign(t);
    }

    /** `length()` (string.cpp:263-268): the index of the first NUL. */
    method Length() returns (n: int)
      requires Valid()
      ensures n == Len(Buf())
    {
      var counter := 0;
      while str[counter] != '\0'
        invariant 0 <= counter <= Len(Buf())
        decreases Len(Buf()) - counter
      {
        counter := counter + 1;
      }
      n := counter;
    }

    /** `substr(start, end)` (string.cpp:271-284), `end` inclusive. A
        negative `start` not beyond `end` would index before the buffer. */
    method Substr(start: int, end: int) returns (result: String)
      requires Valid() && (start > end || 0 <= start)
      ensures result.Valid() && result.Buf() == SubstrBuf(Buf(), start, end)
      ensures fresh(result)
    {
      if start > end {
        result := new String.FromChar('\0');
        return;
      }
      var last := end;
      var n := Length();
      if last >= n {
        last := n - 1;
      }
      n := Length();
      if start >= n {
        result := new String.FromChar('\0');
        return;
      }
      SubstrCut(Buf(), start, end, last);
      result := CopyOut(start, last);
    }

    /** The copying loop of `substr`: a fresh string of capacity
        `last - start + 1` holding the characters `start..last`. */
    method CopyOut(start: int, last: int) returns (result: String)
      requires Valid() && 0 <= start <= last < Len(Buf())
      ensures fresh(result) && result.Valid()
      ensures result.Buf() == str[start..last + 1] + ['\0']
    {
      result := new String.WithCapacity(last - start + 1);
      result.Write(0, str[start..last + 1]);
      assert result.str[..] == result.str[..last - start + 1] + [result.str[last - start + 1]];
    }

    /** `findch(pos, ch)` (string.cpp:287-297). */
    method FindCh(pos: int, ch: char) returns (r: int)
      requires Valid()
      ensures r == FindChBuf(Buf(), pos, ch)
    {
      var p := if pos < 0 then 0 else pos;
      var i := p;
      while i < stringSize
        invariant p <= i && (i <= stringSize || i == p)
        invariant forall k :: p <= k < i ==> str[k] != ch
      {
        if str[i] == ch {
          return i;
        }
        i := i + 1;
      }
      return -1;
    }

    /** `findstr(pos, p)` (string.cpp:301-322) as written. A negative `pos`
        would index before the buffer. */
    method FindStr(pos: int, p: String) returns (r: int)
      requires Valid() && p.Valid() && pos >= 0
      ensures r == FindStrBuf(Buf(), pos, p.Buf())
    {
      var isPresent := false;
      var i := pos;
      while i < stringSize
        invariant pos <= i && (i <= stringSize || i == pos)
        invariant forall k :: pos <= k < i ==> !AcceptedAt(Buf(), p.Buf(), k)
      {
        if str[i] == p.str[0] {
          var n := p.Length();
          var j := 0;
          while j < n
            invariant 0 <= j <= n
            invariant AcceptedAt(Buf(), p.Buf(), i) ==> j <= n - 1
          {
            if i + j >= stringSize {
              break;
            }
            if str[i + j] != p.str[j] {
              isPresent := false;
            } else {
              isPresent := true;
            }
            if isPresent && j == n - 1 {
              assert AcceptedAt(Buf(), p.Buf(), i);
              FindStrBufLeast(Buf(), pos, p.Buf(), i);
              return i;
            }
            j := j + 1;
          }
        }
        i := i + 1;
      }
      return -1;
    }

    /** `findstr` with every character of the pattern compared. */
    method FindStrFixed(pos: int, p: String) returns (r: int)
      requires Valid() && p.Valid() && pos >= 0
      ensures r == FindStrIntended(Buf(), pos, p.Buf())
    {
      var n := p.Length();
      if n == 0 {
        return -1;
      }
      var i := pos;
      while i + n <= stringSize
        invariant pos <= i
        invariant forall k :: pos <= k < i ==> !OccursAt(Buf(), p.Buf(), k)
      {
        var j := 0;
        while j < n && str[i + j] == p.str[j]
          invariant 0 <= j <= n
          invariant str[i..i + j] == p.str[..j]
        {
          j := j + 1;
        }
        if j == n {
          assert p.str[..n] == Chars(p.Buf());
          assert OccursAt(Buf(), p.Buf(), i);
          FindStrIntendedLeast(Buf(), pos, p.Buf(), i);
          return i;
        }
        assert str[i..i + n][j] != Chars(p.Buf())[j];
        i := i + 1;
      }
      return -1;
    }

    /** The string one iteration of `split(det)` pushes (string.cpp:335-338),
        with `end` after its adjustment. */
    method SplitPiece(det: char, begin: int, end: int) returns (temp: String, adjusted: int)
      requires Valid() && begin >= -1
      ensures adjusted == Adjusted(begin, end)
      ensures temp.Valid() && temp.Buf() == SplitTemp(Buf(), det, begin, end) && fresh(temp)
    {
      adjusted := end;
      if adjusted == begin + 1 {
        adjusted := adjusted + 1;
      }
      var text := SplitText(begin, adjusted);
      temp := text.UnlessChar(det);
    }

    /** `substr(begin + 1, end - 1)`, or the whole text when neither
        `begin` nor `end` was found (string.cpp:336-337). */
    method SplitText(begin: int, end: int) returns (temp: String)
      requires Valid() && begin >= -1
      ensures temp.Valid() && fresh(temp)
      ensures temp.Buf() == PieceText(Buf(), begin, end)
    {
      ghost var b := Buf();
      if begin == -1 && end == -1 {
        assert b[|b| - 1] in b;
        temp := new String.FromCStr(str[..]);
        assert temp.Buf() == FromCStrBuf(b);
      } else {
        temp := Substr(begin + 1, end - 1);
        assert temp.Buf() == SubstrBuf(b, begin + 1, end - 1);
      }
    }

    /** This string, or the empty string when it holds just `det`
        (string.cpp:338). */
    method UnlessChar(det: char) returns (temp: String)
      requires Valid()
      ensures temp.Valid() && temp.Buf() == Unless(Buf(), det)
      ensures temp == this || fresh(temp)
    {
      var d := new String.FromChar(det);
      var equal := EqualTo(d);
      if equal {
        temp := new String.FromChar('\0');
      } else {
        temp := this;
      }
    }

    /** The end of the piece after the delimiter at `begin`: the next
        delimiter, or `capacity()` (string.cpp:342-346). */
    method SplitEnd(det: char, begin: int) returns (end: int)
      requires Valid()
      ensures end == NextEnd(Buf(), det, begin)
    {
      end := FindCh(begin + 1, det);
      if end == -1 {
        end := Capacity();
      }
    }

    /** `split(det)` (string.cpp:326-350). The vector holds copies of the
        pushed strings, so the result is the sequence of their buffers. A
        NUL delimiter never lets the loop end, so it is excluded. For a
        string without spare capacity the result is one buffer per piece,
        empty pieces included. */
    method Split(det: char) returns (result: seq<seq<char>>)
      requires Valid() && det != '\0'
      ensures |result| >= 1 && AllWellFormed(result)
      ensures Tight(Buf()) ==> result == SplitBufs(Chars(Buf()), det)
    {
      ghost var B := Buf();
      var temp;
      result := [];
      var begin := -1;
      var end := FindCh(begin + 1, det);
      while true
        invariant Valid() && Buf() == B && SplitState(B, det, begin, end)
        invariant begin == -1 ==> result == []
        invariant AllWellFormed(result)
        invariant begin != -1 ==> |result| >= 1
        invariant Tight(B) && begin >= 0 ==> begin <= |Chars(B)| && result == SplitBufs(TextPrefix(Chars(B), begin), det)
        decreases |B| - begin
      {
        ghost var b, e := begin, end;
        SplitAdvance(B, det, b, e);
        if Tight(B) {
          SplitStep(B, det, b, e, result);
        }
        temp, end := SplitPiece(det, begin, end);
        AllWellFormedAppend(result, temp.Buf());
        result := result + [temp.Buf()];
        begin := FindCh(end - 1, det);
        assert begin == SplitNext(B, det, b, e);
        if begin == -1 {
          return;
        }
        end := SplitEnd(det, begin);
      }
    }
  }

  /** Every buffer satisfies the class invariant. */
  predicate AllWellFormed(r: seq<seq<char>>)
  {
    forall i :: 0 <= i < |r| ==> WellFormed(r[i])
  }

  lemma AllWellFormedAppend(r: seq<seq<char>>, x: seq<char>)
    requires AllWellFormed(r) && WellFormed(x)
    ensures AllWellFormed(r + [x])
  {
  }

  /** On a tight buffer the loop's next `begin` is the end of the piece just
      read, or -1 at the end of the text. */
  lemma SplitNextIsStop(b: seq<char>, det: char, begin: int, end: int)
    requires Tight(b) && SplitState(b, det, begin, end)
    ensures SplitNext(b, det, begin, end) == -1 || SplitNext(b, det, begin, end) == SplitStop(b, begin, end)
  {
    SplitNextFromStop(b, det, begin, end);
    SplitPieceBounds(b, det, begin, end);
    TightLen(b);
  }

  /** One iteration on a tight buffer: the elements so far followed by the
      piece pushed are the elements for the text up to the next `begin`, or
      for the whole text when there is none. */
  lemma SplitStep(b: seq<char>, det: char, begin: int, end: int, result: seq<seq<char>>)
    requires Tight(b) && SplitState(b, det, begin, end)
    requires begin == -1 ==> result == []
    requires begin >= 0 ==> begin <= |Chars(b)| && result == SplitBufs(TextPrefix(Chars(b), begin), det)
    ensures var n, r := SplitNext(b, det, begin, end), result + [SplitTemp(b, det, begin, end)];
      (n >= 0 ==> n <= |Chars(b)| && r == SplitBufs(TextPrefix(Chars(b), n), det)) && (n == -1 ==> r == SplitBufs(Chars(b), det))
  {
    SplitPiecePushed(b, det, begin, end);
    SplitNextIsStop(b, det, begin, end);
    if SplitNext(b, det, begin, end) == -1 {
      SplitDone(b, det, begin, end);
    }
  }

  /** When no delimiter follows the piece just read, that piece was the last. */
  lemma SplitDone(b: seq<char>, det: char, begin: int, end: int)
    requires Tight(b) && SplitState(b, det, begin, end)
    requires SplitNext(b, det, begin, end) == -1
    ensures Chars(b)[..SplitStop(b, begin, end)] == Chars(b)
  {
    SplitPieceBounds(b, det, begin, end);
    SplitNextFromStop(b, det, begin, end);
  }
}
