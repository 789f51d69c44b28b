/** Values shared by every part of the model: optional results, bytes,
    C strings and the decimal rendering that `sprintf("%d")` produces. */
module Common {

  datatype Option<+T> = None | Some(value: T)

  /** An `unsigned char` of a file's contents. */
  newtype byte = x: int | 0 <= x < 256

  /** The characters of a C string: everything before its terminating NUL. */
  type CText = s: seq<char> | '\0' !in s

  /** What a `const char*` conversion keeps of a character buffer:
      the characters before the first NUL. */
  function CStr(s: seq<char>): (r: CText)
    ensures r <= s
    ensures |r| < |s| ==> s[|r|] == '\0'
    ensures '\0' in s ==> |r| < |s|
  {
    if s == [] || s[0] == '\0' then [] else [s[0]] + CStr(s[1..])
  }

  lemma CStrOfCText(s: CText)
    ensures CStr(s) == s
  {
  }

  /** A file's bytes read as `char`s. */
  function BytesToChars(b: seq<byte>): (r: seq<char>)
    ensures |r| == |b|
    ensures forall i :: 0 <= i < |b| ==> r[i] as int == b[i] as int
  {
    seq(|b|, i requires 0 <= i < |b| => (b[i] as int) as char)
  }

  predicate IsDigit(c: char) { '0' <= c <= '9' }

  function Digit(d: nat): (c: char)
    requires d < 10
    ensures IsDigit(c) && c as int - '0' as int == d
  {
    ('0' as int + d) as char
  }

  /** The text `sprintf_s(buf, "%d", n)` writes for a non-negative `n`. */
  function Decimal(n: nat): (r: seq<char>)
    ensures |r| >= 1
    ensures forall i :: 0 <= i < |r| ==> IsDigit(r[i])
    ensures r[0] == '0' ==> n == 0
    decreases n
  {
    if n < 10 then [Digit(n)] else Decimal(n / 10) + [Digit(n % 10)]
  }

  /** The number a string of decimal digits denotes. */
  function ParseDecimal(s: seq<char>): nat
    requires forall i :: 0 <= i < |s| ==> IsDigit(s[i])
  {
    if s == [] then 0
    else assert IsDigit(s[|s| - 1]); ParseDecimal(s[..|s| - 1]) * 10 + (s[|s| - 1] as int - '0' as int)
  }

  lemma {:induction false} ParseDecimalRoundTrip(n: nat)
    ensures ParseDecimal(Decimal(n)) == n
    decreases n
  {
    if n >= 10 {
      var r := Decimal(n);
      assert r[..|r| - 1] == Decimal(n / 10);
      ParseDecimalRoundTrip(n / 10);
    }
  }

  lemma DecimalIsCText(n: nat)
    ensures '\0' !in Decimal(n)
  {
  }
}
