/** Request-target resolution: `parse_get` of the std::string servers
    (QT_GETServer/server.cpp:210-231, AsynchronusGetServer/server.cpp:191-212)
    and `parseGet` of the `String` servers
    (AsynchronusGetServer/async_server.cpp:159-180,
    AsynchronusGetServer/asyncserver.cpp:135-156). Both take the request as
    a C string, so the text after a NUL never reaches them. Both read the
    second word of the first line; they differ in what counts as a word. */
module Resolve {
  import opened Common
  import opened StdString
  import opened Delimited
  import opened Tokenizer
  import opened StringValue

  const Invalid: seq<char> := "invalid"
  const Root: seq<char> := "html/"
  const Index: seq<char> := "index.html"

  /** `w` without its first character (`substr(1)`), empty when nothing is left. */
  function Tail(w: seq<char>): (r: seq<char>)
    ensures |w| >= 1 ==> r == w[1..]
    ensures |w| <= 1 ==> r == []
  {
    if |w| <= 1 then [] else w[1..]
  }

  /** The file an URL path remainder names: itself, or `index.html` for the
      empty remainder. */
  function Resolved(name: seq<char>): (r: seq<char>)
    ensures |r| > 0
    ensures name != [] ==> r == name
    ensures name == [] ==> r == Index
  {
    if name == [] then Index else name
  }

  /** The path both versions derive from the words of the request line:
      the second word without its leading `/`, under `html/`; "invalid"
      when the line has fewer than two words. */
  function Target(words: seq<seq<char>>): (path: seq<char>)
    ensures path == Invalid <==> |words| < 2
    ensures |words| >= 2 ==> path == Root + Resolved(Tail(words[1]))
  {
    if |words| > 1 then
      var path := Root + Resolved(Tail(words[1]));
      assert path[0] != Invalid[0];
      path
    else Invalid
  }

  /** `parse_get(buff)`: `split_string` by newline, then by space, on the
      first line. The code indexes `reqLines[0]` unconditionally, so the
      request must have a line token. */
  function ParseGet(buff: CText): (path: seq<char>)
    requires Tokens(buff, '\n') != []
    ensures path == Target(Tokens(Tokens(buff, '\n')[0], ' '))
  {
    var words := Tokens(Tokens(buff, '\n')[0], ' ');
    TokensSound(Tokens(buff, '\n')[0], ' ');
    if |words| > 1 then
      assert words[1] in words;
      var fileName := words[1][1..];
      if fileName == "" then Root + Index else Root + fileName
    else Invalid
  }

  /** `String(buff).split('\n')[0]`: the text before the first newline. */
  function FirstLineBuf(buff: CText): (line: seq<char>)
    ensures Tight(line) && Chars(line) == Pieces(buff, '\n')[0]
  {
    SplitBufs(buff, '\n')[0]
  }

  /** `s.substr(1, s.length())`: the text without its first character. */
  function DropFirst(w: seq<char>): (r: seq<char>)
    requires Tight(w)
    ensures Tight(r) && Chars(r) == Tail(Chars(w))
  {
    SubstrBuf(w, 1, Len(w))
  }

  const EmptyBuf: seq<char> := Of([])
  const IndexBuf: seq<char> := Of(Index)

  /** Comparing with `""` tests for the empty text. */
  lemma EmptyTest(f: seq<char>)
    requires Tight(f)
    ensures EqualBuf(f, EmptyBuf) <==> Chars(f) == []
    ensures Tight(IndexBuf) && Chars(IndexBuf) == Index
  {
    EqualTight(f, EmptyBuf);
  }

  /** `fileName == "" ? "index.html" : fileName` on buffers. */
  function OrIndex(f: seq<char>): (r: seq<char>)
    requires Tight(f)
    ensures Tight(r) && Chars(r) == Resolved(Chars(f))
  {
    EmptyTest(f);
    if EqualBuf(f, EmptyBuf) then IndexBuf else f
  }

  /** `"html/" + name` on buffers. */
  function UnderRoot(name: seq<char>): (r: seq<char>)
    requires Tight(name)
    ensures Tight(r) && Chars(r) == Root + Chars(name)
  {
    ConcatTight(Of(Root), name);
    ConcatBuf(Of(Root), name)
  }

  /** `parseGet(buff)` of the `String` servers, on buffers: `String(buff)`
      splits into all its pieces, empty ones included, so its words are
      the space-pieces of the first newline-piece. No precondition: there
      is always at least one piece. */
  function ParseGetString(buff: CText): (path: seq<char>)
    ensures Tight(path) && Chars(path) == Target(Pieces(Pieces(buff, '\n')[0], ' '))
  {
    var words := SplitBufs(Chars(FirstLineBuf(buff)), ' ');
    if |words| > 1 then
      ghost var w := Pieces(Pieces(buff, '\n')[0], ' ')[1];
      assert Chars(words[1]) == w;
      UnderRoot(OrIndex(DropFirst(words[1])))
    else Of(Invalid)
  }

  /** `parse_get` on an empty request has no line to index: there is no
      line token, while the `String` version answers "invalid". */
  lemma EmptyRequest()
    ensures Tokens([], '\n') == []
    ensures ParseGetString([]) == Of(Invalid)
  {
    TokensSingle([], '\n');
    assert At0([]) == '\0';
    assert Pieces(Pieces([], '\n')[0], ' ') == [[]];
    TightLen(ParseGetString([]));
  }

  /** A non-empty run of characters without space, newline or NUL. */
  predicate Word(w: seq<char>)
  {
    |w| > 0 && ' ' !in w && '\n' !in w && '\0' !in w
  }

  /** A request line `method SP target SP version`. */
  function RequestLine(m: seq<char>, t: seq<char>, v: seq<char>): seq<char>
  {
    m + " " + (t + " " + v)
  }

  /** A word is its own only token. */
  lemma WordToken(w: seq<char>)
    requires Word(w)
    ensures Tokens(w, ' ') == [w]
  {
    assert At0(w) == w[0];
    assert w[0] in w;
    TokensSingle(w, ' ');
  }

  /** Two delimiter-free strings joined by the delimiter. */
  lemma TwoPieces(x: seq<char>, y: seq<char>, d: char)
    requires d !in x && d !in y
    ensures Pieces(x + [d] + y, d) == [x, y]
  {
    PiecesAppend(x, y, d);
    PiecesSingle(x, d);
  }

  lemma LineTokens(m: seq<char>, t: seq<char>, v: seq<char>)
    requires Word(m) && Word(t) && Word(v)
    ensures Tokens(RequestLine(m, t, v), ' ') == [m, t, v]
  {
    var mt := m + [' '] + t;
    assert RequestLine(m, t, v) == mt + [' '] + v;
    assert Tokens(mt, ' ') == [m, t] by {
      TokensConcat(m, t, ' ');
      WordToken(m);
      WordToken(t);
    }
    assert Tokens(mt + [' '] + v, ' ') == [m, t] + [v] by {
      TokensConcat(mt, v, ' ');
      WordToken(v);
    }
  }

  lemma LinePieces(m: seq<char>, t: seq<char>, v: seq<char>)
    requires Word(m) && Word(t) && Word(v)
    ensures Pieces(RequestLine(m, t, v), ' ') == [m, t, v]
  {
    var mt := m + [' '] + t;
    assert RequestLine(m, t, v) == mt + [' '] + v;
    TwoPieces(m, t, ' ');
    PiecesAppend(mt, v, ' ');
  }

  /** A line starting with a word and followed by a newline is the first
      line token and the first line piece. */
  lemma FirstLine(m: seq<char>, tail: seq<char>, rest: seq<char>)
    requires Word(m) && '\n' !in tail
    ensures var line := m + " " + tail;
      var buff := line + "\n" + rest;
      Tokens(buff, '\n') != [] && Tokens(buff, '\n')[0] == line && Pieces(buff, '\n')[0] == line
  {
    var line := m + " " + tail;
    assert At0(line) == m[0];
    assert line[|m|] == ' ';
    assert line == m + [' '] + tail;
    TokensConcat(line, rest, '\n');
    TokensSingle(line, '\n');
    PiecesConcat(line, rest, '\n');
    PiecesSingle(line, '\n');
  }

  /** Both versions on a request whose first line starts with a word: the
      target computed from that line's tokens, resp. pieces. */
  lemma RequestOfLine(m: seq<char>, tail: seq<char>, rest: seq<char>)
    requires Word(m) && '\n' !in tail && '\0' !in tail && '\0' !in rest
    ensures var line := m + " " + tail;
      var buff: CText := line + "\n" + rest;
      Tokens(buff, '\n') != [] &&
      ParseGet(buff) == Target(Tokens(line, ' ')) &&
      Chars(ParseGetString(buff)) == Target(Pieces(line, ' '))
  {
    FirstLine(m, tail, rest);
  }

  /** For a well-formed request line both versions name the same file:
      the target without its leading character, or `index.html` for `/`. */
  lemma WellFormedRequest(m: seq<char>, t: seq<char>, v: seq<char>, rest: CText)
    requires Word(m) && Word(t) && Word(v)
    ensures var buff: CText := RequestLine(m, t, v) + "\n" + rest;
      Tokens(buff, '\n') != [] &&
      ParseGet(buff) == Root + Resolved(t[1..]) &&
      Chars(ParseGetString(buff)) == ParseGet(buff)
  {
    RequestOfLine(m, t + " " + v, rest);
    LineTokens(m, t, v);
    LinePieces(m, t, v);
  }

  lemma DoubleSpaceWords(m: seq<char>, t: seq<char>, v: seq<char>)
    requires Word(m) && Word(t) && Word(v)
    ensures Tokens(m + " " + RequestLine([], t, v), ' ') == [m, t, v]
  {
    var tv := t + [' '] + v;
    assert m + " " + RequestLine([], t, v) == (m + [' '] + []) + [' '] + tv;
    assert Tokens(m + [' '] + [], ' ') == [m] by {
      TokensConcat(m, [], ' ');
      WordToken(m);
      TokensSingle([], ' ');
      assert At0([]) == '\0';
    }
    assert Tokens(tv, ' ') == [t, v] by {
      TokensConcat(t, v, ' ');
      WordToken(t);
      WordToken(v);
    }
    TokensConcat(m + [' '] + [], tv, ' ');
  }

  lemma DoubleSpacePieces(m: seq<char>, t: seq<char>, v: seq<char>)
    requires Word(m) && Word(t) && Word(v)
    ensures Pieces(m + " " + RequestLine([], t, v), ' ') == [m, [], t, v]
  {
    var tv := t + [' '] + v;
    assert m + " " + RequestLine([], t, v) == (m + [' '] + []) + [' '] + tv;
    assert Pieces(m + [' '] + [], ' ') == [m, []] by {
      TwoPieces(m, [], ' ');
    }
    assert Pieces(tv, ' ') == [t, v] by {
      TwoPieces(t, v, ' ');
    }
    PiecesConcat(m + [' '] + [], tv, ' ');
  }

  /** Two spaces after the method: `split_string` skips the empty word,
      `String::split` keeps it, so the `String` servers answer with the
      index page whatever the target. */
  lemma DoubleSpaceRequest(m: seq<char>, t: seq<char>, v: seq<char>, rest: CText)
    requires Word(m) && Word(t) && Word(v)
    ensures var buff: CText := m + " " + RequestLine([], t, v) + "\n" + rest;
      Tokens(buff, '\n') != [] &&
      ParseGet(buff) == Root + Resolved(t[1..]) &&
      Chars(ParseGetString(buff)) == Root + Index
  {
    var line := m + " " + RequestLine([], t, v);
    RequestOfLine(m, RequestLine([], t, v), rest);
    DoubleSpaceWords(m, t, v);
    DoubleSpacePieces(m, t, v);
    TargetOfWords(m, t, v);
  }

  lemma TargetOfWords(m: seq<char>, t: seq<char>, v: seq<char>)
    requires |t| > 0
    ensures Target([m, t, v]) == Root + Resolved(t[1..])
    ensures Target([m, [], t, v]) == Root + Index
  {
    var words: seq<seq<char>> := [m, [], t, v];
    assert words[1] == [];
  }

  /** Every path `parse_get` returns has a first `.`-token, which
      `formulate_response` reads unconditionally. */
  lemma ParseGetHasName(buff: CText)
    requires Tokens(buff, '\n') != []
    ensures Tokens(ParseGet(buff), '.') != []
  {
    var path := ParseGet(buff);
    assert path[0] == 'i' || path[0] == 'h';
    LeadingToken(path, '.');
  }

  /** A string whose first character is an ordinary one has a token. */
  lemma {:induction false} LeadingToken(s: seq<char>, d: char)
    requires |s| > 0 && s[0] != d && s[0] != '\0' && s[0] != ' '
    ensures Tokens(s, d) != []
    decreases |s|
  {
    if d in s {
      var k := LastIndex(s, d);
      assert s == s[..k] + [d] + s[k + 1..];
      TokensConcat(s[..k], s[k + 1..], d);
      LeadingToken(s[..k], d);
    } else {
      TokensSingle(s, d);
      assert At0(s) == s[0];
    }
  }
}
