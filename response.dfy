/** Building the reply to a resolved path: `formulate_response` of the
    std::string servers (QT_GETServer/server.cpp:236-342,
    AsynchronusGetServer/server.cpp:217-317) and `formulateResponse` of the
    `String` servers (AsynchronusGetServer/async_server.cpp:182-262,
    AsynchronusGetServer/asyncserver.cpp:158-237). The four differ in the
    server name, the URL echoed by the 404 page, the binary file types, the
    tokenizer that finds the extension, how much of a text file reaches the
    reply and a constant added to the advertised length.

    The file system and the clock are parameters: `file` is the content of
    the requested file, `None` when it cannot be opened, and `date` is the
    text `ctime_s` produced. The `String` servers build the reply with
    `String` operations on tight buffers, which act on texts
    (`StringValue.ConcatTight`, `StringValue.EqualTight`,
    `StringValue.SplitBufs`), so the reply is stated on texts. */
module Response {
  import opened Common
  import opened Delimited
  import opened Tokenizer
  import opened Resolve
  import opened StdString

  /** The four servers. */
  datatype Variant =
    | Qt         // QT_GETServer/server.cpp
    | GetServer  // AsynchronusGetServer/server.cpp
    | Async      // AsynchronusGetServer/async_server.cpp
    | Prototype  // AsynchronusGetServer/asyncserver.cpp

  /** The servers built on the `String` class. */
  predicate UsesStringClass(v: Variant)
  {
    v == Async || v == Prototype
  }

  /** The returned tuple: the reply text, whether the file is sent as a
      second binary write, and the bytes of that write. */
  datatype Reply = Reply(text: seq<char>, isBinary: bool, payload: seq<byte>)

  /** The `Server :` header value. */
  function ServerName(v: Variant): seq<char>
  {
    if v == Qt then "Boost-Async-GET-Server" else "GetServer9000"
  }

  /** The `.`-separated parts of the path: `split_string` drops empty
      parts, `String::split` keeps them. */
  function DotParts(v: Variant, path: seq<char>): seq<seq<char>>
  {
    if UsesStringClass(v) then Pieces(path, '.') else Tokens(path, '.')
  }

  /** `vec[1]` when there is one, else the empty string. */
  function Extension(parts: seq<seq<char>>): seq<char>
  {
    if |parts| > 1 then parts[1] else []
  }

  /** The `Content - Type` value and the binary flag the if-chain sets. */
  function ContentType(v: Variant, ext: seq<char>): (r: (seq<char>, bool))
  {
    if ext == "html" then ("text / html", false)
    else if ext == "js" then ("text / javascript; charset=utf-8", false)
    else if ext == "css" then ("text / css", false)
    else if ext == "png" then ("image / png", true)
    else if ext == "ico" then ("image / png", true)
    else if ext == "jpg" && v != Prototype then ("image / jpeg", true)
    else if ext == "gif" && !UsesStringClass(v) then ("image / gif", true)
    else ("", false)
  }

  /** The extensions each server sends as binary. */
  function BinaryExtensions(v: Variant): set<seq<char>>
  {
    var images: set<seq<char>> := {"png", "ico"};
    match v
    case Qt => images + {"jpg", "gif"}
    case GetServer => images + {"jpg", "gif"}
    case Async => images + {"jpg"}
    case Prototype => images
  }

  /** The extensions each server names a content type for. */
  function KnownExtensions(v: Variant): set<seq<char>>
  {
    {"html", "js", "css"} + BinaryExtensions(v)
  }

  /** The binary flag is set exactly for the binary extensions, and a
      content type is named exactly for the known ones. */
  lemma ContentTypeClassifies(v: Variant, ext: seq<char>)
    ensures ContentType(v, ext).1 <==> ext in BinaryExtensions(v)
    ensures ContentType(v, ext).0 != [] <==> ext in KnownExtensions(v)
  {
  }

  /** The URL the 404 page echoes: the Qt server puts the extension back,
      `GetServer` leaves it off, and the `String` servers also put a space
      after the slash. */
  function Url(v: Variant, fileName: seq<char>, ext: seq<char>): seq<char>
  {
    match v
    case Qt => "/" + fileName + (if ext == [] then [] else "." + ext)
    case GetServer => "/" + fileName
    case _ => "/ " + fileName
  }

  const NotFoundStatus: seq<char> := "HTTP/1.1 404 Not Found\r\n"
  const OkStatus: seq<char> := "HTTP/1.1 200 OK\r\n"

  /** The `Date` and `Server` lines both replies start with. */
  function DateAndServer(v: Variant, date: CText): seq<char>
  {
    "Date: " + date + " EST\r\nServer : " + ServerName(v) + "\r\n"
  }

  const NotFoundFields: seq<char> :=
    "Content - Length : 230\r\nConnection : Closed\r\n" +
    "Content - Type : text / html; charset = iso - 8859 - 1\r\n\r\n"

  /** The header lines of the 404 reply. */
  function NotFoundHead(v: Variant, date: CText): seq<char>
  {
    NotFoundStatus + (DateAndServer(v, date) + NotFoundFields)
  }

  const PageBefore: seq<char> :=
    "<!DOCTYPE HTML>\r\n<html>\r\n<head>\r\n<title>404 Not Found</title>\r\n</head>\r\n<body>\r\n" +
    "<h1>Not Found</h1>\r\n<p>The requested URL "
  const PageAfter: seq<char> := " was not found on this server.</p>\r\n</body>\r\n</html>"

  /** The HTML page of the 404 reply. */
  function NotFoundPage(url: seq<char>): seq<char>
  {
    PageBefore + url + PageAfter
  }

  /** The header lines of the 200 reply after the status line, up to the
      binary lines. */
  function OkFields(v: Variant, date: CText, contentType: seq<char>): seq<char>
  {
    DateAndServer(v, date) + "Content - Type : " + contentType + "\r\nConnection: Closed\r\n"
  }

  /** The header lines of the 200 reply up to the binary lines. */
  function OkPrefix(v: Variant, date: CText, contentType: seq<char>): seq<char>
  {
    OkStatus + OkFields(v, date, contentType)
  }

  const BinaryLines: seq<char> := "accept-ranges: bytes\r\nContent-Transfer-Encoding: binary\r\n"
  const LengthLabel: seq<char> := "Content - Length : "
  const HeaderEnd: seq<char> := "\r\n\r\n"

  /** The length line and the blank line ending the header. */
  function LengthLine(n: nat): seq<char>
  {
    LengthLabel + Decimal(n) + HeaderEnd
  }

  /** The rest of the 200 header: the binary lines for a binary file, then
      the length line. */
  function OkTail(binary: bool, n: nat): seq<char>
  {
    (if binary then BinaryLines else []) + LengthLine(n)
  }

  /** What the `String` servers add to the advertised length. */
  function Slack(v: Variant): nat
  {
    if UsesStringClass(v) then 50 else 0
  }

  /** The text a text file contributes: all of it through `std::string`,
      the part before the first NUL through `String(contents.c_str())`. */
  function TextBody(v: Variant, contents: seq<byte>): seq<char>
  {
    var chars := BytesToChars(contents);
    if UsesStringClass(v) then CStr(chars) else chars
  }

  /** The number `sprintf_s` writes into the length field. */
  function AdvertisedLength(v: Variant, prefix: seq<char>, body: seq<char>, payload: seq<byte>): nat
  {
    |body| + |prefix| + |payload| + Slack(v)
  }

  /** The 200 reply: the header, the binary lines for a binary file, the
      length field, the blank line, then the text body. */
  function OkReply(v: Variant, date: CText, ext: seq<char>, contents: seq<byte>): (r: Reply)
  {
    var (contentType, binary) := ContentType(v, ext);
    Assemble(v, date, contentType, binary, contents)
  }

  /** The 200 reply for a content type and binary flag. */
  function Assemble(v: Variant, date: CText, contentType: seq<char>, binary: bool, contents: seq<byte>): (r: Reply)
  {
    var body := if binary then [] else TextBody(v, contents);
    var payload := if binary then contents else [];
    var prefix := OkPrefix(v, date, contentType);
    var n := AdvertisedLength(v, prefix, body, payload);
    Reply(prefix + OkTail(binary, n) + body, binary, payload)
  }

  /** `formulate_response(filePath)`. The std::string servers read `vec[0]`
      unconditionally, so their path must have a `.`-token; every path
      `parse_get` returns has one (`Resolve.ParseGetHasName`). */
  function Formulate(v: Variant, path: seq<char>, date: CText, file: Option<seq<byte>>): (r: Reply)
    requires UsesStringClass(v) || Tokens(path, '.') != []
    ensures r.isBinary ==> file.Some? && r.payload == file.value
    ensures !r.isBinary ==> r.payload == []
  {
    var parts := DotParts(v, path);
    var fileName := parts[0];
    var ext := Extension(parts);
    if path == Invalid then Reply([], false, [])
    else if file.None? then
      Reply(NotFoundHead(v, date) + NotFoundPage(Url(v, fileName, ext)), false, [])
    else OkReply(v, date, ext, file.value)
  }

  // ---------------------------------------------------------------------
  // Properties

  /** "invalid" gets the empty reply, whatever the file system holds. */
  lemma InvalidReply(v: Variant, date: CText, file: Option<seq<byte>>)
    requires UsesStringClass(v) || Tokens(Invalid, '.') != []
    ensures Formulate(v, Invalid, date, file) == Reply([], false, [])
  {
  }

  /** A missing file gets a text-only 404 reply that names the URL. */
  lemma NotFoundReply(v: Variant, path: seq<char>, date: CText)
    requires UsesStringClass(v) || Tokens(path, '.') != []
    requires path != Invalid
    ensures var r := Formulate(v, path, date, None);
      var parts := DotParts(v, path);
      !r.isBinary && r.payload == [] &&
      r.text[..|NotFoundStatus|] == NotFoundStatus &&
      r.text == NotFoundHead(v, date) + NotFoundPage(Url(v, parts[0], Extension(parts)))
  {
    var parts := DotParts(v, path);
    StartsWith(NotFoundStatus, DateAndServer(v, date) + NotFoundFields, NotFoundPage(Url(v, parts[0], Extension(parts))));
  }

  /** The 404 page is 173 characters plus the URL, so the fixed
      `Content - Length : 230` is right only for 57-character URLs. */
  lemma NotFoundPageLength(url: seq<char>)
    ensures |NotFoundPage(url)| == 173 + |url|
    ensures |NotFoundPage(url)| == 230 <==> |url| == 57
  {
    assert |PageBefore| == 121;
    assert |PageAfter| == 52;
  }

  /** A file path `html/<name>.<ext>` splits into the part before the dot
      and the extension, on every server. */
  lemma FilePathParts(v: Variant, head: seq<char>, ext: seq<char>)
    requires '.' !in head && '.' !in ext && Kept(head) && Kept(ext)
    ensures DotParts(v, head + "." + ext) == [head, ext]
  {
    if UsesStringClass(v) {
      FilePathPieces(head, ext);
    } else {
      FilePathTokens(head, ext);
    }
  }

  lemma FilePathPieces(head: seq<char>, ext: seq<char>)
    requires '.' !in head && '.' !in ext
    ensures Pieces(head + "." + ext, '.') == [head, ext]
  {
    assert head + "." + ext == head + ['.'] + ext;
    PiecesAppend(head, ext, '.');
    PiecesSingle(head, '.');
  }

  lemma FilePathTokens(head: seq<char>, ext: seq<char>)
    requires '.' !in head && '.' !in ext && Kept(head) && Kept(ext)
    ensures Tokens(head + "." + ext, '.') == [head, ext]
  {
    assert head + "." + ext == head + ['.'] + ext;
    TokensConcat(head, ext, '.');
    TokensSingle(head, '.');
    TokensSingle(ext, '.');
  }

  /** A name without a dot stays without one under the root. */
  lemma UnderRootNoDot(name: seq<char>)
    requires '.' !in name
    ensures '.' !in Root + name && Kept(Root + name)
  {
    var head := Root + name;
    assert forall i :: 0 <= i < |head| ==> head[i] == (if i < |Root| then Root[i] else name[i - |Root|]);
    assert head[0] == 'h';
  }

  /** The URL each server echoes for a file path `<head>.<ext>`, such as
      `html/<name>.<ext>` (`UnderRootNoDot`). */
  lemma NotFoundUrl(v: Variant, head: seq<char>, ext: seq<char>)
    requires '.' !in head && '.' !in ext && Kept(head) && Kept(ext)
    ensures var path := head + "." + ext;
      var parts := DotParts(v, path);
      |parts| == 2 &&
      Url(v, parts[0], Extension(parts)) ==
        match v
        case Qt => "/" + path
        case GetServer => "/" + head
        case _ => "/ " + head
  {
    FilePathParts(v, head, ext);
    assert ext != [];
    assert "/" + head + ("." + ext) == "/" + (head + "." + ext);
  }

  /** A path with two dots, such as `html/jquery.min.js`: the parts are the
      three names, the extension is the middle one, the Qt server echoes
      the path up to the second dot and the others only the part before the
      first. A middle name that is not a known extension gets an empty
      content type, and the reply is not binary. */
  lemma NotFoundUrlTwoDots(v: Variant, head: seq<char>, mid: seq<char>, ext: seq<char>)
    requires '.' !in head && '.' !in mid && '.' !in ext
    requires Kept(head) && Kept(mid) && Kept(ext)
    ensures var parts := DotParts(v, head + "." + mid + "." + ext);
      parts == [head, mid, ext] && Extension(parts) == mid &&
      Url(v, parts[0], Extension(parts)) ==
        match v
        case Qt => "/" + head + "." + mid
        case GetServer => "/" + head
        case _ => "/ " + head
    ensures mid !in KnownExtensions(v) ==> ContentType(v, mid) == ("", false)
  {
    TwoDotsParts(v, head, mid, ext);
    assert mid != [];
    ContentTypeClassifies(v, mid);
  }

  lemma TwoDotsParts(v: Variant, head: seq<char>, mid: seq<char>, ext: seq<char>)
    requires '.' !in head && '.' !in mid && '.' !in ext
    requires Kept(head) && Kept(mid) && Kept(ext)
    ensures DotParts(v, head + "." + mid + "." + ext) == [head, mid, ext]
  {
    var first := head + "." + mid;
    FilePathParts(v, head, mid);
    assert head + "." + mid + "." + ext == first + ['.'] + ext;
    if UsesStringClass(v) {
      PiecesAppend(first, ext, '.');
      PiecesSingle(ext, '.');
    } else {
      TokensConcat(first, ext, '.');
      TokensSingle(ext, '.');
    }
  }

  /** Concatenation keeps the left operand as a prefix. */
  lemma StartsWith(a: seq<char>, b: seq<char>, c: seq<char>)
    ensures ((a + b) + c)[..|a|] == a
  {
    assert (a + b) + c == a + (b + c);
  }

  /** Regrouping the parts of the 200 reply. */
  lemma Regroup(p: seq<char>, x: seq<char>, l: seq<char>, d: seq<char>, h: seq<char>, b: seq<char>)
    ensures p + (x + (l + d + h)) + b == (p + x) + l + d + h + b
  {
  }

  /** Concatenation keeps the right operand as a suffix. */
  lemma EndsWith(a: seq<char>, b: seq<char>)
    ensures (a + b)[|a + b| - |b|..] == b
  {
  }

  /** An existing file gets a 200 reply whose binary flag follows the
      extension; a text file travels in the text, a binary one as the
      payload. A binary reply carries the `accept-ranges` and
      `Content-Transfer-Encoding` lines directly before the length line and
      ends with the header; a text reply has no such lines and ends with the
      body. */
  lemma FoundReply(v: Variant, path: seq<char>, date: CText, contents: seq<byte>)
    requires UsesStringClass(v) || Tokens(path, '.') != []
    requires path != Invalid
    ensures var r := Formulate(v, path, date, Some(contents));
      var ext := Extension(DotParts(v, path));
      r.text[..|OkStatus|] == OkStatus &&
      (r.isBinary <==> ext in BinaryExtensions(v)) &&
      (r.isBinary ==> r.payload == contents && r.text[|r.text| - |HeaderEnd|..] == HeaderEnd) &&
      (!r.isBinary ==> r.payload == [] && r.text[|r.text| - |TextBody(v, contents)|..] == TextBody(v, contents))
    ensures var r := Formulate(v, path, date, Some(contents));
      var prefix := OkPrefix(v, date, ContentType(v, Extension(DotParts(v, path))).0);
      r.isBinary ==>
        r.text == prefix + BinaryLines + LengthLabel + Decimal(AdvertisedLength(v, prefix, [], contents)) + HeaderEnd
    ensures var r := Formulate(v, path, date, Some(contents));
      var prefix := OkPrefix(v, date, ContentType(v, Extension(DotParts(v, path))).0);
      var body := TextBody(v, contents);
      !r.isBinary ==>
        r.text == prefix + LengthLabel + Decimal(AdvertisedLength(v, prefix, body, [])) + HeaderEnd + body
  {
    var ext := Extension(DotParts(v, path));
    ContentTypeClassifies(v, ext);
    OkShape(v, date, ext, contents);
  }

  lemma OkShape(v: Variant, date: CText, ext: seq<char>, contents: seq<byte>)
    ensures var r := OkReply(v, date, ext, contents);
      r.text[..|OkStatus|] == OkStatus &&
      r.isBinary == ContentType(v, ext).1 &&
      (r.isBinary ==> r.payload == contents && r.text[|r.text| - |HeaderEnd|..] == HeaderEnd) &&
      (!r.isBinary ==> r.payload == [] && r.text[|r.text| - |TextBody(v, contents)|..] == TextBody(v, contents))
    ensures var r := OkReply(v, date, ext, contents);
      var prefix := OkPrefix(v, date, ContentType(v, ext).0);
      r.isBinary ==>
        r.text == prefix + BinaryLines + LengthLabel + Decimal(AdvertisedLength(v, prefix, [], contents)) + HeaderEnd
    ensures var r := OkReply(v, date, ext, contents);
      var prefix := OkPrefix(v, date, ContentType(v, ext).0);
      var body := TextBody(v, contents);
      !r.isBinary ==>
        r.text == prefix + LengthLabel + Decimal(AdvertisedLength(v, prefix, body, [])) + HeaderEnd + body
  {
    AssembleShape(v, date, ContentType(v, ext).0, ContentType(v, ext).1, contents);
  }

  lemma AssembleShape(v: Variant, date: CText, contentType: seq<char>, binary: bool, contents: seq<byte>)
    ensures var r := Assemble(v, date, contentType, binary, contents);
      r.text[..|OkStatus|] == OkStatus &&
      r.isBinary == binary &&
      (binary ==> r.payload == contents && r.text[|r.text| - |HeaderEnd|..] == HeaderEnd) &&
      (!binary ==> r.payload == [] && r.text[|r.text| - |TextBody(v, contents)|..] == TextBody(v, contents))
    ensures var r := Assemble(v, date, contentType, binary, contents);
      var prefix := OkPrefix(v, date, contentType);
      binary ==>
        r.text == prefix + BinaryLines + LengthLabel + Decimal(AdvertisedLength(v, prefix, [], contents)) + HeaderEnd
    ensures var r := Assemble(v, date, contentType, binary, contents);
      var prefix := OkPrefix(v, date, contentType);
      var body := TextBody(v, contents);
      !binary ==>
        r.text == prefix + LengthLabel + Decimal(AdvertisedLength(v, prefix, body, [])) + HeaderEnd + body
  {
    if binary {
      BinaryShape(v, date, contentType, contents);
    } else {
      TextShape(v, date, contentType, contents);
    }
  }

  lemma BinaryShape(v: Variant, date: CText, contentType: seq<char>, contents: seq<byte>)
    ensures var r := Assemble(v, date, contentType, true, contents);
      var prefix := OkPrefix(v, date, contentType);
      r.text[..|OkStatus|] == OkStatus && r.isBinary && r.payload == contents &&
      r.text[|r.text| - |HeaderEnd|..] == HeaderEnd &&
      r.text == prefix + BinaryLines + LengthLabel + Decimal(AdvertisedLength(v, prefix, [], contents)) + HeaderEnd
  {
    BinaryLayout(v, date, contentType, contents);
    var prefix := OkPrefix(v, date, contentType);
    var n := AdvertisedLength(v, prefix, [], contents);
    var tail := OkTail(true, n);
    assert Assemble(v, date, contentType, true, contents).text == prefix + tail + [];
    StartsWith(OkStatus, OkFields(v, date, contentType), tail + []);
    assert prefix + tail + [] == prefix + (tail + []);
    EndsWith(prefix + BinaryLines + LengthLabel + Decimal(n), HeaderEnd);
  }

  lemma TextShape(v: Variant, date: CText, contentType: seq<char>, contents: seq<byte>)
    ensures var r := Assemble(v, date, contentType, false, contents);
      var prefix := OkPrefix(v, date, contentType);
      var body := TextBody(v, contents);
      r.text[..|OkStatus|] == OkStatus && !r.isBinary && r.payload == [] &&
      r.text[|r.text| - |body|..] == body &&
      r.text == prefix + LengthLabel + Decimal(AdvertisedLength(v, prefix, body, [])) + HeaderEnd + body
  {
    TextLayout(v, date, contentType, contents);
    TextStarts(v, date, contentType, contents);
    TextEnds(v, date, contentType, contents);
  }

  lemma TextStarts(v: Variant, date: CText, contentType: seq<char>, contents: seq<byte>)
    ensures Assemble(v, date, contentType, false, contents).text[..|OkStatus|] == OkStatus
  {
    var prefix := OkPrefix(v, date, contentType);
    var body := TextBody(v, contents);
    var tail := OkTail(false, AdvertisedLength(v, prefix, body, []));
    assert Assemble(v, date, contentType, false, contents).text == prefix + tail + body;
    StartsWith(OkStatus, OkFields(v, date, contentType), tail + body);
    assert prefix + tail + body == prefix + (tail + body);
  }

  lemma TextEnds(v: Variant, date: CText, contentType: seq<char>, contents: seq<byte>)
    ensures var text := Assemble(v, date, contentType, false, contents).text;
      var body := TextBody(v, contents);
      text[|text| - |body|..] == body
  {
    var prefix := OkPrefix(v, date, contentType);
    var body := TextBody(v, contents);
    var tail := OkTail(false, AdvertisedLength(v, prefix, body, []));
    assert Assemble(v, date, contentType, false, contents).text == (prefix + tail) + body;
    EndsWith(prefix + tail, body);
  }

  /** The 200 header of a binary reply as laid out on the wire: the
      `accept-ranges` and `Content-Transfer-Encoding` lines directly before
      the length line, and nothing after the blank line. */
  lemma BinaryLayout(v: Variant, date: CText, contentType: seq<char>, contents: seq<byte>)
    ensures var r := Assemble(v, date, contentType, true, contents);
      var prefix := OkPrefix(v, date, contentType);
      r.text == prefix + BinaryLines + LengthLabel + Decimal(AdvertisedLength(v, prefix, [], contents)) + HeaderEnd
  {
    var prefix := OkPrefix(v, date, contentType);
    var n := AdvertisedLength(v, prefix, [], contents);
    assert Assemble(v, date, contentType, true, contents).text == prefix + OkTail(true, n) + [];
    Regroup(prefix, BinaryLines, LengthLabel, Decimal(n), HeaderEnd, []);
  }

  /** The 200 header of a text reply as laid out on the wire: the length
      line right after the fixed fields, and the body after the blank
      line. */
  lemma TextLayout(v: Variant, date: CText, contentType: seq<char>, contents: seq<byte>)
    ensures var r := Assemble(v, date, contentType, false, contents);
      var prefix := OkPrefix(v, date, contentType);
      var body := TextBody(v, contents);
      r.text == prefix + LengthLabel + Decimal(AdvertisedLength(v, prefix, body, [])) + HeaderEnd + body
  {
    var prefix := OkPrefix(v, date, contentType);
    var body := TextBody(v, contents);
    var n := AdvertisedLength(v, prefix, body, []);
    assert OkTail(false, n) == LengthLine(n);
    assert Assemble(v, date, contentType, false, contents).text == prefix + LengthLine(n) + body;
    RegroupLength(prefix, LengthLabel, Decimal(n), HeaderEnd, body);
  }

  /** Regrouping the length line of a text reply. */
  lemma RegroupLength(p: seq<char>, l: seq<char>, d: seq<char>, h: seq<char>, b: seq<char>)
    ensures p + (l + d + h) + b == p + l + d + h + b
  {
  }

  /** `text` ends with a length field holding the decimal digits of `n`,
      the blank line and then `body`. */
  ghost predicate LengthFieldReads(text: seq<char>, body: seq<char>, n: nat)
  {
    exists head: seq<char>, field: seq<char> ::
      text == head + LengthLabel + field + HeaderEnd + body &&
      (forall i :: 0 <= i < |field| ==> IsDigit(field[i])) &&
      ParseDecimal(field) == n
  }

  lemma FieldReads(head: seq<char>, n: nat, body: seq<char>)
    ensures LengthFieldReads(head + LengthLabel + Decimal(n) + HeaderEnd + body, body, n)
  {
    ParseDecimalRoundTrip(n);
  }

  /** The length field of a 200 reply reads back as the body length plus
      the length of the header lines before it (plus 50 on the `String`
      servers): the advertised length overstates the body. */
  lemma AdvertisedLengthField(v: Variant, date: CText, ext: seq<char>, contents: seq<byte>)
    ensures var r := OkReply(v, date, ext, contents);
      var prefix := OkPrefix(v, date, ContentType(v, ext).0);
      var body := if r.isBinary then [] else TextBody(v, contents);
      var n := |body| + |r.payload| + |prefix| + Slack(v);
      LengthFieldReads(r.text, body, n) && n > |body| + |r.payload|
  {
    AssembleLengthField(v, date, ContentType(v, ext).0, ContentType(v, ext).1, contents);
  }

  lemma AssembleLengthField(v: Variant, date: CText, contentType: seq<char>, binary: bool, contents: seq<byte>)
    ensures var r := Assemble(v, date, contentType, binary, contents);
      var prefix := OkPrefix(v, date, contentType);
      var body := if binary then [] else TextBody(v, contents);
      var n := |body| + |r.payload| + |prefix| + Slack(v);
      LengthFieldReads(r.text, body, n) && n > |body| + |r.payload|
  {
    var body := if binary then [] else TextBody(v, contents);
    var payload := if binary then contents else [];
    var prefix := OkPrefix(v, date, contentType);
    var n := AdvertisedLength(v, prefix, body, payload);
    var x := if binary then BinaryLines else [];
    var r := Assemble(v, date, contentType, binary, contents);
    assert r.text == (prefix + x) + LengthLabel + Decimal(n) + HeaderEnd + body by {
      Regroup(prefix, x, LengthLabel, Decimal(n), HeaderEnd, body);
    }
    FieldReads(prefix + x, n, body);
    assert |prefix| >= |OkStatus| > 0;
  }

  /** A path `parse_get` returns always has a head token, so the std::string
      servers can answer every request they parse. */
  lemma ParsedPathAnswerable(v: Variant, buff: CText)
    requires Tokens(buff, '\n') != []
    ensures UsesStringClass(v) || Tokens(ParseGet(buff), '.') != []
  {
    ParseGetHasName(buff);
  }

  /** GIF files are binary only on the std::string servers, JPEG files on
      all but the prototype. */
  lemma BinaryTypesDiffer()
    ensures "gif" in BinaryExtensions(Qt) && "gif" in BinaryExtensions(GetServer)
    ensures "gif" !in BinaryExtensions(Async) && "gif" !in BinaryExtensions(Prototype)
    ensures "jpg" in BinaryExtensions(Async) && "jpg" !in BinaryExtensions(Prototype)
  {
    assert "gif" != "png" && "gif" != "ico" && "gif" != "jpg";
    assert "jpg" != "png" && "jpg" != "ico";
  }

  /** A text file with a NUL byte reaches the `String` servers' reply only
      up to that byte. */
  lemma StringBodyStopsAtNul(v: Variant, before: seq<byte>, after: seq<byte>)
    requires 0 !in before
    ensures TextBody(v, before + [0] + after) ==
      if UsesStringClass(v) then BytesToChars(before) else BytesToChars(before + [0] + after)
  {
    if UsesStringClass(v) {
      var chars := BytesToChars(before + [0] + after);
      assert chars[|before|] == '\0';
      CStrPrefix(chars, |before|);
      assert chars[..|before|] == BytesToChars(before);
    }
  }

  lemma {:induction false} CStrPrefix(s: seq<char>, k: nat)
    requires k < |s| && s[k] == '\0' && '\0' !in s[..k]
    ensures CStr(s) == s[..k]
    decreases k
  {
    if k > 0 {
      assert s[0] in s[..k];
      assert s[1..][..k - 1] == s[1..k];
      assert forall c :: c in s[1..k] ==> c in s[..k];
      CStrPrefix(s[1..], k - 1);
    }
  }
}
