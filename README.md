# Asynchronous GET server, modelled in Dafny

The repository holds four near-copies of a small HTTP GET server built on Boost.Asio:

- **Qt server**: QT_GETServer/server.cpp.
- **GetServer**: AsynchronusGetServer/server.cpp.
- **Async server**: AsynchronusGetServer/async_server.cpp.
- **Prototype server**: AsynchronusGetServer/asyncserver.cpp.

It also holds a hand-written NUL-terminated `String` class, in AsynchronusGetServer/string.cpp.

Every server does the same four things:

1. It keeps a `std::list<Connection>` of its connections.
2. It reads a request up to `\r\n\r\n`.
3. It resolves the request's target to a file path under `html/` (`parse_get` / `parseGet`).
4. It builds a reply triple (`formulate_response` / `formulateResponse`) and writes it.

The reply triple is the text, whether it is binary, and the file bytes. The first two servers work on `std::string` and the tokenizer `split_string`. The last two work on the `String` class and its `split`.

The model has one module per concern:

- common.dfy (`Common`): Options, bytes, C strings (`CStr`: the text before the first NUL), and the decimal text `sprintf("%d")` writes.
- std_string.dfy (`StdString`): `size_t` arithmetic with its wrap-around at `npos`, plus `find` and `substr` of `std::string`.
- pieces.dfy (`Delimited`): the delimiter-separated pieces of a string: the reference that both tokenizers are proved against.
- tokenizer.dfy (`Tokenizer`): `split_string` and `replace_all`, as loops proved against `Tokens` and `Replaced`.
- string_value.dfy (`StringValue`): the contents of a `String` (its `stringSize` cells) as a value, and what each operation does to it.
- string_class.dfy (`StringClass`): the class `String` over an `array<char>` and `stringSize`, each method proved against `StringValue`.
- resolve.dfy (`Resolve`): `parse_get` and `parseGet`.
- response.dfy (`Response`): the reply builder of all four servers, chosen by a `Variant`.
- events.dfy (`Events`): the asynchronous operations a handler starts, and the replies each server sends.
- registry.dfy (`Registry`): the connection record, the pure list operations, and the class `ConnectionList`.
- qt_server.dfy, get_server.dfy, async_server.dfy, prototype_server.dfy (`QtServer`, `GetServerHandlers`, `AsyncServer`, `PrototypeServer`): the completion handlers of each server, as methods of a class `Server`.

### How the server classes work

- **Completions.** Each completion of Boost.Asio is a method call carrying the connection handle, an error kind (`NoError`, `Eof`, `Other`), the byte count and the `isFinished` flag.
- **The operations log.** Each handler appends the operations it starts to the ghost log `issued`. These are reads, writes with their completion handler and final flag, accepts and shutdowns.
- **Handles.** A list iterator is modelled by the connection's id. The ids come from a tally: `conn_id = CONNECTOR_TALLY++` in the Async server. In the other servers the id stands in for the iterator's identity.
- **The clock.** The reading `ctime_s` takes is a `date` parameter.
- **Files.** The file system is a map from paths to file contents, held by the server.

### Behaviour worth noting

- **Final write.** A successful final write drains the buffer and shuts the socket down, but does not erase the connection.
- **Error paths differ between servers.**
  - The Qt server shuts the socket down before erasing.
  - GetServer erases without draining.
  - The Async server ignores an error on a write that is not final.
  - The Prototype server never closes.
- **Extension table.** The Async server has no `gif` entry, and the Prototype server has neither `jpg` nor `gif`.
- **Unknown extensions.** An unknown extension gets a `Content - Type : ` line, with an empty value.
- **File names with several dots.** Only the first two `.`-parts are used: `x.min.js` has extension `min`, so it is served with an empty content type, and its 404 URL drops `.js`.
- **Content length.** The advertised length is the length of the header lines measured before the binary lines and the length line are added, plus the body and the payload. The `String` servers add 50 more.
- **"invalid" requests.** On an "invalid" request the `std::string` servers write the empty text, as a final write. The Prototype server writes nothing.
- **The request text.** The request is the whole stream buffer, not just the bytes up to the terminator.

## Model

| member | source | states |
|---|---|---|
| Common.Decimal | QT_GETServer/server.cpp:328-329 | The `%d` rendering of a count is a non-empty run of digits with no leading zero unless the count is 0 |
| Common.ParseDecimalRoundTrip | QT_GETServer/server.cpp:329-333 | The digits written into the length field read back as the number written |
| Common.CStr | AsynchronusGetServer/async_server.cpp:243 | `c_str()` text of a buffer: a prefix ending at the first NUL, the whole buffer when there is none |
| Common.BytesToChars | QT_GETServer/server.cpp:303-314 | The characters of the body are the file's bytes, one character per byte, in order, where the file bytes are what the text-mode stream yields |
| StdString.Inc | QT_GETServer/server.cpp:350-351 | `begin + 1` in `size_t` is addition modulo 2^64, so `npos + 1` is 0 |
| StdString.Dec | QT_GETServer/server.cpp:355 | `end - 1` in `size_t` wraps 0 to `npos` |
| StdString.Minus | QT_GETServer/server.cpp:355 | `(end - 1) - begin` in `size_t` is subtraction modulo 2^64 |
| StdString.FindChar | QT_GETServer/server.cpp:351 | `find(det, pos)` is the least index at or after `pos` holding `det`, or `npos` exactly when there is none |
| StdString.FindSub | QT_GETServer/server.cpp:373 | `find(from, pos)` is the least position at or after `pos` where `from` occurs, or -1 (`npos`) exactly when there is none |
| StdString.Substr | QT_GETServer/server.cpp:355 | `substr(pos, len)` is the slice from `pos` of length `len` cut back to the end of the string |
| Delimited.Pieces | QT_GETServer/server.cpp:346-369 | Every string, the empty one included, splits into at least one piece |
| Delimited.LastIndex | QT_GETServer/server.cpp:346-369 | The last occurrence of the delimiter, with none after it |
| Delimited.JoinPieces | QT_GETServer/server.cpp:346-369 | Joining the pieces with the delimiter gives the string back |
| Delimited.PiecesAppend | QT_GETServer/server.cpp:346-369 | A delimiter and a delimiter-free text appended add exactly that text as the last piece |
| Delimited.PiecesFree | QT_GETServer/server.cpp:346-369 | No piece contains the delimiter |
| Delimited.PiecesConcat | QT_GETServer/server.cpp:346-369 | The pieces of `x + d + y` are the pieces of `x` followed by those of `y` |
| Delimited.PiecesUnique | QT_GETServer/server.cpp:346-369 | Any delimiter-free list is the list of pieces of its own join, so the pieces are unique |
| Tokenizer.Tokens | QT_GETServer/server.cpp:346-369 | Every token passes the push test and is one of the pieces, and there are no more tokens than pieces |
| Tokenizer.KeepSound | QT_GETServer/server.cpp:358 | The kept pieces pass the push test (not starting with NUL, not `" "`) and come from the input |
| Tokenizer.TokensSound | QT_GETServer/server.cpp:346-369 | Every token of `split_string` is non-empty, delimiter-free and not a lone space |
| Tokenizer.TokensConcat | QT_GETServer/server.cpp:346-369 | Tokens of `x + d + y` are the tokens of `x` followed by those of `y` |
| Tokenizer.TokensSingle | QT_GETServer/server.cpp:356-358 | A string without the delimiter is its own only token, unless the push test drops it |
| Tokenizer.TokensStep | QT_GETServer/server.cpp:359-365 | The tokens up to the next delimiter are the tokens so far, plus the new piece when it passes the test |
| Tokenizer.KeepConcat | QT_GETServer/server.cpp:358 | The push test is applied piece by piece, so keeping distributes over concatenation |
| Tokenizer.NextOrEnd | QT_GETServer/server.cpp:361-365 | The next delimiter after `begin`, or the end of the string, with no delimiter in between |
| Tokenizer.SplitIteration | QT_GETServer/server.cpp:354-358 | The tokens of the text up to the end of the current piece are the tokens before `begin` (none when `begin` is `npos`) plus the piece when it passes the push test |
| Tokenizer.CandidateIsPiece | QT_GETServer/server.cpp:354-357 | The `substr` an iteration takes, after its `end == begin + 1` adjustment and with the `size_t` wrap of `begin = -1`, passes the push test exactly when the piece does, and is then the piece |
| Tokenizer.SplitResume | QT_GETServer/server.cpp:359-360 | The next search from `end - 1` finds the delimiter ending the piece, or nothing when the piece reached the end |
| Tokenizer.CutPiece | QT_GETServer/server.cpp:354-360 | The `temp` an iteration cuts out is pushed exactly when the piece between delimiters passes the push test, and is then that piece; the next search from the adjusted `end - 1` finds the delimiter ending the piece, or `npos` when the piece reaches the end |
| Tokenizer.FindEnd | QT_GETServer/server.cpp:361-365 | `end` is the next delimiter after `begin`, or `str.size()` |
| Tokenizer.SplitString | QT_GETServer/server.cpp:346-369 | `split_string(s, d)` returns, in order, the `d`-separated pieces of `s` that are non-empty, do not start with NUL and are not `" "` |
| Tokenizer.Replaced | QT_GETServer/server.cpp:371-378 | A replacement text as long as `from` keeps the length, and a string shorter than `from` comes back unchanged |
| Tokenizer.ReplacedSkip | QT_GETServer/server.cpp:373-375 | A stretch in which `from` starts nowhere is copied unchanged |
| Tokenizer.ReplacedIdentity | QT_GETServer/server.cpp:371-378 | Replacing `from` by itself changes nothing |
| Tokenizer.ReplacedAbsent | QT_GETServer/server.cpp:371-378 | A string in which `from` does not occur comes back unchanged |
| Tokenizer.ReplacedFirst | QT_GETServer/server.cpp:373-375 | The first occurrence is replaced and scanning resumes after it |
| Tokenizer.ReplaceStep | QT_GETServer/server.cpp:373-375 | One splice plus the resume after the inserted text keeps the leftmost non-overlapping replacement of the whole string |
| Tokenizer.ReplaceDone | QT_GETServer/server.cpp:373 | Once `find` fails, the string is the complete replacement |
| Tokenizer.ReplaceAll | QT_GETServer/server.cpp:371-378 | `replace_all(s, from, to)` replaces every leftmost non-overlapping occurrence of a non-empty `from` by `to`, resuming after the inserted text |
| StringValue.Len | AsynchronusGetServer/string.cpp:263-268 | `length()` is the index of the first NUL, with no NUL before it |
| StringValue.Capacity | AsynchronusGetServer/string.cpp:254 | `capacity()` is `stringSize - 1` and never less than `length()` |
| StringValue.TightLen | AsynchronusGetServer/string.cpp:254-268 | A buffer whose only NUL is its last cell has `length() == capacity()` and is the buffer of its text |
| StringValue.Of | AsynchronusGetServer/string.cpp:42-55 | The buffer of a NUL-free text has no spare capacity and holds exactly that text |
| StringValue.Blank | AsynchronusGetServer/string.cpp:21-26 | `String(x)` has capacity `x`, all cells NUL, empty text |
| StringValue.FromCStrBuf | AsynchronusGetServer/string.cpp:42-55 | `String(const char x[])` has `length() == capacity() == strlen(x)` and holds the characters of `x` |
| StringValue.WithCapacityFromBuf | AsynchronusGetServer/string.cpp:59-67 | `String(N, x)` has capacity `N` and holds the first `N` cells of `x` |
| StringValue.ConcatBuf | AsynchronusGetServer/string.cpp:143-155 | `a + b` keeps the invariant and has capacity `capacity(a) + capacity(b)` |
| StringValue.ConcatTight | AsynchronusGetServer/string.cpp:143-155 | When `length(a) == capacity(a)`, the text of `a + b` is `a`'s text followed by `b`'s |
| StringValue.ConcatWithSlack | AsynchronusGetServer/string.cpp:143-155 | When `a` has spare capacity, its NUL comes first and `b`'s text is lost |
| StringValue.EqualBuf | AsynchronusGetServer/string.cpp:168-185 | `==` holds exactly when the cells agree up to the shorter buffer, which on buffers of one size is equality |
| StringValue.EqualTight | AsynchronusGetServer/string.cpp:168-185 | On buffers without spare capacity, `==` holds exactly when the texts are equal |
| StringValue.SubstrBuf | AsynchronusGetServer/string.cpp:271-284 | `substr(start, end)` is empty when `start > end` or `start >= length()`; otherwise it is the characters `start..end` with `end` clamped to `length() - 1` |
| StringValue.FindChBuf | AsynchronusGetServer/string.cpp:287-297 | `findch(pos, ch)` is the least `i` in `[max(pos, 0), stringSize)` with `str[i] == ch`, or -1 exactly when there is none |
| StringValue.FindStrBuf | AsynchronusGetServer/string.cpp:301-322 | `findstr` as written: the least position at or after `pos` where the pattern's first and last characters match, or -1 exactly when there is none |
| StringValue.FindStrIntended | AsynchronusGetServer/string.cpp:299-322 | The intended search: the least position at or after `pos` where the whole text of the pattern occurs, or -1 |
| StringValue.FindStrAcceptsNonOccurrence | AsynchronusGetServer/string.cpp:309-318 | The code reports `"ayb"` at 0 in `"axb"`, where it does not occur |
| StringValue.OccursImpliesAccepted | AsynchronusGetServer/string.cpp:309-318 | Every real occurrence passes the code's test |
| StringValue.FindStrNoLater | AsynchronusGetServer/string.cpp:301-322 | Whenever the pattern occurs, the code finds a position no later than the first occurrence |
| StringValue.FindStrBufLeast | AsynchronusGetServer/string.cpp:305-321 | The first accepted position at or after `pos` is what `findstr` as written returns |
| StringValue.FindStrIntendedLeast | AsynchronusGetServer/string.cpp:299-322 | The first real occurrence at or after `pos` is what the intended search returns |
| StringValue.SplitBufs | AsynchronusGetServer/string.cpp:326-350 | What `split(det)` returns for a string without spare capacity: one string per piece, empty pieces included |
| StringValue.PiecesNoNul | AsynchronusGetServer/string.cpp:326-350 | Pieces of a text hold no NUL, so each fits in a `String` |
| StringValue.SplitNoDelimiter | AsynchronusGetServer/string.cpp:326-350 | A string without `det` splits into a one-element vector equal to itself |
| StringValue.SplitJoin | AsynchronusGetServer/string.cpp:326-350 | The texts of the split, joined by `det`, give the string back |
| StringValue.SplitDoubled | AsynchronusGetServer/string.cpp:326-350 | Two adjacent delimiters yield an empty element between the pieces on either side |
| StringValue.SplitAppend | AsynchronusGetServer/string.cpp:326-350 | A delimiter and a delimiter-free text appended add exactly one element |
| StringValue.CharBuf | AsynchronusGetServer/string.cpp:29-39 | `String(char x)` holds the one character `x`, or nothing for NUL |
| StringValue.SplitAdvance | AsynchronusGetServer/string.cpp:339-346 | On any buffer the next `begin` is -1 or beyond the current one, and again a loop state |
| StringValue.SplitPieceBounds | AsynchronusGetServer/string.cpp:335-346 | An iteration reads from after `begin` to the next delimiter or the end of the text |
| StringValue.SplitTempEmpty | AsynchronusGetServer/string.cpp:335-338 | A delimiter right after `begin`, or `begin` at the last character, pushes the empty string |
| StringValue.SplitTempPiece | AsynchronusGetServer/string.cpp:336-338 | Delimiters further apart push the characters strictly between them |
| StringValue.SplitIteration | AsynchronusGetServer/string.cpp:335-338 | With its adjustment, substring and `temp == det` test, an iteration on a buffer without spare capacity pushes exactly the piece between `begin` and the next delimiter |
| StringValue.SplitPiecePushed | AsynchronusGetServer/string.cpp:335-339 | The elements for the text up to the end of the piece are the elements before it plus what the iteration pushes |
| StringValue.SplitBufsStep | AsynchronusGetServer/string.cpp:326-350 | The split of a prefix ending at a piece's end is the split up to its start, plus the piece |
| StringClass.String.Empty | AsynchronusGetServer/string.cpp:13-18 | `String()` establishes the invariant and holds the empty text with capacity 0 |
| StringClass.String.WithCapacity | AsynchronusGetServer/string.cpp:21-26 | `String(x)` establishes the invariant with `x` NUL cells |
| StringClass.String.FromChar | AsynchronusGetServer/string.cpp:29-39 | `String(char)` establishes the invariant and holds the character |
| StringClass.String.FromCStr | AsynchronusGetServer/string.cpp:42-55 | `String(const char x[])` establishes the invariant and holds `strlen(x)` characters with no spare capacity |
| StringClass.String.WithCapacityFrom | AsynchronusGetServer/string.cpp:59-67 | `String(N, x)` establishes the invariant and copies `N` cells |
| StringClass.String.Copy | AsynchronusGetServer/string.cpp:70-78 | The copy constructor gives an equal buffer in fresh storage |
| StringClass.String.Assign | AsynchronusGetServer/string.cpp:121-134 | `operator=` keeps the invariant and leaves this holding the right-hand buffer, in fresh storage |
| StringClass.String.Write | AsynchronusGetServer/string.cpp:147-152 | One copying loop of `operator+` writes its source into the cells from `at` on and leaves every other cell as it was |
| StringClass.String.Concat | AsynchronusGetServer/string.cpp:143-155 | `operator+` returns a fresh string holding the buffer `ConcatBuf` describes |
| StringClass.String.ConcatAssign | AsynchronusGetServer/string.cpp:161-165 | `operator+=` leaves the sum in this, keeping the invariant |
| StringClass.String.EqualTo | AsynchronusGetServer/string.cpp:168-185 | `operator==` compares the cells up to the shorter buffer |
| StringClass.String.Swap | AsynchronusGetServer/string.cpp:243-251 | `swap` exchanges `stringSize` and the buffer pointers and nothing else, keeping both invariants |
| StringClass.String.Capacity | AsynchronusGetServer/string.cpp:254 | `capacity()` is `stringSize - 1` and at least `length()` |
| StringClass.String.ResetCapacity | AsynchronusGetServer/string.cpp:257-260 | `resetCapacity(x)` leaves the first `x` cells in a buffer of capacity `x` |
| StringClass.String.Length | AsynchronusGetServer/string.cpp:263-268 | `length()` counts the cells before the first NUL |
| StringClass.String.Substr | AsynchronusGetServer/string.cpp:271-284 | `substr` returns a fresh string holding what `SubstrBuf` describes |
| StringClass.String.CopyOut | AsynchronusGetServer/string.cpp:278-283 | The copying loop of `substr` holds the characters `start..last` and a NUL |
| StringClass.String.FindCh | AsynchronusGetServer/string.cpp:287-297 | The loop of `findch` returns what `FindChBuf` describes |
| StringClass.String.FindStr | AsynchronusGetServer/string.cpp:301-322 | The loops of `findstr` as written return what `FindStrBuf` describes |
| StringClass.String.FindStrFixed | AsynchronusGetServer/string.cpp:301-322 | `findstr` with every pattern character compared returns the first real occurrence |
| StringClass.String.SplitPiece | AsynchronusGetServer/string.cpp:335-338 | One iteration's adjusted `end` and pushed string |
| StringClass.String.SplitText | AsynchronusGetServer/string.cpp:336-337 | `substr(begin + 1, end - 1)`, or the whole text when neither delimiter was found |
| StringClass.String.UnlessChar | AsynchronusGetServer/string.cpp:338 | A string equal to the delimiter is replaced by the empty string |
| StringClass.String.SplitEnd | AsynchronusGetServer/string.cpp:341-346 | The next `end` is the next delimiter, or `capacity()` |
| StringClass.String.Split | AsynchronusGetServer/string.cpp:326-350 | `split(det)` returns at least one string, each keeping the invariant. For a string without spare capacity the result is exactly one string per piece, empty pieces included |
| StringClass.SplitStep | AsynchronusGetServer/string.cpp:335-346 | The loop invariant of `split` is kept: the elements so far are the split of the text up to the next `begin`, or of the whole text at the end |
| StringClass.SplitDone | AsynchronusGetServer/string.cpp:339-340 | When no delimiter follows, the piece just pushed was the last |
| Resolve.Target | QT_GETServer/server.cpp:218-228 | The path is "invalid" exactly when there are fewer than two words; otherwise it is `html/` plus the second word without its first character, or `html/index.html` |
| Resolve.Resolved | QT_GETServer/server.cpp:220-224 | An empty name becomes `index.html`; any other name is kept |
| Resolve.FirstLineBuf | AsynchronusGetServer/async_server.cpp:162-163 | `split('\n')[0]` of the request buffer is the text before the first newline, as a string without spare capacity |
| Resolve.OrIndex | AsynchronusGetServer/async_server.cpp:169-173 | The `== ""` test on the stripped second word replaces only an empty name by `index.html` |
| Resolve.RequestOfLine | QT_GETServer/server.cpp:210-231 | For a request whose first line is `METHOD SP tail`, `parse_get` resolves the tokens of that line and `parseGet` its pieces |
| Resolve.TargetOfWords | AsynchronusGetServer/async_server.cpp:167-177 | Three words resolve to their second, stripped; with an empty second word the result is `html/index.html` |
| Resolve.ParseGet | QT_GETServer/server.cpp:210-231 | `parse_get` is `Target` of the space tokens of the first newline token, for a request that has a line token |
| Resolve.ParseGetString | AsynchronusGetServer/async_server.cpp:159-180 | `parseGet` is `Target` of the space pieces of the first newline piece, for every request |
| Resolve.EmptyRequest | AsynchronusGetServer/asyncserver.cpp:135-156 | The empty request has no line token for `parse_get`, and `parseGet` returns "invalid" |
| Resolve.WellFormedRequest | AsynchronusGetServer/server.cpp:191-212 | For `METHOD SP TARGET SP VERSION`, both versions give `html/` plus the target without its first character, or `html/index.html` for `/` |
| Resolve.DoubleSpaceRequest | AsynchronusGetServer/async_server.cpp:163-173 | With two spaces after the method, `parse_get` still finds the target, while `parseGet` sees an empty second word and serves `index.html` |
| Resolve.ParseGetHasName | QT_GETServer/server.cpp:250-251 | Every path `parse_get` returns has a first `.`-token, which `formulate_response` indexes |
| Resolve.LeadingToken | QT_GETServer/server.cpp:346-369 | A string starting with an ordinary character has at least one token |
| Response.ContentTypeClassifies | QT_GETServer/server.cpp:294-300 | The binary flag is set exactly for each server's binary extensions (png, ico, jpg and gif in the std::string servers; no gif in the Async server; neither jpg nor gif in the Prototype server), and a content type is named exactly for the known ones |
| Response.Formulate | QT_GETServer/server.cpp:236-342 | A binary reply comes only from an existing file and carries its bytes; any other reply has an empty payload. The meaning of each branch is stated by Response.InvalidReply, Response.NotFoundReply, Response.FoundReply and Response.AdvertisedLengthField |
| Response.InvalidReply | QT_GETServer/server.cpp:259-260 | "invalid" gets `("", false, [])` whatever the file system holds |
| Response.NotFoundReply | QT_GETServer/server.cpp:250-286 | A missing file gets a non-binary reply with an empty payload that starts `HTTP/1.1 404 Not Found\r\n` and carries the fixed `Content - Length : 230` header and the page naming the URL. For every path that URL is built from the first two `.`-parts: `"/"` + the first + (`"."` + the second, when there is one) on the Qt server, `"/"` + the first on GetServer, `"/ "` + the first on the `String` servers |
| Response.NotFoundPageLength | AsynchronusGetServer/server.cpp:249-261 | The 404 page is 173 characters plus the URL, so the fixed 230 is right only for 57-character URLs |
| Response.NotFoundUrl | AsynchronusGetServer/async_server.cpp:221 | For a one-dot path `head.ext` (each part dot-free and passing the push test), the 404 URL is `"/"` + the whole path for the Qt server, `"/"` + `head` for GetServer, and `"/ "` + `head` for the `String` servers |
| Response.NotFoundUrlTwoDots | QT_GETServer/server.cpp:250-282 | For a two-dot path `head.mid.ext` such as `html/jquery.min.js`, the parts are the three names and the extension is `mid`: the Qt server echoes `"/"` + `head.mid`, GetServer `"/"` + `head`, the `String` servers `"/ "` + `head`; a `mid` that is no known extension (such as `min`) gets the empty content type and no binary flag |
| Response.FilePathParts | QT_GETServer/server.cpp:250-257 | `head.ext` splits into the name and the extension on every server |
| Response.FilePathTokens | QT_GETServer/server.cpp:250-257 | `split_string(path, '.')` of `head.ext` is exactly `[head, ext]` |
| Response.FoundReply | QT_GETServer/server.cpp:288-337 | An existing file gets a reply starting with `200 OK`, binary exactly for the binary extensions. A text reply is the header lines, the length line, the blank line and the body, with an empty payload. A binary reply is the header lines, the `accept-ranges: bytes` and `Content-Transfer-Encoding: binary` lines, the length line and the blank line, and its payload is the file |
| Response.OkShape | QT_GETServer/server.cpp:303-335 | The same, for a given extension, including the two binary lines directly before the length line |
| Response.AssembleShape | QT_GETServer/server.cpp:317-335 | The same, for a given content type and binary flag, including the two binary lines directly before the length line |
| Response.BinaryLayout | QT_GETServer/server.cpp:331-335 | A binary reply's text is the header lines, `accept-ranges: bytes\r\nContent-Transfer-Encoding: binary\r\n`, the length line and the blank line, in that order |
| Response.TextLayout | AsynchronusGetServer/async_server.cpp:262-265 | A text reply's text is the header lines, the length line, the blank line and the body, in that order |
| Response.AdvertisedLengthField | AsynchronusGetServer/async_server.cpp:255-263 | The length field holds the decimal digits of the header length before the binary and length lines, plus the body, the payload and 50 on the `String` servers, so it always overstates the body and payload |
| Response.AssembleLengthField | QT_GETServer/server.cpp:317-335 | The same, for a given content type and binary flag |
| Response.FieldReads | QT_GETServer/server.cpp:329-334 | After the length label, the decimal digits and the blank line, the field reads back the number and what follows is the body |
| Response.ParsedPathAnswerable | QT_GETServer/server.cpp:83-84 | Every path `parse_get` returns can be passed to `formulate_response` |
| Response.BinaryTypesDiffer | AsynchronusGetServer/asyncserver.cpp:209-213 | gif is binary only on the std::string servers, jpg on all but the Prototype server |
| Response.StringBodyStopsAtNul | AsynchronusGetServer/async_server.cpp:240-244 | A text file reaches a `String` server's reply only up to its first NUL byte, and a std::string server's reply in full |
| Response.CStrPrefix | AsynchronusGetServer/async_server.cpp:243 | `c_str()` keeps exactly the characters before the first NUL |
| Events.Lookup | QT_GETServer/server.cpp:239 | Opening a path succeeds exactly when the file exists, with its contents |
| Events.StdAnswer | QT_GETServer/server.cpp:81-86 | The `std::string` servers answer the path `parse_get` resolves: a binary reply carries that file's bytes, any other an empty payload |
| Events.StringAnswer | AsynchronusGetServer/async_server.cpp:94-100 | The `String` servers answer the path `parseGet` resolves, with the same payload rule |
| Events.ResponseWrites | QT_GETServer/server.cpp:114-127 | `write_response` issues at least one write, the first carrying the reply text, and every write goes to that connection with `handle_response` as its handler |
| Events.FinalsConcat | QT_GETServer/server.cpp:114-127 | The count of final writes adds up over concatenation |
| Events.ExactlyOneFinal | QT_GETServer/server.cpp:114-127 | `write_response` issues exactly one write marked final, and it is the last. A binary reply issues two writes, the second carrying the file bytes |
| Events.PrototypeWrites | AsynchronusGetServer/asyncserver.cpp:89-107 | The Prototype server writes nothing exactly when the reply text is empty; otherwise the first write carries the text, and every write goes to that connection |
| Events.PrototypeWritesShape | AsynchronusGetServer/asyncserver.cpp:89-107 | The Prototype server issues no write for an empty reply, one for text and two for binary, none of them final |
| Events.EmptyRequestWritesNothing | AsynchronusGetServer/asyncserver.cpp:82-89 | A connection that has read nothing gets the empty reply, and the Prototype server writes nothing to it |
| Registry.Fresh | QT_GETServer/server.cpp:172 | An emplaced connection has an empty buffer and request and a closed socket |
| Registry.ReadOut | QT_GETServer/server.cpp:33-38 | With bytes transferred, the whole stream buffer becomes the request and the buffer is left empty; with none, nothing changes |
| Registry.Drained | QT_GETServer/server.cpp:25-28 | `close_connection` empties the buffer and shuts the socket down, keeping the request |
| Registry.IdsAt | AsynchronusGetServer/async_server.cpp:22 | The id list lists each connection's id in order |
| Registry.IndexOf | QT_GETServer/server.cpp:149-168 | The iterator designates the first position holding its id |
| Registry.IndexOfUnique | AsynchronusGetServer/async_server.cpp:14-22 | With ids from the tally, a connection's id fixes its position |
| Registry.Find | QT_GETServer/server.cpp:32-52 | The designated record is in the list under its id |
| Registry.Remove | QT_GETServer/server.cpp:164 | `erase` removes at most one connection |
| Registry.RemoveExactly | QT_GETServer/server.cpp:164 | `erase` removes exactly the designated position and keeps the rest in order |
| Registry.RemoveKeepsOthers | AsynchronusGetServer/server.cpp:73-76 | After `erase` the id is gone, one connection fewer remains, the ids still descend, and every other connection is still there |
| Registry.ShiftedMembers | AsynchronusGetServer/server.cpp:73-76 | Removing one position drops exactly the connection with that id and keeps every other connection |
| Registry.Replace | QT_GETServer/server.cpp:36-37 | Updating through the iterator keeps the number of connections |
| Registry.ReplaceExactly | QT_GETServer/server.cpp:36-40 | Updating through the iterator changes exactly the designated position |
| Registry.ReplaceKeepsIds | QT_GETServer/server.cpp:36-40 | Updating keeps the ids and their order, and the new record is found under its id |
| Registry.RemoveReplace | AsynchronusGetServer/async_server.cpp:88-89 | Erasing after an update erases the same position |
| Registry.HasFront | QT_GETServer/server.cpp:172 | Emplacing at the front keeps every existing handle valid |
| Registry.ConnectionList.constructor | AsynchronusGetServer/async_server.cpp:33 | The list starts empty, with the tally at 0 |
| Registry.ConnectionList.EmplaceFront | AsynchronusGetServer/async_server.cpp:140-141 | `emplace(begin())` puts a fresh connection, whose id is the tally, at the front. The tally goes up by one, and ids stay unique and descending |
| Registry.ConnectionList.Erase | AsynchronusGetServer/async_server.cpp:52 | `erase` keeps the invariant and removes exactly that connection |
| Registry.ConnectionList.Put | QT_GETServer/server.cpp:25-28 | Writing through the iterator keeps the invariant and the ids |
| Registry.ConnectionList.ReadOutAt | QT_GETServer/server.cpp:33-41 | The read-out changes only the designated record, and only when bytes arrived; the handle stays valid |
| Registry.ConnectionList.Deliver | QT_GETServer/server.cpp:55-58 | `async_read_until` appends the received bytes to that connection's buffer only |
| QtServer.Server.constructor | QT_GETServer/server.cpp:171-175 | A server starts with no connections and nothing issued |
| QtServer.Server.StartAccept | QT_GETServer/server.cpp:171-175 | `start_accept` emplaces a fresh connection at the front and issues one accept on it |
| QtServer.Server.CloseConnection | QT_GETServer/server.cpp:25-28 | `close_connection` drains that connection's buffer and issues its shutdown |
| QtServer.Server.CloseAndErase | QT_GETServer/server.cpp:163-164 | The error pattern issues a shutdown and erases exactly that connection |
| QtServer.Server.HandleRead | QT_GETServer/server.cpp:32-52 | The request is set only when bytes arrived. No error: a read then the reply writes are issued. Eof: nothing. Other errors: shutdown and erase |
| QtServer.Server.WriteResponse | QT_GETServer/server.cpp:79-128 | `write_response` issues the reply text marked final exactly when not binary, then the binary payload marked final |
| QtServer.Server.HandleResponse | QT_GETServer/server.cpp:63-76 | A final write without error drains and shuts down an open socket and keeps the connection. A write that is not final changes nothing. An error shuts down and erases exactly that connection |
| QtServer.Server.HandleAcknowledge | QT_GETServer/server.cpp:132-145 | Nothing happens unless the write failed, and then the connection is shut down and erased |
| QtServer.Server.HandleAccept | QT_GETServer/server.cpp:149-168 | Success opens the socket and issues the acknowledgment write and a read; failure shuts down and erases. Either way a new accept follows on a fresh front connection |
| GetServerHandlers.Server.constructor | AsynchronusGetServer/server.cpp:164-168 | A server starts with no connections and nothing issued |
| GetServerHandlers.Server.StartAccept | AsynchronusGetServer/server.cpp:164-168 | `start_accept` emplaces a fresh connection at the front and issues one accept on it |
| GetServerHandlers.Server.HandleRead | AsynchronusGetServer/server.cpp:35-52 | As in the Qt server, but another error erases without a shutdown |
| GetServerHandlers.Server.WriteResponse | AsynchronusGetServer/server.cpp:102-128 | The reply text is marked final exactly when not binary; a binary payload follows, marked final |
| GetServerHandlers.Server.HandleResponse | AsynchronusGetServer/server.cpp:63-77 | A final write without error drains and shuts down an open socket without erasing; an error erases exactly that connection, with no shutdown |
| GetServerHandlers.Server.HandleAcknowledge | AsynchronusGetServer/server.cpp:133-138 | Nothing happens unless the write failed, and then the connection is erased |
| GetServerHandlers.Server.HandleAccept | AsynchronusGetServer/server.cpp:142-161 | Success opens the socket and issues the acknowledgment and a read; failure erases. Either way a new accept follows |
| AsyncServer.Server.constructor | AsynchronusGetServer/async_server.cpp:33 | A server starts with no connections, tally 0 and nothing issued |
| AsyncServer.Server.StartAccept | AsynchronusGetServer/async_server.cpp:140-144 | A fresh connection whose `conn_id` is the tally goes to the front, and one accept is issued |
| AsyncServer.Server.HandleRead | AsynchronusGetServer/async_server.cpp:35-54 | The request is set only when bytes arrived. No error: a read, then the `String` reply writes. Eof: nothing. Other errors: erase |
| AsyncServer.Server.WriteResponse | AsynchronusGetServer/async_server.cpp:93-121 | The text `getArr()` copies is written, marked final exactly when not binary; a binary payload follows, marked final |
| AsyncServer.Server.HandleWrite | AsynchronusGetServer/async_server.cpp:61-72 | The acknowledgment's handler erases that connection on error only |
| AsyncServer.Server.HandleResponse | AsynchronusGetServer/async_server.cpp:74-91 | A final write without error drains and shuts down an open socket without erasing. A write that is not final changes nothing, even on error. A final write with error erases exactly that connection |
| AsyncServer.Server.HandleAccept | AsynchronusGetServer/async_server.cpp:123-138 | Success issues the `\r\n\r\n` acknowledgment to `handle_write` and one read; failure erases. `start_accept` always follows |
| PrototypeServer.Server.constructor | AsynchronusGetServer/asyncserver.cpp:116-120 | A server starts with no connections and nothing issued |
| PrototypeServer.Server.StartAccept | AsynchronusGetServer/asyncserver.cpp:116-120 | A fresh connection goes to the front, and one accept is issued |
| PrototypeServer.Server.HandleAccept | AsynchronusGetServer/asyncserver.cpp:77-114 | Success issues a read, then answers the stored request with writes only for a non-empty reply; failure erases. `start_accept` always follows |
| PrototypeServer.Server.Respond | AsynchronusGetServer/asyncserver.cpp:82-107 | The answer to a request is the Prototype server's writes of its `String` reply |
| PrototypeServer.Server.HandleRead | AsynchronusGetServer/asyncserver.cpp:31-51 | No error: `handle_accept` runs on this connection (read, answer, new accept), then a second read. Eof: nothing. Other errors: erase |
| PrototypeServer.Server.HandleWrite | AsynchronusGetServer/asyncserver.cpp:58-75 | A write completion never closes or shuts down, and an error erases exactly that connection |

## Left out

- **Boost.Asio.** Sockets, the acceptor, `io_service::run`, and the actual asynchrony and ordering of completions are not modelled. A completion is a method call, and the operations a handler starts are appended to a ghost log. Reads are modelled as `ReadUntil` operations; `Registry.ConnectionList.Deliver` stands for the bytes a read places in the buffer.
- **The clock.** `ctime_s`, `get_current_date_and_time` and `charTime` are replaced by a `date` parameter.
- **File I/O.** Opening and reading files is replaced by a map from paths to contents.
- Common.BytesToChars / Response.TextBody: a text file is opened as a text-mode `std::ifstream` (QT_GETServer/server.cpp:239, 303-306; AsynchronusGetServer/async_server.cpp:185; AsynchronusGetServer/asyncserver.cpp:161). The file contents in the map stand for the bytes that stream yields, so the newline translation of a text-mode stream on Windows (CR LF read as LF) is not modelled.
- **Logging and console output.** `write_to_outputs`, `write_to_log`, the access-log assembly in `write_response` and `cout`/`cerr` are left out. This includes the Qt server's `split_string(*buff, ' ')[1]` indexing of its log line, which fails on the empty "invalid" reply.
- **The copy into `fileBuffArr`.** `write_response` copies the payload into `fileBuffArr` and builds a `std::string` from it; that string is leaked and is never the data written. The payload write is modelled as the file bytes themselves.
- **Qt and program start-up.** The Qt GUI and its thread are left out: servercontroller, `IOServiceThread`, `start`, `stop`, `listen` and `run`. So are the `main` functions, the headers (used only for field names) and the browser scripts under `html/`.
- **Other `String` members.**
  - The stream operators `>>`/`<<` are left out (they are I/O).
  - `operator<`, `<=` and `>=` are left out: `operator<` can read past the right-hand buffer.
  - `split(String)` is left out. It is the same loop as `split(char)` over `findstr`, whose defect is recorded under Findings.
  - `operator[]`, `getArr` and the destructor are used implicitly, through buffer contents and fresh storage.
- StringClass.String.WithCapacityFrom: requires `N <= |x|`, because `String(N, x)` reads `x[0..N)` and reads past `x` when `N` is larger.
- StringClass.String.FindStr: requires `pos >= 0`, because a negative `pos` indexes before the buffer.
- StringClass.String.Substr: requires a non-negative `start` whenever `start <= end`, for the same reason.
- StringClass.String.Split: requires `det != '\0'`, because `String::split` never terminates for a NUL delimiter. Its characterisation is stated only for strings without spare capacity, which is the only kind the servers split. For other strings only the invariant of each element is proved.
- StringClass.String.Assign: the source's self-assignment test can never be true, because the right-hand side is a by-value copy with its own buffer. The model keeps the branch and always copies.
- QtServer.Server.HandleRead: requires the request to have a line token, because `parse_get` indexes `split_string(buff, '\n')[0]` unconditionally. The same holds for QtServer.Server.WriteResponse, GetServerHandlers.Server.HandleRead and GetServerHandlers.Server.WriteResponse.
- **Handles.** Every handler requires its handle to designate a listed connection. Using an erased iterator is undefined behaviour in C++, so the model does not give it a meaning. The Qt server's `con_handle != end()` test is always true for such a handle.
- **Shutdown of a closed socket.** `shutdown` on a socket that was never opened throws in Boost. The model records the shutdown as an issued operation and does not model the exception.
- **Integer overflow.** `sprintf_s("%d", ...)` of the length, `(int)` casts and `CONNECTOR_TALLY` are modelled as unbounded numbers: sizes are assumed to fit in `int`.
- Tokenizer.ReplaceAll: requires a non-empty `from`. With an empty `from`, `find` matches at every position and the loop never ends.

## Findings

| source | as written | input that shows it | evidently intended | confidence | as-written member | corrected member |
|---|---|---|---|---|---|---|
| AsynchronusGetServer/string.cpp:301-322 | `findstr` compares every character of the pattern, but each comparison overwrites `isPresent`. Only the last comparison, at `j == length() - 1`, decides, so only the first character (the `str[i] == string[0]` guard) and the last are checked | `String("axb").findstr(0, "ayb")` returns 0, although `"ayb"` does not occur | the least position at or after `pos` where the whole pattern occurs, else -1 | not executed | StringValue.FindStrAcceptsNonOccurrence, StringClass.String.FindStr | StringValue.FindStrIntended, StringClass.String.FindStrFixed |
