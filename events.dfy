/** The asynchronous operations the handlers issue, and what each server
    sends for a request. Boost.Asio itself is not modelled: a completion is
    a method call on the server, and each operation a handler starts is
    appended to a log of issued operations. */
module Events {
  import opened Common
  import opened Tokenizer
  import opened StringValue
  import opened Resolve
  import opened Response

  /** The `boost::system::error_code` a completion carries, as the handlers
      tell them apart. */
  datatype Err = NoError | Eof | Other

  /** What a write sends: a text, or the raw bytes of a binary file. */
  datatype Data = Text(chars: seq<char>) | Bytes(bytes: seq<byte>)

  /** The completion handler bound to a write. */
  datatype Callback =
    | OnAcknowledge             // `handle_acknowledge`
    | OnResponse(final: bool)   // `handle_response` with `isFinished`
    | OnWrite                   // `handle_write`

  /** One operation a handler starts. */
  datatype Op =
    | ReadUntil(handle: nat)                         // `do_async_read`: `async_read_until(..., "\r\n\r\n")`
    | Write(handle: nat, data: Data, callback: Callback) // `async_write`
    | Accept(handle: nat)                            // `async_accept` in `start_accept`
    | Shutdown(handle: nat)                          // `socket.shutdown(shutdown_both)`

  /** The acknowledgment `handle_accept` writes. */
  const Acknowledgment: seq<char> := "\r\n\r\n"

  /** Opening the file at a path: its bytes, or `None` when it cannot be
      opened. */
  function Lookup(files: map<seq<char>, seq<byte>>, path: seq<char>): (r: Option<seq<byte>>)
    ensures r.Some? <==> path in files
    ensures r.Some? ==> r.value == files[path]
  {
    if path in files then Some(files[path]) else None
  }

  /** The std::string servers can answer a request only when it has a
      line: `parse_get` indexes `split_string(buff, '\n')[0]`. */
  predicate Answerable(request: seq<char>)
  {
    Tokens(CStr(request), '\n') != []
  }

  /** `formulate_response(parse_get(req.c_str()))` of a std::string server. */
  function StdAnswer(v: Variant, request: seq<char>, date: CText, files: map<seq<char>, seq<byte>>): (r: Reply)
    requires !UsesStringClass(v) && Answerable(request)
    ensures var path := ParseGet(CStr(request));
      r.isBinary ==> path in files && r.payload == files[path]
    ensures !r.isBinary ==> r.payload == []
  {
    var path := ParseGet(CStr(request));
    ParsedPathAnswerable(v, CStr(request));
    Formulate(v, path, date, Lookup(files, path))
  }

  /** `formulateResponse(parseGet(request.c_str()))` of a `String` server. */
  function StringAnswer(v: Variant, request: seq<char>, date: CText, files: map<seq<char>, seq<byte>>): (r: Reply)
    requires UsesStringClass(v)
    ensures var path := Chars(ParseGetString(CStr(request)));
      r.isBinary ==> path in files && r.payload == files[path]
    ensures !r.isBinary ==> r.payload == []
  {
    var path := Chars(ParseGetString(CStr(request)));
    Formulate(v, path, date, Lookup(files, path))
  }

  /** The text of a `String` reply as `std::string(res.getArr())` copies it. */
  function Sent(v: Variant, text: seq<char>): seq<char>
  {
    if UsesStringClass(v) then CStr(text) else text
  }

  /** `write_response`: the text write, whose handler is told it is final
      exactly when no binary write follows, and the binary write, which is
      final. */
  function ResponseWrites(h: nat, text: seq<char>, r: Reply): (ops: seq<Op>)
    ensures |ops| >= 1 && ops[0].Write? && ops[0].data == Text(text)
    ensures forall i :: 0 <= i < |ops| ==> ops[i].Write? && ops[i].handle == h && ops[i].callback.OnResponse?
  {
    [Write(h, Text(text), OnResponse(!r.isBinary))] +
    if r.isBinary then [Write(h, Bytes(r.payload), OnResponse(true))] else []
  }

  /** The writes whose handler is told the response is finished. */
  function Finals(ops: seq<Op>): nat
  {
    if ops == [] then 0
    else (if ops[0].Write? && ops[0].callback == OnResponse(true) then 1 else 0) + Finals(ops[1..])
  }

  lemma {:induction false} FinalsConcat(a: seq<Op>, b: seq<Op>)
    ensures Finals(a + b) == Finals(a) + Finals(b)
  {
    if a == [] {
      assert a + b == b;
    } else {
      assert (a + b)[0] == a[0];
      assert (a + b)[1..] == a[1..] + b;
      FinalsConcat(a[1..], b);
    }
  }

  /** Every response issues exactly one final write, and it is the last
      one; a binary response issues two writes, the second carrying the
      file bytes. */
  lemma ExactlyOneFinal(h: nat, text: seq<char>, r: Reply)
    ensures var ops := ResponseWrites(h, text, r);
      Finals(ops) == 1 && ops[|ops| - 1].callback == OnResponse(true) &&
      |ops| == (if r.isBinary then 2 else 1) &&
      (r.isBinary ==> ops[1].data == Bytes(r.payload))
  {
    var first := Write(h, Text(text), OnResponse(!r.isBinary));
    var rest: seq<Op> := if r.isBinary then [Write(h, Bytes(r.payload), OnResponse(true))] else [];
    FinalsConcat([first], rest);
    assert Finals([first]) == if r.isBinary then 0 else 1 by {
      assert [first][1..] == [];
    }
    if r.isBinary {
      assert rest[1..] == [];
    }
  }

  /** The prototype server writes a response only when its text is
      non-empty, to `handle_write`, and the file bytes after it when
      binary. */
  function PrototypeWrites(h: nat, text: seq<char>, r: Reply): (ops: seq<Op>)
    ensures ops == [] <==> text == []
    ensures ops != [] ==> ops[0].Write? && ops[0].data == Text(text)
    ensures forall i :: 0 <= i < |ops| ==> ops[i].Write? && ops[i].handle == h
  {
    if text == [] then []
    else [Write(h, Text(text), OnWrite)] + if r.isBinary then [Write(h, Bytes(r.payload), OnWrite)] else []
  }

  /** The prototype issues no write for an empty text, one for a text
      reply and two for a binary one, none of them final. */
  lemma PrototypeWritesShape(h: nat, text: seq<char>, r: Reply)
    ensures var ops := PrototypeWrites(h, text, r);
      Finals(ops) == 0 &&
      |ops| == (if text == [] then 0 else if r.isBinary then 2 else 1) &&
      (forall i :: 0 <= i < |ops| ==> ops[i].Write? && ops[i].callback == OnWrite)
  {
    var ops := PrototypeWrites(h, text, r);
    if text != [] {
      var first := Write(h, Text(text), OnWrite);
      var rest: seq<Op> := if r.isBinary then [Write(h, Bytes(r.payload), OnWrite)] else [];
      FinalsConcat([first], rest);
      assert [first][1..] == [];
      if r.isBinary {
        assert rest[1..] == [];
      }
    }
  }

  /** A connection that has read nothing yet asks `parseGet` about the
      empty request, gets "invalid", and so the empty reply: the
      prototype's first `handle_accept` writes nothing. */
  lemma EmptyRequestWritesNothing(v: Variant, h: nat, date: CText, files: map<seq<char>, seq<byte>>)
    requires UsesStringClass(v)
    ensures StringAnswer(v, [], date, files) == Reply([], false, [])
    ensures PrototypeWrites(h, Sent(v, StringAnswer(v, [], date, files).text), StringAnswer(v, [], date, files)) == []
  {
    assert CStr([]) == [];
    EmptyRequest();
    assert Chars(Of(Invalid)) == Invalid;
    InvalidReply(v, date, Lookup(files, Invalid));
  }
}
