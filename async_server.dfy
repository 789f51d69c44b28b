/** The handlers of AsynchronusGetServer/async_server.cpp:35-144 over the
    connection list. Connections carry `conn_id`, the tally of
    `Registry.ConnectionList`. Requests are resolved and answered with the
    `String` class, and the acknowledgment goes to `handle_write`. The
    clock reading is the `date` parameter; the files are `files`. */
module AsyncServer {
  import opened Common
  import opened Registry
  import opened Events
  import opened Response

  class Server {
    const registry: ConnectionList
    const files: map<seq<char>, seq<byte>>
    ghost var issued: seq<Op>

    ghost predicate Valid()
      reads registry
    {
      registry.Valid()
    }

    constructor(files: map<seq<char>, seq<byte>>)
      ensures Valid() && fresh(registry)
      ensures registry.items == [] && registry.tally == 0 && issued == [] && this.files == files
    {
      registry := new ConnectionList();
      this.files := files;
      issued := [];
    }

    /** `start_accept` (async_server.cpp:140-144): a fresh connection, whose
        `conn_id` is the tally, at the front of the list and an accept on
        it. */
    method StartAccept() returns (h: nat)
      requires Valid()
      modifies this, registry
      ensures Valid() && h == old(registry.tally) && registry.tally == h + 1
      ensures registry.items == [Fresh(h)] + old(registry.items) && !Has(old(registry.items), h)
      ensures issued == old(issued) + [Accept(h)]
    {
      h := registry.EmplaceFront();
      issued := issued + [Accept(h)];
    }

    /** `handle_read` (async_server.cpp:35-54): the request is read out when
        bytes arrived; without error a read is re-armed and the response
        written, end of file does nothing, another error erases the
        connection. */
    method HandleRead(h: nat, err: Err, bytes: nat, date: CText)
      requires Valid() && Has(registry.items, h)
      modifies this, registry
      ensures Valid() && registry.tally == old(registry.tally)
      ensures var c := ReadOut(Find(old(registry.items), h), bytes);
        var read := if bytes > 0 then Replace(old(registry.items), c) else old(registry.items);
        match err
        case NoError =>
          var reply := StringAnswer(Async, c.request, date, files);
          registry.items == read &&
          issued == old(issued) + [ReadUntil(h)] + ResponseWrites(h, Sent(Async, reply.text), reply)
        case Eof => registry.items == read && issued == old(issued)
        case Other => registry.items == Remove(old(registry.items), h) && issued == old(issued)
    {
      var c := registry.ReadOutAt(h, bytes);
      if err == NoError {
        issued := issued + [ReadUntil(h)];
        WriteResponse(h, date);
      } else if err == Eof {
      } else {
        registry.Erase(h);
      }
    }

    /** `write_response` (async_server.cpp:93-121) without its console
        output: the `String` reply, copied out through `getArr`, then the
        file bytes when binary. */
    method WriteResponse(h: nat, date: CText)
      requires Valid() && Has(registry.items, h)
      modifies this
      ensures Valid()
      ensures var reply := StringAnswer(Async, Find(registry.items, h).request, date, files);
        issued == old(issued) + ResponseWrites(h, Sent(Async, reply.text), reply)
    {
      var reply := StringAnswer(Async, Find(registry.items, h).request, date, files);
      issued := issued + ResponseWrites(h, Sent(Async, reply.text), reply);
    }

    /** `handle_write` (async_server.cpp:61-72), the handler of the
        acknowledgment: an error erases the connection. */
    method HandleWrite(h: nat, err: Err)
      requires Valid() && Has(registry.items, h)
      modifies this, registry
      ensures Valid() && registry.tally == old(registry.tally) && issued == old(issued)
      ensures err == NoError ==> registry.items == old(registry.items)
      ensures err != NoError ==> registry.items == Remove(old(registry.items), h)
    {
      if err != NoError {
        registry.Erase(h);
      }
    }

    /** `handle_response` (async_server.cpp:74-91). A successful final write
        drains and shuts an open socket down without erasing; a write that
        is not final changes nothing, whatever its error; a final write that
        failed drains the buffer and erases the connection. */
    method HandleResponse(h: nat, isFinished: bool, err: Err)
      requires Valid() && Has(registry.items, h)
      modifies this, registry
      ensures Valid() && registry.tally == old(registry.tally)
      ensures var c := Find(old(registry.items), h);
        if err == NoError && isFinished && c.open then
          registry.items == Replace(old(registry.items), Drained(c)) && issued == old(issued) + [Shutdown(h)]
        else if err != NoError && isFinished then
          registry.items == Remove(old(registry.items), h) && issued == old(issued)
        else
          registry.items == old(registry.items) && issued == old(issued)
    {
      var c := Find(registry.items, h);
      if err == NoError && isFinished {
        if c.open {
          registry.Put(Drained(c));
          issued := issued + [Shutdown(h)];
        }
      } else if !isFinished {
      } else {
        var drained := c.(readBuffer := []);
        RemoveReplace(registry.items, drained);
        registry.Put(drained);
        registry.Erase(h);
      }
    }

    /** `handle_accept` (async_server.cpp:123-138): on success the socket is
        open, the acknowledgment is written to `handle_write` and a read
        started; on failure the connection is erased. Either way the next
        accept is started, whose connection is returned. */
    method HandleAccept(h: nat, err: Err) returns (next: nat)
      requires Valid() && Has(registry.items, h)
      modifies this, registry
      ensures Valid() && next == old(registry.tally) && registry.tally == next + 1
      ensures var c := Find(old(registry.items), h);
        registry.items == [Fresh(next)] +
          (if err == NoError then Replace(old(registry.items), c.(open := true)) else Remove(old(registry.items), h))
      ensures issued == old(issued) +
        (if err == NoError then [Write(h, Text(Acknowledgment), OnWrite), ReadUntil(h)] else []) +
        [Accept(next)]
    {
      if err == NoError {
        var c := Find(registry.items, h);
        registry.Put(c.(open := true));
        issued := issued + [Write(h, Text(Acknowledgment), OnWrite), ReadUntil(h)];
      } else {
        registry.Erase(h);
      }
      next := StartAccept();
    }
  }
}
