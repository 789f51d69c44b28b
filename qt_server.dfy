/** The handlers of QT_GETServer/server.cpp:25-175 over the connection
    list. Each handler is a method called when its completion arrives; the
    operations it starts are appended to `issued`. The clock reading
    `write_response` makes is the `date` parameter; the files it can open
    are `files`. */
module QtServer {
  import opened Common
  import opened Registry
  import opened Events
  import opened Response

  class Server {
    const registry: ConnectionList
    const files: map<seq<char>, seq<byte>>
    ghost var issued: seq<Op>

    ghost predicate Valid()
      reads registry
    {
      registry.Valid()
    }

    constructor(files: map<seq<char>, seq<byte>>)
      ensures Valid() && fresh(registry)
      ensures registry.items == [] && registry.tally == 0 && issued == [] && this.files == files
    {
      registry := new ConnectionList();
      this.files := files;
      issued := [];
    }

    /** `start_accept` (server.cpp:171-175): a fresh connection at the front
        of the list and an accept on it. */
    method StartAccept() returns (h: nat)
      requires Valid()
      modifies this, registry
      ensures Valid() && h == old(registry.tally) && registry.tally == h + 1
      ensures registry.items == [Fresh(h)] + old(registry.items) && !Has(old(registry.items), h)
      ensures issued == old(issued) + [Accept(h)]
    {
      h := registry.EmplaceFront();
      issued := issued + [Accept(h)];
    }

    /** `close_connection` (server.cpp:25-28): drain the read buffer and shut
        the socket down. */
    method CloseConnection(h: nat)
      requires Valid() && Has(registry.items, h)
      modifies this, registry
      ensures Valid() && registry.tally == old(registry.tally)
      ensures registry.items == Replace(old(registry.items), Drained(Find(old(registry.items), h)))
      ensures issued == old(issued) + [Shutdown(h)]
    {
      var c := Find(registry.items, h);
      registry.Put(Drained(c));
      issued := issued + [Shutdown(h)];
    }

    /** `close_connection` then `m_connections_.erase`: the pattern of every
        error branch. */
    method CloseAndErase(h: nat)
      requires Valid() && Has(registry.items, h)
      modifies this, registry
      ensures Valid() && registry.tally == old(registry.tally)
      ensures registry.items == Remove(old(registry.items), h)
      ensures issued == old(issued) + [Shutdown(h)]
    {
      RemoveReplace(registry.items, Drained(Find(registry.items, h)));
      CloseConnection(h);
      registry.Erase(h);
    }

    /** `handle_read` (server.cpp:32-52). */
    method HandleRead(h: nat, err: Err, bytes: nat, date: CText)
      requires Valid() && Has(registry.items, h)
      requires err == NoError ==> Answerable(ReadOut(Find(registry.items, h), bytes).request)
      modifies this, registry
      ensures Valid() && registry.tally == old(registry.tally)
      ensures var c := ReadOut(Find(old(registry.items), h), bytes);
        var read := if bytes > 0 then Replace(old(registry.items), c) else old(registry.items);
        match err
        case NoError =>
          var reply := StdAnswer(Qt, c.request, date, files);
          registry.items == read &&
          issued == old(issued) + [ReadUntil(h)] + ResponseWrites(h, reply.text, reply)
        case Eof => registry.items == read && issued == old(issued)
        case Other => registry.items == Remove(old(registry.items), h) && issued == old(issued) + [Shutdown(h)]
    {
      var c := registry.ReadOutAt(h, bytes);
      if err == NoError {
        issued := issued + [ReadUntil(h)];
        WriteResponse(h, date);
      } else if err == Eof {
      } else {
        CloseAndErase(h);
      }
    }

    /** `write_response` (server.cpp:79-128) without its logging: the reply
        to the connection's request, written as one text write, or a text
        and a binary write. */
    method WriteResponse(h: nat, date: CText)
      requires Valid() && Has(registry.items, h) && Answerable(Find(registry.items, h).request)
      modifies this
      ensures Valid()
      ensures var reply := StdAnswer(Qt, Find(registry.items, h).request, date, files);
        issued == old(issued) + ResponseWrites(h, reply.text, reply)
    {
      var reply := StdAnswer(Qt, Find(registry.items, h).request, date, files);
      issued := issued + ResponseWrites(h, reply.text, reply);
    }

    /** `handle_response` (server.cpp:63-76). A successful final write shuts
        the socket down but leaves the connection in the list; an error
        closes and erases it. */
    method HandleResponse(h: nat, isFinished: bool, err: Err)
      requires Valid() && Has(registry.items, h)
      modifies this, registry
      ensures Valid() && registry.tally == old(registry.tally)
      ensures var c := Find(old(registry.items), h);
        if err == NoError && isFinished && c.open then
          registry.items == Replace(old(registry.items), Drained(c)) && issued == old(issued) + [Shutdown(h)]
        else if err != NoError then
          registry.items == Remove(old(registry.items), h) && issued == old(issued) + [Shutdown(h)]
        else
          registry.items == old(registry.items) && issued == old(issued)
    {
      if err == NoError && isFinished {
        if Find(registry.items, h).open {
          CloseConnection(h);
        }
      } else if err != NoError {
        CloseAndErase(h);
      }
    }

    /** `handle_acknowledge` (server.cpp:132-145): nothing unless the write
        failed. */
    method HandleAcknowledge(h: nat, err: Err)
      requires Valid() && Has(registry.items, h)
      modifies this, registry
      ensures Valid() && registry.tally == old(registry.tally)
      ensures err == NoError ==> registry.items == old(registry.items) && issued == old(issued)
      ensures err != NoError ==>
        registry.items == Remove(old(registry.items), h) && issued == old(issued) + [Shutdown(h)]
    {
      if err != NoError {
        CloseAndErase(h);
      }
    }

    /** `handle_accept` (server.cpp:149-168): on success the socket is open,
        the acknowledgment is written and a read started; on failure the
        connection is closed and erased. Either way the next accept is
        started, whose connection is returned. */
    method HandleAccept(h: nat, err: Err) returns (next: nat)
      requires Valid() && Has(registry.items, h)
      modifies this, registry
      ensures Valid() && next == old(registry.tally) && registry.tally == next + 1
      ensures var c := Find(old(registry.items), h);
        registry.items == [Fresh(next)] +
          (if err == NoError then Replace(old(registry.items), c.(open := true)) else Remove(old(registry.items), h))
      ensures issued == old(issued) +
        (if err == NoError then [Write(h, Text(Acknowledgment), OnAcknowledge), ReadUntil(h)] else [Shutdown(h)]) +
        [Accept(next)]
    {
      if err == NoError {
        var c := Find(registry.items, h);
        registry.Put(c.(open := true));
        issued := issued + [Write(h, Text(Acknowledgment), OnAcknowledge), ReadUntil(h)];
      } else {
        CloseAndErase(h);
      }
      next := StartAccept();
    }
  }
}
