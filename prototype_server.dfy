/** The handlers of AsynchronusGetServer/asyncserver.cpp:31-120, the
    earliest of the `String` servers. Here `handle_accept` both re-arms the
    read and answers the stored request, and a successful read calls
    `handle_accept` again: so the first answer goes to the empty request,
    every read starts a new accept, and no write is ever final or closes
    the connection. The clock reading is the `date` parameter; the files
    are `files`. */
module PrototypeServer {
  import opened Common
  import opened Registry
  import opened Events
  import opened Response

  class Server {
    const registry: ConnectionList
    const files: map<seq<char>, seq<byte>>
    ghost var issued: seq<Op>

    ghost predicate Valid()
      reads registry
    {
      registry.Valid()
    }

    constructor(files: map<seq<char>, seq<byte>>)
      ensures Valid() && fresh(registry)
      ensures registry.items == [] && registry.tally == 0 && issued == [] && this.files == files
    {
      registry := new ConnectionList();
      this.files := files;
      issued := [];
    }

    /** `start_accept` (asyncserver.cpp:116-120). */
    method StartAccept() returns (h: nat)
      requires Valid()
      modifies this, registry
      ensures Valid() && h == old(registry.tally) && registry.tally == h + 1
      ensures registry.items == [Fresh(h)] + old(registry.items) && !Has(old(registry.items), h)
      ensures issued == old(issued) + [Accept(h)]
    {
      h := registry.EmplaceFront();
      issued := issued + [Accept(h)];
    }

    /** `handle_accept` (asyncserver.cpp:77-114): on success a read is
        started and the stored request answered, with no write at all when
        the reply text is empty; on failure the connection is erased.
        Either way the next accept is started, whose connection is
        returned. */
    method HandleAccept(h: nat, err: Err, date: CText) returns (next: nat)
      requires Valid() && Has(registry.items, h)
      modifies this, registry
      ensures Valid() && next == old(registry.tally) && registry.tally == next + 1
      ensures var c := Find(old(registry.items), h);
        registry.items == [Fresh(next)] +
          (if err == NoError then Replace(old(registry.items), c.(open := true)) else Remove(old(registry.items), h))
      ensures var reply := StringAnswer(Prototype, Find(old(registry.items), h).request, date, files);
        err == NoError ==>
          issued == old(issued) + [ReadUntil(h)] + PrototypeWrites(h, Sent(Prototype, reply.text), reply) + [Accept(next)]
      ensures err != NoError ==> issued == old(issued) + [Accept(next)]
    {
      if err == NoError {
        var c := Find(registry.items, h);
        registry.Put(c.(open := true));
        issued := issued + [ReadUntil(h)];
        Respond(h, c.request, date);
      } else {
        registry.Erase(h);
      }
      next := StartAccept();
    }

    /** The answering part of `handle_accept` (asyncserver.cpp:82-107): the
        `String` reply to the stored request, copied out through `getArr`,
        written only when non-empty. */
    method Respond(h: nat, request: seq<char>, date: CText)
      modifies this
      ensures var reply := StringAnswer(Prototype, request, date, files);
        issued == old(issued) + PrototypeWrites(h, Sent(Prototype, reply.text), reply)
    {
      var reply := StringAnswer(Prototype, request, date, files);
      var text := Sent(Prototype, reply.text);
      issued := issued + PrototypeWrites(h, text, reply);
    }

    /** `handle_read` (asyncserver.cpp:31-51): the request is read out when
        bytes arrived; without error `handle_accept` runs on this connection
        and then a second read is started; end of file does nothing;
        another error erases the connection. */
    method HandleRead(h: nat, err: Err, bytes: nat, date: CText)
      requires Valid() && Has(registry.items, h)
      modifies this, registry
      ensures Valid()
      ensures var c := ReadOut(Find(old(registry.items), h), bytes);
        var read := if bytes > 0 then Replace(old(registry.items), c) else old(registry.items);
        match err
        case NoError =>
          var reply := StringAnswer(Prototype, c.request, date, files);
          var next := old(registry.tally);
          registry.tally == next + 1 &&
          registry.items == [Fresh(next)] + Replace(read, c.(open := true)) &&
          issued == old(issued) + [ReadUntil(h)] + PrototypeWrites(h, Sent(Prototype, reply.text), reply) +
            [Accept(next)] + [ReadUntil(h)]
        case Eof => registry.tally == old(registry.tally) && registry.items == read && issued == old(issued)
        case Other =>
          registry.tally == old(registry.tally) &&
          registry.items == Remove(old(registry.items), h) && issued == old(issued)
    {
      var c := registry.ReadOutAt(h, bytes);
      if err == NoError {
        ghost var read := registry.items;
        var next := HandleAccept(h, NoError, date);
        assert Has(registry.items, h) by {
          RemoveReplace(read, c.(open := true));
          HasFront(Fresh(next), Replace(read, c.(open := true)), h);
        }
        issued := issued + [ReadUntil(h)];
      } else if err == Eof {
      } else {
        registry.Erase(h);
      }
    }

    /** `handle_write` (asyncserver.cpp:58-75): it never closes or shuts
        down; an error erases the connection. */
    method HandleWrite(h: nat, err: Err)
      requires Valid() && Has(registry.items, h)
      modifies this, registry
      ensures Valid() && registry.tally == old(registry.tally) && issued == old(issued)
      ensures err == NoError ==> registry.items == old(registry.items)
      ensures err != NoError ==> registry.items == Remove(old(registry.items), h)
    {
      if err != NoError {
        registry.Erase(h);
      }
    }
  }
}
