/** The `std::list<Connection>` each server keeps (`m_connections_` in
    QT_GETServer/server.cpp, `m_connections` in the other three). New
    connections are emplaced at the front by `start_accept`; handlers erase
    exactly the connection their iterator designates.

    A list iterator is modelled by the connection's id. The ids come from a
    tally that goes up by one per connection: this is `conn_id =
    CONNECTOR_TALLY++` in AsynchronusGetServer/async_server.cpp:14-22, and
    gives the other servers, whose `Connection` has no id, an identity that
    stands in for the iterator. */
module Registry {
  /** One `Connection`: the fields of VS_GETServer/AsynchronusGetServer/connection.h
      and AsynchronusGetServer/connection.hpp, with the
      socket reduced to whether it is open and whether it was shut down. */
  datatype Connection = Connection(
    id: nat,
    readBuffer: seq<char>,   // the bytes `async_read_until` left in the streambuf
    request: seq<char>,      // the last request text read out of it
    open: bool,              // `socket.is_open()`
    shutdown: bool)          // `socket.shutdown(shutdown_both)` was called

  /** A connection as `start_accept` emplaces it. */
  function Fresh(id: nat): (c: Connection)
    ensures c.id == id && c.readBuffer == [] && c.request == [] && !c.open && !c.shutdown
  {
    Connection(id, [], [], false, false)
  }

  /** `handle_read` with `bytes_transfered > 0`: the whole streambuf is read
      out into `request`, leaving it empty. */
  function ReadOut(c: Connection, bytes: nat): (r: Connection)
    ensures r.id == c.id && r.open == c.open && r.shutdown == c.shutdown
    ensures bytes > 0 ==> r.request == c.readBuffer && r.readBuffer == []
    ensures bytes == 0 ==> r == c
  {
    if bytes > 0 then c.(request := c.readBuffer, readBuffer := []) else c
  }

  /** `read_buffer.consume(read_buffer.size())` followed by
      `socket.shutdown(shutdown_both)`. */
  function Drained(c: Connection): (r: Connection)
    ensures r.id == c.id && r.readBuffer == [] && r.request == c.request && r.open == c.open && r.shutdown
  {
    c.(readBuffer := [], shutdown := true)
  }

  /** The ids in list order. */
  function Ids(cs: seq<Connection>): seq<nat>
  {
    if cs == [] then [] else [cs[0].id] + Ids(cs[1..])
  }

  lemma {:induction false} IdsAt(cs: seq<Connection>)
    ensures |Ids(cs)| == |cs|
    ensures forall i :: 0 <= i < |cs| ==> Ids(cs)[i] == cs[i].id
  {
    if cs != [] {
      IdsAt(cs[1..]);
    }
  }

  predicate Has(cs: seq<Connection>, h: nat)
  {
    h in Ids(cs)
  }

  /** Newest first: each emplacement at the front has a larger id. */
  predicate Descending(cs: seq<Connection>)
  {
    forall i, j :: 0 <= i < j < |cs| ==> cs[i].id > cs[j].id
  }

  /** The position of the connection `h` designates. */
  function IndexOf(cs: seq<Connection>, h: nat): (k: nat)
    requires Has(cs, h)
    ensures k < |cs| && cs[k].id == h
    ensures forall i :: 0 <= i < k ==> cs[i].id != h
  {
    if cs[0].id == h then 0 else 1 + IndexOf(cs[1..], h)
  }

  /** Among descending ids, the connection with a given id sits at one
      position only. */
  lemma IndexOfUnique(cs: seq<Connection>, h: nat, k: nat)
    requires Descending(cs) && k < |cs| && cs[k].id == h
    ensures Has(cs, h) && IndexOf(cs, h) == k
  {
    IdsAt(cs);
    assert Ids(cs)[k] == h;
  }

  /** The record `h` designates. */
  function Find(cs: seq<Connection>, h: nat): (c: Connection)
    requires Has(cs, h)
    ensures c in cs && c.id == h
  {
    cs[IndexOf(cs, h)]
  }

  /** `erase(it)`: drop the first connection with id `h`. */
  function Remove(cs: seq<Connection>, h: nat): (r: seq<Connection>)
    ensures |cs| - 1 <= |r| <= |cs|
  {
    if cs == [] then []
    else if cs[0].id == h then cs[1..]
    else [cs[0]] + Remove(cs[1..], h)
  }

  /** Erasing removes exactly the designated connection and keeps the
      others in order. */
  lemma {:induction false} RemoveExactly(cs: seq<Connection>, h: nat)
    requires Has(cs, h)
    ensures var k := IndexOf(cs, h);
      Remove(cs, h) == cs[..k] + cs[k + 1..]
  {
    if cs[0].id != h {
      RemoveStep(cs, h);
      RemoveExactly(cs[1..], h);
      RemoveShift(cs, h);
    } else {
      RemoveHead(cs, h);
    }
  }

  /** The slices of the tail, shifted back onto the whole list. */
  lemma RemoveShift(cs: seq<Connection>, h: nat)
    requires Has(cs, h) && cs[0].id != h && Has(cs[1..], h)
    requires var k := IndexOf(cs[1..], h); Remove(cs[1..], h) == cs[1..][..k] + cs[1..][k + 1..]
    ensures var k := IndexOf(cs, h); Remove(cs, h) == cs[..k] + cs[k + 1..]
  {
    var t, j := cs[1..], IndexOf(cs[1..], h);
    RemoveStep(cs, h);
    ConsSlices(cs[0], t, j);
    assert cs == [cs[0]] + t;
    calc {
      Remove(cs, h);
      [cs[0]] + Remove(t, h);
      [cs[0]] + (t[..j] + t[j + 1..]);
      ([cs[0]] + t[..j]) + t[j + 1..];
      cs[..j + 1] + cs[j + 2..];
    }
  }

  lemma RemoveHead(cs: seq<Connection>, h: nat)
    requires cs != [] && cs[0].id == h
    ensures Has(cs, h) && IndexOf(cs, h) == 0 && Remove(cs, h) == cs[..0] + cs[1..]
  {
    assert Ids(cs)[0] == h;
  }

  /** One unfolding of `IndexOf` and `Remove` past a connection that is not
      the designated one. */
  lemma RemoveStep(cs: seq<Connection>, h: nat)
    requires Has(cs, h) && cs[0].id != h
    ensures Has(cs[1..], h) && IndexOf(cs, h) == IndexOf(cs[1..], h) + 1
    ensures Remove(cs, h) == [cs[0]] + Remove(cs[1..], h)
  {
    assert Ids(cs) == [cs[0].id] + Ids(cs[1..]);
  }

  lemma ConsSlices(x: Connection, t: seq<Connection>, k: nat)
    requires k < |t|
    ensures ([x] + t)[..k + 1] == [x] + t[..k] && ([x] + t)[k + 2..] == t[k + 1..]
  {
  }

  /** After erasing, the id is gone, one connection fewer remains, the order
      is still newest first, and every other connection is still there. */
  lemma RemoveKeepsOthers(cs: seq<Connection>, h: nat)
    requires Descending(cs) && Has(cs, h)
    ensures var r := Remove(cs, h);
      |r| == |cs| - 1 && !Has(r, h) && Descending(r) &&
      (forall c :: c in cs && c.id != h <==> c in r)
  {
    var k := IndexOf(cs, h);
    RemoveExactly(cs, h);
    ShiftedIds(cs, k, cs[..k] + cs[k + 1..]);
  }

  /** The facts about `cs` with position `k` cut out. */
  lemma ShiftedIds(cs: seq<Connection>, k: nat, r: seq<Connection>)
    requires Descending(cs) && k < |cs| && r == cs[..k] + cs[k + 1..]
    ensures |r| == |cs| - 1 && !Has(r, cs[k].id) && Descending(r)
    ensures forall c :: c in cs && c.id != cs[k].id <==> c in r
  {
    ShiftedAt(cs, k, r);
    ShiftedLacks(cs, k, r);
    ShiftedMembers(cs, k, r);
  }

  lemma ShiftedAt(cs: seq<Connection>, k: nat, r: seq<Connection>)
    requires Descending(cs) && k < |cs| && r == cs[..k] + cs[k + 1..]
    ensures |r| == |cs| - 1 && Descending(r)
    ensures forall i :: 0 <= i < |r| ==> r[i] == if i < k then cs[i] else cs[i + 1]
  {
  }

  lemma ShiftedLacks(cs: seq<Connection>, k: nat, r: seq<Connection>)
    requires Descending(cs) && k < |cs| && r == cs[..k] + cs[k + 1..]
    ensures !Has(r, cs[k].id)
  {
    ShiftedAt(cs, k, r);
    IdsAt(r);
    assert forall i :: 0 <= i < |r| ==> Ids(r)[i] != cs[k].id;
  }

  lemma ShiftedMembers(cs: seq<Connection>, k: nat, r: seq<Connection>)
    requires Descending(cs) && k < |cs| && r == cs[..k] + cs[k + 1..]
    ensures forall c :: c in cs && c.id != cs[k].id <==> c in r
  {
    assert forall c :: c in cs <==> c in cs[..k] || c == cs[k] || c in cs[k + 1..] by {
      assert cs == cs[..k] + [cs[k]] + cs[k + 1..];
    }
    assert forall c :: c in cs[..k] || c in cs[k + 1..] ==> c.id != cs[k].id;
  }

  /** The list with the connection `c.id` designates replaced by `c`. */
  function Replace(cs: seq<Connection>, c: Connection): (r: seq<Connection>)
    ensures |r| == |cs|
  {
    if cs == [] then []
    else if cs[0].id == c.id then [c] + cs[1..]
    else [cs[0]] + Replace(cs[1..], c)
  }

  /** Replacing touches exactly the designated position. */
  lemma {:induction false} ReplaceExactly(cs: seq<Connection>, c: Connection)
    requires Has(cs, c.id)
    ensures Replace(cs, c) == cs[IndexOf(cs, c.id) := c]
  {
    if cs[0].id != c.id {
      ReplaceExactly(cs[1..], c);
    }
  }

  /** Replacing keeps the ids, hence the order, and the replaced record is
      found again under its id. */
  lemma ReplaceKeepsIds(cs: seq<Connection>, c: Connection)
    requires Descending(cs) && Has(cs, c.id)
    ensures Ids(Replace(cs, c)) == Ids(cs)
    ensures Descending(Replace(cs, c)) && Find(Replace(cs, c), c.id) == c
  {
    var k := IndexOf(cs, c.id);
    var r := Replace(cs, c);
    assert r == cs[k := c] by { ReplaceExactly(cs, c); }
    assert Ids(r) == Ids(cs) by {
      IdsAt(r);
      IdsAt(cs);
    }
    IndexOfUnique(r, c.id, k);
  }

  /** Erasing after a replacement erases the same position. */
  lemma {:induction false} RemoveReplace(cs: seq<Connection>, c: Connection)
    requires Has(cs, c.id)
    ensures Has(Replace(cs, c), c.id) && Remove(Replace(cs, c), c.id) == Remove(cs, c.id)
  {
    if cs[0].id != c.id {
      RemoveReplace(cs[1..], c);
    }
  }

  /** Emplacing at the front keeps every id designated. */
  lemma HasFront(x: Connection, cs: seq<Connection>, h: nat)
    requires Has(cs, h)
    ensures Has([x] + cs, h)
  {
    assert ([x] + cs)[1..] == cs;
  }

  /** The list of one server. */
  class ConnectionList {
    var items: seq<Connection>
    /** The id the next connection gets. */
    var tally: nat

    /** Ids are below the tally and strictly decreasing from the front, so
        no two connections share one. */
    predicate Valid()
      reads this
    {
      Descending(items) && forall i :: 0 <= i < |items| ==> items[i].id < tally
    }

    constructor()
      ensures Valid() && items == [] && tally == 0
    {
      items := [];
      tally := 0;
    }

    /** `m_connections.emplace(m_connections.begin(), m_ioservice)`, with
        `conn_id = CONNECTOR_TALLY++`. */
    method EmplaceFront() returns (h: nat)
      requires Valid()
      modifies this
      ensures Valid()
      ensures h == old(tally) && tally == old(tally) + 1 && !Has(old(items), h)
      ensures items == [Fresh(h)] + old(items)
    {
      h := tally;
      IdsAt(items);
      items := [Fresh(h)] + items;
      tally := tally + 1;
    }

    /** `m_connections.erase(con_handle)`. */
    method Erase(h: nat)
      requires Valid() && Has(items, h)
      modifies this
      ensures Valid() && tally == old(tally)
      ensures items == Remove(old(items), h)
    {
      RemoveKeepsOthers(items, h);
      ghost var before := items;
      items := Remove(items, h);
      assert forall c :: c in items ==> c in before;
    }

    /** Writing through the iterator: the record `c.id` designates becomes
        `c`. */
    method Put(c: Connection)
      requires Valid() && Has(items, c.id)
      modifies this
      ensures Valid() && tally == old(tally)
      ensures items == Replace(old(items), c) && Ids(items) == Ids(old(items))
    {
      ReplaceKeepsIds(items, c);
      ghost var before := items;
      items := Replace(items, c);
      assert forall i :: 0 <= i < |items| ==> items[i].id == before[i].id by {
        IdsAt(items);
        IdsAt(before);
      }
    }

    /** The read-out of the streambuf at the start of `handle_read`: the
        whole buffer becomes the request of `h` when bytes arrived. */
    method ReadOutAt(h: nat, bytes: nat) returns (c: Connection)
      requires Valid() && Has(items, h)
      modifies this
      ensures Valid() && tally == old(tally)
      ensures c == ReadOut(Find(old(items), h), bytes)
      ensures items == if bytes > 0 then Replace(old(items), c) else old(items)
      ensures Has(items, h) && Find(items, h) == c && Remove(items, h) == Remove(old(items), h)
    {
      c := ReadOut(Find(items, h), bytes);
      if bytes > 0 {
        RemoveReplace(items, c);
        ReplaceKeepsIds(items, c);
        Put(c);
      }
    }

    /** `async_read_until` placing received bytes in the streambuf, before
        the read handler runs. */
    method Deliver(h: nat, data: seq<char>)
      requires Valid() && Has(items, h)
      modifies this
      ensures Valid() && tally == old(tally)
      ensures var c := Find(old(items), h);
        items == Replace(old(items), c.(readBuffer := c.readBuffer + data))
    {
      var c := Find(items, h);
      Put(c.(readBuffer := c.readBuffer + data));
    }
  }
}
