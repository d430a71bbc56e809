/** The server's table, updated in place, and the loops that print it and read it back. */
module Registry {
  import opened Bytes
  import opened Words
  import opened ClientList

  lemma {:induction false} InsertAt(table: seq<Entry>, name: Text, ip: Text, i: nat)
    requires i <= |table| && forall j :: 0 <= j < i ==> Less(table[j].name, name)
    requires i < |table| ==> !Less(table[i].name, name)
    ensures var rest := if i < |table| && table[i].name == name then table[i + 1..] else table[i..];
            Insert(table, name, ip) == table[..i] + [Entry(name, ip)] + rest
  {
    if i > 0 {
      LessTotal(table[0].name, name);
      InsertAt(table[1..], name, ip, i - 1);
      InsertLater(table, name, ip, i);
    } else if table != [] {
      LessTotal(table[0].name, name);
    }
  }

  /** Seen from the second entry on, the pieces around the insertion are the same. */
  lemma InsertLater(table: seq<Entry>, name: Text, ip: Text, i: nat)
    requires 0 < i <= |table|
    ensures table[..i] == [table[0]] + table[1..][..i - 1] && table[i..] == table[1..][i - 1..]
    ensures i < |table| ==> table[i] == table[1..][i - 1] && table[i + 1..] == table[1..][i..]
  {
  }

  lemma {:induction false} LinesSnoc(table: seq<Entry>, e: Entry)
    ensures Lines(table + [e]) == Lines(table) + Line(e)
  {
    if table == [] {
      assert Lines([e]) == Line(e) + Lines([e][1..]);
      assert table + [e] == [e];
    } else {
      LinesSnoc(table[1..], e);
      assert (table + [e])[1..] == table[1..] + [e];
      Assoc(Line(table[0]), Lines(table[1..]), Line(e));
    }
  }

  class Server {
    var clients: seq<Entry>

    constructor ()
      ensures clients == TableOf([])
    {
      clients := [];
    }

    /** Lines 79-86: `clients[name] = ip` in the ordered map. */
    method Register(r: Registration)
      modifies this
      ensures clients == if Registers(r) then Insert(old(clients), NameOf(r), r.ip) else old(clients)
    {
      if Registers(r) {
        var name, i := NameOf(r), 0;
        while i < |clients| && Less(clients[i].name, name)
          invariant i <= |clients| && clients == old(clients)
          invariant forall j :: 0 <= j < i ==> Less(clients[j].name, name)
        {
          i := i + 1;
        }
        InsertAt(clients, name, r.ip, i);
        var next := if i < |clients| && clients[i].name == name then i + 1 else i;
        clients := clients[..i] + [Entry(name, r.ip)] + clients[next..];
      }
    }

    /** The registration side of the server loop, over all the datagrams it gets. */
    method Serve(rs: seq<Registration>)
      requires clients == TableOf([])
      modifies this
      ensures clients == TableOf(rs) && InNameOrder(clients) && LastWins(rs, clients)
    {
      var i := 0;
      while i < |rs|
        invariant i <= |rs| && clients == TableOf(rs[..i])
      {
        Register(rs[i]);
        i := i + 1;
        assert rs[..i][..i - 1] == rs[..i - 1];
      }
      assert rs[..i] == rs;
      TableIs(rs);
    }

    /** Lines 96-104: the answer to a datagram on the list port, empty when there is none. */
    method List(datagram: Text) returns (response: Text)
      ensures response == if UpToNul(datagram) == [76, 73, 83, 84] then Print(clients) else []
    {
      response := [];
      if UpToNul(datagram) == LIST {
        var lines, i := [], 0;
        while i < |clients|
          invariant i <= |clients| && lines == Lines(clients[..i])
        {
          assert clients[..i + 1] == clients[..i] + [clients[i]];
          LinesSnoc(clients[..i], clients[i]);
          lines := lines + ([BLANK] + clients[i].name) + ([BLANK] + clients[i].ip);
          i := i + 1;
        }
        assert clients[..i] == clients;
        response := LIST + ([BLANK] + Decimal(|clients|) + lines);
      }
    }
  }

  lemma ReadMore(entries: seq<Entry>, left: int, t: Text)
    requires left > 0
    ensures var name := ReadWord(t);
            var ip := ReadWord(name.1);
            entries + ReadEntries(left, t)
            == entries + [Entry(name.0, ip.0)] + ReadEntries(left - 1, ip.1)
  {
    var name := ReadWord(t);
    var ip := ReadWord(name.1);
    Assoc(entries, [Entry(name.0, ip.0)], ReadEntries(left - 1, ip.1));
  }

  /** Lines 223-234: the client's reading of the reply. */
  method ReadList(t: Text) returns (entries: seq<Entry>)
    ensures entries == Parse(t)
  {
    var first := ReadWord(t);
    var (count, rest) := ReadCount(first.1);
    entries := ReadPairs(count, rest);
  }

  /** The loop at lines 230-234. */
  method ReadPairs(count: int, t: Text) returns (entries: seq<Entry>)
    ensures entries == ReadEntries(count, t)
  {
    entries := [];
    var i, rest := 0, t;
    while i < count
      invariant ReadEntries(count, t) == entries + ReadEntries(count - i, rest)
      decreases count - i
    {
      var name := ReadWord(rest);
      var ip := ReadWord(name.1);
      ReadMore(entries, count - i, rest);
      entries := entries + [Entry(name.0, ip.0)];
      rest := ip.1;
      i := i + 1;
    }
  }
}
