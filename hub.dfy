/**
 The `ClientManager` of the exws hub as an object whose registry is updated
 in place.  Each method is one operation the Go program performs while
 holding the manager's mutex, so each runs atomically here.  Register,
 Admit, Unregister and Broadcast are specified by the state function of the
 same operation in module Registry; Serve by its own clauses and
 AfterUnregister; AnnounceRegister changes nothing.
 */
module Hub {
  import opened Registry

  class ClientManager {
    /** The registry, `map[*websocket.Conn]Client`. */
    var clients: map<Conn, Client>
    /** Every handle this manager has closed, in the order of the `Close` calls. */
    var closes: seq<Conn>

    function Model(): State
      reads this
    {
      State(clients, closes)
    }

    predicate Valid()
      reads this
    {
      Inv(Model())
    }

    /** The manager starts with an empty registry and has closed nothing. */
    constructor ()
      ensures Valid()
      ensures clients == map[] && closes == []
    {
      clients := map[];
      closes := [];
    }

    /**
     The `register` case of the main loop: it only reports the number of
     registered clients and changes nothing.
     */
    method AnnounceRegister() returns (total: nat)
      ensures total == |clients.Keys|
    {
      total := |clients|;
    }

    /** Store `Client{Conn: conn, UUID: uuid}` under `conn`, overwriting any earlier record. */
    method Register(conn: Conn, uuid: string)
      requires Valid()
      requires conn !in closes
      modifies this
      ensures Valid()
      ensures Model() == AfterRegister(old(Model()), conn, uuid)
    {
      RegisterKeepsInv(Model(), conn, uuid);
      clients := clients[conn := Client(conn, uuid)];
    }

    /**
     The admission gate of a new connection: `firstRead` is the outcome of
     reading its UUID, None for a read error.  Only a successful read
     registers the connection.
     */
    method Admit(conn: Conn, firstRead: Option<string>) returns (admitted: bool)
      requires Valid()
      requires conn !in closes
      modifies this
      ensures Valid()
      ensures admitted <==> firstRead.Some?
      ensures admitted ==> Model() == AfterRegister(old(Model()), conn, firstRead.value)
      ensures !admitted ==> Model() == old(Model())
    {
      if firstRead.None? {
        return false;
      }
      Register(conn, firstRead.value);
      admitted := true;
    }

    /** The `unregister` case: delete and close `conn` if it is registered, else nothing. */
    method Unregister(conn: Conn)
      requires Valid()
      modifies this
      ensures Valid()
      ensures Model() == AfterUnregister(old(Model()), conn)
    {
      UnregisterKeepsInv(Model(), conn);
      if conn in clients {
        clients := clients - {conn};
        closes := closes + [conn];
      }
    }

    /**
     The `broadcast` case: one pass over the connections registered when it
     starts, in an unspecified order, attempting a write to each; `failing`
     holds the handles whose write returns an error.  A failed handle is
     deleted and closed at once and the pass goes on.  `attempted` is the
     order in which the writes were made.
     */
    method Broadcast(failing: set<Conn>) returns (attempted: seq<Conn>)
      requires Valid()
      modifies this
      ensures Valid()
      ensures Enumerates(attempted, old(clients).Keys)
      ensures Model() == AfterBroadcast(old(Model()), attempted, failing)
    {
      ghost var start := Model();
      var pending := clients.Keys;
      attempted := [];
      while pending != {}
        invariant pending <= start.clients.Keys
        invariant Distinct(attempted)
        invariant forall c :: c in attempted ==> c in start.clients && c !in pending
        invariant forall c :: c in start.clients ==> c in attempted || c in pending
        invariant clients == start.clients - (failing - pending)
        invariant closes == start.closes + Failed(attempted, failing)
        decreases pending
      {
        var conn :| conn in pending;
        FailedSnoc(attempted, conn, failing);
        pending := pending - {conn};
        attempted := attempted + [conn];
        if conn in failing {
          clients := clients - {conn};
          closes := closes + [conn];
        }
      }
      BroadcastKeepsInv(start, attempted, failing);
    }

    /**
     The read loop of a registered connection: `outcomes` are the results of
     its successive reads, false for an error.  The first error sends the
     handle to `Unregister` and ends the loop; if every read succeeds the
     connection is still being served.
     */
    method Serve(conn: Conn, outcomes: seq<bool>) returns (stoppedAt: Option<nat>)
      requires Valid()
      modifies this
      ensures Valid()
      ensures stoppedAt.None? <==> forall i :: 0 <= i < |outcomes| ==> outcomes[i]
      ensures stoppedAt.Some? ==>
        && stoppedAt.value < |outcomes|
        && !outcomes[stoppedAt.value]
        && forall i :: 0 <= i < stoppedAt.value ==> outcomes[i]
      ensures stoppedAt.Some? ==> Model() == AfterUnregister(old(Model()), conn)
      ensures stoppedAt.None? ==> Model() == old(Model())
    {
      var i := 0;
      while i < |outcomes|
        invariant 0 <= i <= |outcomes|
        invariant forall j :: 0 <= j < i ==> outcomes[j]
      {
        if !outcomes[i] {
          Unregister(conn);
          return Some(i);
        }
        i := i + 1;
      }
      stoppedAt := None;
    }
  }

  /**
   A short run: two connections arrive, one fails to send its UUID; the
   admitted one fails its first write and is dropped, and its reader's
   later unregister closes nothing more.
   */
  method Session()
  {
    var m := new ClientManager();
    var a, b := Conn(1), Conn(2);
    var ok := m.Admit(a, Some("alice"));
    assert ok && m.clients == map[a := Client(a, "alice")];
    ok := m.Admit(b, None);
    assert !ok && b !in m.clients;
    var total := m.AnnounceRegister();
    assert total == 1;
    var attempted := m.Broadcast({a});
    DistinctCard(attempted);
    assert (set c | c in attempted) == {a};
    assert attempted == [a];
    assert m.clients == map[] && m.closes == [a];
    m.Unregister(a);
    assert m.closes == [a];
  }
}
