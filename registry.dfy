/**
 The client registry of the exws connection hub, as values.

 The hub keeps a map from connection handle to `Client{Conn, UUID}` and
 mutates it in three ways, each under one mutex: a registration stores a
 record, an unregistration deletes and closes a present handle, and a
 broadcast pass deletes and closes every handle whose write fails.  This
 module gives the state those operations act on, the state each one leads
 to, and the properties the hub relies on: every record is keyed by its own
 handle, no registered handle has been closed, and the hub closes no handle
 twice.
 */
module Registry {

  datatype Option<T> = None | Some(value: T)

  /** A connection handle: compared by identity only, like the `*websocket.Conn` keys. */
  datatype Conn = Conn(handle: nat)

  /** One registry record, `Client{Conn, UUID}`. */
  datatype Client = Client(conn: Conn, uuid: string)

  /**
   The hub's state: the registry and, in call order, every handle the hub
   has closed (the `conn.Close()` calls after a delete).
   */
  datatype State = State(clients: map<Conn, Client>, closes: seq<Conn>)

  predicate Distinct<T(==)>(s: seq<T>)
  {
    forall i, j :: 0 <= i < j < |s| ==> s[i] != s[j]
  }

  /** `order` visits every key of the registry exactly once: one pass of `range`. */
  predicate Enumerates(order: seq<Conn>, keys: set<Conn>)
  {
    && Distinct(order)
    && (forall c :: c in order ==> c in keys)
    && (forall c :: c in keys ==> c in order)
  }

  /** The registry invariant that every operation of the hub keeps. */
  predicate Inv(s: State)
  {
    && (forall c :: c in s.clients ==> s.clients[c].conn == c)
    && (forall c :: c in s.clients ==> c !in s.closes)
    && Distinct(s.closes)
  }

  /** The handles of `order` whose write fails, in the order they were attempted. */
  function Failed(order: seq<Conn>, failing: set<Conn>): (r: seq<Conn>)
    ensures forall c :: c in r <==> c in order && c in failing
    ensures Distinct(order) ==> Distinct(r)
    ensures |r| <= |order|
  {
    if order == [] then []
    else (if order[0] in failing then [order[0]] else []) + Failed(order[1..], failing)
  }

  /** `clients[conn] = Client{Conn: conn, UUID: uuid}`: a store that overwrites. */
  function AfterRegister(s: State, conn: Conn, uuid: string): State
  {
    State(s.clients[conn := Client(conn, uuid)], s.closes)
  }

  /** If `conn` is registered, delete it and close it; otherwise do nothing. */
  function AfterUnregister(s: State, conn: Conn): State
  {
    if conn in s.clients then State(s.clients - {conn}, s.closes + [conn]) else s
  }

  /**
   The state after one broadcast pass that wrote to the handles of `order`
   in turn: the failed ones are deleted, and closed in the order they failed.
   */
  function AfterBroadcast(s: State, order: seq<Conn>, failing: set<Conn>): State
    requires Enumerates(order, s.clients.Keys)
  {
    State(s.clients - failing, s.closes + Failed(order, failing))
  }

  // ---------------------------------------------------------------------
  // Registration

  lemma RegisterStores(s: State, conn: Conn, uuid: string)
    ensures var t := AfterRegister(s, conn, uuid);
      && t.clients.Keys == s.clients.Keys + {conn}
      && t.clients[conn] == Client(conn, uuid)
      && (forall c :: c in s.clients && c != conn ==> t.clients[c] == s.clients[c])
      && t.closes == s.closes
  {
  }

  /** A second registration of the same handle keeps one entry, with the newer UUID. */
  lemma RegisterTwiceOverwrites(s: State, conn: Conn, uuid1: string, uuid2: string)
    ensures AfterRegister(AfterRegister(s, conn, uuid1), conn, uuid2) == AfterRegister(s, conn, uuid2)
    ensures |AfterRegister(AfterRegister(s, conn, uuid1), conn, uuid2).clients| ==
            |AfterRegister(s, conn, uuid1).clients|
  {
  }

  lemma RegisterKeepsInv(s: State, conn: Conn, uuid: string)
    requires Inv(s)
    requires conn !in s.closes
    ensures Inv(AfterRegister(s, conn, uuid))
  {
  }

  // ---------------------------------------------------------------------
  // Unregistration

  lemma UnregisterPresent(s: State, conn: Conn)
    requires conn in s.clients
    ensures var t := AfterUnregister(s, conn);
      && t.clients.Keys == s.clients.Keys - {conn}
      && (forall c :: c in t.clients ==> t.clients[c] == s.clients[c])
      && t.closes == s.closes + [conn]
      && |t.clients| == |s.clients| - 1
  {
  }

  lemma UnregisterAbsent(s: State, conn: Conn)
    requires conn !in s.clients
    ensures AfterUnregister(s, conn) == s
  {
  }

  /** Unregistering twice is unregistering once: the second call closes nothing. */
  lemma UnregisterIdempotent(s: State, conn: Conn)
    ensures var t := AfterUnregister(s, conn);
      AfterUnregister(t, conn) == t && conn !in t.clients
  {
  }

  lemma UnregisterKeepsInv(s: State, conn: Conn)
    requires Inv(s)
    ensures Inv(AfterUnregister(s, conn))
  {
  }

  // ---------------------------------------------------------------------
  // Broadcast

  lemma {:induction false} DistinctCard(s: seq<Conn>)
    requires Distinct(s)
    ensures |set c | c in s| == |s|
  {
    if s != [] {
      DistinctCard(s[1..]);
      var rest := set c | c in s[1..];
      assert (set c | c in s) == rest + {s[0]};
      assert s[0] !in rest;
    }
  }

  /** Writing to one more handle extends the failed list by it exactly when its write fails. */
  lemma {:induction false} FailedSnoc(order: seq<Conn>, conn: Conn, failing: set<Conn>)
    ensures Failed(order + [conn], failing) ==
            Failed(order, failing) + (if conn in failing then [conn] else [])
  {
    if order == [] {
      assert order + [conn] == [conn];
    } else {
      assert (order + [conn])[1..] == order[1..] + [conn];
      FailedSnoc(order[1..], conn, failing);
    }
  }

  /** Delivery is attempted to every handle registered when the pass begins. */
  lemma BroadcastAttemptsAll(s: State, order: seq<Conn>, failing: set<Conn>)
    requires Enumerates(order, s.clients.Keys)
    ensures |order| == |s.clients|
  {
    DistinctCard(order);
    assert (set c | c in order) == s.clients.Keys;
  }

  /**
   After a pass the registry is the old one minus exactly the failed
   handles, survivors keep their record, and the handles newly closed are
   exactly the registered ones whose write failed.
   */
  lemma BroadcastRemovesExactlyFailed(s: State, order: seq<Conn>, failing: set<Conn>)
    requires Enumerates(order, s.clients.Keys)
    ensures var t := AfterBroadcast(s, order, failing);
      && t.clients.Keys == s.clients.Keys - failing
      && (forall c :: c in t.clients ==> t.clients[c] == s.clients[c])
      && (forall c :: c in s.clients && c in failing <==> c in t.closes[|s.closes|..])
  {
    var t := AfterBroadcast(s, order, failing);
    assert t.closes[|s.closes|..] == Failed(order, failing);
  }

  /** With K of N registered handles failing, a pass leaves exactly N - K registered. */
  lemma BroadcastShrinksByFailed(s: State, order: seq<Conn>, failing: set<Conn>)
    requires Enumerates(order, s.clients.Keys)
    ensures |AfterBroadcast(s, order, failing).clients| == |s.clients| - |s.clients.Keys * failing|
  {
    var t := AfterBroadcast(s, order, failing);
    MinusCard(s.clients.Keys, failing);
    assert |t.clients| == |t.clients.Keys|;
  }

  /** A pass over all keys fails exactly as often as there are registered failing handles. */
  lemma FailedCard(order: seq<Conn>, keys: set<Conn>, failing: set<Conn>)
    requires Enumerates(order, keys)
    ensures |Failed(order, failing)| == |keys * failing|
  {
    var f := Failed(order, failing);
    DistinctCard(f);
    assert (set c | c in f) == keys * failing;
  }

  lemma MinusCard(keys: set<Conn>, failing: set<Conn>)
    ensures |keys - failing| == |keys| - |keys * failing|
  {
  }

  lemma BroadcastKeepsInv(s: State, order: seq<Conn>, failing: set<Conn>)
    requires Inv(s)
    requires Enumerates(order, s.clients.Keys)
    ensures Inv(AfterBroadcast(s, order, failing))
  {
    var t := AfterBroadcast(s, order, failing);
    var f := Failed(order, failing);
    assert t.closes == s.closes + f;
    forall i, j | 0 <= i < j < |t.closes| ensures t.closes[i] != t.closes[j] {
      if i < |s.closes| <= j {
        assert t.closes[j] == f[j - |s.closes|];
        assert t.closes[i] == s.closes[i];
        assert t.closes[j] in s.clients;
      } else if |s.closes| <= i {
        assert t.closes[i] == f[i - |s.closes|];
        assert t.closes[j] == f[j - |s.closes|];
      }
    }
    forall c | c in t.clients ensures c !in t.closes {
      assert c !in s.closes;
      assert c !in f;
    }
  }

  /**
   A reader that sees the error after a broadcast already dropped the handle
   triggers an unregister that changes nothing and closes nothing.
   */
  lemma UnregisterAfterFailedWriteIsNoop(s: State, order: seq<Conn>, failing: set<Conn>, conn: Conn)
    requires Enumerates(order, s.clients.Keys)
    requires conn in failing
    ensures var t := AfterBroadcast(s, order, failing);
      AfterUnregister(t, conn) == t
  {
  }

  // ---------------------------------------------------------------------
  // Whole runs of the hub

  /** One atomic operation of the hub, taken while it holds its mutex. */
  datatype Event =
    | Register(conn: Conn, uuid: string)
    | Unregister(conn: Conn)
    | Broadcast(order: seq<Conn>, failing: set<Conn>)

  /**
   What the surroundings guarantee for an event: a registered handle is a
   freshly upgraded one the hub never closed, and a pass visits each key once.
   */
  predicate Allowed(s: State, e: Event)
  {
    match e
    case Register(conn, _) => conn !in s.closes
    case Unregister(_) => true
    case Broadcast(order, _) => Enumerates(order, s.clients.Keys)
  }

  function Apply(s: State, e: Event): State
    requires Allowed(s, e)
  {
    match e
    case Register(conn, uuid) => AfterRegister(s, conn, uuid)
    case Unregister(conn) => AfterUnregister(s, conn)
    case Broadcast(order, failing) => AfterBroadcast(s, order, failing)
  }

  /** The state after a sequence of events, or None if one of them is not allowed. */
  function Run(s: State, trace: seq<Event>): Option<State>
    decreases |trace|
  {
    if trace == [] then Some(s)
    else if Allowed(s, trace[0]) then Run(Apply(s, trace[0]), trace[1..])
    else None
  }

  lemma StepKeepsInv(s: State, e: Event)
    requires Inv(s)
    requires Allowed(s, e)
    ensures Inv(Apply(s, e))
    ensures s.closes <= Apply(s, e).closes
  {
    match e
    case Register(conn, uuid) => RegisterKeepsInv(s, conn, uuid);
    case Unregister(conn) => UnregisterKeepsInv(s, conn);
    case Broadcast(order, failing) => BroadcastKeepsInv(s, order, failing);
  }

  /**
   Every allowed sequence of registrations, unregistrations and broadcasts
   (every registration names a handle the hub never closed; every broadcast
   visits each key once) keeps the invariant: no duplicate key, no registered handle already closed, the
   hub never closes a handle twice; and the close log only grows.
   */
  lemma {:induction false} RunKeepsInv(s: State, trace: seq<Event>)
    requires Inv(s)
    requires Run(s, trace).Some?
    ensures Inv(Run(s, trace).value)
    ensures s.closes <= Run(s, trace).value.closes
    decreases |trace|
  {
    if trace != [] {
      StepKeepsInv(s, trace[0]);
      RunKeepsInv(Apply(s, trace[0]), trace[1..]);
    }
  }

  /**
   A closed handle stays out of the registry through any allowed operations:
   unregister and broadcast never re-add it (registrations name fresh handles).
   */
  lemma ClosedStaysGone(s: State, trace: seq<Event>, conn: Conn)
    requires Inv(s)
    requires conn in s.closes
    requires Run(s, trace).Some?
    ensures conn !in Run(s, trace).value.clients
  {
    RunKeepsInv(s, trace);
  }
}
