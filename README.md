# exws client registry, in Dafny

exws is a WebSocket fan-out hub written in Go. Clients connect on `/ws`, send
their UUID as their first message, and then get one account snapshot per
second until they disconnect. This project models the part of it with state of
its own: the `ClientManager` registry, a map from connection handle to
`Client{Conn, UUID}`. Three operations change it, each while holding the
manager's mutex:

- **register**: after a connection's UUID has been read, it stores
  `clients[conn] = Client{conn, uuid}`;
- **unregister**: when a connection's read loop sees an error, it deletes the
  handle and closes it, but only if the handle is still registered;
- **broadcast**: it walks every registered connection and writes the snapshot
  to it. A connection whose write fails is deleted and closed in the same pass.

The mutex serialises all three, so the model treats each one as a single
atomic step.

- `registry.dfy`, module `Registry`: the state as a value. `State` holds the
  map and the log of handles the hub has closed. The module has one function
  per operation (`AfterRegister`, `AfterUnregister`, `AfterBroadcast`) and the
  invariant `Inv`: every record is keyed by its own handle, no registered
  handle has been closed, and the hub has closed no handle twice. A sequence of
  hub operations is an `Event` trace, and `Run` applies one.
- `hub.dfy`, module `Hub`: class `ClientManager`. It has the map as a field
  and one method per Go operation. `Register`, `Admit`, `Unregister` and
  `Broadcast` are specified by the matching `Registry` function. `Serve` is
  specified by its own first-failure clauses together with `AfterUnregister`.
  `AnnounceRegister` changes nothing and returns the client count. `Broadcast` is a loop over the key set that existed when the pass
  began. It picks the next key with `:|`, which stands for Go's unspecified
  map iteration order. Method `Session` is a verified walk-through of a short
  scenario.

Abstractions:

- A handle is an opaque identity (`Conn(handle: nat)`).
- "Closed" means appearing in the `closes` log.
- Whether `WriteJSON` fails is given by a caller-supplied set `failing`.
- Whether a read fails is given by a caller-supplied `Option` (the UUID read)
  or a sequence of booleans (the read loop).

Two facts about the code shape the model:

- A second registration of the same handle overwrites its UUID and leaves
  one entry (`RegisterTwiceOverwrites`).
- Nothing ever sends on the `register` channel. Registration is the direct
  store at main.go:102-104, and the channel case (main.go:57-59) only logs
  the client count.

## Model

| member | source | states |
|---|---|---|
| `Registry.Failed` | main.go:72-79 | The handles a pass closes are exactly the visited handles whose write failed, in visiting order and without repeats when the pass visits each handle once |
| `Registry.FailedSnoc` | main.go:73-78 | One more write extends the failed list by that handle exactly when its write fails |
| `Registry.AfterRegister` | main.go:103 | Definition of the state after the store `clients[conn] = Client{conn, uuid}`; `RegisterStores`, `RegisterTwiceOverwrites` and `RegisterKeepsInv` describe it |
| `Registry.AfterUnregister` | main.go:63-66 | Definition of the state after an unregister: delete and close when present, else unchanged; the `Unregister*` lemmas describe it |
| `Registry.AfterBroadcast` | main.go:72-79 | Definition of the state after a pass; it requires `Enumerates(order, keys)`, that the pass visits each registered handle once; the `Broadcast*` lemmas describe it |
| `Registry.Apply` | main.go:54-104 | Definition of one atomic registry operation taken under the mutex, requiring `Allowed`: the store of main.go:102-104 or the `unregister` or `broadcast` case of the loop at main.go:54-83; `StepKeepsInv` describes it |
| `Registry.Run` | main.go:54-104 | Definition of a sequence of registry operations (stores at main.go:102-104 and cases of the loop at main.go:54-83), None when one is not allowed; `RunKeepsInv` and `ClosedStaysGone` describe it |
| `Registry.RegisterStores` | main.go:102-104 | Registration adds `conn` to the keys with record `Client(conn, uuid)`, leaves every other record and the close log unchanged |
| `Registry.RegisterTwiceOverwrites` | main.go:103 | Registering a handle twice leaves one entry holding the second UUID, with no more entries than after the first |
| `Registry.RegisterKeepsInv` | main.go:102-104 | Registering a handle the hub never closed keeps the registry invariant |
| `Registry.UnregisterPresent` | main.go:61-68 | Unregistering a registered handle removes exactly that key, keeps every other record, appends the handle to the close log and shrinks the registry by one |
| `Registry.UnregisterAbsent` | main.go:63 | Unregistering a handle that is not registered changes nothing and closes nothing |
| `Registry.UnregisterIdempotent` | main.go:61-68 | A second unregister of the same handle is a no-op, and the handle is absent after the first |
| `Registry.UnregisterKeepsInv` | main.go:61-68 | Unregistration keeps the invariant; in particular, the hub never closes a handle twice |
| `Registry.BroadcastAttemptsAll` | main.go:72-73 | A pass attempts a write to every handle registered when it began, and makes exactly as many writes as there are registered handles |
| `Registry.BroadcastRemovesExactlyFailed` | main.go:72-79 | After a pass the keys are the old keys minus the failed handles, survivors keep their record unchanged, and the newly closed handles are exactly the registered ones that failed |
| `Registry.BroadcastShrinksByFailed` | main.go:72-79 | With K of the N registered handles failing (K = the registered handles in the failing set), a pass leaves exactly N - K handles registered |
| `Registry.FailedCard` | main.go:72-79 | In a pass that visits every key once, the number of failed writes equals the number of registered handles in the failing set |
| `Registry.BroadcastKeepsInv` | main.go:70-80 | A broadcast pass keeps the invariant: no survivor is closed and the hub never closes a handle twice |
| `Registry.UnregisterAfterFailedWriteIsNoop` | main.go:61-79 | If a broadcast already dropped a handle, the unregister its reader sends later changes nothing and closes nothing |
| `Registry.StepKeepsInv` | main.go:61-104 | Each registry operation (the store of main.go:102-104, the `unregister` case, the `broadcast` case) keeps the invariant and only appends to the close log |
| `Registry.RunKeepsInv` | main.go:54-83 | Over any allowed sequence of registrations, unregistrations and broadcasts (every registration names a handle the hub never closed; every broadcast visits each key once): keys stay unique, no registered handle is closed, the hub never closes a handle twice, and the close log only grows |
| `Registry.ClosedStaysGone` | main.go:61-80 | A handle the hub has closed stays out of the registry whatever allowed operations follow (every registration names a fresh handle): unregister and broadcast never re-add a closed handle |
| `Hub.ClientManager.constructor` | main.go:37-43 | The manager starts with an empty registry and no closed handles |
| `Hub.ClientManager.AnnounceRegister` | main.go:57-59 | The `register` case: the result is the client total that main.go:59 logs; the contract that matters is the frame, since the method has no `modifies` clause and so leaves the registry untouched |
| `Hub.ClientManager.Register` | main.go:102-104 | Stores `Client{conn, uuid}` under `conn` in place, with state equal to `AfterRegister` of the old state, and keeps the invariant |
| `Hub.ClientManager.Admit` | main.go:94-104 | The connection is registered if and only if its UUID read succeeds; after a failed read the registry is unchanged |
| `Hub.ClientManager.Unregister` | main.go:61-68 | Deletes and closes `conn` if present and otherwise does nothing (`AfterUnregister`), keeping the invariant |
| `Hub.ClientManager.Broadcast` | main.go:70-80 | Writes once to each handle registered at the start, in some order, and continues past failures; the final state is `AfterBroadcast` of that order, which deletes and closes exactly the failed handles |
| `Hub.ClientManager.Serve` | main.go:108-114 | The read loop stops at the first failed read, and only then the handle is unregistered; if every read succeeds, nothing changes |

## Left out

- Goroutines, channels, `select` and `sync.Mutex` (main.go:54-56, 111, 141-142) are not modelled. Each operation holds the mutex for its whole run, so each one is a single atomic method here. The read loop's `unregister` send becomes a direct call to `Unregister`.
- The unlocked reads of `len(manager.clients)` in the logging statements (main.go:59, 69) race with the locked updates. This model has no concurrency, so it cannot state that race.
- The WebSocket transport is not modelled: `upgrader.Upgrade`, the permissive origin check, `ReadJSON`, `ReadMessage`, `WriteJSON` and `Close` are foreign gorilla/websocket calls. A write or read is abstracted as success or failure, and a close as an entry in the `closes` log.
- Hub.ClientManager.Register and Hub.ClientManager.Admit: a handle that the hub has already closed is never registered, because `Upgrade` (main.go:86) always hands over a fresh connection. Upgrade itself is not part of this model, so both methods take this as their precondition.
- The deferred `conn.Close()` at main.go:91 is a transport-level close outside the registry. On the broadcast path it runs after the hub's close at main.go:77, so it closes the handle a second time. On the unregister path it races with main.go:62-66: the send at main.go:111 completes as soon as the manager takes it, and the reader then returns and runs the deferred close. So a registered handle can already be closed at the transport level for a moment. No write reaches it then, because the manager is busy with the unregister case. `closes` records only the hub's own closes, so `Inv` says nothing about that moment.
- `simulatePriceUpdate` (main.go:117-138) is not modelled. It is float64 arithmetic on `rand.Float64` with `decimal.NewFromFloat` conversions and `time.Sleep`.
- Hub.ClientManager.Broadcast: the snapshot payload is not modelled. Every write carries the same `Asset`, and its value has no effect on the registry.
- JSON encoding of `Asset` (main.go:17-22), the log messages (apart from the client total at main.go:59, which `AnnounceRegister` returns), the HTTP listener and `main` (main.go:140-153) are not modelled.
- The endless `for` loops of the manager and the reader are not modelled as endless loops. The model runs one operation at a time, and `Serve` is given a finite prefix of read outcomes.
