# Contact tracing: the tracker's contact-detection engine

A Dafny model of the in-memory core of the contact-tracing tracker. Agents report
their grid cell. The tracker stores each agent's latest cell. Whenever an agent
moves onto a cell, it records a contact, in both directions, with every other agent
already standing there. Each agent's contact history is a FIFO deque capped at
`max_history`. A query returns a copy of one agent's history. The model also covers
the simulator's move rule: one step in one of eight directions, clamped to the board.

Modules:

- `Types` (types.dfy): agent ids, cells, contact events, `Option`.
- `ContactHistory` (history.dfy): the bounded deque as a function `Push` on
  sequences. `LastN` is its reference definition ("the `cap` most recent events").
- `ContactDetection` (detection.dfy): the two passes of a contact check as functions.
  `Scan` collects the co-located peers. `RecordContacts` appends the event pairs.
  The lemmas here state the check's properties.
- `TrackerEngine` (tracker.dfy): class `Tracker`, whose fields are updated in place.
  Each method is proved against the functions above.
- `Simulator` (simulator.dfy): the clamp `Step` and class `PersonSimulator`.

Python dictionaries iterate in insertion order. The model therefore keeps, beside
the map `positions`, the sequence `order` of agents in the order they were first
reported. The contact scan walks that sequence.

The model follows the source on two points:

- Positions are not checked against the board on ingest. The tracker stores any
  pair of integers.
- The history pops its oldest entry *before* appending, whenever it already holds
  `max_history` entries or more. For `max_history >= 1` and a history within the
  cap, which the tracker's invariant `Valid()` keeps, this gives the same result as
  "append, then trim" (`ContactHistory.PushKeepsLatest`). For a history already
  longer than the cap the two differ: popping drops only one entry.

## Model

| member | source | states |
|---|---|---|
| `ContactHistory.Push` | contact_tracing.py:173-176 | The new event becomes the last element. If the deque was not full, the old deque is an unchanged prefix. If it was full, exactly the oldest event is dropped and the rest keep their order. A deque within the cap stays within it. No element appears that was not in the deque or the new event. Popping an empty deque is excluded, as it raises in the source. |
| `ContactHistory.PushKeepsLatest` | contact_tracing.py:173-176 | One bounded append equals keeping the last `cap` elements of `history + [event]`. |
| `ContactHistory.PushAllKeepsLatest` | test_tracker.py:10-20 | After any number of appends, the deque holds exactly the `cap` most recent events, oldest first. Its length is `min(old length + appends, cap)`, so appending `max_history + 10` events leaves exactly `max_history`. |
| `ContactDetection.Scan` | contact_tracing.py:116-125 | Every collected event names a peer other than the moving agent. The peer is a known agent whose cell is `(x, y)`. The event carries `(x, y)` and the scan's timestamp. |
| `ContactDetection.ScanComplete` | contact_tracing.py:117-118 | Every other agent whose latest cell is `(x, y)` is collected. |
| `ContactDetection.ScanDistinct` | contact_tracing.py:117-118 | The map has one entry per agent, so no peer is collected twice. |
| `ContactDetection.RecordContacts` | contact_tracing.py:127-136 | Recording the contacts keeps every history within the cap. |
| `ContactDetection.RecordContactsFrame` | contact_tracing.py:127-136 | An agent that is neither the moving agent nor a peer keeps its history. |
| `ContactDetection.RecordContactsOwn` | contact_tracing.py:128-129 | The moving agent's history receives the collected events in order, one bounded append each. It ends as the `cap` most recent of old and new events. Below the cap, it gains exactly one event per co-located agent. |
| `ContactDetection.RecordContactsPeer` | contact_tracing.py:130-136 | Each peer gains exactly one reverse event. It names the moving agent and carries the same cell. |
| `ContactDetection.RecordContactsNoSelf` | contact_tracing.py:118 | Recording never creates a self-contact. If no history named its own agent before, none does after. |
| `ContactDetection.CheckContactsOthers` | contact_tracing.py:114-136 | The check is symmetric. Every other agent on `(x, y)` gains exactly one event naming the moving agent at `(x, y)`. Every agent elsewhere keeps its history. |
| `ContactDetection.PositionCheckScan` | test_tracker.py:24-30 | The test's layout has p1 and p2 on (1,1) and p3 on (2,2). A scan for p1 at (1,1) collects exactly one event, naming p2. |
| `ContactDetection.PositionCheckExample` | test_tracker.py:22-35 | In the test's layout, p1 and p2 each end with one event naming the other. p3's history stays empty. |
| `TrackerEngine.Tracker.constructor` | contact_tracing.py:64-67 | A new tracker has no positions and no histories, and it stores the configured cap. |
| `TrackerEngine.Tracker.UpdateContactHistory` | contact_tracing.py:173-176 | The named agent's history becomes `Push(old history, event, max_history)`. Every other history and all positions are unchanged. The cap invariant is kept. |
| `TrackerEngine.Tracker.CollectContacts` | contact_tracing.py:114-125 | The first loop of the check returns exactly `Scan` over the position map, in its iteration order. The tracker's state is not changed. |
| `TrackerEngine.Tracker.CheckContacts` | contact_tracing.py:114-136 | The new histories are `RecordContacts` applied to the old histories and the scan's events. Positions are unchanged and the cap invariant is kept. |
| `TrackerEngine.Tracker.HandlePositionUpdate` | contact_tracing.py:99-112 | A malformed update changes nothing. A well-formed one sets the agent's position to `(x, y)` and leaves every other position unchanged. A first report appends the agent to the iteration order. Contacts are recorded exactly when the previous cell differs, and a first report always counts as different. Re-publishing an unchanged cell records nothing. No self-contact is ever introduced. |
| `TrackerEngine.Tracker.HandleQuery` | contact_tracing.py:138-155 | The reply names the queried agent and carries the query's timestamp. Its contact list equals the agent's history, element by element and in order. An agent with no history gets an empty list. |
| `Simulator.Step` | contact_tracing.py:232-233 | On a board of size at least 1, the clamped coordinate lies in `[0, size-1]`. An on-board target is kept. A target off the board goes to the nearest edge. From an on-board coordinate, a unit step moves by at most 1. |
| `Simulator.PersonSimulator.constructor` | contact_tracing.py:192-196 | A simulated agent starts on the board. |
| `Simulator.PersonSimulator.MoveRandomly` | contact_tracing.py:229-236 | The new position is the clamped step in the chosen direction. It stays on the board, and each coordinate changes by at most 1. |

## Left out

- RabbitMQ wiring is not modelled: connection and exchange setup, queue binding, consuming, the `basic_publish` of query replies and positions, and the whole query tool with its correlation-id polling and timeout. It is network I/O through a foreign library.
- The Tk GUI is not modelled. It is presentation, driven by wall-clock time.
- Threads and the unlocked sharing of the tracker's dictionaries between message handlers are not modelled. The model is sequential, and each operation is one atomic step.
- JSON decoding is not modelled. `PositionMessage` is the already-decoded update. A body that does not decode behaves like an update with no fields: it is dropped before any state changes. Non-string ids and non-integer coordinates are not modelled. Neither is a two-character string, which Python would unpack as a position.
- `TrackerEngine.Tracker.HandleQuery`: decoding the query body into an id is not modelled. The id is a parameter.
- `TrackerEngine.Tracker.CheckContacts`: the source reads the clock once per event, so the two directions of one contact may carry slightly different stamps. The model stamps every event of one check with the single parameter `now`.
- `TrackerEngine.Tracker.constructor`: the model requires `max_history >= 1`. With 0 or less, the source's `popleft` on an empty deque raises. The position update that triggered the check then ends in its error handler, after the new position was already stored.
- `Simulator.PersonSimulator.constructor`: the model requires `board_size >= 1`. With a smaller board, the source's `random.randint(0, board_size-1)` for the start cell raises `ValueError` (contact_tracing.py:196), so no simulator is created.
- The `defaultdict` creates an empty history as a side effect of reading one. The model creates an entry only on the first append. No query can tell the difference.
- Logging, `tracker_config.py` (reading `config.json`), the simulator's `speed`, its `run` loop and `publish_position` are not modelled. Randomness is not modelled either: the direction chosen by `random.choice` is the parameter `choice`, and the start cell drawn by `random.randint` is the parameter `start`.
