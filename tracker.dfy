/**
 * The tracker: the latest cell of every agent and every agent's bounded
 * contact history, updated in place as position updates arrive, and read by
 * contact queries.
 */
module TrackerEngine {
  import opened Types
  import opened ContactHistory
  import opened ContactDetection

  /**
   * A position update after JSON decoding. Either field may be missing, and
   * the position is whatever list of numbers the publisher sent.
   */
  datatype PositionMessage = PositionMessage(personId: Option<AgentId>, position: Option<seq<int>>)

  /** The reply to a contact query. */
  datatype QueryResponse = QueryResponse(personId: AgentId, contacts: seq<ContactEvent>, timestamp: Timestamp)

  /** The update names an agent and its position unpacks into exactly two coordinates. */
  predicate WellFormed(msg: PositionMessage)
  {
    msg.personId.Some? && msg.position.Some? && |msg.position.value| == 2
  }

  class Tracker {
    /** Each known agent's latest cell. */
    var positions: map<AgentId, Cell>
    /** The agents of `positions` in the order they were first reported: the order the map is iterated in. */
    var order: seq<AgentId>
    /** Each agent's contact history, oldest first; an agent without an entry has none. */
    var history: Histories
    /** The configured bound on every history. */
    const maxHistory: nat

    ghost predicate Valid()
      reads this
    {
      && maxHistory > 0
      && Distinct(order)
      && (forall a :: a in order <==> a in positions)
      && Bounded(history, maxHistory)
    }

    constructor (maxHistory: nat)
      requires maxHistory > 0
      ensures Valid() && this.maxHistory == maxHistory
      ensures positions == map[] && order == [] && history == map[]
    {
      this.maxHistory := maxHistory;
      positions, order, history := map[], [], map[];
    }

    /** Appends `e` to `id`'s history, first dropping the oldest event when the history is full. */
    method UpdateContactHistory(id: AgentId, e: ContactEvent)
      requires Valid()
      modifies this`history
      ensures Valid()
      ensures history == Record(old(history), id, e, maxHistory)
      ensures forall a :: a != id ==> HistoryOf(history, a) == HistoryOf(old(history), a)
      ensures positions == old(positions) && order == old(order)
    {
      var h := HistoryOf(history, id);
      if |h| >= maxHistory {
        h := h[1..];
      }
      history := history[id := h + [e]];
    }

    /**
     * The first pass of a contact check: one event, stamped `now`, for every
     * other agent whose latest cell is `c`, in the position map's order.
     */
    method CollectContacts(id: AgentId, c: Cell, now: Timestamp) returns (contacts: seq<ContactEvent>)
      requires Valid()
      ensures contacts == Scan(order, positions, id, c, now)
    {
      contacts := [];
      var i := 0;
      while i < |order|
        invariant 0 <= i <= |order|
        invariant contacts == Scan(order[..i], positions, id, c, now)
      {
        var other := order[i];
        if other != id && positions[other] == c {
          contacts := contacts + [ContactEvent(other, c, now)];
        }
        assert order[..i + 1][..i] == order[..i];
        i := i + 1;
      }
      assert order[..|order|] == order;
    }

    /**
     * Records a contact, in both directions, between `id` and every other agent
     * whose latest cell is `(x, y)`: each event found by the first pass is
     * appended to `id`'s history, and a reverse event naming `id` to the
     * peer's history.
     */
    method CheckContacts(id: AgentId, x: int, y: int, now: Timestamp)
      requires Valid()
      modifies this`history
      ensures Valid()
      ensures history == RecordContacts(old(history), id, Cell(x, y), Scan(order, positions, id, Cell(x, y), now), now, maxHistory)
    {
      var c := Cell(x, y);
      var contacts := CollectContacts(id, c, now);
      var j := 0;
      while j < |contacts|
        invariant 0 <= j <= |contacts|
        invariant Valid()
        invariant history == RecordContacts(old(history), id, c, contacts[..j], now, maxHistory)
      {
        UpdateContactHistory(id, contacts[j]);
        UpdateContactHistory(contacts[j].peer, ContactEvent(id, c, now));
        assert history == RecordContacts(old(history), id, c, contacts[..j + 1], now, maxHistory) by {
          RecordContactsPrefix(old(history), id, c, contacts, now, maxHistory, j);
        }
        j := j + 1;
      }
      assert contacts[..|contacts|] == contacts;
    }

    /**
     * Ingests one position update. A malformed update is dropped before any
     * state changes. Otherwise the agent's cell is overwritten, and contacts are
     * checked only when the cell differs from the previous one; an agent seen
     * for the first time always counts as having moved.
     */
    method HandlePositionUpdate(msg: PositionMessage, now: Timestamp)
      requires Valid()
      modifies this
      ensures Valid()
      ensures !WellFormed(msg) ==> positions == old(positions) && order == old(order) && history == old(history)
      ensures WellFormed(msg) ==>
        var id, c := msg.personId.value, Cell(msg.position.value[0], msg.position.value[1]);
        && positions == old(positions)[id := c]
        && order == (if id in old(positions) then old(order) else old(order) + [id])
        && history == if id in old(positions) && old(positions)[id] == c then old(history)
                      else RecordContacts(old(history), id, c, Scan(order, positions, id, c, now), now, maxHistory)
      ensures NoSelfContacts(old(history)) ==> NoSelfContacts(history)
    {
      if msg.personId.None? || msg.position.None? || |msg.position.value| != 2 {
        return;
      }
      var id := msg.personId.value;
      var x, y := msg.position.value[0], msg.position.value[1];
      var oldPos := if id in positions then Some(positions[id]) else None;
      if id !in positions {
        order := order + [id];
      }
      positions := positions[id := Cell(x, y)];
      if oldPos != Some(Cell(x, y)) {
        CheckContacts(id, x, y, now);
        ghost var contacts := Scan(order, positions, id, Cell(x, y), now);
        assert NotAmongPeers(id, contacts);
        if NoSelfContacts(old(history)) {
          RecordContactsNoSelf(old(history), id, Cell(x, y), contacts, now, maxHistory);
        }
      }
    }

    /**
     * Answers a contact query: a copy of `id`'s history, in order, or an empty
     * list for an agent with no history.
     */
    method HandleQuery(id: AgentId, now: Timestamp) returns (response: QueryResponse)
      ensures response.personId == id && response.timestamp == now
      ensures response.contacts == HistoryOf(history, id)
      // The empty case of the clause above, spelled out: an unknown agent gets an empty list.
      ensures id !in history ==> response.contacts == []
    {
      var source := if id in history then history[id] else [];
      var contacts: seq<ContactEvent> := [];
      var i := 0;
      while i < |source|
        invariant 0 <= i <= |source|
        invariant contacts == source[..i]
      {
        var contact := source[i];
        contacts := contacts + [ContactEvent(contact.peer, contact.position, contact.time)];
        i := i + 1;
      }
      assert source[..|source|] == source;
      response := QueryResponse(id, contacts, now);
    }
  }
}
