/**
 * Contact detection as pure functions: `Scan` is the first pass of a contact
 * check (collect an event for every other agent on the cell, in the position
 * map's iteration order), `RecordContacts` is the second pass (append each
 * event to the moving agent's history and a reverse event to the peer's).
 */
module ContactDetection {
  import opened Types
  import opened ContactHistory

  /** Every agent's history; an agent without an entry has an empty history. */
  type Histories = map<AgentId, seq<ContactEvent>>

  function HistoryOf(h: Histories, a: AgentId): (r: seq<ContactEvent>)
  {
    if a in h then h[a] else []
  }

  /** Every history respects the cap. */
  predicate Bounded(h: Histories, cap: nat)
  {
    forall a :: a in h ==> |h[a]| <= cap
  }

  /** No history names its own agent as a peer. */
  predicate NoSelfContacts(h: Histories)
  {
    forall a, i :: a in h && 0 <= i < |h[a]| ==> h[a][i].peer != a
  }

  /** No two events of `r` name the same peer. */
  predicate DistinctPeers(r: seq<ContactEvent>)
  {
    forall i, j :: 0 <= i < j < |r| ==> r[i].peer != r[j].peer
  }

  /** No event of `r` names `a` as its peer. */
  predicate NotAmongPeers(a: AgentId, r: seq<ContactEvent>)
  {
    forall i :: 0 <= i < |r| ==> r[i].peer != a
  }

  /** One bounded append to `a`'s history. */
  function Record(h: Histories, a: AgentId, e: ContactEvent, cap: nat): (r: Histories)
    requires cap > 0
  {
    h[a := Push(HistoryOf(h, a), e, cap)]
  }

  /**
   * The contacts `id` makes on cell `c`, one event per other agent standing on
   * `c`, visited in the order `keys` gives the position map's entries.
   */
  function Scan(keys: seq<AgentId>, positions: map<AgentId, Cell>, id: AgentId, c: Cell, now: Timestamp)
    : (r: seq<ContactEvent>)
    requires forall k :: k in keys ==> k in positions
    ensures |r| <= |keys|
    ensures forall i :: 0 <= i < |r| ==>
      r[i].peer != id && r[i].peer in keys && positions[r[i].peer] == c && r[i].position == c && r[i].time == now
    decreases |keys|
  {
    if keys == [] then []
    else
      var init, other := keys[..|keys| - 1], keys[|keys| - 1];
      var found := Scan(init, positions, id, c, now);
      assert forall k :: k in init ==> k in keys;
      if other != id && positions[other] == c then found + [ContactEvent(other, c, now)] else found
  }

  /** Every other agent standing on `c` is found. */
  lemma {:induction false} ScanComplete(keys: seq<AgentId>, positions: map<AgentId, Cell>, id: AgentId, c: Cell, now: Timestamp, k: AgentId)
    requires forall k :: k in keys ==> k in positions
    requires k in keys && k != id && positions[k] == c
    ensures exists i :: 0 <= i < |Scan(keys, positions, id, c, now)| && Scan(keys, positions, id, c, now)[i].peer == k
    decreases |keys|
  {
    var init, other := keys[..|keys| - 1], keys[|keys| - 1];
    var found := Scan(init, positions, id, c, now);
    if k == other {
      assert Scan(keys, positions, id, c, now)[|found|].peer == k;
    } else {
      assert k in init;
      ScanComplete(init, positions, id, c, now, k);
      var i :| 0 <= i < |found| && found[i].peer == k;
      assert Scan(keys, positions, id, c, now)[i] == found[i];
    }
  }

  /** Since the position map has one entry per agent, no peer is found twice. */
  lemma {:induction false} ScanDistinct(keys: seq<AgentId>, positions: map<AgentId, Cell>, id: AgentId, c: Cell, now: Timestamp)
    requires forall k :: k in keys ==> k in positions
    requires Distinct(keys)
    ensures DistinctPeers(Scan(keys, positions, id, c, now))
    decreases |keys|
  {
    if keys != [] {
      var init, other := keys[..|keys| - 1], keys[|keys| - 1];
      var found := Scan(init, positions, id, c, now);
      assert Distinct(init) by {
        assert forall i :: 0 <= i < |init| ==> init[i] == keys[i];
      }
      ScanDistinct(init, positions, id, c, now);
      assert other !in init by {
        assert forall i :: 0 <= i < |init| ==> init[i] == keys[i];
      }
      if other != id && positions[other] == c {
        var r := found + [ContactEvent(other, c, now)];
        assert forall i :: 0 <= i < |found| ==> r[i] == found[i] && found[i].peer in init;
      }
    }
  }

  /**
   * The histories after recording every contact of `contacts` in order: first
   * the event itself for `id`, then the reverse event, naming `id`, for its peer.
   */
  function RecordContacts(h: Histories, id: AgentId, c: Cell, contacts: seq<ContactEvent>, now: Timestamp, cap: nat)
    : (r: Histories)
    requires cap > 0
    ensures Bounded(h, cap) ==> Bounded(r, cap)
    decreases |contacts|
  {
    if contacts == [] then h
    else
      var e := contacts[|contacts| - 1];
      var before := RecordContacts(h, id, c, contacts[..|contacts| - 1], now, cap);
      Record(Record(before, id, e, cap), e.peer, ContactEvent(id, c, now), cap)
  }

  /** Recording one more contact of `contacts` is one pair of bounded appends. */
  lemma RecordContactsPrefix(h: Histories, id: AgentId, c: Cell, contacts: seq<ContactEvent>, now: Timestamp, cap: nat, j: nat)
    requires cap > 0 && j < |contacts|
    ensures RecordContacts(h, id, c, contacts[..j + 1], now, cap)
         == Record(Record(RecordContacts(h, id, c, contacts[..j], now, cap), id, contacts[j], cap),
                   contacts[j].peer, ContactEvent(id, c, now), cap)
  {
    assert contacts[..j + 1][..j] == contacts[..j];
  }

  /** The last contact touches only `id`'s history and its own peer's history. */
  lemma {:induction false} RecordContactsLast(h: Histories, id: AgentId, c: Cell, contacts: seq<ContactEvent>, now: Timestamp, cap: nat, a: AgentId)
    requires cap > 0 && contacts != []
    ensures var n := |contacts|;
            var e := contacts[n - 1];
            var before := HistoryOf(RecordContacts(h, id, c, contacts[..n - 1], now, cap), a);
            var mid := if a == id then Push(before, e, cap) else before;
            HistoryOf(RecordContacts(h, id, c, contacts, now, cap), a)
              == if a == e.peer then Push(mid, ContactEvent(id, c, now), cap) else mid
  {
  }

  /** Dropping the last contact keeps the peers' properties. */
  lemma InitPeers(contacts: seq<ContactEvent>, a: AgentId)
    requires contacts != []
    ensures NotAmongPeers(a, contacts) ==> NotAmongPeers(a, contacts[..|contacts| - 1])
    ensures DistinctPeers(contacts) ==> DistinctPeers(contacts[..|contacts| - 1])
    ensures DistinctPeers(contacts) ==> NotAmongPeers(contacts[|contacts| - 1].peer, contacts[..|contacts| - 1])
  {
    var n := |contacts|;
    assert forall i :: 0 <= i < n - 1 ==> contacts[..n - 1][i] == contacts[i];
  }

  /** Agents that are neither `id` nor a peer of `contacts` keep their history. */
  lemma {:induction false} RecordContactsFrame(h: Histories, id: AgentId, c: Cell, contacts: seq<ContactEvent>, now: Timestamp, cap: nat, a: AgentId)
    requires cap > 0 && a != id && NotAmongPeers(a, contacts)
    ensures HistoryOf(RecordContacts(h, id, c, contacts, now, cap), a) == HistoryOf(h, a)
    decreases |contacts|
  {
    if contacts != [] {
      assert contacts[|contacts| - 1].peer != a;
      InitPeers(contacts, a);
      RecordContactsFrame(h, id, c, contacts[..|contacts| - 1], now, cap, a);
      RecordContactsLast(h, id, c, contacts, now, cap, a);
    }
  }

  /**
   * The moving agent's history receives the contacts in order, each as one
   * bounded append; so it ends with the `cap` most recent of its old events
   * and the contacts, and, while the cap is not reached, it gains exactly one
   * event per contact.
   */
  lemma {:induction false} RecordContactsOwn(h: Histories, id: AgentId, c: Cell, contacts: seq<ContactEvent>, now: Timestamp, cap: nat)
    requires cap > 0 && NotAmongPeers(id, contacts)
    ensures HistoryOf(RecordContacts(h, id, c, contacts, now, cap), id) == PushAll(HistoryOf(h, id), contacts, cap)
    ensures |HistoryOf(h, id)| <= cap ==>
      && HistoryOf(RecordContacts(h, id, c, contacts, now, cap), id) == LastN(HistoryOf(h, id) + contacts, cap)
      && |HistoryOf(RecordContacts(h, id, c, contacts, now, cap), id)| == Min(|HistoryOf(h, id)| + |contacts|, cap)
    decreases |contacts|
  {
    if |HistoryOf(h, id)| <= cap {
      PushAllKeepsLatest(HistoryOf(h, id), contacts, cap);
    }
    if contacts != [] {
      assert contacts[|contacts| - 1].peer != id;
      InitPeers(contacts, id);
      RecordContactsOwn(h, id, c, contacts[..|contacts| - 1], now, cap);
      RecordContactsLast(h, id, c, contacts, now, cap, id);
    }
  }

  /** Each peer of `contacts` receives exactly one reverse event naming `id`, at cell `c`. */
  lemma {:induction false} RecordContactsPeer(h: Histories, id: AgentId, c: Cell, contacts: seq<ContactEvent>, now: Timestamp, cap: nat, k: nat)
    requires cap > 0 && NotAmongPeers(id, contacts) && DistinctPeers(contacts) && k < |contacts|
    ensures HistoryOf(RecordContacts(h, id, c, contacts, now, cap), contacts[k].peer)
         == Push(HistoryOf(h, contacts[k].peer), ContactEvent(id, c, now), cap)
    decreases |contacts|
  {
    var n := |contacts|;
    var init, p, rev := contacts[..n - 1], contacts[k].peer, ContactEvent(id, c, now);
    var before := HistoryOf(RecordContacts(h, id, c, init, now, cap), p);
    assert HistoryOf(RecordContacts(h, id, c, contacts, now, cap), p)
              == if p == contacts[n - 1].peer then Push(before, rev, cap) else before by {
      RecordContactsLast(h, id, c, contacts, now, cap, p);
      assert p != id;
    }
    InitPeers(contacts, id);
    if k == n - 1 {
      assert before == HistoryOf(h, p) by {
        RecordContactsFrame(h, id, c, init, now, cap, p);
      }
    } else {
      assert before == Push(HistoryOf(h, p), rev, cap) by {
        assert init[k] == contacts[k];
        RecordContactsPeer(h, id, c, init, now, cap, k);
      }
      assert contacts[n - 1].peer != p;
    }
  }

  /** Recording contacts whose peers differ from `id` never creates a self-contact. */
  lemma {:induction false} RecordContactsNoSelf(h: Histories, id: AgentId, c: Cell, contacts: seq<ContactEvent>, now: Timestamp, cap: nat)
    requires cap > 0 && NoSelfContacts(h) && NotAmongPeers(id, contacts)
    ensures NoSelfContacts(RecordContacts(h, id, c, contacts, now, cap))
    decreases |contacts|
  {
    if contacts != [] {
      var e := contacts[|contacts| - 1];
      var before := RecordContacts(h, id, c, contacts[..|contacts| - 1], now, cap);
      RecordContactsNoSelf(h, id, c, contacts[..|contacts| - 1], now, cap);
      assert e.peer != id;
      var mid := Record(before, id, e, cap);
      assert NoSelfContacts(mid) by {
        forall x | x in HistoryOf(mid, id) ensures x.peer != id {
          assert x in HistoryOf(before, id) || x == e;
        }
      }
      var after := Record(mid, e.peer, ContactEvent(id, c, now), cap);
      forall x | x in HistoryOf(after, e.peer) ensures x.peer != e.peer {
        assert x in HistoryOf(mid, e.peer) || x == ContactEvent(id, c, now);
      }
    }
  }

  /**
   * What a contact check for `id` on cell `c` does to everybody else: every
   * other agent on `c` gains exactly one event naming `id` at `c`, and every
   * agent not on `c` keeps its history.
   */
  lemma {:induction false} CheckContactsOthers(keys: seq<AgentId>, positions: map<AgentId, Cell>, h: Histories, id: AgentId, c: Cell, now: Timestamp, cap: nat, a: AgentId)
    requires cap > 0 && Distinct(keys) && (forall k :: k in keys ==> k in positions) && a != id
    ensures a in keys && positions[a] == c ==>
      HistoryOf(RecordContacts(h, id, c, Scan(keys, positions, id, c, now), now, cap), a)
        == Push(HistoryOf(h, a), ContactEvent(id, c, now), cap)
    ensures !(a in keys && positions[a] == c) ==>
      HistoryOf(RecordContacts(h, id, c, Scan(keys, positions, id, c, now), now, cap), a) == HistoryOf(h, a)
  {
    var contacts := Scan(keys, positions, id, c, now);
    assert NotAmongPeers(id, contacts);
    if a in keys && positions[a] == c {
      ScanComplete(keys, positions, id, c, now, a);
      ScanDistinct(keys, positions, id, c, now);
      var i :| 0 <= i < |contacts| && contacts[i].peer == a;
      RecordContactsPeer(h, id, c, contacts, now, cap, i);
    } else {
      RecordContactsFrame(h, id, c, contacts, now, cap, a);
    }
  }

  /** The first pass of the position-check scenario finds p2 alone. */
  lemma PositionCheckScan(p1: AgentId, p2: AgentId, p3: AgentId, now: Timestamp)
    requires p1 != p2 && p1 != p3 && p2 != p3
    ensures var positions := map[p1 := Cell(1, 1), p2 := Cell(1, 1), p3 := Cell(2, 2)];
            Scan([p1, p2, p3], positions, p1, Cell(1, 1), now) == [ContactEvent(p2, Cell(1, 1), now)]
  {
    var keys := [p1, p2, p3];
    var positions := map[p1 := Cell(1, 1), p2 := Cell(1, 1), p3 := Cell(2, 2)];
    assert keys[..2] == [p1, p2] && keys[..2][..1] == [p1] && keys[..2][..1][..0] == [];
    assert Scan(keys[..2][..1], positions, p1, Cell(1, 1), now) == [];
  }

  /**
   * The tracker's own position-check scenario, for any three distinct agents:
   * p1 and p2 on (1, 1), p3 on (2, 2), no histories yet. A contact check for p1
   * at (1, 1) gives p1 one event naming p2, p2 one event naming p1, and p3 none.
   */
  lemma {:induction false} PositionCheckExample(p1: AgentId, p2: AgentId, p3: AgentId, now: Timestamp, cap: nat)
    requires cap > 0 && p1 != p2 && p1 != p3 && p2 != p3
    ensures var positions := map[p1 := Cell(1, 1), p2 := Cell(1, 1), p3 := Cell(2, 2)];
            var r := RecordContacts(map[], p1, Cell(1, 1), Scan([p1, p2, p3], positions, p1, Cell(1, 1), now), now, cap);
            && HistoryOf(r, p1) == [ContactEvent(p2, Cell(1, 1), now)]
            && HistoryOf(r, p2) == [ContactEvent(p1, Cell(1, 1), now)]
            && HistoryOf(r, p3) == []
  {
    var keys := [p1, p2, p3];
    var positions := map[p1 := Cell(1, 1), p2 := Cell(1, 1), p3 := Cell(2, 2)];
    var c := Cell(1, 1);
    var e, rev := ContactEvent(p2, c, now), ContactEvent(p1, c, now);
    var contacts := Scan(keys, positions, p1, c, now);
    PositionCheckScan(p1, p2, p3, now);
    var r := RecordContacts(map[], p1, c, contacts, now, cap);
    assert r == map[p1 := [e], p2 := [rev]] by {
      assert contacts[..0] == [];
      assert RecordContacts(map[], p1, c, contacts[..0], now, cap) == map[];
      assert Push([], e, cap) == [e] && Push([], rev, cap) == [rev];
      var mid := Record(map[], p1, e, cap);
      assert mid == map[p1 := [e]];
      assert r == Record(mid, p2, rev, cap);
    }
  }
}
