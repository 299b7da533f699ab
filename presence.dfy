/**
  The single-session-per-user rule of the WebSocket hub and the presence
  events it broadcasts, as values.

  A hub state holds the session registry (user id -> owning connection), the
  user record attached to each connection, the set of connected clients and
  the log of every broadcast sent so far. `Identify` is one successful
  identification of a connection; the class `Network.MessageDispatcher` is
  proved to perform exactly this transition.
 */
module Presence {

  /** The user id carried by an inbound message and used as registry key. */
  type UserId = int

  /** A connection's `resourceId`, unique and stable for its lifetime. */
  type ConnId = nat

  datatype Option<T> = None | Some(value: T)

  /** A user record as returned by the user lookup; only `id` is read by the hub's logic. */
  datatype UserRecord = UserRecord(id: UserId, username: string, fields: map<string, string>)

  /** The two outbound messages, discriminated by their `type` on the wire. */
  datatype Message =
    | UserDuplicateSession(id: UserId, removedSessionId: ConnId)
    | UserUpdate(data: map<UserId, UserRecord>)

  /** One call of `broadcastMessage`: a message fanned out to a set of connections. */
  datatype Broadcast = Broadcast(recipients: set<ConnId>, message: Message)

  datatype Hub = Hub(
    registry: map<UserId, ConnId>,
    attached: map<ConnId, UserRecord>,
    clients: set<ConnId>,
    outbox: seq<Broadcast>)

  /** Every connection that owns a registry entry has a user record attached. */
  ghost predicate Valid(h: Hub)
  {
    forall id | id in h.registry :: h.registry[id] in h.attached
  }

  /** `order` lists every key of `registry` exactly once, in some iteration order. */
  predicate IsEnumeration(order: seq<UserId>, registry: map<UserId, ConnId>)
  {
    && (forall i, j | 0 <= i < j < |order| :: order[i] != order[j])
    && (forall i | 0 <= i < |order| :: order[i] in registry)
    && (forall id | id in registry :: id in order)
  }

  /** The records attached to the sessions, visited in the order `order` gives. */
  function SessionRecords(order: seq<UserId>, registry: map<UserId, ConnId>, attached: map<ConnId, UserRecord>): seq<UserRecord>
    requires forall i | 0 <= i < |order| :: order[i] in registry && registry[order[i]] in attached
  {
    seq(|order|, i requires 0 <= i < |order| => attached[registry[order[i]]])
  }

  /**
    The index of the last session whose record carries `id`, or -1 when no
    session does.
   */
  function LastSessionWith(sessions: seq<UserRecord>, id: UserId): (k: int)
    ensures -1 <= k < |sessions|
    ensures k >= 0 ==> sessions[k].id == id && forall j | k < j < |sessions| :: sessions[j].id != id
    ensures k < 0 ==> forall j | 0 <= j < |sessions| :: sessions[j].id != id
    decreases |sessions|
  {
    if sessions == [] then -1
    else if sessions[|sessions| - 1].id == id then |sessions| - 1
    else LastSessionWith(sessions[..|sessions| - 1], id)
  }

  /**
    The roster of a `userUpdate` message, built by visiting the sessions in
    order and storing each one's filtered record under the record's own id.
    Its keys are exactly the ids some session carries, and each maps to the
    filtered record of the last session carrying it.
   */
  function Roster(sessions: seq<UserRecord>, filter: UserRecord -> UserRecord): (users: map<UserId, UserRecord>)
    ensures forall id :: id in users <==> LastSessionWith(sessions, id) >= 0
    ensures forall id | id in users :: users[id] == filter(sessions[LastSessionWith(sessions, id)])
    decreases |sessions|
  {
    if sessions == [] then map[]
    else
      var earlier := sessions[..|sessions| - 1];
      var last := sessions[|sessions| - 1];
      Roster(earlier, filter)[last.id := filter(last)]
  }

  /** The last session carrying an id decides that id's roster entry. */
  lemma RosterLastWins(sessions: seq<UserRecord>, filter: UserRecord -> UserRecord, i: nat)
    requires i < |sessions|
    requires forall j | i < j < |sessions| :: sessions[j].id != sessions[i].id
    ensures sessions[i].id in Roster(sessions, filter)
    ensures Roster(sessions, filter)[sessions[i].id] == filter(sessions[i])
  {
  }

  /** Sessions with the same id carry the same record. */
  ghost predicate IdsConsistent(sessions: seq<UserRecord>)
  {
    forall r, r' | r in sessions && r' in sessions && r.id == r'.id :: r == r'
  }

  /**
    When sessions with the same id carry the same record, the iteration
    order of the sessions does not matter: any two enumerations of the same
    records give the same roster.
   */
  lemma RosterOrderIrrelevant(s1: seq<UserRecord>, s2: seq<UserRecord>, filter: UserRecord -> UserRecord)
    requires forall r :: r in s1 <==> r in s2
    requires IdsConsistent(s1)
    ensures Roster(s1, filter) == Roster(s2, filter)
  {
    var m1, m2 := Roster(s1, filter), Roster(s2, filter);
    forall id | id in m1
      ensures id in m2 && m1[id] == m2[id]
    {
      var r := s1[LastSessionWith(s1, id)];
      assert r in s2;
      var k2 := LastSessionWith(s2, id);
      assert k2 >= 0;
      assert s2[k2] in s1;
    }
    forall id | id in m2
      ensures id in m1
    {
      var r := s2[LastSessionWith(s2, id)];
      assert r in s1;
    }
    assert m1.Keys == m2.Keys;
  }

  /**
    The registry's current owner of `id` when it is a connection other than
    `conn`: the session that an identification from `conn` evicts.
   */
  function PreviousOwner(registry: map<UserId, ConnId>, id: UserId, conn: ConnId): Option<ConnId>
  {
    if id in registry && registry[id] != conn then Some(registry[id]) else None
  }

  function DuplicateNotices(events: seq<Broadcast>): nat
  {
    if events == [] then 0
    else (if events[0].message.UserDuplicateSession? then 1 else 0) + DuplicateNotices(events[1..])
  }

  function UserUpdates(events: seq<Broadcast>): nat
  {
    if events == [] then 0
    else (if events[0].message.UserUpdate? then 1 else 0) + UserUpdates(events[1..])
  }

  /**
    The broadcasts of one successful identification: the eviction notice
    when a previous owner was evicted, then the roster update, both to every
    client.
   */
  function Announcements(prev: Option<ConnId>, id: UserId, clients: set<ConnId>, roster: map<UserId, UserRecord>): (events: seq<Broadcast>)
    ensures |events| == (if prev.Some? then 2 else 1)
    ensures forall e | e in events :: e.recipients == clients
    ensures DuplicateNotices(events) == |events| - 1
    ensures UserUpdates(events) == 1
    ensures events[|events| - 1].message == UserUpdate(roster)
    ensures prev.Some? ==> events[0].message == UserDuplicateSession(id, prev.value)
  {
    var update := [Broadcast(clients, UserUpdate(roster))];
    assert update[1..] == [];
    assert DuplicateNotices(update) == 0 && UserUpdates(update) == 1;
    if prev.Some? then
      var notice := [Broadcast(clients, UserDuplicateSession(id, prev.value))];
      assert (notice + update)[1..] == update;
      notice + update
    else
      update
  }

  /**
    One successful identification of connection `from` as user `id` whose
    looked-up record is `rec`: evict a different previous owner, attach the
    record, register `from` as owner, then broadcast the roster built by
    visiting the sessions in the order `order`.
   */
  function Identify(h: Hub, from: ConnId, id: UserId, rec: UserRecord, order: seq<UserId>, filter: UserRecord -> UserRecord): (h': Hub)
    requires Valid(h)
    requires IsEnumeration(order, h.registry[id := from])
    ensures Valid(h')
    ensures id in h'.registry && h'.registry[id] == from
    ensures h'.registry.Keys == h.registry.Keys + {id}
    ensures forall k | k in h.registry && k != id :: h'.registry[k] == h.registry[k]
    ensures from in h'.attached && h'.attached[from] == rec
    ensures h'.attached.Keys == h.attached.Keys + {from}
    ensures forall c | c in h.attached && c != from :: h'.attached[c] == h.attached[c]
    ensures h'.clients == h.clients
    ensures |h.outbox| < |h'.outbox| && h'.outbox[..|h.outbox|] == h.outbox
    // Eviction rule: one duplicate-session notice, sent first and naming the
    // registered connection, exactly when a different connection owned `id`.
    ensures DuplicateNotices(h'.outbox[|h.outbox|..]) == (if id in h.registry && h.registry[id] != from then 1 else 0)
    ensures id in h.registry && h.registry[id] != from ==>
              h'.outbox[|h.outbox|] == Broadcast(h.clients, UserDuplicateSession(id, h.registry[id]))
    ensures UserUpdates(h'.outbox[|h.outbox|..]) == 1
    ensures h'.outbox[|h'.outbox| - 1] == Broadcast(h.clients, UserUpdate(Roster(SessionRecords(order, h'.registry, h'.attached), filter)))
    ensures h'.outbox == h.outbox + Announcements(PreviousOwner(h.registry, id, from), id, h.clients,
                                                  Roster(SessionRecords(order, h'.registry, h'.attached), filter))
  {
    var registry := h.registry[id := from];
    var attached := h.attached[from := rec];
    assert forall i | 0 <= i < |order| :: registry[order[i]] in attached by {
      forall i | 0 <= i < |order| ensures registry[order[i]] in attached {
        if order[i] != id { assert h.registry[order[i]] in h.attached; }
      }
    }
    var roster := Roster(SessionRecords(order, registry, attached), filter);
    var events := Announcements(PreviousOwner(h.registry, id, from), id, h.clients, roster);
    assert (h.outbox + events)[|h.outbox|..] == events;
    Hub(registry, attached, h.clients, h.outbox + events)
  }

  /**
    The outcome of handling an identification of `from` as `id`: nothing
    changes when the lookup finds no record; otherwise the state is an
    `Identify` step for some iteration order of the sessions.
   */
  ghost predicate Handled(h: Hub, h': Hub, from: ConnId, id: UserId,
                          lookup: UserId -> Option<UserRecord>, filter: UserRecord -> UserRecord)
  {
    && Valid(h)
    && match lookup(id)
       case None => h' == h
       case Some(rec) =>
         exists order | IsEnumeration(order, h.registry[id := from]) :: h' == Identify(h, from, id, rec, order, filter)
  }

  /**
    Two connections identify as the same, so far unclaimed, id one after the
    other: the second becomes the sole owner and the first, which owned no
    other id, no longer owns any session.
   */
  lemma SecondSessionTakesOver(h: Hub, a: ConnId, b: ConnId, id: UserId, recA: UserRecord, recB: UserRecord,
                               orderA: seq<UserId>, orderB: seq<UserId>, filter: UserRecord -> UserRecord)
    requires Valid(h) && a != b
    requires forall k | k in h.registry :: h.registry[k] != a
    requires IsEnumeration(orderA, h.registry[id := a])
    requires IsEnumeration(orderB, h.registry[id := a][id := b])
    ensures var h2 := Identify(Identify(h, a, id, recA, orderA, filter), b, id, recB, orderB, filter);
            && h2.registry[id] == b
            && forall k | k in h2.registry :: h2.registry[k] != a
  {
  }

  /**
    Over the same two steps exactly one eviction notice is sent, naming the
    first connection, immediately before the second roster update.
   */
  lemma SecondSessionEvicts(h: Hub, a: ConnId, b: ConnId, id: UserId, recA: UserRecord, recB: UserRecord,
                            orderA: seq<UserId>, orderB: seq<UserId>, filter: UserRecord -> UserRecord)
    requires Valid(h) && a != b && id !in h.registry
    requires IsEnumeration(orderA, h.registry[id := a])
    requires IsEnumeration(orderB, h.registry[id := a][id := b])
    ensures var h2 := Identify(Identify(h, a, id, recA, orderA, filter), b, id, recB, orderB, filter);
            && |h2.outbox| == |h.outbox| + 3
            && DuplicateNotices(h2.outbox[|h.outbox|..]) == 1
            && UserUpdates(h2.outbox[|h.outbox|..]) == 2
            && h2.outbox[|h.outbox| + 1].message == UserDuplicateSession(id, a)
            && h2.outbox[|h.outbox| + 2].message.UserUpdate?
  {
  }

  /**
    A connection that identifies again as the id it already owns evicts
    nobody: the repeated step emits exactly one broadcast, a roster update.
   */
  lemma ReidentifyEmitsOnlyUpdate(h: Hub, c: ConnId, id: UserId, rec: UserRecord, rec': UserRecord,
                                  order: seq<UserId>, order': seq<UserId>, filter: UserRecord -> UserRecord)
    requires Valid(h)
    requires IsEnumeration(order, h.registry[id := c])
    requires IsEnumeration(order', h.registry[id := c][id := c])
    ensures var h1 := Identify(h, c, id, rec, order, filter);
            var h2 := Identify(h1, c, id, rec', order', filter);
            && |h2.outbox| == |h1.outbox| + 1
            && h2.outbox[|h1.outbox|].message.UserUpdate?
            && h2.registry == h1.registry
  {
  }

  /**
    A connection that identifies as `x` and then as another id `y` stays
    registered as the owner of both; its attached record is the last one.
   */
  lemma SwitchingIdKeepsEarlierEntry(h: Hub, c: ConnId, x: UserId, y: UserId, recX: UserRecord, recY: UserRecord,
                                     orderX: seq<UserId>, orderY: seq<UserId>, filter: UserRecord -> UserRecord)
    requires Valid(h) && x != y
    requires IsEnumeration(orderX, h.registry[x := c])
    requires IsEnumeration(orderY, h.registry[x := c][y := c])
    ensures var h2 := Identify(Identify(h, c, x, recX, orderX, filter), c, y, recY, orderY, filter);
            && h2.registry[x] == c && h2.registry[y] == c
            && h2.attached[c] == recY
  {
  }
}
