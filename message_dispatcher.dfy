/**
  The hub's message dispatcher: for each inbound message that names a user
  id, it looks the user up, evicts a different connection that already owns
  that id, attaches the record to the sender, registers the sender as owner
  and broadcasts the rebuilt roster.

  The collaborators whose code is not part of this model are members of the
  class over its own fields: the session registry (`UserSessionManager`) is
  the map `sessions`, each connection's `userData` is the map `userData`,
  and every `broadcastMessage` call appends one `Broadcast` to `outbox`. The
  user lookup and the sensitive-field filter are functions fixed at
  construction.
 */
module Network {
  import opened Presence

  lemma NonEmptyHasMember(s: set<UserId>)
    requires s != {}
    ensures exists id :: id in s
  {
    if forall id :: id !in s {
      assert false;
    }
  }

  class MessageDispatcher {
    /** `GetUserData::getUserById`: the record for an id, or none. */
    const fetchUser: UserId -> Option<UserRecord>
    /** `MessageSender::filterSensitiveData`: the record as shown to other clients. */
    const filterSensitiveData: UserRecord -> UserRecord

    /** The session registry: user id -> owning connection. */
    var sessions: map<UserId, ConnId>
    /** The user record attached to each identified connection. */
    var userData: map<ConnId, UserRecord>
    /** The connected clients every broadcast goes to. */
    var clients: set<ConnId>
    /** Every broadcast sent so far, oldest first. */
    var outbox: seq<Broadcast>

    function State(): Hub
      reads this
    {
      Hub(sessions, userData, clients, outbox)
    }

    ghost predicate Valid()
      reads this
    {
      Presence.Valid(State())
    }

    constructor (fetchUser: UserId -> Option<UserRecord>, filterSensitiveData: UserRecord -> UserRecord,
                 sessions: map<UserId, ConnId>, userData: map<ConnId, UserRecord>, clients: set<ConnId>)
      requires Presence.Valid(Hub(sessions, userData, clients, []))
      ensures Valid()
      ensures this.fetchUser == fetchUser && this.filterSensitiveData == filterSensitiveData
      ensures State() == Hub(sessions, userData, clients, [])
    {
      this.fetchUser := fetchUser;
      this.filterSensitiveData := filterSensitiveData;
      this.sessions := sessions;
      this.userData := userData;
      this.clients := clients;
      this.outbox := [];
    }

    /**
      An inbound message, of which only the outcome of probing for a
      non-null `userId` is modelled: a message without one changes nothing
      and sends nothing.
     */
    method OnMessage(from: ConnId, msg: Option<UserId>)
      requires Valid()
      modifies this
      ensures Valid()
      ensures msg.None? ==> State() == old(State())
      ensures msg.Some? ==> Handled(old(State()), State(), from, msg.value, fetchUser, filterSensitiveData)
    {
      if msg.Some? {
        HandleUserData(from, msg.value);
      }
    }

    /**
      Identification of `conn` as user `id`. An unknown id changes nothing
      and sends nothing; otherwise the new state is the `Identify` step for
      the order in which the registry enumerated its sessions.
     */
    method HandleUserData(conn: ConnId, id: UserId)
      requires Valid()
      modifies this
      ensures Valid()
      ensures Handled(old(State()), State(), conn, id, fetchUser, filterSensitiveData)
    {
      var found := fetchUser(id);
      if found.None? {
        return;
      }
      var record := found.value;
      var existingSession := GetUserSession(id);
      if existingSession.Some? && existingSession.value != conn {
        DisconnectPreviousSession(id, conn);
        assert sessions[id := conn] == old(sessions)[id := conn];
        BroadcastMessage(UserDuplicateSession(id, existingSession.value));
      }
      userData := userData[conn := record];
      SetUserSession(id, conn);
      var order := GetAllSessions();
      var users := BuildRoster(order);
      BroadcastMessage(UserUpdate(users));
      assert State() == Identify(old(State()), conn, id, record, order, filterSensitiveData);
    }

    /** `UserSessionManager::getUserSession`: the current owner of `id`, if any. */
    method GetUserSession(id: UserId) returns (owner: Option<ConnId>)
      ensures owner.Some? <==> id in sessions
      ensures owner.Some? ==> owner.value == sessions[id]
    {
      owner := if id in sessions then Some(sessions[id]) else None;
    }

    /**
      `UserSessionManager::disconnectPreviousSession`: it may drop the entry
      for `id` and touches nothing else.
     */
    method DisconnectPreviousSession(id: UserId, conn: ConnId)
      modifies this
      ensures sessions == old(sessions) || sessions == old(sessions) - {id}
      ensures userData == old(userData) && clients == old(clients) && outbox == old(outbox)
    {
      sessions := sessions - {id};
    }

    /** `UserSessionManager::setUserSession`: `conn` becomes the owner of `id`. */
    method SetUserSession(id: UserId, conn: ConnId)
      modifies this
      ensures sessions == old(sessions)[id := conn]
      ensures userData == old(userData) && clients == old(clients) && outbox == old(outbox)
    {
      sessions := sessions[id := conn];
    }

    /**
      `UserSessionManager::getAllSessions`: the registry's keys, each once,
      in an iteration order this model leaves open.
     */
    method GetAllSessions() returns (order: seq<UserId>)
      ensures IsEnumeration(order, sessions)
    {
      order := [];
      var remaining := sessions.Keys;
      while remaining != {}
        invariant remaining <= sessions.Keys
        invariant forall i, j | 0 <= i < j < |order| :: order[i] != order[j]
        invariant forall i | 0 <= i < |order| :: order[i] in sessions && order[i] !in remaining
        invariant forall id | id in sessions :: id in order || id in remaining
        decreases remaining
      {
        NonEmptyHasMember(remaining);
        var key :| key in remaining;
        order := order + [key];
        remaining := remaining - {key};
      }
    }

    /**
      The `foreach` over the sessions: each session's record, filtered, is
      stored under the record's id; the result is the roster of the sessions
      visited in the order `order`.
     */
    method BuildRoster(order: seq<UserId>) returns (users: map<UserId, UserRecord>)
      requires forall i | 0 <= i < |order| :: order[i] in sessions && sessions[order[i]] in userData
      ensures users == Roster(SessionRecords(order, sessions, userData), filterSensitiveData)
    {
      ghost var visited := SessionRecords(order, sessions, userData);
      users := map[];
      for i := 0 to |order|
        invariant users == Roster(visited[..i], filterSensitiveData)
      {
        var session := sessions[order[i]];
        var filtered := filterSensitiveData(userData[session]);
        assert visited[..i + 1][..i] == visited[..i];
        users := users[userData[session].id := filtered];
      }
      assert visited[..|order|] == visited;
    }

    /** `MessageSender::broadcastMessage`: `message` goes to every client. */
    method BroadcastMessage(message: Message)
      modifies this
      ensures outbox == old(outbox) + [Broadcast(clients, message)]
      ensures sessions == old(sessions) && userData == old(userData) && clients == old(clients)
    {
      outbox := outbox + [Broadcast(clients, message)];
    }
  }
}
