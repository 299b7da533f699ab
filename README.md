# Single-session-per-user dispatcher of the WebSocket hub

This project models `MessageDispatcher`, the part of the PHP game server's WebSocket hub that binds a user id to one connection. When a client sends a message carrying a `userId`, the dispatcher does the following:

1. It looks the user up.
2. If a different connection already owns that id, it evicts that connection from the session registry and broadcasts `userDuplicateSession`.
3. It attaches the record to the sender and registers the sender as the owner.
4. It rebuilds the roster of all sessions, keyed by user id with sensitive fields filtered, and broadcasts it as `userUpdate`.

Two modules:

- `Presence` (presence.dfy) holds the values. The hub state `Hub` has four parts:
  - the registry, user id → connection `resourceId`;
  - the record attached to each connection;
  - the client set;
  - the log of broadcasts.

  The module defines the outbound messages and the roster. `LastSessionWith` is a reference definition of which session decides a roster entry. `Identify` is one successful identification as a function of the old state. The lemmas relate several steps.
- `Network` (message_dispatcher.dfy) holds the class `MessageDispatcher`. Its fields are the registry, the attached records, the clients and the outbox. `OnMessage` and `HandleUserData` are imperative and call the collaborator operations in the source's order. `HandleUserData` is proved to produce exactly the `Identify` step. The roster is built by a loop (`BuildRoster`) proved equal to `Roster`.

Collaborators whose code is not part of this model are modelled abstractly:

- `GetUserData::getUserById` is a function `UserId -> Option<UserRecord>` fixed at construction. A falsy result (`null`, `false`, an empty array) is `None`.
- `MessageSender::filterSensitiveData` is an uninterpreted function `UserRecord -> UserRecord` fixed at construction.
- `MessageSender::broadcastMessage` appends one `Broadcast(recipients, message)` to the outbox. The recipients are the whole client set at that moment.
- `UserSessionManager` is the `sessions` map with four operations:
  - `getUserSession` is a map lookup;
  - `setUserSession` is a map store;
  - `disconnectPreviousSession` may drop the entry for the id and touches nothing else;
  - `getAllSessions` enumerates the registry's keys once each, in an order the model leaves open.

  Every contract about the roster therefore holds for every iteration order.
- The decoded message is an `Option<UserId>`. `None` stands for "no non-null `userId`".

Behaviour of the code that the model keeps:

- The roster is built from the registry's sessions (`getAllSessions`), not from every connection with an attached record.
- Replacing the owner is two calls, `disconnectPreviousSession` and then `setUserSession`. It is not a single atomic swap.

The dispatcher's own code does not close the evicted connection or remove it from the client set. The model assumes that `disconnectPreviousSession`, whose code is not part of this model, does not either. In the model the evicted connection therefore keeps receiving both broadcasts. The dispatcher's code also has no path that removes a session when its connection closes.

A consequence of the code that the model makes explicit is `SwitchingIdKeepsEarlierEntry`. A connection that identifies as `x` and later as `y` still owns `x` in the registry, while its attached record is `y`'s. A later claim of `x` by another connection then names that connection as the evicted session.

## Model

| member | source | states |
|---|---|---|
| `Network.MessageDispatcher.constructor` | PHP-Emulator/src/Network/MessageDispatcher.php:17-22 | the dispatcher starts from the given lookup, filter, registry, attached records and clients, with an empty outbox |
| `Network.MessageDispatcher.OnMessage` | PHP-Emulator/src/Network/MessageDispatcher.php:24-30 | a message without a non-null `userId` changes no registry entry, no attached record and sends nothing; otherwise the outcome is that of `HandleUserData` |
| `Network.MessageDispatcher.HandleUserData` | PHP-Emulator/src/Network/MessageDispatcher.php:32-71 | an id the lookup does not find leaves the whole state unchanged with zero broadcasts; a found record yields exactly the `Identify` step for the order in which the registry enumerated its sessions; the invariant "every registered connection has a record" is kept |
| `Network.MessageDispatcher.GetUserSession` | PHP-Emulator/src/Network/MessageDispatcher.php:41 | returns the registry's owner of the id exactly when the id is registered |
| `Network.MessageDispatcher.DisconnectPreviousSession` | PHP-Emulator/src/Network/MessageDispatcher.php:45 | at most the entry for the id is dropped; attached records, clients and outbox are untouched |
| `Network.MessageDispatcher.SetUserSession` | PHP-Emulator/src/Network/MessageDispatcher.php:57 | the connection becomes the registry owner of the id, overwriting any entry; nothing else changes |
| `Network.MessageDispatcher.GetAllSessions` | PHP-Emulator/src/Network/MessageDispatcher.php:62 | the result lists every registered id exactly once and nothing else |
| `Network.MessageDispatcher.BuildRoster` | PHP-Emulator/src/Network/MessageDispatcher.php:61-65 | the `foreach` that stores each session's filtered record under the record's id yields the roster of the sessions in the visiting order |
| `Network.MessageDispatcher.BroadcastMessage` | PHP-Emulator/src/Network/MessageDispatcher.php:49-53 | exactly one broadcast is appended, addressed to the whole client set; registry, records and clients are unchanged |
| `Presence.Announcements` | PHP-Emulator/src/Network/MessageDispatcher.php:43-70 | one or two broadcasts, all to the full client set; exactly one `userUpdate`, carrying the roster, and it is last; exactly one `userDuplicateSession`, carrying the id and the evicted connection's `resourceId` and sent first, when there is a previous owner, otherwise none |
| `Presence.Identify` | PHP-Emulator/src/Network/MessageDispatcher.php:40-70 | after a successful identification the sender owns the id and carries the looked-up record; all other registry entries and records are unchanged; the client set is unchanged; the old outbox is kept and new broadcasts are appended; exactly one `userDuplicateSession` is among them, sent first to the full client set and naming the id and the registered connection, when the id was registered to a connection other than the sender, and none otherwise; exactly one `userUpdate` is among them, sent last to the full client set and carrying the roster of the new sessions |
| `Presence.LastSessionWith` | PHP-Emulator/src/Network/MessageDispatcher.php:62-64 | reference definition: the index of the last session whose record carries the id, or -1 exactly when no session carries it |
| `Presence.Roster` | PHP-Emulator/src/Network/MessageDispatcher.php:61-65 | the roster has a key for every id some session's record carries and no other keys; each key maps to the filtered record of the last session carrying that id |
| `Presence.RosterLastWins` | PHP-Emulator/src/Network/MessageDispatcher.php:62-64 | when two sessions share an id, the later one in iteration order decides the roster entry |
| `Presence.RosterOrderIrrelevant` | PHP-Emulator/src/Network/MessageDispatcher.php:62-64 | when sessions with the same id carry the same record, any two enumerations of the same sessions give the same roster |
| `Presence.SecondSessionTakesOver` | PHP-Emulator/src/Network/MessageDispatcher.php:41-57 | after connection A and then connection B identify as the same id, B owns it and, when A owned no other id, A owns no session |
| `Presence.SecondSessionEvicts` | PHP-Emulator/src/Network/MessageDispatcher.php:43-70 | over those two steps, for a previously unclaimed id, exactly one `userDuplicateSession` is sent, naming A, immediately before the second of two `userUpdate` broadcasts |
| `Presence.ReidentifyEmitsOnlyUpdate` | PHP-Emulator/src/Network/MessageDispatcher.php:43 | a connection identifying again as the id it already owns evicts nobody: exactly one broadcast, a `userUpdate`, and the registry is unchanged |
| `Presence.SwitchingIdKeepsEarlierEntry` | PHP-Emulator/src/Network/MessageDispatcher.php:56-57 | a connection that identifies as `x` and then as `y` owns both ids in the registry and carries `y`'s record |

## Left out

- JSON decoding (line 25) is not modelled. Only its outcome is, as an optional user id.
- That no lookup happens for a message without `userId` is not observable. The lookup is a pure function, so the model shows only that nothing changes.
- The `Logger::log` diagnostics (lines 36, 47, 59) and the `'Unknown'` username fallback (line 44) are left out. They affect only the log.
- `Network.MessageDispatcher.DisconnectPreviousSession`: the real method's code is not part of this model. Its contract only allows it to drop the entry for the id. Whatever it does to that entry, `setUserSession` overwrites it next. Closing the evicted connection or clearing its record is not modelled.
- `Network.MessageDispatcher.GetAllSessions`: the iteration order of the real session store is unknown. Every roster property is therefore proved for an arbitrary enumeration of the registered ids.
- The Ratchet transport is not modelled: accepting and closing connections, allocating `resourceId`s and the `SplObjectStorage` mechanics. Connections are their `resourceId`s, and `!==` on connections is inequality of those ids.
- Serialisation and socket sends inside `broadcastMessage` are not modelled, and neither is a send failing on one recipient. The outbox records each broadcast and its intended recipients.
- The sensitive-field policy of `filterSensitiveData` is not modelled. It is an uninterpreted function, so its idempotence cannot be stated about it.
- Concurrency and locking are out of scope. The source runs on one event loop without synchronisation, so each message is handled as one sequential step.
- Removing a session when its connection closes is not modelled. The dispatcher's code has no such path.
- The CodeIgniter `GuestFilter` (app/Filters/Auth/GuestFilter.php) is an HTTP redirect wrapper around framework calls that are not part of this model.
- PHP's coercion of array keys (numeric strings becoming integers) is not modelled. User ids are integers throughout.
