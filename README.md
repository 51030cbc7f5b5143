# Chat relay server: presence table and fan-out

A Dafny model of the Socket.IO relay in `chat-app/server/index.js`. The server
keeps two pieces of state — the sockets Socket.IO holds open and the
module-level `users` object, which maps a socket id to the name it joined
with — and four handlers change that state and emit events:

- `user_join` stores the name and sends every connected socket, the joiner
  included, the name and the roster (`Object.values(users)`) after the update;
- `send_message` sends every connected socket, the sender included, the body
  unchanged, the sender's `users` entry, its socket id and a time stamp;
- `typing` sends every connected socket but the sender the sender's `users`
  entry;
- `disconnect` deletes the socket's entry and sends the remaining sockets the
  name and the new roster, but only when the stored name is truthy.

Node runs one handler at a time, so each handler is one atomic method of the
class `Relay.Server`.

Files:

- `js_values.dfy` (module `JsValues`): the JavaScript values a client can send
  (`Value`) and JavaScript truthiness (`Truthy`). Names and message bodies are
  whatever the client sent, so they are `Value`s, not strings.
- `users_table.dfy` (module `UsersTable`): the `users` object as an ordered
  sequence of entries whose keys are distinct (`Distinct`). A JavaScript object keeps
  its string keys in insertion order, an assignment to an existing key keeps
  its position, and `delete` closes the gap. `Lookup` is `users[id]`, and it
  gives `Undefined` for a missing key, as JavaScript does for a socket id. `Assign` is
  `users[id] = v`, `Delete` is `delete users[id]` and `Values` is
  `Object.values(users)`.
- `relay.dfy` (module `Relay`): the outbound events (`Event`), an emit with its
  recipient set (`Emission`), the per-socket view of the emit log
  (`Received`), and the class `Server`. Its fields are `connected`, `users` and
  `log`, plus two ghost histories: `seen` holds every id that ever connected
  and `joined` every id that sent `user_join`. Each handler is a method whose
  postcondition states the whole new state and what every socket is sent.
- `relay_scenarios.dfy` (module `RelayScenarios`): scenarios of `Server`,
  each proving exactly what every socket is sent.

The invariant `Server.Valid()` says four things. The keys of `users` are
distinct. Every key of `users` belongs to a socket that joined. Every entry
whose name is truthy belongs to a socket that is still connected. A connected
socket that never joined has no entry. Every handler preserves it.

Behaviour of the code that the model keeps on purpose:

- Message bodies are not checked: an empty or long body is relayed as sent.
- A socket that never joined is not refused. Its messages and typing signals
  are relayed with `undefined` where the name would be
  (`RelayScenarios.UnjoinedSender`).
- A socket that joined with a falsy name, such as `""`, is never removed. The
  `if (username)` test skips the `delete`, so the entry stays in every later
  roster (`RelayScenarios.EmptyNameOutlivesSocket`).
- A second `user_join` from the same socket renames it in place. The roster
  does not grow and the entry does not move (`UsersTable.AssignInPlace`).

## Model

| member | source | states |
|---|---|---|
| `JsValues.Truthy` | chat-app/server/index.js:58 | the `if (username)` test: a value passes exactly when it is not one of JavaScript's falsy values `undefined`, `null`, `false`, `0`, `""` |
| `UsersTable.Lookup` | chat-app/server/index.js:57 | `users[id]` is `undefined` when `id` is not a key, and otherwise the value of an entry stored under `id` |
| `UsersTable.LookupAt` | chat-app/server/index.js:57 | in a table with distinct keys, `users[id]` is the value of the one entry stored under `id` |
| `UsersTable.Assign` | chat-app/server/index.js:35 | `users[id] = v` appends a new entry at the end for a new key, and keeps the table's length for an existing key |
| `UsersTable.AssignLookup` | chat-app/server/index.js:35 | after `users[id] = v`, `users[id]` is `v` and every other key reads as before |
| `UsersTable.AssignInPlace` | chat-app/server/index.js:35 | re-assigning an existing key replaces its entry at the same position: no second entry, no move |
| `UsersTable.AssignDistinct` | chat-app/server/index.js:35 | `users[id] = v` keeps the keys distinct |
| `UsersTable.AssignEntries` | chat-app/server/index.js:35 | after `users[id] = v` the entries are exactly the new one plus the old entries under every other key |
| `UsersTable.Delete` | chat-app/server/index.js:60 | `delete users[id]` shrinks the table by one when `id` is a key, and changes nothing when it is not |
| `UsersTable.DeleteAt` | chat-app/server/index.js:60 | deleting the key at position `i` leaves the entries before and after it in their order |
| `UsersTable.DeleteLookup` | chat-app/server/index.js:60 | after `delete users[id]`, `users[id]` is `undefined` and every other key reads as before |
| `UsersTable.DeleteDistinct` | chat-app/server/index.js:60 | `delete users[id]` keeps the keys distinct |
| `UsersTable.DeleteEntries` | chat-app/server/index.js:60 | after `delete users[id]` the entries are exactly the old entries under every other key |
| `UsersTable.Values` | chat-app/server/index.js:36 | `Object.values(users)` has one value per entry, the `i`-th entry's value at position `i` |
| `UsersTable.RosterAfterAssign` | chat-app/server/index.js:35-36 | the roster after a join is the old roster with the new name appended (new socket), or with the name replaced at the socket's position (re-join) |
| `UsersTable.RosterAfterDelete` | chat-app/server/index.js:60-61 | the roster after a leave is the old roster with the departing entry's value cut out and the others in order |
| `Relay.Received` | chat-app/server/index.js:36-61 | what one socket is sent is drawn only from emits addressed to it, and never exceeds the number of emits |
| `Relay.ReceivedAppend` | chat-app/server/index.js:36-61 | one more emit adds its event to a socket's received stream exactly when the socket is among the recipients, and leaves the streams of all other sockets unchanged |
| `Relay.Server.constructor` | chat-app/server/index.js:27 | the server starts with no connected socket, an empty `users` object and nothing emitted |
| `Relay.Server.Connect` | chat-app/server/index.js:30-31 | a new socket joins the connected set with no `users` entry. Nothing is emitted and the invariant is kept |
| `Relay.Server.UserJoin` | chat-app/server/index.js:34-38 | `users` becomes `Assign(users, id, name)` and the connected set is unchanged. Every entry of a socket that has already disconnected stays in `users`. One `user_joined` event carrying the name and the post-update roster goes to every connected socket, the joiner included |
| `Relay.Server.SendMessage` | chat-app/server/index.js:41-48 | `users` and the connected set are unchanged. One `receive_message` goes to every connected socket, the sender included. It carries the body unchanged, `users[id]` (`undefined` if never joined), the sender's id and the time stamp |
| `Relay.Server.Typing` | chat-app/server/index.js:51-53 | `users` and the connected set are unchanged. One `user_typing` carrying `users[id]` goes to every connected socket except the sender, whose received stream is unchanged |
| `Relay.Server.Disconnect` | chat-app/server/index.js:56-63 | the socket leaves the connected set. If its stored name is truthy, `users` becomes `Delete(users, id)` and one `user_left` with that name and the new roster goes to every remaining socket. Otherwise `users` and the log are unchanged. Every entry of a socket that had already disconnected stays in `users` |
| `RelayScenarios.JoinTalkLeave` | chat-app/server/index.js:30-63 | Alice joins, Bob joins, Alice sends "hi" and Bob leaves: the exact event streams both sockets receive, including Alice's own message and the roster of Alice alone in `user_left` |
| `RelayScenarios.UnjoinedSender` | chat-app/server/index.js:41-53 | a socket that never joined sends an empty message and a typing signal. Both are relayed with `undefined` as the user, and the sender gets its own message but not its typing signal |
| `RelayScenarios.EmptyNameOutlivesSocket` | chat-app/server/index.js:34-63 | a socket that joined as `""` disconnects with nothing emitted, and its `""` entry heads the roster the next joiner is sent |
| `RelayScenarios.RejoinRenamesInPlace` | chat-app/server/index.js:34-36 | Alice, then Bob, then Alice again as "ally": the roster is `["ally", "bob"]` |

## Left out

- Express and HTTP setup, CORS options, the `/` route and `server.listen`
  (chat-app/server/index.js:1-24, 66-70): server plumbing with no state the
  handlers use.
- `console.log` calls: logging only.
- `new Date().toLocaleTimeString()` (chat-app/server/index.js:46) depends on
  the clock and the locale. It is the `time` parameter of `SendMessage`.
- Socket.IO transport: how emits are delivered, acknowledgements,
  reconnection, and JSON serialization. For example, JSON drops an
  `undefined` field and turns `undefined` in an array into `null`. The model
  records each emit's payload and recipient set: `io.emit` goes to all
  connected sockets, `socket.broadcast.emit` to all but the sender.
- Socket.IO only dispatches a socket's events while it is connected, so every
  handler method requires `id in connected`. It never reuses a socket id
  (connection-state recovery is off), so `Connect` requires a fresh id.
- JavaScript numbers are modelled as integers: floating point, `NaN` and
  `-0` are left out. Objects and arrays are one opaque value, `Obj`, because
  the relay never looks inside a name or a body.
- Socket ids are taken never to be array-index strings such as `"12"`. A
  JavaScript object lists those keys first in ascending order, so such a key
  would not follow insertion order. Ids are also taken never to be
  `Object.prototype` property names (`__proto__`, `constructor`, `toString`,
  ...): reading such a key gives an inherited value instead of `undefined`,
  and assigning `__proto__` creates no own entry. Socket.IO's random
  20-character ids are never such names.
- SendMessage: takes the value of `data.message` as its argument. When `data`
  is `null` or `undefined`, the source handler throws a `TypeError` at
  chat-app/server/index.js:43 and emits nothing; that path is not modelled.
- The client screens (chat-app/client/app/chat.tsx, chat-app/client/app/index.tsx)
  are not part of this model. They hold React Native UI state, rendering, the
  socket client, a 2000 ms timer that clears the typing indicator, and the
  login screen's trimmed-empty check. All of that is UI, timers and a foreign
  library.
