/** The relay server's Socket.IO handlers: the set of connected sockets, the
    `users` table, and every event the handlers emit together with the
    sockets it is addressed to. Node runs one handler to completion before
    the next, so each handler is one atomic step of the `Server` object. */
module Relay {
  import opened JsValues
  import opened UsersTable

  /** An outbound event and its payload. */
  datatype Event =
    | UserJoined(user: Value, users: seq<Value>)
    | ReceiveMessage(message: Value, user: Value, userId: SocketId, time: string)
    | UserTyping(user: Value)
    | UserLeft(user: Value, users: seq<Value>)

  /** One emit: an event and the sockets it is addressed to. `io.emit`
      addresses every connected socket; `socket.broadcast.emit` every
      connected socket but the sender. */
  datatype Emission = Emission(event: Event, to: set<SocketId>)

  /** The events socket `s` is sent over the whole log, in emit order. */
  function Received(log: seq<Emission>, s: SocketId): (evs: seq<Event>)
    ensures |evs| <= |log|
    ensures forall ev :: ev in evs ==> exists em :: em in log && em.event == ev && s in em.to
  {
    if log == [] then []
    else (if s in log[0].to then [log[0].event] else []) + Received(log[1..], s)
  }

  /** Emitting one more event extends what `s` has been sent by that event
      exactly when `s` is among its recipients. */
  lemma {:induction false} ReceivedAppend(log: seq<Emission>, em: Emission, s: SocketId)
    ensures Received(log + [em], s) == Received(log, s) + (if s in em.to then [em.event] else [])
  {
    if log != [] {
      ReceivedAppend(log[1..], em, s);
      assert (log + [em])[1..] == log[1..] + [em];
    }
  }

  class Server {
    /** The sockets Socket.IO currently holds open. */
    var connected: set<SocketId>
    /** The module-level `users` object. */
    var users: seq<Entry>
    /** Every emit so far, oldest first. */
    var log: seq<Emission>
    /** Every socket id that has ever connected; Socket.IO never hands out an
        id twice. */
    ghost var seen: set<SocketId>
    /** Every socket id that has sent `user_join`. */
    ghost var joined: set<SocketId>

    /** `users` has distinct keys, only sockets that joined have an entry, and
        an entry whose name is truthy belongs to a socket that is still
        connected. An entry with a falsy name may outlive its socket. */
    ghost predicate Valid()
      reads this
    {
      && Distinct(users)
      && connected <= seen
      && joined <= seen
      && (forall e :: e in users ==> e.id in joined)
      && (forall e :: e in users && Truthy(e.name) ==> e.id in connected)
    }

    /** The server starts with nobody connected, an empty `users` table and
        nothing emitted. */
    constructor ()
      ensures Valid()
      ensures connected == {} && users == [] && log == []
      ensures seen == {} && joined == {}
    {
      connected := {};
      users := [];
      log := [];
      seen := {};
      joined := {};
    }

    /** `io.on('connection')`: a new socket is connected. It has no entry in
        `users` yet and nothing is emitted. */
    method Connect(id: SocketId)
      requires Valid()
      requires id !in seen
      modifies this
      ensures Valid()
      ensures connected == old(connected) + {id}
      ensures users == old(users) && log == old(log)
      ensures seen == old(seen) + {id} && joined == old(joined)
      ensures Lookup(users, id) == Undefined
    {
      connected := connected + {id};
      seen := seen + {id};
    }

    /** `user_join`: store the name under the socket's id, then send every
        connected socket, the joiner included, the name and the roster as it
        stands after the update. */
    method UserJoin(id: SocketId, username: Value)
      requires Valid()
      requires id in connected
      modifies this
      ensures Valid()
      ensures users == Assign(old(users), id, username)
      ensures connected == old(connected) && seen == old(seen) && joined == old(joined) + {id}
      ensures forall e :: e in old(users) && e.id !in old(connected) ==> e in users
      ensures log == old(log) + [Emission(UserJoined(username, Values(users)), connected)]
      ensures forall s ::
        Received(log, s) == Received(old(log), s) + if s in connected then [UserJoined(username, Values(users))] else []
    {
      AssignDistinct(users, id, username);
      AssignEntries(users, id, username);
      users := Assign(users, id, username);
      joined := joined + {id};
      var em := Emission(UserJoined(username, Values(users)), connected);
      forall s ensures Received(log + [em], s) == Received(log, s) + (if s in em.to then [em.event] else []) {
        ReceivedAppend(log, em, s);
      }
      log := log + [em];
    }

    /** `send_message`: send every connected socket, the sender included, the
        body unchanged, the sender's entry in `users` (`undefined` if it never
        joined), its socket id and the time stamp. */
    method SendMessage(id: SocketId, message: Value, time: string)
      requires Valid()
      requires id in connected
      modifies this
      ensures Valid()
      ensures users == old(users) && connected == old(connected)
      ensures seen == old(seen) && joined == old(joined)
      ensures log == old(log) + [Emission(ReceiveMessage(message, Lookup(users, id), id, time), connected)]
      ensures forall s ::
        Received(log, s) == Received(old(log), s) + if s in connected then [ReceiveMessage(message, Lookup(users, id), id, time)] else []
    {
      var em := Emission(ReceiveMessage(message, Lookup(users, id), id, time), connected);
      forall s ensures Received(log + [em], s) == Received(log, s) + (if s in em.to then [em.event] else []) {
        ReceivedAppend(log, em, s);
      }
      log := log + [em];
    }

    /** `typing`: send every connected socket except the sender the sender's
        entry in `users` (`undefined` if it never joined). */
    method Typing(id: SocketId)
      requires Valid()
      requires id in connected
      modifies this
      ensures Valid()
      ensures users == old(users) && connected == old(connected)
      ensures seen == old(seen) && joined == old(joined)
      ensures log == old(log) + [Emission(UserTyping(Lookup(users, id)), connected - {id})]
      ensures Received(log, id) == Received(old(log), id)
      ensures forall s :: s != id ==>
        Received(log, s) == Received(old(log), s) + if s in connected then [UserTyping(Lookup(users, id))] else []
    {
      var em := Emission(UserTyping(Lookup(users, id)), connected - {id});
      forall s ensures Received(log + [em], s) == Received(log, s) + (if s in em.to then [em.event] else []) {
        ReceivedAppend(log, em, s);
      }
      log := log + [em];
    }

    /** `disconnect`: Socket.IO has already taken the socket out of the
        connected set. If its stored name is truthy, its entry is deleted and
        every remaining socket is sent the name and the roster without it;
        otherwise nothing changes and nothing is emitted. */
    method Disconnect(id: SocketId)
      requires Valid()
      requires id in connected
      modifies this
      ensures Valid()
      ensures connected == old(connected) - {id}
      ensures seen == old(seen) && joined == old(joined)
      ensures Truthy(Lookup(old(users), id)) ==>
        && users == Delete(old(users), id)
        && log == old(log) + [Emission(UserLeft(Lookup(old(users), id), Values(users)), connected)]
      ensures !Truthy(Lookup(old(users), id)) ==> users == old(users) && log == old(log)
      ensures forall e :: e in old(users) && e.id !in old(connected) ==> e in users
      ensures Received(log, id) == Received(old(log), id)
      ensures forall s ::
        Received(log, s) == Received(old(log), s) +
          if Truthy(Lookup(old(users), id)) && s in connected then [UserLeft(Lookup(old(users), id), Values(users))] else []
    {
      connected := connected - {id};
      var username := Lookup(users, id);
      if Truthy(username) {
        DeleteDistinct(users, id);
        DeleteEntries(users, id);
        users := Delete(users, id);
        var em := Emission(UserLeft(username, Values(users)), connected);
        forall s ensures Received(log + [em], s) == Received(log, s) + (if s in em.to then [em.event] else []) {
          ReceivedAppend(log, em, s);
        }
        log := log + [em];
      } else {
        forall e | e in users && e.id == id ensures !Truthy(e.name) {
          var i :| 0 <= i < |users| && users[i] == e;
          LookupAt(users, i);
        }
      }
    }
  }
}
