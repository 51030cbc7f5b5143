/** Scenarios of the `Server` model, each proving exactly what every socket
    is sent. */
module RelayScenarios {
  import opened JsValues
  import opened UsersTable
  import opened Relay

  /** A server on which socket A joined as "alice", then socket B as "bob". */
  method AliceThenBob() returns (srv: Server)
    ensures fresh(srv) && srv.Valid()
    ensures srv.connected == {"A", "B"}
    ensures srv.users == [Entry("A", Str("alice")), Entry("B", Str("bob"))]
    ensures Received(srv.log, "A") ==
      [UserJoined(Str("alice"), [Str("alice")]), UserJoined(Str("bob"), [Str("alice"), Str("bob")])]
    ensures Received(srv.log, "B") == [UserJoined(Str("bob"), [Str("alice"), Str("bob")])]
  {
    srv := new Server();
    srv.Connect("A");
    srv.UserJoin("A", Str("alice"));
    assert srv.users == [Entry("A", Str("alice"))];
    assert Values(srv.users) == [Str("alice")];
    srv.Connect("B");
    srv.UserJoin("B", Str("bob"));
    assert srv.users == [Entry("A", Str("alice")), Entry("B", Str("bob"))];
    assert Values(srv.users) == [Str("alice"), Str("bob")];
  }

  /** Alice joins, Bob joins, Alice says "hi", Bob leaves. Both are sent both
      joins (Alice the first one too) and the message, Alice included; only
      Alice is sent Bob's departure, with a roster of Alice alone. */
  method JoinTalkLeave(time: string) returns (toAlice: seq<Event>, toBob: seq<Event>)
    ensures toAlice == [
      UserJoined(Str("alice"), [Str("alice")]),
      UserJoined(Str("bob"), [Str("alice"), Str("bob")]),
      ReceiveMessage(Str("hi"), Str("alice"), "A", time),
      UserLeft(Str("bob"), [Str("alice")])]
    ensures toBob == [
      UserJoined(Str("bob"), [Str("alice"), Str("bob")]),
      ReceiveMessage(Str("hi"), Str("alice"), "A", time)]
  {
    var srv := AliceThenBob();
    assert Lookup(srv.users, "A") == Str("alice") && Lookup(srv.users, "B") == Str("bob");
    srv.SendMessage("A", Str("hi"), time);
    srv.Disconnect("B");
    assert srv.users == [Entry("A", Str("alice"))];
    assert Values(srv.users) == [Str("alice")];
    toAlice := Received(srv.log, "A");
    toBob := Received(srv.log, "B");
  }

  /** A socket that never joined is not refused: its message and its typing
      signal are relayed with `undefined` in place of a name. */
  method UnjoinedSender(time: string) returns (toAlice: seq<Event>, toStranger: seq<Event>)
    ensures toAlice == [
      UserJoined(Str("alice"), [Str("alice")]),
      ReceiveMessage(Str(""), Undefined, "B", time),
      UserTyping(Undefined)]
    ensures toStranger == [ReceiveMessage(Str(""), Undefined, "B", time)]
  {
    var srv := new Server();
    srv.Connect("A");
    srv.UserJoin("A", Str("alice"));
    assert srv.users == [Entry("A", Str("alice"))];
    assert Values(srv.users) == [Str("alice")];
    srv.Connect("B");
    srv.SendMessage("B", Str(""), time);
    srv.Typing("B");
    toAlice := Received(srv.log, "A");
    toStranger := Received(srv.log, "B");
  }

  /** A server on which socket A joined as "" and then disconnected. */
  method EmptyNameJoinedAndLeft() returns (srv: Server)
    ensures fresh(srv) && srv.Valid()
    ensures srv.connected == {} && srv.seen == {"A"}
    ensures srv.users == [Entry("A", Str(""))]
    ensures srv.log == [Emission(UserJoined(Str(""), [Str("")]), {"A"})]
  {
    srv := new Server();
    srv.Connect("A");
    assert srv.connected == {"A"};
    srv.UserJoin("A", Str(""));
    assert srv.users == [Entry("A", Str(""))];
    assert Values(srv.users) == [Str("")];
    assert Lookup(srv.users, "A") == Str("");
    srv.Disconnect("A");
  }

  /** A socket that joined with the empty string is never removed: its
      disconnect emits nothing and its entry heads every later roster. */
  method EmptyNameOutlivesSocket() returns (log: seq<Emission>, roster: seq<Value>)
    ensures log == [
      Emission(UserJoined(Str(""), [Str("")]), {"A"}),
      Emission(UserJoined(Str("bob"), [Str(""), Str("bob")]), {"B"})]
    ensures roster == [Str(""), Str("bob")]
  {
    var srv := EmptyNameJoinedAndLeft();
    srv.Connect("B");
    assert srv.connected == {"B"};
    assert "B" !in Keys(srv.users);
    var before := srv.log;
    srv.UserJoin("B", Str("bob"));
    assert srv.users == [Entry("A", Str("")), Entry("B", Str("bob"))];
    assert Values(srv.users) == [Str(""), Str("bob")];
    assert srv.log == before + [Emission(UserJoined(Str("bob"), [Str(""), Str("bob")]), {"B"})];
    log := srv.log;
    roster := Values(srv.users);
  }

  /** A second `user_join` from the same socket renames it where it stands in
      the roster instead of adding it again. */
  method RejoinRenamesInPlace() returns (roster: seq<Value>)
    ensures roster == [Str("ally"), Str("bob")]
  {
    var srv := AliceThenBob();
    srv.UserJoin("A", Str("ally"));
    roster := Values(srv.users);
  }
}
