/** Concrete runs of the room server, each stating what the handlers of
    server.js produce for one short sequence of events. */
module Scenarios {
  import opened Wire
  import opened OrderedSet
  import opened Rooms

  /** Alice sets her name and creates "jam": the room is empty and she is
      its recorded host. */
  method AliceCreatesJam() returns (server: RoomServer, alice: Connection)
    ensures fresh(server) && fresh(alice)
    ensures server.Valid() && alice.Valid()
    ensures alice.id == "a" && alice.username == Some("alice")
    ensures "jam" in server.rooms && server.rooms["jam"] == []
    ensures server.HostOf("jam") == Some("alice") && server.userPings == map[]
  {
    server := new RoomServer();
    alice := new Connection("a");
    server.SetUsername(alice, "alice");
    server.CreateRoom(alice, "jam");
  }

  /** Alice then joins "jam": the snapshot shows her alone, as host, with
      latency 0, and `you_are_host` goes to her connection only. */
  method CreatorBecomesHost() returns (snapshot: seq<Entry>, lastNotice: Message)
    ensures snapshot == [Entry(Some("alice"), 0, None, Some(true))]
    ensures lastNotice == Message(ToConnection("a"), YouAreHost)
  {
    var server, alice := AliceCreatesJam();
    ghost var log0 := server.log;
    SoleMemberSnapshot(Some("alice"), map[], WithHost(Some("alice")));
    server.JoinRoom(alice, "jam");
    assert server.log == log0 + [Message(ToRoom("jam"), UserJoined(Some("alice"))),
                                 Message(ToRoom("jam"), UsersUpdate([Entry(Some("alice"), 0, None, Some(true))])),
                                 Message(ToConnection("a"), YouAreHost)];
    var n := |server.log|;
    snapshot := server.log[n - 2].event.entries;
    lastNotice := server.log[n - 1];
  }

  /** The snapshot of a room with a single member. */
  lemma SoleMemberSnapshot(u: User, pings: map<string, int>, shape: Shape)
    ensures Snapshot([u], pings, shape) == [Row(u, pings, shape)]
  {
  }

  /** Two tabs with the same username join "jam"; the set holds the name
      once, so when the second tab leaves, the room is deleted while the
      first tab's `roomName` still names it. */
  method SameNameTabs() returns (server: RoomServer, tab1: Connection)
    ensures fresh(server) && server.Valid()
    ensures Truthy(tab1.username) && tab1.roomName == Some("jam")
    ensures "jam" !in server.rooms && server.userPings == map[]
  {
    assert Add([], Some("alice")) == [Some("alice")];
    assert Remove([Some("alice")], Some("alice")) == [];
    server, tab1 := AliceCreatesJam();
    server.JoinRoom(tab1, "jam");
    var tab2 := new Connection("t2");
    server.SetUsername(tab2, "alice");
    server.JoinRoom(tab2, "jam");
    server.LeaveRoom(tab2, "jam");
  }

  /** In that state the first tab's next latency report looks up the deleted
      room and throws. */
  method SameNameTabsCrashLatency() returns (crashed: bool)
    ensures crashed
  {
    var server, tab1 := SameNameTabs();
    crashed := server.Latency(tab1, 42);
  }

  /** With the checked handler the same report is dropped and no ping is
      stored. */
  method SameNameTabsCheckedLatency() returns (pingStored: bool)
    ensures !pingStored
  {
    var server, tab1 := SameNameTabs();
    server.LatencyChecked(tab1, 42);
    pingStored := tab1.username.value in server.userPings;
  }

  /** Alice creates "jam", joins it, and Bob joins after her. */
  method AliceHostsBob() returns (server: RoomServer, alice: Connection, bob: Connection)
    ensures fresh(server) && fresh(alice) && fresh(bob) && alice != bob
    ensures server.Valid() && alice.Valid() && bob.Valid()
    ensures alice.id == "a" && alice.username == Some("alice")
    ensures bob.id == "b" && bob.username == Some("bob")
    ensures "jam" in server.rooms && server.rooms["jam"] == [Some("alice"), Some("bob")]
    ensures server.HostOf("jam") == Some("alice") && server.userPings == map[]
  {
    assert Add([], Some("alice")) == [Some("alice")];
    assert Add([Some("alice")], Some("bob")) == [Some("alice"), Some("bob")];
    server, alice := AliceCreatesJam();
    server.JoinRoom(alice, "jam");
    bob := new Connection("b");
    server.SetUsername(bob, "bob");
    server.JoinRoom(bob, "jam");
  }

  /** Alice (host) and Bob are in "jam" and Alice disconnects: Bob stays the
      only member, and the recorded host is still "alice". */
  method AliceDisconnects() returns (server: RoomServer, bob: Connection)
    ensures fresh(server) && fresh(bob) && server.Valid() && bob.Valid()
    ensures bob.id == "b" && bob.username == Some("bob")
    ensures "jam" in server.rooms && server.rooms["jam"] == [Some("bob")]
    ensures server.HostOf("jam") == Some("alice")
  {
    var alice;
    server, alice, bob := AliceHostsBob();
    assert Remove([Some("alice"), Some("bob")], Some("alice")) == [Some("bob")];
    server.Disconnect(alice);
  }

  /** After that disconnect no host is elected: Bob is the only member, the
      recorded host is still "alice", and Bob's `broadcast_audio` under his
      own name is ignored. */
  method HostDisconnectKeepsDepartedHost() returns (members: seq<User>, host: User, audioSent: bool)
    ensures members == [Some("bob")]
    ensures host == Some("alice")
    ensures !audioSent
  {
    var server, bob := AliceDisconnects();
    members := server.rooms["jam"];
    host := server.HostOf("jam");
    var before := |server.log|;
    server.BroadcastAudio(bob, "play", "jam");
    audioSent := |server.log| != before;
  }

  /** The host check compares names only, so once Bob renames himself
      "alice" his `broadcast_audio` reaches the room. */
  method DepartedHostNameStillBroadcasts() returns (command: Message)
    ensures command == Message(ToRoom("jam"), AudioCommand("play"))
  {
    var server, bob := AliceDisconnects();
    server.SetUsername(bob, "alice");
    ghost var log0 := server.log;
    server.BroadcastAudio(bob, "play", "jam");
    assert server.log == log0 + [Message(ToRoom("jam"), AudioCommand("play"))];
    command := server.log[|server.log| - 1];
  }

  /** Alice (host) and Bob are in "jam" and Alice leaves: Bob is elected,
      `new_host("bob")` goes to the room, and the snapshot marks Bob alone
      as host. */
  method HostLeaveElectsNext() returns (announcement: Message, snapshot: seq<Entry>)
    ensures announcement == Message(ToRoom("jam"), NewHost(Some("bob")))
    ensures snapshot == [Entry(Some("bob"), 0, None, Some(true))]
  {
    var server, alice, bob := AliceHostsBob();
    assert Remove([Some("alice"), Some("bob")], Some("alice")) == [Some("bob")];
    SoleMemberSnapshot(Some("bob"), map[], WithHost(Some("bob")));
    ghost var log0 := server.log;
    server.LeaveRoom(alice, "jam");
    assert server.log == log0 + [Message(ToRoom("jam"), NewHost(Some("bob"))),
                                 Message(ToRoom("jam"), UsersUpdate([Entry(Some("bob"), 0, None, Some(true))]))];
    var n := |server.log|;
    announcement := server.log[n - 2];
    snapshot := server.log[n - 1].event.entries;
  }
}
