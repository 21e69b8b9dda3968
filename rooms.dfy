/** The room coordination state of server.js: the five module-level tables
    `rooms`, `userPings`, `userVoiceLevels`, `roomHosts` and `roomFiles`, the
    per-connection fields `username`, `roomName` and the ping timer, and one
    method per socket.io handler. Every emission is appended to `log`. */
module Rooms {
  import opened Wire
  import opened OrderedSet

  // ---------------------------------------------------------------------
  // Presence snapshots

  /** `userPings.get(u) || 0`: the last reported latency, 0 when none. */
  function PingOf(pings: map<string, int>, u: User): int
  {
    if u.Some? && u.value in pings then pings[u.value] else 0
  }

  /** `userVoiceLevels.get(u) || 0`. */
  function VoiceOf(levels: map<string, real>, u: User): real
  {
    if u.Some? && u.value in levels then levels[u.value] else 0.0
  }

  /** The three shapes of `users_update`: `{username, latency}` (latency
      report, disconnect), with `isHost` (join, leave) and with `voiceLevel`
      (voice report). */
  datatype Shape = Plain | WithHost(host: User) | WithVoice(levels: map<string, real>)

  /** The row a snapshot of the given shape shows for member `u`. */
  function Row(u: User, pings: map<string, int>, shape: Shape): Entry
  {
    Entry(u, PingOf(pings, u),
          if shape.WithVoice? then Some(VoiceOf(shape.levels, u)) else None,
          if shape.WithHost? then Some(u == shape.host) else None)
  }

  /** `Array.from(members).map(...)`: one row per member, in member order. */
  function Snapshot(members: seq<User>, pings: map<string, int>, shape: Shape): (r: seq<Entry>)
    ensures |r| == |members|
    ensures forall i :: 0 <= i < |r| ==> r[i].username == members[i]
    ensures forall i :: 0 <= i < |r| ==> r[i].latency == PingOf(pings, members[i])
    ensures forall i :: 0 <= i < |r| ==>
      r[i].isHost == if shape.WithHost? then Some(members[i] == shape.host) else None
    ensures forall i :: 0 <= i < |r| ==>
      r[i].voiceLevel == if shape.WithVoice? then Some(VoiceOf(shape.levels, members[i])) else None
  {
    seq(|members|, i requires 0 <= i < |members| => Row(members[i], pings, shape))
  }

  /** In a snapshot with host flags, the flag is set for the recorded host
      and only for it: exactly one row when the host is a member, none when
      it is not. */
  lemma HostFlagUnique(members: seq<User>, pings: map<string, int>, host: User)
    requires Distinct(members)
    ensures var r := Snapshot(members, pings, WithHost(host));
      (forall i :: 0 <= i < |r| ==> (r[i].isHost == Some(true) <==> r[i].username == host))
      && ((exists i :: 0 <= i < |r| && r[i].isHost == Some(true)) <==> host in members)
      && (forall i, j :: 0 <= i < |r| && 0 <= j < |r| && r[i].isHost == Some(true) && r[j].isHost == Some(true) ==> i == j)
  {
    var r := Snapshot(members, pings, WithHost(host));
    if host in members {
      var k := IndexOf(members, host);
      assert r[k].isHost == Some(true);
    }
  }

  // ---------------------------------------------------------------------
  // Host election

  /** The host after `leaver` leaves and `remaining` are left: a departing
      host hands over to the first remaining member; otherwise the host stays. */
  function HostAfterLeave(host: User, leaver: User, remaining: seq<User>): User
  {
    if host == leaver && remaining != [] then remaining[0] else host
  }

  /** Election picks a remaining member, never the leaver, and among the
      members before the leave the one that joined earliest; a non-host
      leaving keeps the host; a host that was a member stays a member. */
  lemma {:induction false} ElectionPicksEarliestMember(members: seq<User>, host: User, leaver: User)
    requires Distinct(members)
    ensures var remaining := Remove(members, leaver);
      var h := HostAfterLeave(host, leaver, remaining);
      (host != leaver ==> h == host)
      && (host == leaver && remaining != [] ==>
            h in members && h in remaining && h != leaver
            && forall k :: 0 <= k < |members| && members[k] != leaver ==> IndexOf(members, h) <= k)
      && ((host in members || host == leaver) && remaining != [] ==> h in remaining)
  {
    var remaining := Remove(members, leaver);
    if remaining != [] {
      FirstAfterRemove(members, leaver);
      assert remaining[0] in remaining;
      if host in members && host != leaver {
        RemoveCounts(members, leaver);
        assert multiset(remaining)[host] == multiset(members)[host] > 0;
      }
    }
  }

  // ---------------------------------------------------------------------
  // Table invariant

  /** The invariant of the room tables: `order` lists each room once, each
      member set is a set, and every room has a host entry. */
  ghost predicate Consistent(order: seq<string>, rooms: map<string, seq<User>>, hosts: map<string, User>)
  {
    && Distinct(order)
    && (forall r :: r in rooms <==> r in order)
    && (forall r :: r in rooms ==> Distinct(rooms[r]))
    && (forall r :: r in rooms ==> r in hosts)
  }

  // ---------------------------------------------------------------------
  // Disconnect, as functions of the state before it

  /** The room loses its last member when `u` leaves it. */
  predicate Empties(rooms: map<string, seq<User>>, u: User, r: string)
  {
    r in rooms && u in rooms[r] && Remove(rooms[r], u) == []
  }

  /** The member table after `u` is deleted from every room and each room it
      empties is dropped. */
  function AfterDisconnect(rooms: map<string, seq<User>>, u: User): map<string, seq<User>>
  {
    map r | r in rooms && !Empties(rooms, u, r) :: if u in rooms[r] then Remove(rooms[r], u) else rooms[r]
  }

  /** After a disconnect `u` is in no room, no room is new, and a room `u`
      was not in is untouched. */
  lemma DisconnectRemovesUser(rooms: map<string, seq<User>>, u: User)
    ensures var a := AfterDisconnect(rooms, u);
      && (forall r :: r in a ==> r in rooms && u !in a[r])
      && (forall r :: r in rooms && u !in rooms[r] ==> r in a && a[r] == rooms[r])
  {
  }

  /** A disconnect keeps the tables consistent: the surviving room order
      lists each surviving room once, and every surviving member set is a
      set with a host entry. */
  lemma {:induction false} DisconnectConsistent(order: seq<string>, rooms: map<string, seq<User>>,
                                                hosts: map<string, User>, u: User)
    requires Consistent(order, rooms, hosts)
    ensures Consistent(Survivors(order, rooms, u), AfterDisconnect(rooms, u), hosts)
  {
    SurvivorsMembers(order, rooms, u);
    var a := AfterDisconnect(rooms, u);
    forall r | r in a
      ensures Distinct(a[r])
    {
      RemoveDistinct(rooms[r], u);
    }
  }

  /** A room disappears on disconnect exactly when `u` was its only member;
      every other room keeps all its members but `u`. */
  lemma DisconnectDropsExactlySoleRooms(rooms: map<string, seq<User>>, u: User, r: string)
    requires r in rooms && Distinct(rooms[r])
    ensures r !in AfterDisconnect(rooms, u) <==> rooms[r] == [u]
    ensures r in AfterDisconnect(rooms, u) ==>
      multiset(AfterDisconnect(rooms, u)[r]) == multiset(rooms[r])[u := 0]
  {
    var s := rooms[r];
    RemoveCounts(s, u);
    if u in s {
      RemoveDistinct(s, u);
      if Remove(s, u) == [] {
        assert |s| == 1;
        assert s == [s[0]];
      }
    } else {
      RemoveAbsent(s, u);
    }
  }

  /** The member table once the disconnect loop has visited the rooms in
      `done`. */
  ghost function Processed(rooms: map<string, seq<User>>, u: User, done: seq<string>): map<string, seq<User>>
  {
    map r | r in rooms && !(r in done && Empties(rooms, u, r)) ::
      if r in done && u in rooms[r] then Remove(rooms[r], u) else rooms[r]
  }

  /** Visiting one more room changes only that room's entry. */
  lemma ProcessedStep(rooms: map<string, seq<User>>, u: User, done: seq<string>, r: string)
    requires r in rooms && r !in done
    ensures Processed(rooms, u, done + [r]) ==
      if u !in rooms[r] then Processed(rooms, u, done)
      else if Empties(rooms, u, r) then Processed(rooms, u, done) - {r}
      else Processed(rooms, u, done)[r := Remove(rooms[r], u)]
  {
    var before, after := Processed(rooms, u, done), Processed(rooms, u, done + [r]);
    assert forall k :: k in done + [r] <==> k in done || k == r;
    if u !in rooms[r] {
      assert after == before;
    } else if Empties(rooms, u, r) {
      assert after == before - {r};
    } else {
      assert after == before[r := Remove(rooms[r], u)];
    }
  }

  /** Once every room has been visited, the loop has computed AfterDisconnect. */
  lemma ProcessedAll(rooms: map<string, seq<User>>, u: User, order: seq<string>)
    requires forall r :: r in rooms <==> r in order
    ensures Processed(rooms, u, order) == AfterDisconnect(rooms, u)
  {
  }

  /** Room `r` as the disconnect's room list keeps it: gone if `u` empties it. */
  function Kept(rooms: map<string, seq<User>>, u: User, r: string): seq<string>
  {
    if Empties(rooms, u, r) then [] else [r]
  }

  /** The notice the disconnect sends to room `r`: a plain snapshot of the
      other members when `u` was one of several, none otherwise. */
  function Notice(rooms: map<string, seq<User>>, u: User, pings: map<string, int>, r: string): seq<Message>
  {
    if r in rooms && u in rooms[r] && !Empties(rooms, u, r)
    then [Message(ToRoom(r), UsersUpdate(Snapshot(Remove(rooms[r], u), pings, Plain)))]
    else []
  }

  /** The rooms of `order` that the disconnect keeps, in the same order. */
  function Survivors(order: seq<string>, rooms: map<string, seq<User>>, u: User): seq<string>
  {
    if order == [] then []
    else Survivors(order[..|order| - 1], rooms, u) + Kept(rooms, u, order[|order| - 1])
  }

  /** Visiting one more room keeps it unless `u` was its only member. */
  lemma SurvivorsStep(done: seq<string>, rooms: map<string, seq<User>>, u: User, r: string)
    ensures Survivors(done + [r], rooms, u) == Survivors(done, rooms, u) + Kept(rooms, u, r)
  {
    assert (done + [r])[..|done|] == done;
  }

  /** The disconnect keeps exactly the rooms of `order` that `u` does not
      empty, and keeps a list of distinct rooms distinct. */
  lemma {:induction false} SurvivorsMembers(order: seq<string>, rooms: map<string, seq<User>>, u: User)
    ensures forall x :: x in Survivors(order, rooms, u) <==> x in order && !Empties(rooms, u, x)
    ensures Distinct(order) ==> Distinct(Survivors(order, rooms, u))
  {
    if order != [] {
      var last := order[|order| - 1];
      var init := order[..|order| - 1];
      assert order == init + [last];
      SurvivorsMembers(init, rooms, u);
      assert Distinct(order) ==> Distinct(init) && last !in init;
    }
  }

  /** The `users_update` notices a disconnect sends, one per room of `order`
      that held `u` and still has members, in room order. */
  function DisconnectNotices(order: seq<string>, rooms: map<string, seq<User>>, u: User,
                             pings: map<string, int>): seq<Message>
  {
    if order == [] then []
    else DisconnectNotices(order[..|order| - 1], rooms, u, pings) + Notice(rooms, u, pings, order[|order| - 1])
  }

  /** Visiting one more room adds its notice, if it gets one. */
  lemma NoticesStep(done: seq<string>, rooms: map<string, seq<User>>, u: User, pings: map<string, int>, r: string)
    ensures DisconnectNotices(done + [r], rooms, u, pings) == DisconnectNotices(done, rooms, u, pings) + Notice(rooms, u, pings, r)
  {
    assert (done + [r])[..|done|] == done;
  }

  /** Every disconnect notice is a plain snapshot, sent to a room of `order`
      that held `u` and keeps other members, listing exactly those others. */
  lemma {:induction false} NoticesAreForRemainingRooms(order: seq<string>, rooms: map<string, seq<User>>, u: User,
                                                       pings: map<string, int>)
    ensures var ms := DisconnectNotices(order, rooms, u, pings);
      forall k :: 0 <= k < |ms| ==>
        && ms[k].to.ToRoom? && ms[k].event.UsersUpdate?
        && var r := ms[k].to.room;
           r in order && r in rooms && u in rooms[r] && !Empties(rooms, u, r)
           && ms[k].event.entries == Snapshot(Remove(rooms[r], u), pings, Plain)
  {
    if order != [] {
      var init, last := order[..|order| - 1], order[|order| - 1];
      assert order == init + [last];
      NoticesAreForRemainingRooms(init, rooms, u, pings);
      NoticesStep(init, rooms, u, pings, last);
    }
  }

  /** Conversely, every room of `order` that held `u` and keeps other members
      gets a notice, and when `order` lists each room once no room gets two. */
  lemma {:induction false} EveryRemainingRoomNotified(order: seq<string>, rooms: map<string, seq<User>>, u: User,
                                                      pings: map<string, int>)
    ensures var ms := DisconnectNotices(order, rooms, u, pings);
      forall r :: r in order && r in rooms && u in rooms[r] && !Empties(rooms, u, r) ==>
        exists k :: 0 <= k < |ms| && ms[k].to == ToRoom(r)
    ensures var ms := DisconnectNotices(order, rooms, u, pings);
      Distinct(order) ==> forall k, l :: 0 <= k < l < |ms| ==> ms[k].to != ms[l].to
  {
    if order != [] {
      var init, last := order[..|order| - 1], order[|order| - 1];
      assert order == init + [last];
      EveryRemainingRoomNotified(init, rooms, u, pings);
      NoticesAreForRemainingRooms(init, rooms, u, pings);
      NoticesStep(init, rooms, u, pings, last);
      var before, ms := DisconnectNotices(init, rooms, u, pings), DisconnectNotices(order, rooms, u, pings);
      assert ms == before + Notice(rooms, u, pings, last);
      forall r | r in order && r in rooms && u in rooms[r] && !Empties(rooms, u, r)
        ensures exists k :: 0 <= k < |ms| && ms[k].to == ToRoom(r)
      {
        if r in init {
          var k :| 0 <= k < |before| && before[k].to == ToRoom(r);
          assert ms[k] == before[k];
        } else {
          assert r == last;
          assert ms[|before|].to == ToRoom(r);
        }
      }
      if Distinct(order) {
        assert Distinct(init) && last !in init;
        forall k, l | 0 <= k < l < |ms|
          ensures ms[k].to != ms[l].to
        {
          assert ms[k] == before[k];
          if l >= |before| {
            assert l == |before| && ms[l].to == ToRoom(last);
            assert before[k].to.room in init;
          } else {
            assert ms[l] == before[l];
          }
        }
      }
    }
  }

  /** One visit of the disconnect loop, on the functions that describe the
      loop's progress: room `order[i]` changes only its own table entry,
      keeps its place in the order unless it is emptied, and adds at most its
      own notice. */
  lemma DisconnectStep(rooms: map<string, seq<User>>, u: User, pings: map<string, int>,
                       order: seq<string>, i: nat)
    requires i < |order| && Distinct(order) && order[i] in rooms
    ensures var r, done, rest := order[i], order[..i], order[i + 1..];
      && r !in done && r !in rest
      && order[i..] == [r] + rest
      && r !in Survivors(done, rooms, u)
      && r in Processed(rooms, u, done) && Processed(rooms, u, done)[r] == rooms[r]
      && Survivors(order[..i + 1], rooms, u) == Survivors(done, rooms, u) + Kept(rooms, u, r)
      && DisconnectNotices(order[..i + 1], rooms, u, pings) == DisconnectNotices(done, rooms, u, pings) + Notice(rooms, u, pings, r)
      && Processed(rooms, u, order[..i + 1]) ==
           if u !in rooms[r] then Processed(rooms, u, done)
           else if Empties(rooms, u, r) then Processed(rooms, u, done) - {r}
           else Processed(rooms, u, done)[r := Remove(rooms[r], u)]
  {
    var r, done := order[i], order[..i];
    SplitAt(order, i);
    SurvivorsMembers(done, rooms, u);
    SurvivorsStep(done, rooms, u, r);
    NoticesStep(done, rooms, u, pings, r);
    ProcessedStep(rooms, u, done, r);
  }

  /** Deleting a key forgets what was last stored under it. */
  lemma UpdateThenDelete<K, V>(m: map<K, V>, k: K, v: V)
    ensures m[k := v] - {k} == m - {k}
  {
  }

  // ---------------------------------------------------------------------
  // State

  /** One socket.io connection: its id and the fields the handlers assign.
      `hasInterval` says whether the handler-local `pingInterval` holds a
      timer; `runningTimers` counts ping intervals started and not cleared. */
  class Connection {
    const id: string
    var username: User
    var roomName: Option<string>
    var hasInterval: bool
    var runningTimers: nat

    ghost predicate Valid()
      reads this
    {
      hasInterval ==> runningTimers >= 1
    }

    /** `clearInterval(pingInterval)` when a timer is held. */
    method StopPing()
      requires Valid()
      modifies this`hasInterval, this`runningTimers
      ensures Valid() && !hasInterval
      ensures runningTimers == if old(hasInterval) then old(runningTimers) - 1 else old(runningTimers)
    {
      if hasInterval {
        runningTimers := runningTimers - 1;
        hasInterval := false;
      }
    }

    constructor (id: string)
      ensures Valid()
      ensures this.id == id && username == None && roomName == None
      ensures !hasInterval && runningTimers == 0
    {
      this.id := id;
      username := None;
      roomName := None;
      hasInterval := false;
      runningTimers := 0;
    }
  }

  class RoomServer {
    /** The key order of `rooms` (a JavaScript Map iterates in insertion order). */
    var roomOrder: seq<string>
    /** `rooms`: each room's member set, in insertion order. */
    var rooms: map<string, seq<User>>
    var userPings: map<string, int>
    var userVoiceLevels: map<string, real>
    var roomHosts: map<string, User>
    var roomFiles: map<string, string>
    /** Every emission so far, in order. */
    var log: seq<Message>

    /** The tables' invariant: `roomOrder` lists each room once, each member
        set is a set, and every room has a `roomHosts` entry. */
    ghost predicate Valid()
      reads this`roomOrder, this`rooms, this`roomHosts
    {
      Consistent(roomOrder, rooms, roomHosts)
    }

    constructor ()
      ensures Valid()
      ensures roomOrder == [] && rooms == map[] && userPings == map[] && userVoiceLevels == map[]
      ensures roomHosts == map[] && roomFiles == map[] && log == []
    {
      roomOrder, rooms, userPings, userVoiceLevels := [], map[], map[], map[];
      roomHosts, roomFiles, log := map[], map[], [];
    }

    /** `roomHosts.get(room)`: undefined for a room without an entry. */
    function HostOf(room: string): User
      reads this`roomHosts
    {
      if room in roomHosts then roomHosts[room] else None
    }

    /** `Array.from(rooms.keys())`: the rooms in creation order, each
        exactly once. */
    function RoomNames(): (names: seq<string>)
      reads this`roomOrder, this`rooms, this`roomHosts
      requires Valid()
      ensures Distinct(names)
      ensures forall r :: r in names <==> r in rooms
    {
      roomOrder
    }

    /** `ping`: answer `pong` to the sender. */
    method Ping(c: Connection)
      modifies this`log
      ensures log == old(log) + [Message(ToConnection(c.id), Pong)]
    {
      log := log + [Message(ToConnection(c.id), Pong)];
    }

    /** `set_username`: any string is accepted, duplicates included. */
    method SetUsername(c: Connection, name: string)
      requires Valid()
      modifies this`log, c`username
      ensures Valid()
      ensures c.username == Some(name)
      ensures log == old(log) + [Message(ToConnection(c.id), UsernameSet), Message(ToEveryone, RoomsList(RoomNames()))]
    {
      c.username := Some(name);
      log := log + [Message(ToConnection(c.id), UsernameSet), Message(ToEveryone, RoomsList(RoomNames()))];
    }

    /** `create_room`: an existing name changes nothing; a new name gets an
        empty member set, the creator's username as host, and goes last in
        the room list, which is broadcast to everyone. */
    method CreateRoom(c: Connection, name: string)
      requires Valid()
      modifies this
      ensures Valid()
      ensures old(name in rooms) ==> roomOrder == old(roomOrder) && rooms == old(rooms)
                                     && roomHosts == old(roomHosts) && log == old(log)
      ensures old(name !in rooms) ==>
        && rooms == old(rooms)[name := []]
        && roomOrder == old(roomOrder) + [name]
        && roomHosts == old(roomHosts)[name := c.username]
        && log == old(log) + [Message(ToEveryone, RoomsList(RoomNames()))]
      ensures userPings == old(userPings) && userVoiceLevels == old(userVoiceLevels)
      ensures roomFiles == old(roomFiles)
    {
      if name !in rooms {
        rooms := rooms[name := []];
        roomOrder := roomOrder + [name];
        roomHosts := roomHosts[name := c.username];
        log := log + [Message(ToEveryone, RoomsList(RoomNames()))];
      }
    }

    /** `join_room`: an unknown room is ignored. Otherwise the username is
        added with set semantics, the connection's room is set, the host is
        left as it is, `user_joined` and a snapshot with host flags go to the
        room, `you_are_host` goes to the joiner exactly when it is the
        recorded host, and a new ping timer starts (without clearing one the
        connection may already have). */
    method JoinRoom(c: Connection, name: string)
      requires Valid() && c.Valid()
      modifies this`rooms, this`log, c
      ensures Valid() && c.Valid()
      ensures old(name !in rooms) ==>
        rooms == old(rooms) && log == old(log) && c.roomName == old(c.roomName)
        && c.hasInterval == old(c.hasInterval) && c.runningTimers == old(c.runningTimers)
      ensures old(name in rooms) ==>
        && rooms == old(rooms)[name := Add(old(rooms)[name], c.username)]
        && c.roomName == Some(name)
        && c.hasInterval && c.runningTimers == old(c.runningTimers) + 1
        && log == old(log)
             + [Message(ToRoom(name), UserJoined(c.username)),
                Message(ToRoom(name), UsersUpdate(Snapshot(rooms[name], userPings, WithHost(HostOf(name)))))]
             + (if c.username == HostOf(name) then [Message(ToConnection(c.id), YouAreHost)] else [])
      ensures c.username == old(c.username)
    {
      if name in rooms {
        c.roomName := Some(name);
        rooms := rooms[name := Add(rooms[name], c.username)];
        var notices := [Message(ToRoom(name), UserJoined(c.username)),
                        Message(ToRoom(name), UsersUpdate(Snapshot(rooms[name], userPings, WithHost(HostOf(name)))))];
        if c.username == HostOf(name) {
          notices := notices + [Message(ToConnection(c.id), YouAreHost)];
        }
        log := log + notices;
        c.runningTimers := c.runningTimers + 1;
        c.hasInterval := true;
      }
    }

    /** `leave_room`: an unknown room is ignored. Otherwise the username is
        deleted from the room; when it was the host and members remain, the
        first remaining member becomes host and `new_host` goes to the room;
        when it was the host its file entry is dropped. A room left empty is
        deleted with its host entry and the room list goes to everyone;
        otherwise a snapshot with host flags goes to the room. The leaver's
        ping entry is deleted and the connection's room and timer cleared. */
    method LeaveRoom(c: Connection, name: string)
      requires Valid() && c.Valid()
      modifies this, c`roomName, c`hasInterval, c`runningTimers
      ensures Valid() && c.Valid()
      ensures userVoiceLevels == old(userVoiceLevels)
      ensures old(name !in rooms) ==>
        && roomOrder == old(roomOrder) && rooms == old(rooms) && userPings == old(userPings)
        && roomHosts == old(roomHosts) && roomFiles == old(roomFiles) && log == old(log)
        && c.roomName == old(c.roomName) && c.hasInterval == old(c.hasInterval)
        && c.runningTimers == old(c.runningTimers)
      ensures old(name in rooms) ==>
        var u := c.username;
        var remaining := Remove(old(rooms)[name], u);
        var wasHost := old(HostOf(name)) == u;
        var host := HostAfterLeave(old(HostOf(name)), u, remaining);
        && (remaining == [] ==>
              && rooms == old(rooms) - {name}
              && roomOrder == Remove(old(roomOrder), name)
              && roomHosts == old(roomHosts) - {name})
        && (remaining != [] ==>
              && rooms == old(rooms)[name := remaining]
              && roomOrder == old(roomOrder)
              && roomHosts == old(roomHosts)[name := host])
        && roomFiles == (if wasHost && name in old(roomFiles) && old(roomFiles)[name] != ""
                         then old(roomFiles) - {name} else old(roomFiles))
        && userPings == (if u.Some? then old(userPings) - {u.value} else old(userPings))
        && log == old(log)
             + (if wasHost && remaining != [] then [Message(ToRoom(name), NewHost(remaining[0]))] else [])
             + (if remaining == [] then [Message(ToEveryone, RoomsList(RoomNames()))]
                else [Message(ToRoom(name), UsersUpdate(Snapshot(remaining, old(userPings), WithHost(host))))])
        && c.roomName == None && !c.hasInterval
        && c.runningTimers == (if old(c.hasInterval) then old(c.runningTimers) - 1 else old(c.runningTimers))
    {
      if name in rooms {
        var u := c.username;
        var remaining := Depart(name, u);
        c.StopPing();
        if u.Some? {
          userPings := userPings - {u.value};
        }
        c.roomName := None;
      }
    }

    /** The table updates and notices of `leave_room` for user `u` leaving the
        existing room `name`. */
    method Depart(name: string, u: User) returns (remaining: seq<User>)
      requires Valid() && name in rooms
      modifies this`rooms, this`roomOrder, this`roomHosts, this`roomFiles, this`log
      ensures Valid()
      ensures remaining == Remove(old(rooms)[name], u)
      ensures remaining == [] ==>
        && rooms == old(rooms) - {name}
        && roomOrder == Remove(old(roomOrder), name)
        && roomHosts == old(roomHosts) - {name}
      ensures remaining != [] ==>
        && rooms == old(rooms)[name := remaining]
        && roomOrder == old(roomOrder)
        && roomHosts == old(roomHosts)[name := HostAfterLeave(old(HostOf(name)), u, remaining)]
      ensures roomFiles == if old(HostOf(name)) == u && name in old(roomFiles) && old(roomFiles)[name] != ""
                           then old(roomFiles) - {name} else old(roomFiles)
      ensures log == old(log)
        + (if old(HostOf(name)) == u && remaining != [] then [Message(ToRoom(name), NewHost(remaining[0]))] else [])
        + (if remaining == [] then [Message(ToEveryone, RoomsList(RoomNames()))]
           else [Message(ToRoom(name), UsersUpdate(Snapshot(remaining, userPings,
                                                            WithHost(HostAfterLeave(old(HostOf(name)), u, remaining)))))])
    {
      ghost var rooms0, hosts0 := rooms, roomHosts;
      remaining := DropMember(name, u);
      HandOverHost(name, u, remaining);
      ghost var hosts1 := roomHosts;
      CloseOrRefresh(name, remaining);
      if remaining == [] {
        UpdateThenDelete(rooms0, name, remaining);
        UpdateThenDelete(hosts0, name, hosts1[name]);
      }
    }

    /** The first step of `leave_room`: delete the username from the room's
        member set. */
    method DropMember(name: string, u: User) returns (remaining: seq<User>)
      requires Valid() && name in rooms
      modifies this`rooms
      ensures Valid()
      ensures remaining == Remove(old(rooms)[name], u)
      ensures rooms == old(rooms)[name := remaining]
    {
      RemoveDistinct(rooms[name], u);
      remaining := Remove(rooms[name], u);
      rooms := rooms[name := remaining];
    }

    /** The second step of `leave_room`: when the leaver was the host, the
        first remaining member (if any) becomes host and is announced, and the
        room's file entry is dropped. */
    method HandOverHost(name: string, u: User, remaining: seq<User>)
      requires Valid() && name in rooms
      modifies this`roomHosts, this`roomFiles, this`log
      ensures Valid()
      ensures roomHosts == old(roomHosts)[name := HostAfterLeave(old(HostOf(name)), u, remaining)]
      ensures roomFiles == if old(HostOf(name)) == u && name in old(roomFiles) && old(roomFiles)[name] != ""
                           then old(roomFiles) - {name} else old(roomFiles)
      ensures log == old(log) + if old(HostOf(name)) == u && remaining != []
                                then [Message(ToRoom(name), NewHost(remaining[0]))] else []
    {
      if HostOf(name) == u {
        if |remaining| > 0 {
          roomHosts := roomHosts[name := remaining[0]];
          log := log + [Message(ToRoom(name), NewHost(remaining[0]))];
        }
        if name in roomFiles && roomFiles[name] != "" {
          roomFiles := roomFiles - {name};
        }
      }
    }

    /** The third step of `leave_room`: a room left empty is deleted with its
        host entry and the room list goes to everyone; otherwise the room gets
        a snapshot with host flags. */
    method CloseOrRefresh(name: string, remaining: seq<User>)
      requires Valid() && name in rooms && rooms[name] == remaining
      modifies this`rooms, this`roomOrder, this`roomHosts, this`log
      ensures Valid()
      ensures remaining == [] ==>
        && rooms == old(rooms) - {name}
        && roomOrder == Remove(old(roomOrder), name)
        && roomHosts == old(roomHosts) - {name}
        && log == old(log) + [Message(ToEveryone, RoomsList(RoomNames()))]
      ensures remaining != [] ==>
        && rooms == old(rooms) && roomOrder == old(roomOrder) && roomHosts == old(roomHosts)
        && log == old(log) + [Message(ToRoom(name), UsersUpdate(Snapshot(remaining, userPings, WithHost(HostOf(name)))))]
    {
      if |remaining| == 0 {
        RemoveDistinct(roomOrder, name);
        RemoveMembers(roomOrder, name);
        rooms := rooms - {name};
        roomOrder := Remove(roomOrder, name);
        roomHosts := roomHosts - {name};
        log := log + [Message(ToEveryone, RoomsList(RoomNames()))];
      } else {
        log := log + [Message(ToRoom(name), UsersUpdate(Snapshot(remaining, userPings, WithHost(HostOf(name)))))];
      }
    }

    /** `disconnect`: clears the ping timer, deletes the user's ping and
        voice entries (when a username is set), deletes the username from
        every room, drops each room it empties, sends a plain snapshot to
        each other room it was in, and then the room list to everyone. No
        host is re-elected; `roomHosts` and `roomFiles` are left alone. */
    method Disconnect(c: Connection)
      requires Valid() && c.Valid()
      modifies this`roomOrder, this`rooms, this`userPings, this`userVoiceLevels, this`log,
               c`hasInterval, c`runningTimers
      ensures Valid() && c.Valid()
      ensures rooms == AfterDisconnect(old(rooms), c.username)
      ensures roomOrder == Survivors(old(roomOrder), old(rooms), c.username)
      ensures userPings == (if Truthy(c.username) then old(userPings) - {c.username.value} else old(userPings))
      ensures userVoiceLevels == (if Truthy(c.username) then old(userVoiceLevels) - {c.username.value}
                                  else old(userVoiceLevels))
      ensures roomHosts == old(roomHosts) && roomFiles == old(roomFiles)
      ensures log == old(log) + DisconnectNotices(old(roomOrder), old(rooms), c.username, userPings)
                              + [Message(ToEveryone, RoomsList(RoomNames()))]
      ensures !c.hasInterval
      ensures c.runningTimers == (if old(c.hasInterval) then old(c.runningTimers) - 1 else old(c.runningTimers))
    {
      c.StopPing();
      var u := c.username;
      if Truthy(u) {
        userPings := userPings - {u.value};
        userVoiceLevels := userVoiceLevels - {u.value};
      }
      DisconnectConsistent(roomOrder, rooms, roomHosts, u);
      DropEverywhere(u);
      log := log + [Message(ToEveryone, RoomsList(RoomNames()))];
    }

    /** The `rooms.forEach` loop of `disconnect`: visits the rooms in
        creation order and deletes `u` from each. */
    method DropEverywhere(u: User)
      requires Valid()
      modifies this`roomOrder, this`rooms, this`log
      ensures rooms == AfterDisconnect(old(rooms), u)
      ensures roomOrder == Survivors(old(roomOrder), old(rooms), u)
      ensures log == old(log) + DisconnectNotices(old(roomOrder), old(rooms), u, userPings)
    {
      ghost var rooms0, log0 := rooms, log;
      var order := roomOrder;
      var i := 0;
      ghost var kept, sent := [], [];
      assert order[..0] == [] && order[0..] == order;
      assert Distinct(order) && forall r :: r in rooms0 <==> r in order;
      while i < |order|
        invariant 0 <= i <= |order|
        invariant rooms == Processed(rooms0, u, order[..i])
        invariant kept == Survivors(order[..i], rooms0, u) && roomOrder == kept + order[i..]
        invariant sent == DisconnectNotices(order[..i], rooms0, u, userPings) && log == log0 + sent
      {
        kept, sent := DropFrom(order[i], u, rooms0, order, i, kept, log0, sent);
        i := i + 1;
      }
      assert order[..i] == order && order[i..] == [] && kept + [] == kept;
      ProcessedAll(rooms0, u, order);
    }

    /** One visit of the disconnect loop, at room `r == order[i]`: when `u` is
        a member it is deleted; a room left empty is dropped, and any other
        gets a plain snapshot. The loop's progress is described by Processed,
        Survivors and DisconnectNotices over the rooms visited so far. */
    method DropFrom(r: string, u: User, ghost rooms0: map<string, seq<User>>, ghost order: seq<string>, ghost i: nat,
                    ghost kept: seq<string>, ghost log0: seq<Message>, ghost sent: seq<Message>)
      returns (ghost kept': seq<string>, ghost sent': seq<Message>)
      requires i < |order| && order[i] == r && Distinct(order) && r in rooms0
      requires rooms == Processed(rooms0, u, order[..i])
      requires kept == Survivors(order[..i], rooms0, u) && roomOrder == kept + order[i..]
      requires sent == DisconnectNotices(order[..i], rooms0, u, userPings) && log == log0 + sent
      modifies this`rooms, this`roomOrder, this`log
      ensures rooms == Processed(rooms0, u, order[..i + 1])
      ensures kept' == Survivors(order[..i + 1], rooms0, u) && roomOrder == kept' + order[i + 1..]
      ensures sent' == DisconnectNotices(order[..i + 1], rooms0, u, userPings) && log == log0 + sent'
    {
      DisconnectStep(rooms0, u, userPings, order, i);
      ghost var rest := order[i + 1..];
      kept', sent' := kept + Kept(rooms0, u, r), sent + Notice(rooms0, u, userPings, r);
      var users := rooms[r];
      if u in users {
        users := Remove(users, u);
        if users == [] {
          RemoveMiddle(kept, r, rest);
          Associative(kept, [r], rest);
          assert kept + [] == kept;
          assert kept' == kept && sent' == sent;
          rooms := rooms - {r};
          roomOrder := Remove(roomOrder, r);
        } else {
          var notice := Message(ToRoom(r), UsersUpdate(Snapshot(users, userPings, Plain)));
          assert Kept(rooms0, u, r) == [r];
          Associative(kept, [r], rest);
          Associative(log0, sent, [notice]);
          rooms := rooms[r := users];
          log := log + [notice];
        }
      } else {
        assert Kept(rooms0, u, r) == [r];
        Associative(kept, [r], rest);
        assert sent' == sent;
      }
    }

    /** `latency`: ignored unless both the username and the connection's room
        are set (truthy). Then the ping is stored and a plain snapshot of that
        room goes to it -- but when the room no longer exists,
        `rooms.get(...)` is undefined and `Array.from` throws after the ping
        was stored: `crashed` reports that. */
    method Latency(c: Connection, latency: int) returns (crashed: bool)
      requires Valid()
      modifies this`userPings, this`log
      ensures Valid()
      ensures crashed <==> Truthy(c.username) && Truthy(c.roomName) && c.roomName.value !in rooms
      ensures !(Truthy(c.username) && Truthy(c.roomName)) ==> userPings == old(userPings) && log == old(log)
      ensures Truthy(c.username) && Truthy(c.roomName) ==>
        && userPings == old(userPings)[c.username.value := latency]
        && log == old(log) + (if crashed then []
                              else [Message(ToRoom(c.roomName.value),
                                            UsersUpdate(Snapshot(rooms[c.roomName.value], userPings, Plain)))])
    {
      crashed := false;
      if Truthy(c.username) && Truthy(c.roomName) {
        userPings := userPings[c.username.value := latency];
        var r := c.roomName.value;
        if r in rooms {
          log := log + [Message(ToRoom(r), UsersUpdate(Snapshot(rooms[r], userPings, Plain)))];
        } else {
          crashed := true;
        }
      }
    }

    /** `latency` with the room looked up before use: a report for a room
        that no longer exists is dropped without touching any table. */
    method LatencyChecked(c: Connection, latency: int)
      requires Valid()
      modifies this`userPings, this`log
      ensures Valid()
      ensures var accepted := Truthy(c.username) && Truthy(c.roomName) && c.roomName.value in rooms;
        && (!accepted ==> userPings == old(userPings) && log == old(log))
        && (accepted ==>
              && userPings == old(userPings)[c.username.value := latency]
              && log == old(log) + [Message(ToRoom(c.roomName.value),
                                            UsersUpdate(Snapshot(rooms[c.roomName.value], userPings, Plain)))])
    {
      if Truthy(c.username) && Truthy(c.roomName) && c.roomName.value in rooms {
        var r := c.roomName.value;
        userPings := userPings[c.username.value := latency];
        log := log + [Message(ToRoom(r), UsersUpdate(Snapshot(rooms[r], userPings, Plain)))];
      }
    }

    /** `voice_level({level, room})`: ignored unless a username is set and the
        named room exists; then the level is stored and a snapshot with voice
        levels goes to the room. */
    method VoiceLevel(c: Connection, level: real, room: string)
      requires Valid()
      modifies this`userVoiceLevels, this`log
      ensures Valid()
      ensures !(Truthy(c.username) && room in rooms) ==>
        userVoiceLevels == old(userVoiceLevels) && log == old(log)
      ensures Truthy(c.username) && room in rooms ==>
        && userVoiceLevels == old(userVoiceLevels)[c.username.value := level]
        && log == old(log) + [Message(ToRoom(room), UsersUpdate(Snapshot(rooms[room], userPings, WithVoice(userVoiceLevels))))]
    {
      if Truthy(c.username) && room in rooms {
        userVoiceLevels := userVoiceLevels[c.username.value := level];
        log := log + [Message(ToRoom(room), UsersUpdate(Snapshot(rooms[room], userPings, WithVoice(userVoiceLevels))))];
      }
    }

    /** `ready_to_call`: the sender's connection id goes to the others in an
        existing room. */
    method ReadyToCall(c: Connection, room: string)
      modifies this`log
      ensures log == old(log) + if room in rooms then [Message(ToRoomExcept(room, c.id), UserReadyToCall(c.id))] else []
    {
      if room in rooms {
        log := log + [Message(ToRoomExcept(room, c.id), UserReadyToCall(c.id))];
      }
    }

    /** `stop_call`: like `ready_to_call`, as "user_stopped_call". */
    method StopCall(c: Connection, room: string)
      modifies this`log
      ensures log == old(log) + if room in rooms then [Message(ToRoomExcept(room, c.id), PeerStoppedCall(c.id))] else []
    {
      if room in rooms {
        log := log + [Message(ToRoomExcept(room, c.id), PeerStoppedCall(c.id))];
      }
    }

    /** `call_offer`: the offer goes unchanged to the target connection,
        tagged with the sender's id; no table changes. */
    method CallOffer(c: Connection, offer: Payload, targetUserId: string)
      modifies this`log
      ensures log == old(log) + [Message(ToRoomExcept(targetUserId, c.id), Event.CallOffer(offer, c.id))]
    {
      log := log + [Message(ToRoomExcept(targetUserId, c.id), Event.CallOffer(offer, c.id))];
    }

    /** `call_answer`: as `call_offer`. */
    method CallAnswer(c: Connection, answer: Payload, targetUserId: string)
      modifies this`log
      ensures log == old(log) + [Message(ToRoomExcept(targetUserId, c.id), Event.CallAnswer(answer, c.id))]
    {
      log := log + [Message(ToRoomExcept(targetUserId, c.id), Event.CallAnswer(answer, c.id))];
    }

    /** `ice_candidate`: as `call_offer`. */
    method IceCandidate(c: Connection, candidate: Payload, targetUserId: string)
      modifies this`log
      ensures log == old(log) + [Message(ToRoomExcept(targetUserId, c.id), Event.IceCandidate(candidate, c.id))]
    {
      log := log + [Message(ToRoomExcept(targetUserId, c.id), Event.IceCandidate(candidate, c.id))];
    }

    /** `user_started_call`: the sender's username goes to the whole of an
        existing room, sender included. */
    method UserStartedCall(c: Connection, room: string)
      modifies this`log
      ensures log == old(log) + if room in rooms then [Message(ToRoom(room), Event.UserStartedCall(c.username))] else []
    {
      if room in rooms {
        log := log + [Message(ToRoom(room), Event.UserStartedCall(c.username))];
      }
    }

    /** `user_stopped_call`: as `user_started_call`. */
    method UserStoppedCall(c: Connection, room: string)
      modifies this`log
      ensures log == old(log) + if room in rooms then [Message(ToRoom(room), Event.UserStoppedCall(c.username))] else []
    {
      if room in rooms {
        log := log + [Message(ToRoom(room), Event.UserStoppedCall(c.username))];
      }
    }

    /** `broadcast_audio({action, room})`: the action goes to the whole room
        if and only if the room exists and the sender is its recorded host. */
    method BroadcastAudio(c: Connection, action: Payload, room: string)
      modifies this`log
      ensures room in rooms && HostOf(room) == c.username ==>
        log == old(log) + [Message(ToRoom(room), AudioCommand(action))]
      ensures !(room in rooms && HostOf(room) == c.username) ==> log == old(log)
    {
      if room in rooms && HostOf(room) == c.username {
        log := log + [Message(ToRoom(room), AudioCommand(action))];
      }
    }

    /** `POST /upload/:room`, table part: for an existing room the stored
        file name is replaced and `file_uploaded` goes to the room; an unknown
        room answers 404 (`found` false) and changes nothing. */
    method Upload(room: string, filename: string) returns (found: bool)
      modifies this`roomFiles, this`log
      ensures found <==> room in rooms
      ensures found ==> roomFiles == old(roomFiles)[room := filename]
                        && log == old(log) + [Message(ToRoom(room), FileUploaded(filename))]
      ensures !found ==> roomFiles == old(roomFiles) && log == old(log)
    {
      found := room in rooms;
      if found {
        roomFiles := roomFiles[room := filename];
        log := log + [Message(ToRoom(room), FileUploaded(filename))];
      }
    }
  }
}
