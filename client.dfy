/** The browser side of the room protocol in public/client.js that does not
    touch the DOM or WebRTC: the latency and voice-level classifiers used to
    draw a `users_update` row, the `trim()` guards in front of `set_username`
    and `create_room`, and the page variables `currentRoom`, `username`,
    `localStream` and `usersInCall` that the event handlers reassign. */
module Client {
  import opened Wire
  import opened Rooms

  // ---------------------------------------------------------------------
  // Latency classes

  /** The CSS classes a latency is drawn with. */
  datatype LatencyClass = Good | Medium | Bad
  {
    function Css(): string
    {
      match this
      case Good => "latency-good"
      case Medium => "latency-medium"
      case Bad => "latency-bad"
    }

    /** Lower is better. */
    function Rank(): nat
    {
      match this
      case Good => 0
      case Medium => 1
      case Bad => 2
    }
  }

  /** `getLatencyClass`: good below 100 ms, medium from 100 to 199 ms, bad
      from 200 ms on. */
  function ClassifyLatency(latency: int): (c: LatencyClass)
    ensures c == Good <==> latency < 100
    ensures c == Medium <==> 100 <= latency < 200
    ensures c == Bad <==> 200 <= latency
    ensures c.Css() == "latency-good" <==> latency < 100
    ensures c.Css() == "latency-medium" <==> 100 <= latency < 200
    ensures c.Css() == "latency-bad" <==> 200 <= latency
  {
    if latency < 100 then Good
    else if latency < 200 then Medium
    else Bad
  }

  /** A larger latency never gets a better class. */
  lemma ClassifyLatencyMonotone(a: int, b: int)
    requires a <= b
    ensures ClassifyLatency(a).Rank() <= ClassifyLatency(b).Rank()
  {
  }

  // ---------------------------------------------------------------------
  // Voice level colours

  datatype Colour = Green | Yellow | Red
  {
    function Hex(): string
    {
      match this
      case Green => "#4caf50"
      case Yellow => "#ffc107"
      case Red => "#f44336"
    }

    function Rank(): nat
    {
      match this
      case Green => 0
      case Yellow => 1
      case Red => 2
    }
  }

  /** `user.voiceLevel || 0`: a row without a level shows level 0. */
  function LevelOf(voiceLevel: Option<real>): real
  {
    if voiceLevel.Some? then voiceLevel.value else 0.0
  }

  /** The colour of the voice-level bar: green below 40, yellow from 40 to
      below 70, red from 70 on; a row without a level is green. */
  function VoiceColour(voiceLevel: Option<real>): (c: Colour)
    ensures c == Green <==> LevelOf(voiceLevel) < 40.0
    ensures c == Yellow <==> 40.0 <= LevelOf(voiceLevel) < 70.0
    ensures c == Red <==> 70.0 <= LevelOf(voiceLevel)
    ensures voiceLevel.None? ==> c == Green
    ensures c.Hex() == "#4caf50" <==> LevelOf(voiceLevel) < 40.0
    ensures c.Hex() == "#ffc107" <==> 40.0 <= LevelOf(voiceLevel) < 70.0
    ensures c.Hex() == "#f44336" <==> 70.0 <= LevelOf(voiceLevel)
  {
    var level := LevelOf(voiceLevel);
    if level < 40.0 then Green
    else if level < 70.0 then Yellow
    else Red
  }

  /** A louder level never gets a calmer colour. */
  lemma VoiceColourMonotone(a: real, b: real)
    requires a <= b
    ensures VoiceColour(Some(a)).Rank() <= VoiceColour(Some(b)).Rank()
  {
  }

  // ---------------------------------------------------------------------
  // Drawing a users_update

  /** What one `user-item` shows: the name, the bar's height in percent and
      colour, the latency class and whether the call indicator is active. */
  datatype RowView = RowView(username: User, barHeight: real, colour: Colour,
                             latencyClass: LatencyClass, inCall: bool)

  /** The `users_update` handler: one row per entry, in the order received. */
  function Render(users: seq<Entry>, usersInCall: set<User>): (rows: seq<RowView>)
    ensures |rows| == |users|
    ensures forall i :: 0 <= i < |rows| ==> rows[i].username == users[i].username
  {
    seq(|users|, i requires 0 <= i < |users| =>
      RowView(users[i].username, LevelOf(users[i].voiceLevel), VoiceColour(users[i].voiceLevel),
              ClassifyLatency(users[i].latency), users[i].username in usersInCall))
  }

  /** A server snapshot is drawn member by member: each row shows the
      member's last reported latency class, its call indicator, and, for a
      voice snapshot, the colour of its last reported level. */
  lemma RenderSnapshot(members: seq<User>, pings: map<string, int>, shape: Shape, usersInCall: set<User>)
    ensures var rows := Render(Snapshot(members, pings, shape), usersInCall);
      && |rows| == |members|
      && forall i :: 0 <= i < |rows| ==>
           && rows[i].username == members[i]
           && rows[i].latencyClass == ClassifyLatency(PingOf(pings, members[i]))
           && (rows[i].inCall <==> members[i] in usersInCall)
           && (shape.WithVoice? ==> rows[i].colour == VoiceColour(Some(VoiceOf(shape.levels, members[i])))
                                    && rows[i].barHeight == VoiceOf(shape.levels, members[i]))
  {
  }

  /** The snapshots sent on latency reports, joins, leaves and disconnects
      carry no voice level, so every bar they draw is empty and green,
      whatever the members last reported. */
  lemma SnapshotWithoutVoiceIsGreen(members: seq<User>, pings: map<string, int>, shape: Shape, usersInCall: set<User>)
    requires !shape.WithVoice?
    ensures var rows := Render(Snapshot(members, pings, shape), usersInCall);
      forall i :: 0 <= i < |rows| ==> rows[i].colour == Green && rows[i].barHeight == 0.0
  {
  }

  // ---------------------------------------------------------------------
  // String.prototype.trim

  /** The characters `trim()` strips: ECMAScript WhiteSpace (tab, vertical
      tab, form feed, space, no-break space, the byte order mark and every
      space separator) and LineTerminator (LF, CR, the line and paragraph
      separators). */
  predicate IsSpace(c: char)
  {
    var n := c as int;
    n == 0x09 || n == 0x0A || n == 0x0B || n == 0x0C || n == 0x0D || n == 0x20
    || n == 0xA0 || n == 0x1680 || (0x2000 <= n <= 0x200A) || n == 0x2028 || n == 0x2029
    || n == 0x202F || n == 0x205F || n == 0x3000 || n == 0xFEFF
  }

  /** The first position at or after `i` that does not hold white space
      (`|s|` when there is none). */
  function SkipSpaces(s: string, i: nat): (j: nat)
    requires i <= |s|
    ensures i <= j <= |s|
    ensures forall k :: i <= k < j ==> IsSpace(s[k])
    ensures j < |s| ==> !IsSpace(s[j])
    decreases |s| - i
  {
    if i == |s| || !IsSpace(s[i]) then i else SkipSpaces(s, i + 1)
  }

  /** The end of `s[..j]` once its trailing white space is cut off, but
      never before `lo`. */
  function BackSpaces(s: string, lo: nat, j: nat): (e: nat)
    requires lo <= j <= |s|
    ensures lo <= e <= j
    ensures forall k :: e <= k < j ==> IsSpace(s[k])
    ensures lo < e ==> !IsSpace(s[e - 1])
    decreases j
  {
    if j == lo || !IsSpace(s[j - 1]) then j else BackSpaces(s, lo, j - 1)
  }

  /** `trim()`: the part of `s` between its leading and its trailing white
      space, which neither starts nor ends with white space. */
  function Trim(s: string): (r: string)
    ensures exists i, j :: 0 <= i <= j <= |s| && r == s[i..j]
              && (forall k :: 0 <= k < i ==> IsSpace(s[k]))
              && (forall k :: j <= k < |s| ==> IsSpace(s[k]))
    ensures r == [] || (!IsSpace(r[0]) && !IsSpace(r[|r| - 1]))
  {
    var i := SkipSpaces(s, 0);
    var j := BackSpaces(s, i, |s|);
    s[i..j]
  }

  /** Trimming a trimmed string changes nothing. */
  lemma TrimIdempotent(s: string)
    ensures Trim(Trim(s)) == Trim(s)
  {
    var t := Trim(s);
    assert SkipSpaces(t, 0) == 0;
    assert BackSpaces(t, 0, |t|) == |t|;
    assert t[0..|t|] == t;
  }

  /** The trimmed string is empty, so the guard `if (name)` fails, exactly
      when the input is nothing but white space. */
  lemma TrimEmptyIff(s: string)
    ensures Trim(s) == [] <==> forall k :: 0 <= k < |s| ==> IsSpace(s[k])
  {
  }

  // ---------------------------------------------------------------------
  // The page

  /** What the page sends to the server. A room argument sent while
      `currentRoom` is null is `None`. */
  datatype Request =
    | SetUsername(name: string)
    | CreateRoom(name: string)
    | JoinRoom(name: string)
    | LeaveRoom(name: string)
    | ReadyToCall(room: Option<string>)
    | StopCall(room: Option<string>)
    | UserStartedCall(room: Option<string>)
    | UserStoppedCall(room: Option<string>)

  /** The page's module variables. `hasStream` says whether `localStream`
      holds a microphone stream; `outbox` is every `socket.emit` so far. */
  class Page {
    var currentRoom: Option<string>
    var username: Option<string>
    var hasStream: bool
    var usersInCall: set<User>
    var outbox: seq<Request>

    constructor ()
      ensures currentRoom == None && username == None && !hasStream
      ensures usersInCall == {} && outbox == []
    {
      currentRoom, username, hasStream := None, None, false;
      usersInCall, outbox := {}, [];
    }

    /** `setUsername`: the trimmed input always becomes `username`; it is
        sent only when it is not empty. */
    method SetUsername(input: string)
      modifies this`username, this`outbox
      ensures username == Some(Trim(input))
      ensures outbox == old(outbox) + if Trim(input) != "" then [Request.SetUsername(Trim(input))] else []
    {
      var name := Trim(input);
      username := Some(name);
      if name != "" {
        outbox := outbox + [Request.SetUsername(name)];
      }
    }

    /** `joinRoom`: no check at all; the room becomes current and is asked
        for. */
    method JoinRoom(name: string)
      modifies this`currentRoom, this`outbox
      ensures currentRoom == Some(name)
      ensures outbox == old(outbox) + [Request.JoinRoom(name)]
    {
      currentRoom := Some(name);
      outbox := outbox + [Request.JoinRoom(name)];
    }

    /** `createRoom`: a non-empty trimmed name is created and then joined;
        anything else does nothing. */
    method CreateRoom(input: string)
      modifies this`currentRoom, this`outbox
      ensures var name := Trim(input);
        && (name == "" ==> currentRoom == old(currentRoom) && outbox == old(outbox))
        && (name != "" ==> currentRoom == Some(name)
                           && outbox == old(outbox) + [Request.CreateRoom(name), Request.JoinRoom(name)])
    {
      var name := Trim(input);
      if name != "" {
        outbox := outbox + [Request.CreateRoom(name)];
        JoinRoom(name);
      }
    }

    /** `startCall`: when the microphone is granted (`granted`), the stream is
        kept, `ready_to_call` and `user_started_call` are sent for the
        current room and the own username is marked as in the call. A
        refused microphone changes nothing. */
    method StartCall(granted: bool)
      modifies this`hasStream, this`outbox, this`usersInCall
      ensures !granted ==> hasStream == old(hasStream) && outbox == old(outbox) && usersInCall == old(usersInCall)
      ensures granted ==>
        && hasStream
        && outbox == old(outbox) + [Request.ReadyToCall(currentRoom), Request.UserStartedCall(currentRoom)]
        && usersInCall == old(usersInCall) + {username}
    {
      if granted {
        hasStream := true;
        outbox := outbox + [Request.ReadyToCall(currentRoom), Request.UserStartedCall(currentRoom)];
        usersInCall := usersInCall + {username};
      }
    }

    /** `stopCall`: only with a stream; it is dropped, `stop_call` and
        `user_stopped_call` are sent for the current room and the own
        username is no longer marked. */
    method StopCall()
      modifies this`hasStream, this`outbox, this`usersInCall
      ensures !hasStream
      ensures !old(hasStream) ==> outbox == old(outbox) && usersInCall == old(usersInCall)
      ensures old(hasStream) ==>
        && outbox == old(outbox) + [Request.StopCall(currentRoom), Request.UserStoppedCall(currentRoom)]
        && usersInCall == old(usersInCall) - {username}
    {
      if hasStream {
        hasStream := false;
        outbox := outbox + [Request.StopCall(currentRoom), Request.UserStoppedCall(currentRoom)];
        usersInCall := usersInCall - {username};
      }
    }

    /** `leaveRoom`: only with a (non-empty) current room; the call is
        stopped first, then `leave_room` is sent and the room is cleared. */
    method LeaveRoom()
      modifies this`currentRoom, this`hasStream, this`outbox, this`usersInCall
      ensures !Truthy(old(currentRoom)) ==>
        && currentRoom == old(currentRoom) && hasStream == old(hasStream)
        && outbox == old(outbox) && usersInCall == old(usersInCall)
      ensures Truthy(old(currentRoom)) ==>
        && currentRoom == None && !hasStream
        && outbox == old(outbox)
             + (if old(hasStream) then [Request.StopCall(old(currentRoom)), Request.UserStoppedCall(old(currentRoom))]
                else [])
             + [Request.LeaveRoom(old(currentRoom).value)]
        && usersInCall == if old(hasStream) then old(usersInCall) - {username} else old(usersInCall)
    {
      if Truthy(currentRoom) {
        StopCall();
        outbox := outbox + [Request.LeaveRoom(currentRoom.value)];
        currentRoom := None;
      }
    }

    /** `user_started_call(name)` from the server: the name is marked. */
    method OnUserStartedCall(name: User)
      modifies this`usersInCall
      ensures usersInCall == old(usersInCall) + {name}
    {
      usersInCall := usersInCall + {name};
    }

    /** `user_stopped_call(x)` from the server: the name (or, for the relay of
        `stop_call`, the connection id) is unmarked. */
    method OnUserStoppedCall(x: User)
      modifies this`usersInCall
      ensures usersInCall == old(usersInCall) - {x}
    {
      usersInCall := usersInCall - {x};
    }

    /** `user_ready_to_call` from the server, second handler: with a stream,
        `user_started_call` is sent again for the current room. */
    method OnUserReadyToCall(connectionId: string)
      modifies this`outbox
      ensures outbox == old(outbox) + if hasStream then [Request.UserStartedCall(currentRoom)] else []
    {
      if hasStream {
        outbox := outbox + [Request.UserStartedCall(currentRoom)];
      }
    }
  }
}
