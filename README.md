# groot room server, modelled in Dafny

groot is a small voice-chat server built on Express and socket.io. Browsers
connect, pick a display name, and create or join named rooms. The server
tracks the room's members, its host and its last uploaded audio file. It
broadcasts every member's self-reported latency and voice level, and it
relays the WebRTC connection setup (offers, answers, ICE candidates) between
connections. Only the host's `broadcast_audio` commands get through.

This project models the coordination core of `server.js`:

- The five module-level tables: `rooms`, `userPings`, `userVoiceLevels`,
  `roomHosts` and `roomFiles`.
- The per-connection fields `username`, `roomName` and the ping timer.
- Every `io.on("connection")` handler, plus the table update of the upload
  route.

It also models the part of `public/client.js` that is not DOM or WebRTC: the
latency classes, the voice-level colours, the `trim()` guards, and the page
variables that the handlers reassign.

Files:

- `ordered_set.dfy`: a JavaScript `Set` as an insertion-ordered sequence
  (`add`, `delete`), with lemmas about deletion.
- `wire.dfy`: users (`undefined` or a string), the events the server emits,
  recipients, and the rows of `users_update`.
- `rooms.dfy`: the snapshot and election functions, and the table invariant.
  It also holds the disconnect loop described as functions of the state
  before it, and the classes `Connection` and `RoomServer`, with one method
  per handler. Every emission is appended to `RoomServer.log`, and each
  message is tagged with its recipient:
  - `socket.emit` becomes `ToConnection`.
  - `io.to(r).emit` becomes `ToRoom`.
  - `socket.to(r).emit` becomes `ToRoomExcept`.
  - `io.emit` becomes `ToEveryone`.
- `client.dfy`: the browser page.
- `scenarios.dfy`: concrete runs of the server.

`rooms` is a Map, and it iterates in insertion order. That order is the field
`RoomServer.roomOrder`, because `rooms_list` and the disconnect loop depend on
it. The table invariant `Rooms.Consistent` holds before and after every
handler. It states that:

- `roomOrder` lists each room once;
- each member list is a set;
- every room has a `roomHosts` entry.

## Behaviour of server.js worth knowing

- **The host is set at `create_room`.** It is set to the creator's username,
  even though the creator is not yet a member (server.js:138). It is not set
  when the first member joins. So a room can have a host that is not a member.
- **`join_room` does not leave the previous room.** The connection stays a
  member of every room it joined. Each join starts a new ping interval, and a
  second join leaks the first one (server.js:164-166).
- **`disconnect` does part of the cleanup.** It deletes the username from
  every room and drops the rooms it empties. It does not elect a new host. It
  leaves `roomHosts` and `roomFiles` untouched, and it does not clear
  `roomName` (server.js:220-247). The result:
  - A host who disconnects from a room that still has members leaves the
    departed name recorded as that room's host.
  - No remaining member can `broadcast_audio` under its own name
    (`Scenarios.HostDisconnectKeepsDepartedHost`).
  - The host check compares names only (server.js:311), and any connection
    may take any name (server.js:129-133). So a connection using the
    departed host's name passes the check
    (`Scenarios.DepartedHostNameStillBroadcasts`). A `leave_room` from such a
    connection elects a new host (server.js:176-181).
- **Only the voice report carries voice levels.** The snapshots sent on
  latency reports, joins, leaves and disconnects have no `voiceLevel`, so the
  page draws every bar empty and green until the next voice report
  (`Client.SnapshotWithoutVoiceIsGreen`).
- **Usernames are not checked.** Any string is accepted as a username,
  including "" and names already in use (server.js:129-133). Two connections
  with the same name count as one member.
- **The upload route does not check the host.** It replaces the room's file
  for any caller (server.js:88-104).

## Model

| member | source | states |
|---|---|---|
| OrderedSet.Add | server.js:147 | `Set.add`: the element is present afterwards, every old element is kept in place, nothing else is added, a set stays a set, and an element already present leaves the set unchanged |
| OrderedSet.Remove | server.js:173 | `Set.delete`: the element is absent afterwards and nothing grows |
| OrderedSet.RemoveCounts | server.js:173 | deleting takes every copy of the element and keeps every other element with its multiplicity |
| OrderedSet.RemoveMembers | server.js:173 | after deleting `x`, `y` is a member exactly when it was one and differs from `x` |
| OrderedSet.RemoveDistinct | server.js:173 | deleting keeps a set a set, and removes exactly one element when the element was present |
| OrderedSet.RemoveAt | server.js:173 | in a set, deleting cuts the element out at its position and keeps the order of the rest |
| OrderedSet.FirstAfterRemove | server.js:177-179 | the first element left after deleting `x` is the earliest surviving element |
| Rooms.Snapshot | server.js:150-157 | a `users_update` payload has one row per member, in member order; each row's latency is the stored ping or 0; `isHost` and `voiceLevel` appear only in the payloads that send them |
| Rooms.HostFlagUnique | server.js:150-157 | in a join or leave snapshot, `isHost` is true exactly for the recorded host; one row has it when the host is a member, none when it is not |
| Rooms.ElectionPicksEarliestMember | server.js:176-182 | a departing host is replaced by a remaining member, never by the leaver, and by the earliest-joined one; a non-host leaving keeps the host; a host who is a member stays a member |
| Rooms.DisconnectRemovesUser | server.js:230-245 | after a disconnect the user is in no room, no room is new, and a room the user was not in is unchanged |
| Rooms.DisconnectConsistent | server.js:220-247 | a disconnect keeps the table invariant |
| Rooms.DisconnectDropsExactlySoleRooms | server.js:230-236 | a room disappears on disconnect exactly when the user was its only member; otherwise it keeps all its other members |
| Rooms.SurvivorsMembers | server.js:230-246 | the room order after a disconnect holds exactly the rooms that were not emptied, each once |
| Rooms.NoticesAreForRemainingRooms | server.js:237-243 | every disconnect notice is a plain snapshot, sent to a room that held the user and keeps other members, listing exactly those other members |
| Rooms.EveryRemainingRoomNotified | server.js:231-243 | conversely, every room that held the user and keeps other members gets a notice, and no room gets two |
| Rooms.ProcessedAll | server.js:230-245 | once the disconnect loop has visited every room, the member table is the one AfterDisconnect describes |
| Rooms.DisconnectStep | server.js:231-244 | one visit of the disconnect loop changes only the visited room's entry, keeps that room's place in the order unless it is emptied, and adds at most that room's notice |
| Rooms.Connection.StopPing | server.js:209-212 | `clearInterval`: the handle is dropped and one running timer less when one was held |
| Rooms.Connection.constructor | server.js:109-110 | a new connection has no username, no room and no timer |
| Rooms.RoomServer.constructor | server.js:28-32 | all tables empty |
| Rooms.RoomServer.RoomNames | server.js:132 | `rooms_list` lists every existing room exactly once |
| Rooms.RoomServer.Ping | server.js:112-114 | `pong` goes to the sender only |
| Rooms.RoomServer.SetUsername | server.js:129-133 | any name is stored; `username_set` goes to the sender and the room list to everyone |
| Rooms.RoomServer.CreateRoom | server.js:135-141 | an existing name changes nothing; a new name gets an empty member set and the creator as host, goes last in the room order, and the list goes to everyone; the invariant is kept |
| Rooms.RoomServer.JoinRoom | server.js:143-168 | an unknown room is ignored; otherwise the user is added with set semantics, `roomName` is set, and the host is unchanged; `user_joined` and a host-flag snapshot go to the room; `you_are_host` goes to the joiner exactly when it is the recorded host; one more timer runs |
| Rooms.RoomServer.LeaveRoom | server.js:170-218 | an unknown room is ignored; otherwise the user is deleted from the room; a departing host hands over to the first remaining member, which is announced, and its file entry is dropped; an emptied room is deleted with its host entry, and the list goes to everyone, while any other room gets a host-flag snapshot; the ping entry, `roomName` and the timer are cleared |
| Rooms.RoomServer.Depart | server.js:173-207 | the table updates and notices of a leave: emptied room removed from tables and order, otherwise the room kept with the elected host |
| Rooms.RoomServer.DropMember | server.js:173 | the user is deleted from the room's member set and the invariant is kept |
| Rooms.RoomServer.HandOverHost | server.js:176-192 | host hand-over and file cleanup happen only when the leaver is the host |
| Rooms.RoomServer.CloseOrRefresh | server.js:194-207 | an empty room is deleted from tables and order, and the list is broadcast; otherwise a host-flag snapshot goes to the room |
| Rooms.RoomServer.Disconnect | server.js:220-247 | the timer is cleared; ping and voice entries are deleted for a truthy username; the member table becomes AfterDisconnect and the order Survivors; hosts and files are unchanged; the notices are DisconnectNotices, in room order, and then the room list; the invariant is kept |
| Rooms.RoomServer.DropEverywhere | server.js:230-245 | the `rooms.forEach` loop computes AfterDisconnect, Survivors and DisconnectNotices of the state before it |
| Rooms.RoomServer.DropFrom | server.js:231-244 | one loop visit advances the loop's description by one room |
| Rooms.RoomServer.Latency | server.js:116-127 | ignored unless username and `roomName` are truthy; then the ping is stored and a plain snapshot goes to the room; `crashed` holds exactly when `roomName` names a deleted room |
| Rooms.RoomServer.LatencyChecked | server.js:116-127 | the same handler with the room looked up first: a report for a deleted room changes nothing |
| Rooms.RoomServer.VoiceLevel | server.js:294-308 | ignored unless the username is truthy and the named room exists; then the level is stored and a voice snapshot goes to the room |
| Rooms.RoomServer.ReadyToCall | server.js:249-253 | the sender's id goes to the other members of an existing room |
| Rooms.RoomServer.StopCall | server.js:255-259 | the sender's id goes, as `user_stopped_call`, to the other members of an existing room |
| Rooms.RoomServer.CallOffer | server.js:261-266 | the offer goes unchanged to the target id, tagged with the sender's id; no table changes |
| Rooms.RoomServer.CallAnswer | server.js:268-273 | as for offers |
| Rooms.RoomServer.IceCandidate | server.js:275-280 | as for offers |
| Rooms.RoomServer.UserStartedCall | server.js:282-286 | the sender's username goes to the whole of an existing room |
| Rooms.RoomServer.UserStoppedCall | server.js:288-292 | the sender's username goes to the whole of an existing room |
| Rooms.RoomServer.BroadcastAudio | server.js:310-314 | `audio_command` goes to the room if and only if the room exists and the sender is its recorded host |
| Rooms.RoomServer.Upload | server.js:88-104 | the room's file is replaced and `file_uploaded` goes to the room exactly when the room exists; otherwise 404 and nothing changes |
| Client.ClassifyLatency | public/client.js:134-138 | `latency-good` below 100, `latency-medium` from 100 to 199, `latency-bad` from 200, each as an if-and-only-if, so the classes partition all latencies |
| Client.ClassifyLatencyMonotone | public/client.js:134-138 | a larger latency never gets a better class |
| Client.VoiceColour | public/client.js:104-113 | green `#4caf50` below 40, yellow `#ffc107` from 40 to below 70, red `#f44336` from 70, each as an if-and-only-if; a missing level counts as 0 |
| Client.VoiceColourMonotone | public/client.js:107-113 | a louder level never gets a calmer colour |
| Client.Render | public/client.js:96-131 | one drawn row per received entry, in order |
| Client.RenderSnapshot | public/client.js:100-127 | a server snapshot is drawn member by member with the member's latency class, call indicator and, for voice snapshots, the colour of its level |
| Client.SnapshotWithoutVoiceIsGreen | public/client.js:104-113 | snapshots without voice levels draw every bar empty and green |
| Client.SkipSpaces | public/client.js:34 | the first position from `i` that is not white space, with only white space before it |
| Client.BackSpaces | public/client.js:34 | the end of the text once trailing white space is cut, with only white space after it |
| Client.Trim | public/client.js:34 | `trim()` returns a slice of the input with only white space around it, and the slice neither starts nor ends with white space |
| Client.TrimIdempotent | public/client.js:34 | trimming twice is trimming once |
| Client.TrimEmptyIff | public/client.js:36 | the guard fails exactly when the input is all white space |
| Client.Page.constructor | public/client.js:2-14 | no room, no username, no stream, nobody in a call, nothing sent |
| Client.Page.SetUsername | public/client.js:32-39 | the trimmed input always becomes `username`, and it is sent only when it is not empty |
| Client.Page.JoinRoom | public/client.js:54-63 | the room becomes current and `join_room` is sent, with no check |
| Client.Page.CreateRoom | public/client.js:46-52 | a non-empty trimmed name is created and then joined; anything else changes nothing |
| Client.Page.StartCall | public/client.js:141-175 | with the microphone granted, `ready_to_call` and `user_started_call` are sent and the own name is marked in `usersInCall`; a refusal changes nothing |
| Client.Page.StopCall | public/client.js:193-224 | with a stream, it is dropped, `stop_call` and `user_stopped_call` are sent and the own name unmarked; without one nothing happens |
| Client.Page.LeaveRoom | public/client.js:373-381 | only with a non-empty current room: the call is stopped, `leave_room` is sent for that room, and the room becomes null |
| Client.Page.OnUserStartedCall | public/client.js:347-350 | the announced name is added to `usersInCall` |
| Client.Page.OnUserStoppedCall | public/client.js:352-355 | the announced name (or connection id) is deleted from `usersInCall` |
| Client.Page.OnUserReadyToCall | public/client.js:338-344 | with a stream, `user_started_call` is sent again for the current room |
| Scenarios.AliceCreatesJam | server.js:135-141 | after create, the room exists, is empty, and has the creator as host |
| Scenarios.CreatorBecomesHost | server.js:135-168 | a creator who joins is shown alone as host with latency 0, and `you_are_host` goes to that connection |
| Scenarios.AliceHostsBob | server.js:135-168 | after create and two joins, the room holds both members in join order with the creator as host |
| Scenarios.HostLeaveElectsNext | server.js:176-206 | a departing host hands over to the next member, and the new host is announced and flagged |
| Scenarios.AliceDisconnects | server.js:220-247 | after the host disconnects, the other member stays and the departed name is still the recorded host |
| Scenarios.HostDisconnectKeepsDepartedHost | server.js:310-314 | the remaining member's `broadcast_audio` under its own name is ignored |
| Scenarios.DepartedHostNameStillBroadcasts | server.js:129-133 | once the remaining member takes the departed host's name, its `broadcast_audio` reaches the room |
| Scenarios.SameNameTabs | server.js:170-218 | a leave can delete the room that another connection's `roomName` still names |
| Scenarios.SameNameTabsCrashLatency | server.js:116-127 | that connection's next latency report crashes the handler |
| Scenarios.SameNameTabsCheckedLatency | server.js:116-127 | with the checked handler, the same report is dropped |
| Scenarios.SoleMemberSnapshot | server.js:150-157 | a one-member room's snapshot is that member's row |

## Left out

- HTTP serving is not modelled: Express static files, the `window.ENV`
  injection, livereload and the HTTP responses of the upload route. None of it
  touches the room tables.
- File I/O and clocks are not modelled: multer storage, timestamped file
  names, `fs.existsSync` and `unlinkSync`. Only the `roomFiles` updates are
  kept. `Rooms.RoomServer.Upload` takes the stored file name as a parameter.
  A request without a file (`req.file` undefined) is not modelled.
- Timers are modelled only as a count of running intervals and whether
  `pingInterval` holds one. The periodic `ping` emissions themselves are not
  modelled.
- socket.io room membership (`socket.join` and `socket.leave`) is not
  modelled. Recipients stay symbolic. Which connections a `ToRoom` or
  `ToRoomExcept` message reaches is not modelled.
- Concurrency is not modelled. Node runs one handler at a time, so the model
  applies handlers one after another.
- WebRTC (`RTCPeerConnection`, the `peerConnections` map, offers, answers and
  ICE handling in the browser) and `getUserMedia` are not modelled. They are
  browser APIs. A refused microphone is the `granted` parameter of
  `Client.Page.StartCall`.
- Audio analysis is not modelled: `AudioContext`, the FFT average, and
  `requestAnimationFrame`. These are floating-point and browser APIs. Voice
  levels are `real` values given by the caller.
- The DOM is not modelled. Only what a `users_update` row shows is kept
  (`Client.Render`).
- The client's `Date.now()` ping timing is not modelled. A latency is an
  integer given by the caller.
- Wire.User: JavaScript `null` and `undefined` are both `None`. The code never
  relies on the difference, except that a JavaScript `Set` could hold both.
- Rooms.RoomServer.Latency: payloads are typed. A latency is an `int`, a level
  a `real`, a name a string. Non-string or malformed payloads, which the
  source would store unchecked, are not modelled. The same applies to
  Rooms.RoomServer.VoiceLevel.
- Client.Trim: characters are Unicode scalar values. JavaScript strings are
  UTF-16, so an unpaired surrogate cannot occur in the model.

## Findings

| source | as written | input that shows it | evidently intended | confidence | as-written member | corrected member |
|---|---|---|---|---|---|---|
| server.js:116-127 | `latency` checks only that `socket.roomName` is set, then calls `Array.from(rooms.get(socket.roomName))`. When the room has been deleted, this throws a TypeError after the ping is stored. | Two connections set username "alice" and both join "jam". The second leaves "jam", which deletes the room because the name was one member. The first, whose `roomName` is still "jam", then reports `latency(42)`. | A report for a room that no longer exists is dropped without effect. | not executed | Rooms.RoomServer.Latency, Scenarios.SameNameTabsCrashLatency | Rooms.RoomServer.LatencyChecked, Scenarios.SameNameTabsCheckedLatency |
