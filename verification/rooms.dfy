/**
  The room service: room creation, the membership rules (join, leave,
  list) and the membership-gated message read and send. Each check-then-
  write pair of the service runs against the database as two separate
  requests, so two concurrent joins can both insert; the model treats each
  operation as atomic.
 */
module Rooms {
  import opened Wrappers
  import opened Tables
  import opened Sorting
  import opened Store
  import Messages

  datatype Created = Created(message: string, room: Room)
  datatype Joined = Joined(message: string, roomId: Id)
  datatype RoomSummary = RoomSummary(id: Id, name: string, createdAt: nat)
  datatype JoinedAndNot = JoinedAndNot(joinedRooms: seq<RoomWithParticipants>, notJoinedRooms: seq<RoomWithParticipants>)

  // --------------------------------------------------------- createRoom

  /**
    `createRoom`: one new room (`isGroup` false unless given as true) and,
    in the same nested write, one participant row making the caller its
    first member. Users and messages are untouched.
   */
  function CreateRoom(s: Store, userId: Id, name: string, isGroup: Option<bool>): (r: Step<Created>)
    ensures r.result.Ok?
    ensures var room := r.result.value.room;
      && r.result.value.message == "Room created successfully"
      && room.name == name
      && (room.isGroup <==> isGroup == Some(true))
      && r.store.rooms == s.rooms + [room]
      && |r.store.participants| == |s.participants| + 1
      && r.store.participants[..|s.participants|] == s.participants
      && r.store.participants[|s.participants|].userId == userId
      && r.store.participants[|s.participants|].roomId == room.id
      && r.store.users == s.users && r.store.messages == s.messages
    ensures Wf(s) ==> Wf(r.store)
    ensures Wf(s) ==> r.result.value.room.id !in RoomIds(s)
                      && forall u :: IsMember(r.store, r.result.value.room.id, u) <==> u == userId
  {
    var room := Room(MintId('r', s.nextId), name, isGroup.GetOr(false), s.clock);
    var p := Participant(MintId('p', s.nextId + 1), userId, room.id);
    var s' := s.(rooms := s.rooms + [room], participants := s.participants + [p],
                 nextId := s.nextId + 2, clock := s.clock + 1);
    assert s'.participants[..|s.participants|] == s.participants;
    assert p in s'.participants;
    NewRoomKeepsWf(s, s', room, p);
    Step(Ok(Created("Room created successfully", room)), s')
  }

  /**
    The nested write of `createRoom` keeps the store well formed, and the
    new room has no participant row but the creator's.
   */
  lemma NewRoomKeepsWf(s: Store, s': Store, room: Room, p: Participant)
    requires room.id == MintId('r', s.nextId) && room.createdAt == s.clock
    requires p.id == MintId('p', s.nextId + 1) && p.roomId == room.id
    requires s' == s.(rooms := s.rooms + [room], participants := s.participants + [p],
                      nextId := s.nextId + 2, clock := s.clock + 1)
    ensures Wf(s) ==> Wf(s')
    ensures Wf(s) ==> room.id !in RoomIds(s)
    ensures Wf(s) ==> forall q :: q in s'.participants && q.roomId == room.id ==> q == p
  {
    if Wf(s) {
      forall q | q in s.participants ensures q.roomId != room.id {
        var x :| x in s.rooms && x.id == q.roomId;
      }
      UniqueAppend(s.rooms, room, RoomId);
      UniqueAppend(s.participants, p, ParticipantId);
      UniqueAppend(s.participants, p, MembershipKey);
    }
  }

  // ----------------------------------------------------------- joinRoom

  /**
    `joinRoom`: NotFound for an unknown room; "already joined" without a
    write when a participant row exists; otherwise exactly one new row.
    Either way the user is a member afterwards.
   */
  function JoinRoom(s: Store, roomId: Id, userId: Id): (r: Step<Joined>)
    ensures r.result.Err? <==> roomId !in RoomIds(s)
    ensures r.result.Err? ==> r.result.error == NotFound("Room not found") && r.store == s
    ensures r.result.Ok? && IsMember(s, roomId, userId) ==>
      r.result.value == Joined("User already joined the room", roomId) && r.store == s
    ensures r.result.Ok? && !IsMember(s, roomId, userId) ==>
      && r.result.value == Joined("Joined room successfully", roomId)
      && |r.store.participants| == |s.participants| + 1
      && r.store == s.(participants := s.participants + [r.store.participants[|s.participants|]], nextId := r.store.nextId)
      && r.store.participants[|s.participants|].roomId == roomId
      && r.store.participants[|s.participants|].userId == userId
    ensures r.result.Ok? ==> IsMember(r.store, roomId, userId)
    ensures Wf(s) ==> Wf(r.store)
  {
    if FindRoom(s, roomId).None? then
      Step(Err(NotFound("Room not found")), s)
    else if FindParticipant(s, roomId, userId).Some? then
      Step(Ok(Joined("User already joined the room", roomId)), s)
    else
      var p := Participant(MintId('p', s.nextId), userId, roomId);
      var s' := s.(participants := s.participants + [p], nextId := s.nextId + 1);
      assert Wf(s) ==> Wf(s') by {
        if Wf(s) {
          UniqueAppend(s.participants, p, ParticipantId);
          UniqueAppend(s.participants, p, MembershipKey);
        }
      }
      assert p in s'.participants;
      Step(Ok(Joined("Joined room successfully", roomId)), s')
  }

  /** Joining twice is joining once: the second call writes nothing. */
  lemma JoinIdempotent(s: Store, roomId: Id, userId: Id)
    ensures var once := JoinRoom(s, roomId, userId);
            var twice := JoinRoom(once.store, roomId, userId);
      && twice.store == once.store
      && (once.result.Ok? ==> twice.result == Ok(Joined("User already joined the room", roomId)))
      && (once.result.Err? ==> twice.result == once.result)
  {
    var once := JoinRoom(s, roomId, userId);
    if once.result.Ok? {
      assert RoomIds(once.store) == RoomIds(s);
    }
  }

  // ---------------------------------------------------------- leaveRoom

  /**
    `leaveRoom`: NotFound when the user has no participant row in the
    room; otherwise the first such row is deleted by its id, and the
    deleted row is returned. Nothing but the participants table changes.
   */
  function LeaveRoom(s: Store, roomId: Id, userId: Id): (r: Step<Participant>)
    ensures r.result.Err? <==> !IsMember(s, roomId, userId)
    ensures r.result.Err? ==> r.result.error == NotFound("User is not part of this room") && r.store == s
    ensures r.result.Ok? ==>
      && r.result.value in s.participants
      && r.result.value.roomId == roomId && r.result.value.userId == userId
      && r.store == s.(participants := r.store.participants)
    ensures r.result.Ok? && Wf(s) ==>
      && multiset(r.store.participants) == multiset(s.participants) - multiset{r.result.value}
      && !IsMember(r.store, roomId, userId)
    ensures Wf(s) ==> Wf(r.store)
  {
    match FindParticipant(s, roomId, userId)
    case None => Step(Err(NotFound("User is not part of this room")), s)
    case Some(p) =>
      var pred := (q: Participant) => q.id != p.id;
      var s' := s.(participants := Filter(s.participants, pred));
      DeleteKeepsWf(s, s', p, pred);
      Step(Ok(p), s')
  }

  /**
    Deleting a participant row by its id keeps the store well formed,
    removes exactly that row and leaves its user no row in its room.
   */
  lemma DeleteKeepsWf(s: Store, s': Store, p: Participant, pred: Participant -> bool)
    requires p in s.participants
    requires forall q :: pred(q) <==> q.id != p.id
    requires s' == s.(participants := Filter(s.participants, pred))
    ensures Wf(s) ==> Wf(s')
    ensures Wf(s) ==> multiset(s'.participants) == multiset(s.participants) - multiset{p}
    ensures Wf(s) ==> !IsMember(s', p.roomId, p.userId)
  {
    if Wf(s) {
      UniqueFilter(s.participants, pred, ParticipantId);
      UniqueFilter(s.participants, pred, MembershipKey);
      FewerParticipantsKeepWf(s, s');
      RemoveByUniqueKey(s.participants, ParticipantId, p, pred);
      forall q | q in s'.participants && q.roomId == p.roomId && q.userId == p.userId
        ensures false
      {
        UniqueKeyDetermines(s.participants, MembershipKey, p, q);
      }
    }
  }

  /** Keeping only some participant rows, with their keys still unique, keeps `Wf`. */
  lemma FewerParticipantsKeepWf(s: Store, s': Store)
    requires Wf(s) && s' == s.(participants := s'.participants)
    requires forall q :: q in s'.participants ==> q in s.participants
    requires Unique(s'.participants, ParticipantId) && Unique(s'.participants, MembershipKey)
    ensures Wf(s')
  {
    assert RoomIds(s') == RoomIds(s);
  }

  /** Leaving and joining again restores the membership. */
  lemma LeaveThenJoin(s: Store, roomId: Id, userId: Id)
    requires Wf(s) && IsMember(s, roomId, userId)
    ensures var left := LeaveRoom(s, roomId, userId).store;
      && !IsMember(left, roomId, userId)
      && JoinRoom(left, roomId, userId).result == Ok(Joined("Joined room successfully", roomId))
      && IsMember(JoinRoom(left, roomId, userId).store, roomId, userId)
  {
    var r := LeaveRoom(s, roomId, userId);
    assert r.result.value.roomId in RoomIds(s);
    assert RoomIds(r.store) == RoomIds(s);
  }

  // ------------------------------------------------- listing the rooms

  /** Some participant row of the room has the id `id` (not the user id). */
  predicate HasParticipantRow(s: Store, roomId: Id, id: Id) {
    exists p :: p in s.participants && p.roomId == roomId && p.id == id
  }

  /**
    `getJoinedRooms` as written: the rooms having a participant row whose
    OWN id equals the given user id, each with its participant rows.
   */
  function GetJoinedRooms(s: Store, userId: Id): (r: seq<RoomWithParticipants>)
    ensures forall x :: x in RoomsOf(r) <==> x in s.rooms && HasParticipantRow(s, x.id, userId)
    ensures forall i :: 0 <= i < |r| ==> r[i].participants == ParticipantsOf(s, r[i].room.id)
  {
    WithParticipants(s, Filter(s.rooms, (x: Room) => HasParticipantRow(s, x.id, userId)))
  }

  /** The rooms the user is a participant of: what `getJoinedRooms` evidently means. */
  function JoinedRooms(s: Store, userId: Id): (r: seq<RoomWithParticipants>)
    ensures forall x :: x in RoomsOf(r) <==> x in s.rooms && IsMember(s, x.id, userId)
    ensures forall i :: 0 <= i < |r| ==> r[i].participants == ParticipantsOf(s, r[i].room.id)
    ensures forall x :: multiset(RoomsOf(r))[x] == if IsMember(s, x.id, userId) then multiset(s.rooms)[x] else 0
  {
    WithParticipants(s, Filter(s.rooms, (x: Room) => IsMember(s, x.id, userId)))
  }

  /** The rooms the user is not a participant of. */
  function NotJoinedRooms(s: Store, userId: Id): (r: seq<RoomWithParticipants>)
    ensures forall x :: x in RoomsOf(r) <==> x in s.rooms && !IsMember(s, x.id, userId)
    ensures forall i :: 0 <= i < |r| ==> r[i].participants == ParticipantsOf(s, r[i].room.id)
    ensures forall x :: multiset(RoomsOf(r))[x] == if IsMember(s, x.id, userId) then 0 else multiset(s.rooms)[x]
  {
    WithParticipants(s, Filter(s.rooms, (x: Room) => !IsMember(s, x.id, userId)))
  }

  /**
    In a well-formed store, `getJoinedRooms` as written returns nothing
    for any registered user: participant ids and user ids are never equal.
   */
  lemma JoinedRoomsAsWrittenIsEmpty(s: Store, u: User)
    requires Wf(s) && u in s.users
    ensures GetJoinedRooms(s, u.id) == []
  {
    var r := GetJoinedRooms(s, u.id);
    forall x ensures multiset(RoomsOf(r))[x] == 0 {
      forall p | p in s.participants ensures p.id != u.id {
        assert p.id[0] == 'p' && u.id[0] == 'u';
      }
    }
    assert multiset(RoomsOf(r)) == multiset{};
  }

  /**
    The discrepancy on a concrete store: right after a registered user
    creates a room, the user is its member and the corrected listing shows
    the room, yet `getJoinedRooms` as written returns no room at all.
   */
  lemma CreatorMissingFromJoinedRooms(s: Store, u: User, name: string, isGroup: Option<bool>)
    requires Wf(s) && u in s.users
    ensures var r := CreateRoom(s, u.id, name, isGroup);
      && IsMember(r.store, r.result.value.room.id, u.id)
      && r.result.value.room in RoomsOf(JoinedRooms(r.store, u.id))
      && GetJoinedRooms(r.store, u.id) == []
  {
    var r := CreateRoom(s, u.id, name, isGroup);
    assert r.result.value.room in r.store.rooms;
    JoinedRoomsAsWrittenIsEmpty(r.store, u);
  }

  /**
    `getJoinedAndNotJoinedRooms`: the two lists split all rooms by the
    user's membership, with no room in both and none left out.
   */
  function GetJoinedAndNotJoinedRooms(s: Store, userId: Id): (r: JoinedAndNot)
    ensures forall x :: x in s.rooms ==> (x in RoomsOf(r.joinedRooms) <==> IsMember(s, x.id, userId))
    ensures forall x :: x in s.rooms ==> (x in RoomsOf(r.notJoinedRooms) <==> !IsMember(s, x.id, userId))
    ensures forall x :: x in RoomsOf(r.joinedRooms) ==> x !in RoomsOf(r.notJoinedRooms)
    ensures multiset(RoomsOf(r.joinedRooms)) + multiset(RoomsOf(r.notJoinedRooms)) == multiset(s.rooms)
    ensures |r.joinedRooms| + |r.notJoinedRooms| == |s.rooms|
  {
    var joined := JoinedRooms(s, userId);
    var notJoined := NotJoinedRooms(s, userId);
    assert multiset(RoomsOf(joined)) + multiset(RoomsOf(notJoined)) == multiset(s.rooms);
    assert |multiset(RoomsOf(joined))| + |multiset(RoomsOf(notJoined))| == |multiset(s.rooms)|;
    JoinedAndNot(joined, notJoined)
  }

  /** `getAllRooms`: one (id, name, createdAt) projection per room, newest first. */
  function GetAllRooms(s: Store): (r: seq<RoomSummary>)
    ensures |r| == |s.rooms|
    ensures forall i, j :: 0 <= i < j < |r| ==> r[i].createdAt >= r[j].createdAt
    ensures multiset(r) == multiset(Summaries(s.rooms))
  {
    SortBy(Summaries(s.rooms), NewestFirst)
  }

  /** The projections of the rooms, in table order. */
  function Summaries(rooms: seq<Room>): (r: seq<RoomSummary>)
    ensures |r| == |rooms| && forall i :: 0 <= i < |rooms| ==> r[i] == SummaryOf(rooms[i])
  {
    seq(|rooms|, i requires 0 <= i < |rooms| => SummaryOf(rooms[i]))
  }

  /** Every room is listed by `getAllRooms`, and nothing else is. */
  lemma AllRoomsListed(s: Store)
    ensures forall x :: x in s.rooms ==> SummaryOf(x) in GetAllRooms(s)
    ensures forall y :: y in GetAllRooms(s) ==> exists x :: x in s.rooms && SummaryOf(x) == y
  {
    var r := GetAllRooms(s);
    var all := Summaries(s.rooms);
    forall x | x in s.rooms ensures SummaryOf(x) in r {
      var i :| 0 <= i < |s.rooms| && s.rooms[i] == x;
      assert all[i] in multiset(all);
    }
    forall y | y in r ensures exists x :: x in s.rooms && SummaryOf(x) == y {
      assert y in multiset(all);
      var i :| 0 <= i < |all| && all[i] == y;
      assert s.rooms[i] in s.rooms;
    }
  }

  function SummaryOf(x: Room): RoomSummary {
    RoomSummary(x.id, x.name, x.createdAt)
  }

  function NewestFirst(x: RoomSummary): int {
    -(x.createdAt as int)
  }

  // ------------------------------------------------- users of a room

  /**
    `getRoomUsers`: a plain Error (not NotFound) for an unknown room;
    otherwise one public user projection per participant row of the room,
    in table order.
   */
  function GetRoomUsers(s: Store, roomId: Id): (r: Result<seq<Option<UserSummary>>, Error>)
    ensures r.Err? <==> roomId !in RoomIds(s)
    ensures r.Err? ==> r.error == ServerError("Room not found")
    ensures r.Ok? ==>
      var ps := ParticipantsOf(s, roomId);
      |r.value| == |ps| && forall i :: 0 <= i < |ps| ==> r.value[i] == MapOption(FindUser(s, ps[i].userId), Summary)
  {
    if FindRoom(s, roomId).None? then Err(ServerError("Room not found"))
    else
      var ps := ParticipantsOf(s, roomId);
      Ok(seq(|ps|, i requires 0 <= i < |ps| => MapOption(FindUser(s, ps[i].userId), Summary)))
  }

  /** A registered user is listed among a room's users exactly when a member. */
  lemma RoomUsersAreMembers(s: Store, roomId: Id, u: User)
    requires Wf(s) && roomId in RoomIds(s) && u in s.users
    ensures Some(Summary(u)) in GetRoomUsers(s, roomId).value <==> IsMember(s, roomId, u.id)
  {
    if IsMember(s, roomId, u.id) {
      MemberIsListed(s, roomId, u);
    }
    if Some(Summary(u)) in GetRoomUsers(s, roomId).value {
      ListedIsMember(s, roomId, u);
    }
  }

  lemma MemberIsListed(s: Store, roomId: Id, u: User)
    requires Wf(s) && roomId in RoomIds(s) && u in s.users && IsMember(s, roomId, u.id)
    ensures Some(Summary(u)) in GetRoomUsers(s, roomId).value
  {
    var ps := ParticipantsOf(s, roomId);
    var p :| p in s.participants && p.roomId == roomId && p.userId == u.id;
    assert p in ps;
    var i :| 0 <= i < |ps| && ps[i] == p;
    var found := FindUser(s, u.id);
    UniqueKeyDetermines(s.users, UserId, found.value, u);
    assert GetRoomUsers(s, roomId).value[i] == Some(Summary(u));
  }

  lemma ListedIsMember(s: Store, roomId: Id, u: User)
    requires roomId in RoomIds(s) && Some(Summary(u)) in GetRoomUsers(s, roomId).value
    ensures IsMember(s, roomId, u.id)
  {
    var users := GetRoomUsers(s, roomId).value;
    var ps := ParticipantsOf(s, roomId);
    var i :| 0 <= i < |users| && users[i] == Some(Summary(u));
    assert ps[i] in ps;
  }

  // ------------------------------------------------------- messages

  /**
    `getRoomMessages`: Forbidden for a user without a participant row in
    the room; otherwise the room's messages in `createdAt` order, each
    with the sender's id and username.
   */
  function GetRoomMessages(s: Store, roomId: Id, userId: Id): (r: Result<seq<WithSender<SenderView>>, Error>)
    ensures r.Err? <==> !IsMember(s, roomId, userId)
    ensures r.Err? ==> r.error == Forbidden("You are not part of this room")
    ensures r.Ok? ==> SortedBy(Bodies(r.value), CreatedAt)
    ensures r.Ok? ==> forall m :: multiset(Bodies(r.value))[m] == if m.roomId == roomId then multiset(s.messages)[m] else 0
    ensures r.Ok? ==> forall i :: 0 <= i < |r.value| ==> r.value[i].sender == MapOption(FindUser(s, r.value[i].message.senderId), PublicSender)
  {
    if FindParticipant(s, roomId, userId).None? then Err(Forbidden("You are not part of this room"))
    else
      var sorted := SortBy(InRoom(s, roomId), CreatedAt);
      var r := WithSenders(s, sorted, PublicSender);
      assert forall i :: 0 <= i < |r| ==> r[i].message == sorted[i];
      Ok(r)
  }

  /**
    `sendMessage`: a plain Error when the user id is falsy (here: empty);
    otherwise exactly one new message with the given content, room and
    sender, returned with the sender's id and username. There is no check
    that the sender is a member of the room, nor that the room exists.
   */
  function SendMessage(s: Store, roomId: Id, userId: Id, content: string): (r: Step<WithSender<SenderView>>)
    ensures r.result.Err? <==> userId == ""
    ensures r.result.Err? ==> r.result.error == ServerError("userId is required") && r.store == s
    ensures r.result.Ok? ==> var m := r.result.value.message;
      && m.content == content && m.roomId == roomId && m.senderId == userId
      && r.store.messages == s.messages + [m]
      && r.store.users == s.users && r.store.rooms == s.rooms && r.store.participants == s.participants
      && r.result.value.sender == MapOption(FindUser(s, userId), PublicSender)
    ensures Wf(s) ==> Wf(r.store)
  {
    if userId == "" then Step(Err(ServerError("userId is required")), s)
    else
      var (m, s') := AppendMessage(s, content, userId, roomId);
      Step(Ok(WithSender(m, MapOption(FindUser(s', userId), PublicSender))), s')
  }

  /** Any non-empty user id may post into any room, member or not. */
  lemma SendMessageIgnoresMembership(s: Store, roomId: Id, userId: Id, content: string)
    requires userId != "" && !IsMember(s, roomId, userId)
    ensures SendMessage(s, roomId, userId, content).result.Ok?
    ensures !GetRoomMessages(SendMessage(s, roomId, userId, content).store, roomId, userId).Ok?
  {
  }

  /** A sent message is visible afterwards to every member of its room. */
  lemma SentMessageIsRead(s: Store, roomId: Id, userId: Id, content: string, reader: Id)
    requires userId != "" && IsMember(s, roomId, reader)
    ensures var r := SendMessage(s, roomId, userId, content);
      var read := GetRoomMessages(r.store, roomId, reader);
      read.Ok? && r.result.value.message in Bodies(read.value)
  {
    var r := SendMessage(s, roomId, userId, content);
    var m := r.result.value.message;
    var read := GetRoomMessages(r.store, roomId, reader);
    assert IsMember(r.store, roomId, reader);
    assert m in r.store.messages;
    assert multiset(Bodies(read.value))[m] > 0;
  }

  /**
    The room service's own `createMessage`: one new message from `userId`,
    returned with the full sender row. No check of any kind.
   */
  function CreateMessage(s: Store, userId: Id, roomId: Id, content: string): (r: Step<WithSender<User>>)
    ensures r.result.Ok?
    ensures var m := r.result.value.message;
      && m.content == content && m.roomId == roomId && m.senderId == userId
      && r.store.messages == s.messages + [m]
      && r.store.users == s.users && r.store.rooms == s.rooms && r.store.participants == s.participants
      && r.result.value.sender == FindUser(s, userId)
    ensures Wf(s) ==> Wf(r.store)
  {
    var (m, s') := AppendMessage(s, content, userId, roomId);
    Step(Ok(WithSender(m, FindUser(s', userId))), s')
  }

  /** A message created through the room service is listed for its room afterwards. */
  lemma CreatedMessageIsListed(s: Store, userId: Id, roomId: Id, content: string)
    ensures var r := CreateMessage(s, userId, roomId, content);
      r.result.value.message in Bodies(GetMessagesByRoom(r.store, roomId))
  {
    var r := CreateMessage(s, userId, roomId, content);
    var m := r.result.value.message;
    assert m in r.store.messages;
    assert multiset(Bodies(GetMessagesByRoom(r.store, roomId)))[m] > 0;
  }

  /**
    The room service's `getMessagesByRoom` reads the same rows as the
    message service's `getMessagesByRoomId`; for a member of the room it
    lists the same messages, in the same order, as `getRoomMessages`.
   */
  function GetMessagesByRoom(s: Store, roomId: Id): (r: seq<WithSender<User>>)
    ensures SortedBy(Bodies(r), CreatedAt)
    ensures forall m :: multiset(Bodies(r))[m] == if m.roomId == roomId then multiset(s.messages)[m] else 0
    ensures forall userId :: IsMember(s, roomId, userId) ==>
      GetRoomMessages(s, roomId, userId).Ok? && Bodies(GetRoomMessages(s, roomId, userId).value) == Bodies(r)
  {
    Messages.GetMessagesByRoomId(s, roomId)
  }
}
