/**
  The relational store behind the chat services: four tables (users,
  rooms, participants, messages) held as immutable sequences in insertion
  order, a counter that mints fresh row ids and a monotone clock that
  stamps `createdAt`. Every service operation is a pure function from one
  store to the next.
 */
module Store {
  import opened Wrappers
  import opened Tables

  /** Row keys. The database generates them; only their freshness matters. */
  type Id = string

  datatype User = User(id: Id, username: string, email: string, password: string)
  datatype Room = Room(id: Id, name: string, isGroup: bool, createdAt: nat)
  /** Membership edge between a user and a room. */
  datatype Participant = Participant(id: Id, userId: Id, roomId: Id)
  datatype Message = Message(id: Id, content: string, senderId: Id, roomId: Id, createdAt: nat)

  datatype Store = Store(
    users: seq<User>,
    rooms: seq<Room>,
    participants: seq<Participant>,
    messages: seq<Message>,
    nextId: nat,
    clock: nat)

  /** The public projection of a user: no password, no hash. */
  datatype UserSummary = UserSummary(id: Id, username: string, email: string)
  /** The sender projection `select: { id, username }`. */
  datatype SenderView = SenderView(id: Id, username: string)
  /** A message with its `sender` relation included, projected to `S`. */
  datatype WithSender<S> = WithSender(message: Message, sender: Option<S>)
  /** A room with its `participants` relation included. */
  datatype RoomWithParticipants = RoomWithParticipants(room: Room, participants: seq<Participant>)

  /** The exceptions the services throw, by the HTTP status they map to. */
  datatype Error =
    | BadRequest(msg: string)     // 400
    | Unauthorized(msg: string)   // 401
    | Forbidden(msg: string)      // 403
    | NotFound(msg: string)       // 404
    | ServerError(msg: string)    // a plain `Error`: 500

  /** The outcome of a writing operation: its result and the store after it. */
  datatype Step<T> = Step(result: Result<T, Error>, store: Store)

  const Empty := Store([], [], [], [], 0, 0)

  // ---------------------------------------------------------------- ids

  /**
    The id minted from counter value `n` for a table tagged `tag`. Ids of
    different tables never collide (the tag) and a later id is never equal
    to an earlier one (its length).
   */
  function MintId(tag: char, n: nat): (id: Id)
    ensures |id| == n + 1 && id[0] == tag
  {
    [tag] + seq(n, _ => '0')
  }

  /** `id` was minted for table `tag` before the counter reached `bound`. */
  predicate Minted(tag: char, id: Id, bound: nat) {
    0 < |id| <= bound && id[0] == tag
  }

  function UserId(u: User): Id { u.id }
  function Email(u: User): string { u.email }
  function Username(u: User): string { u.username }
  function RoomId(r: Room): Id { r.id }
  function MessageId(m: Message): Id { m.id }
  function ParticipantId(p: Participant): Id { p.id }
  function MembershipKey(p: Participant): (Id, Id) { (p.roomId, p.userId) }
  function CreatedAt(m: Message): int { m.createdAt }

  function RoomIds(s: Store): set<Id> {
    set r | r in s.rooms :: r.id
  }

  // ---------------------------------------------------------- invariant

  /**
    The invariant every reachable store keeps: ids are fresh per table and
    unique, no two users share an email or a username, a user has at most
    one participant row per room, every participant row names a room, and
    every stored timestamp lies before the clock.
   */
  ghost predicate Wf(s: Store) {
    && (forall u :: u in s.users ==> Minted('u', u.id, s.nextId))
    && (forall r :: r in s.rooms ==> Minted('r', r.id, s.nextId))
    && (forall p :: p in s.participants ==> Minted('p', p.id, s.nextId))
    && (forall m :: m in s.messages ==> Minted('m', m.id, s.nextId))
    && (forall r :: r in s.rooms ==> r.createdAt < s.clock)
    && (forall m :: m in s.messages ==> m.createdAt < s.clock)
    && Unique(s.users, UserId)
    && Unique(s.rooms, RoomId)
    && Unique(s.messages, MessageId)
    && Unique(s.users, Email)
    && Unique(s.users, Username)
    && Unique(s.participants, ParticipantId)
    && Unique(s.participants, MembershipKey)
    && (forall p :: p in s.participants ==> p.roomId in RoomIds(s))
  }

  /** The empty database is well formed. */
  lemma EmptyIsWf()
    ensures Wf(Empty)
  {
  }

  // ------------------------------------------------------------ queries

  /** `user.findUnique({ where: { id } })`. */
  function FindUser(s: Store, id: Id): (r: Option<User>)
    ensures r.Some? ==> r.value in s.users && r.value.id == id
    ensures r.None? <==> forall u :: u in s.users ==> u.id != id
  {
    FindFirst(s.users, (u: User) => u.id == id)
  }

  /** `room.findUnique({ where: { id } })`. */
  function FindRoom(s: Store, id: Id): (r: Option<Room>)
    ensures r.Some? ==> r.value in s.rooms && r.value.id == id
    ensures r.None? <==> id !in RoomIds(s)
  {
    FindFirst(s.rooms, (r: Room) => r.id == id)
  }

  /** The user has a participant row in the room. */
  predicate IsMember(s: Store, roomId: Id, userId: Id) {
    exists p :: p in s.participants && p.roomId == roomId && p.userId == userId
  }

  /** `participant.findFirst({ where: { roomId, userId } })`. */
  function FindParticipant(s: Store, roomId: Id, userId: Id): (r: Option<Participant>)
    ensures r.Some? <==> IsMember(s, roomId, userId)
    ensures r.Some? ==> r.value in s.participants && r.value.roomId == roomId && r.value.userId == userId
  {
    FindFirst(s.participants, (p: Participant) => p.roomId == roomId && p.userId == userId)
  }

  /** The participant rows of a room, in table order. */
  function ParticipantsOf(s: Store, roomId: Id): (r: seq<Participant>)
    ensures forall p :: p in r <==> p in s.participants && p.roomId == roomId
  {
    Filter(s.participants, (p: Participant) => p.roomId == roomId)
  }

  /** `message.findMany({ where: { roomId } })` before ordering. */
  function InRoom(s: Store, roomId: Id): (r: seq<Message>)
    ensures forall m :: multiset(r)[m] == if m.roomId == roomId then multiset(s.messages)[m] else 0
  {
    Filter(s.messages, (m: Message) => m.roomId == roomId)
  }

  function Summary(u: User): UserSummary {
    UserSummary(u.id, u.username, u.email)
  }

  function PublicSender(u: User): SenderView {
    SenderView(u.id, u.username)
  }

  /** The messages of a sequence with their sender included as `project` shows it. */
  function WithSenders<S>(s: Store, ms: seq<Message>, project: User -> S): (r: seq<WithSender<S>>)
    ensures Bodies(r) == ms
    ensures forall i :: 0 <= i < |r| ==> r[i].sender == MapOption(FindUser(s, ms[i].senderId), project)
  {
    var r := seq(|ms|, i requires 0 <= i < |ms| => WithSender(ms[i], MapOption(FindUser(s, ms[i].senderId), project)));
    assert Bodies(r) == ms;
    r
  }

  /** The bare messages of a sequence of messages with senders. */
  function Bodies<S>(vs: seq<WithSender<S>>): (r: seq<Message>)
    ensures |r| == |vs| && forall i :: 0 <= i < |vs| ==> r[i] == vs[i].message
  {
    seq(|vs|, i requires 0 <= i < |vs| => vs[i].message)
  }

  /** Each room together with its participant rows. */
  function WithParticipants(s: Store, rooms: seq<Room>): (r: seq<RoomWithParticipants>)
    ensures RoomsOf(r) == rooms
    ensures forall i :: 0 <= i < |r| ==> r[i].participants == ParticipantsOf(s, rooms[i].id)
  {
    var r := seq(|rooms|, i requires 0 <= i < |rooms| => RoomWithParticipants(rooms[i], ParticipantsOf(s, rooms[i].id)));
    assert RoomsOf(r) == rooms;
    r
  }

  function RoomsOf(vs: seq<RoomWithParticipants>): (r: seq<Room>)
    ensures |r| == |vs| && forall i :: 0 <= i < |vs| ==> r[i] == vs[i].room
  {
    seq(|vs|, i requires 0 <= i < |vs| => vs[i].room)
  }

  // ------------------------------------------------------------- writes

  /** `message.create` with the given fields: one row, fresh id, current clock. */
  function AppendMessage(s: Store, content: string, senderId: Id, roomId: Id): (r: (Message, Store))
    ensures r.0.content == content && r.0.senderId == senderId && r.0.roomId == roomId
    ensures Wf(s) ==> forall x :: x in s.messages ==> x.id != r.0.id
    ensures Wf(s) ==> forall x :: x in s.messages ==> x.createdAt < r.0.createdAt
    ensures r.1 == s.(messages := s.messages + [r.0], nextId := r.1.nextId, clock := r.1.clock)
    ensures r.1.clock > s.clock && r.1.nextId > s.nextId
    ensures Wf(s) ==> Wf(r.1)
  {
    var m := Message(MintId('m', s.nextId), content, senderId, roomId, s.clock);
    var s' := s.(messages := s.messages + [m], nextId := s.nextId + 1, clock := s.clock + 1);
    assert Wf(s) ==> Wf(s') by {
      if Wf(s) {
        UniqueAppend(s.messages, m, MessageId);
      }
    }
    (m, s')
  }
}
