/**
  The message service: creating a message row and reading a room's
  messages in `createdAt` order with the full sender row included.
 */
module Messages {
  import opened Wrappers
  import opened Sorting
  import opened Store

  /**
    `createMessage`: appends exactly one message carrying the given
    content, sender and room; users, rooms and participants are untouched.
    Nothing is checked: not the sender, not the room, not membership.
   */
  function CreateMessage(s: Store, content: string, senderId: Id, roomId: Id): (r: Step<Message>)
    ensures r.result.Ok?
    ensures var m := r.result.value;
      && m.content == content && m.senderId == senderId && m.roomId == roomId
      && r.store.messages == s.messages + [m]
      && r.store.users == s.users && r.store.rooms == s.rooms && r.store.participants == s.participants
    ensures Wf(s) ==> Wf(r.store)
    ensures Wf(s) ==> forall x :: x in s.messages ==> x.createdAt < r.result.value.createdAt
  {
    var (m, s') := AppendMessage(s, content, senderId, roomId);
    Step(Ok(m), s')
  }

  /**
    `getMessagesByRoomId`: the room's messages ordered by `createdAt`
    ascending, each with its sender row. The bodies are exactly the
    stored messages of that room, each as often as stored.
   */
  function GetMessagesByRoomId(s: Store, roomId: Id): (r: seq<WithSender<User>>)
    ensures SortedBy(Bodies(r), CreatedAt)
    ensures forall m :: multiset(Bodies(r))[m] == if m.roomId == roomId then multiset(s.messages)[m] else 0
    ensures forall i :: 0 <= i < |r| ==> r[i].sender == FindUser(s, r[i].message.senderId)
  {
    var sorted := SortBy(InRoom(s, roomId), CreatedAt);
    var r := WithSenders(s, sorted, (u: User) => u);
    assert forall i :: 0 <= i < |r| ==> r[i].message == sorted[i];
    r
  }

  /** A message is listed for a room exactly when it is stored with that room id. */
  lemma ListedIffStored(s: Store, roomId: Id, m: Message)
    ensures m in Bodies(GetMessagesByRoomId(s, roomId)) <==> m in s.messages && m.roomId == roomId
  {
    var b := Bodies(GetMessagesByRoomId(s, roomId));
    assert m in b <==> multiset(b)[m] > 0;
    assert m in s.messages <==> multiset(s.messages)[m] > 0;
  }

  /** A created message is listed for its room afterwards, and for no other room. */
  lemma CreatedMessageIsListed(s: Store, content: string, senderId: Id, roomId: Id, other: Id)
    ensures var r := CreateMessage(s, content, senderId, roomId);
      && r.result.value in Bodies(GetMessagesByRoomId(r.store, roomId))
      && (other != roomId ==> r.result.value !in Bodies(GetMessagesByRoomId(r.store, other)))
  {
    var r := CreateMessage(s, content, senderId, roomId);
    assert r.result.value in r.store.messages;
    ListedIffStored(r.store, roomId, r.result.value);
    ListedIffStored(r.store, other, r.result.value);
  }

  /**
    In a well-formed store a new message is stamped after every stored
    one, so the room's listing shows it last.
   */
  lemma NewMessageIsLast(s: Store, content: string, senderId: Id, roomId: Id)
    requires Wf(s)
    ensures var r := CreateMessage(s, content, senderId, roomId);
      EndsWith(Bodies(GetMessagesByRoomId(r.store, roomId)), r.result.value)
  {
    var r := CreateMessage(s, content, senderId, roomId);
    assert r.result.value in r.store.messages;
    NewestIsLast(r.store, roomId, r.result.value);
  }

  /** The stored message of a room stamped strictly after every other is listed last. */
  lemma NewestIsLast(s: Store, roomId: Id, m: Message)
    requires m in s.messages && m.roomId == roomId
    requires forall y :: y in s.messages && y != m ==> y.createdAt < m.createdAt
    ensures EndsWith(Bodies(GetMessagesByRoomId(s, roomId)), m)
  {
    ListedAreStored(s, roomId);
    LatestIsLast(Bodies(GetMessagesByRoomId(s, roomId)), s.messages, roomId, m);
  }

  /** An ordered listing of a room's stored messages ends with the room's latest one. */
  lemma LatestIsLast(listed: seq<Message>, stored: seq<Message>, roomId: Id, m: Message)
    requires SortedBy(listed, CreatedAt)
    requires forall y :: y in listed <==> y in stored && y.roomId == roomId
    requires m in stored && m.roomId == roomId
    requires forall y :: y in stored && y != m ==> y.createdAt < m.createdAt
    ensures EndsWith(listed, m)
  {
    StrictMaxIsLast(listed, CreatedAt, m);
  }

  /** `ListedIffStored` for every message at once. */
  lemma ListedAreStored(s: Store, roomId: Id)
    ensures forall y :: y in Bodies(GetMessagesByRoomId(s, roomId)) <==> y in s.messages && y.roomId == roomId
  {
    forall y ensures y in Bodies(GetMessagesByRoomId(s, roomId)) <==> y in s.messages && y.roomId == roomId {
      ListedIffStored(s, roomId, y);
    }
  }
}
