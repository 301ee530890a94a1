/**
  The end-to-end chat scenario: Alice registers and creates a room, Bob
  registers and joins it, Alice posts a message, Bob reads it with Alice
  as its sender, Bob leaves and is then refused the room's messages.
 */
module Scenario {
  import opened Wrappers
  import opened Store
  import opened Auth
  import opened Rooms

  /**
    The first steps: Alice registers and creates a room, Bob registers.
    Afterwards Alice is the room's member, Bob is not, and the id lookup
    finds Alice's row.
   */
  lemma Setup(s0: Store, c: Crypto, saltA: string, saltB: string,
              alice: string, aliceEmail: string, bob: string, bobEmail: string, room: string)
    requires Wf(s0)
    requires !Taken(s0, alice, aliceEmail) && !Taken(s0, bob, bobEmail)
    requires alice != bob && aliceEmail != bobEmail
    ensures
      var s1 := Register(s0, c, saltA, alice, aliceEmail, "pw");
      var a := s1.result.value.user.id;
      var s2 := CreateRoom(s1.store, a, room, None);
      var rid := s2.result.value.room.id;
      var s3 := Register(s2.store, c, saltB, bob, bobEmail, "pw");
      var b := if s3.result.Ok? then s3.result.value.user.id else "";
      && s1.result.Ok? && s3.result.Ok? && a != b
      && Wf(s3.store)
      && IsMember(s2.store, rid, a) && IsMember(s3.store, rid, a) && !IsMember(s3.store, rid, b)
      && rid in RoomIds(s3.store)
      && FindUser(s3.store, a).Some? && FindUser(s3.store, a).value.username == alice
  {
    var s1 := Register(s0, c, saltA, alice, aliceEmail, "pw");
    var a := s1.result.value.user.id;
    var s2 := CreateRoom(s1.store, a, room, None);
    var rid := s2.result.value.room.id;
    var ua := User(a, alice, aliceEmail, c.hash("pw", SaltRounds, saltA));
    assert ua in s1.store.users;
    assert !Taken(s2.store, bob, bobEmail) by {
      assert s2.store.users == s0.users + [ua];
    }
    var s3 := Register(s2.store, c, saltB, bob, bobEmail, "pw");
    assert s3.store.participants == s2.store.participants;
    assert s2.result.value.room in s3.store.rooms;
    assert ua in s3.store.users;
    var found := FindUser(s3.store, a);
    Tables.UniqueKeyDetermines(s3.store.users, UserId, found.value, ua);
  }

  /**
    The later steps, in any well-formed store where Alice is a member of
    the room and Bob is not: Bob joins, Alice posts, Bob reads the post
    with Alice as its sender, Bob leaves and is refused the messages.
   */
  lemma JoinPostReadLeave(s3: Store, rid: Id, a: Id, b: Id, alice: string, text: string)
    requires Wf(s3) && rid in RoomIds(s3) && a != "" && a != b
    requires IsMember(s3, rid, a) && !IsMember(s3, rid, b)
    requires FindUser(s3, a).Some? && FindUser(s3, a).value.username == alice
    ensures
      var s4 := JoinRoom(s3, rid, b);
      var s5 := SendMessage(s4.store, rid, a, text);
      var read := GetRoomMessages(s5.store, rid, b);
      var s6 := LeaveRoom(s5.store, rid, b);
      && s4.result == Ok(Joined("Joined room successfully", rid))
      && read.Ok?
      && (exists v :: v in read.value && v.message.content == text
                      && v.sender == Some(SenderView(a, alice)))
      && s6.result.Ok?
      && GetRoomMessages(s6.store, rid, b) == Err(Forbidden("You are not part of this room"))
  {
    var s4 := JoinRoom(s3, rid, b);
    assert s4.store.users == s3.users;
    PostIsReadWithSender(s4.store, rid, a, b, alice, text);
    var s5 := SendMessage(s4.store, rid, a, text);
    assert s5.store.participants == s4.store.participants;
    LeaveThenRefused(s5.store, rid, b);
  }

  /** A member reads a post together with its sender's public view. */
  lemma PostIsReadWithSender(s: Store, rid: Id, a: Id, b: Id, alice: string, text: string)
    requires a != "" && IsMember(s, rid, b)
    requires FindUser(s, a).Some? && FindUser(s, a).value.username == alice
    ensures
      var s5 := SendMessage(s, rid, a, text);
      var read := GetRoomMessages(s5.store, rid, b);
      && read.Ok?
      && (exists v :: v in read.value && v.message.content == text
                      && v.sender == Some(SenderView(a, alice)))
  {
    var s5 := SendMessage(s, rid, a, text);
    SentMessageIsRead(s, rid, a, text, b);
    var read := GetRoomMessages(s5.store, rid, b);
    var v :| v in read.value && v.message == s5.result.value.message;
    var i :| 0 <= i < |read.value| && read.value[i] == v;
    assert v.sender == Some(SenderView(a, alice));
  }

  /** A member who leaves is refused the room's messages afterwards. */
  lemma LeaveThenRefused(s: Store, rid: Id, b: Id)
    requires Wf(s) && IsMember(s, rid, b)
    ensures
      var s6 := LeaveRoom(s, rid, b);
      && s6.result.Ok?
      && GetRoomMessages(s6.store, rid, b) == Err(Forbidden("You are not part of this room"))
  {
  }

  /** The whole scenario, from any well-formed store where both names are free. */
  lemma ChatScenario(s0: Store, c: Crypto, saltA: string, saltB: string,
                     alice: string, aliceEmail: string, bob: string, bobEmail: string,
                     room: string, text: string)
    requires Wf(s0)
    requires !Taken(s0, alice, aliceEmail) && !Taken(s0, bob, bobEmail)
    requires alice != bob && aliceEmail != bobEmail
    ensures
      var s1 := Register(s0, c, saltA, alice, aliceEmail, "pw");
      var a := s1.result.value.user.id;
      var s2 := CreateRoom(s1.store, a, room, None);
      var rid := s2.result.value.room.id;
      var s3 := Register(s2.store, c, saltB, bob, bobEmail, "pw");
      var b := if s3.result.Ok? then s3.result.value.user.id else "";
      var s4 := JoinRoom(s3.store, rid, b);
      var s5 := SendMessage(s4.store, rid, a, text);
      var read := GetRoomMessages(s5.store, rid, b);
      var s6 := LeaveRoom(s5.store, rid, b);
      && s1.result.Ok? && s3.result.Ok? && a != b
      && IsMember(s2.store, rid, a)
      && s4.result == Ok(Joined("Joined room successfully", rid))
      && read.Ok?
      && (exists v :: v in read.value && v.message.content == text
                      && v.sender == Some(SenderView(a, alice)))
      && s6.result.Ok?
      && GetRoomMessages(s6.store, rid, b) == Err(Forbidden("You are not part of this room"))
  {
    Setup(s0, c, saltA, saltB, alice, aliceEmail, bob, bobEmail, room);
    var s1 := Register(s0, c, saltA, alice, aliceEmail, "pw");
    var a := s1.result.value.user.id;
    var s2 := CreateRoom(s1.store, a, room, None);
    var rid := s2.result.value.room.id;
    var s3 := Register(s2.store, c, saltB, bob, bobEmail, "pw");
    var b := s3.result.value.user.id;
    assert a != "" by {
      assert FindUser(s3.store, a).value in s3.store.users;
    }
    JoinPostReadLeave(s3.store, rid, a, b, alice, text);
  }
}
