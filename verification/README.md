# chatloop backend services: a Dafny model

This project models the core logic of the chatloop backend: its three service classes.
- `RoomService`: rooms, membership and room messages.
- `AuthService`: register and login.
- `MessageService`: creating and reading messages.

The services talk to a relational database through an ORM. Each method is a small
transition over four tables: users, rooms, participants (membership rows) and messages.

The database is modelled as an immutable `Store` value (`store.dfy`):
- each table is a sequence of rows in insertion order;
- `nextId` is a counter from which fresh row ids are minted;
- `clock` is a monotone counter that stamps `createdAt`.

Every service method becomes a pure function.
- A method that writes returns a `Step(result, store)`: its result (a value, or the
  exception it throws) and the store after it.
- A read-only method returns only its result, so it leaves the store unchanged by
  construction.

The exceptions are the `Error` constructors:
- `BadRequest` (400)
- `Unauthorized` (401)
- `Forbidden` (403)
- `NotFound` (404)
- `ServerError` (a plain `Error`, which surfaces as 500)

Each constructor carries the source's message text.

The foreign code is passed in as the function fields of a `Crypto` value:
- bcrypt's `hash` and `compare`;
- the JWT signer `signAsync`.

Only one property of them is assumed, and only where a lemma needs it. `Sound(c)` says
that a password matches its own hash, for every salt. bcrypt's random salt is an explicit
argument of `Register`. The cost factor 10 is the constant `SaltRounds`.

A well-formedness invariant `Wf` holds in the empty store and is kept by every writing
operation. It states:
- ids are fresh per table;
- room, participant and message ids are unique;
- users have unique ids, emails and usernames;
- there is at most one participant row per (room, user);
- every participant row names an existing room;
- every room's and message's `createdAt` lies before the clock.

Ids are strings minted as a table tag followed by the counter value in unary. That makes
ids of different tables distinct, and makes every new id distinct from all older ones. It
stands for the database's generated keys.

Files:
- `wrappers.dfy`: `Option` and `Result`.
- `tables.dfy`: `findFirst`- and `findMany`-shaped queries, and unique key columns.
- `sorting.dfy`: `orderBy` as a stable insertion sort.
- `store.dfy`: rows, the store, `Wf`, and shared queries and writes.
- `auth.dfy`: `AuthService`.
- `messages.dfy`: `MessageService`.
- `rooms.dfy`: `RoomService`.
- `scenario.dfy`: an end-to-end chat scenario over these operations.

## Behaviour as written

Points where the services treat similar cases differently, modelled as the code has them:
- `getRoomMessages` refuses a non-member with `Forbidden`
  (chatloop-backend/src/room/room.service.ts:124-126). `sendMessage` has no such check
  (chatloop-backend/src/room/room.service.ts:146-168). It fails only when `userId` is falsy
  (line 149), which the model writes as the empty string. `Rooms.SendMessageIgnoresMembership`
  shows a non-member posting successfully and still being refused on read.
- `Auth.Register` signals a taken email or username with `BadRequest` ("User already exists"),
  which surfaces as HTTP 400.
- `Rooms.GetRoomUsers` throws a plain `Error` for an unknown room (line 91). `joinRoom` throws
  `NotFound` in the same situation (line 35).
- `Rooms.GetJoinedRooms` filters on the participant row's own id, while
  `getJoinedAndNotJoinedRooms` filters on `userId` (see Findings).
- The services perform no existence check on referenced rows before `CreateRoom`,
  `JoinRoom` (for the user), `SendMessage` and both `CreateMessage`s. The model accepts any
  id there, because the database's foreign keys are left out.

## Model

| member | source | states |
|---|---|---|
| Auth.Register | chatloop-backend/src/auth/auth.service.ts:17-46 | fails with BadRequest "User already exists", store unchanged, exactly when some user has the email or the username; otherwise appends exactly one user whose password column is the bcrypt hash of the password with 10 rounds; returns only (id, username, email); keeps `Wf`, hence email and username uniqueness |
| Auth.DuplicateRegisterFails | chatloop-backend/src/auth/auth.service.ts:20-26 | after a successful registration, a second one with the same email or the same username fails and changes nothing |
| Auth.Login | chatloop-backend/src/auth/auth.service.ts:48-82 | every failure is Unauthorized "Invalid credentials"; an unknown email fails; a success belongs to a stored user with that email whose hash matches the password, carries the token signed over {sub = id, email, username} and the user's public projection |
| Auth.LoginCharacterised | chatloop-backend/src/auth/auth.service.ts:51-81 | in a well-formed store, for the user with that email, login succeeds iff the password matches the stored hash, and then returns exactly that user's signed claims and projection |
| Auth.RegisterThenLogin | chatloop-backend/src/auth/auth.service.ts:28-81 | with a sound hash, logging in with the email and password just registered succeeds and signs the new user's id |
| Messages.CreateMessage | chatloop-backend/src/message/message.service.ts:9-21 | always succeeds; appends exactly one message with the given content, sender and room; users, rooms and participants unchanged; in a well-formed store the new message is stamped after every stored one; keeps `Wf` |
| Messages.GetMessagesByRoomId | chatloop-backend/src/message/message.service.ts:24-32 | the listed messages are in non-decreasing createdAt order and are a permutation of the stored messages of that room; each carries its sender row |
| Messages.ListedIffStored | chatloop-backend/src/message/message.service.ts:24-31 | a message is listed for a room iff it is stored with that room id |
| Messages.CreatedMessageIsListed | chatloop-backend/src/message/message.service.ts:9-31 | a created message is listed for its room afterwards and for no other room |
| Messages.NewMessageIsLast | chatloop-backend/src/message/message.service.ts:9-31 | in a well-formed store, where every write advances the clock, after a message is created its room's listing is non-empty and ends with that message |
| Messages.NewestIsLast | chatloop-backend/src/message/message.service.ts:24-31 | a stored message of the room stamped strictly after every other stored message is the last one listed |
| Store.AppendMessage | chatloop-backend/src/message/message.service.ts:14-20 | a message insert adds one row with a fresh id, the given fields and a later clock; in a well-formed store the new row is stamped after every stored message; keeps `Wf` |
| Store.FindRoom | chatloop-backend/src/room/room.service.ts:30-32 | the room lookup finds a room with that id iff one is stored |
| Store.FindParticipant | chatloop-backend/src/room/room.service.ts:98-103 | the (roomId, userId) lookup finds a row iff the user is a member of the room, and the row it finds matches both |
| Tables.RemoveByUniqueKey | chatloop-backend/src/room/room.service.ts:109-113 | deleting by a unique id that a row carries removes exactly that row from the table's multiset |
| Sorting.SortBy | chatloop-backend/src/room/room.service.ts:128-134 | ordering by a key yields a non-decreasing permutation of the input |
| Rooms.CreateRoom | chatloop-backend/src/room/room.service.ts:8-26 | always succeeds; appends exactly one room with the given name, with isGroup true only when given as true, and exactly one participant row linking it to the caller; users and messages unchanged; in a well-formed store the room id is new and the caller is the room's only member |
| Rooms.NewRoomKeepsWf | chatloop-backend/src/room/room.service.ts:11-21 | the nested room and participant write keeps `Wf`, and no older participant row points at the new room |
| Rooms.JoinRoom | chatloop-backend/src/room/room.service.ts:29-55 | fails with NotFound "Room not found", store unchanged, iff the room does not exist; a member gets "User already joined the room" and no write; otherwise exactly one participant row (roomId, userId) is appended; on success the user is a member afterwards; keeps `Wf` |
| Rooms.JoinIdempotent | chatloop-backend/src/room/room.service.ts:38-54 | joining twice leaves the same store as joining once, and the second join answers "already joined" |
| Rooms.LeaveRoom | chatloop-backend/src/room/room.service.ts:97-114 | fails with NotFound "User is not part of this room", store unchanged, iff the user has no row in the room; otherwise returns a matching row and changes only the participants table; in a well-formed store exactly that row is removed and the user is no longer a member; keeps `Wf` |
| Rooms.DeleteKeepsWf | chatloop-backend/src/room/room.service.ts:109-113 | deleting the found row by its id keeps `Wf`, removes exactly that row and leaves the user no row in the room |
| Rooms.LeaveThenJoin | chatloop-backend/src/room/room.service.ts:38-113 | after a successful leave the user is not a member, and joining again succeeds with "Joined room successfully" and restores membership |
| Rooms.GetJoinedRooms | chatloop-backend/src/room/room.service.ts:57-70 | as written: a room is listed iff some participant row of it has an id equal to the given user id; each room comes with its participant rows |
| Rooms.CreatorMissingFromJoinedRooms | chatloop-backend/src/room/room.service.ts:57-70 | right after a registered user creates a room, the user is its member and the intended listing holds the room, yet the listing as written is empty |
| Rooms.JoinedRooms | chatloop-backend/src/room/room.service.ts:211-220 | a room is listed iff the user has a participant row in it, each as often as stored, with its participant rows |
| Rooms.NotJoinedRooms | chatloop-backend/src/room/room.service.ts:223-232 | a room is listed iff the user has no participant row in it, each as often as stored, with its participant rows |
| Rooms.GetJoinedAndNotJoinedRooms | chatloop-backend/src/room/room.service.ts:209-238 | the two lists are disjoint; together, as a multiset, they are exactly all rooms; a room is in the joined list iff the user is a member, and in the other iff not |
| Rooms.GetAllRooms | chatloop-backend/src/room/room.service.ts:198-207 | the (id, name, createdAt) projections of all rooms, one per room, as a permutation, ordered by createdAt descending |
| Rooms.AllRoomsListed | chatloop-backend/src/room/room.service.ts:198-206 | every room's projection is listed by `getAllRooms`, and every listed entry is some room's projection |
| Rooms.GetRoomUsers | chatloop-backend/src/room/room.service.ts:72-95 | fails with a plain Error "Room not found" iff the room does not exist; otherwise one public user projection (id, username, email) per participant row of the room |
| Rooms.RoomUsersAreMembers | chatloop-backend/src/room/room.service.ts:72-94 | in a well-formed store, a registered user's projection is among the room's users iff the user is a member |
| Rooms.GetRoomMessages | chatloop-backend/src/room/room.service.ts:116-144 | fails with Forbidden "You are not part of this room" iff the user has no row in the room; otherwise the room's messages in non-decreasing createdAt order, a permutation of the stored messages of that room, each with the sender's (id, username) |
| Rooms.SendMessage | chatloop-backend/src/room/room.service.ts:146-168 | fails with a plain Error "userId is required", store unchanged, iff the user id is empty; otherwise appends exactly one message with the given content, room and sender and returns it with the sender's (id, username); keeps `Wf` |
| Rooms.SendMessageIgnoresMembership | chatloop-backend/src/room/room.service.ts:146-168 | a non-member with a non-empty id posts successfully, though the same user may not read the room's messages |
| Rooms.SentMessageIsRead | chatloop-backend/src/room/room.service.ts:116-168 | a sent message is among the messages every member of the room reads afterwards |
| Rooms.CreateMessage | chatloop-backend/src/room/room.service.ts:181-196 | always succeeds; appends exactly one message with the given content, room and sender and returns it with the full sender row; keeps `Wf` |
| Rooms.CreatedMessageIsListed | chatloop-backend/src/room/room.service.ts:171-196 | a message created by the room service's `createMessage` is listed afterwards by its `getMessagesByRoom` for that room |
| Rooms.GetMessagesByRoom | chatloop-backend/src/room/room.service.ts:171-179 | the room's messages in non-decreasing createdAt order, a permutation of its stored messages; for any member, the same messages as the member-gated read (in the same order in the model, which orders both with one stable sort) |
| Scenario.JoinPostReadLeave | chatloop-backend/src/room/room.service.ts:29-168 | where Alice is a member and Bob is not, Bob joins, reads Alice's later post with Alice's (id, username) as sender, leaves, and is then refused with Forbidden |
| Scenario.PostIsReadWithSender | chatloop-backend/src/room/room.service.ts:117-168 | after any non-empty user id posts, a member's read succeeds and contains a message with that content whose sender is the poster's (id, username) |
| Scenario.ChatScenario | chatloop-backend/src/room/room.service.ts:8-168 | Alice registers (`register`, chatloop-backend/src/auth/auth.service.ts:17-46) and creates a room, Bob registers and joins, and Alice posts. Bob then reads the post with Alice's (id, username) as sender. After leaving, Bob is refused with Forbidden |

## Left out

- Foreign-key constraints of the database schema are not modelled; the schema file is not part of this model. The model accepts a participant or message row whose user or room does not exist, and a sender or user lookup then yields `None`.
- The races between check and write are not modelled: check-then-insert in `joinRoom`, check-then-delete in `leaveRoom`. Each operation is atomic here.
- bcrypt's salting and cost function and JWT's signature algorithm are foreign libraries. They are function parameters, constrained only by `Sound`.
- Auth.Login: the signed token's issue and expiry timestamps, which the JWT library adds from the clock, are not part of the signed `Claims`.
- Auth.Register: it cannot be stated that the stored hash differs from the plaintext, because the one-wayness of bcrypt is not modelled.
- Sorting.SortBy: the order of rows with equal `createdAt` is left unspecified, as the database leaves it. The function is stable, but the contract does not promise that.
- Real timestamps are modelled as a monotone counter, and generated uuids as tagged counter-minted strings.
- Messages.NewMessageIsLast: it holds because the model's counter advances on every write, so no two rows share a `createdAt`. The source stamps rows from a millisecond clock, and `orderBy` leaves equal stamps in any order. So the source shows the new post last only when the clock has moved since the previous post. `Messages.NewestIsLast` is the form that holds of the source too.
- Rooms.GetRoomUsers: the source includes participants without `orderBy`, so it promises no order of the listed users. The model lists them in table order and proves that order.
- Store.WithParticipants: each room's included participant rows, and the rooms of `findMany` without `orderBy`, come back in table order in the model. The source promises only which rows come back, not their order. This affects `GetJoinedRooms`, `JoinedRooms` and `NotJoinedRooms`.
- The token guard, `/auth/me`, the controllers and the module wiring are routing only. The guard's token verification is not part of this model. The user id it supplies is an argument.
- An absent user id (`req.user?.sub` undefined) is not modelled for the queries whose `where` filter would then be dropped: `joinRoom`, `leaveRoom`, `getRoomMessages`, `getJoinedAndNotJoinedRooms`, and the nested create of `createRoom`. The class-level `JwtAuthGuard` (chatloop-backend/src/room/room.controller.ts:7) always supplies `sub`. Only `sendMessage`'s `!userId` test is modelled, as an empty id.
- Rooms.GetMessagesByRoom: the source runs its query separately from `getRoomMessages`. The database may order messages with equal `createdAt` differently in the two queries. So the source promises the same messages (as a multiset), not the same tie order that the model proves.
- The Socket.io gateways (`join`, `sendMessage`, broadcast) are transport-level fan-out without stored state, so they are left out. Message persistence through the gateway is `Messages.CreateMessage`.
- Logging (`console.log`) and the success-message wrappers of the HTTP responses are not modelled, beyond the message strings kept in the results.

## Findings

| source | as written | input that shows it | evidently intended | confidence | as-written member | corrected member |
|---|---|---|---|---|---|---|
| chatloop-backend/src/room/room.service.ts:60-64 | `getJoinedRooms` keeps rooms having a participant row whose own `id` equals the user id | a registered user who has just created a room: that user is a participant, yet the list is empty | keep rooms having a participant row whose `userId` equals the user id, as `getJoinedAndNotJoinedRooms` does | high; not executed | Rooms.CreatorMissingFromJoinedRooms | Rooms.JoinedRooms |
