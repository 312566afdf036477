/**
 * The in-memory anonymous chat matcher (`ChatStore`): a FIFO waiting queue,
 * a table of two-person rooms with append-only message logs, an index from
 * user to room, and a per-user delivery cursor into a room's log.
 *
 * Each operation is specified by a pure function on a `Snapshot` of the four
 * fields; the class's methods update the fields in place and are proved to
 * produce exactly that function's result. The lemmas about the functions state
 * the invariant every operation keeps and what the operations promise.
 *
 * `Date.now()` becomes a `now` parameter (milliseconds) and the generated room
 * id a `freshRoomId` parameter that the caller guarantees is new.
 */
module Chat {

  import opened Wrappers

  /** Rooms created more than this many milliseconds ago are reclaimed (30 minutes). */
  const RoomTimeout: int := 30 * 60 * 1000

  /** Waiting entries younger than this many milliseconds survive a cleanup (5 minutes). */
  const WaitingTimeout: int := 5 * 60 * 1000

  datatype WaitingUser = WaitingUser(id: string, timestamp: int)

  datatype Message = Message(roomId: string, userId: string, text: string, timestamp: int)

  /** A room; `first` and `second` are the source's `users: [string, string]`. */
  datatype Room = Room(id: string, first: string, second: string, messages: seq<Message>, createdAt: int)

  datatype StartResult = StartWaiting | StartMatched(roomId: string, partnerId: string)

  datatype RoomStatus = StatusNone | StatusWaiting | StatusMatched(roomId: string)

  /** The four fields of the store as one value. */
  datatype Snapshot = Snapshot(
    waiting: seq<WaitingUser>,
    rooms: map<string, Room>,
    userToRoom: map<string, string>,
    cursors: map<string, nat>)

  const Empty: Snapshot := Snapshot([], map[], map[], map[])

  /** `room.users.includes(u)` */
  predicate IsMember(room: Room, u: string)
  {
    u == room.first || u == room.second
  }

  /** `room.users.find(id => id !== u)` */
  function Partner(room: Room, u: string): string
  {
    if room.first != u then room.first else room.second
  }

  /** `waiting.some(w => w.id === u)` */
  predicate InQueue(q: seq<WaitingUser>, u: string)
  {
    exists i :: 0 <= i < |q| && q[i].id == u
  }

  /** `q.shift()` applied to the queue (an empty queue stays empty). */
  function Shift(q: seq<WaitingUser>): seq<WaitingUser>
  {
    if q == [] then [] else q[1..]
  }

  /** `room.messages.slice(cursor)`: the messages from the cursor on, none when the cursor is past the end. */
  function Unseen(log: seq<Message>, cursor: nat): seq<Message>
  {
    if cursor <= |log| then log[cursor..] else []
  }

  /** `lastMessageIndex.get(u) || 0` */
  function CursorOf(s: Snapshot, u: string): nat
  {
    if u in s.cursors then s.cursors[u] else 0
  }

  /** `waiting.filter(w => w.id !== u)` */
  function WithoutUser(q: seq<WaitingUser>, u: string): (r: seq<WaitingUser>)
    ensures |r| <= |q|
  {
    if q == [] then []
    else if q[0].id == u then WithoutUser(q[1..], u)
    else [q[0]] + WithoutUser(q[1..], u)
  }

  /** `waiting.filter(w => now - w.timestamp < 5 minutes)` */
  function KeepRecent(q: seq<WaitingUser>, now: int): (r: seq<WaitingUser>)
    ensures |r| <= |q|
  {
    if q == [] then []
    else if now - q[0].timestamp < WaitingTimeout then [q[0]] + KeepRecent(q[1..], now)
    else KeepRecent(q[1..], now)
  }

  predicate Expired(room: Room, now: int)
  {
    now - room.createdAt > RoomTimeout
  }

  /** The rooms a cleanup at `now` keeps. */
  function LiveRooms(rooms: map<string, Room>, now: int): map<string, Room>
  {
    map r | r in rooms && !Expired(rooms[r], now) :: rooms[r]
  }

  /** Both users of every expired room whose id is in `ids`. */
  function ExpiredMembers(rooms: map<string, Room>, ids: set<string>, now: int): set<string>
  {
    (set r | r in ids && r in rooms && Expired(rooms[r], now) :: rooms[r].first) +
    (set r | r in ids && r in rooms && Expired(rooms[r], now) :: rooms[r].second)
  }

  // ---------------------------------------------------------------------------
  // The invariant
  // ---------------------------------------------------------------------------

  /** A room is stored under its own id, has two distinct users, and logs only its members' messages to itself. */
  ghost predicate RoomWellFormed(id: string, room: Room)
  {
    && room.id == id
    && id != ""
    && room.first != room.second
    && forall i :: 0 <= i < |room.messages| ==>
         room.messages[i].roomId == id && IsMember(room, room.messages[i].userId)
  }

  /**
   * Every index entry names an existing room that lists the user; the queue
   * holds at most one entry, and no queued user is in the index.
   */
  ghost predicate Inv(s: Snapshot)
  {
    && (forall r :: r in s.rooms ==> RoomWellFormed(r, s.rooms[r]))
    && (forall u :: u in s.userToRoom ==>
          s.userToRoom[u] in s.rooms && IsMember(s.rooms[s.userToRoom[u]], u))
    && |s.waiting| <= 1
    && (forall i :: 0 <= i < |s.waiting| ==> s.waiting[i].id !in s.userToRoom)
  }

  // ---------------------------------------------------------------------------
  // The operations, on snapshots
  // ---------------------------------------------------------------------------

  /** `startSession(u)` */
  function StartSpec(s: Snapshot, u: string, now: int, freshRoomId: string): (StartResult, Snapshot)
  {
    if u in s.userToRoom && s.userToRoom[u] in s.rooms then
      var r := s.userToRoom[u];
      (StartMatched(r, Partner(s.rooms[r], u)), s)
    else if |s.waiting| > 0 && s.waiting[0].id != u then
      var w := s.waiting[0].id;
      (StartMatched(freshRoomId, w),
       Snapshot(s.waiting[1..],
                s.rooms[freshRoomId := Room(freshRoomId, u, w, [], now)],
                s.userToRoom[u := freshRoomId][w := freshRoomId],
                s.cursors[u := 0][w := 0]))
    else
      (StartWaiting, s.(waiting := Shift(s.waiting) + [WaitingUser(u, now)]))
  }

  /** `sendMessage(u, r, text)` */
  function SendSpec(s: Snapshot, u: string, r: string, text: string, now: int): (bool, Snapshot)
  {
    if r in s.rooms && IsMember(s.rooms[r], u) then
      var room := s.rooms[r];
      (true, s.(rooms := s.rooms[r := room.(messages := room.messages + [Message(r, u, text, now)])]))
    else
      (false, s)
  }

  /** `getNewMessages(u, r)` */
  function NewMessagesSpec(s: Snapshot, u: string, r: string): (seq<Message>, Snapshot)
  {
    if r in s.rooms && IsMember(s.rooms[r], u) then
      var log := s.rooms[r].messages;
      (Unseen(log, CursorOf(s, u)), s.(cursors := s.cursors[u := |log|]))
    else
      ([], s)
  }

  /** `getRoomStatus(u)`; an empty room id is falsy in the source's test. */
  function StatusOf(s: Snapshot, u: string): RoomStatus
  {
    if u in s.userToRoom && s.userToRoom[u] != "" && s.userToRoom[u] in s.rooms then
      StatusMatched(s.userToRoom[u])
    else if InQueue(s.waiting, u) then
      StatusWaiting
    else
      StatusNone
  }

  /** `endSession(u, r)`: the caller's membership of `r` is not checked. */
  function EndSessionSpec(s: Snapshot, u: string, r: string): Snapshot
  {
    if r !in s.rooms then s
    else
      var room := s.rooms[r];
      var index := s.userToRoom - {u};
      s.(userToRoom := index,
         cursors := s.cursors - {u},
         rooms := if room.first !in index && room.second !in index then s.rooms - {r} else s.rooms)
  }

  /** `removeFromQueue(u)` */
  function RemoveFromQueueSpec(s: Snapshot, u: string): Snapshot
  {
    s.(waiting := WithoutUser(s.waiting, u))
  }

  /** `cleanup()` at time `now`: cursors are never cleared. */
  function CleanupSpec(s: Snapshot, now: int): Snapshot
  {
    s.(rooms := LiveRooms(s.rooms, now),
       userToRoom := s.userToRoom - ExpiredMembers(s.rooms, s.rooms.Keys, now),
       waiting := KeepRecent(s.waiting, now))
  }

  // ---------------------------------------------------------------------------
  // startSession
  // ---------------------------------------------------------------------------

  lemma StartPreservesInv(s: Snapshot, u: string, now: int, freshRoomId: string)
    requires Inv(s) && freshRoomId != "" && freshRoomId !in s.rooms
    ensures Inv(StartSpec(s, u, now, freshRoomId).1)
  {
    if !(u in s.userToRoom && s.userToRoom[u] in s.rooms) && |s.waiting| > 0 && s.waiting[0].id != u {
      var w := s.waiting[0].id;
      var t := StartSpec(s, u, now, freshRoomId).1;
      assert w !in s.userToRoom;
      assert RoomWellFormed(freshRoomId, t.rooms[freshRoomId]);
      forall v | v in t.userToRoom
        ensures t.userToRoom[v] in t.rooms && IsMember(t.rooms[t.userToRoom[v]], v)
      {
        if v != u && v != w {
          assert t.userToRoom[v] == s.userToRoom[v] != freshRoomId;
        }
      }
    }
  }

  /**
   * A match always names the other member of a room the caller belongs to,
   * never the caller itself, and the caller's index entry points at it.
   */
  lemma StartNeverSelfPairs(s: Snapshot, u: string, now: int, freshRoomId: string)
    requires Inv(s) && freshRoomId != "" && freshRoomId !in s.rooms
    ensures var (res, t) := StartSpec(s, u, now, freshRoomId);
      res.StartMatched? ==>
        && res.partnerId != u
        && res.roomId in t.rooms
        && IsMember(t.rooms[res.roomId], u)
        && IsMember(t.rooms[res.roomId], res.partnerId)
        && u in t.userToRoom && t.userToRoom[u] == res.roomId
  {
    if u in s.userToRoom && s.userToRoom[u] in s.rooms {
      assert RoomWellFormed(s.userToRoom[u], s.rooms[s.userToRoom[u]]);
    }
  }

  /**
   * The three outcomes of a start. A caller already in a live room gets that
   * room and its partner back, and nothing changes. Otherwise, when another
   * user heads the queue, a new room pairs the two: both index entries point
   * at it, both cursors restart at 0, the head leaves the queue, and every
   * other room, index entry and cursor stays. Otherwise the caller is queued;
   * under the invariant it is then the only queued entry and reports `waiting`.
   */
  lemma StartEffects(s: Snapshot, u: string, now: int, freshRoomId: string)
    ensures var (res, t) := StartSpec(s, u, now, freshRoomId);
      && (u in s.userToRoom && s.userToRoom[u] in s.rooms ==>
            && res == StartMatched(s.userToRoom[u], Partner(s.rooms[s.userToRoom[u]], u))
            && t == s)
      && (!(u in s.userToRoom && s.userToRoom[u] in s.rooms) && |s.waiting| > 0 && s.waiting[0].id != u ==>
            var w := s.waiting[0].id;
            && res == StartMatched(freshRoomId, w)
            && freshRoomId in t.rooms && t.rooms[freshRoomId] == Room(freshRoomId, u, w, [], now)
            && t.rooms - {freshRoomId} == s.rooms - {freshRoomId}
            && u in t.userToRoom && t.userToRoom[u] == freshRoomId
            && w in t.userToRoom && t.userToRoom[w] == freshRoomId
            && t.userToRoom - {u, w} == s.userToRoom - {u, w}
            && CursorOf(t, u) == 0 && CursorOf(t, w) == 0
            && t.cursors - {u, w} == s.cursors - {u, w}
            && t.waiting == s.waiting[1..])
      && (!(u in s.userToRoom && s.userToRoom[u] in s.rooms) && !(|s.waiting| > 0 && s.waiting[0].id != u) ==>
            && res == StartWaiting
            && t == s.(waiting := Shift(s.waiting) + [WaitingUser(u, now)])
            && (Inv(s) ==> t.waiting == [WaitingUser(u, now)] && StatusOf(t, u) == StatusWaiting))
  {
    var (res, t) := StartSpec(s, u, now, freshRoomId);
    if !(u in s.userToRoom && s.userToRoom[u] in s.rooms) && !(|s.waiting| > 0 && s.waiting[0].id != u) && Inv(s) {
      assert Shift(s.waiting) == [];
      assert t.waiting[0].id == u;
    }
  }

  /**
   * From a state where neither caller is queued or in a room and the queue is
   * empty, two starts from distinct users pair them with each other: the first
   * waits, the second is matched with the first, both report `matched` for the
   * same room, a repeated start by the first names the second, and the queue is
   * empty again. The proof chains the waiting and the pairing branch of
   * `StartSpec`, each stated in general by `StartEffects`.
   */
  lemma ConsecutiveStartsPair(s: Snapshot, a: string, b: string, t1: int, t2: int, t3: int, id1: string, id2: string, id3: string)
    requires Inv(s) && s.waiting == []
    requires a != b && a !in s.userToRoom && b !in s.userToRoom
    requires id1 != "" && id1 !in s.rooms
    requires id2 != "" && id2 !in s.rooms
    ensures var (r1, s1) := StartSpec(s, a, t1, id1);
      var (r2, s2) := StartSpec(s1, b, t2, id2);
      && r1 == StartWaiting
      && r2 == StartMatched(id2, a)
      && StatusOf(s2, a) == StatusMatched(id2)
      && StatusOf(s2, b) == StatusMatched(id2)
      && StartSpec(s2, a, t3, id3) == (StartMatched(id2, b), s2)
      && s2.waiting == []
  {
    var s1 := StartSpec(s, a, t1, id1).1;
    assert s1.waiting == [WaitingUser(a, t1)];
  }

  // ---------------------------------------------------------------------------
  // sendMessage
  // ---------------------------------------------------------------------------

  lemma SendPreservesInv(s: Snapshot, u: string, r: string, text: string, now: int)
    requires Inv(s)
    ensures Inv(SendSpec(s, u, r, text, now).1)
  {
    if r in s.rooms && IsMember(s.rooms[r], u) {
      var t := SendSpec(s, u, r, text, now).1;
      assert RoomWellFormed(r, s.rooms[r]);
      assert RoomWellFormed(r, t.rooms[r]);
    }
  }

  /**
   * Sending succeeds exactly for a member of an existing room; then it appends
   * one message to the end of that room's log and changes nothing else, and
   * otherwise it changes nothing at all.
   */
  lemma SendAppendsOne(s: Snapshot, u: string, r: string, text: string, now: int)
    ensures var (ok, t) := SendSpec(s, u, r, text, now);
      && (ok <==> r in s.rooms && IsMember(s.rooms[r], u))
      && (!ok ==> t == s)
      && (ok ==>
            && t.rooms.Keys == s.rooms.Keys
            && t.rooms[r].messages[..|s.rooms[r].messages|] == s.rooms[r].messages
            && t.rooms[r].messages == s.rooms[r].messages + [Message(r, u, text, now)]
            && t.rooms[r].(messages := s.rooms[r].messages) == s.rooms[r]
            && (forall q :: q in s.rooms && q != r ==> t.rooms[q] == s.rooms[q])
            && t.waiting == s.waiting && t.userToRoom == s.userToRoom && t.cursors == s.cursors)
  {
  }

  // ---------------------------------------------------------------------------
  // getNewMessages
  // ---------------------------------------------------------------------------

  lemma NewMessagesPreservesInv(s: Snapshot, u: string, r: string)
    requires Inv(s)
    ensures Inv(NewMessagesSpec(s, u, r).1)
  {
  }

  /**
   * A member receives the log from its cursor on and its cursor moves to the
   * end of the log; an immediate second call returns nothing and changes
   * nothing. A non-member or a missing room gets nothing and no cursor moves.
   */
  lemma NewMessagesOnce(s: Snapshot, u: string, r: string)
    ensures var (m1, s1) := NewMessagesSpec(s, u, r);
      var (m2, s2) := NewMessagesSpec(s1, u, r);
      && m2 == []
      && s2 == s1
      && (r in s.rooms && IsMember(s.rooms[r], u) ==>
            && m1 == Unseen(s.rooms[r].messages, CursorOf(s, u))
            && CursorOf(s1, u) == |s.rooms[r].messages|)
      && (!(r in s.rooms && IsMember(s.rooms[r], u)) ==> m1 == [] && s1 == s)
  {
  }

  /** Two reads with the log only growing in between deliver the log once, in order. */
  lemma UnseenConcat(log1: seq<Message>, log2: seq<Message>, cursor: nat)
    requires |log1| <= |log2| && log2[..|log1|] == log1 && cursor <= |log1|
    ensures Unseen(log1, cursor) + Unseen(log2, |log1|) == Unseen(log2, cursor)
  {
    assert log2[cursor..] == log2[cursor..|log1|] + log2[|log1|..];
  }

  /** Snapshots of one log, each a prefix of the next. */
  ghost predicate Growing(logs: seq<seq<Message>>)
  {
    forall i :: 0 <= i < |logs| - 1 ==> |logs[i]| <= |logs[i + 1]| && logs[i + 1][..|logs[i]|] == logs[i]
  }

  /** What successive polls deliver when the log reads `logs[0]`, `logs[1]`, ... at each poll. */
  function Deliveries(logs: seq<seq<Message>>, cursor: nat): seq<Message>
  {
    if logs == [] then [] else Unseen(logs[0], cursor) + Deliveries(logs[1..], |logs[0]|)
  }

  /**
   * The concatenation of everything successive polls deliver, starting from a
   * fresh cursor, is the final log: each message once, in append order.
   */
  lemma {:induction false} DeliveriesAreTheLog(logs: seq<seq<Message>>, cursor: nat)
    requires |logs| >= 1 && Growing(logs) && cursor <= |logs[0]|
    ensures Deliveries(logs, cursor) == Unseen(logs[|logs| - 1], cursor)
  {
    if |logs| > 1 {
      var rest := logs[1..];
      assert Growing(rest) by {
        forall i | 0 <= i < |rest| - 1
          ensures |rest[i]| <= |rest[i + 1]| && rest[i + 1][..|rest[i]|] == rest[i]
        {
          assert rest[i] == logs[i + 1] && rest[i + 1] == logs[i + 2];
        }
      }
      DeliveriesAreTheLog(rest, |logs[0]|);
      assert Growing(logs) ==> |logs[0]| <= |logs[1]| && logs[1][..|logs[0]|] == logs[0];
      PrefixOfLast(logs, 0);
      UnseenConcat(logs[0], logs[|logs| - 1], cursor);
    }
  }

  /** In a growing chain every snapshot is a prefix of the last one. */
  lemma {:induction false} PrefixOfLast(logs: seq<seq<Message>>, i: nat)
    requires Growing(logs) && i < |logs|
    ensures |logs[i]| <= |logs[|logs| - 1]| && logs[|logs| - 1][..|logs[i]|] == logs[i]
    decreases |logs| - i
  {
    if i < |logs| - 1 {
      PrefixOfLast(logs, i + 1);
      assert |logs[i]| <= |logs[i + 1]| && logs[i + 1][..|logs[i]|] == logs[i];
      var last := logs[|logs| - 1];
      assert last[..|logs[i]|] == last[..|logs[i + 1]|][..|logs[i]|];
    }
  }

  /**
   * A message sent into a room is seen by the partner's next poll, exactly once:
   * a poll, a send by the other member, and a poll again deliver just that message.
   */
  lemma SentMessageReachesPartner(s: Snapshot, a: string, b: string, r: string, text: string, now: int)
    requires Inv(s) && r in s.rooms && IsMember(s.rooms[r], a) && IsMember(s.rooms[r], b)
    ensures var (_, s1) := NewMessagesSpec(s, b, r);
      var (ok, s2) := SendSpec(s1, a, r, text, now);
      var (m3, s3) := NewMessagesSpec(s2, b, r);
      var (m4, _) := NewMessagesSpec(s3, b, r);
      ok && m3 == [Message(r, a, text, now)] && m4 == []
  {
    var s1 := NewMessagesSpec(s, b, r).1;
    var s2 := SendSpec(s1, a, r, text, now).1;
    var log := s.rooms[r].messages;
    assert s2.rooms[r].messages == log + [Message(r, a, text, now)];
    assert CursorOf(s2, b) == |log|;
    assert (log + [Message(r, a, text, now)])[|log|..] == [Message(r, a, text, now)];
  }

  /** A message to be sent into a room: its sender, text and time. */
  datatype Outgoing = Outgoing(sender: string, text: string, at: int)

  /** `sendMessage` called for each entry of `sends`, in order, on room `r`. */
  function SendAll(s: Snapshot, r: string, sends: seq<Outgoing>): Snapshot
    decreases |sends|
  {
    if sends == [] then s
    else SendAll(SendSpec(s, sends[0].sender, r, sends[0].text, sends[0].at).1, r, sends[1..])
  }

  /**
   * The messages that `sends` appends to room `r` whose users are `a` and `b`:
   * those of members, in order, each stamped with the room; a send by anyone
   * else fails and leaves no trace.
   */
  function Landed(a: string, b: string, r: string, sends: seq<Outgoing>): (ms: seq<Message>)
    ensures |ms| <= |sends|
    ensures forall i :: 0 <= i < |ms| ==> ms[i].roomId == r && (ms[i].userId == a || ms[i].userId == b)
    ensures (forall i :: 0 <= i < |sends| ==> sends[i].sender == a || sends[i].sender == b) ==> |ms| == |sends|
    decreases |sends|
  {
    if sends == [] then []
    else
      var rest := Landed(a, b, r, sends[1..]);
      if sends[0].sender == a || sends[0].sender == b then
        [Message(r, sends[0].sender, sends[0].text, sends[0].at)] + rest
      else rest
  }

  /**
   * Sends into one room extend its log by exactly the members' messages, in
   * order, and keep its members; the queue, the index and every cursor stay
   * as they were.
   */
  lemma {:induction false} SendAllGrows(s: Snapshot, r: string, sends: seq<Outgoing>)
    requires r in s.rooms
    ensures var t := SendAll(s, r, sends);
      && r in t.rooms
      && t.rooms[r].first == s.rooms[r].first && t.rooms[r].second == s.rooms[r].second
      && |s.rooms[r].messages| <= |t.rooms[r].messages|
      && t.rooms[r].messages[..|s.rooms[r].messages|] == s.rooms[r].messages
      && t.rooms[r].messages == s.rooms[r].messages + Landed(s.rooms[r].first, s.rooms[r].second, r, sends)
      && t.waiting == s.waiting && t.userToRoom == s.userToRoom && t.cursors == s.cursors
    decreases |sends|
  {
    if sends != [] {
      var s1 := SendSpec(s, sends[0].sender, r, sends[0].text, sends[0].at).1;
      SendAllGrows(s1, r, sends[1..]);
      var a, b := s.rooms[r].first, s.rooms[r].second;
      var log, log1, log2 := s.rooms[r].messages, s1.rooms[r].messages, SendAll(s, r, sends).rooms[r].messages;
      var rest := Landed(a, b, r, sends[1..]);
      assert log2 == log1 + rest;
      if sends[0].sender == a || sends[0].sender == b {
        assert log1 == log + [Message(r, sends[0].sender, sends[0].text, sends[0].at)];
        assert log2 == log + ([Message(r, sends[0].sender, sends[0].text, sends[0].at)] + rest);
      } else {
        assert log1 == log;
      }
      assert log2[..|log|] == log;
    }
  }

  /**
   * Rounds of sends into room `r`, each followed by a poll of `u` on `r`:
   * what the polls deliver, concatenated, and the state at the end.
   */
  function PollRounds(s: Snapshot, u: string, r: string, rounds: seq<seq<Outgoing>>): (seq<Message>, Snapshot)
    decreases |rounds|
  {
    if rounds == [] then ([], s)
    else
      var (m, s1) := NewMessagesSpec(SendAll(s, r, rounds[0]), u, r);
      var (ms, t) := PollRounds(s1, u, r, rounds[1..]);
      (m + ms, t)
  }

  /**
   * On the store itself: however sends and polls of one member interleave,
   * when there is at least one poll the polls together deliver the room's final log from the member's
   * starting cursor on, each message once and in append order, provided that
   * cursor is not past the log. Nothing but a poll moves the cursor, and
   * after the last poll it sits at the end of the log.
   */
  lemma {:induction false} StoreDeliversOnce(s: Snapshot, u: string, r: string, rounds: seq<seq<Outgoing>>)
    requires r in s.rooms && IsMember(s.rooms[r], u) && CursorOf(s, u) <= |s.rooms[r].messages|
    ensures var (ms, t) := PollRounds(s, u, r, rounds);
      && r in t.rooms
      && |s.rooms[r].messages| <= |t.rooms[r].messages|
      && t.rooms[r].messages[..|s.rooms[r].messages|] == s.rooms[r].messages
      && t.rooms[r].first == s.rooms[r].first && t.rooms[r].second == s.rooms[r].second
      && (rounds != [] ==> ms == Unseen(t.rooms[r].messages, CursorOf(s, u)) && CursorOf(t, u) == |t.rooms[r].messages|)
      && (rounds == [] ==> ms == [] && t == s)
    decreases |rounds|
  {
    if rounds != [] {
      var s0 := SendAll(s, r, rounds[0]);
      SendAllGrows(s, r, rounds[0]);
      var (m, s1) := NewMessagesSpec(s0, u, r);
      StoreDeliversOnce(s1, u, r, rounds[1..]);
      var (ms, t) := PollRounds(s1, u, r, rounds[1..]);
      var log, log1, last := s.rooms[r].messages, s0.rooms[r].messages, t.rooms[r].messages;
      assert last[..|log|] == last[..|log1|][..|log|];
      assert CursorOf(s0, u) == CursorOf(s, u);
      assert m == Unseen(log1, CursorOf(s, u));
      assert CursorOf(s1, u) == |log1| && s1.rooms == s0.rooms;
      assert ms == Unseen(last, |log1|);
      assert PollRounds(s, u, r, rounds) == (m + ms, t);
      UnseenConcat(log1, last, CursorOf(s, u));
    }
  }

  /**
   * A poll, any sends into the room, and a second poll: the second poll
   * returns exactly the members' messages sent in between, in order. Together the two return the
   * final log from the starting cursor when that cursor was not past the
   * log; a cursor left past the end by another room is reset by the first
   * poll, which then returns nothing.
   */
  lemma PollSendsPoll(s: Snapshot, u: string, r: string, sends: seq<Outgoing>)
    requires r in s.rooms && IsMember(s.rooms[r], u)
    ensures var (m1, s1) := NewMessagesSpec(s, u, r);
      var s2 := SendAll(s1, r, sends);
      var (m2, s3) := NewMessagesSpec(s2, u, r);
      && r in s2.rooms
      && s2.rooms[r].messages == s.rooms[r].messages + m2
      && m2 == Landed(s.rooms[r].first, s.rooms[r].second, r, sends)
      && (CursorOf(s, u) <= |s.rooms[r].messages| ==> m1 + m2 == Unseen(s2.rooms[r].messages, CursorOf(s, u)))
      && (CursorOf(s, u) > |s.rooms[r].messages| ==> m1 == [])
      && CursorOf(s3, u) == |s2.rooms[r].messages|
  {
    var (m1, s1) := NewMessagesSpec(s, u, r);
    SendAllGrows(s1, r, sends);
    var s2 := SendAll(s1, r, sends);
    var log, last := s.rooms[r].messages, s2.rooms[r].messages;
    assert last == last[..|log|] + last[|log|..];
    if CursorOf(s, u) <= |log| {
      UnseenConcat(log, last, CursorOf(s, u));
    }
  }

  // ---------------------------------------------------------------------------
  // getRoomStatus
  // ---------------------------------------------------------------------------

  /**
   * The status a user sees is consistent with the invariant: `matched` names a
   * room that lists the user, `waiting` means queued and in no room, `none`
   * means neither queued nor in the index.
   */
  lemma StatusMeaning(s: Snapshot, u: string)
    requires Inv(s)
    ensures StatusOf(s, u).StatusMatched? <==> u in s.userToRoom
    ensures StatusOf(s, u).StatusMatched? ==>
      s.userToRoom[u] == StatusOf(s, u).roomId && IsMember(s.rooms[StatusOf(s, u).roomId], u)
    ensures StatusOf(s, u) == StatusWaiting <==> InQueue(s.waiting, u)
    ensures StatusOf(s, u) == StatusNone <==> u !in s.userToRoom && !InQueue(s.waiting, u)
  {
    if u in s.userToRoom {
      assert RoomWellFormed(s.userToRoom[u], s.rooms[s.userToRoom[u]]);
    }
  }

  // ---------------------------------------------------------------------------
  // endSession
  // ---------------------------------------------------------------------------

  lemma EndSessionPreservesInv(s: Snapshot, u: string, r: string)
    requires Inv(s)
    ensures Inv(EndSessionSpec(s, u, r))
  {
    var t := EndSessionSpec(s, u, r);
    forall v | v in t.userToRoom
      ensures t.userToRoom[v] in t.rooms && IsMember(t.rooms[t.userToRoom[v]], v)
    {
      assert v in s.userToRoom && t.userToRoom[v] == s.userToRoom[v];
    }
  }

  /**
   * Ending is a no-op for a missing room. Otherwise it drops only the caller's
   * index entry and cursor, leaves the queue and every other entry alone, and
   * deletes the room exactly when neither of its users is still in the index.
   */
  lemma EndSessionEffects(s: Snapshot, u: string, r: string)
    ensures var t := EndSessionSpec(s, u, r);
      && (r !in s.rooms ==> t == s)
      && (r in s.rooms ==>
            && t.userToRoom == s.userToRoom - {u}
            && t.cursors == s.cursors - {u}
            && t.waiting == s.waiting
            && t.rooms - {r} == s.rooms - {r}
            && (r in t.rooms <==>
                  (s.rooms[r].first != u && s.rooms[r].first in s.userToRoom) ||
                  (s.rooms[r].second != u && s.rooms[r].second in s.userToRoom)))
  {
  }

  /** Ending twice with the same arguments leaves the state of ending once. */
  lemma EndSessionIdempotent(s: Snapshot, u: string, r: string)
    ensures EndSessionSpec(EndSessionSpec(s, u, r), u, r) == EndSessionSpec(s, u, r)
  {
    var t := EndSessionSpec(s, u, r);
    if r in t.rooms {
      assert t.userToRoom - {u} == t.userToRoom;
      assert t.cursors - {u} == t.cursors;
    }
  }

  /**
   * When one member of a live room leaves, whichever of the two it is, the
   * room survives and the partner still reports `matched` while the leaver
   * reports `none`; when the partner leaves too, the room is gone.
   */
  lemma LeaveOneThenBoth(s: Snapshot, a: string, b: string, r: string)
    requires Inv(s) && r in s.rooms && a != b && IsMember(s.rooms[r], a) && IsMember(s.rooms[r], b)
    requires a in s.userToRoom && b in s.userToRoom && s.userToRoom[a] == r && s.userToRoom[b] == r
    ensures var s1 := EndSessionSpec(s, a, r);
      var s2 := EndSessionSpec(s1, b, r);
      && r in s1.rooms
      && StatusOf(s1, b) == StatusMatched(r)
      && StatusOf(s1, a) == StatusNone
      && r !in s2.rooms
  {
    assert RoomWellFormed(r, s.rooms[r]);
    StatusMeaning(s, a);
  }

  // ---------------------------------------------------------------------------
  // removeFromQueue
  // ---------------------------------------------------------------------------

  /** Removing keeps exactly the other users' entries, in their order. */
  lemma {:induction false} WithoutUserKeepsOthers(q: seq<WaitingUser>, u: string)
    ensures !InQueue(WithoutUser(q, u), u)
    ensures forall w :: w in WithoutUser(q, u) <==> w in q && w.id != u
    ensures WithoutUser(WithoutUser(q, u), u) == WithoutUser(q, u)
  {
    if q != [] {
      WithoutUserKeepsOthers(q[1..], u);
      if q[0].id != u {
        var r := WithoutUser(q, u);
        assert r == [q[0]] + WithoutUser(q[1..], u);
        assert WithoutUser(r, u) == [q[0]] + WithoutUser(WithoutUser(q[1..], u), u);
      }
    }
  }

  /** Filtering a concatenation filters each part: the survivors keep their relative order. */
  lemma {:induction false} WithoutUserAppend(a: seq<WaitingUser>, b: seq<WaitingUser>, u: string)
    ensures WithoutUser(a + b, u) == WithoutUser(a, u) + WithoutUser(b, u)
  {
    if a != [] {
      assert (a + b)[0] == a[0] && (a + b)[1..] == a[1..] + b;
      WithoutUserAppend(a[1..], b, u);
    } else {
      assert a + b == b;
    }
  }

  lemma RemoveFromQueuePreservesInv(s: Snapshot, u: string)
    requires Inv(s)
    ensures Inv(RemoveFromQueueSpec(s, u))
  {
    WithoutUserKeepsOthers(s.waiting, u);
    var t := RemoveFromQueueSpec(s, u);
    forall i | 0 <= i < |t.waiting|
      ensures t.waiting[i].id !in t.userToRoom
    {
      assert t.waiting[i] in s.waiting;
    }
  }

  /**
   * A user who cancels before being matched is out of the queue, and a new
   * start by that user waits afresh instead of meeting a stale entry of its own.
   */
  lemma CancelThenStartFresh(s: Snapshot, a: string, t0: int, now: int, freshRoomId: string)
    requires Inv(s) && s.waiting == [WaitingUser(a, t0)]
    ensures var s1 := RemoveFromQueueSpec(s, a);
      && StatusOf(s1, a) == StatusNone
      && StartSpec(s1, a, now, freshRoomId) == (StartWaiting, s1.(waiting := [WaitingUser(a, now)]))
  {
    assert s.waiting[0].id == a;
    assert a !in s.userToRoom;
    assert WithoutUser(s.waiting, a) == [];
    var s1 := RemoveFromQueueSpec(s, a);
    assert Shift(s1.waiting) + [WaitingUser(a, now)] == [WaitingUser(a, now)];
  }

  // ---------------------------------------------------------------------------
  // cleanup
  // ---------------------------------------------------------------------------

  /** The entries a cleanup keeps are exactly the recent ones, in their order. */
  lemma {:induction false} KeepRecentKeepsRecent(q: seq<WaitingUser>, now: int)
    ensures forall w :: w in KeepRecent(q, now) <==> w in q && now - w.timestamp < WaitingTimeout
    ensures KeepRecent(KeepRecent(q, now), now) == KeepRecent(q, now)
  {
    if q != [] {
      KeepRecentKeepsRecent(q[1..], now);
    }
  }

  /** Filtering a concatenation filters each part: the recent entries keep their relative order. */
  lemma {:induction false} KeepRecentAppend(a: seq<WaitingUser>, b: seq<WaitingUser>, now: int)
    ensures KeepRecent(a + b, now) == KeepRecent(a, now) + KeepRecent(b, now)
  {
    if a != [] {
      assert (a + b)[0] == a[0] && (a + b)[1..] == a[1..] + b;
      KeepRecentAppend(a[1..], b, now);
    } else {
      assert a + b == b;
    }
  }

  lemma CleanupPreservesInv(s: Snapshot, now: int)
    requires Inv(s)
    ensures Inv(CleanupSpec(s, now))
  {
    var t := CleanupSpec(s, now);
    KeepRecentKeepsRecent(s.waiting, now);
    forall v | v in t.userToRoom
      ensures t.userToRoom[v] in t.rooms && IsMember(t.rooms[t.userToRoom[v]], v)
    {
      assert v in s.userToRoom;
    }
    forall i | 0 <= i < |t.waiting|
      ensures t.waiting[i].id !in t.userToRoom
    {
      assert t.waiting[i] in s.waiting;
    }
  }

  /**
   * A cleanup keeps exactly the rooms created at most 30 minutes ago, drops
   * the index entries of both users of every other room, and leaves a user of
   * an expired room without a `matched` status.
   */
  lemma CleanupReclaims(s: Snapshot, now: int, r: string)
    requires Inv(s) && r in s.rooms
    ensures var t := CleanupSpec(s, now);
      && (r in t.rooms <==> now - s.rooms[r].createdAt <= RoomTimeout)
      && (r !in t.rooms ==>
            && s.rooms[r].first !in t.userToRoom && s.rooms[r].second !in t.userToRoom
            && !StatusOf(t, s.rooms[r].first).StatusMatched?
            && !StatusOf(t, s.rooms[r].second).StatusMatched?)
  {
    var t := CleanupSpec(s, now);
    if r !in t.rooms {
      assert s.rooms[r].first in ExpiredMembers(s.rooms, s.rooms.Keys, now);
      assert s.rooms[r].second in ExpiredMembers(s.rooms, s.rooms.Keys, now);
    }
  }

  /** A second cleanup at the same instant changes nothing. */
  lemma CleanupIdempotent(s: Snapshot, now: int)
    ensures CleanupSpec(CleanupSpec(s, now), now) == CleanupSpec(s, now)
  {
    var t := CleanupSpec(s, now);
    KeepRecentKeepsRecent(s.waiting, now);
    assert ExpiredMembers(t.rooms, t.rooms.Keys, now) == {};
    assert LiveRooms(t.rooms, now) == t.rooms;
  }

  /** The rooms left while a cleanup still has the ids in `pending` to visit. */
  function KeptRooms(rooms: map<string, Room>, pending: set<string>, now: int): map<string, Room>
  {
    map r | r in rooms && (r in pending || !Expired(rooms[r], now)) :: rooms[r]
  }

  /** Visiting one more room removes it and its users exactly when it has expired. */
  lemma CleanupStep(rooms: map<string, Room>, pending: set<string>, k: string, now: int)
    requires pending <= rooms.Keys && k in pending
    ensures k in KeptRooms(rooms, pending, now) && KeptRooms(rooms, pending, now)[k] == rooms[k]
    ensures KeptRooms(rooms, pending - {k}, now) ==
      if Expired(rooms[k], now) then KeptRooms(rooms, pending, now) - {k} else KeptRooms(rooms, pending, now)
    ensures rooms.Keys - (pending - {k}) == (rooms.Keys - pending) + {k}
    ensures ExpiredMembers(rooms, (rooms.Keys - pending) + {k}, now) ==
      ExpiredMembers(rooms, rooms.Keys - pending, now) +
      (if Expired(rooms[k], now) then {rooms[k].first, rooms[k].second} else {})
  {
  }

  /** Deleting two more keys from an index already stripped of `gone` strips it of both. */
  lemma DeleteMore(index: map<string, string>, gone: set<string>, more: set<string>)
    ensures (index - gone) - more == index - (gone + more)
  {
  }

  /** Before the walk nothing has been removed. */
  lemma CleanupStart(rooms: map<string, Room>, index: map<string, string>, now: int)
    ensures KeptRooms(rooms, rooms.Keys, now) == rooms
    ensures index - ExpiredMembers(rooms, rooms.Keys - rooms.Keys, now) == index
  {
    assert rooms.Keys - rooms.Keys == {};
    assert ExpiredMembers(rooms, {}, now) == {};
  }

  /** A cleanup that has visited every room has kept exactly the live ones. */
  lemma CleanupDone(rooms: map<string, Room>, now: int)
    ensures KeptRooms(rooms, {}, now) == LiveRooms(rooms, now)
    ensures rooms.Keys - {} == rooms.Keys
  {
  }

  // ---------------------------------------------------------------------------
  // The store
  // ---------------------------------------------------------------------------

  class ChatStore {
    var waitingUsers: seq<WaitingUser>
    var rooms: map<string, Room>
    var userToRoom: map<string, string>
    var lastMessageIndex: map<string, nat>

    function State(): Snapshot
      reads this
    {
      Snapshot(waitingUsers, rooms, userToRoom, lastMessageIndex)
    }

    ghost predicate Valid()
      reads this
    {
      Inv(State())
    }

    constructor ()
      ensures Valid() && State() == Empty
    {
      waitingUsers := [];
      rooms := map[];
      userToRoom := map[];
      lastMessageIndex := map[];
    }

    method StartSession(userId: string, now: int, freshRoomId: string) returns (result: StartResult)
      requires Valid() && freshRoomId != "" && freshRoomId !in rooms
      modifies this
      ensures Valid()
      ensures (result, State()) == StartSpec(old(State()), userId, now, freshRoomId)
    {
      ghost var s := State();
      StartPreservesInv(s, userId, now, freshRoomId);
      if userId in userToRoom {
        var roomId := userToRoom[userId];
        if roomId in rooms {
          var room := rooms[roomId];
          result := StartMatched(roomId, Partner(room, userId));
          return;
        }
      }
      var waitingUser: Option<WaitingUser> := None;
      if |waitingUsers| > 0 {
        waitingUser := Some(waitingUsers[0]);
        waitingUsers := waitingUsers[1..];
      }
      if waitingUser.Some? && waitingUser.value.id != userId {
        var partner := waitingUser.value.id;
        rooms := rooms[freshRoomId := Room(freshRoomId, userId, partner, [], now)];
        userToRoom := userToRoom[userId := freshRoomId];
        userToRoom := userToRoom[partner := freshRoomId];
        lastMessageIndex := lastMessageIndex[userId := 0];
        lastMessageIndex := lastMessageIndex[partner := 0];
        result := StartMatched(freshRoomId, partner);
        return;
      }
      waitingUsers := waitingUsers + [WaitingUser(userId, now)];
      result := StartWaiting;
    }

    method SendMessage(userId: string, roomId: string, text: string, now: int) returns (ok: bool)
      requires Valid()
      modifies this
      ensures Valid()
      ensures (ok, State()) == SendSpec(old(State()), userId, roomId, text, now)
    {
      SendPreservesInv(State(), userId, roomId, text, now);
      if roomId !in rooms || !IsMember(rooms[roomId], userId) {
        return false;
      }
      var room := rooms[roomId];
      var message := Message(roomId, userId, text, now);
      rooms := rooms[roomId := room.(messages := room.messages + [message])];
      ok := true;
    }

    method GetNewMessages(userId: string, roomId: string) returns (messages: seq<Message>)
      requires Valid()
      modifies this
      ensures Valid()
      ensures (messages, State()) == NewMessagesSpec(old(State()), userId, roomId)
    {
      if roomId !in rooms || !IsMember(rooms[roomId], userId) {
        return [];
      }
      var log := rooms[roomId].messages;
      var lastIndex := if userId in lastMessageIndex then lastMessageIndex[userId] else 0;
      messages := if lastIndex <= |log| then log[lastIndex..] else [];
      lastMessageIndex := lastMessageIndex[userId := |log|];
    }

    method GetRoomStatus(userId: string) returns (status: RoomStatus)
      ensures status == StatusOf(State(), userId)
      ensures Valid() ==> (status.StatusMatched? <==> userId in userToRoom)
      ensures Valid() && status.StatusMatched? ==> IsMember(rooms[status.roomId], userId)
    {
      if Valid() {
        StatusMeaning(State(), userId);
      }
      if userId in userToRoom {
        var roomId := userToRoom[userId];
        if roomId != "" && roomId in rooms {
          return StatusMatched(roomId);
        }
      }
      if InQueue(waitingUsers, userId) {
        return StatusWaiting;
      }
      return StatusNone;
    }

    method EndSession(userId: string, roomId: string)
      requires Valid()
      modifies this
      ensures Valid()
      ensures State() == EndSessionSpec(old(State()), userId, roomId)
    {
      EndSessionPreservesInv(State(), userId, roomId);
      if roomId !in rooms {
        return;
      }
      var room := rooms[roomId];
      userToRoom := userToRoom - {userId};
      lastMessageIndex := lastMessageIndex - {userId};
      if room.first !in userToRoom && room.second !in userToRoom {
        rooms := rooms - {roomId};
      }
    }

    method RemoveFromQueue(userId: string)
      requires Valid()
      modifies this
      ensures Valid()
      ensures State() == RemoveFromQueueSpec(old(State()), userId)
    {
      RemoveFromQueuePreservesInv(State(), userId);
      waitingUsers := WithoutUser(waitingUsers, userId);
    }

    /** `cleanup()` at time `now`: reclaims expired rooms, then drops stale waiting entries. */
    method Cleanup(now: int)
      requires Valid()
      modifies this
      ensures Valid()
      ensures State() == CleanupSpec(old(State()), now)
    {
      CleanupPreservesInv(State(), now);
      rooms, userToRoom := RemoveExpiredRooms(rooms, userToRoom, now);
      waitingUsers := KeepRecent(waitingUsers, now);
    }
  }

  /**
   * The room-table walk of `cleanup()`: visits every room once, deleting each
   * expired room and both of its users' index entries as it goes.
   */
  method RemoveExpiredRooms(rooms: map<string, Room>, userToRoom: map<string, string>, now: int)
    returns (live: map<string, Room>, mapped: map<string, string>)
    ensures live == LiveRooms(rooms, now)
    ensures mapped == userToRoom - ExpiredMembers(rooms, rooms.Keys, now)
  {
    live, mapped := rooms, userToRoom;
    var pending := rooms.Keys;
    CleanupStart(rooms, userToRoom, now);
    while pending != {}
      invariant pending <= rooms.Keys
      invariant live == KeptRooms(rooms, pending, now)
      invariant mapped == userToRoom - ExpiredMembers(rooms, rooms.Keys - pending, now)
      decreases |pending|
    {
      var roomId :| roomId in pending;
      CleanupStep(rooms, pending, roomId, now);
      var room := live[roomId];
      DeleteMore(userToRoom, ExpiredMembers(rooms, rooms.Keys - pending, now), {room.first, room.second});
      if now - room.createdAt > RoomTimeout {
        live := live - {roomId};
        mapped := mapped - {room.first, room.second};
      }
      pending := pending - {roomId};
    }
    CleanupDone(rooms, now);
  }

  /**
   * Two users meet, one writes, the other polls twice: the first poll brings
   * the message, the second nothing.
   */
  method MatchSendPollScenario(a: string, b: string) returns (first: seq<Message>, second: seq<Message>)
    requires a != b
    ensures first == [Message("room-2", a, "hi", 3000)]
    ensures second == []
  {
    var store := new ChatStore();
    var r1 := store.StartSession(a, 1000, "room-1");
    assert r1 == StartWaiting;
    var r2 := store.StartSession(b, 2000, "room-2");
    assert r2 == StartMatched("room-2", a);
    var ok := store.SendMessage(a, "room-2", "hi", 3000);
    assert ok;
    first := store.GetNewMessages(b, "room-2");
    second := store.GetNewMessages(b, "room-2");
  }
}
