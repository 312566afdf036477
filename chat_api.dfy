/**
 * The request handlers in front of the chat store: the poll loader, the end
 * action and the send action. A form or query field that is absent or empty
 * is the empty string here (the handlers test it with `!field`, which treats
 * both alike). Each handler is a method over the shared store, proved to do
 * what a pure function of the store's snapshot describes.
 */
module ChatApi {

  import opened Chat

  datatype PollResponse =
    | PollError(status: int, error: string)
    | PollStatus(state: RoomStatus)
    | PollMatched(roomId: string, messages: seq<Message>)

  datatype EndResponse = EndError(status: int, error: string) | EndOk

  datatype SendResponse = SendError(status: int, error: string) | SendOk

  // ---------------------------------------------------------------------------
  // GET poll
  // ---------------------------------------------------------------------------

  /** The poll loader: status always, new messages only when matched and a room id is given. */
  function PollSpec(s: Snapshot, userId: string, roomId: string): (PollResponse, Snapshot)
  {
    if userId == "" then
      (PollError(400, "Missing userId"), s)
    else
      var status := StatusOf(s, userId);
      if status.StatusMatched? && roomId != "" then
        var (messages, t) := NewMessagesSpec(s, userId, roomId);
        (PollMatched(status.roomId, messages), t)
      else
        (PollStatus(status), s)
  }

  method PollLoader(store: ChatStore, userId: string, roomId: string) returns (response: PollResponse)
    requires store.Valid()
    modifies store
    ensures store.Valid()
    ensures (response, store.State()) == PollSpec(old(store.State()), userId, roomId)
  {
    if userId == "" {
      return PollError(400, "Missing userId");
    }
    var status := store.GetRoomStatus(userId);
    if status.StatusMatched? && roomId != "" {
      var messages := store.GetNewMessages(userId, roomId);
      return PollMatched(status.roomId, messages);
    }
    return PollStatus(status);
  }

  /**
   * A poll without a user id is a 400 and touches nothing. A matched poll
   * with a room id answers with the user's mapped room (not the queried one)
   * and the messages `getNewMessages` hands out for the queried room, moving
   * that cursor. Any other poll returns the status alone and is read-only.
   */
  lemma PollOutcomes(s: Snapshot, userId: string, roomId: string)
    requires Inv(s)
    ensures var (response, t) := PollSpec(s, userId, roomId);
      && (userId == "" ==> response == PollError(400, "Missing userId") && t == s)
      && (userId != "" && StatusOf(s, userId).StatusMatched? && roomId != "" ==>
            && response.PollMatched?
            && userId in s.userToRoom && response.roomId == s.userToRoom[userId]
            && response.messages == NewMessagesSpec(s, userId, roomId).0
            && t == NewMessagesSpec(s, userId, roomId).1)
      && (userId != "" && !(StatusOf(s, userId).StatusMatched? && roomId != "") ==>
            response == PollStatus(StatusOf(s, userId)) && t == s)
  {
    StatusMeaning(s, userId);
  }

  /** Two back-to-back matched polls: the second brings no messages and changes nothing. */
  lemma PollTwiceDeliversOnce(s: Snapshot, userId: string, roomId: string)
    requires Inv(s)
    ensures var (r1, s1) := PollSpec(s, userId, roomId);
      var (r2, s2) := PollSpec(s1, userId, roomId);
      r1.PollMatched? ==> r2 == PollMatched(r1.roomId, []) && s2 == s1
  {
    var (r1, s1) := PollSpec(s, userId, roomId);
    if r1.PollMatched? {
      NewMessagesOnce(s, userId, roomId);
      assert StatusOf(s1, userId) == StatusOf(s, userId);
    }
  }

  // ---------------------------------------------------------------------------
  // POST end
  // ---------------------------------------------------------------------------

  /** The end action: leave the room when a room id is given, otherwise leave the queue. */
  function EndSpec(s: Snapshot, userId: string, roomId: string): (EndResponse, Snapshot)
  {
    if userId == "" then (EndError(400, "Missing userId"), s)
    else if roomId != "" then (EndOk, EndSessionSpec(s, userId, roomId))
    else (EndOk, RemoveFromQueueSpec(s, userId))
  }

  method EndAction(store: ChatStore, userId: string, roomId: string) returns (response: EndResponse)
    requires store.Valid()
    modifies store
    ensures store.Valid()
    ensures (response, store.State()) == EndSpec(old(store.State()), userId, roomId)
  {
    if userId == "" {
      return EndError(400, "Missing userId");
    }
    if roomId != "" {
      store.EndSession(userId, roomId);
    } else {
      store.RemoveFromQueue(userId);
    }
    return EndOk;
  }

  /**
   * Without a user id the action is a 400 and changes nothing. With one it
   * always succeeds, even for an unknown room or a user who is not queued;
   * with a room id it leaves the queue alone, without one it leaves the rooms,
   * the index and the cursors alone.
   */
  lemma EndOutcomes(s: Snapshot, userId: string, roomId: string)
    ensures var (response, t) := EndSpec(s, userId, roomId);
      && (userId == "" <==> response.EndError?)
      && (userId == "" ==> response.status == 400 && t == s)
      && (userId != "" && roomId != "" ==> t.waiting == s.waiting)
      && (userId != "" && roomId == "" ==>
            t.rooms == s.rooms && t.userToRoom == s.userToRoom && t.cursors == s.cursors &&
            !InQueue(t.waiting, userId))
  {
    WithoutUserKeepsOthers(s.waiting, userId);
  }

  /** Repeating an end request gives the same answer and leaves the state of the first. */
  lemma EndRepeatable(s: Snapshot, userId: string, roomId: string)
    ensures var (r1, s1) := EndSpec(s, userId, roomId);
      EndSpec(s1, userId, roomId) == (r1, s1)
  {
    if userId != "" {
      if roomId != "" {
        EndSessionIdempotent(s, userId, roomId);
      } else {
        WithoutUserKeepsOthers(s.waiting, userId);
      }
    }
  }

  /** An end request keeps the store's invariant. */
  lemma EndPreservesInv(s: Snapshot, userId: string, roomId: string)
    requires Inv(s)
    ensures Inv(EndSpec(s, userId, roomId).1)
  {
    if userId != "" {
      if roomId != "" {
        EndSessionPreservesInv(s, userId, roomId);
      } else {
        RemoveFromQueuePreservesInv(s, userId);
      }
    }
  }

  // ---------------------------------------------------------------------------
  // POST send
  // ---------------------------------------------------------------------------

  /** The send action: all three fields are required, then the store's verdict decides. */
  function SendActionSpec(s: Snapshot, userId: string, roomId: string, message: string, now: int): (SendResponse, Snapshot)
  {
    if userId == "" || roomId == "" || message == "" then
      (SendError(400, "Missing required fields"), s)
    else
      var (ok, t) := SendSpec(s, userId, roomId, message, now);
      if !ok then (SendError(400, "Failed to send message"), t) else (SendOk, t)
  }

  method SendAction(store: ChatStore, userId: string, roomId: string, message: string, now: int)
    returns (response: SendResponse)
    requires store.Valid()
    modifies store
    ensures store.Valid()
    ensures (response, store.State()) == SendActionSpec(old(store.State()), userId, roomId, message, now)
  {
    if userId == "" || roomId == "" || message == "" {
      return SendError(400, "Missing required fields");
    }
    var success := store.SendMessage(userId, roomId, message, now);
    if !success {
      return SendError(400, "Failed to send message");
    }
    return SendOk;
  }

  /**
   * A missing field is "Missing required fields"; a sender who is not in the
   * room, or a missing room, is "Failed to send message"; both leave the state
   * as it was. Success appends exactly the one message to that room's log.
   * In every case the queue, the index and the cursors are untouched.
   */
  lemma SendOutcomes(s: Snapshot, userId: string, roomId: string, message: string, now: int)
    ensures var (response, t) := SendActionSpec(s, userId, roomId, message, now);
      && t.waiting == s.waiting && t.userToRoom == s.userToRoom && t.cursors == s.cursors
      && ((userId == "" || roomId == "" || message == "") ==>
            response == SendError(400, "Missing required fields") && t == s)
      && (userId != "" && roomId != "" && message != "" && !(roomId in s.rooms && IsMember(s.rooms[roomId], userId)) ==>
            response == SendError(400, "Failed to send message") && t == s)
      && (response == SendOk <==>
            userId != "" && roomId != "" && message != "" && roomId in s.rooms && IsMember(s.rooms[roomId], userId))
      && (response == SendOk ==>
            t.rooms[roomId].messages == s.rooms[roomId].messages + [Message(roomId, userId, message, now)] &&
            t.rooms - {roomId} == s.rooms - {roomId})
  {
    SendAppendsOne(s, userId, roomId, message, now);
  }
}
