/**
 The room registry as functions on the `userData` sequence: what the
 `join-room` and `disconnect` handlers do to it and what they emit, with the
 lemmas that state their behaviour.
 */
module Registry {
  import opened Signals

  /** Some record of `users` has connection id `id`. */
  predicate HasUser(users: seq<User>, id: Id)
  {
    exists k :: 0 <= k < |users| && users[k].userId == id
  }

  /** No two records share a connection id. */
  predicate UniqueIds(users: seq<User>)
  {
    forall a, b :: 0 <= a < b < |users| ==> users[a].userId != users[b].userId
  }

  /** `findIndex(u => u.userId === id)`: the first position with that id, or -1. */
  function FirstIndex(users: seq<User>, id: Id): (i: int)
    ensures -1 <= i < |users|
    ensures i >= 0 ==> users[i].userId == id && forall k :: 0 <= k < i ==> users[k].userId != id
    ensures i == -1 <==> !HasUser(users, id)
  {
    if users == [] then -1
    else if users[0].userId == id then 0
    else
      var j := FirstIndex(users[1..], id);
      assert forall k :: 1 <= k < |users| ==> users[k] == users[1..][k - 1];
      if j < 0 then -1 else j + 1
  }

  /**
   `filter(u => u.roomId === room)`: the records of one room, in order.
   */
  function InRoom(users: seq<User>, room: Value): (rs: seq<User>)
    ensures |rs| <= |users|
    ensures forall u :: u in rs <==> u in users && u.roomId == room
    decreases |users|
  {
    if users == [] then []
    else
      var init, last := users[..|users| - 1], users[|users| - 1];
      assert users == init + [last];
      InRoom(init, room) + (if last.roomId == room then [last] else [])
  }

  /** The filter keeps each record of the room as often as it occurs, and no other record. */
  lemma {:induction false} InRoomCounts(users: seq<User>, room: Value)
    ensures forall u :: multiset(InRoom(users, room))[u] == if u.roomId == room then multiset(users)[u] else 0
    decreases |users|
  {
    if users != [] {
      var init, last := users[..|users| - 1], users[|users| - 1];
      assert users == init + [last];
      InRoomCounts(init, room);
      assert multiset(users) == multiset(init) + multiset{last};
    }
  }

  /** The filter is empty exactly when no record belongs to the room. */
  lemma InRoomEmptyIff(users: seq<User>, room: Value)
    ensures InRoom(users, room) == [] <==> forall k :: 0 <= k < |users| ==> users[k].roomId != room
  {
    var rs := InRoom(users, room);
    if rs != [] {
      assert rs[0] in rs;
    }
    if k :| 0 <= k < |users| && users[k].roomId == room {
      assert users[k] in users;
      assert users[k] in rs;
    }
  }

  /** The registry after a handler, and what the handler emitted. */
  datatype Step = Step(users: seq<User>, out: seq<Emit>)

  /**
   The `join-room` handler for connection `sid` (server/src/index.ts:23-43).
   A repeated join leaves the registry as it is and emits nothing. A first
   join appends one record for the joiner and keeps the earlier records as
   they were: the joiner is initiator exactly when no earlier record
   belongs to its room, and gets one notice as initiator, two otherwise.
   */
  function JoinStep(users: seq<User>, sid: Id, name: Value, room: Value): (r: Step)
    ensures HasUser(users, sid) ==> r == Step(users, [])
    ensures !HasUser(users, sid) ==>
      |r.users| == |users| + 1 && r.users[..|users|] == users &&
      r.users[|users|] == User(sid, name, room, forall k :: 0 <= k < |users| ==> users[k].roomId != room) &&
      |r.out| == if r.users[|users|].isInitiator then 1 else 2
  {
    InRoomEmptyIff(users, room);
    if HasUser(users, sid) then Step(users, [])
    else
      var user := User(sid, name, room, |InRoom(users, room)| == 0);
      if user.isInitiator then
        Step(users + [user], [Emit(Self(sid), ShowCallButton)])
      else
        Step(users + [user], [Emit(RoomExcept(room, sid), UserJoined(user)), Emit(Self(sid), ShowAnswerButton)])
  }

  /** `splice(i, 1)`: the sequence without position `i`. */
  function RemoveAt(users: seq<User>, i: nat): (r: seq<User>)
    requires i < |users|
    ensures |r| == |users| - 1
    ensures forall k :: 0 <= k < i ==> r[k] == users[k]
    ensures forall k :: i <= k < |r| ==> r[k] == users[k + 1]
  {
    users[..i] + users[i + 1..]
  }

  /**
   The `disconnect` handler for connection `sid` (server/src/index.ts:59-69).
   Without a record of `sid` nothing changes and nothing is emitted.
   Otherwise the first record of `sid` is spliced out, and at most one
   `show-call-button` is emitted.
   */
  function DisconnectStep(users: seq<User>, sid: Id): (r: Step)
    ensures !HasUser(users, sid) ==> r == Step(users, [])
    ensures HasUser(users, sid) ==> r.users == RemoveAt(users, FirstIndex(users, sid))
    ensures |r.out| <= 1 && forall e :: e in r.out ==> e.event == ShowCallButton
  {
    var i := FirstIndex(users, sid);
    if i == -1 then Step(users, [])
    else
      var room := users[i].roomId;
      var rest := RemoveAt(users, i);
      Step(rest, SurvivorNotice(rest, room))
  }

  /**
   What the disconnect handler emits once the record is gone
   (server/src/index.ts:65-68): at most one `show-call-button`, addressed
   to the room named by the id of a remaining record of `room`.
   */
  function SurvivorNotice(rest: seq<User>, room: Value): (out: seq<Emit>)
    ensures |out| <= 1
    ensures forall e :: e in out ==>
              e.event == ShowCallButton &&
              exists u :: u in rest && u.roomId == room && e.target == Room(Text(u.userId))
  {
    var remaining := InRoom(rest, room);
    if |remaining| == 1 then
      assert remaining[0] in remaining;
      [Emit(Room(Text(remaining[0].userId)), ShowCallButton)]
    else []
  }

  /** Exactly one record of `users` belongs to `room`, and it is `v`. */
  predicate LoneInRoom(users: seq<User>, room: Value, v: User)
  {
    v in users && v.roomId == room && forall w :: w in users && w.roomId == room ==> w == v
  }

  // ---------------------------------------------------------------- filter

  lemma {:induction false} InRoomKeepsUniqueIds(users: seq<User>, room: Value)
    requires UniqueIds(users)
    ensures UniqueIds(InRoom(users, room))
    decreases |users|
  {
    if users != [] {
      var init, last := users[..|users| - 1], users[|users| - 1];
      assert UniqueIds(init);
      InRoomKeepsUniqueIds(init, room);
      var front := InRoom(init, room);
      assert forall u :: u in front ==> u in init;
      assert forall u :: u in init ==> u.userId != last.userId;
    }
  }

  /** The first two elements of a sequence, when it has two, are in it (a trigger for the lemma below). */
  lemma FrontPairIn(s: seq<User>)
    ensures |s| >= 2 ==> s[0] in s && s[1] in s
  {
  }

  /** Under unique ids, "the filter has length one" means "one record of that room". */
  lemma OneInRoomIffLone(users: seq<User>, room: Value)
    requires UniqueIds(users)
    ensures |InRoom(users, room)| == 1 <==> exists v :: LoneInRoom(users, room, v)
    ensures |InRoom(users, room)| == 1 ==> LoneInRoom(users, room, InRoom(users, room)[0])
  {
    var rs := InRoom(users, room);
    if |rs| == 1 {
      assert rs[0] in rs;
      assert LoneInRoom(users, room, rs[0]);
    }
    if v :| LoneInRoom(users, room, v) {
      InRoomKeepsUniqueIds(users, room);
      assert v in rs;
      FrontPairIn(rs);
      assert |rs| <= 1;
    }
  }

  // ------------------------------------------------------------------ join

  /** Joining with an id already registered changes nothing and emits nothing. */
  lemma JoinExistingIsNoop(users: seq<User>, sid: Id, name: Value, room: Value)
    requires HasUser(users, sid)
    ensures JoinStep(users, sid, name, room) == Step(users, [])
  {
  }

  /**
   What a join emits: `show-call-button` goes to the joiner alone and
   exactly when it is initiator; otherwise the joiner gets
   `show-answer-button` and the rest of the room gets `user-joined` with the
   new record. Nothing is emitted on a repeated join.
   */
  lemma JoinNotifications(users: seq<User>, sid: Id, name: Value, room: Value)
    ensures var s := JoinStep(users, sid, name, room);
      (forall e :: e in s.out && e.event == ShowCallButton ==> e.target == Self(sid)) &&
      ((exists e :: e in s.out && e.event == ShowCallButton) <==>
         !HasUser(users, sid) && s.users[|users|].isInitiator) &&
      ((exists e :: e in s.out && e.event == ShowAnswerButton) <==>
         !HasUser(users, sid) && !s.users[|users|].isInitiator) &&
      (forall e :: e in s.out && e.event == ShowAnswerButton ==> e.target == Self(sid)) &&
      (forall e :: e in s.out && e.event.UserJoined? ==>
         !HasUser(users, sid) && !s.users[|users|].isInitiator &&
         e.target == RoomExcept(room, sid) && e.event.user == s.users[|users|]) &&
      (!HasUser(users, sid) && !s.users[|users|].isInitiator ==>
         Emit(RoomExcept(room, sid), UserJoined(s.users[|users|])) in s.out)
  {
    var s := JoinStep(users, sid, name, room);
    if !HasUser(users, sid) {
      var user := User(sid, name, room, |InRoom(users, room)| == 0);
      assert s.users[|users|] == user;
      if user.isInitiator {
        assert s.out == [Emit(Self(sid), ShowCallButton)];
      } else {
        assert s.out == [Emit(RoomExcept(room, sid), UserJoined(user)), Emit(Self(sid), ShowAnswerButton)];
      }
    }
  }

  /** Joining keeps connection ids unique and registers the joiner. */
  lemma JoinKeepsIdsUnique(users: seq<User>, sid: Id, name: Value, room: Value)
    requires UniqueIds(users)
    ensures UniqueIds(JoinStep(users, sid, name, room).users)
    ensures HasUser(JoinStep(users, sid, name, room).users, sid)
  {
    var r := JoinStep(users, sid, name, room).users;
    if !HasUser(users, sid) {
      assert r[|users|].userId == sid;
    }
  }

  /**
   `user-joined` never reaches the joiner, and reaches each earlier record
   of the joiner's room unless that user has also joined the room named by
   the joiner's id (socket.io 4 leaves out every socket of the sender's room).
   */
  lemma UserJoinedAudience(rooms: set<Membership>, users: seq<User>, sid: Id, room: Value)
    requires forall u :: u in users ==> Membership(u.userId, u.roomId) in rooms
    requires Membership(sid, Text(sid)) in rooms
    ensures sid !in Recipients(rooms, RoomExcept(room, sid))
    ensures forall u :: u in users && u.roomId == room && Membership(u.userId, Text(sid)) !in rooms ==>
              u.userId in Recipients(rooms, RoomExcept(room, sid))
  {
  }

  // ------------------------------------------------------------ disconnect

  /** A disconnect for an id without a record changes nothing and emits nothing. */
  lemma DisconnectAbsentIsNoop(users: seq<User>, sid: Id)
    requires !HasUser(users, sid)
    ensures DisconnectStep(users, sid) == Step(users, [])
  {
  }

  /** Removing one position takes exactly that record out of the multiset of records. */
  lemma RemoveAtMultiset(users: seq<User>, i: nat)
    requires i < |users|
    ensures multiset(RemoveAt(users, i)) + multiset{users[i]} == multiset(users)
  {
    assert users == users[..i] + [users[i]] + users[i + 1..];
  }

  /**
   A disconnect removes the first record with that id and keeps every other
   record, in order and unchanged.
   */
  lemma DisconnectRemovesFirstRecord(users: seq<User>, sid: Id)
    requires HasUser(users, sid)
    ensures var i := FirstIndex(users, sid); var r := DisconnectStep(users, sid).users;
      0 <= i < |users| && users[i].userId == sid &&
      (forall k :: 0 <= k < i ==> users[k].userId != sid) &&
      r == RemoveAt(users, i) &&
      multiset(r) + multiset{users[i]} == multiset(users)
  {
    RemoveAtMultiset(users, FirstIndex(users, sid));
  }

  /** Under unique ids, removing the record at `i` leaves no record with its id. */
  lemma RemoveAtKeepsUnique(users: seq<User>, i: nat)
    requires UniqueIds(users)
    requires i < |users|
    ensures UniqueIds(RemoveAt(users, i))
    ensures !HasUser(RemoveAt(users, i), users[i].userId)
    ensures forall u :: u in users && u.userId != users[i].userId ==> u in RemoveAt(users, i)
  {
    var r := RemoveAt(users, i);
    forall a, b | 0 <= a < b < |r|
      ensures r[a].userId != r[b].userId
    {
      var a', b' := if a < i then a else a + 1, if b < i then b else b + 1;
      assert r[a] == users[a'] && r[b] == users[b'];
    }
    forall k | 0 <= k < |r|
      ensures r[k].userId != users[i].userId
    {
      var k' := if k < i then k else k + 1;
      assert r[k] == users[k'];
    }
    forall u | u in users && u.userId != users[i].userId
      ensures u in r
    {
      var k :| 0 <= k < |users| && users[k] == u;
      if k < i {
        assert r[k] == u;
      } else {
        assert k > i;
        assert r[k - 1] == u;
      }
    }
  }

  /** Disconnect keeps ids unique and leaves no record with the disconnected id. */
  lemma DisconnectKeepsIdsUnique(users: seq<User>, sid: Id)
    requires UniqueIds(users)
    ensures UniqueIds(DisconnectStep(users, sid).users)
    ensures !HasUser(DisconnectStep(users, sid).users, sid)
  {
    var i := FirstIndex(users, sid);
    if i >= 0 {
      RemoveAtKeepsUnique(users, i);
    }
  }

  /** A second disconnect for the same id has no further effect. */
  lemma DisconnectIsIdempotent(users: seq<User>, sid: Id)
    requires UniqueIds(users)
    ensures var once := DisconnectStep(users, sid).users;
      DisconnectStep(once, sid) == Step(once, [])
  {
    DisconnectKeepsIdsUnique(users, sid);
  }

  /**
   The records left by a disconnect are records that were there before, so
   a survivor's stored `isInitiator` is never changed; under unique ids every
   other user's record is still present.
   */
  lemma DisconnectKeepsSurvivorRecords(users: seq<User>, sid: Id)
    requires UniqueIds(users)
    ensures var r := DisconnectStep(users, sid).users;
      (forall u :: u in r ==> u in users) &&
      (forall u :: u in users && u.userId != sid ==> u in r)
  {
    var i := FirstIndex(users, sid);
    if i >= 0 {
      RemoveAtKeepsUnique(users, i);
      var r := RemoveAt(users, i);
      forall u | u in r
        ensures u in users
      {
        var k :| 0 <= k < |r| && r[k] == u;
        if k < i {
          assert users[k] == u;
        } else {
          assert users[k + 1] == u;
        }
      }
    }
  }

  /** A disconnect that finds a record splices it out and then emits the survivor notice. */
  lemma DisconnectUnfolds(users: seq<User>, sid: Id)
    requires HasUser(users, sid)
    ensures var i := FirstIndex(users, sid);
      DisconnectStep(users, sid) == Step(RemoveAt(users, i), SurvivorNotice(RemoveAt(users, i), users[i].roomId))
  {
  }

  lemma SurvivorNoticeIsLone(rest: seq<User>, room: Value)
    requires UniqueIds(rest)
    ensures SurvivorNotice(rest, room) != [] <==> exists v :: LoneInRoom(rest, room, v)
    ensures forall v :: LoneInRoom(rest, room, v) ==>
              SurvivorNotice(rest, room) == [Emit(Room(Text(v.userId)), ShowCallButton)]
  {
    var remaining := InRoom(rest, room);
    OneInRoomIffLone(rest, room);
    forall v | LoneInRoom(rest, room, v)
      ensures SurvivorNotice(rest, room) == [Emit(Room(Text(v.userId)), ShowCallButton)]
    {
      assert remaining[0] in remaining;
    }
  }

  /**
   After a removal, `show-call-button` is emitted exactly when one record of
   the departed user's room remains, and it is addressed to that record's
   connection id. Nothing else is ever emitted.
   */
  lemma DisconnectNotifiesLoneSurvivor(users: seq<User>, sid: Id)
    requires UniqueIds(users)
    requires HasUser(users, sid)
    ensures var s := DisconnectStep(users, sid); var room := users[FirstIndex(users, sid)].roomId;
      (s.out != [] <==> exists v :: LoneInRoom(s.users, room, v)) &&
      (forall v :: LoneInRoom(s.users, room, v) ==> s.out == [Emit(Room(Text(v.userId)), ShowCallButton)])
  {
    var i := FirstIndex(users, sid);
    var rest, room := RemoveAt(users, i), users[i].roomId;
    DisconnectUnfolds(users, sid);
    assert UniqueIds(rest) by { RemoveAtKeepsUnique(users, i); }
    SurvivorNoticeIsLone(rest, room);
  }
}
