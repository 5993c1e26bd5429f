/**
 Whole sessions against the registry: two users meeting in a room and one
 of them leaving, and a third user arriving in a full room.
 */
module Scenarios {
  import opened Signals
  import opened Registry

  /** The first user to join a room becomes its initiator and is told to call. */
  lemma FirstJoinerCalls(a: Id, nameA: Value, r: Value)
    ensures JoinStep([], a, nameA, r) == Step([User(a, nameA, r, true)], [Emit(Self(a), ShowCallButton)])
  {
  }

  /**
   The second user to join the room is a responder: it is told to answer
   and the room is told it joined.
   */
  lemma SecondJoinerAnswers(a: Id, b: Id, nameA: Value, nameB: Value, r: Value)
    requires a != b
    ensures JoinStep([User(a, nameA, r, true)], b, nameB, r) ==
      Step([User(a, nameA, r, true), User(b, nameB, r, false)],
           [Emit(RoomExcept(r, b), UserJoined(User(b, nameB, r, false))), Emit(Self(b), ShowAnswerButton)])
  {
    var ua := User(a, nameA, r, true);
    assert InRoom([ua], r) == [ua] by {
      assert [ua][..0] == [];
    }
    assert !HasUser([ua], b);
  }

  /**
   When the initiator leaves, the responder is told to call, while its
   stored record still says it is not the initiator.
   */
  lemma InitiatorLeaves(a: Id, b: Id, nameA: Value, nameB: Value, r: Value)
    requires a != b
    ensures DisconnectStep([User(a, nameA, r, true), User(b, nameB, r, false)], a) ==
      Step([User(b, nameB, r, false)], [Emit(Room(Text(b)), ShowCallButton)])
  {
    var ua, ub := User(a, nameA, r, true), User(b, nameB, r, false);
    assert FirstIndex([ua, ub], a) == 0;
    assert RemoveAt([ua, ub], 0) == [ub];
    assert InRoom([ub], r) == [ub] by {
      assert [ub][..0] == [];
    }
    assert SurvivorNotice([ub], r) == [Emit(Room(Text(b)), ShowCallButton)];
  }

  /**
   A joins room r, then B; A leaves. A is told to show the call button, B
   to show the answer button and A learns of B; after A leaves, B is told to
   show the call button while its stored record still says it is not the
   initiator.
   */
  lemma TwoUsersMeetAndOneLeaves(a: Id, b: Id, nameA: Value, nameB: Value, r: Value)
    requires a != b
    ensures var s1 := JoinStep([], a, nameA, r);
      s1.users == [User(a, nameA, r, true)] &&
      s1.out == [Emit(Self(a), ShowCallButton)]
    ensures var s2 := JoinStep([User(a, nameA, r, true)], b, nameB, r);
      s2.users == [User(a, nameA, r, true), User(b, nameB, r, false)] &&
      s2.out == [Emit(RoomExcept(r, b), UserJoined(User(b, nameB, r, false))), Emit(Self(b), ShowAnswerButton)]
    ensures var s3 := DisconnectStep([User(a, nameA, r, true), User(b, nameB, r, false)], a);
      s3.users == [User(b, nameB, r, false)] &&
      s3.out == [Emit(Room(Text(b)), ShowCallButton)]
  {
    FirstJoinerCalls(a, nameA, r);
    SecondJoinerAnswers(a, b, nameA, nameB, r);
    InitiatorLeaves(a, b, nameA, nameB, r);
  }

  /**
   A third user joining a room that already holds two is a responder: it
   is shown the answer button and the two others are told it joined.
   */
  lemma ThirdJoinerIsResponder(users: seq<User>, c: Id, name: Value, r: Value)
    requires |users| == 2 && users[0].roomId == r && users[1].roomId == r
    requires !HasUser(users, c)
    ensures var s := JoinStep(users, c, name, r);
      !s.users[2].isInitiator &&
      s.out == [Emit(RoomExcept(r, c), UserJoined(User(c, name, r, false))), Emit(Self(c), ShowAnswerButton)]
  {
  }
}
