/**
 The relay server of server/src/index.ts as an object: the `userData`
 array it mutates in place, together with the socket.io connections and room
 memberships that the handlers' emissions are resolved against. Each
 handler runs to completion and returns the emissions it made, in order.
 */
module Server {
  import opened Signals
  import opened Registry
  import Router

  class SignalingServer {
    /** The registry, `userData` (server/src/index.ts:15). */
    var userData: seq<User>
    /** The ids of the open connections. */
    var connected: set<Id>
    /** socket.io room membership; `socket.join` adds to it on every join. */
    var rooms: set<Membership>

    ghost predicate Valid()
      reads this
    {
      UniqueIds(userData) &&
      (forall u :: u in userData ==> u.userId in connected && Membership(u.userId, u.roomId) in rooms) &&
      (forall m :: m in rooms ==> m.socket in connected) &&
      (forall id :: id in connected ==> Membership(id, Text(id)) in rooms)
    }

    constructor ()
      ensures Valid()
      ensures userData == [] && connected == {} && rooms == {}
    {
      userData := [];
      connected := {};
      rooms := {};
    }

    /** A new connection: socket.io puts it in the room named by its id (server/src/index.ts:17). */
    method Connect(sid: Id)
      requires Valid()
      requires sid !in connected
      modifies this
      ensures Valid()
      ensures connected == old(connected) + {sid}
      ensures rooms == old(rooms) + {Membership(sid, Text(sid))}
      ensures userData == old(userData)
    {
      connected := connected + {sid};
      rooms := rooms + {Membership(sid, Text(sid))};
    }

    /** `userData.findIndex(u => u.userId === sid)`. */
    method FindUserIndex(sid: Id) returns (index: int)
      ensures -1 <= index < |userData|
      ensures index >= 0 ==> userData[index].userId == sid
      ensures index >= 0 ==> forall k :: 0 <= k < index ==> userData[k].userId != sid
      ensures index == -1 ==> forall k :: 0 <= k < |userData| ==> userData[k].userId != sid
      ensures index == FirstIndex(userData, sid)
    {
      var i := 0;
      while i < |userData| && userData[i].userId != sid
        invariant 0 <= i <= |userData|
        invariant forall k :: 0 <= k < i ==> userData[k].userId != sid
      {
        i := i + 1;
      }
      index := if i == |userData| then -1 else i;
    }

    /** `userData.find(u => u.userId === sid)`. */
    method FindUser(sid: Id) returns (user: Option<User>)
      ensures user.None? <==> !HasUser(userData, sid)
      ensures user.Some? ==> user.value == userData[FirstIndex(userData, sid)]
    {
      var index := FindUserIndex(sid);
      user := if index == -1 then None else Some(userData[index]);
    }

    /** `userData.filter(u => u.roomId === room)`. */
    method FilterRoom(room: Value) returns (roomUsers: seq<User>)
      ensures forall u :: u in roomUsers <==> u in userData && u.roomId == room
      ensures roomUsers == InRoom(userData, room)
    {
      roomUsers := [];
      var i := 0;
      while i < |userData|
        invariant 0 <= i <= |userData|
        invariant roomUsers == InRoom(userData[..i], room)
      {
        assert userData[..i + 1][..i] == userData[..i];
        if userData[i].roomId == room {
          roomUsers := roomUsers + [userData[i]];
        }
        i := i + 1;
      }
      assert userData[..i] == userData;
    }

    /** The `join-room` handler for connection `sid` (server/src/index.ts:20-44). */
    method JoinRoom(sid: Id, payload: Payload) returns (out: seq<Emit>)
      requires Valid()
      requires sid in connected
      modifies this
      ensures Valid()
      ensures connected == old(connected)
      ensures rooms == old(rooms) + {Membership(sid, Field(payload, "roomId"))}
      ensures Step(userData, out) == JoinStep(old(userData), sid, Field(payload, "name"), Field(payload, "roomId"))
      ensures HasUser(userData, sid)
      ensures forall e :: e in out && e.event.UserJoined? ==>
                sid !in Recipients(rooms, e.target) &&
                forall u :: u in old(userData) && u.roomId == Field(payload, "roomId") &&
                            Membership(u.userId, Text(sid)) !in rooms ==>
                  u.userId in Recipients(rooms, e.target)
    {
      var name, roomId := Field(payload, "name"), Field(payload, "roomId");
      rooms := rooms + {Membership(sid, roomId)};
      JoinKeepsIdsUnique(userData, sid, name, roomId);
      JoinNotifications(userData, sid, name, roomId);
      if !HasUser(userData, sid) {
        UserJoinedAudience(rooms, userData, sid, roomId);
      }
      var existingUser := FindUser(sid);
      out := [];
      if existingUser.None? {
        var roomUsers := FilterRoom(roomId);
        var isInitiator := |roomUsers| == 0;
        var user := User(sid, name, roomId, isInitiator);
        userData := userData + [user];
        if isInitiator {
          out := [Emit(Self(sid), ShowCallButton)];
        } else {
          out := [Emit(RoomExcept(roomId, sid), UserJoined(user)), Emit(Self(sid), ShowAnswerButton)];
        }
      }
    }

    /** The `send-offer` handler: nothing in the server changes (server/src/index.ts:46-48). */
    method SendOffer(sid: Id, payload: Payload) returns (out: seq<Emit>)
      ensures out == [Router.Offer(sid, payload)]
      ensures out[0].event.from == sid
    {
      out := [Router.Offer(sid, payload)];
    }

    /** The `send-answer` handler: nothing in the server changes (server/src/index.ts:50-52). */
    method SendAnswer(sid: Id, payload: Payload) returns (out: seq<Emit>)
      ensures out == [Router.Answer(sid, payload)]
    {
      out := [Router.Answer(sid, payload)];
    }

    /** The `ice-candidate` handler: nothing in the server changes (server/src/index.ts:54-56). */
    method RelayCandidate(sid: Id, payload: Payload) returns (out: seq<Emit>)
      ensures out == [Router.Candidate(sid, payload)]
    {
      out := [Router.Candidate(sid, payload)];
    }

    /**
     The `disconnect` handler for connection `sid` (server/src/index.ts:58-72).
     socket.io has already taken the socket out of every room when the
     handler runs.
     */
    method Disconnect(sid: Id) returns (out: seq<Emit>)
      requires Valid()
      modifies this
      ensures Valid()
      ensures connected == old(connected) - {sid}
      ensures rooms == set m | m in old(rooms) && m.socket != sid
      ensures Step(userData, out) == DisconnectStep(old(userData), sid)
      ensures !HasUser(userData, sid)
      ensures forall e :: e in out ==>
                e.event == ShowCallButton &&
                exists u :: u in userData && e.target == Room(Text(u.userId)) && u.userId in Recipients(rooms, e.target)
    {
      connected := connected - {sid};
      rooms := set m | m in rooms && m.socket != sid;
      DisconnectKeepsIdsUnique(userData, sid);
      DisconnectKeepsSurvivorRecords(userData, sid);
      var index := FindUserIndex(sid);
      out := [];
      if index != -1 {
        var disconnectedUser := userData[index];
        var roomId := disconnectedUser.roomId;
        DisconnectUnfolds(userData, sid);
        userData := RemoveAt(userData, index);
        assert Valid();
        out := NotifyLoneSurvivor(roomId);
      }
    }

    /**
     The tail of the `disconnect` handler, once the record is gone: if one
     record of `room` is left, `show-call-button` to its connection, which
     is among the sockets the emission reaches (server/src/index.ts:65-68).
     */
    method NotifyLoneSurvivor(room: Value) returns (out: seq<Emit>)
      requires Valid()
      ensures out == SurvivorNotice(userData, room)
      ensures forall e :: e in out ==>
                e.event == ShowCallButton &&
                exists u :: u in userData && e.target == Room(Text(u.userId)) && u.userId in Recipients(rooms, e.target)
    {
      var remainingUsers := FilterRoom(room);
      out := [];
      if |remainingUsers| == 1 {
        var survivor := remainingUsers[0];
        assert survivor in userData by {
          assert survivor in remainingUsers;
        }
        assert Membership(survivor.userId, Text(survivor.userId)) in rooms;
        out := [Emit(Room(Text(survivor.userId)), ShowCallButton)];
      }
    }
  }
}
