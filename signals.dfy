/**
 The vocabulary shared by the relay's registry and router: the values a
 client sends, the user record kept by the server, the events it emits and
 the socket.io targets those events are addressed to.
 */
module Signals {

  datatype Option<T> = None | Some(value: T)

  /** A socket.io connection id, assigned by the transport. */
  type Id = string

  /**
   A value taken out of a decoded client message. The relay never looks
   inside one; `Undefined` is what a missing field reads as.
   */
  datatype Value = Undefined | Text(text: string)

  /** A decoded client message: an object from field names to values. */
  type Payload = map<string, Value>

  /** Reading a field of a message, as a destructuring assignment does. */
  function Field(p: Payload, key: string): (v: Value)
    ensures key !in p ==> v == Undefined
    ensures key in p ==> v == p[key]
  {
    if key in p then p[key] else Undefined
  }

  /** One entry of the server's `userData` registry. */
  datatype User = User(userId: Id, name: Value, roomId: Value, isInitiator: bool)

  /** The events the server emits, with the payload each one carries. */
  datatype Event =
    | ShowCallButton
    | ShowAnswerButton
    | UserJoined(user: User)
    | OfferReceived(offer: Value, from: Id, name: Value)
    | AnswerReceived(answer: Value)
    | IceCandidate(candidate: Value)

  /**
   Where an event goes:
   `Self(id)`              socket.emit on the connection `id`;
   `RoomExcept(room, id)`  socket.to(room).emit from connection `id`: every
                           socket in the room except those in the room
                           named by `id` (socket.io 4 excludes the
                           sender's own room, not only the sender);
   `Room(room)`            io.to(room).emit: every socket in the room.
   */
  datatype Target = Self(id: Id) | RoomExcept(room: Value, except: Id) | Room(room: Value)

  /** One recorded emission. */
  datatype Emit = Emit(target: Target, event: Event)

  /**
   One socket.io room membership. Every connection is in the room named by
   its own id, and in every room it has joined.
   */
  datatype Membership = Membership(socket: Id, room: Value)

  /** The set of sockets that are members of `room`. */
  function Members(rooms: set<Membership>, room: Value): (s: set<Id>)
    ensures forall id :: id in s <==> Membership(id, room) in rooms
  {
    set m | m in rooms && m.room == room :: m.socket
  }

  /** The set of sockets an emission to `t` is delivered to. */
  function Recipients(rooms: set<Membership>, t: Target): (r: set<Id>)
    ensures t.Self? ==> r == {t.id}
    ensures t.RoomExcept? ==> forall id :: id in r <==>
              Membership(id, t.room) in rooms && Membership(id, Text(t.except)) !in rooms
    ensures t.Room? ==> forall id :: id in r <==> Membership(id, t.room) in rooms
  {
    match t
    case Self(id) => {id}
    case RoomExcept(room, except) => Members(rooms, room) - Members(rooms, Text(except))
    case Room(room) => Members(rooms, room)
  }

  /**
   A broadcast from a socket reaches part of the room: no socket outside
   the room, never the sender while it is in its own room, and every member
   of the room that has not joined the room named by the sender's id.
   */
  lemma BroadcastExcludesSenderRoom(rooms: set<Membership>, room: Value, sender: Id)
    ensures Recipients(rooms, RoomExcept(room, sender)) <= Recipients(rooms, Room(room))
    ensures Membership(sender, Text(sender)) in rooms ==> sender !in Recipients(rooms, RoomExcept(room, sender))
    ensures forall id :: id in Recipients(rooms, Room(room)) && Membership(id, Text(sender)) !in rooms ==>
              id in Recipients(rooms, RoomExcept(room, sender))
  {
  }
}
