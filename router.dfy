/**
 The three relay handlers, `send-offer`, `send-answer` and `ice-candidate`:
 each reads a few fields of the client's message and emits one event to the
 room named by `to`, from the sender's socket. They keep no state.
 */
module Router {
  import opened Signals

  /**
   `send-offer` from `sender` (server/src/index.ts:46-48): `offer-received`
   carrying the client's `offer` and `name` and the sender's id as `from`,
   delivered to the members of room `to` outside the sender's own room.
   */
  function Offer(sender: Id, p: Payload): (r: Emit)
    ensures r.event == OfferReceived(Field(p, "offer"), sender, Field(p, "name"))
    ensures forall rooms :: Recipients(rooms, r.target) ==
              Members(rooms, Field(p, "to")) - Members(rooms, Text(sender))
  {
    Emit(RoomExcept(Field(p, "to"), sender), OfferReceived(Field(p, "offer"), sender, Field(p, "name")))
  }

  /**
   `send-answer` from `sender` (server/src/index.ts:50-52): `answer-received`
   carrying the client's `answer` alone, delivered to the members of room
   `to` outside the sender's own room.
   */
  function Answer(sender: Id, p: Payload): (r: Emit)
    ensures r.event == AnswerReceived(Field(p, "answer"))
    ensures forall rooms :: Recipients(rooms, r.target) ==
              Members(rooms, Field(p, "to")) - Members(rooms, Text(sender))
  {
    Emit(RoomExcept(Field(p, "to"), sender), AnswerReceived(Field(p, "answer")))
  }

  /**
   `ice-candidate` from `sender` (server/src/index.ts:54-56): `ice-candidate`
   carrying the client's `candidate` alone, delivered to the members of room
   `to` outside the sender's own room.
   */
  function Candidate(sender: Id, p: Payload): (r: Emit)
    ensures r.event == IceCandidate(Field(p, "candidate"))
    ensures forall rooms :: Recipients(rooms, r.target) ==
              Members(rooms, Field(p, "to")) - Members(rooms, Text(sender))
  {
    Emit(RoomExcept(Field(p, "to"), sender), IceCandidate(Field(p, "candidate")))
  }

  /**
   A forwarded offer names the sender's connection id as `from`, carries the
   client's `offer` and `name`, and goes only to the room `to`, never back to
   the sender. A `from` field the client put in its message is ignored.
   */
  lemma OfferFromIsSender(sender: Id, p: Payload, claimed: Value)
    ensures Offer(sender, p).event.from == sender
    ensures Offer(sender, p).event.offer == Field(p, "offer") && Offer(sender, p).event.name == Field(p, "name")
    ensures Offer(sender, p).target == RoomExcept(Field(p, "to"), sender)
    ensures Offer(sender, p["from" := claimed]) == Offer(sender, p)
  {
  }

  /**
   The forwarded offer depends on the client's `offer`, `to` and `name`
   fields only: two messages that agree on those are forwarded alike,
   whatever else either carries.
   */
  lemma OfferReadsThreeFields(sender: Id, p: Payload, q: Payload)
    requires forall k :: k in {"offer", "to", "name"} ==> Field(p, k) == Field(q, k)
    ensures Offer(sender, p) == Offer(sender, q)
  {
    assert Field(p, "offer") == Field(q, "offer");
    assert Field(p, "to") == Field(q, "to");
    assert Field(p, "name") == Field(q, "name");
  }

  /**
   A forwarded answer carries the client's `answer` and nothing else, in
   particular no `from`; it depends on the `answer` and `to` fields only.
   */
  lemma AnswerCarriesOnlyAnswer(sender: Id, p: Payload, q: Payload)
    requires Field(p, "answer") == Field(q, "answer") && Field(p, "to") == Field(q, "to")
    ensures Answer(sender, p).event == AnswerReceived(Field(p, "answer"))
    ensures Answer(sender, p).target == RoomExcept(Field(p, "to"), sender)
    ensures Answer(sender, p) == Answer(sender, q)
  {
  }

  /**
   A forwarded candidate carries the client's `candidate` and nothing else,
   in particular no `from`; it depends on the `candidate` and `to` fields only.
   */
  lemma CandidateCarriesOnlyCandidate(sender: Id, p: Payload, q: Payload)
    requires Field(p, "candidate") == Field(q, "candidate") && Field(p, "to") == Field(q, "to")
    ensures Candidate(sender, p).event == IceCandidate(Field(p, "candidate"))
    ensures Candidate(sender, p).target == RoomExcept(Field(p, "to"), sender)
    ensures Candidate(sender, p) == Candidate(sender, q)
  {
  }

  /**
   When `to` is the id of another connection, no socket has joined a room
   of that name, and the addressee has not joined the room named by the
   sender's id, a relayed message reaches exactly that connection.
   */
  lemma RelayedToAddresseeOnly(rooms: set<Membership>, sender: Id, p: Payload, to: Id)
    requires Field(p, "to") == Text(to) && to != sender
    requires Membership(to, Text(to)) in rooms
    requires Membership(to, Text(sender)) !in rooms
    requires forall m :: m in rooms && m.room == Text(to) ==> m.socket == to
    ensures Recipients(rooms, Offer(sender, p).target) == {to}
    ensures Recipients(rooms, Answer(sender, p).target) == {to}
    ensures Recipients(rooms, Candidate(sender, p).target) == {to}
  {
    var t := RoomExcept(Text(to), sender);
    assert Offer(sender, p).target == t && Answer(sender, p).target == t && Candidate(sender, p).target == t;
    forall id | id in Recipients(rooms, t)
      ensures id == to
    {
      assert Membership(id, Text(to)) in rooms;
    }
  }

  /** A relayed message never comes back to its sender, which is in its own room. */
  lemma RelayNeverEchoes(rooms: set<Membership>, sender: Id, p: Payload)
    requires Membership(sender, Text(sender)) in rooms
    ensures sender !in Recipients(rooms, Offer(sender, p).target)
    ensures sender !in Recipients(rooms, Answer(sender, p).target)
    ensures sender !in Recipients(rooms, Candidate(sender, p).target)
  {
  }
}
