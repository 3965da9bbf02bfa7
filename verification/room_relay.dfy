/**
 * The socket.io handlers of server/index.js: `join-document` puts the socket in
 * the room named by the payload, and `document-change` forwards the delta, as
 * `receive-changes`, to every other socket in the room named by
 * `delta.documentId`. Room membership is an explicit map from room name to the
 * set of member sockets; the sender exclusion is socket.io's `socket.to(room)`.
 */
module RoomRelay {

  type SocketId = nat
  type RoomId = string

  /** An edit delta: the room it addresses and an opaque rest that the relay never reads. */
  datatype Delta = Delta(documentId: RoomId, rest: string)

  /** One `emit` to one socket. */
  datatype Message = Message(to: SocketId, event: string, payload: Delta)

  type Rooms = map<RoomId, set<SocketId>>

  const ReceiveChanges: string := "receive-changes"

  /** The members of `room`; a room nobody joined has none. */
  function Members(rooms: Rooms, room: RoomId): set<SocketId> {
    if room in rooms then rooms[room] else {}
  }

  /** `join-document`: any socket may join any room; no check is made. */
  function Join(rooms: Rooms, socket: SocketId, room: RoomId): (r: Rooms)
    ensures socket in Members(r, room)
    ensures Members(rooms, room) <= Members(r, room)
    ensures forall s | s != socket :: s in Members(r, room) <==> s in Members(rooms, room)
    ensures forall other | other != room :: Members(r, other) == Members(rooms, other)
  {
    rooms[room := Members(rooms, room) + {socket}]
  }

  /** The sockets a `document-change` from `sender` reaches. */
  function Recipients(rooms: Rooms, sender: SocketId, delta: Delta): (r: set<SocketId>)
    ensures sender !in r
    ensures r <= Members(rooms, delta.documentId)
    ensures forall s | s != sender && s in Members(rooms, delta.documentId) :: s in r
  {
    Members(rooms, delta.documentId) - {sender}
  }

  /** The fan-out of a `document-change`: one `receive-changes` message, carrying the delta, per recipient. */
  function Relay(rooms: Rooms, sender: SocketId, delta: Delta): (out: set<Message>)
    ensures forall m | m in out :: m.event == ReceiveChanges && m.payload == delta
    ensures forall s :: s in Recipients(rooms, sender, delta) <==> Message(s, ReceiveChanges, delta) in out
    ensures forall m | m in out :: m.to in Recipients(rooms, sender, delta)
  {
    set s | s in Recipients(rooms, sender, delta) :: Message(s, ReceiveChanges, delta)
  }

  /** Whether `s` receives anything from the relay. */
  predicate Receives(out: set<Message>, s: SocketId) {
    exists m | m in out :: m.to == s
  }

  /** Joining a room twice is joining it once. */
  lemma JoinIdempotent(rooms: Rooms, socket: SocketId, room: RoomId)
    ensures Join(Join(rooms, socket, room), socket, room) == Join(rooms, socket, room)
  {
    var once := Join(rooms, socket, room);
    assert Members(once, room) + {socket} == Members(once, room);
  }

  /** The sender never receives its own delta, member of the room or not. */
  lemma SenderNeverEchoed(rooms: Rooms, sender: SocketId, delta: Delta)
    ensures !Receives(Relay(rooms, sender, delta), sender)
  {
  }

  /** A socket receives a delta exactly when it is another member of the delta's room. */
  lemma ReceivesIff(rooms: Rooms, sender: SocketId, delta: Delta, s: SocketId)
    ensures Receives(Relay(rooms, sender, delta), s) <==> s != sender && s in Members(rooms, delta.documentId)
  {
    if s != sender && s in Members(rooms, delta.documentId) {
      assert Message(s, ReceiveChanges, delta) in Relay(rooms, sender, delta);
    }
  }

  /** A socket that is only in other rooms receives nothing. */
  lemma NonMemberReceivesNothing(rooms: Rooms, sender: SocketId, delta: Delta, s: SocketId)
    requires s !in Members(rooms, delta.documentId)
    ensures !Receives(Relay(rooms, sender, delta), s)
  {
  }

  /** A room with no member but the sender (or none at all) relays nothing, without error. */
  lemma LonelyRoomIsSilent(rooms: Rooms, sender: SocketId, delta: Delta)
    requires Members(rooms, delta.documentId) <= {sender}
    ensures Relay(rooms, sender, delta) == {}
  {
    assert Recipients(rooms, sender, delta) == {};
  }

  /** Once a socket has joined a room, it receives every delta addressed to that room by another socket. */
  lemma JoinedSocketReceives(rooms: Rooms, socket: SocketId, sender: SocketId, delta: Delta)
    requires socket != sender
    ensures Message(socket, ReceiveChanges, delta) in Relay(Join(rooms, socket, delta.documentId), sender, delta)
  {
  }

  /**
   * Two sockets join "doc1", a third joins "doc2", and the first sends a
   * change for "doc1": only the second receives it, with the payload unchanged.
   */
  lemma TwoRoomScenario()
    ensures var rooms := Join(Join(Join(map[], 1, "doc1"), 2, "doc1"), 3, "doc2");
      var delta := Delta("doc1", "hi");
      Relay(rooms, 1, delta) == {Message(2, ReceiveChanges, delta)}
  {
    var rooms := Join(Join(Join(map[], 1, "doc1"), 2, "doc1"), 3, "doc2");
    var delta := Delta("doc1", "hi");
    assert Members(rooms, "doc1") == {1, 2};
    assert Recipients(rooms, 1, delta) == {2};
  }

  /** A socket that joined no room can still send; it reaches the room's members and nobody else. */
  lemma OutsiderReachesMembers(rooms: Rooms, sender: SocketId, delta: Delta)
    requires forall room | room in rooms :: sender !in rooms[room]
    ensures Recipients(rooms, sender, delta) == Members(rooms, delta.documentId)
  {
  }
}
