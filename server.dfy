/** The signaling server's broker as the object the handlers mutate: the
    `rooms` and `clientRooms` maps are fields the handlers reassign, and every
    `send` is appended to `outbox`. Each handler is proved to leave exactly the
    registry and the sends that the value model in module Signaling gives, so
    the properties proved there hold of every run of these methods. */
module Server {
  import opened Signaling

  class Broker {
    var rooms: map<string, seq<Conn>>
    var clientRooms: map<Conn, string>
    /** Every message handed to `send`, oldest first. */
    var outbox: seq<Send>

    function Snapshot(): Registry
      reads this
    {
      Registry(rooms, clientRooms)
    }

    ghost predicate Valid()
      reads this
    {
      Inv(Snapshot())
    }

    constructor ()
      ensures Valid()
      ensures Snapshot() == Empty && outbox == []
    {
      rooms := map[];
      clientRooms := map[];
      outbox := [];
    }

    /** `room.forEach(client => if (client not in skip && open) client.send(m))`. */
    method SendEach(members: seq<Conn>, skip: set<Conn>, open: set<Conn>, m: Outbound)
      modifies this`outbox
      ensures outbox == old(outbox) + Fanout(members, skip, open, m)
    {
      var i := 0;
      while i < |members|
        invariant 0 <= i <= |members|
        invariant outbox == old(outbox) + Fanout(members[..i], skip, open, m)
      {
        var client := members[i];
        assert members[..i + 1][..i] == members[..i];
        if client !in skip && client in open {
          outbox := outbox + [Send(client, m)];
        }
        i := i + 1;
      }
      assert members[..i] == members;
    }

    /** `handleDisconnect(ws)`: run on a channel's `close`, and first thing in
        every join. */
    method HandleDisconnect(ws: Conn, open: set<Conn>)
      requires Valid()
      modifies this
      ensures Valid()
      ensures Snapshot() == Leave(old(Snapshot()), ws, open).reg
      ensures outbox == old(outbox) + Leave(old(Snapshot()), ws, open).out
    {
      ghost var before := Snapshot();
      if ws in clientRooms && Truthy(clientRooms[ws]) {
        var roomId := clientRooms[ws];
        if roomId in rooms {
          var room := Without(rooms[roomId], ws);
          rooms := rooms[roomId := room];
          SendEach(room, {}, open, PeerDisconnected);
          if |room| == 0 {
            rooms := rooms - {roomId};
            assert rooms == before.rooms - {roomId};
          }
        }
        clientRooms := clientRooms - {ws};
      }
      assert Snapshot() == Leave(before, ws, open).reg;
      LeavePreservesInv(before, ws, open);
    }

    /** `handleJoin(ws, roomId)`: `handleDisconnect`, then the rest of the
        handler in `EnterRoom`. */
    method HandleJoin(ws: Conn, roomId: string, open: set<Conn>)
      requires Valid()
      modifies this
      ensures Valid()
      ensures Snapshot() == Join(old(Snapshot()), ws, roomId, open).reg
      ensures outbox == old(outbox) + Join(old(Snapshot()), ws, roomId, open).out
    {
      ghost var before := Snapshot();
      LeaveDetaches(before, ws, open);
      HandleDisconnect(ws, open);
      ghost var sent := outbox;
      ghost var entered := Enter(Snapshot(), ws, roomId, open);
      ghost var after := Join(before, ws, roomId, open);
      assert after == Step(entered.reg, Leave(before, ws, open).out + entered.out);
      EnterRoom(ws, roomId, open);
      AppendSends(old(outbox), Leave(before, ws, open).out, entered.out);
    }

    /** The body of `handleJoin` after its `handleDisconnect`: create the room
        if it is missing, refuse a third member, otherwise add and record the
        joiner, reply `joined`, and send `ready` when the room has become full. */
    method EnterRoom(ws: Conn, roomId: string, open: set<Conn>)
      requires Valid()
      requires ws !in clientRooms || !Truthy(clientRooms[ws])
      requires forall r | r in rooms && Truthy(r) :: ws !in rooms[r]
      modifies this
      ensures Valid()
      ensures Snapshot() == Enter(old(Snapshot()), ws, roomId, open).reg
      ensures outbox == old(outbox) + Enter(old(Snapshot()), ws, roomId, open).out
    {
      ghost var entered := Enter(Snapshot(), ws, roomId, open);
      EnterPreservesInv(Snapshot(), ws, roomId, open);
      if roomId !in rooms {
        rooms := rooms[roomId := []];
      }
      var room := rooms[roomId];
      if |room| >= 2 {
        outbox := outbox + [Send(ws, Error(RoomFull))];
        assert entered == Step(Snapshot(), [Send(ws, Error(RoomFull))]);
        return;
      }
      if ws !in room {
        room := room + [ws];
      }
      rooms := rooms[roomId := room];
      clientRooms := clientRooms[ws := roomId];
      ghost var joined := [Send(ws, Joined(roomId, |room| == 1))];
      outbox := outbox + [Send(ws, Joined(roomId, |room| == 1))];
      ghost var ready := if |room| == 2 then Fanout(room, {ws}, open, Ready) else [];
      assert entered == Step(Snapshot(), joined + ready);
      if |room| == 2 {
        SendEach(room, {ws}, open, Ready);
      }
      AppendSends(old(outbox), joined, ready);
    }

    /** `broadcastToRoom(sender, data)`: only the outbox changes. */
    method BroadcastToRoom(sender: Conn, data: Data, open: set<Conn>)
      modifies this`outbox
      ensures outbox == old(outbox) + Relay(Snapshot(), sender, data, open)
    {
      if !(sender in clientRooms && Truthy(clientRooms[sender])) {
        return;
      }
      var roomId := clientRooms[sender];
      if roomId !in rooms {
        return;
      }
      SendEach(rooms[roomId], {sender}, open, Relayed(data));
    }

    /** The `message` listener: a frame that does not parse is dropped, and so
        is any `type` the switch has no case for. */
    method OnMessage(ws: Conn, frame: Frame, open: set<Conn>)
      requires Valid()
      modifies this
      ensures Valid()
      ensures Snapshot() == Dispatch(old(Snapshot()), ws, frame, open).reg
      ensures outbox == old(outbox) + Dispatch(old(Snapshot()), ws, frame, open).out
    {
      match frame {
        case Unparsable =>
        case Parsed(data) =>
          if data.kind == "join" {
            HandleJoin(ws, data.roomId, open);
          } else if IsRelayed(data.kind) {
            BroadcastToRoom(ws, data, open);
          }
      }
    }
  }

  /** A joins "abc123" and is the initiator; B joins and is not, and A is
      told the room is ready. */
  method PairRoom(a: Conn, b: Conn, open: set<Conn>) returns (broker: Broker)
    requires a != b && a in open
    ensures fresh(broker) && broker.Valid()
    ensures broker.Snapshot() == Registry(map["abc123" := [a, b]], map[a := "abc123", b := "abc123"])
    ensures broker.outbox == [Send(a, Joined("abc123", true)), Send(b, Joined("abc123", false)), Send(a, Ready)]
  {
    ghost var first := [Send(a, Joined("abc123", true))];
    ghost var second := [Send(b, Joined("abc123", false)), Send(a, Ready)];
    assert [Send(b, Joined("abc123", false))] + [Send(a, Ready)] == second;
    assert first + second == [Send(a, Joined("abc123", true)), Send(b, Joined("abc123", false)), Send(a, Ready)];
    PairJoins(a, b, open);
    broker := new Broker();
    broker.HandleJoin(a, "abc123", open);
    assert broker.outbox == first;
    broker.HandleJoin(b, "abc123", open);
    assert broker.outbox == first + second;
  }

  /** The pairing scenario played against the broker: after A and B have
      paired, A's offer reaches B only, and a third client C is told the room
      is full. */
  method PairingScenario() returns (broker: Broker)
    ensures broker.rooms == map["abc123" := [Conn(1), Conn(2)]]
    ensures broker.outbox == [
      Send(Conn(1), Joined("abc123", true)),
      Send(Conn(2), Joined("abc123", false)),
      Send(Conn(1), Ready),
      Send(Conn(2), Relayed(Data("offer", "", "sdp"))),
      Send(Conn(3), Error(RoomFull))]
  {
    var a, b, c := Conn(1), Conn(2), Conn(3);
    var open := {a, b, c};
    broker := PairRoom(a, b, open);
    ghost var paired := [Send(a, Joined("abc123", true)), Send(b, Joined("abc123", false)), Send(a, Ready)];
    var offer := Data("offer", "", "sdp");
    var join := Data("join", "abc123", "");
    PairedRoomTraffic(a, b, c, offer, "", open);
    broker.OnMessage(a, Parsed(offer), open);
    assert broker.outbox == paired + [Send(b, Relayed(offer))];
    broker.OnMessage(c, Parsed(join), open);
    assert broker.outbox == paired + [Send(b, Relayed(offer))] + [Send(c, Error(RoomFull))];
  }
}
