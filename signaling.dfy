/** The room broker of the signaling server, as values.

    The server keeps two registries: `rooms`, from a room id to the members of
    that room, and `clientRooms`, from a connection to the id of the room it
    joined. Each handler below takes the registry before the event, the
    connection it concerns and the set of connections whose channel is open
    at that moment, and yields the registry afterwards together with the
    messages the handler hands to `send`, in order.

    A JavaScript `Set` iterates in insertion order, so a room is a sequence
    without duplicates and the order of the fan-out sends is determined. */
module Signaling {

  /** An opaque handle to one client channel. */
  datatype Conn = Conn(id: nat)

  /** A parsed inbound JSON object: its `type`, its `roomId` and, standing for
      every other field (`offer`, `answer`, `candidate`, ...), an opaque body. */
  datatype Data = Data(kind: string, roomId: string, body: string)

  /** What arrives on a channel: an object, or text `JSON.parse` rejects. */
  datatype Frame = Parsed(data: Data) | Unparsable

  /** The messages the server writes. `Relayed` is the received object, verbatim. */
  datatype Outbound =
    | Joined(roomId: string, isInitiator: bool)
    | Ready
    | PeerDisconnected
    | Error(message: string)
    | Relayed(data: Data)

  /** One call of `send` on a connection. */
  datatype Send = Send(to: Conn, msg: Outbound)

  datatype Registry = Registry(rooms: map<string, seq<Conn>>, clientRooms: map<Conn, string>)

  /** The registry after a handler, and what the handler sent. */
  datatype Step = Step(reg: Registry, out: seq<Send>)

  const RoomFull := "Room is full"

  /** Both maps start empty. */
  const Empty := Registry(map[], map[])

  /** JavaScript truthiness of a room id: only the empty string is falsy. */
  predicate Truthy(roomId: string) {
    roomId != ""
  }

  predicate NoDup(s: seq<Conn>) {
    forall i, j | 0 <= i < j < |s| :: s[i] != s[j]
  }

  /** The members of `members` that a guarded `forEach` writes to. */
  ghost function Peers(members: seq<Conn>, skip: set<Conn>, open: set<Conn>): set<Conn> {
    set c | c in members && c !in skip && c in open
  }

  /** `out` is one copy of `m` to each connection of `targets`, and nothing else. */
  ghost predicate DeliversOnce(out: seq<Send>, targets: set<Conn>, m: Outbound) {
    && (forall i | 0 <= i < |out| :: out[i].msg == m && out[i].to in targets)
    && (forall c | c in targets :: exists i | 0 <= i < |out| :: out[i].to == c)
    && (forall i, j | 0 <= i < j < |out| :: out[i].to != out[j].to)
  }

  /** The state every reachable registry is in:
      - every room has one or two members, none of them twice;
      - a connection's recorded room exists and holds it;
      - a member of a room with a non-empty id has that room recorded.
      The last clause cannot hold for the id "": the truthiness tests of the
      handlers never take a connection out of that room. */
  ghost predicate Inv(s: Registry) {
    && (forall r | r in s.rooms :: 1 <= |s.rooms[r]| <= 2 && NoDup(s.rooms[r]))
    && (forall c | c in s.clientRooms :: s.clientRooms[c] in s.rooms && c in s.rooms[s.clientRooms[c]])
    && (forall r, c | r in s.rooms && Truthy(r) && c in s.rooms[r] ::
          c in s.clientRooms && s.clientRooms[c] == r)
  }

  /** The `room.forEach` loops: `m` to every member not in `skip` whose
      channel is open, in member order. */
  function Fanout(members: seq<Conn>, skip: set<Conn>, open: set<Conn>, m: Outbound): (out: seq<Send>)
    ensures |out| <= |members|
    decreases |members|
  {
    if members == [] then []
    else
      var last := members[|members| - 1];
      Fanout(members[..|members| - 1], skip, open, m) + (if last !in skip && last in open then [Send(last, m)] else [])
  }

  /** Every send of a fan-out carries `m` to an open member outside `skip`. */
  lemma {:induction false} FanoutSends(members: seq<Conn>, skip: set<Conn>, open: set<Conn>, m: Outbound)
    ensures forall i | 0 <= i < |Fanout(members, skip, open, m)| ::
      var d := Fanout(members, skip, open, m)[i];
      d.msg == m && d.to in members && d.to !in skip && d.to in open
    decreases |members|
  {
    if members != [] {
      var init, last := members[..|members| - 1], members[|members| - 1];
      FanoutSends(init, skip, open, m);
      var rec := Fanout(init, skip, open, m);
      var out := Fanout(members, skip, open, m);
      assert out == rec + (if last !in skip && last in open then [Send(last, m)] else []);
      forall i | 0 <= i < |out|
        ensures out[i].msg == m && out[i].to in members && out[i].to !in skip && out[i].to in open
      {
        if i < |rec| {
          assert out[i] == rec[i];
          var k :| 0 <= k < |init| && init[k] == rec[i].to;
          assert members[k] == init[k];
        }
      }
    }
  }

  /** Every open member outside `skip` receives a send of the fan-out. */
  lemma {:induction false} FanoutCovers(members: seq<Conn>, skip: set<Conn>, open: set<Conn>, m: Outbound)
    ensures forall c | c in members && c !in skip && c in open ::
      exists i | 0 <= i < |Fanout(members, skip, open, m)| :: Fanout(members, skip, open, m)[i].to == c
    decreases |members|
  {
    if members != [] {
      var init, last := members[..|members| - 1], members[|members| - 1];
      FanoutCovers(init, skip, open, m);
      var rec := Fanout(init, skip, open, m);
      var out := Fanout(members, skip, open, m);
      assert out == rec + (if last !in skip && last in open then [Send(last, m)] else []);
      forall c | c in members && c !in skip && c in open
        ensures exists i | 0 <= i < |out| :: out[i].to == c
      {
        if c == last {
          assert out[|rec|].to == c;
        } else {
          assert c in init by {
            var k :| 0 <= k < |members| && members[k] == c;
            assert k < |members| - 1 && init[k] == c;
          }
          var i :| 0 <= i < |rec| && rec[i].to == c;
          assert out[i] == rec[i];
        }
      }
      assert out == Fanout(members, skip, open, m);
    }
  }

  /** Over distinct members, no connection receives two sends of the fan-out. */
  lemma {:induction false} FanoutDistinct(members: seq<Conn>, skip: set<Conn>, open: set<Conn>, m: Outbound)
    requires NoDup(members)
    ensures forall i, j | 0 <= i < j < |Fanout(members, skip, open, m)| ::
      Fanout(members, skip, open, m)[i].to != Fanout(members, skip, open, m)[j].to
    decreases |members|
  {
    if members != [] {
      var init, last := members[..|members| - 1], members[|members| - 1];
      assert NoDup(init);
      FanoutDistinct(init, skip, open, m);
      FanoutSends(init, skip, open, m);
      var rec := Fanout(init, skip, open, m);
      var out := Fanout(members, skip, open, m);
      assert out == rec + (if last !in skip && last in open then [Send(last, m)] else []);
      assert last !in init;
      forall i, j | 0 <= i < j < |out| ensures out[i].to != out[j].to {
        assert out[i] == rec[i];
        if j < |rec| {
          assert out[j] == rec[j];
        }
      }
    }
  }

  /** The three facts together: every send carries `m` to an open member
      outside `skip`; every such member receives one; and none receives two
      when the members are distinct. */
  lemma FanoutSound(members: seq<Conn>, skip: set<Conn>, open: set<Conn>, m: Outbound)
    ensures forall i | 0 <= i < |Fanout(members, skip, open, m)| ::
      var d := Fanout(members, skip, open, m)[i];
      d.msg == m && d.to in members && d.to !in skip && d.to in open
    ensures forall c | c in members && c !in skip && c in open ::
      exists i | 0 <= i < |Fanout(members, skip, open, m)| :: Fanout(members, skip, open, m)[i].to == c
    ensures NoDup(members) ==> forall i, j | 0 <= i < j < |Fanout(members, skip, open, m)| ::
      Fanout(members, skip, open, m)[i].to != Fanout(members, skip, open, m)[j].to
  {
    FanoutSends(members, skip, open, m);
    FanoutCovers(members, skip, open, m);
    if NoDup(members) {
      FanoutDistinct(members, skip, open, m);
    }
  }

  /** Appending sends in two steps is appending them at once. */
  lemma AppendSends(a: seq<Send>, b: seq<Send>, c: seq<Send>)
    ensures a + (b + c) == a + b + c
  {
  }

  /** `room.delete(ws)`. */
  function Without(members: seq<Conn>, c: Conn): (r: seq<Conn>)
    ensures forall x :: x in r <==> x in members && x != c
    ensures c !in members ==> r == members
    ensures NoDup(members) ==> NoDup(r)
    ensures NoDup(members) && c in members ==> |r| == |members| - 1
  {
    if members == [] then []
    else
      var rest := Without(members[1..], c);
      if members[0] == c then rest
      else
        assert NoDup(members) ==> members[0] !in members[1..];
        [members[0]] + rest
  }

  /** `handleDisconnect(ws)` (also run first by `handleJoin`). */
  function Leave(s: Registry, ws: Conn, open: set<Conn>): Step {
    if ws in s.clientRooms && Truthy(s.clientRooms[ws]) then
      var roomId := s.clientRooms[ws];
      var clients := s.clientRooms - {ws};
      if roomId in s.rooms then
        var room := Without(s.rooms[roomId], ws);
        var rooms := if |room| == 0 then s.rooms - {roomId} else s.rooms[roomId := room];
        Step(Registry(rooms, clients), Fanout(room, {}, open, PeerDisconnected))
      else
        Step(Registry(s.rooms, clients), [])
    else
      Step(s, [])
  }

  /** `handleJoin(ws, roomId)`: leave the current room, then enter; the
      leave's sends come first. */
  function Join(s: Registry, ws: Conn, roomId: string, open: set<Conn>): Step {
    var left := Leave(s, ws, open);
    var entered := Enter(left.reg, ws, roomId, open);
    Step(entered.reg, left.out + entered.out)
  }

  /** The rest of `handleJoin` once `handleDisconnect` has run: create the room
      lazily, refuse a third member, add the joiner, reply `joined`, and
      announce `ready` when the room has become full. */
  function Enter(l: Registry, ws: Conn, roomId: string, open: set<Conn>): Step {
    var rooms := if roomId in l.rooms then l.rooms else l.rooms[roomId := []];
    var room := rooms[roomId];
    if |room| >= 2 then
      Step(Registry(rooms, l.clientRooms), [Send(ws, Error(RoomFull))])
    else
      var room' := if ws in room then room else room + [ws];
      Step(Registry(rooms[roomId := room'], l.clientRooms[ws := roomId]),
           [Send(ws, Joined(roomId, |room'| == 1))]
           + (if |room'| == 2 then Fanout(room', {ws}, open, Ready) else []))
  }

  /** `broadcastToRoom(sender, data)`: the sends; the registry is unchanged. */
  function Relay(s: Registry, sender: Conn, data: Data, open: set<Conn>): seq<Send> {
    if sender in s.clientRooms && Truthy(s.clientRooms[sender]) && s.clientRooms[sender] in s.rooms then
      Fanout(s.rooms[s.clientRooms[sender]], {sender}, open, Relayed(data))
    else
      []
  }

  /** The message kinds the switch hands to `broadcastToRoom`. */
  predicate IsRelayed(kind: string) {
    kind == "offer" || kind == "answer" || kind == "ice-candidate"
  }

  /** The `message` handler: parse, then switch on `type`. */
  function Dispatch(s: Registry, ws: Conn, frame: Frame, open: set<Conn>): Step {
    match frame
    case Unparsable => Step(s, [])
    case Parsed(data) =>
      if data.kind == "join" then Join(s, ws, data.roomId, open)
      else if IsRelayed(data.kind) then Step(s, Relay(s, ws, data, open))
      else Step(s, [])
  }

  // ---------------------------------------------------------------------------
  // Properties of the handlers

  /** A fan-out over a room without duplicates reaches each open member outside
      `skip` exactly once, with `m`. */
  lemma FanoutDeliversOnce(members: seq<Conn>, skip: set<Conn>, open: set<Conn>, m: Outbound)
    requires NoDup(members)
    ensures DeliversOnce(Fanout(members, skip, open, m), Peers(members, skip, open), m)
  {
    FanoutSound(members, skip, open, m);
  }

  /** Disconnect keeps the invariant: no room above two members, none empty,
      and the two maps agree. */
  lemma LeavePreservesInv(s: Registry, ws: Conn, open: set<Conn>)
    requires Inv(s)
    ensures Inv(Leave(s, ws, open).reg)
  {
    if ws in s.clientRooms && Truthy(s.clientRooms[ws]) {
      var roomId := s.clientRooms[ws];
      var room := Without(s.rooms[roomId], ws);
      var rooms := if |room| == 0 then s.rooms - {roomId} else s.rooms[roomId := room];
      assert Leave(s, ws, open).reg == Registry(rooms, s.clientRooms - {ws});
      DetachPreservesInv(s, ws, roomId, room, rooms);
    }
  }

  /** The registry update of a disconnect keeps the invariant: `room` is the
      recorded room without `ws` (what `room.delete(ws)` leaves), the room is
      dropped once empty, and the record of `ws` goes. */
  lemma DetachPreservesInv(s: Registry, ws: Conn, roomId: string, room: seq<Conn>, rooms: map<string, seq<Conn>>)
    requires Inv(s) && ws in s.clientRooms && s.clientRooms[ws] == roomId
    requires forall x :: x in room <==> x in s.rooms[roomId] && x != ws
    requires NoDup(room) && |room| < |s.rooms[roomId]|
    requires rooms == if |room| == 0 then s.rooms - {roomId} else s.rooms[roomId := room]
    ensures Inv(Registry(rooms, s.clientRooms - {ws}))
  {
    var t := Registry(rooms, s.clientRooms - {ws});
    forall r | r in t.rooms ensures 1 <= |t.rooms[r]| <= 2 && NoDup(t.rooms[r]) {
    }
    forall r, c | r in t.rooms && Truthy(r) && c in t.rooms[r]
      ensures c in t.clientRooms && t.clientRooms[c] == r
    {
      assert c in s.rooms[r] && c != ws;
    }
    forall c | c in t.clientRooms
      ensures t.clientRooms[c] in t.rooms && c in t.rooms[t.clientRooms[c]]
    {
      assert c != ws && s.clientRooms[c] == t.clientRooms[c];
      if s.clientRooms[c] == roomId {
        assert c in room;
      }
    }
  }

  /** After a disconnect the connection is in no room with a non-empty id and
      has no non-empty id recorded; no other connection's record changes. A
      connection with no room, or with the id "", is left as it was and nothing
      is sent. */
  lemma LeaveDetaches(s: Registry, ws: Conn, open: set<Conn>)
    requires Inv(s)
    ensures var t := Leave(s, ws, open).reg;
      && (forall r | r in t.rooms && Truthy(r) :: ws !in t.rooms[r])
      && (ws in t.clientRooms ==> !Truthy(t.clientRooms[ws]))
      && t.clientRooms - {ws} == s.clientRooms - {ws}
    ensures ws !in s.clientRooms || !Truthy(s.clientRooms[ws]) ==> Leave(s, ws, open) == Step(s, [])
  {
    var t := Leave(s, ws, open).reg;
    forall r | r in t.rooms && Truthy(r) ensures ws !in t.rooms[r] {
      if !(ws in s.clientRooms && s.clientRooms[ws] == r) {
        assert t.rooms[r] == s.rooms[r];
      }
    }
  }

  /** A disconnect changes no record but that of the leaving connection. */
  lemma LeaveKeepsOtherRecords(s: Registry, ws: Conn, open: set<Conn>)
    ensures Leave(s, ws, open).reg.clientRooms - {ws} == s.clientRooms - {ws}
  {
    if ws in s.clientRooms && Truthy(s.clientRooms[ws]) {
      assert Leave(s, ws, open).reg.clientRooms == s.clientRooms - {ws};
    }
  }

  /** The effect of a disconnect from a room with a non-empty id: the record
      goes, the member goes, the room goes exactly when it was the last member,
      other rooms are untouched, and each remaining open member is told
      `peer-disconnected` exactly once. */
  lemma LeaveEffect(s: Registry, ws: Conn, open: set<Conn>)
    requires Inv(s) && ws in s.clientRooms && Truthy(s.clientRooms[ws])
    ensures var r := s.clientRooms[ws];
      var st := Leave(s, ws, open);
      && st.reg.clientRooms == s.clientRooms - {ws}
      && (r in st.reg.rooms <==> |s.rooms[r]| == 2)
      && (r in st.reg.rooms ==> forall c :: c in st.reg.rooms[r] <==> c in s.rooms[r] && c != ws)
      && (forall q | q != r :: (q in st.reg.rooms <==> q in s.rooms) && (q in s.rooms ==> st.reg.rooms[q] == s.rooms[q]))
      && DeliversOnce(st.out, Peers(s.rooms[r], {ws}, open), PeerDisconnected)
  {
    var r := s.clientRooms[ws];
    var room := Without(s.rooms[r], ws);
    assert |room| == |s.rooms[r]| - 1;
    FanoutDeliversOnce(room, {}, open, PeerDisconnected);
    assert Peers(room, {}, open) == Peers(s.rooms[r], {ws}, open);
  }

  /** Join keeps the invariant; in particular no room ever holds more than two
      connections and no empty room is left behind, since a room created
      lazily always receives the joiner. */
  lemma JoinPreservesInv(s: Registry, ws: Conn, roomId: string, open: set<Conn>)
    requires Inv(s)
    ensures Inv(Join(s, ws, roomId, open).reg)
  {
    LeavePreservesInv(s, ws, open);
    LeaveDetaches(s, ws, open);
    EnterPreservesInv(Leave(s, ws, open).reg, ws, roomId, open);
  }

  /** Entering keeps the invariant, provided the joiner holds no room with a
      non-empty id, as it does not once it has left. A refused join changes
      nothing; an admitted one adds the joiner to a room of at most one other
      member and records it. */
  lemma EnterPreservesInv(l: Registry, ws: Conn, roomId: string, open: set<Conn>)
    requires Inv(l)
    requires ws !in l.clientRooms || !Truthy(l.clientRooms[ws])
    requires forall r | r in l.rooms && Truthy(r) :: ws !in l.rooms[r]
    ensures Inv(Enter(l, ws, roomId, open).reg)
    ensures (if roomId in l.rooms then |l.rooms[roomId]| else 0) >= 2 ==> Enter(l, ws, roomId, open).reg == l
  {
    var room := if roomId in l.rooms then l.rooms[roomId] else [];
    if |room| < 2 {
      var room' := if ws in room then room else room + [ws];
      assert Enter(l, ws, roomId, open).reg == Registry(l.rooms[roomId := room'], l.clientRooms[ws := roomId]);
      AdmitPreservesInv(l, ws, roomId, room, room');
    }
  }

  /** The registry update of an admitted join, `room.add(ws)` and
      `clientRooms.set(ws, roomId)`, keeps the invariant. */
  lemma AdmitPreservesInv(l: Registry, ws: Conn, roomId: string, room: seq<Conn>, room': seq<Conn>)
    requires Inv(l)
    requires ws !in l.clientRooms || !Truthy(l.clientRooms[ws])
    requires forall r | r in l.rooms && Truthy(r) :: ws !in l.rooms[r]
    requires room == (if roomId in l.rooms then l.rooms[roomId] else []) && |room| < 2
    requires room' == (if ws in room then room else room + [ws])
    ensures Inv(Registry(l.rooms[roomId := room'], l.clientRooms[ws := roomId]))
  {
    var t := Registry(l.rooms[roomId := room'], l.clientRooms[ws := roomId]);
    if ws !in room {
      AppendFresh(room, ws);
    }
    forall r | r in t.rooms ensures 1 <= |t.rooms[r]| <= 2 && NoDup(t.rooms[r]) {
    }
    forall c | c in t.clientRooms
      ensures t.clientRooms[c] in t.rooms && c in t.rooms[t.clientRooms[c]]
    {
      if c != ws {
        var q := l.clientRooms[c];
        assert t.clientRooms[c] == q && q in l.rooms && c in l.rooms[q];
        if q == roomId {
          assert c in room;
        }
      }
    }
    forall q, c | q in t.rooms && Truthy(q) && c in t.rooms[q]
      ensures c in t.clientRooms && t.clientRooms[c] == q
    {
      if c != ws {
        if q == roomId {
          assert c in room;
        }
        assert q in l.rooms && c in l.rooms[q];
      }
    }
  }

  /** A join to a room that already holds two members after the joiner has
      left its old one replies "Room is full" to the joiner and adds nothing:
      the registry is the one the leave produced, so the joiner is in no room
      with a non-empty id. */
  lemma JoinFullRefuses(s: Registry, ws: Conn, roomId: string, open: set<Conn>)
    requires Inv(s)
    requires var l := Leave(s, ws, open).reg; roomId in l.rooms && |l.rooms[roomId]| >= 2
    ensures var left := Leave(s, ws, open);
      var st := Join(s, ws, roomId, open);
      && st == Step(left.reg, left.out + [Send(ws, Error(RoomFull))])
      && (forall r | r in st.reg.rooms && Truthy(r) :: ws !in st.reg.rooms[r])
      && (ws in st.reg.clientRooms ==> !Truthy(st.reg.clientRooms[ws]))
  {
    LeaveDetaches(s, ws, open);
  }

  /** A third connection asking to join a full room with a non-empty id is
      refused: the room keeps its two members, the joiner gets no record for
      it, every connection recorded for it was already a member, and the last
      message is the error to the joiner. */
  lemma ThirdJoinerRefused(s: Registry, ws: Conn, roomId: string, open: set<Conn>)
    requires Inv(s) && Truthy(roomId)
    requires roomId in s.rooms && |s.rooms[roomId]| == 2 && ws !in s.rooms[roomId]
    ensures var st := Join(s, ws, roomId, open);
      && st.reg.rooms[roomId] == s.rooms[roomId]
      && (ws !in st.reg.clientRooms || st.reg.clientRooms[ws] != roomId)
      && (forall c | c in st.reg.clientRooms && st.reg.clientRooms[c] == roomId :: c in s.rooms[roomId])
      && st.out[|st.out| - 1] == Send(ws, Error(RoomFull))
  {
    var left := Leave(s, ws, open);
    if ws in s.clientRooms && Truthy(s.clientRooms[ws]) {
      LeaveEffect(s, ws, open);
      assert s.clientRooms[ws] != roomId;
    }
    JoinFullRefuses(s, ws, roomId, open);
    LeaveDetaches(s, ws, open);
    forall c | c in left.reg.clientRooms && left.reg.clientRooms[c] == roomId
      ensures c in s.rooms[roomId]
    {
      assert c != ws && c in left.reg.clientRooms - {ws};
      assert s.clientRooms[c] == roomId;
    }
  }

  /** A successful join: the joiner is in the room and has it recorded, the
      leave's notifications come first, then `joined` to the joiner with
      `isInitiator` true exactly when it is the only member, then `ready` once
      to each other open member when the room has become full, and to nobody
      otherwise (never to the joiner). */
  lemma JoinSucceeds(s: Registry, ws: Conn, roomId: string, open: set<Conn>)
    requires Inv(s)
    requires var l := Leave(s, ws, open).reg; roomId !in l.rooms || |l.rooms[roomId]| < 2
    ensures var left := Leave(s, ws, open);
      var st := Join(s, ws, roomId, open);
      var room := st.reg.rooms[roomId];
      && roomId in st.reg.rooms && ws in room
      && ws in st.reg.clientRooms && st.reg.clientRooms[ws] == roomId
      && |st.out| > |left.out|
      && st.out[..|left.out|] == left.out
      && st.out[|left.out|] == Send(ws, Joined(roomId, room == [ws]))
      && DeliversOnce(st.out[|left.out| + 1..], if |room| == 2 then Peers(room, {ws}, open) else {}, Ready)
    ensures var st := Join(s, ws, roomId, open);
      var prev := if ws in s.clientRooms && Truthy(s.clientRooms[ws]) then s.clientRooms[ws] else roomId;
      && (forall c :: c in st.reg.rooms[roomId] <==> c == ws || (roomId in s.rooms && c in s.rooms[roomId]))
      && st.reg.clientRooms - {ws} == s.clientRooms - {ws}
      && (forall q | q != roomId && q != prev ::
            (q in st.reg.rooms <==> q in s.rooms) && (q in s.rooms ==> st.reg.rooms[q] == s.rooms[q]))
      && (prev != roomId ==>
            (prev in st.reg.rooms <==> |s.rooms[prev]| == 2)
            && (prev in st.reg.rooms ==> forall c :: c in st.reg.rooms[prev] <==> c in s.rooms[prev] && c != ws))
  {
    LeavePreservesInv(s, ws, open);
    var left := Leave(s, ws, open);
    var e := Enter(left.reg, ws, roomId, open);
    EnterAdmits(left.reg, ws, roomId, open);
    LeaveRemovesOnlyLeaver(s, ws, roomId, open);
    LeaveKeepsOtherRecords(s, ws, open);
    if ws in s.clientRooms && Truthy(s.clientRooms[ws]) {
      LeaveEffect(s, ws, open);
    } else {
      LeaveDetaches(s, ws, open);
    }
    var out := left.out + e.out;
    assert Join(s, ws, roomId, open) == Step(e.reg, out);
    assert out[..|left.out|] == left.out;
    assert out[|left.out|] == e.out[0];
    assert out[|left.out| + 1..] == e.out[1..];
  }

  /** A disconnect takes no member out of any room but the leaving one. */
  lemma LeaveRemovesOnlyLeaver(s: Registry, ws: Conn, q: string, open: set<Conn>)
    requires Inv(s)
    ensures var t := Leave(s, ws, open).reg;
      forall c | c != ws :: (q in t.rooms && c in t.rooms[q]) <==> (q in s.rooms && c in s.rooms[q])
  {
    if ws in s.clientRooms && Truthy(s.clientRooms[ws]) {
      LeaveEffect(s, ws, open);
      var r := s.clientRooms[ws];
      if q == r && |s.rooms[r]| != 2 {
        assert s.rooms[r] == [ws];
      }
    } else {
      LeaveDetaches(s, ws, open);
    }
  }

  /** The admitting branch of `handleJoin` after the leave: the joiner is
      added to the room, which is created if missing, and records it; it is
      sent `joined`, with `isInitiator` true exactly when it is the only
      member; then, if the room has become full, `ready` goes once to each
      other open member, and otherwise nothing more is sent. */
  lemma EnterAdmits(l: Registry, ws: Conn, roomId: string, open: set<Conn>)
    requires roomId in l.rooms ==> |l.rooms[roomId]| < 2 && NoDup(l.rooms[roomId])
    ensures var e := Enter(l, ws, roomId, open);
      var room := e.reg.rooms[roomId];
      && roomId in e.reg.rooms && ws in room
      && ws in e.reg.clientRooms && e.reg.clientRooms[ws] == roomId
      && |e.out| >= 1
      && e.out[0] == Send(ws, Joined(roomId, room == [ws]))
      && DeliversOnce(e.out[1..], if |room| == 2 then Peers(room, {ws}, open) else {}, Ready)
    ensures var e := Enter(l, ws, roomId, open);
      && (forall c :: c in e.reg.rooms[roomId] <==> c == ws || (roomId in l.rooms && c in l.rooms[roomId]))
      && (forall q | q != roomId :: (q in e.reg.rooms <==> q in l.rooms) && (q in l.rooms ==> e.reg.rooms[q] == l.rooms[q]))
      && e.reg.clientRooms - {ws} == l.clientRooms - {ws}
  {
    EnterFrame(l, ws, roomId, open);
    var room := if roomId in l.rooms then l.rooms[roomId] else [];
    var room' := if ws in room then room else room + [ws];
    var e := Enter(l, ws, roomId, open);
    var ready := if |room'| == 2 then Fanout(room', {ws}, open, Ready) else [];
    assert e.reg.rooms == l.rooms[roomId := room'];
    assert e.reg.clientRooms == l.clientRooms[ws := roomId];
    assert e.out == [Send(ws, Joined(roomId, |room'| == 1))] + ready;
    assert e.out[1..] == ready;
    if ws !in room {
      AppendFresh(room, ws);
    }
    if |room'| == 2 {
      FanoutDeliversOnce(room', {ws}, open, Ready);
    } else if |room'| == 1 {
      assert room'[0] == ws;
    }
  }

  /** What an admitted join changes: the room gains the joiner and keeps its
      members, the joiner's record is set, and every other room and record is
      left alone. */
  lemma EnterFrame(l: Registry, ws: Conn, roomId: string, open: set<Conn>)
    requires roomId in l.rooms ==> |l.rooms[roomId]| < 2
    ensures var e := Enter(l, ws, roomId, open);
      && (forall c :: c in e.reg.rooms[roomId] <==> c == ws || (roomId in l.rooms && c in l.rooms[roomId]))
      && (forall q | q != roomId :: (q in e.reg.rooms <==> q in l.rooms) && (q in l.rooms ==> e.reg.rooms[q] == l.rooms[q]))
      && e.reg.clientRooms - {ws} == l.clientRooms - {ws}
  {
    var room := if roomId in l.rooms then l.rooms[roomId] else [];
    var room' := if ws in room then room else room + [ws];
    assert Enter(l, ws, roomId, open).reg == Registry(l.rooms[roomId := room'], l.clientRooms[ws := roomId]);
  }

  /** Adding a connection that is not yet a member keeps a room free of
      duplicates. */
  lemma AppendFresh(room: seq<Conn>, ws: Conn)
    requires NoDup(room) && ws !in room
    ensures NoDup(room + [ws])
  {
    assert forall i | 0 <= i < |room| :: (room + [ws])[i] == room[i];
  }

  /** Initiator assignment: of two different connections that join a room id
      nobody holds, the first is told it is the initiator and the second is
      told it is not; the room is then exactly the two of them, in join order,
      and the second join sends `ready` to the first alone, if it is open. */
  lemma TwoJoinersPair(s: Registry, a: Conn, b: Conn, roomId: string, open1: set<Conn>, open2: set<Conn>)
    requires Inv(s) && roomId !in s.rooms && a != b
    ensures var st1 := Join(s, a, roomId, open1);
      var st2 := Join(st1.reg, b, roomId, open2);
      && st1.out[|st1.out| - 1] == Send(a, Joined(roomId, true))
      && st2.reg.rooms[roomId] == [a, b]
      && st2.out == Leave(st1.reg, b, open2).out + [Send(b, Joined(roomId, false))]
                    + (if a in open2 then [Send(a, Ready)] else [])
  {
    FirstJoinerInitiates(s, a, roomId, open1);
    var st1 := Join(s, a, roomId, open1);
    JoinPreservesInv(s, a, roomId, open1);
    if b in st1.reg.clientRooms {
      assert st1.reg.clientRooms[b] == s.clientRooms[b];
      assert s.clientRooms[b] in s.rooms;
    }
    LeaveEffectOnOthers(st1.reg, b, roomId, open2);
    SecondJoinerCompletes(st1.reg, a, b, roomId, open2);
  }

  /** Two joins of "abc123" from an empty registry, written out: the first
      creates the room and makes `a` its initiator, the second completes it
      and sends `ready` to `a` if it is open. */
  lemma PairJoins(a: Conn, b: Conn, open: set<Conn>)
    requires a != b
    ensures Join(Empty, a, "abc123", open) ==
      Step(Registry(map["abc123" := [a]], map[a := "abc123"]), [Send(a, Joined("abc123", true))])
    ensures Join(Registry(map["abc123" := [a]], map[a := "abc123"]), b, "abc123", open) ==
      Step(Registry(map["abc123" := [a, b]], map[a := "abc123", b := "abc123"]),
           [Send(b, Joined("abc123", false))] + (if a in open then [Send(a, Ready)] else []))
  {
    var one := Registry(map["abc123" := [a]], map[a := "abc123"]);
    assert Leave(Empty, a, open) == Step(Empty, []);
    EnterFresh(Empty, a, "abc123", open);
    assert Leave(one, b, open) == Step(one, []);
    SecondJoinerCompletes(one, a, b, "abc123", open);
  }

  /** Traffic in the room "abc123" once `a` and `b` have paired: a relayed
      message from `a` reaches `b` alone (if open) and changes nothing, and a
      join of the room by a third connection gets only "Room is full". */
  lemma PairedRoomTraffic(a: Conn, b: Conn, c: Conn, data: Data, body: string, open: set<Conn>)
    requires a != b && c != a && c != b && IsRelayed(data.kind)
    ensures var two := Registry(map["abc123" := [a, b]], map[a := "abc123", b := "abc123"]);
      && Dispatch(two, a, Parsed(data), open) == Step(two, if b in open then [Send(b, Relayed(data))] else [])
      && Dispatch(two, c, Parsed(Data("join", "abc123", body)), open) == Step(two, [Send(c, Error(RoomFull))])
  {
    var two := Registry(map["abc123" := [a, b]], map[a := "abc123", b := "abc123"]);
    FanoutPair(a, b, {a}, open, Relayed(data));
    assert Leave(two, c, open) == Step(two, []);
  }

  /** The first joiner of a room id nobody holds creates the room, is its only
      member, and is told it is the initiator; no other record changes. */
  lemma FirstJoinerInitiates(s: Registry, a: Conn, roomId: string, open: set<Conn>)
    requires Inv(s) && roomId !in s.rooms
    ensures var st := Join(s, a, roomId, open);
      && st.reg.rooms[roomId] == [a]
      && st.reg.clientRooms - {a} == s.clientRooms - {a}
      && st.out == Leave(s, a, open).out + [Send(a, Joined(roomId, true))]
  {
    if a in s.clientRooms {
      assert s.clientRooms[a] in s.rooms;
    }
    LeaveEffectOnOthers(s, a, roomId, open);
    LeaveKeepsOtherRecords(s, a, open);
    var left := Leave(s, a, open);
    EnterFresh(left.reg, a, roomId, open);
    assert left.reg.clientRooms[a := roomId] - {a} == left.reg.clientRooms - {a};
  }

  /** Entering a room id nobody holds creates the room with the joiner as its
      only member, records it, and replies `joined` with `isInitiator` true;
      nothing else is sent. */
  lemma EnterFresh(l: Registry, ws: Conn, roomId: string, open: set<Conn>)
    requires roomId !in l.rooms
    ensures Enter(l, ws, roomId, open) ==
      Step(Registry(l.rooms[roomId := [ws]], l.clientRooms[ws := roomId]), [Send(ws, Joined(roomId, true))])
  {
    var none: seq<Conn> := [];
    assert ws !in none && none + [ws] == [ws];
  }

  /** A second, different joiner of a room whose only member, once the joiner
      has left its old room, is `a` is told it is not the initiator, and `ready` goes to `a` if its channel is open. */
  lemma SecondJoinerCompletes(t: Registry, a: Conn, b: Conn, roomId: string, open: set<Conn>)
    requires a != b
    requires var l := Leave(t, b, open).reg; roomId in l.rooms && l.rooms[roomId] == [a]
    ensures var st := Join(t, b, roomId, open);
      && st.reg.rooms[roomId] == [a, b]
      && st.out == Leave(t, b, open).out + [Send(b, Joined(roomId, false))]
                   + (if a in open then [Send(a, Ready)] else [])
  {
    assert b !in [a] && [a] + [b] == [a, b];
    FanoutPair(a, b, {b}, open, Ready);
  }

  /** A fan-out over a two-member room, written out. */
  lemma FanoutPair(a: Conn, b: Conn, skip: set<Conn>, open: set<Conn>, m: Outbound)
    ensures Fanout([a, b], skip, open, m) ==
      (if a !in skip && a in open then [Send(a, m)] else []) + (if b !in skip && b in open then [Send(b, m)] else [])
  {
    assert [a, b][..1] == [a];
    assert [a][..0] == [];
  }

  /** A leave only touches the room recorded for the leaving connection. */
  lemma LeaveEffectOnOthers(s: Registry, ws: Conn, q: string, open: set<Conn>)
    requires Inv(s)
    requires ws !in s.clientRooms || s.clientRooms[ws] != q
    ensures var t := Leave(s, ws, open).reg;
      (q in t.rooms <==> q in s.rooms) && (q in s.rooms ==> t.rooms[q] == s.rooms[q])
  {
    if ws in s.clientRooms && Truthy(s.clientRooms[ws]) {
      LeaveEffect(s, ws, open);
    }
  }

  /** Relay leaves the registry alone (it returns only sends). A sender with
      no room id, an empty id, or an id whose room is missing sends nothing;
      otherwise the received object goes, verbatim, exactly once to each
      other open member of the sender's room (a room without duplicates, as
      every reachable room is), and never back to the sender. */
  lemma RelayDelivers(s: Registry, sender: Conn, data: Data, open: set<Conn>)
    ensures var out := Relay(s, sender, data, open);
      && (sender !in s.clientRooms || !Truthy(s.clientRooms[sender]) || s.clientRooms[sender] !in s.rooms ==>
            out == [])
      && (sender in s.clientRooms && Truthy(s.clientRooms[sender]) && s.clientRooms[sender] in s.rooms
          && NoDup(s.rooms[s.clientRooms[sender]]) ==>
            DeliversOnce(out, Peers(s.rooms[s.clientRooms[sender]], {sender}, open), Relayed(data)))
      && (forall i | 0 <= i < |out| :: out[i].to != sender)
  {
    if sender in s.clientRooms && Truthy(s.clientRooms[sender]) && s.clientRooms[sender] in s.rooms {
      FanoutSound(s.rooms[s.clientRooms[sender]], {sender}, open, Relayed(data));
      if NoDup(s.rooms[s.clientRooms[sender]]) {
        FanoutDeliversOnce(s.rooms[s.clientRooms[sender]], {sender}, open, Relayed(data));
      }
    }
  }

  /** Every message keeps the invariant. A parse failure, or a `type` other
      than join / offer / answer / ice-candidate (`create-room`, `mute-status`,
      `restart`, `check-peer`, `peer-ready`, ...), changes nothing and sends
      nothing; the relayed kinds change no state. */
  lemma DispatchPreservesInv(s: Registry, ws: Conn, frame: Frame, open: set<Conn>)
    requires Inv(s)
    ensures Inv(Dispatch(s, ws, frame, open).reg)
    ensures frame.Unparsable? || (frame.data.kind != "join" && !IsRelayed(frame.data.kind)) ==>
              Dispatch(s, ws, frame, open) == Step(s, [])
    ensures frame.Parsed? && IsRelayed(frame.data.kind) ==> Dispatch(s, ws, frame, open).reg == s
  {
    if frame.Parsed? && frame.data.kind == "join" {
      JoinPreservesInv(s, ws, frame.data.roomId, open);
    }
  }

  /** Under the invariant a connection is a member of at most one room with a
      non-empty id. */
  lemma SingleRoom(s: Registry, c: Conn, r1: string, r2: string)
    requires Inv(s) && Truthy(r1) && Truthy(r2)
    requires r1 in s.rooms && r2 in s.rooms && c in s.rooms[r1] && c in s.rooms[r2]
    ensures r1 == r2
  {
    assert s.clientRooms[c] == r1;
  }

  /** The id "" is falsy, so the handlers never take a connection out of that
      room: a connection that joins "" and then "abc" is a member of both, and
      stays in "" after it disconnects. */
  lemma EmptyIdIsNeverLeft()
    ensures var a := Conn(0);
      var st1 := Join(Empty, a, "", {a});
      var st2 := Join(st1.reg, a, "abc", {a});
      var st3 := Leave(st2.reg, a, {});
      && a in st2.reg.rooms[""] && a in st2.reg.rooms["abc"]
      && "" in st3.reg.rooms && a in st3.reg.rooms[""] && a !in st3.reg.clientRooms
  {
    var a := Conn(0);
    assert Leave(Empty, a, {a}) == Step(Empty, []);
    var st1 := Join(Empty, a, "", {a});
    var none: seq<Conn> := [];
    assert none + [a] == [a];
    assert st1.reg == Registry(map["" := [a]], map[a := ""]);
    assert Leave(st1.reg, a, {a}) == Step(st1.reg, []);
    var st2 := Join(st1.reg, a, "abc", {a});
    assert st2.reg == Registry(map["" := [a], "abc" := [a]], map[a := "abc"]);
    assert Without([a], a) == [];
  }
}
