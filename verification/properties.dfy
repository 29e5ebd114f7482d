/**
 Properties of the disconnect and list handlers stated in terms of the map
 view of the registry (`Lookup`, `Names`) rather than entry positions.
 */
module HandlerProperties {
  import opened Wrappers
  import opened RoomStore
  import opened Events
  import opened Handlers

  /** A socket that holds no member anywhere disconnects without effect. */
  lemma DisconnectUnknownIdIsNoop(reg: Registry, id: string)
    requires forall i :: 0 <= i < |reg| ==> !HasMember(reg[i].room, id)
    ensures Disconnect(reg, id) == Step(reg, [])
  {
    var s := Disconnect(reg, id);
    assert s.state == reg;
  }

  /** Each room loses exactly one member if the socket held one there, and
      none otherwise; no room is added, removed or reordered. */
  lemma DisconnectMemberCounts(reg: Registry, id: string)
    ensures Names(Disconnect(reg, id).state) == Names(reg)
    ensures forall i :: 0 <= i < |reg| ==>
      |Disconnect(reg, id).state[i].room.users| ==
        |reg[i].room.users| - (if HasMember(reg[i].room, id) then 1 else 0)
  {
    var s := Disconnect(reg, id);
    assert forall i :: 0 <= i < |reg| ==> Names(s.state)[i] == Names(reg)[i];
  }

  /** In map terms: the room called `name` afterwards is what one step of the
      disconnect loop makes of it, and it is still registered. */
  lemma DisconnectLookup(reg: Registry, id: string, name: string)
    requires DistinctNames(reg)
    ensures var after := Lookup(Disconnect(reg, id).state, name);
      match Lookup(reg, name)
      case None => after.None?
      case Some(room) => after == Some(LeaveRoom(Entry(name, room), id).0.room)
  {
    var r := Disconnect(reg, id).state;
    assert forall i :: 0 <= i < |r| ==> r[i].name == reg[i].name;
    assert DistinctNames(r);
    match Lookup(reg, name)
    case None =>
    case Some(room) =>
      var i :| 0 <= i < |reg| && reg[i].name == name;
      assert reg[i] == Entry(name, room);
      assert r[i].name == name;
  }

  /** A `user_left` goes to room `name` exactly when that room held a member
      with this socket id. */
  lemma DisconnectNotifiesExactlyHoldingRooms(reg: Registry, id: string, name: string)
    requires DistinctNames(reg)
    ensures var events := Disconnect(reg, id).events;
      (exists k :: 0 <= k < |events| && events[k].target == ToRoom(name)) <==>
        (Has(reg, name) && HasMember(Lookup(reg, name).value, id))
  {
    var events := Disconnect(reg, id).events;
    if exists k :: 0 <= k < |events| && events[k].target == ToRoom(name) {
      var k :| 0 <= k < |events| && events[k].target == ToRoom(name);
      NotifiedRoomHeldMember(reg, id, k);
    }
    if Has(reg, name) && HasMember(Lookup(reg, name).value, id) {
      var i :| 0 <= i < |reg| && reg[i].name == name;
      HoldingRoomIsNotified(reg, id, i);
    }
  }

  lemma NotifiedRoomHeldMember(reg: Registry, id: string, k: nat)
    requires DistinctNames(reg)
    requires k < |Disconnect(reg, id).events|
    ensures var name := Disconnect(reg, id).events[k].target.room;
      Disconnect(reg, id).events[k].target.ToRoom? && Has(reg, name) && HasMember(Lookup(reg, name).value, id)
  {
    var events := Disconnect(reg, id).events;
    var hit := RoomsHolding(reg, id);
    assert [events[k]] == LeaveRoom(hit[k], id).1;
    assert ((e: Entry) => HasMember(e.room, id))(hit[k]);
    var i :| 0 <= i < |reg| && reg[i] == hit[k];
    assert Lookup(reg, reg[i].name) == Some(reg[i].room);
  }

  lemma HoldingRoomIsNotified(reg: Registry, id: string, i: nat)
    requires i < |reg| && HasMember(reg[i].room, id)
    ensures exists k ::
      0 <= k < |Disconnect(reg, id).events| && Disconnect(reg, id).events[k].target == ToRoom(reg[i].name)
  {
    var events := Disconnect(reg, id).events;
    var hit := RoomsHolding(reg, id);
    assert ((e: Entry) => HasMember(e.room, id))(reg[i]);
    assert reg[i] in hit;
    var k :| 0 <= k < |hit| && hit[k] == reg[i];
    assert [events[k]] == LeaveRoom(hit[k], id).1;
  }

  /** The room list names every registered room once, in insertion order, and
      reports each room's member count and timestamps as `rooms.get` sees them. */
  lemma ListRoomsMatchesLookup(reg: Registry, name: string)
    requires DistinctNames(reg)
    ensures var list := ListRooms(reg).events[0].payload.rooms;
      && seq(|list|, i requires 0 <= i < |list| => list[i].name) == Names(reg)
      && (Has(reg, name) <==> exists i :: 0 <= i < |list| && list[i].name == name)
      && forall i :: 0 <= i < |list| && list[i].name == name ==>
           var room := Lookup(reg, name).value;
           list[i] == RoomSummary(name, |room.users|, room.createdAt, room.expiresAt)
  {
    var list := ListRooms(reg).events[0].payload.rooms;
    forall i | 0 <= i < |list| && list[i].name == name
      ensures Has(reg, name)
    {
      assert reg[i].name == name;
    }
  }
}
