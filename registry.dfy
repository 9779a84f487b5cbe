/** The process-wide `rooms` table and the socket handlers that look rooms up in it. */
module RoomRegistry {
  import opened Common
  import opened Deck
  import opened Players
  import opened Turns
  import opened Dealing
  import opened Claims
  import opened Bluff
  import opened View
  import opened Rooms

  class Registry {
    var rooms: map<string, Room>

    /** Every registered room is valid, and no room object is registered under two ids. */
    ghost predicate Valid()
      reads this, rooms.Values
    {
      && (forall id :: id in rooms ==> rooms[id].Valid())
      && (forall a, b :: a in rooms && b in rooms && a != b ==> rooms[a] != rooms[b])
    }

    constructor ()
      ensures Valid() && rooms == map[]
    {
      rooms := map[];
    }

    /**
     * `create_room`: an empty `roomId` is replaced by `freshId` (the server's
     * random id); an id already in use is refused with "Room exists"; otherwise a
     * new lobby is registered with the creator as its host.
     */
    method CreateRoom(roomId: string, freshId: string, socketId: string, name: string)
      returns (res: Result<(string, string), Error>)
      requires Valid()
      modifies this
      ensures Valid()
      ensures OrElse(roomId, freshId) in old(rooms) ==> res == Err(RoomExists) && rooms == old(rooms)
      ensures OrElse(roomId, freshId) !in old(rooms) ==>
        var rid := OrElse(roomId, freshId);
        && res == Ok((rid, PlayerIdFor(socketId)))
        && rooms.Keys == old(rooms).Keys + {rid}
        && (forall k :: k in old(rooms) ==> rooms[k] == old(rooms)[k])
        && fresh(rooms[rid])
        && rooms[rid].players == [Player(PlayerIdFor(socketId), socketId, OrElse(name, "Guest"), [], true, false)]
        && rooms[rid].pile == [] && rooms[rid].lastClaim == None
        && rooms[rid].turnIndex == 0 && !rooms[rid].started
    {
      var rid := OrElse(roomId, freshId);
      if rid in rooms {
        return Err(RoomExists);
      }
      var player := Player(PlayerIdFor(socketId), socketId, OrElse(name, "Guest"), [], true, false);
      var room := new Room(player);
      rooms := rooms[rid := room];
      res := Ok((rid, player.id));
    }

    /** `join_room`: "No such room" for an unknown id, otherwise what `Room.Join` answers. */
    method JoinRoom(roomId: string, socketId: string, name: string) returns (res: Result<(string, string), Error>)
      requires Valid()
      modifies if roomId in rooms then {rooms[roomId]} else {}
      ensures Valid() && rooms == old(rooms)
      ensures roomId !in rooms ==> res == Err(NoSuchRoom)
      ensures roomId in rooms ==>
        var r := rooms[roomId];
        && (old(r.started) ==> res == Err(GameAlreadyStarted) && unchanged(r))
        && (!old(r.started) && HasSocket(old(r.players), socketId) ==> res == Err(AlreadyJoined) && unchanged(r))
        && (!old(r.started) && !HasSocket(old(r.players), socketId) ==>
              && res == Ok((roomId, PlayerIdFor(socketId)))
              && r.players == old(r.players) + [Player(PlayerIdFor(socketId), socketId, OrElse(name, "Guest"), [], false, false)]
              && r.pile == old(r.pile) && r.lastClaim == old(r.lastClaim)
              && r.turnIndex == old(r.turnIndex) && r.started == old(r.started))
    {
      if roomId !in rooms {
        return Err(NoSuchRoom);
      }
      var r := rooms[roomId];
      var playerId := PlayerIdFor(socketId);
      var joined := r.Join(playerId, socketId, name);
      if joined.Err? {
        return Err(joined.error);
      }
      res := Ok((roomId, playerId));
    }

    /** `start_game`: "No such room" for an unknown id, otherwise what `Room.Start` answers. */
    method StartGame(roomId: string, suffix: nat -> string, js: seq<int>) returns (res: Result<(), Error>)
      requires Valid() && ValidDraws(js, DECK_SIZE)
      modifies if roomId in rooms then {rooms[roomId]} else {}
      ensures Valid() && rooms == old(rooms)
      ensures roomId !in rooms ==> res == Err(NoSuchRoom)
      ensures roomId in rooms ==>
        var r := rooms[roomId];
        && (old(r.started) ==> res == Err(AlreadyStarted) && unchanged(r))
        && (!old(r.started) ==>
              && res == Ok(())
              && r.started && r.turnIndex == 0 && r.pile == [] && r.lastClaim == None
              && r.players == StartedSeats(old(r.players), suffix, js))
    {
      if roomId !in rooms {
        return Err(NoSuchRoom);
      }
      res := rooms[roomId].Start(suffix, js);
    }

    /** `play_cards`: silently ignored for an unknown room, otherwise `Room.Play`. */
    method PlayCards(roomId: string, playerId: string, cardIds: seq<string>, req: ClaimRequest)
      returns (over: Option<GameOver>)
      requires Valid()
      modifies if roomId in rooms then {rooms[roomId]} else {}
      ensures Valid() && rooms == old(rooms)
      ensures roomId !in rooms ==> over == None
      ensures roomId in rooms ==>
        var r := rooms[roomId];
        && (!old(r.started) || IndexOfId(old(r.players), playerId) != old(r.turnIndex) ==>
              unchanged(r) && over == None)
        && (old(r.started) && IndexOfId(old(r.players), playerId) == old(r.turnIndex) ==>
              var idx := old(r.turnIndex);
              var picked := Pick(old(r.players)[idx].hand, cardIds);
              && r.players == old(r.players)[idx := Played(old(r.players)[idx], picked.kept)]
              && (r.players[idx].finished <==> r.players[idx].hand == [])
              && r.pile == old(r.pile) + picked.played
              && r.lastClaim == Some(ClaimFor(playerId, req, |picked.played|))
              && r.turnIndex == NextTurnIndex(r.players, old(r.turnIndex))
              && over == GameOverOf(r.players, true)
              && r.started == over.None?
              && r.Cards() == old(r.Cards()))
    {
      if roomId !in rooms {
        return None;
      }
      over := rooms[roomId].Play(playerId, cardIds, req);
    }

    /** `call_bluff`: "Nothing to call" for an unknown room, otherwise what `Room.CallBluff` answers. */
    method CallBluff(roomId: string, callerId: string, claimedPlayerId: string)
      returns (res: Result<Resolution, Error>, over: Option<GameOver>)
      requires Valid()
      modifies if roomId in rooms then {rooms[roomId]} else {}
      ensures Valid() && rooms == old(rooms)
      ensures roomId !in rooms ==> res == Err(NothingToCall) && over == None
      ensures roomId in rooms ==>
        var r := rooms[roomId];
        && (!old(r.started) || old(r.lastClaim).None? ==> res == Err(NothingToCall) && over == None && unchanged(r))
        && (old(r.started) && old(r.lastClaim).Some? &&
            (IndexOfId(old(r.players), callerId) == -1 || IndexOfId(old(r.players), claimedPlayerId) == -1) ==>
              res == Err(InvalidPlayers) && over == None && unchanged(r))
        && (old(r.started) && old(r.lastClaim).Some? &&
            IndexOfId(old(r.players), callerId) != -1 && IndexOfId(old(r.players), claimedPlayerId) != -1 ==>
              var v := Resolve(old(r.players), old(r.pile), old(r.lastClaim).value,
                               IndexOfId(old(r.players), callerId), IndexOfId(old(r.players), claimedPlayerId));
              && r.players == v.players && r.pile == v.pile && r.lastClaim == None
              && r.turnIndex == NextTurnIndex(v.players, v.recipient)
              && res == Ok(v.resolution)
              && over == GameOverOf(v.players, true)
              && r.started == over.None?)
    {
      if roomId !in rooms {
        return Err(NothingToCall), None;
      }
      res, over := rooms[roomId].CallBluff(callerId, claimedPlayerId);
    }

    /**
     * `removePlayerFromRoom`: the socket's seats leave the room; a room left empty
     * is deleted, otherwise its turn pointer is reset to 0 if it ran past the end.
     */
    method RemovePlayerFromRoom(roomId: string, socketId: string)
      requires Valid()
      modifies this, if roomId in rooms then {rooms[roomId]} else {}
      ensures Valid()
      ensures roomId !in old(rooms) ==> rooms == old(rooms)
      ensures roomId in old(rooms) ==>
        var r := old(rooms)[roomId];
        && r.players == WithoutSocket(old(r.players), socketId)
        && r.pile == old(r.pile) && r.lastClaim == old(r.lastClaim) && r.started == old(r.started)
        && (r.players == [] ==> rooms == old(rooms) - {roomId})
        && (r.players != [] ==>
              && rooms == old(rooms)
              && r.turnIndex == if old(r.turnIndex) >= |r.players| then 0 else old(r.turnIndex))
      ensures roomId in old(rooms) ==> (roomId in rooms <==> Removed(old(rooms[roomId].Data()), socketId).Some?)
      ensures roomId in rooms ==> Some(rooms[roomId].Data()) == Removed(old(rooms[roomId].Data()), socketId)
      ensures forall k :: k in rooms && k != roomId ==> rooms[k].Data() == old(rooms[k].Data())
    {
      if roomId !in rooms {
        return;
      }
      var r := rooms[roomId];
      r.DropSocket(socketId);
      if |r.players| == 0 {
        rooms := rooms - {roomId};
      }
      forall k | k in rooms && k != roomId
        ensures rooms[k].Data() == old(rooms[k].Data())
      {
        assert old(rooms)[k] != r;
      }
    }

    /** `leave_room`: the leaving socket is removed from the one room it names. */
    method LeaveRoom(roomId: string, socketId: string)
      requires Valid()
      modifies this, if roomId in rooms then {rooms[roomId]} else {}
      ensures Valid()
      ensures roomId !in old(rooms) ==> rooms == old(rooms)
      ensures roomId in old(rooms) ==>
        var r := old(rooms)[roomId];
        && r.players == WithoutSocket(old(r.players), socketId)
        && r.pile == old(r.pile) && r.lastClaim == old(r.lastClaim) && r.started == old(r.started)
        && (r.players == [] ==> rooms == old(rooms) - {roomId})
        && (r.players != [] ==>
              && rooms == old(rooms)
              && r.turnIndex == if old(r.turnIndex) >= |r.players| then 0 else old(r.turnIndex))
      ensures roomId in old(rooms) ==> (roomId in rooms <==> Removed(old(rooms[roomId].Data()), socketId).Some?)
      ensures roomId in rooms ==> Some(rooms[roomId].Data()) == Removed(old(rooms[roomId].Data()), socketId)
      ensures forall k :: k in rooms && k != roomId ==> rooms[k].Data() == old(rooms[k].Data())
    {
      RemovePlayerFromRoom(roomId, socketId);
    }

    /**
     * `disconnecting`: the socket is removed from every room it had joined
     * (`roomIds`, its rooms other than its own). Each named room ends as
     * `Removed` says of its old state, deleted when no seat is left; every
     * other room is untouched.
     */
    method Disconnect(roomIds: seq<string>, socketId: string)
      requires Valid()
      modifies this, set k | k in roomIds && k in rooms :: rooms[k]
      ensures Valid()
      ensures rooms.Keys <= old(rooms).Keys
      ensures forall k :: k in rooms ==> rooms[k] == old(rooms)[k]
      ensures forall k :: k in old(rooms) && k !in roomIds ==>
        k in rooms && rooms[k].Data() == old(rooms[k].Data())
      ensures forall k :: k in old(rooms) && k in roomIds ==>
        (k in rooms <==> Removed(old(rooms[k].Data()), socketId).Some?)
      ensures forall k :: k in rooms && k in roomIds ==>
        Some(rooms[k].Data()) == Removed(old(rooms[k].Data()), socketId)
    {
      ghost var before := map k | k in rooms :: rooms[k].Data();
      ghost var done: set<string> := {};
      var n := 0;
      while n < |roomIds|
        invariant 0 <= n <= |roomIds|
        invariant Valid()
        invariant rooms.Keys <= old(rooms).Keys
        invariant forall k :: k in rooms ==> rooms[k] == old(rooms)[k]
        invariant forall k :: k in done <==> k in roomIds[..n]
        invariant Progress(before, done, socketId)
      {
        assert roomIds[..n + 1] == roomIds[..n] + [roomIds[n]];
        ForgetSocket(roomIds[n], socketId, before, done);
        done := done + {roomIds[n]};
        n := n + 1;
      }
      assert roomIds[..n] == roomIds;
    }

    /** One step of the disconnect loop: the socket leaves room `id`. */
    method ForgetSocket(id: string, socketId: string, ghost before: map<string, RoomData>, ghost done: set<string>)
      requires Valid() && Progress(before, done, socketId)
      modifies this, if id in rooms then {rooms[id]} else {}
      ensures Valid() && Progress(before, done + {id}, socketId)
      ensures forall k :: k in rooms ==> k in old(rooms) && rooms[k] == old(rooms)[k]
    {
      if id !in rooms {
        return;
      }
      ghost var d0 := rooms[id].Data();
      assert Removed(d0, socketId) == Removed(before[id], socketId) by {
        if id in done {
          RemovedIdempotent(before[id], socketId);
        }
      }
      RemovePlayerFromRoom(id, socketId);
      assert id in rooms <==> Removed(before[id], socketId).Some?;
      assert id in rooms ==> Some(rooms[id].Data()) == Removed(before[id], socketId);
    }

    /**
     * Partway through a disconnect: the rooms of `done` are as `Removed` says of
     * their state `before`, and every other room still has that state.
     */
    ghost predicate Progress(before: map<string, RoomData>, done: set<string>, socketId: string)
      reads this, rooms.Values
    {
      && rooms.Keys <= before.Keys
      && (forall k :: k in before && k !in done ==> k in rooms && rooms[k].Data() == before[k])
      && (forall k :: k in before && k in done ==> (k in rooms <==> Removed(before[k], socketId).Some?))
      && (forall k :: k in rooms && k in done ==> Some(rooms[k].Data()) == Removed(before[k], socketId))
    }

    /** `broadcastRoomState`: the public state of a registered room, nothing for an unknown id. */
    function RoomState(roomId: string): (v: Option<RoomView>)
      reads this, rooms.Values
      ensures v.Some? <==> roomId in rooms
      ensures v.Some? ==>
        var r := rooms[roomId];
        v.value == PublicView(r.players, r.pile, r.lastClaim, r.turnIndex, r.started)
    {
      if roomId in rooms then
        var r := rooms[roomId];
        Some(PublicView(r.players, r.pile, r.lastClaim, r.turnIndex, r.started))
      else None
    }
  }
}
