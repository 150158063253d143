/** The socket handlers of the word-chain server, over an in-memory store of
    room documents. Each handler runs as one atomic step: it loads a room,
    checks its rules in the order the handler does, changes the loaded
    document step by step and saves or deletes it. Sockets, broadcasts and
    logging are not modelled; a handler's outcome is returned as a Status. */
module GameServer {
  import opened WordRules
  import opened RoomModel

  class Server {
    /** The game collection: one room document per game id. */
    var rooms: map<string, Room>

    /** Every stored room is filed under its own game id and is valid. */
    ghost predicate Valid()
      reads this
    {
      forall g :: g in rooms ==> rooms[g].gameId == g && RoomValid(rooms[g])
    }

    constructor ()
      ensures Valid() && rooms == map[]
    {
      rooms := map[];
    }

    /** `join_game`: create the room with the joiner as its only player and
        host, or add the joiner to the existing room unless already there or
        the room is full. Whether the game has started is not looked at. */
    method JoinGame(gameId: string, id: string, name: string) returns (status: Status)
      requires Valid()
      modifies this
      ensures Valid()
      ensures gameId !in old(rooms) ==>
        status == Created && rooms == old(rooms)[gameId := NewRoom(gameId, id, name)]
      ensures gameId in old(rooms) ==>
        var o := Join(old(rooms)[gameId], id, name);
        status == o.status && rooms == old(rooms)[gameId := o.room]
    {
      if gameId !in rooms {
        var game := NewRoom(gameId, id, name);
        rooms := rooms[gameId := game];
        return Created;
      }
      var game := rooms[gameId];
      JoinKeepsValid(game, id, name);
      if !HasPlayer(game.players, id) {
        if |game.players| >= MaxPlayers {
          return RoomFull;
        }
        game := game.(players := game.players + [Player(id, name)]);
        status := Joined;
      } else {
        status := AlreadyIn;
      }
      rooms := rooms[gameId := game];
    }

    /** `start_game`: the host, and only the host, starts the game. */
    method StartGame(gameId: string, id: string) returns (status: Status)
      requires Valid()
      modifies this
      ensures Valid()
      ensures gameId !in old(rooms) ==> status == NoSuchRoom && rooms == old(rooms)
      ensures gameId in old(rooms) ==>
        var o := Start(old(rooms)[gameId], id);
        status == o.status && rooms == old(rooms)[gameId := o.room]
    {
      if gameId !in rooms {
        return NoSuchRoom;
      }
      var game := rooms[gameId];
      StartKeepsValid(game, id);
      if game.hostId == id {
        game := game.(isStarted := true);
        rooms := rooms[gameId := game];
        status := Started;
      } else {
        status := NotHost;
      }
    }

    /** `submit_word`: the checks run in the handler's order (room, started,
        turn, chain, repeat); only a word that passes them all is recorded,
        and the turn passes to the next player round the table. */
    method SubmitWord(gameId: string, id: string, word: Word) returns (status: Status)
      requires Valid()
      modifies this
      ensures Valid()
      ensures gameId !in old(rooms) ==> status == NoSuchRoom && rooms == old(rooms)
      ensures gameId in old(rooms) ==>
        var o := Submit(old(rooms)[gameId], id, word);
        status == o.status && rooms == old(rooms)[gameId := o.room]
    {
      if gameId !in rooms {
        return NoSuchRoom;
      }
      var game := rooms[gameId];
      SubmitKeepsValid(game, id, word);
      if !game.isStarted {
        return NotStarted;
      }
      if game.currentPlayerIndex >= |game.players| {
        // players[currentPlayerIndex] is undefined: the handler throws and
        // the error is caught and logged
        return TurnLookupFailed;
      }
      if game.players[game.currentPlayerIndex].id != id {
        return NotYourTurn;
      }
      if !Chains(game.words, word) {
        return ChainMismatch;
      }
      if word in game.words {
        return AlreadyUsed;
      }
      game := game.(words := game.words + [word]);
      game := game.(currentPlayerIndex := (game.currentPlayerIndex + 1) % |game.players|);
      rooms := rooms[gameId := game];
      status := Accepted;
    }

    /** `disconnect`: find a room that holds the player, drop every entry with
        that id, hand the host role to the first remaining player if the host
        left, and delete the room if nobody is left. Which room is found when
        several hold the id is up to the store; the one chosen is returned. */
    method Disconnect(id: string) returns (status: Status, gameId: string)
      requires Valid()
      modifies this
      ensures Valid()
      ensures status == NotInAnyRoom <==>
        forall g :: g in old(rooms) ==> !HasPlayer(old(rooms)[g].players, id)
      ensures status == NotInAnyRoom ==> rooms == old(rooms)
      ensures status != NotInAnyRoom ==>
        && gameId in old(rooms)
        && HasPlayer(old(rooms)[gameId].players, id)
        && match Leave(old(rooms)[gameId], id)
           case None => status == RoomDeleted && rooms == old(rooms) - {gameId}
           case Some(r) => status == Left && rooms == old(rooms)[gameId := r]
    {
      if !exists g :: g in rooms && HasPlayer(rooms[g].players, id) {
        return NotInAnyRoom, "";
      }
      gameId :| gameId in rooms && HasPlayer(rooms[gameId].players, id);
      var game := rooms[gameId];
      ghost var before := game;
      game := game.(players := RemovePlayer(game.players, id));
      if game.hostId == id && |game.players| > 0 {
        game := game.(hostId := game.players[0].id);
      }
      if |game.players| == 0 {
        rooms := rooms - {gameId};
        status := RoomDeleted;
      } else {
        LeaveKeepsValid(before, id);
        rooms := rooms[gameId := game];
        status := Left;
      }
    }
  }
}
