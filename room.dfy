/** One game room of the word-chain server and the four transitions its
    socket handlers apply to it (join, start, submit a word, leave), as pure
    functions over the room document. The handlers in module GameServer load
    a room, apply one of these steps and save the result. */
module RoomModel {
  import opened WordRules

  /** `join_game` turns a joiner away once the room holds this many players. */
  const MaxPlayers: nat := 3

  datatype Player = Player(id: string, name: string)

  /** The room document. A new room starts at turn 0 and not started. */
  datatype Room = Room(
    gameId: string,
    players: seq<Player>,
    words: seq<Word>,
    currentPlayerIndex: nat,
    isStarted: bool,
    hostId: string)

  /** What a handler did. Every status other than Created, Joined, AlreadyIn,
      Started, Accepted, Left and RoomDeleted leaves the store unchanged. */
  datatype Status =
    | Created | Joined | AlreadyIn | RoomFull        // join_game
    | Started | NotHost                             // start_game
    | NotStarted | TurnLookupFailed | NotYourTurn   // submit_word
    | ChainMismatch | AlreadyUsed | Accepted
    | NoSuchRoom                                    // start_game, submit_word
    | Left | RoomDeleted | NotInAnyRoom             // disconnect

  datatype Outcome = Outcome(status: Status, room: Room)

  datatype Option<T> = None | Some(value: T)

  /** `players.some(p => p.id === id)`. */
  predicate HasPlayer(players: seq<Player>, id: string)
  {
    exists i :: 0 <= i < |players| && players[i].id == id
  }

  /** What `HasPlayer` means: some entry of the list carries the id. */
  lemma HasPlayerMeaning(players: seq<Player>, id: string)
    ensures HasPlayer(players, id) <==> exists p :: p in players && p.id == id
  {
  }

  ghost predicate DistinctIds(players: seq<Player>)
  {
    forall i, j :: 0 <= i < j < |players| ==> players[i].id != players[j].id
  }

  /** What holds of every room the handlers ever store (with each word kept as
      the code units received; the document store re-encodes unpaired
      surrogates, which is not modelled): it is not empty, never
      above capacity, ids are unique, the host is a player, the turn index is
      below the capacity (though not necessarily below the number of players,
      see LeaveCanStrandTurn), and the word history is a chain without repeats. */
  ghost predicate RoomValid(r: Room)
  {
    && 1 <= |r.players| <= MaxPlayers
    && DistinctIds(r.players)
    && HasPlayer(r.players, r.hostId)
    && r.currentPlayerIndex < MaxPlayers
    && IsChain(r.words)
    && NoRepeats(r.words)
  }

  /** The room `join_game` creates for an unknown game id. */
  function NewRoom(gameId: string, id: string, name: string): (r: Room)
    ensures RoomValid(r)
    ensures r.gameId == gameId && r.players == [Player(id, name)] && r.hostId == id
    ensures r.words == [] && r.currentPlayerIndex == 0 && !r.isStarted
  {
    var r := Room(gameId, [Player(id, name)], [], 0, false, id);
    assert r.players[0].id == id;
    r
  }

  /** `join_game` on an existing room. */
  function Join(r: Room, id: string, name: string): (o: Outcome)
    ensures o.status == AlreadyIn <==> HasPlayer(r.players, id)
    ensures o.status == RoomFull <==> !HasPlayer(r.players, id) && |r.players| >= MaxPlayers
    ensures o.status == Joined <==> !HasPlayer(r.players, id) && |r.players| < MaxPlayers
    ensures o.status != Joined ==> o.room == r
    ensures o.status == Joined ==> o.room == r.(players := r.players + [Player(id, name)])
    ensures |r.players| <= MaxPlayers ==> |o.room.players| <= MaxPlayers
  {
    if HasPlayer(r.players, id) then Outcome(AlreadyIn, r)
    else if |r.players| >= MaxPlayers then Outcome(RoomFull, r)
    else Outcome(Joined, r.(players := r.players + [Player(id, name)]))
  }

  /** `start_game` on an existing room: only the host may start, and starting
      neither clears the words nor resets the turn. */
  function Start(r: Room, id: string): (o: Outcome)
    ensures o.status == Started <==> id == r.hostId
    ensures o.status == Started ==> o.room.isStarted
    ensures o.status != Started ==> o.room == r
    ensures o.room.(isStarted := r.isStarted) == r
  {
    if r.hostId == id then Outcome(Started, r.(isStarted := true)) else Outcome(NotHost, r)
  }

  /** `submit_word` on an existing room. A turn index that no longer points at
      a player makes the handler throw; the error is swallowed, so the room is
      left as it was (TurnLookupFailed). */
  function Submit(r: Room, id: string, word: Word): (o: Outcome)
    ensures o.status == Accepted <==>
      && r.isStarted
      && r.currentPlayerIndex < |r.players|
      && r.players[r.currentPlayerIndex].id == id
      && Chains(r.words, word)
      && word !in r.words
    ensures o.status != Accepted ==> o.room == r
    ensures o.status == Accepted ==>
      && o.room.words == r.words + [word]
      && o.room.currentPlayerIndex == (r.currentPlayerIndex + 1) % |r.players|
      && o.room.currentPlayerIndex < |o.room.players|
      && o.room.(words := r.words, currentPlayerIndex := r.currentPlayerIndex) == r
  {
    if !r.isStarted then Outcome(NotStarted, r)
    else if r.currentPlayerIndex >= |r.players| then Outcome(TurnLookupFailed, r)
    else if r.players[r.currentPlayerIndex].id != id then Outcome(NotYourTurn, r)
    else if !Chains(r.words, word) then Outcome(ChainMismatch, r)
    else if word in r.words then Outcome(AlreadyUsed, r)
    else Outcome(Accepted, r.(words := r.words + [word],
                              currentPlayerIndex := (r.currentPlayerIndex + 1) % |r.players|))
  }

  /** Whether a non-empty list holds `id`, split into its head and its tail. */
  lemma HasPlayerCons(players: seq<Player>, id: string)
    requires players != []
    ensures HasPlayer(players, id) <==> players[0].id == id || HasPlayer(players[1..], id)
  {
  }

  /** `players.filter(p => p.id !== id)`. */
  function RemovePlayer(players: seq<Player>, id: string): (r: seq<Player>)
    ensures |r| <= |players|
    ensures forall p :: p in r <==> p in players && p.id != id
    ensures !HasPlayer(players, id) ==> r == players
  {
    if players == [] then []
    else
      var rest := RemovePlayer(players[1..], id);
      assert forall p :: p in players <==> p == players[0] || p in players[1..];
      HasPlayerCons(players, id);
      if players[0].id == id then rest else [players[0]] + rest
  }

  /** The tail of a list with unique ids has unique ids and lacks the head's id. */
  lemma DistinctTail(players: seq<Player>)
    requires players != [] && DistinctIds(players)
    ensures DistinctIds(players[1..]) && !HasPlayer(players[1..], players[0].id)
  {
  }

  /** A player whose id is not in a list with unique ids can go in front of it. */
  lemma DistinctPrepend(p: Player, players: seq<Player>)
    requires DistinctIds(players) && !HasPlayer(players, p.id)
    ensures DistinctIds([p] + players)
  {
  }

  /** Filtering adds no id that was not there. */
  lemma RemoveAddsNoId(players: seq<Player>, id: string, x: string)
    requires !HasPlayer(players, x)
    ensures !HasPlayer(RemovePlayer(players, id), x)
  {
  }

  /** Filtering keeps the ids unique. */
  lemma {:induction false} RemoveKeepsDistinct(players: seq<Player>, id: string)
    requires DistinctIds(players)
    ensures DistinctIds(RemovePlayer(players, id))
  {
    if players != [] {
      var tail := players[1..];
      DistinctTail(players);
      RemoveKeepsDistinct(tail, id);
      if players[0].id != id {
        RemoveAddsNoId(tail, id, players[0].id);
        DistinctPrepend(players[0], RemovePlayer(tail, id));
      }
    }
  }

  /** `disconnect` on the room that holds the leaving player: None when the
      room is left empty and deleted. */
  function Leave(r: Room, id: string): (o: Option<Room>)
    ensures o == None <==> RemovePlayer(r.players, id) == []
    ensures o.Some? ==>
      && o.value.players == RemovePlayer(r.players, id) != []
      && o.value.hostId == (if r.hostId == id then o.value.players[0].id else r.hostId)
      && o.value.(players := r.players, hostId := r.hostId) == r
  {
    var remaining := RemovePlayer(r.players, id);
    var host := if r.hostId == id && |remaining| > 0 then remaining[0].id else r.hostId;
    if |remaining| == 0 then None
    else Some(r.(players := remaining, hostId := host))
  }

  /** Dropping entry k - 1 of the tail and putting the head back in front is
      dropping entry k of the list. */
  lemma DropAfterHead(players: seq<Player>, k: nat)
    requires 0 < k < |players|
    ensures [players[0]] + (players[1..][..k - 1] + players[1..][k..]) == players[..k] + players[k + 1..]
  {
    assert players[..k] == [players[0]] + players[1..][..k - 1];
    assert players[k + 1..] == players[1..][k..];
  }

  /** Filtering a list whose head stays: if the tail loses exactly its entry
      k - 1, the whole list loses exactly its entry k. */
  lemma RemoveStep(players: seq<Player>, id: string, k: nat)
    requires 0 < k < |players| && players[0].id != id
    requires RemovePlayer(players[1..], id) == players[1..][..k - 1] + players[1..][k..]
    ensures RemovePlayer(players, id) == players[..k] + players[k + 1..]
  {
    assert RemovePlayer(players, id) == [players[0]] + RemovePlayer(players[1..], id);
    DropAfterHead(players, k);
  }

  /** Filtering out the head's id, when the tail does not hold it, leaves the tail. */
  lemma RemoveHead(players: seq<Player>)
    requires players != [] && !HasPlayer(players[1..], players[0].id)
    ensures RemovePlayer(players, players[0].id) == players[..0] + players[1..]
  {
    assert players[..0] + players[1..] == players[1..];
  }

  /** With unique ids, leaving removes exactly the one entry of the leaver and
      keeps everyone else in turn order. */
  lemma {:induction false} RemoveOne(players: seq<Player>, k: nat)
    requires DistinctIds(players) && k < |players|
    ensures RemovePlayer(players, players[k].id) == players[..k] + players[k + 1..]
  {
    DistinctTail(players);
    if k == 0 {
      RemoveHead(players);
    } else {
      assert players[0].id != players[k].id;
      assert players[1..][k - 1] == players[k];
      RemoveOne(players[1..], k - 1);
      RemoveStep(players, players[k].id, k);
    }
  }

  lemma JoinKeepsValid(r: Room, id: string, name: string)
    requires RoomValid(r)
    ensures RoomValid(Join(r, id, name).room)
  {
    var o := Join(r, id, name);
    if o.status == Joined {
      var ps := o.room.players;
      assert ps[..|r.players|] == r.players;
      forall i, j | 0 <= i < j < |ps| ensures ps[i].id != ps[j].id {
        if j == |r.players| {
          assert ps[i] == r.players[i];
        }
      }
      var h :| 0 <= h < |r.players| && r.players[h].id == r.hostId;
      assert ps[h].id == r.hostId;
    }
  }

  lemma StartKeepsValid(r: Room, id: string)
    requires RoomValid(r)
    ensures RoomValid(Start(r, id).room)
  {
  }

  lemma SubmitKeepsValid(r: Room, id: string, word: Word)
    requires RoomValid(r)
    ensures RoomValid(Submit(r, id, word).room)
  {
    if Submit(r, id, word).status == Accepted {
      ExtendHistory(r.words, word);
    }
  }

  /** A room that survives a leave is valid again: in particular the host is
      still one of its players. */
  lemma LeaveKeepsValid(r: Room, id: string)
    requires RoomValid(r)
    requires Leave(r, id).Some?
    ensures RoomValid(Leave(r, id).value)
  {
    var r' := Leave(r, id).value;
    RemoveKeepsDistinct(r.players, id);
    assert r'.players[0] in r'.players;
    if r.hostId != id {
      var h :| 0 <= h < |r.players| && r.players[h].id == r.hostId;
      assert r.players[h] in r'.players;
    }
  }

  /** The quirk of `disconnect`: it never moves the turn index, so a valid,
      started room can be left with an index past its last player, after
      which every word from every player is turned away until someone joins. */
  lemma LeaveCanStrandTurn()
    ensures var r := Room("g", [Player("a", "A"), Player("b", "B")], [[0x78]], 1, true, "a");
      && RoomValid(r)
      && Leave(r, "b") == Some(r.(players := [Player("a", "A")]))
      && forall id, word :: Submit(Leave(r, "b").value, id, word).status == TurnLookupFailed
  {
    var r := Room("g", [Player("a", "A"), Player("b", "B")], [[0x78]], 1, true, "a");
    assert RemovePlayer(r.players, "b") == [Player("a", "A")] by {
      RemoveOne(r.players, 1);
    }
  }

  /** A stranded turn index is revived by `join_game`, which does not look at
      whether the game has started: when the index equals the number of
      players, the joiner takes that seat and the turn is theirs, so their
      next word is accepted if it chains and is unused. */
  lemma JoinRefillsStrandedSeat(r: Room, id: string, name: string)
    requires r.currentPlayerIndex == |r.players| < MaxPlayers
    requires !HasPlayer(r.players, id)
    ensures var o := Join(r, id, name);
      && o.status == Joined
      && o.room.currentPlayerIndex < |o.room.players|
      && o.room.players[o.room.currentPlayerIndex] == Player(id, name)
      && forall word :: r.isStarted && Chains(r.words, word) && word !in r.words ==>
           Submit(o.room, id, word).status == Accepted
  {
  }

  /** One move of the game: who submits which word. */
  datatype Move = Move(id: string, word: Word)

  function WordsOf(moves: seq<Move>): (ws: seq<Word>)
    ensures |ws| == |moves|
    ensures forall k :: 0 <= k < |moves| ==> ws[k] == moves[k].word
  {
    if moves == [] then [] else [moves[0].word] + WordsOf(moves[1..])
  }

  /** The room after submitting the moves one after another. */
  function Play(r: Room, moves: seq<Move>): (r': Room)
    decreases |moves|
  {
    if moves == [] then r else Play(Submit(r, moves[0].id, moves[0].word).room, moves[1..])
  }

  /** Whether every one of the moves is accepted in turn. */
  predicate AllAccepted(r: Room, moves: seq<Move>)
    decreases |moves|
  {
    moves == [] ||
      (Submit(r, moves[0].id, moves[0].word).status == Accepted &&
       AllAccepted(Submit(r, moves[0].id, moves[0].word).room, moves[1..]))
  }

  /** The seat k turns after seat i at a table of n players, one turn at a
      time as `submit_word` advances it. */
  function Seat(i: nat, k: nat, n: nat): (s: nat)
    requires n > 0
    ensures i < n ==> s < n
    decreases k
  {
    if k == 0 then i else Seat((i + 1) % n, k - 1, n)
  }

  /** Advancing by one place and then by k - 1 places is advancing by k
      places. Rooms hold at most three players; that bound on the divisor is
      what lets the solver settle the modular arithmetic. */
  lemma ModStep(i: nat, n: nat, k: nat)
    requires i < n <= MaxPlayers && k >= 1
    ensures ((i + 1) % n + (k - 1)) % n == (i + k) % n
  {
  }

  /** k single steps round the table land on seat (i + k) mod n. */
  lemma {:induction false} SeatIsMod(i: nat, k: nat, n: nat)
    requires i < n <= MaxPlayers
    ensures Seat(i, k, n) == (i + k) % n < n
    decreases k
  {
    if k == 0 {
      assert (i + 0) % n == i;
    } else {
      SeatIsMod((i + 1) % n, k - 1, n);
      ModStep(i, n, k);
    }
  }

  /** After N accepted words the players are the same and the history has
      grown by exactly those words. */
  lemma {:induction false} PlayRecords(r: Room, moves: seq<Move>)
    requires AllAccepted(r, moves)
    ensures Play(r, moves).players == r.players
    ensures Play(r, moves).words == r.words + WordsOf(moves)
    decreases |moves|
  {
    if moves != [] {
      var o := Submit(r, moves[0].id, moves[0].word);
      assert o.room.players == r.players && o.room.words == r.words + [moves[0].word];
      PlayRecords(o.room, moves[1..]);
      assert WordsOf(moves) == [moves[0].word] + WordsOf(moves[1..]);
    }
  }

  /** The first of a run of accepted moves keeps the players and moves the
      turn one seat on; the rest of the run is then played from there. */
  lemma AcceptedStep(r: Room, moves: seq<Move>)
    requires moves != [] && AllAccepted(r, moves)
    ensures var o := Submit(r, moves[0].id, moves[0].word).room;
      && o.players == r.players
      && o.currentPlayerIndex == (r.currentPlayerIndex + 1) % |r.players| < |r.players|
      && AllAccepted(o, moves[1..])
      && Play(r, moves) == Play(o, moves[1..])
  {
  }

  /** Each accepted word moves the turn on by one seat, so after N of them it
      is at seat Seat(i, N, n), which SeatIsMod puts at (i + N) mod n. */
  lemma {:induction false} PlayMovesTurn(r: Room, moves: seq<Move>)
    requires r.currentPlayerIndex < |r.players|
    requires AllAccepted(r, moves)
    ensures Play(r, moves).currentPlayerIndex == Seat(r.currentPlayerIndex, |moves|, |r.players|)
    decreases |moves|
  {
    if moves != [] {
      var o := Submit(r, moves[0].id, moves[0].word);
      AcceptedStep(r, moves);
      PlayMovesTurn(o.room, moves[1..]);
    }
  }

  /** The accepted words were played round the table in order: the k-th of
      them came from the player at Seat(i, k, n), k places after the one whose
      turn it was (at (i + k) mod n by SeatIsMod). */
  lemma {:induction false} PlayTakesTurns(r: Room, moves: seq<Move>, k: nat)
    requires r.currentPlayerIndex < |r.players|
    requires AllAccepted(r, moves)
    requires k < |moves|
    ensures moves[k].id == r.players[Seat(r.currentPlayerIndex, k, |r.players|)].id
    decreases k
  {
    if k > 0 {
      var o := Submit(r, moves[0].id, moves[0].word);
      AcceptedStep(r, moves);
      PlayTakesTurns(o.room, moves[1..], k - 1);
      assert moves[k] == moves[1..][k - 1];
    }
  }
}
