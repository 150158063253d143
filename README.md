# Word-chain game rooms, modelled in Dafny

The server of this multiplayer word-chain game (끝말잇기) keeps one document per
room: the game id, the players in turn order, the words accepted so far, the
index of the player whose turn it is, whether the game has started, and the
host's id. Four socket handlers change rooms: `join_game`, `start_game`,
`submit_word` and `disconnect`. Each one loads a room, checks its rules,
changes the document and saves it, or deletes it when it is empty.

The model has three modules:

- `WordRules` (words.dfy): the two word checks of `submit_word`. The chain
  rule says a word must start with `lastWord.slice(-1)`. The no-repeat rule
  says a word must not already be in the history. The module also says what a
  valid history is: a chain with no repeats.
- `RoomModel` (room.dfy): the room document as a datatype. It has the
  invariant every stored room keeps (`RoomValid`) and the four transitions as
  pure functions over one room. Lemmas show that each transition keeps the
  invariant, and they cover what a run of accepted words does.
- `GameServer` (server.dfy): a class holding the store as a
  `map<string, Room>`. It has one method per handler. Each method loads the
  room, applies the handler's checks in the handler's order, updates the loaded
  document step by step, and saves or deletes it. Each method's `ensures` ties
  the new store to the `RoomModel` transition and keeps the store invariant.

A submitted word is a sequence of UTF-16 code units (`bv16`), as the
JavaScript string is. A character outside the Basic Multilingual Plane is
therefore a surrogate pair, and `slice(-1)` yields only its low half. The
store keeps each accepted word exactly as received (see "Left out" for words
with an unpaired surrogate). Each handler is one atomic step over the
in-memory store.

What the socket handlers in server.ts do, and the model with them (the HTTP
route in src/app/api/game/[gameId]/route.ts handles the same actions
differently, as noted, but it is not part of this model):

- `join_game` turns a joiner away once the room holds 3 players. The route's
  limit is 10.
- A re-join is recognised by the connection id only. The route matches players
  by name instead.
- `submit_word` has no minimum word length and no character-set rule. The
  route requires at least 3 characters, all Hangul syllables.
- There is no turn timer, `timeout` action or game-over state. The route has
  a 10-second turn limit and a `timeout` action that ends the game.
- `start_game` only sets `isStarted`. It does not clear the words or reset
  the turn.
- `disconnect` does not move the turn index, so the index can end up past the
  last player. Every `submit_word` then fails on `players[index]`, and the
  error is caught and ignored. This lasts until joins bring the number of
  players above the index: `join_game` does not look at `isStarted`, and the
  player who takes the seat at the index has the turn.

## Model

| member | source | states |
|---|---|---|
| WordRules.LastChar | server.ts:92-93 | `slice(-1)` is empty for the empty word and otherwise the one-code-unit suffix of the word |
| WordRules.StartsWithMeaning | server.ts:93 | `startsWith` holds iff the word is at least as long as the prefix and agrees with it at every position of the prefix |
| WordRules.ChainsMeaning | server.ts:92-93 | with no previous word every word chains; after a non-empty last word, a word chains iff it is non-empty and its first code unit is that word's last code unit; after an empty last word every word chains |
| WordRules.LastCharSplitsPair | server.ts:92-93 | after a word ending in U+1F600, only its low surrogate is the chain prefix: a word starting with the same character does not chain, and a word starting with the lone low surrogate does |
| WordRules.ExtendHistory | server.ts:92-102 | appending a word that passes both checks keeps the history a chain with no repeats |
| RoomModel.HasPlayerMeaning | server.ts:51 | `players.some(p => p.id === id)` holds iff some entry of the list carries the id |
| RoomModel.NewRoom | server.ts:41-48 | the room created on first join is filed under the given game id, has the joiner as its only player and as host, no words, turn 0 and not started (the schema defaults of src/models/Game.ts:20-21), and is valid |
| RoomModel.Join | server.ts:49-57 | an id already in the room changes nothing; a room with 3 or more players refuses with no change; otherwise exactly one player is appended at the end and nothing else changes; the room never grows beyond 3 players |
| RoomModel.Start | server.ts:69-74 | the game starts iff the caller is the host; starting sets only `isStarted` and leaves the words and the turn index alone; a non-host changes nothing |
| RoomModel.Submit | server.ts:82-103 | a word is accepted iff the game has started, the turn index points at a player, that player is the caller, the word chains and is unused; acceptance appends exactly the word and moves the turn to (i+1) mod n, which is in range; any rejection changes nothing |
| RoomModel.RemovePlayer | server.ts:117 | the filter keeps exactly the entries whose id differs from the leaver's, never grows the list, and changes nothing when the id is absent |
| RoomModel.RemoveKeepsDistinct | server.ts:117 | filtering a list with unique ids leaves the ids unique |
| RoomModel.RemoveOne | server.ts:117 | with unique ids, leaving removes exactly the leaver's entry and keeps everyone else in turn order |
| RoomModel.Leave | server.ts:117-125 | the room is deleted iff no player remains; otherwise the players are the filtered list, the host passes to the first remaining player iff the host left, and nothing else changes |
| RoomModel.JoinKeepsValid | server.ts:50-57 | a join keeps the room valid: at most 3 players, unique ids, host present, history a chain without repeats |
| RoomModel.StartKeepsValid | server.ts:70-71 | a start keeps the room valid |
| RoomModel.SubmitKeepsValid | server.ts:86-103 | a submission keeps the room valid, in particular the history stays a chain without repeats |
| RoomModel.LeaveKeepsValid | server.ts:117-121 | a room that survives a leave is valid, in particular its host is one of its remaining players |
| RoomModel.LeaveCanStrandTurn | server.ts:86-120 | a valid started room can be left with its turn index past the last player, and then every submission from anyone is refused with no change |
| RoomModel.JoinRefillsStrandedSeat | server.ts:49-57 | when the turn index equals the number of players, a new joiner is accepted into that very seat and has the turn: in a started room their next word is accepted if it chains and is unused |
| RoomModel.SeatIsMod | server.ts:103 | advancing the turn k times one seat at a time lands on seat (i+k) mod n, for tables of at most 3 players (every valid room) |
| RoomModel.PlayRecords | server.ts:102 | after a run of accepted words the players are unchanged and the history has grown by exactly those words, in order |
| RoomModel.PlayMovesTurn | server.ts:103 | after N accepted words the turn is N seats further on, which with SeatIsMod is (i+N) mod n for tables of at most 3 players |
| RoomModel.PlayTakesTurns | server.ts:86-89 | in a run of accepted words, the k-th word came from the player k seats after the one whose turn it was |
| GameServer.Server.JoinGame | server.ts:36-65 | an unknown game id creates the new room; otherwise the store changes exactly as Join says; the store invariant is kept |
| GameServer.Server.StartGame | server.ts:67-78 | a missing room changes nothing; otherwise the store changes exactly as Start says; the store invariant is kept |
| GameServer.Server.SubmitWord | server.ts:80-110 | a missing room changes nothing; otherwise the checks run in the handler's order and the store changes exactly as Submit says; the store invariant is kept |
| GameServer.Server.Disconnect | server.ts:112-133 | if no room holds the id, nothing changes; otherwise a room holding it is chosen, and the room is either deleted when nobody is left or saved as Leave says; the store invariant is kept |

## Left out

- Socket rooms, `emit` and `emitGameUpdate`, the error messages sent to a
  client, console logging, and the forwarding of HTTP requests. These are
  transport and I/O. A handler's outcome is returned as a `Status` instead.
- The asynchronous load, save and delete calls against the document store.
  Concurrent handlers on one room can interleave. Each handler is modelled as
  one atomic step, so lost updates between concurrent handlers are not
  modelled.
- The database connection cache in src/lib/mongodb.ts is not part of this
  model. It is I/O plumbing.
- The schema in src/models/Game.ts enters the model only through a new room's
  defaults, turn 0 and not started (its `required` checks are covered by the
  GameServer.Server.JoinGame line below). Its `isGameOver`, `turnStartedAt` and round-history
  fields are never read or written by these handlers.
- The client pages and the HTTP route handler are not part of this model. The
  random game id made by the client is not modelled either.
- GameServer.Server.Disconnect: when several rooms hold the id, the store's
  `findOne` picks one. The model picks any such room and returns its game id.
  It does not model which one the store would find.
- A payload whose `word` or `name` is not a string, or is missing, is not
  modelled. Every argument is a string, and a word is the sequence of its
  code units.
- GameServer.Server.JoinGame: the schema's `required` validation is not
  modelled. The store rejects an empty `name` for a new player
  (src/models/Game.ts:5) and an empty `gameId` for a new room
  (src/models/Game.ts:17) when the handler saves, and the handler's catch
  then leaves the store unchanged. The model instead reports Created or
  Joined for these inputs.
- Player ids, names and game ids are Dafny strings, whose elements are
  Unicode scalar values rather than UTF-16 code units. The handlers only
  store these and compare them whole, and two strings are equal exactly when
  their code units are, so nothing the model states depends on the encoding.
- GameServer.Server.SubmitWord: the document store's string encoding is not
  modelled. The store saves strings as UTF-8 and replaces each unpaired
  surrogate code unit with U+FFFD, while the model keeps every accepted word's
  code units as received. For a word that contains an unpaired surrogate
  (0xD800-0xDFFF not part of a pair), the model therefore differs from the
  program in three ways: the later chain check (`slice(-1)` of the stored
  word), the later repeat check (`includes` against the stored words), and
  the chain and no-repeat properties (IsChain, NoRepeats in RoomValid) of
  the history as actually stored. For example, after "x\uD800x" is accepted
  the program stores "x\uFFFDx", and it would accept "x\uD800x" again, which
  the model refuses as AlreadyUsed. Words made of well-formed UTF-16 (no lone
  surrogates) round-trip unchanged, and for them the model is exact.
  WordRules.LastCharSplitsPair's third clause is about code units as
  received, and such a word would itself be stored with U+FFFD.
