# Game hub: game engine, matchmaker and client helpers in Dafny

This project models the core of a small multiplayer game site. A Socket.IO
server pairs players who ask for the same game kind and opens a room for
them. It relays each move through a per-game state machine, tells both
players the result, and records a win or a loss for each seat. The browser
client also runs single-player versions of the games and reuses the same
board helpers.

The model covers:

- the five server state machines (tic-tac-toe, connect-four, reversi, a
  simplified poker and blackjack), together with the blackjack hand value;
- the new-game states, the dispatcher that selects a state machine by game
  kind, and the 52-card deck with its Fisher-Yates shuffle;
- the room registry: the find-match, game-action and disconnect handlers and
  the deferred deletion of a finished room;
- the client's pure helpers: the connect-four landing row, win check and
  random column; the reversi flip computation, move test, end test and move
  picker; the tic-tac-toe winner check on mark strings; and the roulette win
  rule.

Modules follow the program's structure:

- `Games`: shared values. These are the tagged game state, the action
  payload, the `Accepted`/`Rejected` result envelope, the error messages and
  the reason tags.
- `Cards`: deck construction and the shuffle.
- `TicTacToe`, `ConnectFour`, `Reversi`, `Poker`, `Blackjack`: one state
  machine each. A helper that the client and server define identically, such
  as the connect-four win check, the reversi flip computation or the
  any-move test, is defined once, in the game's module.
- `Engine`: the new-game state and the dispatcher.
- `Lobby`: the registry and the three socket handlers. Each handler is a
  function from the registry and a request to the new registry and the
  list of events it emits.
- `Client`: the client-only helpers.
- `Wrappers`: `Option`.

Things the program takes from outside its own logic become parameters:

- the shuffle's random draws (`swaps`);
- the shuffled deck a new card game starts from (`deck`);
- a new room's id (`freshId`);
- the client's random column pick (`pick`);
- the roulette number.

JavaScript's `null` and missing fields become `None`. A payload without the
field a game reads is represented by a different `Action` constructor.

## Model

| member | source | states |
|---|---|---|
| TicTacToe.Winner | server.js:676-689 | The result is `None` exactly when no line is held. Otherwise it is the owner of the first held line in scan order (rows, columns, diagonals), player 0 included. |
| TicTacToe.Process | server.js:654-674 | A move is rejected with "already placed" exactly when the position is missing, off the board or occupied. An accepted move claims only that cell and adds one to the move count. The game is over exactly on a held line or a full board. The winner is the owner of the first held line in scan order. A full board with no line is a draw (winner -1). Otherwise winner and reason are null. |
| TicTacToe.PlayerZeroWinsTopRow | server.js:676-689 | Completing the top row for player 0 ends the game as a win for player 0. Index 0 is not mistaken for an empty cell. |
| ConnectFour.FindEmptyRow | app.js:851-858 | The landing row is the largest empty row of the column. It is -1 exactly when all six cells of the column are filled. |
| ConnectFour.CheckWinnerIffWindow | server.js:728-760 | The win check holds exactly when four aligned cells along one of the four axes pass through the placed cell, and the other three are on the board and belong to the player. The placed cell itself is not read, as the source's count starts at 1 for it. |
| ConnectFour.WinFromIffWindow | app.js:870-895 | The scan over the axes, from any starting axis, holds exactly when such a window exists along a remaining axis. |
| ConnectFour.LineCountIffWindow | server.js:736-757 | Along one axis, the placed cell plus the runs on both sides reach 4 exactly when a four-cell window on that axis belongs to the player. |
| ConnectFour.Process | server.js:692-726 | A column outside 0..6 gives "invalid column". A missing column or a full column gives "column full". A drop into a column 0..6 is accepted exactly when that column has an empty cell. An accepted drop fills the lowest empty cell of the column and nothing else. Every accepted drop ends the game: a win for the mover exactly when the win check holds, and otherwise a draw reported as winner -1. |
| ConnectFour.FirstDropEndsInDraw | server.js:716-725 | The first disc of a game ends it at once, reported as a draw. |
| Reversi.RayCells | server.js:810-826 | The k-th cell the scan visits in a direction is the cell k steps away. |
| Reversi.RayOnBoard | server.js:810-826 | Every cell of a scan lies on the board, so the walk never wraps from one row into the next. |
| Reversi.RayEndsAtEdge | server.js:813 | One step past a scan's last cell is off the board. |
| Reversi.GetValidFlips | app.js:1006-1040 | An occupied or off-board position flips nothing. Every flipped cell is on the board and holds an opponent disc. |
| Reversi.GetValidFlipsDistinct | server.js:795-829 | No cell is flipped twice. Rays in different directions share no cell, and a ray never repeats one. So the length of the flip list is the number of discs a move turns over. |
| Reversi.GetValidFlipsMembers | server.js:795-829 | On an empty cell, a cell is flipped exactly when, in some direction, it lies in a run of opponent discs that is closed by a disc of the mover. |
| Reversi.DirectionFlipsMembers | server.js:817-822 | One direction contributes exactly its closed run of opponent discs, and nothing if the run meets an empty cell or the edge. |
| Reversi.HasValidMove | app.js:1042-1049 | A player has a move exactly when some cell 0..63 flips at least one disc. |
| Reversi.AnyMoveFrom | server.js:831-838 | The scan from cell i finds a move exactly when some cell from i on flips a disc. |
| Reversi.InitialBoard | server.js:608-612 | The starting board has 64 cells. Cells 27 and 36 hold player 0, cells 28 and 35 hold player 1, and all other cells are empty. |
| Reversi.GameOver | server.js:776-777 | After a move of p the game is over exactly when the board is full or the opponent has no move. |
| Reversi.DiscWinner | server.js:781-785 | The winner is the player with more discs, or -1 on equal counts. |
| Reversi.Process | server.js:763-793 | A move is rejected with "invalid move" exactly when it flips nothing, which includes an occupied or off-board position. An accepted move sets the cell and every flipped disc to the mover and changes nothing else. The game is over exactly as the end test says, and then the winner is the disc-count winner; otherwise the winner is null. The reason is "draw" whenever the winner is null or -1. |
| Cards.BuildDeck | server.js:841-850 | The built deck is the suit-major ordered deck: 52 different cards, exactly the valid cards, each with value equal to its rank index plus 2. |
| Cards.OrderedDeckComplete | server.js:842-850 | The ordered deck has 52 pairwise different cards, and a card occurs in it exactly when it is valid. |
| Cards.ShuffleDeck | server.js:852-858 | For any valid sequence of random draws, the shuffle returns a permutation of the ordered deck. |
| Cards.ShuffledDeckDistinct | server.js:852-858 | A shuffled deck has no repeated card, and it holds exactly the valid cards. |
| Poker.MaxBet | server.js:879 | The result is one of the two bets and at least as large as each. |
| Poker.Process | server.js:861-885 | Every action is accepted. Deck, hands, community cards, phase and the opponent's bet never change. The pot grows by exactly what the actor's bet grows by. "bet" adds the amount to both. "call" raises the actor's bet to the larger bet, which levels the bets when the actor is not ahead. "fold", and only "fold", ends the game: the state is unchanged and the opponent wins. Any other command changes nothing. |
| Blackjack.Demote | server.js:951-954 | Demotion lowers the total in steps of 10, at most once per ace. It leaves a total of 21 or less alone, stops once the total is 21 or less, and stays above 21 only when every ace has been demoted. |
| Blackjack.AceCount | server.js:940-943 | The count is zero exactly when the hand has no ace, and equals the hand size exactly when every card is an ace. |
| Blackjack.AceCountIsMultiplicity | server.js:940-943 | For every hand, the count is the number of cards ranked ace. |
| Blackjack.HandValue | server.js:936-957 | The value is the nominal sum less 10 for each demoted ace, demoting only while the total exceeds 21. Above 21 means every ace counts 1. |
| Blackjack.HandValueExamples | server.js:936-957 | An ace and a nine are worth 20. Two aces and a nine are worth 21. |
| Blackjack.DealerPlay | server.js:906-908 | The dealer keeps its cards and gains one card for each card the deck loses. The deck left is a prefix of the deck. |
| Blackjack.DealerReaches17 | server.js:906-908 | The dealer ends on at least 17. Every hand it draws a card to is worth less than 17, so it never draws past a 17 that a later ace demotion would undo. It draws nothing when already at 17. |
| Blackjack.DealerDrawOrder | server.js:906-908 | The dealer takes the deck's last cards, last card first. |
| Blackjack.DealerKeepsCards | server.js:906-908 | The dealer's turn neither loses nor creates a card. |
| Blackjack.StandWinner | server.js:913-922 | The actor wins exactly when the dealer is over 21 or below the actor. The opponent wins exactly when the dealer is at most 21 and above the actor. Equal values are a draw (-1). |
| Blackjack.HitResult | server.js:891-903 | The deck's last card moves into the actor's hand. The game ends, as a bust won by the opponent, exactly when that hand is then worth more than 21. |
| Blackjack.StandResult | server.js:904-931 | The dealer's final hand and the deck left are exactly the dealer's turn on the current hand and deck, so the cards are drawn from the end of the deck in order. The hands and the cards in play do not change. The dealer ends on at least 17, and the game ends decided by the stand rule. |
| Blackjack.Process | server.js:887-934 | "hit" and "stand" behave as above. Any other command changes nothing and does not end the game. The cards in play are conserved, and the opponent's hand is untouched. |
| Blackjack.Deal | server.js:622-629 | The opening deal gives seat 0 the deck's last two cards, seat 1 the next two and the dealer the fifth from the end. The first 47 cards remain as the deck. |
| Blackjack.DealKeepsCards | server.js:622-629 | The deal loses and duplicates no card. |
| Blackjack.DealDistinct | server.js:622-629 | After the deal no card appears twice across deck, hands and dealer. |
| Engine.InitialState | server.js:602-633 | Each kind's new game is in the shape its state machine needs. The boards are empty, except reversi's four centre discs. Poker starts with zero bets and pot on the shuffled deck. Blackjack starts from the opening deal. An unknown kind gets an empty board. |
| Engine.Dispatch | server.js:636-651 | The result is "unknown game type" exactly for a kind with no state machine. An accepted action keeps the state in the shape of its kind. |
| Engine.DispatchRoutes | server.js:636-651 | Each known kind is handed to its own state machine, so that machine's contract holds of the dispatcher's result. |
| Lobby.PutRoom | server.js:493 | After a map-style insertion the room is found under its id. Every room with another id keeps its place and no other room appears. The registry grows by one exactly when the id was absent; an id already present keeps its index. |
| Lobby.FindMatch | server.js:470-521 | The waiting list shrinks exactly when someone waits for the kind, and then loses exactly that entry. The new room is then found under the fresh id, with the waiting player in seat 0, the requester in seat 1, seat 0 to move and a new game. Each of the two is told its seat, the opponent's name and the room's state. Otherwise the requester joins the end of the waiting list and no room changes. Rooms with other ids keep their place and no other room appears. The registry grows by one exactly when a match is made under an unused id. An id already in use keeps its index, and its room is replaced. |
| Lobby.MatchPairs | server.js:475-512 | When someone waits for the kind, the request consumes that entry and no entry for the kind is left. Room `freshId` is then found with the waiting player in seat 0, the requester in seat 1, seat 0 to move and the kind's new game. |
| Lobby.FindMatchInv | server.js:470-521 | find-match keeps at most one waiting entry per kind and one room per id, with every room well formed. |
| Lobby.TwoRequestsOneRoom | server.js:470-521 | Two back-to-back requests for a kind nobody waits for store one room under the second id, seating the first requester then the second, and the waiting list ends as it began. When that id is new, the registry grows by exactly one room. Otherwise the size stays and the room at that id's index is overwritten. Rooms with other ids stay, and no other room appears. |
| Lobby.SelfPairing | server.js:475-487 | A connection that asks twice for a kind is paired with itself: both seats of the new room hold it. |
| Lobby.SelfPairedStuck | server.js:532-538 | In such a room the seat lookup always finds seat 0. Once seat 1 is to move, every action is refused as out of turn. |
| Lobby.NextTurn | server.js:545 | With two seats the turn passes to the other seat. |
| Lobby.GameAction | server.js:524-574 | An unknown room is ignored. An out-of-turn sender, including one without a seat, gets an error and nothing changes. The waiting list, the number of rooms and every other room stay as they were. |
| Lobby.GameActionRejected | server.js:570-572 | An action the game rejects changes nothing and reaches only the sender, with the game's error. |
| Lobby.GameActionAccepted | server.js:543-545 | An accepted action replaces the room's state and passes the turn. Once the game is over it marks the room for deletion. Id, kind and seats stay. |
| Lobby.GameActionEvents | server.js:547-559 | An accepted action sends the update with the new state and the seat to move. After a finished game it also sends the game-over notice, then the two records. |
| Lobby.GameActionRecords | server.js:562-565 | A finished game records one result per seat, in seat order: a win exactly for the seat named as winner. A draw (-1) or a missing winner is a loss for both. |
| Lobby.GameActionInv | server.js:524-574 | game-action keeps the registry invariant. |
| Lobby.ClosingIgnored | server.js:531-568 | A room marked for deletion accepts actions and emits the same events as a running room until it is deleted. |
| Lobby.SeatedIffFound | server.js:590-591 | A connection is seated in a room exactly when the seat search finds it. |
| Lobby.LeaveWaiting | server.js:581-586 | An entry of the connection leaves the waiting list exactly when there is one, and then only one entry goes. |
| Lobby.LeaveRooms | server.js:589-597 | A room seating the connection is removed exactly when there is one, and then only one room goes. |
| Lobby.Disconnect | server.js:577-598 | A disconnect applies both removals. It sends one notice exactly when a room went, naming a room that seated the connection. |
| Lobby.DisconnectNotWaiting | server.js:581-586 | A connection that is not waiting leaves the waiting list unchanged. |
| Lobby.DisconnectFirstWaiting | server.js:581-586 | A disconnect removes the connection's first waiting entry, and only that entry. |
| Lobby.DisconnectNotSeated | server.js:589-597 | A connection without a seat removes no room and sends nothing. |
| Lobby.DisconnectFirstRoom | server.js:589-597 | A disconnect removes the first room that seats the connection, and only that room, and tells its players. |
| Lobby.DisconnectInv | server.js:577-598 | disconnect keeps the registry invariant. |
| Lobby.Expire | server.js:568 | The waiting list stays. A room goes only if it has the id and is finished, and then only that room goes. Without a room of that id nothing changes. |
| Lobby.ExpireInv | server.js:568 | The deferred deletion keeps the invariant, and afterwards no finished room with that id is left. |
| Client.CheckWinner | app.js:1059-1072 | The result is null exactly when no line has three equal truthy cells. Otherwise it is the cell value of the first such line in scan order. |
| Client.CheckWinnerAgrees | app.js:1059-1072 | On a board of "X"/"O" marks, the client check finds the same winner as the server check: the owner of the first held line. |
| Client.NumericMarksMissPlayerZero | app.js:1066 | With numeric cells, a line of player 0 is not detected, because 0 is falsy. The client only calls the check on mark strings. |
| Client.ClientGameOverImpliesServer | app.js:967-970 | Whenever the client's reversi end test holds, the server's end test holds for either last mover. |
| Client.ArgMax | app.js:990-1003 | The scan returns -1 exactly when every count is 0. Otherwise it returns the first position whose count is positive and maximal. |
| Client.BestReversiMove | app.js:990-1003 | The computer's reversi move is -1 exactly when no position flips anything. Otherwise it is the first position with the largest positive number of flips. |
| Client.NoBestMoveIffStuck | app.js:990-1003 | The picker's -1 coincides with the player having no valid move. |
| Client.EmptyColumns | app.js:860-866 | The candidates are exactly the columns whose top cell is empty, in increasing order. |
| Client.RandomEmptyColumn | app.js:860-868 | The pick is undefined exactly when every top cell is filled. Otherwise it is a column whose top cell is empty. |
| Client.RandomColumnHasRow | app.js:851-868 | A picked column always has a landing row. |
| Client.ZeroLosesEveryBet | app.js:1146-1158 | The number 0 loses every bet. |
| Client.RouletteComplements | app.js:1146-1158 | On 1..36 exactly one of red and black wins, and exactly one of even and odd. Odd wins exactly on the odd numbers. |

## Left out

- Account handling, login tokens, password hashing, e-mail, the HTTP routes and the JSON files. The stats sink is an event (`RecordResult`), not a write.
- Socket.IO rooms and delivery. Events are listed in the order they are emitted, addressed to a connection or a room.
- The game-action handler's 100 ms deferral. The model processes the action at once, so it does not cover a room deleted between the lookup and the deferred run. The deletion 5 s after a finished game is the separate operation `Lobby.Expire`.
- Randomness, the clock and room-id generation. These are the parameters listed above.
- `createdAt`, the `ready` flags and the `socket` object kept in a waiting entry.
- Lobby.Expire: deletes the room only if it is marked as finished. The source's timer deletes whatever room holds the id after 5 s. The two differ only if a finished room's id is reused for a new room within those 5 s, which the random ids make unlikely.
- Lobby.GameAction: requires `Playable`. This excludes a blackjack hit on an empty deck and a stand whose dealer loop would exhaust the deck. The JavaScript crashes or pushes `undefined` there.
- Poker.Process: amounts are integers. A missing amount (NaN) and a string amount (concatenation) are not modelled.
- Blackjack.Process: requires the hit and stand cases to be well defined, as above.
- Payloads whose fields have the wrong JavaScript type, for example a string column, are not modelled. A missing field is modelled.
- The client's tic-tac-toe and connect-four computer moves other than the column pick, the slot machine, and the DOM drawing and animation.
- The shallow copies in the poker and blackjack state machines. These mutate the old state's arrays in place. This cannot be observed, because the room's state is replaced by the new one.
- A count of the discs on the reversi starting board. The cell-by-cell contract of `Reversi.InitialBoard` states the same thing.
- The client's reversi end test and its check that no one can move are stated by relating them to the server's.
