/** The matchmaker and room registry: the waiting list keyed by game kind,
    the rooms keyed by room id, and the three socket events that change them
    (find-match, game-action, disconnect) plus the deferred deletion of a
    finished room. Each event is atomic; what it sends out is returned as a
    list of events. Both registries keep insertion order, as the maps they
    model iterate in that order. */
module Lobby {
  import opened Wrappers
  import opened Cards
  import opened Games
  import Engine

  type ConnId = string
  type RoomId = string

  datatype Seat = Seat(conn: ConnId, username: string)

  /** A connection waiting for an opponent in game kind `kind`. */
  datatype Waiting = Waiting(kind: string, conn: ConnId, username: string)

  /** A room: its two seats, the game state, whose turn it is, and whether a
      finished game has scheduled the room's deletion. */
  datatype Room = Room(id: RoomId, kind: string, players: seq<Seat>, state: GameState,
                       turn: int, closing: bool)

  datatype Registry = Registry(waiting: seq<Waiting>, rooms: seq<Room>)

  datatype Outcome = Won | Lost

  datatype Notice = NotYourTurn | ActionError(error: Error)

  /** What an event sends: to one connection, to a room, or to the stats sink. */
  datatype Event =
    | MatchFound(to: ConnId, roomId: RoomId, opponent: string, playerIndex: int, state: GameState)
    | WaitingForMatch(to: ConnId)
    | GameUpdate(roomId: RoomId, state: GameState, turn: int, action: Action)
    | GameOverEvent(roomId: RoomId, winner: Option<int>, reason: Option<Reason>)
    | ErrorEvent(to: ConnId, notice: Notice)
    | OpponentDisconnected(roomId: RoomId)
    | RecordResult(username: string, outcome: Outcome, kind: string)

  /** The index of the first element satisfying `f`, or -1. */
  function FindIndex<T>(s: seq<T>, f: T -> bool): (i: int)
    ensures -1 <= i < |s|
    ensures i == -1 <==> forall j :: 0 <= j < |s| ==> !f(s[j])
    ensures i >= 0 ==> f(s[i]) && forall j :: 0 <= j < i ==> !f(s[j])
  {
    if s == [] then -1
    else if f(s[0]) then 0
    else
      var k := FindIndex(s[1..], f);
      assert forall j :: 1 <= j < |s| ==> s[1..][j - 1] == s[j];
      if k == -1 then -1 else k + 1
  }

  /** `s` without its element at `i`. */
  function RemoveAt<T>(s: seq<T>, i: int): (r: seq<T>)
    requires 0 <= i < |s|
    ensures |r| == |s| - 1
    ensures forall j :: 0 <= j < i ==> r[j] == s[j]
    ensures forall j :: i <= j < |r| ==> r[j] == s[j + 1]
  {
    s[..i] + s[i + 1..]
  }

  function WaitingIndex(w: seq<Waiting>, kind: string): int {
    FindIndex(w, (e: Waiting) => e.kind == kind)
  }

  function RoomIndex(rooms: seq<Room>, id: RoomId): int {
    FindIndex(rooms, (r: Room) => r.id == id)
  }

  /** The seat of `conn` in a room, or -1 for a connection not seated there. */
  function SeatIndex(players: seq<Seat>, conn: ConnId): int {
    FindIndex(players, (s: Seat) => s.conn == conn)
  }

  /** Map-style insertion: a room whose id is already present replaces that
      room in place; otherwise the room is appended. Afterwards the room is
      found under its id, every room with another id keeps its place, and the
      registry grows by one exactly when the id was absent. */
  function PutRoom(rooms: seq<Room>, room: Room): (r: seq<Room>)
    ensures |r| == (if RoomIndex(rooms, room.id) == -1 then |rooms| + 1 else |rooms|)
    ensures RoomIndex(r, room.id) >= 0 && r[RoomIndex(r, room.id)] == room
    ensures RoomIndex(rooms, room.id) >= 0 ==> RoomIndex(r, room.id) == RoomIndex(rooms, room.id)
    ensures forall j :: 0 <= j < |rooms| && rooms[j].id != room.id ==> r[j] == rooms[j]
    ensures forall j :: 0 <= j < |r| && r[j].id != room.id ==> j < |rooms| && r[j] == rooms[j]
  {
    var i := RoomIndex(rooms, room.id);
    if i >= 0 then
      var r := rooms[i := room];
      assert r[i] == room;
      assert RoomIndex(r, room.id) != -1;
      assert forall j :: 0 <= j < i ==> r[j] == rooms[j];
      r
    else
      var r := rooms + [room];
      assert r[|rooms|] == room;
      assert RoomIndex(r, room.id) != -1;
      assert forall j :: 0 <= j < |rooms| ==> r[j] == rooms[j];
      r
  }

  predicate KindsDistinct(w: seq<Waiting>) {
    forall i, j :: 0 <= i < j < |w| ==> w[i].kind != w[j].kind
  }

  predicate IdsDistinct(rooms: seq<Room>) {
    forall i, j :: 0 <= i < j < |rooms| ==> rooms[i].id != rooms[j].id
  }

  /** A room as matchmaking creates it and actions keep it: two seats, the
      turn on one of them, and a state in the shape of the room's kind. */
  predicate RoomOk(room: Room) {
    |room.players| == 2 && 0 <= room.turn < 2 && Engine.WellFormed(room.kind, room.state)
  }

  /** Every room is well formed. */
  predicate RoomsOk(rooms: seq<Room>) {
    forall i :: 0 <= i < |rooms| ==> RoomOk(rooms[i])
  }

  /** The registry invariant: at most one waiting entry per kind, at most one
      room per id, and every room well formed. */
  predicate Inv(reg: Registry) {
    KindsDistinct(reg.waiting) && IdsDistinct(reg.rooms) && RoomsOk(reg.rooms)
  }

  /** The stats record for seat `idx`: a win only for the reported winner, so
      a draw (-1) and a missing winner count as a loss for both seats. */
  function OutcomeFor(winner: Option<int>, idx: int): (o: Outcome) {
    if winner == Some(idx) then Won else Lost
  }

  /** `s` without its element at `i` holds the same values with one
      occurrence of `s[i]` fewer. */
  lemma RemoveAtMultiset<T>(s: seq<T>, i: int)
    requires 0 <= i < |s|
    ensures multiset(RemoveAt(s, i)) + multiset{s[i]} == multiset(s)
  {
    assert s == s[..i] + [s[i]] + s[i + 1..];
  }

  /** find-match: if a connection waits for `kind`, the first such entry
      leaves the waiting list and a room `freshId` opens with the waiting
      player in seat 0, the requester in seat 1, seat 0 to move and the kind's
      initial state (built from `deck`, the shuffle's result). Each of the two
      is told its seat, its opponent's name and the state. Otherwise the
      requester is appended to the waiting list. The waiting entry is never
      compared with the requester. */
  function FindMatch(reg: Registry, conn: ConnId, username: string, kind: string,
                     freshId: RoomId, deck: seq<Card>): (res: (Registry, seq<Event>))
    requires Engine.IsCardKind(kind) ==> IsShuffledDeck(deck)
    ensures |res.0.waiting| < |reg.waiting| <==> exists j :: 0 <= j < |reg.waiting| && reg.waiting[j].kind == kind
    ensures |res.0.rooms| ==
      if WaitingIndex(reg.waiting, kind) >= 0 && RoomIndex(reg.rooms, freshId) == -1 then |reg.rooms| + 1
      else |reg.rooms|
    ensures forall j :: 0 <= j < |reg.rooms| && reg.rooms[j].id != freshId ==> res.0.rooms[j] == reg.rooms[j]
    ensures forall j :: 0 <= j < |res.0.rooms| && res.0.rooms[j].id != freshId ==>
      j < |reg.rooms| && res.0.rooms[j] == reg.rooms[j]
    ensures WaitingIndex(reg.waiting, kind) >= 0 ==>
      var opp := reg.waiting[WaitingIndex(reg.waiting, kind)];
      && |res.0.waiting| == |reg.waiting| - 1
      && multiset(res.0.waiting) + multiset{opp} == multiset(reg.waiting)
    ensures WaitingIndex(reg.waiting, kind) >= 0 ==>
      var opp := reg.waiting[WaitingIndex(reg.waiting, kind)];
      var k := RoomIndex(res.0.rooms, freshId);
      && k >= 0
      && (RoomIndex(reg.rooms, freshId) >= 0 ==> k == RoomIndex(reg.rooms, freshId))
      && res.0.rooms[k] == Room(freshId, kind, [Seat(opp.conn, opp.username), Seat(conn, username)],
                                Engine.InitialState(kind, deck), 0, false)
      && res.1 == [MatchFound(opp.conn, freshId, username, 0, res.0.rooms[k].state),
                   MatchFound(conn, freshId, opp.username, 1, res.0.rooms[k].state)]
    ensures WaitingIndex(reg.waiting, kind) == -1 ==>
      && res.0.waiting == reg.waiting + [Waiting(kind, conn, username)]
      && res.0.rooms == reg.rooms
      && res.1 == [WaitingForMatch(conn)]
  {
    var i := WaitingIndex(reg.waiting, kind);
    if i >= 0 then
      var opp := reg.waiting[i];
      var state := Engine.InitialState(kind, deck);
      var room := Room(freshId, kind, [Seat(opp.conn, opp.username), Seat(conn, username)], state, 0, false);
      var rooms := PutRoom(reg.rooms, room);
      assert room.id == freshId;
      RemoveAtMultiset(reg.waiting, i);
      (Registry(RemoveAt(reg.waiting, i), rooms),
       [MatchFound(opp.conn, freshId, username, 0, state), MatchFound(conn, freshId, opp.username, 1, state)])
    else
      (Registry(reg.waiting + [Waiting(kind, conn, username)], reg.rooms), [WaitingForMatch(conn)])
  }

  /** The actions the engine can carry out in the room an action addresses;
      only a blackjack hit on an empty deck or a stand the deck cannot see
      through is excluded. */
  predicate Playable(reg: Registry, conn: ConnId, roomId: RoomId, action: Action)
    requires Inv(reg)
  {
    var i := RoomIndex(reg.rooms, roomId);
    i >= 0 && SeatIndex(reg.rooms[i].players, conn) == reg.rooms[i].turn ==>
      Engine.Defined(reg.rooms[i].kind, reg.rooms[i].state, action)
  }

  /** The seat after `turn`, counting round the `seats` seats: with two
      seats, the other one. */
  function NextTurn(turn: int, seats: int): (t: int)
    requires seats > 0
    ensures 0 <= t < seats
    ensures seats == 2 && 0 <= turn < 2 ==> t == 1 - turn
  {
    (turn + 1) % seats
  }

  /** The events of a finished game: the game-over notice and one stats
      record per seat. */
  function Finish(room: Room, r: ActionResult): seq<Event>
    requires |room.players| == 2 && r.Accepted?
  {
    [GameOverEvent(room.id, r.winner, r.reason),
     RecordResult(room.players[0].username, OutcomeFor(r.winner, 0), room.kind),
     RecordResult(room.players[1].username, OutcomeFor(r.winner, 1), room.kind)]
  }

  /** game-action: an unknown room is ignored. A sender whose seat is not the
      one to move (a connection without a seat included) gets an error and
      nothing changes; so does an action the game rejects. An accepted action
      replaces the room's state and passes the turn to the other seat; a
      finished game also reports the result, records a win or a loss for each
      seat and marks the room for deletion, but the room keeps accepting
      actions until it is deleted. */
  function GameAction(reg: Registry, conn: ConnId, roomId: RoomId, action: Action): (res: (Registry, seq<Event>))
    requires Inv(reg) && Playable(reg, conn, roomId, action)
    ensures RoomIndex(reg.rooms, roomId) == -1 ==> res == (reg, [])
    ensures var i := RoomIndex(reg.rooms, roomId);
      i >= 0 && SeatIndex(reg.rooms[i].players, conn) != reg.rooms[i].turn ==>
        res == (reg, [ErrorEvent(conn, NotYourTurn)])
    ensures res.0.waiting == reg.waiting && |res.0.rooms| == |reg.rooms|
    ensures forall j :: 0 <= j < |reg.rooms| && reg.rooms[j].id != roomId ==> res.0.rooms[j] == reg.rooms[j]
  {
    var i := RoomIndex(reg.rooms, roomId);
    if i < 0 then (reg, [])
    else
      var room := reg.rooms[i];
      var idx := SeatIndex(room.players, conn);
      if idx != room.turn then (reg, [ErrorEvent(conn, NotYourTurn)])
      else
        var r := Engine.Dispatch(room.kind, room.state, action, idx);
        if r.Rejected? then (reg, [ErrorEvent(conn, ActionError(r.error))])
        else
          var next := Room(room.id, room.kind, room.players, r.newState,
                           NextTurn(room.turn, |room.players|), room.closing || r.gameOver);
          (Registry(reg.waiting, reg.rooms[i := next]),
           [GameUpdate(roomId, r.newState, next.turn, action)] + (if r.gameOver then Finish(room, r) else []))
  }

  /** The room an action addresses, when its sender is the seat to move. */
  predicate MoverOf(reg: Registry, conn: ConnId, roomId: RoomId, i: int) {
    && i == RoomIndex(reg.rooms, roomId) && i >= 0
    && SeatIndex(reg.rooms[i].players, conn) == reg.rooms[i].turn
  }

  /** The registry and events after an action of the seat to move that the
      game accepts with result `r`. */
  lemma AcceptedStep(reg: Registry, conn: ConnId, roomId: RoomId, action: Action, i: int, r: ActionResult)
    requires Inv(reg) && Playable(reg, conn, roomId, action) && MoverOf(reg, conn, roomId, i)
    requires r == Engine.Dispatch(reg.rooms[i].kind, reg.rooms[i].state, action, reg.rooms[i].turn) && r.Accepted?
    ensures GameAction(reg, conn, roomId, action) ==
      (Registry(reg.waiting, reg.rooms[i := Room(reg.rooms[i].id, reg.rooms[i].kind, reg.rooms[i].players, r.newState,
                                                 1 - reg.rooms[i].turn, reg.rooms[i].closing || r.gameOver)]),
       [GameUpdate(roomId, r.newState, 1 - reg.rooms[i].turn, action)] + (if r.gameOver then Finish(reg.rooms[i], r) else []))
  {
    var room := reg.rooms[i];
    assert RoomOk(room);
    assert NextTurn(room.turn, |room.players|) == 1 - room.turn;
  }

  /** An action of the seat to move that the game rejects reaches only the
      sender, as an error carrying the game's message. */
  lemma GameActionRejected(reg: Registry, conn: ConnId, roomId: RoomId, action: Action, i: int)
    requires Inv(reg) && Playable(reg, conn, roomId, action) && MoverOf(reg, conn, roomId, i)
    requires Engine.Dispatch(reg.rooms[i].kind, reg.rooms[i].state, action, reg.rooms[i].turn).Rejected?
    ensures GameAction(reg, conn, roomId, action) ==
      (reg, [ErrorEvent(conn, ActionError(Engine.Dispatch(reg.rooms[i].kind, reg.rooms[i].state, action, reg.rooms[i].turn).error))])
  {
  }

  /** An action of the seat to move that the game accepts replaces the room's
      state, hands the turn to the other seat and sets the closing mark once
      the game is over; the room's id, kind and seats stay. */
  lemma GameActionAccepted(reg: Registry, conn: ConnId, roomId: RoomId, action: Action, i: int)
    requires Inv(reg) && Playable(reg, conn, roomId, action) && MoverOf(reg, conn, roomId, i)
    requires Engine.Dispatch(reg.rooms[i].kind, reg.rooms[i].state, action, reg.rooms[i].turn).Accepted?
    ensures var room := reg.rooms[i];
      var r := Engine.Dispatch(room.kind, room.state, action, room.turn);
      GameAction(reg, conn, roomId, action).0.rooms[i] ==
        Room(room.id, room.kind, room.players, r.newState, 1 - room.turn, room.closing || r.gameOver)
  {
    AcceptedStep(reg, conn, roomId, action, i, Engine.Dispatch(reg.rooms[i].kind, reg.rooms[i].state, action, reg.rooms[i].turn));
  }

  /** What an accepted action sends: the update to the room's players, with
      the new state and the seat now to move, followed on game over by the
      result notice and the two stats records. */
  lemma GameActionEvents(reg: Registry, conn: ConnId, roomId: RoomId, action: Action, i: int)
    requires Inv(reg) && Playable(reg, conn, roomId, action) && MoverOf(reg, conn, roomId, i)
    requires Engine.Dispatch(reg.rooms[i].kind, reg.rooms[i].state, action, reg.rooms[i].turn).Accepted?
    ensures var room := reg.rooms[i];
      var r := Engine.Dispatch(room.kind, room.state, action, room.turn);
      var evs := GameAction(reg, conn, roomId, action).1;
      && |evs| == (if r.gameOver then 4 else 1)
      && evs[0] == GameUpdate(roomId, r.newState, 1 - room.turn, action)
      && (r.gameOver ==> evs[1] == GameOverEvent(roomId, r.winner, r.reason))
  {
    AcceptedStep(reg, conn, roomId, action, i, Engine.Dispatch(reg.rooms[i].kind, reg.rooms[i].state, action, reg.rooms[i].turn));
  }

  /** The stats records of a finished game: one per seat, in seat order, a
      win exactly for the seat named winner; a draw (-1) or a missing winner
      is recorded as a loss for both. */
  lemma GameActionRecords(reg: Registry, conn: ConnId, roomId: RoomId, action: Action, i: int)
    requires Inv(reg) && Playable(reg, conn, roomId, action) && MoverOf(reg, conn, roomId, i)
    requires Engine.Dispatch(reg.rooms[i].kind, reg.rooms[i].state, action, reg.rooms[i].turn).Accepted?
    requires Engine.Dispatch(reg.rooms[i].kind, reg.rooms[i].state, action, reg.rooms[i].turn).gameOver
    ensures var room := reg.rooms[i];
      var r := Engine.Dispatch(room.kind, room.state, action, room.turn);
      var evs := GameAction(reg, conn, roomId, action).1;
      && |evs| == 4
      && (forall k :: 0 <= k < 2 ==>
            evs[2 + k] == RecordResult(room.players[k].username,
                                       if r.winner == Some(k) then Won else Lost, room.kind))
      && (r.winner.None? || r.winner == Some(DrawWinner) ==>
            evs[2].outcome == Lost && evs[3].outcome == Lost)
  {
    var room := reg.rooms[i];
    var r := Engine.Dispatch(room.kind, room.state, action, room.turn);
    AcceptedStep(reg, conn, roomId, action, i, r);
    var evs := GameAction(reg, conn, roomId, action).1;
    assert evs[1..] == Finish(room, r);
  }

  predicate Seated(room: Room, conn: ConnId) {
    exists k :: 0 <= k < |room.players| && room.players[k].conn == conn
  }

  /** The first waiting entry of `conn`, or -1. */
  function FirstWaiting(w: seq<Waiting>, conn: ConnId): int {
    FindIndex(w, (e: Waiting) => e.conn == conn)
  }

  /** The first room with a seat of `conn`, or -1. */
  function FirstSeating(rooms: seq<Room>, conn: ConnId): int {
    FindIndex(rooms, (r: Room) => SeatIndex(r.players, conn) != -1)
  }

  /** The waiting list after `conn` leaves: an entry of `conn` goes exactly
      when there is one, and then only one entry goes. */
  function LeaveWaiting(w: seq<Waiting>, conn: ConnId): (r: seq<Waiting>)
    ensures |w| - 1 <= |r| <= |w|
    ensures |r| < |w| <==> exists j :: 0 <= j < |w| && w[j].conn == conn
    ensures |r| == |w| ==> r == w
    ensures |r| < |w| ==> exists j :: 0 <= j < |w| && w[j].conn == conn && multiset(r) + multiset{w[j]} == multiset(w)
  {
    var wi := FirstWaiting(w, conn);
    if wi >= 0 then
      RemoveAtMultiset(w, wi);
      RemoveAt(w, wi)
    else w
  }

  /** The rooms after `conn` leaves: a room seating `conn` goes exactly when
      there is one, and then only one room goes. */
  function LeaveRooms(rooms: seq<Room>, conn: ConnId): (r: seq<Room>)
    ensures |rooms| - 1 <= |r| <= |rooms|
    ensures |r| < |rooms| <==> exists j :: 0 <= j < |rooms| && SeatIndex(rooms[j].players, conn) != -1
    ensures |r| == |rooms| ==> r == rooms
    ensures |r| < |rooms| ==>
      exists j :: 0 <= j < |rooms| && SeatIndex(rooms[j].players, conn) != -1 && multiset(r) + multiset{rooms[j]} == multiset(rooms)
  {
    var ri := FirstSeating(rooms, conn);
    if ri >= 0 then
      RemoveAtMultiset(rooms, ri);
      RemoveAt(rooms, ri)
    else rooms
  }

  /** disconnect: the first waiting entry of the connection, and the first
      room with a seat of it, are removed, and that room's players are told.
      At most one entry and one room go; the notice names the room that
      went. */
  function Disconnect(reg: Registry, conn: ConnId): (res: (Registry, seq<Event>))
    ensures res.0 == Registry(LeaveWaiting(reg.waiting, conn), LeaveRooms(reg.rooms, conn))
    ensures |res.1| == |reg.rooms| - |res.0.rooms|
    ensures res.1 != [] ==>
      exists j :: 0 <= j < |reg.rooms| && SeatIndex(reg.rooms[j].players, conn) != -1 &&
                  res.1 == [OpponentDisconnected(reg.rooms[j].id)]
  {
    var ri := FirstSeating(reg.rooms, conn);
    (Registry(LeaveWaiting(reg.waiting, conn), LeaveRooms(reg.rooms, conn)),
     if ri >= 0 then [OpponentDisconnected(reg.rooms[ri].id)] else [])
  }

  /** A connection is seated in a room exactly when its seat search finds it. */
  lemma SeatedIffFound(room: Room, conn: ConnId)
    ensures Seated(room, conn) <==> SeatIndex(room.players, conn) != -1
  {
    if Seated(room, conn) {
      var k :| 0 <= k < |room.players| && room.players[k].conn == conn;
      assert !(forall j :: 0 <= j < |room.players| ==> room.players[j].conn != conn);
    }
  }

  /** A disconnect leaves the waiting list alone when the connection has no
      entry in it. */
  lemma DisconnectNotWaiting(reg: Registry, conn: ConnId)
    requires forall j :: 0 <= j < |reg.waiting| ==> reg.waiting[j].conn != conn
    ensures Disconnect(reg, conn).0.waiting == reg.waiting
  {
  }

  /** A disconnect removes the connection's first waiting entry, and only it. */
  lemma DisconnectFirstWaiting(reg: Registry, conn: ConnId, i: int)
    requires 0 <= i < |reg.waiting| && reg.waiting[i].conn == conn
    requires forall j :: 0 <= j < i ==> reg.waiting[j].conn != conn
    ensures Disconnect(reg, conn).0.waiting == RemoveAt(reg.waiting, i)
  {
    var wi := FirstWaiting(reg.waiting, conn);
    assert wi != -1;
  }

  /** When no room seats the connection, a disconnect removes no room and
      sends nothing. */
  lemma DisconnectNotSeated(reg: Registry, conn: ConnId)
    requires forall j :: 0 <= j < |reg.rooms| ==> !Seated(reg.rooms[j], conn)
    ensures Disconnect(reg, conn).0.rooms == reg.rooms && Disconnect(reg, conn).1 == []
  {
    forall j | 0 <= j < |reg.rooms|
      ensures SeatIndex(reg.rooms[j].players, conn) == -1
    {
      SeatedIffFound(reg.rooms[j], conn);
    }
  }

  /** A disconnect removes the first room with a seat of the connection, and
      only it, and tells that room's players. */
  lemma DisconnectFirstRoom(reg: Registry, conn: ConnId, i: int)
    requires 0 <= i < |reg.rooms| && Seated(reg.rooms[i], conn)
    requires forall j :: 0 <= j < i ==> !Seated(reg.rooms[j], conn)
    ensures Disconnect(reg, conn).0.rooms == RemoveAt(reg.rooms, i)
    ensures Disconnect(reg, conn).1 == [OpponentDisconnected(reg.rooms[i].id)]
  {
    var ri := FirstSeating(reg.rooms, conn);
    SeatedIffFound(reg.rooms[i], conn);
    forall j | 0 <= j < i
      ensures SeatIndex(reg.rooms[j].players, conn) == -1
    {
      SeatedIffFound(reg.rooms[j], conn);
    }
    assert ri == i;
  }

  /** The deferred deletion scheduled by a finished game: the room with that
      id goes if its game has finished; the waiting list stays. */
  function Expire(reg: Registry, roomId: RoomId): (res: Registry)
    ensures res.waiting == reg.waiting
    ensures |reg.rooms| - 1 <= |res.rooms| <= |reg.rooms|
    ensures |res.rooms| == |reg.rooms| ==> res == reg
    ensures (forall j :: 0 <= j < |reg.rooms| ==> reg.rooms[j].id != roomId) ==> res == reg
    ensures |res.rooms| < |reg.rooms| ==>
      exists j :: 0 <= j < |reg.rooms| && reg.rooms[j].id == roomId && reg.rooms[j].closing &&
                  multiset(res.rooms) + multiset{reg.rooms[j]} == multiset(reg.rooms)
  {
    var i := RoomIndex(reg.rooms, roomId);
    if i >= 0 && reg.rooms[i].closing then
      RemoveAtMultiset(reg.rooms, i);
      Registry(reg.waiting, RemoveAt(reg.rooms, i))
    else reg
  }

  lemma RemoveAtWaiting(w: seq<Waiting>, i: int)
    requires 0 <= i < |w| && KindsDistinct(w)
    ensures KindsDistinct(RemoveAt(w, i))
  {
    var r := RemoveAt(w, i);
    forall a, b | 0 <= a < b < |r|
      ensures r[a].kind != r[b].kind
    {
      var a' := if a < i then a else a + 1;
      var b' := if b < i then b else b + 1;
      assert r[a] == w[a'] && r[b] == w[b'];
    }
  }

  lemma RemoveAtRooms(rooms: seq<Room>, i: int)
    requires 0 <= i < |rooms| && IdsDistinct(rooms) && RoomsOk(rooms)
    ensures IdsDistinct(RemoveAt(rooms, i)) && RoomsOk(RemoveAt(rooms, i))
  {
    var r := RemoveAt(rooms, i);
    forall a, b | 0 <= a < b < |r|
      ensures r[a].id != r[b].id
    {
      var a' := if a < i then a else a + 1;
      var b' := if b < i then b else b + 1;
      assert r[a] == rooms[a'] && r[b] == rooms[b'];
    }
    forall a | 0 <= a < |r|
      ensures RoomOk(r[a])
    {
      assert r[a] == rooms[if a < i then a else a + 1];
    }
  }

  /** Putting a well-formed room keeps the room ids distinct and every room
      well formed. */
  lemma PutRoomInv(rooms: seq<Room>, room: Room)
    requires IdsDistinct(rooms) && RoomsOk(rooms) && RoomOk(room)
    ensures IdsDistinct(PutRoom(rooms, room)) && RoomsOk(PutRoom(rooms, room))
  {
    var r := PutRoom(rooms, room);
    var i := RoomIndex(rooms, room.id);
    if i < 0 {
      assert r[|rooms|] == room;
    } else {
      assert r[i] == room;
      forall a, b | 0 <= a < b < |r|
        ensures r[a].id != r[b].id
      {
        assert r[a].id == rooms[a].id && r[b].id == rooms[b].id;
      }
    }
  }

  /** find-match keeps the registry invariant: pairing removes the one entry
      of the kind, and an entry is only added when the kind has none. */
  lemma FindMatchInv(reg: Registry, conn: ConnId, username: string, kind: string,
                     freshId: RoomId, deck: seq<Card>)
    requires Inv(reg) && (Engine.IsCardKind(kind) ==> IsShuffledDeck(deck))
    ensures Inv(FindMatch(reg, conn, username, kind, freshId, deck).0)
  {
    var i := WaitingIndex(reg.waiting, kind);
    if i >= 0 {
      RemoveAtWaiting(reg.waiting, i);
      var opp := reg.waiting[i];
      var room := Room(freshId, kind, [Seat(opp.conn, opp.username), Seat(conn, username)],
                       Engine.InitialState(kind, deck), 0, false);
      PutRoomInv(reg.rooms, room);
    } else {
      var w := reg.waiting + [Waiting(kind, conn, username)];
      forall a, b | 0 <= a < b < |w|
        ensures w[a].kind != w[b].kind
      {
        if b == |reg.waiting| {
          assert reg.waiting[a].kind != kind;
        }
      }
    }
  }

  /** game-action keeps the registry invariant: only the addressed room
      changes, its turn stays on one of its two seats and its state keeps
      the shape of its kind. */
  lemma GameActionInv(reg: Registry, conn: ConnId, roomId: RoomId, action: Action)
    requires Inv(reg) && Playable(reg, conn, roomId, action)
    ensures Inv(GameAction(reg, conn, roomId, action).0)
  {
    var i := RoomIndex(reg.rooms, roomId);
    if i >= 0 && SeatIndex(reg.rooms[i].players, conn) == reg.rooms[i].turn {
      var room := reg.rooms[i];
      if Engine.Dispatch(room.kind, room.state, action, room.turn).Accepted? {
        AcceptedInv(reg, conn, roomId, action, i);
      }
    }
  }

  lemma AcceptedInv(reg: Registry, conn: ConnId, roomId: RoomId, action: Action, i: int)
    requires Inv(reg) && Playable(reg, conn, roomId, action) && MoverOf(reg, conn, roomId, i)
    requires Engine.Dispatch(reg.rooms[i].kind, reg.rooms[i].state, action, reg.rooms[i].turn).Accepted?
    ensures Inv(GameAction(reg, conn, roomId, action).0)
  {
    GameActionAccepted(reg, conn, roomId, action, i);
    var rooms := GameAction(reg, conn, roomId, action).0.rooms;
    assert rooms == reg.rooms[i := rooms[i]];
    ReplaceRoomInv(reg.rooms, i, rooms[i]);
  }

  lemma ReplaceRoomInv(rooms: seq<Room>, i: int, room: Room)
    requires 0 <= i < |rooms| && IdsDistinct(rooms) && RoomsOk(rooms)
    requires room.id == rooms[i].id && RoomOk(room)
    ensures IdsDistinct(rooms[i := room]) && RoomsOk(rooms[i := room])
  {
  }

  /** The invariant holds of a registry whose parts each keep their half. */
  lemma InvOfParts(waiting: seq<Waiting>, rooms: seq<Room>)
    requires KindsDistinct(waiting) && IdsDistinct(rooms) && RoomsOk(rooms)
    ensures Inv(Registry(waiting, rooms))
  {
  }

  /** disconnect keeps the registry invariant. */
  lemma DisconnectInv(reg: Registry, conn: ConnId)
    requires Inv(reg)
    ensures Inv(Disconnect(reg, conn).0)
  {
    LeaveWaitingInv(reg.waiting, conn);
    LeaveRoomsInv(reg.rooms, conn);
    InvOfParts(LeaveWaiting(reg.waiting, conn), LeaveRooms(reg.rooms, conn));
  }

  lemma LeaveWaitingInv(w: seq<Waiting>, conn: ConnId)
    requires KindsDistinct(w)
    ensures KindsDistinct(LeaveWaiting(w, conn))
  {
    var wi := FirstWaiting(w, conn);
    if wi >= 0 {
      RemoveAtWaiting(w, wi);
    }
  }

  lemma LeaveRoomsInv(rooms: seq<Room>, conn: ConnId)
    requires IdsDistinct(rooms) && RoomsOk(rooms)
    ensures IdsDistinct(LeaveRooms(rooms, conn)) && RoomsOk(LeaveRooms(rooms, conn))
  {
    var ri := FirstSeating(rooms, conn);
    if ri >= 0 {
      RemoveAtRooms(rooms, ri);
    }
  }

  /** The deferred deletion keeps the registry invariant, and afterwards no
      finished room with that id is left. */
  lemma ExpireInv(reg: Registry, roomId: RoomId)
    requires Inv(reg)
    ensures Inv(Expire(reg, roomId))
    ensures forall j :: 0 <= j < |Expire(reg, roomId).rooms| ==>
      !(Expire(reg, roomId).rooms[j].id == roomId && Expire(reg, roomId).rooms[j].closing)
  {
    var i := RoomIndex(reg.rooms, roomId);
    var res := Expire(reg, roomId);
    if i >= 0 && reg.rooms[i].closing {
      RemoveAtRooms(reg.rooms, i);
      forall j | 0 <= j < |res.rooms|
        ensures res.rooms[j].id != roomId
      {
        var j' := if j < i then j else j + 1;
        assert res.rooms[j] == reg.rooms[j'] && j' != i;
      }
    } else {
      forall j | 0 <= j < |res.rooms| && res.rooms[j].id == roomId
        ensures !res.rooms[j].closing
      {
        assert i != -1;
      }
    }
  }

  /** A request for a kind that has a waiting entry consumes that entry and
      opens room `freshId`: the waiting player in seat 0, the requester in
      seat 1, seat 0 to move, the kind's initial state. No entry of the kind
      is left, and the other entries stay. */
  lemma MatchPairs(reg: Registry, conn: ConnId, username: string, kind: string,
                   freshId: RoomId, deck: seq<Card>, i: int)
    requires Inv(reg) && (Engine.IsCardKind(kind) ==> IsShuffledDeck(deck))
    requires 0 <= i < |reg.waiting| && reg.waiting[i].kind == kind
    ensures var res := FindMatch(reg, conn, username, kind, freshId, deck).0;
      var k := RoomIndex(res.rooms, freshId);
      && k >= 0
      && res.rooms[k] == Room(freshId, kind, [Seat(reg.waiting[i].conn, reg.waiting[i].username), Seat(conn, username)],
                              Engine.InitialState(kind, deck), 0, false)
      && (forall j :: 0 <= j < |res.waiting| ==> res.waiting[j].kind != kind)
      && res.waiting == RemoveAt(reg.waiting, i)
  {
    var w := WaitingIndex(reg.waiting, kind);
    assert w == i by {
      assert w != -1;
    }
    var opp := reg.waiting[i];
    var room := Room(freshId, kind, [Seat(opp.conn, opp.username), Seat(conn, username)],
                     Engine.InitialState(kind, deck), 0, false);
    PutRoomInv(reg.rooms, room);
    var res := FindMatch(reg, conn, username, kind, freshId, deck).0;
    forall j | 0 <= j < |res.waiting|
      ensures res.waiting[j].kind != kind
    {
      var j' := if j < i then j else j + 1;
      assert res.waiting[j] == reg.waiting[j'] && j' != i;
    }
  }

  /** Two back-to-back requests for a kind nobody waits for store one room
      under `id2`, with the first requester in seat 0 and the second in seat
      1, and leave the waiting list as it was. The room is a new one, growing
      the registry by exactly one, when `id2` is not yet in use; otherwise it
      overwrites the room with that id in place, as a map insertion does.
      Rooms with other ids stay, and no other room appears. */
  lemma TwoRequestsOneRoom(reg: Registry, kind: string, deck: seq<Card>,
                           c1: ConnId, u1: string, id1: RoomId, c2: ConnId, u2: string, id2: RoomId)
    requires Inv(reg) && (Engine.IsCardKind(kind) ==> IsShuffledDeck(deck))
    requires forall j :: 0 <= j < |reg.waiting| ==> reg.waiting[j].kind != kind
    ensures var once := FindMatch(reg, c1, u1, kind, id1, deck).0;
      var twice := FindMatch(once, c2, u2, kind, id2, deck).0;
      var k := RoomIndex(twice.rooms, id2);
      && twice.waiting == reg.waiting
      && |reg.rooms| <= |twice.rooms| <= |reg.rooms| + 1
      && k >= 0
      && twice.rooms[k] == Room(id2, kind, [Seat(c1, u1), Seat(c2, u2)], Engine.InitialState(kind, deck), 0, false)
      && (RoomIndex(reg.rooms, id2) == -1 ==> |twice.rooms| == |reg.rooms| + 1)
      && (RoomIndex(reg.rooms, id2) >= 0 ==> |twice.rooms| == |reg.rooms| && k == RoomIndex(reg.rooms, id2))
      && (forall j :: 0 <= j < |twice.rooms| && twice.rooms[j].id != id2 ==>
            j < |reg.rooms| && twice.rooms[j] == reg.rooms[j])
      && (forall j :: 0 <= j < |reg.rooms| && reg.rooms[j].id != id2 ==> twice.rooms[j] == reg.rooms[j])
  {
    var once := FindMatch(reg, c1, u1, kind, id1, deck).0;
    assert WaitingIndex(reg.waiting, kind) == -1;
    assert once.waiting == reg.waiting + [Waiting(kind, c1, u1)] && once.rooms == reg.rooms;
    FindMatchInv(reg, c1, u1, kind, id1, deck);
    var n := |reg.waiting|;
    MatchPairs(once, c2, u2, kind, id2, deck, n);
    assert RemoveAt(once.waiting, n) == reg.waiting;
  }

  /** A connection that asks twice for the same kind is paired with itself:
      the room's two seats hold the same connection. */
  lemma SelfPairing(reg: Registry, conn: ConnId, username: string, kind: string,
                    id1: RoomId, id2: RoomId, deck: seq<Card>)
    requires Inv(reg) && (Engine.IsCardKind(kind) ==> IsShuffledDeck(deck))
    requires forall j :: 0 <= j < |reg.waiting| ==> reg.waiting[j].kind != kind
    ensures var once := FindMatch(reg, conn, username, kind, id1, deck).0;
      var twice := FindMatch(once, conn, username, kind, id2, deck).0;
      var k := RoomIndex(twice.rooms, id2);
      k >= 0 && twice.rooms[k].players[0].conn == twice.rooms[k].players[1].conn == conn
  {
    TwoRequestsOneRoom(reg, kind, deck, conn, username, id1, conn, username, id2);
  }

  /** In a room whose two seats hold the same connection, that connection
      always counts as seat 0, so once the turn passes to seat 1 every action
      it sends is refused and the room is stuck. */
  lemma SelfPairedStuck(reg: Registry, conn: ConnId, roomId: RoomId, action: Action, i: int)
    requires Inv(reg) && i == RoomIndex(reg.rooms, roomId) && i >= 0
    requires reg.rooms[i].players[0].conn == conn && reg.rooms[i].players[1].conn == conn
    requires reg.rooms[i].turn == 1
    ensures GameAction(reg, conn, roomId, action) == (reg, [ErrorEvent(conn, NotYourTurn)])
  {
    assert SeatIndex(reg.rooms[i].players, conn) == 0;
  }

  /** The closing mark does not stop a finished room: until the deferred
      deletion, an action in it has the same effect on its state and sends
      the same events as in a room whose game is still running. */
  lemma ClosingIgnored(reg: Registry, conn: ConnId, roomId: RoomId, action: Action, i: int)
    requires Inv(reg) && Playable(reg, conn, roomId, action) && MoverOf(reg, conn, roomId, i)
    requires reg.rooms[i].closing
    ensures var open := Registry(reg.waiting, reg.rooms[i := reg.rooms[i].(closing := false)]);
      && Inv(open) && Playable(open, conn, roomId, action)
      && GameAction(open, conn, roomId, action).1 == GameAction(reg, conn, roomId, action).1
      && GameAction(open, conn, roomId, action).0.rooms[i].state == GameAction(reg, conn, roomId, action).0.rooms[i].state
  {
    var open := Registry(reg.waiting, reg.rooms[i := reg.rooms[i].(closing := false)]);
    ReplaceRoomInv(reg.rooms, i, reg.rooms[i].(closing := false));
    assert forall j :: 0 <= j < |reg.rooms| ==> open.rooms[j].id == reg.rooms[j].id;
    assert RoomIndex(open.rooms, roomId) == i;
  }
}
