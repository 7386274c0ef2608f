/** The game instance and the actors it mirrors the match into. Every handler keeps the instance equal to the
    history of handled packets, and the actors equal to the states. */
module MatchGame {
  import opened Options
  import opened Wire
  import opened MatchModel

  datatype MovementMode = MOVE_None | MOVE_Walking | MOVE_Other

  /** A movement component: its mode, and whether it has stopped. */
  datatype Movement = Movement(mode: MovementMode, stopped: bool)

  /** What an actor shows of the state of its player. */
  datatype ShownState = ShownState(hp: int32, maxHp: int32, isAlive: bool, kills: int32, deaths: int32)

  function Shown(s: StateData): ShownState { ShownState(s.hp, s.maxHp, s.isAlive, Int32(s.kills), Int32(s.deaths)) }

  /** Field by field: hit points and life, and the counts as the packet has them. */
  predicate ShowsState(p: ShownState, s: StateData) {
    && p.hp == s.hp && p.maxHp == s.maxHp && p.isAlive == s.isAlive
    && UInt32(p.kills) == s.kills && UInt32(p.deaths) == s.deaths
  }

  lemma {:induction false} ShowsStateIs(p: ShownState, s: StateData)
    ensures ShowsState(p, s) <==> p == Shown(s)
  {
    CastsKeepBits(s.kills, 0, p.kills, 0);
    CastsKeepBits(s.deaths, 0, p.deaths, 0);
  }

  /** A character in the world. Whether it is still valid is up to the engine, and so is what it has beyond its
      own fields: a movement component, and a player controller. */
  class S1Player {
    const isMine: bool
    var valid: bool
    var nickname: string
    var playerInfo: MoveData
    var destInfo: MoveData
    var playerState: ShownState
    /** The calls of OnPlayerStateUpdated. */
    var updates: seq<ShownState>
    var location: (uint32, uint32, uint32)
    var hidden: bool
    var collides: bool
    var ticks: bool
    var movement: Option<Movement>
    var controlled: bool
    var input: bool

    constructor (place: MoveData, isMine: bool)
      ensures valid && nickname == "" && !hidden && collides && ticks && updates == []
      ensures location == (place.x, place.y, place.z) && this.isMine == isMine
    {
      this.isMine, valid, nickname := isMine, true, "";
      playerInfo, destInfo := MoveData(0, 0, 0, 0, 0), MoveData(0, 0, 0, 0, 0);
      playerState, updates := ShownState(100, 100, true, 0, 0), [];
      location := (place.x, place.y, place.z);
      hidden, collides, ticks := false, true, true;
      movement, controlled, input := Some(Movement(MOVE_Walking, true)), isMine, isMine;
    }

    /** The actor shows this state. */
    predicate Mirrors(s: StateData)
      reads this`playerState
    {
      playerState == Shown(s)
    }

    method UpdateMatchState(s: StateData)
      modifies this`playerState, this`updates
      ensures Mirrors(s) && ShowsState(playerState, s) && updates == old(updates) + [playerState]
    {
      playerState := ShownState(s.hp, s.maxHp, s.isAlive, Int32(s.kills), Int32(s.deaths));
      updates := updates + [playerState];
      ShowsStateIs(playerState, s);
    }

    method SetMoveState(state: int32)
      modifies this`playerInfo
      ensures playerInfo == old(playerInfo).(state := state)
    {
      if playerInfo.state == state { return; }
      playerInfo := playerInfo.(state := state);
    }

    method SetMoveInfo(info: MoveData)
      modifies this`playerInfo, this`location
      ensures playerInfo == info && location == (info.x, info.y, info.z)
    {
      playerInfo := info;
      location := (info.x, info.y, info.z);
    }

    method SetDestInfo(info: MoveData)
      modifies this`playerInfo, this`destInfo
      ensures destInfo == info && playerInfo == old(playerInfo).(state := info.state)
    {
      destInfo := info;
      SetMoveState(info.state);
    }

    /** The actor is where the packet says. */
    predicate At(info: MoveData)
      reads this`playerInfo, this`destInfo, this`location
    {
      playerInfo == info && destInfo == info && location == (info.x, info.y, info.z)
    }

    /** Taken out of the match: invisible and without collision, ticks, movement and the player's input. */
    predicate Gone()
      reads this`hidden, this`collides, this`ticks, this`movement, this`controlled, this`input
    {
      && hidden && !collides && !ticks
      && (movement.Some? ==> movement.value == Movement(MOVE_None, true))
      && (isMine && controlled ==> !input)
    }

    /** Part of the match again. */
    predicate Back()
      reads this`hidden, this`collides, this`ticks, this`movement, this`controlled, this`input
    {
      && !hidden && collides && ticks
      && (movement.Some? ==> movement.value == Movement(MOVE_Walking, true))
      && (isMine && controlled ==> input)
    }
  }

  /** Packets handed to the session. */
  datatype Sent = SentMatchPrepare | SentHit(target: uint64)

  /** Events after which the players and actors of the match are gone. */
  predicate ClearsMatch(e: Event) { e.ReturnRoom? && e.room.Some? }

  /** Whether the mirror has to hold: not between a match packet and the spawning of its players. */
  function Settled(h: seq<Event>): bool {
    if h == [] then true else SettledBy(Settled(h[..|h| - 1]), h[|h| - 1])
  }

  function SettledBy(before: bool, e: Event): bool {
    if e.Prepare? then false else if e.SpawnPlayers? || ClearsMatch(e) then true else before
  }

  lemma {:induction false} SettledAppend(h: seq<Event>, e: Event)
    ensures Settled(h + [e]) == SettledBy(Settled(h), e)
  {
    assert (h + [e])[..|h|] == h;
  }

  /** Whether HandleSpawn has an actor to offer for player id: the pawn for the local player, and for the others
      what the engine agrees to spawn; nothing without a connection. */
  predicate Offered(id: uint64, local: uint64, connected: bool, hasPawn: bool, engine: bool) {
    connected && if id == local then hasPawn else engine
  }

  /** engine[i] tells whether the engine agrees to spawn entry i; entries beyond the list are refused. */
  predicate Agrees(engine: seq<bool>, i: nat) { i < |engine| && engine[i] }

  lemma {:induction false} AgreesIs(engine: seq<bool>, i: nat)
    ensures Agrees(engine, i) == (i < |engine| && engine[i])
  {}

  /** The ids that the roster brings into the world. */
  function Arriving(roster: seq<RosterItem>, local: uint64, connected: bool, hasPawn: bool,
                    engine: seq<bool>): set<uint64> {
    if roster == [] then {}
    else
      var n := |roster| - 1;
      var id := roster[n].player.objectId;
      Arriving(roster[..n], local, connected, hasPawn, engine)
        + if Offered(id, local, connected, hasPawn, Agrees(engine, n)) then {id} else {}
  }

  lemma {:induction false} ArrivingNone(local: uint64, connected: bool, hasPawn: bool, engine: seq<bool>)
    ensures Arriving([], local, connected, hasPawn, engine) == {}
  {}

  lemma {:induction false} ArrivingNext(roster: seq<RosterItem>, i: nat, local: uint64, connected: bool, hasPawn: bool,
                                        engine: seq<bool>)
    requires i < |roster|
    ensures var id := roster[i].player.objectId;
      Arriving(roster[..i + 1], local, connected, hasPawn, engine)
        == Arriving(roster[..i], local, connected, hasPawn, engine)
          + if Offered(id, local, connected, hasPawn, Agrees(engine, i)) then {id} else {}
  {
    assert roster[..i + 1][..i] == roster[..i];
  }

  /** An id arrives exactly when one of its roster entries is offered an actor. */
  lemma {:induction false} ArrivingIs(roster: seq<RosterItem>, local: uint64, connected: bool, hasPawn: bool,
                                      engine: seq<bool>, id: uint64)
    ensures id in Arriving(roster, local, connected, hasPawn, engine) <==>
      exists i :: 0 <= i < |roster| && roster[i].player.objectId == id
        && Offered(id, local, connected, hasPawn, Agrees(engine, i))
  {
    hide Offered, Agrees;
    if roster != [] {
      var n := |roster| - 1;
      ArrivingIs(roster[..n], local, connected, hasPawn, engine, id);
      assert forall i | 0 <= i < n :: roster[..n][i] == roster[i];
      if id in Arriving(roster[..n], local, connected, hasPawn, engine) {
        var i :| 0 <= i < n && roster[..n][i].player.objectId == id
          && Offered(id, local, connected, hasPawn, Agrees(engine, i));
        assert roster[i].player.objectId == id;
      }
    }
  }

  /** The last roster entry of a player that is offered an actor. */
  function LastOffer(roster: seq<RosterItem>, local: uint64, connected: bool, hasPawn: bool, engine: seq<bool>,
                     id: uint64): (o: Option<PlayerData>)
    ensures o.Some? ==> o.value.objectId == id
  {
    if roster == [] then None
    else
      var n := |roster| - 1;
      var p := roster[n].player;
      if p.objectId == id && Offered(id, local, connected, hasPawn, Agrees(engine, n)) then Some(p)
      else LastOffer(roster[..n], local, connected, hasPawn, engine, id)
  }

  /** It is the entry at position i if i is offered an actor and no later entry of the player is; and it is there
      exactly for the ids that arrive. */
  lemma {:induction false} LastOfferIs(roster: seq<RosterItem>, local: uint64, connected: bool, hasPawn: bool,
                                       engine: seq<bool>, id: uint64, i: nat)
    ensures i < |roster| && roster[i].player.objectId == id && Offered(id, local, connected, hasPawn, Agrees(engine, i))
      && (forall j | i < j < |roster| :: roster[j].player.objectId == id ==>
            !Offered(id, local, connected, hasPawn, Agrees(engine, j)))
      ==> LastOffer(roster, local, connected, hasPawn, engine, id) == Some(roster[i].player)
    ensures LastOffer(roster, local, connected, hasPawn, engine, id).Some? <==>
      id in Arriving(roster, local, connected, hasPawn, engine)
  {
    hide Offered, Agrees;
    if roster != [] {
      var n := |roster| - 1;
      LastOfferIs(roster[..n], local, connected, hasPawn, engine, id, i);
      assert forall j | 0 <= j < n :: roster[..n][j] == roster[j];
    }
  }

  lemma {:induction false} LastOfferNext(roster: seq<RosterItem>, i: nat, local: uint64, connected: bool, hasPawn: bool,
                                         engine: seq<bool>, id: uint64)
    requires i < |roster|
    ensures LastOffer(roster[..i + 1], local, connected, hasPawn, engine, id) ==
      if roster[i].player.objectId == id && Offered(id, local, connected, hasPawn, Agrees(engine, i))
      then Some(roster[i].player) else LastOffer(roster[..i], local, connected, hasPawn, engine, id)
  {
    assert roster[..i + 1][..i] == roster[..i];
  }

  lemma {:induction false} NoStep(c: Core)
    ensures Step(c, SpawnPlayers) == c
  {}

  /** An event that begins with a packet. */
  type PacketEvent = e: Event | !e.SpawnPlayers? witness LeaveRoom(false)

  /** What can happen to the client: a packet, a request, or a move of the engine. What an event records about
      actors is filled in when it is handled. */
  datatype Command =
    | Packet(e: PacketEvent)
    | Spawn(pawn: S1Player?, engine: seq<bool>)
    | Despawn(id: uint64, world: bool)
    | Respawn(info: PlayerData, state: StateData)
    | Hit(target: S1Player?)
    | Destroyed(actor: S1Player)
    | Connection(socket: bool, session: bool)

  /** The actor a command brings along and changes. */
  function Brings(c: Command): set<S1Player?> {
    match c
    case Spawn(pawn, _) => {pawn}
    case Destroyed(actor) => {actor}
    case _ => {}
  }

  /** The client without what its actors do: the fields that packets determine, the connection, and the players
      that have an actor. */
  datatype Outline = Outline(core: Core, socket: bool, session: bool, present: set<uint64>)

  /** What a command does to the outline. */
  function React(o: Outline, c: Command): Outline {
    match c
    case Packet(e) =>
      o.(core := Quiet(Step(o.core, Erased(e))), present := if ClearsMatch(e) then {} else o.present)
    case Spawn(pawn, engine) =>
      o.(present := Arriving(o.core.roster, o.core.localId, o.socket && o.session, pawn != null, engine))
    case Respawn(info, state) => o.(core := Quiet(Step(o.core, PlayerState(info.objectId, state, false))))
    case Connection(socket, session) => o.(socket := socket, session := session)
    case Despawn(_, _) | Hit(_) | Destroyed(_) => o
  }

  function ReactAll(o: Outline, script: seq<Command>): Outline {
    if script == [] then o else React(ReactAll(o, script[..|script| - 1]), script[|script| - 1])
  }

  /** The events that a command tells of, without what their handling finds out about actors. */
  function Told(c: Command): (es: seq<Event>)
    ensures |es| <= 1
  {
    match c
    case Packet(e) => [Erased(e)]
    case Spawn(_, _) => [SpawnPlayers]
    case Respawn(info, state) => [PlayerState(info.objectId, state, false)]
    case Despawn(_, _) | Hit(_) | Destroyed(_) | Connection(_, _) => []
  }

  function ToldAll(script: seq<Command>): seq<Event> {
    if script == [] then [] else ToldAll(script[..|script| - 1]) + Told(script[|script| - 1])
  }

  function ErasedAll(h: seq<Event>): (es: seq<Event>)
    ensures |es| == |h|
  {
    seq(|h|, i requires 0 <= i < |h| => Erased(h[i]))
  }

  lemma {:induction false} ErasedAppend(h: seq<Event>, e: Event)
    ensures ErasedAll(h + [e]) == ErasedAll(h) + [Erased(e)]
  {
    hide Erased;
  }

  /** Whether the mirror has to hold does not depend on actors. */
  lemma {:induction false} SettledErased(h: seq<Event>)
    ensures Settled(ErasedAll(h)) == Settled(h)
  {
    if h != [] {
      var init, e := h[..|h| - 1], h[|h| - 1];
      SettledErased(init);
      ErasedAppend(init, e);
      assert init + [e] == h;
      SettledAppend(ErasedAll(init), Erased(e));
    }
  }

  /** Whether the mirror has to hold after these events. */
  function SettledAfter(before: bool, es: seq<Event>): bool {
    if es == [] then before else SettledBy(SettledAfter(before, es[..|es| - 1]), es[|es| - 1])
  }

  lemma {:induction false} SettledConcat(h: seq<Event>, es: seq<Event>)
    ensures Settled(h + es) == SettledAfter(Settled(h), es)
    decreases |es|
  {
    if es == [] {
      assert h + es == h;
    } else {
      var init, e := es[..|es| - 1], es[|es| - 1];
      SettledConcat(h, init);
      assert (h + init) + [e] == h + es;
      SettledAppend(h + init, e);
    }
  }

  lemma {:induction false} SettledTold(before: bool, es: seq<Event>, c: Command)
    ensures SettledAfter(before, es + Told(c)) ==
      if c.Spawn? || (c.Packet? && c.e.ReturnRoom? && c.e.room.Some?) then true
      else if c.Packet? && c.e.Prepare? then false else SettledAfter(before, es)
  {
    var t := Told(c);
    if t == [] {
      assert es + t == es;
    } else {
      assert (es + t)[..|es|] == es && t == [t[0]];
    }
  }

  /** Commands that decide whether the mirror has to hold: spawnings, returns to a room and match packets. */
  predicate Decides(c: Command) { c.Spawn? || (c.Packet? && (c.e.Prepare? || (c.e.ReturnRoom? && c.e.room.Some?))) }

  /** After a script the mirror has to hold, unless the last command that decides it is a match packet. */
  lemma {:induction false} LastSettles(before: bool, script: seq<Command>, k: nat)
    requires k < |script| && forall j | k < j < |script| :: !Decides(script[j])
    requires script[k].Spawn?
      || (script[k].Packet? && (script[k].e.Prepare? || (script[k].e.ReturnRoom? && script[k].e.room.Some?)))
    ensures SettledAfter(before, ToldAll(script)) <==> !(script[k].Packet? && script[k].e.Prepare?)
    decreases |script|
  {
    hide Told;
    var init := script[..|script| - 1];
    SettledTold(before, ToldAll(init), script[|script| - 1]);
    if k < |script| - 1 {
      assert !Decides(script[|script| - 1]);
      assert forall j | 0 <= j < |init| :: init[j] == script[j];
      LastSettles(before, init, k);
    }
  }

  /** What a script does to the outline's fields is what the events it tells of do. */
  lemma {:induction false} OutlineIsTold(o: Outline, script: seq<Command>)
    requires o.core.log == []
    ensures ReactAll(o, script).core == Quiet(After(o.core, ToldAll(script)))
    decreases |script|
  {
    hide After, Step, Told, React;
    if script == [] {
      AfterNothing(o.core);
    } else {
      var init, c := script[..|script| - 1], script[|script| - 1];
      OutlineIsTold(o, init);
      ReactTold(ReactAll(o, init), After(o.core, ToldAll(init)), c);
      if Told(c) == [] {
        assert ToldAll(init) + Told(c) == ToldAll(init);
      } else {
        assert Told(c) == [Told(c)[0]];
        AfterAppend(o.core, ToldAll(init), Told(c)[0]);
      }
    }
  }

  lemma {:induction false} AfterNothing(c: Core)
    ensures After(c, []) == c
  {}

  lemma {:induction false} ReactTold(o: Outline, c: Core, d: Command)
    requires o.core == Quiet(c)
    ensures React(o, d).core == if Told(d) == [] then Quiet(c) else Quiet(Step(c, Told(d)[0]))
  {
    hide Step;
    if Told(d) != [] {
      StepQuiet(c, Told(d)[0]);
      if d.Spawn? { NoStep(c); }
    }
  }

  /** The match packet lists the player, and the actor, if valid, shows the last state listed for it. */
  ghost predicate KeepsMirror(m: MatchData, id: uint64, actor: S1Player)
    reads actor
  {
    && |m.infos| == |m.states|
    && exists i: nat :: LastAt(m.infos, id, i) && (actor.valid ==> actor.Mirrors(m.states[i]))
  }

  lemma {:induction false} MirrorKept(m: MatchData, id: uint64, actor: S1Player)
    requires |m.infos| == |m.states|
    ensures var states := StatesOf(m.infos, m.states);
      KeepsMirror(m, id, actor) <==> id in states && (actor.valid ==> actor.Mirrors(states[id]))
  {
    hide S1Player.Mirrors;
    var states := StatesOf(m.infos, m.states);
    StatesOfRoster(m.infos, m.states, id);
    if id in states {
      var i: nat :| LastAt(m.infos, id, i) && states[id] == m.states[i];
      assert forall j: nat | LastAt(m.infos, id, j) :: j == i;
    }
  }

  lemma {:induction false} StepPrepare(c: Core, m: MatchData)
    ensures var known := |m.infos| == |m.states|;
      Step(c, Prepare(m)) == c.(
        matchId := m.matchId, remaining := m.duration, red := m.red, blue := m.blue,
        roster := if known then m.infos else [], states := if known then StatesOf(m.infos, m.states) else map[])
  {
    hide StatesOf;
  }

  lemma {:induction false} StepMatchEnd(c: Core, winner: int32, red: uint32, blue: uint32, world: bool)
    ensures Step(c, MatchEnd(winner, red, blue, world)) == if !world then c else c.(
      remaining := 0, red := red, blue := blue,
      log := c.log + [MatchStateUpdated, MatchEnded(TeamOf(winner), Int32(red), Int32(blue))])
  {}

  lemma {:induction false} NoMirror(m: MatchData, id: uint64, actor: S1Player)
    requires |m.infos| != |m.states|
    ensures !KeepsMirror(m, id, actor)
  {}

  class GameInstance {
    var socketOpen: bool
    var sessionValid: bool
    var localAccountId: uint64
    var localObjectId: uint64
    var localNickname: string
    var currentRoom: CurrentRoom
    var matchId: uint64
    var remainSeconds: uint32
    var redScore: uint32
    var blueScore: uint32
    var matchPlayerInfo: seq<RosterItem>
    var matchPlayerState: map<uint64, StateData>
    var players: map<uint64, S1Player>
    var myPlayer: S1Player?
    var broadcasts: seq<Broadcast>
    var sent: seq<Sent>
    ghost const start: Core
    ghost var history: seq<Event>

    /** The fields that packets determine. */
    function Now(): Core
      reads this
    {
      Core(localAccountId, localObjectId, localNickname, currentRoom, matchId, remainSeconds, redScore, blueScore,
           matchPlayerInfo, matchPlayerState, broadcasts)
    }

    function Seen(): Outline
      reads this
    {
      Outline(Quiet(Now()), socketOpen, sessionValid, players.Keys)
    }

    /** Every valid actor shows the state of its player. */
    ghost predicate Mirrored()
      reads this`players, this`matchPlayerState, players.Values`valid, players.Values`playerState
    {
      forall id | id in players ::
        id in matchPlayerState && (players[id].valid ==> players[id].Mirrors(matchPlayerState[id]))
    }

    /** No actor stands for two players, and the local player's actor is one of them. */
    ghost predicate Distinct()
      reads this`players, this`myPlayer
    {
      && (forall i, j | i in players && j in players && i != j :: players[i] != players[j])
      && (myPlayer != null ==> myPlayer in players.Values)
    }

    ghost predicate Valid()
      reads this, players.Values`valid, players.Values`playerState
    {
      && Initial(start) && Now() == After(start, history)
      && Distinct()
      && (Settled(history) ==> Mirrored())
    }

    constructor (matchId: uint64, remaining: uint32, red: uint32, blue: uint32)
      ensures Valid() && history == [] && players == map[] && sent == []
    {
      socketOpen, sessionValid := false, false;
      localAccountId, localObjectId, localNickname, currentRoom := 0, 0, "", NO_ROOM;
      this.matchId, remainSeconds, redScore, blueScore := matchId, remaining, red, blue;
      matchPlayerInfo, matchPlayerState, players, myPlayer := [], map[], map[], null;
      broadcasts, sent, history := [], [], [];
      start := Core(0, 0, "", NO_ROOM, matchId, remaining, red, blue, [], map[], []);
    }

    // ---------------------------------------------------------------- the environment

    /** The connection comes and goes. */
    method SetConnection(socket: bool, session: bool)
      requires Valid()
      modifies this`socketOpen, this`sessionValid
      ensures Valid() && history == old(history) && socketOpen == socket && sessionValid == session
    {
      socketOpen, sessionValid := socket, session;
    }

    /** The engine destroys an actor. */
    method ActorDestroyed(actor: S1Player)
      requires Valid()
      modifies actor`valid
      ensures Valid() && history == old(history) && !actor.valid
    {
      actor.valid := false;
    }

    method Record(ghost e: Event)
      requires Now() == Step(After(start, history), e) && Initial(start) && Distinct()
      requires SettledBy(Settled(history), e) ==> Mirrored()
      modifies this`history
      ensures Valid() && history == old(history) + [e]
    {
      hide After, Step, Mirrored, Distinct, Settled, SettledBy;
      history := history + [e];
      AfterAppend(start, old(history), e);
      SettledAppend(old(history), e);
    }

    // ---------------------------------------------------------------- rooms

    method UpdateCurrentRoom(info: RoomData)
      modifies this`currentRoom
      ensures currentRoom == RoomOf(info) && ShowsRoom(Now(), info)
    {
      var items: seq<RoomItem> := [];
      for i := 0 to |info.players|
        invariant items == RoomItems(info.players)[..i]
      {
        var p := info.players[i];
        var team := if p.team == TEAM_BLUE then TeamBlue else if p.team == TEAM_RED then TeamRed else TeamNone;
        items := items + [RoomItem(Int64(p.objectId), p.nickname, p.ready, team)];
      }
      currentRoom :=
        CurrentRoom(Int64(info.roomId), info.name, |info.players|, Int32(info.maxPlayers), Int64(info.host), items);
      ShowsRoomIs(Now(), info);
    }

    method HandleLogin(success: bool, result: int32, accountId: uint64, objectId: uint64, nickname: string)
      requires Valid()
      modifies this`localAccountId, this`localObjectId, this`localNickname, this`broadcasts, this`history
      ensures Valid() && history == old(history) + [Login(success, result, accountId, objectId, nickname)]
      ensures if Accepted(Login(success, result, accountId, objectId, nickname)) then
          && localAccountId == accountId && localObjectId == objectId && localNickname == nickname
          && broadcasts == old(broadcasts)
        else
          && (localAccountId, localObjectId, localNickname) == old((localAccountId, localObjectId, localNickname))
          && exists reason :: Explains(reason, success, result) && broadcasts == old(broadcasts) + [LoginFailed(reason)]
    {
      hide After, RoomOf, StatesOf, ChatName, ScoreOf, TeamOf, Settled, Distinct, Mirrored;
      if !(success && result == AUTH_RESULT_SUCCESS) {
        var reason := OtherFailure;
        if result == AUTH_RESULT_INVALID_INPUT { reason := InvalidInput; }
        else if result == AUTH_RESULT_INVALID_CREDENTIALS { reason := InvalidCredentials; }
        else if result == AUTH_RESULT_DUPLICATE_LOGIN_ID { reason := AlreadyConnected; }
        else if result == AUTH_RESULT_SERVER_ERROR { reason := ServerError; }
        assert Explains(reason, success, result);
        broadcasts := broadcasts + [LoginFailed(reason)];
      } else if accountId == 0 || objectId == 0 {
        assert Explains(BadReply, success, result);
        broadcasts := broadcasts + [LoginFailed(BadReply)];
      } else {
        localAccountId, localObjectId, localNickname := accountId, objectId, nickname;
      }
      Record(Login(success, result, accountId, objectId, nickname));
    }

    method HandleEnterRoom(success: bool, room: Option<RoomData>)
      requires Valid()
      modifies this`currentRoom, this`broadcasts, this`history
      ensures Valid() && history == old(history) + [EnterRoom(success, room)]
      ensures broadcasts == old(broadcasts) + [EnterRoomResult(success && room.Some?)]
      ensures if success && room.Some? then ShowsRoom(Now(), room.value) else currentRoom == old(currentRoom)
    {
      hide After, RoomOf, StatesOf, ChatName, ScoreOf, FailureOf, TeamOf, Settled, Distinct, Mirrored;
      if !success || room.None? {
        broadcasts := broadcasts + [EnterRoomResult(false)];
      } else {
        UpdateCurrentRoom(room.value);
        broadcasts := broadcasts + [EnterRoomResult(true)];
      }
      Record(EnterRoom(success, room));
    }

    method HandleCreateRoom(success: bool, room: Option<RoomData>)
      requires Valid()
      modifies this`currentRoom, this`broadcasts, this`history
      ensures Valid() && history == old(history) + [CreateRoom(success, room)]
      ensures broadcasts == old(broadcasts) + [CreateRoomResult(success && room.Some?)]
      ensures if success && room.Some? then ShowsRoom(Now(), room.value) else currentRoom == old(currentRoom)
    {
      hide After, RoomOf, StatesOf, ChatName, ScoreOf, FailureOf, TeamOf, Settled, Distinct, Mirrored;
      if !success || room.None? {
        broadcasts := broadcasts + [CreateRoomResult(false)];
      } else {
        UpdateCurrentRoom(room.value);
        broadcasts := broadcasts + [CreateRoomResult(true)];
      }
      Record(CreateRoom(success, room));
    }

    method HandleRoomState(room: Option<RoomData>)
      requires Valid()
      modifies this`currentRoom, this`broadcasts, this`history
      ensures Valid() && history == old(history) + [RoomState(room)]
      ensures if room.Some? then ShowsRoom(Now(), room.value) && broadcasts == old(broadcasts) + [RoomStateUpdated]
        else currentRoom == old(currentRoom) && broadcasts == old(broadcasts)
    {
      hide After, RoomOf, StatesOf, ChatName, ScoreOf, FailureOf, TeamOf, Settled, Distinct, Mirrored;
      if room.Some? {
        UpdateCurrentRoom(room.value);
        broadcasts := broadcasts + [RoomStateUpdated];
      }
      Record(RoomState(room));
    }

    method HandleLeaveRoom(success: bool)
      requires Valid()
      modifies this`currentRoom, this`broadcasts, this`history
      ensures Valid() && history == old(history) + [LeaveRoom(success)]
      ensures if success then ShowsRoom(Now(), EMPTY_ROOM) && broadcasts == old(broadcasts) + [LeaveRoomResult(true)]
        else currentRoom == old(currentRoom) && broadcasts == old(broadcasts)
    {
      hide After, RoomOf, StatesOf, ChatName, ScoreOf, FailureOf, TeamOf, Settled, Distinct, Mirrored;
      if success {
        currentRoom := NO_ROOM;
        broadcasts := broadcasts + [LeaveRoomResult(success)];
      }
      Record(LeaveRoom(success));
    }

    method HandleReturnRoom(room: Option<RoomData>)
      requires Valid()
      modifies this`currentRoom, this`players, this`myPlayer, this`matchPlayerInfo, this`matchPlayerState, this`history
      ensures Valid() && history == old(history) + [ReturnRoom(room)]
      ensures if room.Some? then
          && ShowsRoom(Now(), room.value) && players == map[] && myPlayer == null
          && matchPlayerInfo == [] && matchPlayerState == map[] && Mirrored()
        else
          && currentRoom == old(currentRoom) && players == old(players) && myPlayer == old(myPlayer)
          && matchPlayerInfo == old(matchPlayerInfo) && matchPlayerState == old(matchPlayerState)
    {
      hide After, S1Player.Mirrors, RoomOf, StatesOf, ChatName, ScoreOf, FailureOf, TeamOf;
      if room.Some? {
        UpdateCurrentRoom(room.value);
        players, myPlayer := map[], null;
        matchPlayerInfo, matchPlayerState := [], map[];
      }
      Record(ReturnRoom(room));
    }

    // ---------------------------------------------------------------- the match

    method HandlePrepareMatch(m: MatchData)
      requires Valid()
      modifies this`matchPlayerInfo, this`matchPlayerState, this`matchId, this`remainSeconds, this`redScore,
               this`blueScore, this`history
      ensures Valid() && history == old(history) + [Prepare(m)]
      ensures matchId == m.matchId && remainSeconds == m.duration && redScore == m.red && blueScore == m.blue
      ensures matchPlayerInfo == if |m.infos| == |m.states| then m.infos else []
      ensures Mirrored() <==> forall id | id in players :: KeepsMirror(m, id, players[id])
    {
      hide Step, After, KeepsMirror, StatesOf, RoomOf, ChatName, ScoreOf, FailureOf, TeamOf, Settled, Distinct,
           Mirrored;
      StepPrepare(Now(), m);
      matchPlayerInfo, matchPlayerState := [], map[];
      matchId, remainSeconds, redScore, blueScore := m.matchId, m.duration, m.red, m.blue;
      if |m.infos| == |m.states| { LoadRoster(m); }
      Record(Prepare(m));
      MirrorExactly(m);
    }

    lemma {:induction false} MirrorExactly(m: MatchData)
      requires matchPlayerState == if |m.infos| == |m.states| then StatesOf(m.infos, m.states) else map[]
      ensures Mirrored() <==> forall id | id in players :: KeepsMirror(m, id, players[id])
    {
      hide S1Player.Mirrors, KeepsMirror, StatesOf;
      forall id | id in players ensures KeepsMirror(m, id, players[id]) <==>
          (id in matchPlayerState && (players[id].valid ==> players[id].Mirrors(matchPlayerState[id]))) {
        if |m.infos| == |m.states| { MirrorKept(m, id, players[id]); } else { NoMirror(m, id, players[id]); }
      }
    }

    /** The two loops that copy the lists of a match packet. */
    method LoadRoster(m: MatchData)
      requires |m.infos| == |m.states| && matchPlayerInfo == [] && matchPlayerState == map[]
      modifies this`matchPlayerInfo, this`matchPlayerState
      ensures matchPlayerInfo == m.infos && matchPlayerState == StatesOf(m.infos, m.states)
    {
      for i := 0 to |m.infos|
        invariant matchPlayerInfo == m.infos[..i] && matchPlayerState == map[]
      {
        matchPlayerInfo := matchPlayerInfo + [m.infos[i]];
      }
      assert m.infos[..0] == [] && m.states[..0] == [];
      for i := 0 to |m.states|
        invariant matchPlayerInfo == m.infos && matchPlayerState == StatesOf(m.infos[..i], m.states[..i])
      {
        assert m.infos[..i + 1][..i] == m.infos[..i] && m.states[..i + 1][..i] == m.states[..i];
        matchPlayerState := matchPlayerState[m.infos[i].player.objectId := m.states[i]];
      }
      assert m.infos[..|m.infos|] == m.infos && m.states[..|m.states|] == m.states;
    }

    /** PrepareMatch: the loaded level asks for the players of the roster. pawn is the character of the local
        player controller, if it has one. */
    method PrepareMatch(pawn: S1Player?, engine: seq<bool>)
      requires Valid()
      modifies this`players, this`myPlayer, this`sent, this`history, pawn
      ensures Valid() && history == old(history) + [SpawnPlayers] && Mirrored()
      ensures sent == old(sent) + if socketOpen && sessionValid then [SentMatchPrepare] else []
      ensures players.Keys
        == Arriving(matchPlayerInfo, localObjectId, socketOpen && sessionValid, pawn != null, engine)
      ensures forall id | id in players :: if id == localObjectId then players[id] == pawn else fresh(players[id])
      ensures forall id | id in players && id != localObjectId :: players[id].valid
      ensures AllPlaced(|matchPlayerInfo|, pawn != null, engine)
      ensures myPlayer == if localObjectId in players then pawn else null
    {
      hide After, Step, Settled, Distinct, Mirrored, Arriving, AllPlaced;
      players, myPlayer := map[], null;
      forall i | 0 <= i < |matchPlayerInfo| ensures matchPlayerInfo[i].player.objectId in matchPlayerState {
        KeysAreRoster(start, history, matchPlayerInfo[i].player.objectId);
      }
      SpawnRoster(pawn, engine);
      if socketOpen && sessionValid { sent := sent + [SentMatchPrepare]; }
      assert Step(After(start, history), SpawnPlayers) == After(start, history) by { NoStep(After(start, history)); }
      Record(SpawnPlayers);
    }

    /** The loop of PrepareMatch. */
    method SpawnRoster(pawn: S1Player?, engine: seq<bool>)
      requires players == map[] && myPlayer == null
      requires forall i | 0 <= i < |matchPlayerInfo| :: matchPlayerInfo[i].player.objectId in matchPlayerState
      modifies this`players, this`myPlayer, pawn
      ensures Distinct() && Mirrored()
      ensures players.Keys
        == Arriving(matchPlayerInfo, localObjectId, socketOpen && sessionValid, pawn != null, engine)
      ensures forall id | id in players :: if id == localObjectId then players[id] == pawn else fresh(players[id])
      ensures forall id | id in players && id != localObjectId :: players[id].valid
      ensures AllPlaced(|matchPlayerInfo|, pawn != null, engine)
      ensures myPlayer == if localObjectId in players then pawn else null
    {
      hide Offered, Agrees, Arriving, AllPlaced, S1Player.Mirrors;
      NothingPlaced(pawn != null, engine);
      ArrivingNone(localObjectId, socketOpen && sessionValid, pawn != null, engine);
      for i := 0 to |matchPlayerInfo|
        invariant Distinct() && Mirrored()
        invariant players.Keys
          == Arriving(matchPlayerInfo[..i], localObjectId, socketOpen && sessionValid, pawn != null, engine)
        invariant forall id | id in players :: if id == localObjectId then players[id] == pawn else fresh(players[id])
        invariant forall id | id in players && id != localObjectId :: players[id].valid
        invariant AllPlaced(i, pawn != null, engine)
        invariant myPlayer == if localObjectId in players then pawn else null
      {
        ArrivingNext(matchPlayerInfo, i, localObjectId, socketOpen && sessionValid, pawn != null, engine);
        SpawnEntry(i, pawn, engine);
      }
      assert matchPlayerInfo[..|matchPlayerInfo|] == matchPlayerInfo;
    }

    /** The actor has the name and the place of the player. */
    predicate Placed(info: PlayerData, a: S1Player)
      reads this`localObjectId, this`localNickname, a`playerInfo, a`destInfo, a`location, a`nickname
    {
      && a.At(info.move)
      && a.nickname == if info.objectId == localObjectId then localNickname else info.nickname
    }

    /** Every player in the world has the name and the place of its last entry, among the first n of the roster, that
        was offered an actor. */
    ghost predicate AllPlaced(n: nat, hasPawn: bool, engine: seq<bool>)
      requires n <= |matchPlayerInfo|
      reads this`matchPlayerInfo, this`players, this`localObjectId, this`localNickname, this`socketOpen,
            this`sessionValid, players.Values`playerInfo, players.Values`destInfo, players.Values`location,
            players.Values`nickname
    {
      forall id | id in players ::
        var o := LastOffer(matchPlayerInfo[..n], localObjectId, socketOpen && sessionValid, hasPawn, engine, id);
        o.Some? && Placed(o.value, players[id])
    }

    lemma {:induction false} NothingPlaced(hasPawn: bool, engine: seq<bool>)
      requires players == map[]
      ensures AllPlaced(0, hasPawn, engine)
    {}

    /** One turn of the loop. */
    method SpawnEntry(i: nat, pawn: S1Player?, engine: seq<bool>)
      requires Distinct() && i < |matchPlayerInfo| && AllPlaced(i, pawn != null, engine)
      requires pawn != null ==> forall id | id in players && players[id] == pawn :: id == localObjectId
      requires localObjectId in players ==> players[localObjectId] == pawn
      requires myPlayer == if localObjectId in players then pawn else null
      modifies this`players, this`myPlayer, pawn
      ensures Distinct() && AllPlaced(i + 1, pawn != null, engine)
      ensures var info := matchPlayerInfo[i].player;
        && (old(Mirrored()) && info.objectId in matchPlayerState ==> Mirrored())
        && (if Offered(info.objectId, localObjectId, socketOpen && sessionValid, pawn != null, Agrees(engine, i)) then
              && info.objectId in players && players == old(players)[info.objectId := players[info.objectId]]
              && if info.objectId == localObjectId then players[info.objectId] == pawn == myPlayer
                 else fresh(players[info.objectId]) && players[info.objectId].valid && myPlayer == old(myPlayer)
            else players == old(players) && myPlayer == old(myPlayer))
    {
      hide Offered, Agrees, LastOffer, Mirrored, Placed;
      AgreesIs(engine, i);
      ghost var connected, hasPawn, was := socketOpen && sessionValid, pawn != null, players;
      HandleSpawn(matchPlayerInfo[i].player, pawn, i < |engine| && engine[i]);
      forall id | id in players
        ensures var o := LastOffer(matchPlayerInfo[..i + 1], localObjectId, connected, hasPawn, engine, id);
          o.Some? && Placed(o.value, players[id])
      {
        LastOfferNext(matchPlayerInfo, i, localObjectId, connected, hasPawn, engine, id);
        if id in was && players[id] == was[id] {
          assert id == localObjectId || players[id] != pawn;
        }
      }
    }

    /** HandleSpawn: the local player's own pawn, or a new actor if the engine spawns one. */
    method HandleSpawn(info: PlayerData, pawn: S1Player?, engine: bool)
      requires Distinct()
      requires pawn != null ==> forall id | id in players && players[id] == pawn :: id == localObjectId
      requires localObjectId in players ==> players[localObjectId] == pawn
      requires myPlayer == if localObjectId in players then pawn else null
      modifies this`players, this`myPlayer, pawn
      ensures Distinct()
      ensures old(Mirrored()) && info.objectId in matchPlayerState ==> Mirrored()
      ensures !Offered(info.objectId, localObjectId, socketOpen && sessionValid, pawn != null, engine) ==>
        players == old(players) && myPlayer == old(myPlayer) && (pawn != null ==> unchanged(pawn))
      ensures info.objectId != localObjectId && pawn != null ==> unchanged(pawn)
      ensures Offered(info.objectId, localObjectId, socketOpen && sessionValid, pawn != null, engine) <==>
        socketOpen && sessionValid && if info.objectId == localObjectId then pawn != null else engine
      ensures Offered(info.objectId, localObjectId, socketOpen && sessionValid, pawn != null, engine) ==>
        && info.objectId in players && players == old(players)[info.objectId := players[info.objectId]]
        && Placed(info, players[info.objectId])
        && players[info.objectId].playerInfo == players[info.objectId].destInfo == info.move
        && players[info.objectId].nickname == (if info.objectId == localObjectId then localNickname else info.nickname)
        && if info.objectId == localObjectId then players[info.objectId] == pawn == myPlayer
           else fresh(players[info.objectId]) && players[info.objectId].valid && myPlayer == old(myPlayer)
    {
      hide S1Player.Mirrors;
      if !socketOpen || !sessionValid { return; }
      if info.objectId == localObjectId {
        if pawn == null { return; }
        SetUp(pawn, localNickname, info);
        myPlayer := pawn;
        players := players[info.objectId := pawn];
        assert players[localObjectId] == myPlayer;
      } else {
        if !engine { return; }
        var actor := new S1Player(info.move, false);
        SetUp(actor, info.nickname, info);
        players := players[info.objectId := actor];
        assert myPlayer != null ==> players[localObjectId] == myPlayer;
      }
    }

    /** What both branches of HandleSpawn do with their actor. */
    method SetUp(actor: S1Player, name: string, info: PlayerData)
      modifies actor
      ensures actor.nickname == name && actor.At(info.move)
      ensures actor.playerInfo == actor.destInfo == info.move
      ensures actor.location == (info.move.x, info.move.y, info.move.z)
      ensures actor.valid == old(actor.valid)
      ensures info.objectId in matchPlayerState ==> actor.Mirrors(matchPlayerState[info.objectId])
    {
      actor.nickname := name;
      actor.SetMoveInfo(info.move);
      actor.SetDestInfo(info.move);
      if info.objectId in matchPlayerState { actor.UpdateMatchState(matchPlayerState[info.objectId]); }
    }

    method HandleMatchStart(id: uint64)
      requires Valid()
      modifies this`broadcasts, this`history
      ensures Valid() && history == old(history) + [MatchStart(id)]
      ensures broadcasts == old(broadcasts) + if matchId == id then [MatchStarted] else []
    {
      hide After, RoomOf, StatesOf, ChatName, ScoreOf, FailureOf, TeamOf, Settled, Distinct, Mirrored;
      if matchId == id { broadcasts := broadcasts + [MatchStarted]; }
      Record(MatchStart(id));
    }

    method HandleMatchState(id: uint64, remaining: uint32, red: uint32, blue: uint32)
      requires Valid()
      modifies this`remainSeconds, this`redScore, this`blueScore, this`broadcasts, this`history
      ensures Valid() && history == old(history) + [MatchState(id, remaining, red, blue)]
      ensures if matchId == id then
          && remainSeconds == remaining && redScore == red && blueScore == blue
          && broadcasts == old(broadcasts) + [MatchStateUpdated]
        else (remainSeconds, redScore, blueScore, broadcasts) == old((remainSeconds, redScore, blueScore, broadcasts))
    {
      hide After, RoomOf, StatesOf, ChatName, ScoreOf, FailureOf, TeamOf, Settled, Distinct, Mirrored;
      if matchId == id {
        remainSeconds, redScore, blueScore := remaining, red, blue;
        broadcasts := broadcasts + [MatchStateUpdated];
      }
      Record(MatchState(id, remaining, red, blue));
    }

    /** world: whether the engine has a world at this moment. */
    method HandleMatchEnd(winner: int32, red: uint32, blue: uint32, world: bool)
      requires Valid()
      modifies this`remainSeconds, this`redScore, this`blueScore, this`broadcasts, this`history
      ensures Valid() && history == old(history) + [MatchEnd(winner, red, blue, world)]
      ensures if world then
          && remainSeconds == 0 && redScore == red && blueScore == blue
          && exists b :: ResultIs(b, winner, red, blue) && broadcasts == old(broadcasts) + [MatchStateUpdated, b]
        else (remainSeconds, redScore, blueScore, broadcasts) == old((remainSeconds, redScore, blueScore, broadcasts))
    {
      hide Step, After, RoomOf, StatesOf, ChatName, ScoreOf, FailureOf, Settled, Distinct, Mirrored;
      StepMatchEnd(Now(), winner, red, blue, world);
      if world {
        redScore, blueScore, remainSeconds := red, blue, 0;
        var winnerTeam := if winner == TEAM_RED then TeamRed else if winner == TEAM_BLUE then TeamBlue else TeamNone;
        broadcasts := broadcasts + [MatchStateUpdated];
        broadcasts := broadcasts + [MatchEnded(winnerTeam, Int32(redScore), Int32(blueScore))];
        assert ResultIs(MatchEnded(winnerTeam, Int32(redScore), Int32(blueScore)), winner, red, blue);
        assert broadcasts == old(broadcasts)
          + [MatchStateUpdated, MatchEnded(winnerTeam, Int32(redScore), Int32(blueScore))];
      }
      Record(MatchEnd(winner, red, blue, world));
    }

    /** The actor of a player that is still valid. */
    predicate HasActor(id: uint64)
      reads this, players.Values
    {
      id in players && players[id].valid
    }

    /** The actor of a player, valid or not. */
    function ActorOf(id: uint64): set<S1Player>
      reads this
    {
      if id in players then {players[id]} else {}
    }

    /** HandlePlayerState, both overloads: the state is replaced in the map and shown by the actor. */
    method HandlePlayerState(id: uint64, s: StateData)
      requires Valid()
      modifies this`matchPlayerState, this`broadcasts, this`history, ActorOf(id)`playerState, ActorOf(id)`updates
      ensures Valid() && history == old(history) + [PlayerState(id, s, old(id in players && players[id].valid))]
      ensures id in matchPlayerState ==> matchPlayerState[id] == s
      ensures id in matchPlayerState && HasActor(id) ==>
        players[id].Mirrors(s) && ShowsState(players[id].playerState, s)
      ensures if id in matchPlayerState && old(HasActor(id)) then
          |broadcasts| == |old(broadcasts)| + 1 && broadcasts[..|old(broadcasts)|] == old(broadcasts)
          && ScoreIs(broadcasts[|old(broadcasts)|], id, s)
        else broadcasts == old(broadcasts)
    {
      hide After, S1Player.Mirrors, RoomOf, StatesOf, ChatName, FailureOf, TeamOf, ShowsState, ScoreIs, ScoreOf;
      ghost var actor := HasActor(id);
      if id in matchPlayerState {
        ShowState(id, s);
      }
      Record(PlayerState(id, s, actor));
    }

    method ShowState(id: uint64, s: StateData)
      requires Distinct() && id in matchPlayerState
      modifies this`matchPlayerState, this`broadcasts, ActorOf(id)`playerState, ActorOf(id)`updates
      ensures Distinct() && matchPlayerState == old(matchPlayerState)[id := s]
      ensures broadcasts == old(broadcasts) + if HasActor(id) then [ScoreOf(id, s)] else []
      ensures ScoreIs(ScoreOf(id, s), id, s)
      ensures HasActor(id) <==> old(HasActor(id))
      ensures HasActor(id) ==> players[id].Mirrors(s) && ShowsState(players[id].playerState, s)
      ensures old(Mirrored()) ==> Mirrored()
    {
      matchPlayerState := matchPlayerState[id := s];
      if id in players && players[id].valid {
        players[id].UpdateMatchState(s);
        broadcasts := broadcasts + [ScoreUpdated(Int64(id), Int32(s.kills), Int32(s.deaths))];
      }
    }

    /** HandleDespawn: takes a valid actor out of the match; what it shows stays. world: whether the engine has a
        world. */
    method HandleDespawn(id: uint64, world: bool)
      requires Valid()
      modifies ActorOf(id)`hidden, ActorOf(id)`collides, ActorOf(id)`ticks, ActorOf(id)`movement, ActorOf(id)`input
      ensures Valid()
      ensures if socketOpen && sessionValid && world && id in players && players[id].valid then
          && players[id].Gone() && players[id].movement.Some? == old(players[id].movement.Some?)
          && players[id].hidden && !players[id].collides && !players[id].ticks
          && (players[id].movement.Some? ==> players[id].movement.value == Movement(MOVE_None, true))
          && (players[id].isMine && players[id].controlled ==> !players[id].input)
          && (!(players[id].isMine && players[id].controlled) ==> players[id].input == old(players[id].input))
        else forall a | a in ActorOf(id) :: unchanged(a)
    {
      hide Valid;
      if !socketOpen || !sessionValid || !world { return; }
      if id !in players || !players[id].valid { return; }
      var actor := players[id];
      actor.hidden := true;
      actor.collides := false;
      actor.ticks := false;
      if actor.movement.Some? {
        actor.movement := Some(actor.movement.value.(stopped := true));
        actor.movement := Some(actor.movement.value.(mode := MOVE_None));
      }
      if actor.isMine {
        if actor.controlled { actor.input := false; }
      }
    }

    /** HandleRespawn: brings a valid actor back at its new place. */
    method HandleRespawn(info: PlayerData)
      requires Valid()
      modifies ActorOf(info.objectId)`hidden, ActorOf(info.objectId)`collides, ActorOf(info.objectId)`ticks,
               ActorOf(info.objectId)`movement, ActorOf(info.objectId)`input, ActorOf(info.objectId)`playerInfo,
               ActorOf(info.objectId)`destInfo, ActorOf(info.objectId)`location
      ensures Valid()
      ensures if socketOpen && sessionValid && info.objectId in players && players[info.objectId].valid then
          var a := players[info.objectId];
          && a.Back() && a.At(info.move) && a.movement.Some? == old(a.movement.Some?)
          && !a.hidden && a.collides && a.ticks
          && (a.movement.Some? ==> a.movement.value == Movement(MOVE_Walking, true))
          && (a.isMine && a.controlled ==> a.input)
          && a.playerInfo == a.destInfo == info.move && a.location == (info.move.x, info.move.y, info.move.z)
          && (!(a.isMine && a.controlled) ==> a.input == old(a.input))
        else forall a | a in ActorOf(info.objectId) :: unchanged(a)
    {
      hide Valid, S1Player.Back, S1Player.At;
      if !socketOpen || !sessionValid { return; }
      if info.objectId !in players || !players[info.objectId].valid { return; }
      BringBack(players[info.objectId], info.move);
    }

    /** What HandleRespawn does with its actor. */
    method BringBack(actor: S1Player, place: MoveData)
      modifies actor`hidden, actor`collides, actor`ticks, actor`movement, actor`input, actor`playerInfo, actor`destInfo,
               actor`location
      ensures actor.Back() && actor.At(place) && actor.movement.Some? == old(actor.movement.Some?)
      ensures !actor.hidden && actor.collides && actor.ticks
      ensures actor.movement.Some? ==> actor.movement.value == Movement(MOVE_Walking, true)
      ensures actor.isMine && actor.controlled ==> actor.input
      ensures actor.playerInfo == actor.destInfo == place && actor.location == (place.x, place.y, place.z)
      ensures !(actor.isMine && actor.controlled) ==> actor.input == old(actor.input)
    {
      actor.hidden := false;
      actor.collides := true;
      actor.ticks := true;
      if actor.movement.Some? {
        actor.movement := Some(actor.movement.value.(stopped := true));
        actor.movement := Some(actor.movement.value.(mode := MOVE_Walking));
      }
      actor.SetMoveInfo(place);
      actor.SetDestInfo(place);
      if actor.isMine {
        if actor.controlled { actor.input := true; }
      }
    }

    // ---------------------------------------------------------------- requests and queries

    /** The target is somebody's valid actor, and the connection is there. */
    predicate CanHit(target: S1Player?)
      reads this, target
    {
      target != null && target.valid && sessionValid && socketOpen && target in players.Values
    }

    /** RequestHit: a search through the players in any order. The packet names the one player the target
        stands for; it is sent once, or never if the target is nobody's actor. */
    method RequestHit(target: S1Player?)
      requires Valid()
      modifies this`sent
      ensures Valid() && history == old(history)
      ensures target == null || !target.valid || !sessionValid || !socketOpen || target !in players.Values ==>
        !CanHit(target) && sent == old(sent)
      ensures !CanHit(target) ==> sent == old(sent)
      ensures target != null && target.valid && sessionValid && socketOpen ==>
        forall id | id in players && players[id] == target :: sent == old(sent) + [SentHit(id)]
    {
      if target == null || !target.valid || !sessionValid { return; }
      var rest := players.Keys;
      while rest != {}
        invariant rest <= players.Keys && forall id | id in players.Keys - rest :: players[id] != target
        invariant sent == old(sent)
        decreases |rest|
      {
        var id :| id in rest;
        rest := rest - {id};
        if players[id] == target {
          if socketOpen { sent := sent + [SentHit(id)]; }
          return;
        }
      }
    }

    method HandleChat(sender: uint64, msg: string)
      requires Valid()
      modifies this`broadcasts, this`history
      ensures Valid()
      ensures history == old(history) + [Chat(sender, msg, if HasActor(sender) then players[sender].nickname else "")]
      ensures broadcasts == old(broadcasts) + [ChatReceived(
        ChatName(Now(), sender, if HasActor(sender) then players[sender].nickname else "") + ": " + msg)]
    {
      hide After, RoomOf, StatesOf, ScoreOf, FailureOf, TeamOf, Settled, Distinct, Mirrored;
      ghost var actorName := if HasActor(sender) then players[sender].nickname else "";
      var nickname := NameOf(sender);
      broadcasts := broadcasts + [ChatReceived(nickname + ": " + msg)];
      Record(Chat(sender, msg, actorName));
    }

    /** The cascade of HandleChat. */
    method NameOf(sender: uint64) returns (nickname: string)
      ensures nickname == ChatName(Now(), sender, if HasActor(sender) then players[sender].nickname else "")
    {
      nickname := "";
      if sender == localObjectId { nickname := localNickname; }
      if nickname == "" {
        if sender in players {
          if players[sender].valid { nickname := players[sender].nickname; }
        }
      }
      if nickname == "" { nickname := FindInRoom(sender); }
      if nickname == "" { nickname := "Player_" + Digits(sender); }
    }

    method FindInRoom(sender: uint64) returns (nickname: string)
      ensures nickname == RoomName(currentRoom.players, sender)
    {
      nickname := "";
      var items := currentRoom.players;
      for i := 0 to |items|
        invariant RoomName(items, sender) == RoomName(items[i..], sender)
      {
        assert items[i..][0] == items[i] && items[i..][1..] == items[i + 1..];
        if UInt64(items[i].objectId) == sender { return items[i].nickname; }
      }
    }

    /** Whenever the mirror has to hold, a valid actor shows the hit points, the life and the counts of its player's
        present state. */
    lemma {:induction false} ActorShowsState(id: uint64)
      requires Valid() && Settled(history) && HasActor(id)
      ensures id in After(start, history).states
      ensures ShowsState(players[id].playerState, After(start, history).states[id])
    {
      hide After, Step, Settled;
      assert players[id].Mirrors(matchPlayerState[id]);
      ShowsStateIs(players[id].playerState, matchPlayerState[id]);
    }

    /** The counts of a player's present state, which are also those that its valid actor shows. */
    method GetMatchPlayerScore(id: int64) returns (found: bool, kills: int32, deaths: int32)
      requires Valid()
      ensures var states := After(start, history).states;
        if UInt64(id) in states
        then found && kills == Int32(states[UInt64(id)].kills) && deaths == Int32(states[UInt64(id)].deaths)
        else !found && kills == 0 && deaths == 0
      ensures Settled(history) && HasActor(UInt64(id)) ==>
        var p := players[UInt64(id)].playerState; found && p.kills == kills && p.deaths == deaths
    {
      kills, deaths := 0, 0;
      if UInt64(id) !in matchPlayerState { return false, kills, deaths; }
      var s := matchPlayerState[UInt64(id)];
      return true, Int32(s.kills), Int32(s.deaths);
    }

    // ---------------------------------------------------------------- whole runs

    /** The event with what its handling finds out about actors. */
    function Filled(e: Event): Event
      reads this, players.Values
    {
      match e
      case PlayerState(id, s, _) => PlayerState(id, s, HasActor(id))
      case Chat(sender, msg, _) => Chat(sender, msg, if HasActor(sender) then players[sender].nickname else "")
      case _ => e
    }

    method Handle(e: PacketEvent)
      requires Valid()
      modifies this`localAccountId, this`localObjectId, this`localNickname, this`currentRoom, this`matchId,
               this`remainSeconds, this`redScore, this`blueScore, this`matchPlayerInfo, this`matchPlayerState,
               this`players, this`myPlayer, this`broadcasts, this`history, players.Values
      ensures Valid() && history == old(history) + [old(Filled(e))]
      ensures players == if ClearsMatch(e) then map[] else old(players)
    {
      hide After, Step, Valid;
      match e {
        case Login(success, result, accountId, objectId, nickname) =>
          HandleLogin(success, result, accountId, objectId, nickname);
        case CreateRoom(success, room) => HandleCreateRoom(success, room);
        case EnterRoom(success, room) => HandleEnterRoom(success, room);
        case RoomState(room) => HandleRoomState(room);
        case LeaveRoom(success) => HandleLeaveRoom(success);
        case Prepare(m) => HandlePrepareMatch(m);
        case MatchStart(id) => HandleMatchStart(id);
        case MatchState(id, remaining, red, blue) => HandleMatchState(id, remaining, red, blue);
        case PlayerState(id, state, _) => HandlePlayerState(id, state);
        case MatchEnd(winner, red, blue, world) => HandleMatchEnd(winner, red, blue, world);
        case ReturnRoom(room) => HandleReturnRoom(room);
        case Chat(sender, msg, _) => HandleChat(sender, msg);
      }
    }

    /** The respawn packet: first the actor, then the state. */
    method Respawned(info: PlayerData, state: StateData)
      requires Valid()
      modifies this`matchPlayerState, this`broadcasts, this`history, players.Values
      ensures Valid() && history == old(history) + [PlayerState(info.objectId, state, old(HasActor(info.objectId)))]
      ensures Seen() == React(old(Seen()), Respawn(info, state))
      ensures old(socketOpen && sessionValid && HasActor(info.objectId)) ==>
        players[info.objectId].Back() && players[info.objectId].At(info.move)
    {
      hide After, Step, Settled, Distinct, Mirrored, Quiet, S1Player.Gone, S1Player.Back, S1Player.At;
      HandleRespawn(info);
      HandlePlayerState(info.objectId, state);
      Stepped(start, old(history), PlayerState(info.objectId, state, old(HasActor(info.objectId))));
    }

    method Received(e: PacketEvent)
      requires Valid()
      modifies this`localAccountId, this`localObjectId, this`localNickname, this`currentRoom, this`matchId,
               this`remainSeconds, this`redScore, this`blueScore, this`matchPlayerInfo, this`matchPlayerState,
               this`players, this`myPlayer, this`broadcasts, this`history, players.Values
      ensures Valid() && history == old(history) + [old(Filled(e))]
      ensures Seen() == React(old(Seen()), Packet(e))
      ensures forall a | a in players.Values :: a in old(players.Values)
    {
      hide After, Step, Settled, Distinct, Mirrored, Quiet;
      ghost var filled := Filled(e);
      Handle(e);
      Stepped(start, old(history), filled);
    }

    method Populated(pawn: S1Player?, engine: seq<bool>)
      requires Valid()
      modifies this`players, this`myPlayer, this`sent, this`history, pawn
      ensures Valid() && history == old(history) + [SpawnPlayers]
      ensures Seen() == React(old(Seen()), Spawn(pawn, engine))
      ensures sent == old(sent) + if socketOpen && sessionValid then [SentMatchPrepare] else []
      ensures forall a | a in players.Values :: a == pawn || fresh(a)
      ensures forall id | id in players && id != localObjectId :: players[id].valid
      ensures AllPlaced(|matchPlayerInfo|, pawn != null, engine)
    {
      hide After, Step, Settled, Distinct, Mirrored, Arriving, AllPlaced;
      PrepareMatch(pawn, engine);
    }

    /** The events that a command adds to the history. */
    function Recorded(c: Command): seq<Event>
      reads this, players.Values
    {
      match c
      case Packet(e) => [Filled(e)]
      case Spawn(_, _) => [SpawnPlayers]
      case Respawn(info, state) => [PlayerState(info.objectId, state, HasActor(info.objectId))]
      case _ => []
    }

    lemma {:induction false} RecordedIsTold(h: seq<Event>, c: Command)
      ensures ErasedAll(h + Recorded(c)) == ErasedAll(h) + Told(c)
    {
      var es := Recorded(c);
      if es == [] {
        assert h + es == h;
      } else {
        ErasedAppend(h, es[0]);
        assert es == [es[0]];
      }
    }

    /** One command: the events it adds, what becomes of the outline, and what becomes of the actor it is about. */
    method Execute(c: Command)
      requires Valid()
      modifies this, players.Values, Brings(c)
      ensures Valid() && history == old(history) + old(Recorded(c))
      ensures Seen() == React(old(Seen()), c)
      ensures forall a | a in players.Values :: a in old(players.Values) || a in Brings(c) || fresh(a)
      ensures c.Despawn? && old(socketOpen && sessionValid && c.world && HasActor(c.id)) ==>
        old(players[c.id]).Gone()
      ensures c.Respawn? && old(socketOpen && sessionValid && HasActor(c.info.objectId)) ==>
        old(players[c.info.objectId]).Back() && old(players[c.info.objectId]).At(c.info.move)
      ensures c.Spawn? ==> forall id | id in players && id != localObjectId :: players[id].valid
      ensures c.Spawn? ==> AllPlaced(|matchPlayerInfo|, c.pawn != null, c.engine)
      ensures c.Destroyed? ==> !c.actor.valid
      ensures c.Hit? && !old(CanHit(c.target)) ==> sent == old(sent)
      ensures c.Hit? && old(CanHit(c.target)) ==>
        forall id | id in players && players[id] == c.target :: sent == old(sent) + [SentHit(id)]
      ensures c.Spawn? ==> sent == old(sent) + if socketOpen && sessionValid then [SentMatchPrepare] else []
      ensures !c.Hit? && !c.Spawn? ==> sent == old(sent)
    {
      hide Valid, Step, Quiet, Arriving, AllPlaced, S1Player.Gone, S1Player.Back, S1Player.At;
      match c {
        case Packet(e) => Received(e);
        case Spawn(pawn, engine) => Populated(pawn, engine);
        case Despawn(id, world) => HandleDespawn(id, world);
        case Respawn(info, state) => Respawned(info, state);
        case Hit(target) => RequestHit(target);
        case Destroyed(actor) => ActorDestroyed(actor);
        case Connection(socket, session) => SetConnection(socket, session);
      }
    }

    /** Whatever happens, in whatever order: the fields stay a function of the history, no two players share an
        actor, every valid actor shows its player's state unless a match is just being prepared. The new events are,
        but for what was found out about actors, those the script tells of; they and the script decide the outline
        and whether the mirror has to hold. */
    method Run(script: seq<Command>)
      requires Valid()
      modifies this, players.Values, set i, a | 0 <= i < |script| && a in Brings(script[i]) :: a
      ensures Valid() && Distinct() && (Settled(history) ==> Mirrored()) && Now() == After(start, history)
      ensures old(history) <= history
      ensures ErasedAll(history) == ErasedAll(old(history)) + ToldAll(script)
      ensures Settled(history) == SettledAfter(old(Settled(history)), ToldAll(script))
      ensures Seen() == ReactAll(old(Seen()), script)
      ensures Quiet(Now()) == Quiet(After(old(Quiet(Now())), ToldAll(script)))
    {
      hide After, Step, Settled, Brings, React, Told, Recorded, ErasedAll;
      ghost var before := ErasedAll(history);
      assert before + [] == before;
      for i := 0 to |script|
        invariant Valid() && old(history) <= history
        invariant ErasedAll(history) == before + ToldAll(script[..i])
        invariant Seen() == ReactAll(old(Seen()), script[..i])
        invariant forall a | a in players.Values ::
          a in old(players.Values) || (exists k :: 0 <= k < |script| && a in Brings(script[k])) || fresh(a)
      {
        ghost var h := history;
        RecordedIsTold(h, script[i]);
        Execute(script[i]);
        assert script[..i + 1][..i] == script[..i];
        Associated(before, ToldAll(script[..i]), Told(script[i]));
      }
      assert script[..|script|] == script;
      SettledErased(history);
      SettledErased(old(history));
      SettledConcat(before, ToldAll(script));
      OutlineIsTold(old(Seen()), script);
    }
  }

  lemma {:induction false} Associated(a: seq<Event>, b: seq<Event>, c: seq<Event>)
    ensures (a + b) + c == a + (b + c)
  {}

  /** What one more event does to the outline's fields. */
  lemma {:induction false} Stepped(start: Core, h: seq<Event>, e: Event)
    ensures Quiet(After(start, h + [e])) == Quiet(Step(Quiet(After(start, h)), Erased(e)))
  {
    hide After, Step;
    AfterAppend(start, h, e);
    StepQuiet(After(start, h), e);
  }

  lemma {:induction false} Prepared(c: Core, m: MatchData)
    requires |m.infos| == |m.states|
    ensures Step(c, Prepare(m)).localId == c.localId && Step(c, Prepare(m)).roster == m.infos
    ensures m.states == [] ==> Step(c, Prepare(m)).states == map[]
  {}

  /** A connected client, logged in as player 7, that has received a match with this one player. */
  method Loaded() returns (g: GameInstance)
    ensures fresh(g) && g.Valid() && g.players == map[] && g.socketOpen && g.sessionValid && g.localObjectId == 7
    ensures |g.matchPlayerInfo| == 1 && g.matchPlayerInfo[0].player.objectId == 7
  {
    hide Step, After, Settled, Explains, KeepsMirror;
    g := new GameInstance(0, 0, 0, 0);
    g.SetConnection(true, true);
    g.HandleLogin(true, AUTH_RESULT_SUCCESS, 1, 7, "me");
    var entry := RosterItem(PlayerData(7, MoveData(0, 0, 0, 0, 0), "me"), 0, 0);
    var m := MatchData(1, 60, 0, 0, [entry], [StateData(100, 100, true, 0, 0)]);
    g.HandlePrepareMatch(m);
  }

  /** The same client with its player in the world. */
  method Joined() returns (g: GameInstance)
    ensures fresh(g) && g.Valid() && 7 in g.players && forall a | a in g.players.Values :: fresh(a)
  {
    hide Step, After, S1Player.Mirrors;
    g := Loaded();
    var pawn := new S1Player(MoveData(0, 0, 0, 0, 0), true);
    g.PrepareMatch(pawn, []);
    assert g.matchPlayerInfo[0].player.objectId == 7 && Offered(7, 7, true, true, Agrees([], 0));
    ArrivingIs(g.matchPlayerInfo, 7, true, true, [], 7);
  }

  /** Between a match packet and the spawning of its players the mirror can be broken: here the local player is
      still in the world although the new match does not list anybody. */
  method MirrorGap() returns (g: GameInstance)
    ensures fresh(g) && g.Valid() && !Settled(g.history) && !g.Mirrored()
  {
    hide Step, After;
    g := Joined();
    ghost var h := g.history;
    var m := MatchData(2, 60, 0, 0, [], []);
    g.HandlePrepareMatch(m);
    AfterAppend(g.start, h, Prepare(m));
    Prepared(After(g.start, h), m);
    assert g.matchPlayerState == map[];
    assert 7 in g.players.Keys;
  }
}
