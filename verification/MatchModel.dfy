/** What the client remembers about rooms and matches, as a function of the packets it has handled; and the
    declarative reading of that history. Actors are not part of it. */
module MatchModel {
  import opened Options
  import opened Wire

  type int64 = i: int | -0x8000_0000_0000_0000 <= i < 0x8000_0000_0000_0000

  /** static_cast between the signed and unsigned widths. */
  function Int32(u: uint32): int32 { if u < 0x8000_0000 then u else u - TWO32 }

  function Int64(u: uint64): int64 { if u < 0x8000_0000_0000_0000 then u else u - TWO64 }

  function UInt64(i: int64): uint64 { if i >= 0 then i else i + TWO64 }

  function UInt32(i: int32): uint32 { if i >= 0 then i else i + TWO32 }

  /** The casts keep the low bits, and keep every value that both types have. */
  lemma {:induction false} CastsKeepBits(u: uint32, w: uint64, i: int32, j: int64)
    ensures Int32(u) % TWO32 == u && (u < 0x8000_0000 ==> Int32(u) == u)
    ensures Int64(w) % TWO64 == w && (w < 0x8000_0000_0000_0000 ==> Int64(w) == w)
    ensures UInt32(i) == i % TWO32 && UInt64(j) == j % TWO64
    ensures UInt32(Int32(u)) == u && UInt64(Int64(w)) == w && Int32(UInt32(i)) == i && Int64(UInt64(j)) == j
  {}

  lemma {:induction false} Int64RoundTrip(u: uint64, w: uint64)
    ensures UInt64(Int64(u)) == u
    ensures UInt64(Int64(u)) == w <==> u == w
  {}

  // ------------------------------------------------------------------ packets and broadcasts

  datatype MoveData = MoveData(x: uint32, y: uint32, z: uint32, yaw: uint32, state: int32)

  datatype PlayerData = PlayerData(objectId: uint64, move: MoveData, nickname: string)

  datatype RosterItem = RosterItem(player: PlayerData, playerType: int32, team: int32)

  datatype StateData = StateData(hp: int32, maxHp: int32, isAlive: bool, kills: uint32, deaths: uint32)

  datatype MatchData = MatchData(matchId: uint64, duration: uint32, red: uint32, blue: uint32,
                                 infos: seq<RosterItem>, states: seq<StateData>)

  datatype RoomPlayerData = RoomPlayerData(objectId: uint64, nickname: string, ready: bool, team: int32)

  datatype RoomData = RoomData(roomId: uint64, name: string, host: uint64, maxPlayers: uint32,
                               players: seq<RoomPlayerData>)

  datatype RoomTeam = TeamNone | TeamRed | TeamBlue

  datatype RoomItem = RoomItem(objectId: int64, nickname: string, ready: bool, team: RoomTeam)

  datatype CurrentRoom = CurrentRoom(roomId: int64, name: string, playerCount: int, maxPlayers: int32, host: int64,
                                     players: seq<RoomItem>)

  const TEAM_RED: int32 := 1
  const TEAM_BLUE: int32 := 2

  function TeamOf(t: int32): RoomTeam {
    if t == TEAM_BLUE then TeamBlue else if t == TEAM_RED then TeamRed else TeamNone
  }

  /** Why a login failed, as the message says. BadReply is a successful reply without an account or player. */
  datatype LoginFailure = InvalidInput | InvalidCredentials | AlreadyConnected | ServerError | OtherFailure | BadReply

  const AUTH_RESULT_SUCCESS: int32 := 1
  const AUTH_RESULT_INVALID_INPUT: int32 := 2
  const AUTH_RESULT_DUPLICATE_LOGIN_ID: int32 := 3
  const AUTH_RESULT_INVALID_CREDENTIALS: int32 := 5
  const AUTH_RESULT_SERVER_ERROR: int32 := 6

  function FailureOf(result: int32): LoginFailure {
    if result == AUTH_RESULT_INVALID_INPUT then InvalidInput
    else if result == AUTH_RESULT_INVALID_CREDENTIALS then InvalidCredentials
    else if result == AUTH_RESULT_DUPLICATE_LOGIN_ID then AlreadyConnected
    else if result == AUTH_RESULT_SERVER_ERROR then ServerError
    else OtherFailure
  }

  /** Delegates that widgets listen to. */
  datatype Broadcast =
    | LoginFailed(reason: LoginFailure)
    | EnterRoomResult(ok: bool)
    | CreateRoomResult(ok: bool)
    | LeaveRoomResult(ok: bool)
    | RoomStateUpdated
    | MatchStarted
    | MatchStateUpdated
    | MatchEnded(winner: RoomTeam, red: int32, blue: int32)
    | ScoreUpdated(id: int64, kills: int32, deaths: int32)
    | ChatReceived(text: string)

  /** Packets handled, in the order of handling. SpawnPlayers is the call of PrepareMatch by the loaded level.
      What depends on actors is recorded with the event: whether a valid actor was found for a player state, its
      name for a chat message, and whether a world was there when the match ended. */
  datatype Event =
    | Login(success: bool, result: int32, accountId: uint64, objectId: uint64, nickname: string)
    | CreateRoom(success: bool, room: Option<RoomData>)
    | EnterRoom(success: bool, room: Option<RoomData>)
    | RoomState(room: Option<RoomData>)
    | LeaveRoom(success: bool)
    | Prepare(m: MatchData)
    | SpawnPlayers
    | MatchStart(matchId: uint64)
    | MatchState(matchId: uint64, remaining: uint32, red: uint32, blue: uint32)
    | PlayerState(id: uint64, state: StateData, actor: bool)
    | MatchEnd(winner: int32, red: uint32, blue: uint32, world: bool)
    | ReturnRoom(room: Option<RoomData>)
    | Chat(sender: uint64, msg: string, actorName: string)

  datatype Core = Core(
    accountId: uint64, localId: uint64, localName: string, room: CurrentRoom,
    matchId: uint64, remaining: uint32, red: uint32, blue: uint32,
    roster: seq<RosterItem>, states: map<uint64, StateData>,
    log: seq<Broadcast>)

  // ------------------------------------------------------------------ one event

  const NO_ROOM := CurrentRoom(0, "", 0, 0, 0, [])

  function RoomItems(ps: seq<RoomPlayerData>): (items: seq<RoomItem>)
    ensures |items| == |ps|
    ensures forall i | 0 <= i < |ps| ::
      items[i] == RoomItem(Int64(ps[i].objectId), ps[i].nickname, ps[i].ready, TeamOf(ps[i].team))
  {
    seq(|ps|, i requires 0 <= i < |ps| =>
      RoomItem(Int64(ps[i].objectId), ps[i].nickname, ps[i].ready, TeamOf(ps[i].team)))
  }

  /** UpdateCurrentRoom. */
  function RoomOf(r: RoomData): CurrentRoom {
    CurrentRoom(Int64(r.roomId), r.name, |r.players|, Int32(r.maxPlayers), Int64(r.host), RoomItems(r.players))
  }

  /** The states of a match packet by object id; a later entry for the same id wins. */
  function StatesOf(infos: seq<RosterItem>, states: seq<StateData>): map<uint64, StateData>
    requires |infos| == |states|
  {
    if infos == [] then map[]
    else StatesOf(infos[..|infos| - 1], states[..|states| - 1])
           [infos[|infos| - 1].player.objectId := states[|states| - 1]]
  }

  function ScoreOf(id: uint64, s: StateData): Broadcast { ScoreUpdated(Int64(id), Int32(s.kills), Int32(s.deaths)) }

  function Digits(n: nat): (s: string)
    ensures s != ""
  {
    if n < 10 then [['0', '1', '2', '3', '4', '5', '6', '7', '8', '9'][n]]
    else Digits(n / 10) + Digits(n % 10)
  }

  /** The first room entry with this sender, if any. */
  function RoomName(items: seq<RoomItem>, sender: uint64): string {
    if items == [] then ""
    else if UInt64(items[0].objectId) == sender then items[0].nickname
    else RoomName(items[1..], sender)
  }

  function ChatName(c: Core, sender: uint64, actorName: string): string {
    var local := if sender == c.localId then c.localName else "";
    var ingame := if local == "" then actorName else local;
    var lobby := if ingame == "" then RoomName(c.room.players, sender) else ingame;
    if lobby == "" then "Player_" + Digits(sender) else lobby
  }

  function Step(c: Core, e: Event): Core {
    match e
    case Login(success, result, accountId, objectId, nickname) =>
      if !success || result != AUTH_RESULT_SUCCESS then c.(log := c.log + [LoginFailed(FailureOf(result))])
      else if accountId == 0 || objectId == 0 then c.(log := c.log + [LoginFailed(BadReply)])
      else c.(accountId := accountId, localId := objectId, localName := nickname)
    case CreateRoom(success, room) =>
      if success && room.Some? then c.(room := RoomOf(room.value), log := c.log + [CreateRoomResult(true)])
      else c.(log := c.log + [CreateRoomResult(false)])
    case EnterRoom(success, room) =>
      if success && room.Some? then c.(room := RoomOf(room.value), log := c.log + [EnterRoomResult(true)])
      else c.(log := c.log + [EnterRoomResult(false)])
    case RoomState(room) =>
      if room.Some? then c.(room := RoomOf(room.value), log := c.log + [RoomStateUpdated]) else c
    case LeaveRoom(success) =>
      if success then c.(room := NO_ROOM, log := c.log + [LeaveRoomResult(true)]) else c
    case Prepare(m) =>
      var board := c.(matchId := m.matchId, remaining := m.duration, red := m.red, blue := m.blue);
      if |m.infos| != |m.states| then board.(roster := [], states := map[])
      else board.(roster := m.infos, states := StatesOf(m.infos, m.states))
    case SpawnPlayers => c
    case MatchStart(id) => if id == c.matchId then c.(log := c.log + [MatchStarted]) else c
    case MatchState(id, remaining, red, blue) =>
      if id == c.matchId then
        c.(remaining := remaining, red := red, blue := blue, log := c.log + [MatchStateUpdated])
      else c
    case PlayerState(id, s, actor) =>
      if id in c.states then
        c.(states := c.states[id := s], log := if actor then c.log + [ScoreOf(id, s)] else c.log)
      else c
    case MatchEnd(winner, red, blue, world) =>
      if world then
        c.(remaining := 0, red := red, blue := blue,
           log := c.log + [MatchStateUpdated, MatchEnded(TeamOf(winner), Int32(red), Int32(blue))])
      else c
    case ReturnRoom(room) =>
      if room.Some? then c.(room := RoomOf(room.value), roster := [], states := map[]) else c
    case Chat(sender, msg, actorName) =>
      c.(log := c.log + [ChatReceived(ChatName(c, sender, actorName) + ": " + msg)])
  }

  function After(start: Core, h: seq<Event>): Core {
    if h == [] then start else Step(After(start, h[..|h| - 1]), h[|h| - 1])
  }

  lemma {:induction false} AfterAppend(start: Core, h: seq<Event>, e: Event)
    ensures After(start, h + [e]) == Step(After(start, h), e)
  {
    assert (h + [e])[..|h|] == h;
  }

  lemma {:induction false} AfterSplit(start: Core, h: seq<Event>, k: nat)
    requires k <= |h|
    ensures After(start, h) == After(After(start, h[..k]), h[k..])
    decreases |h|
  {
    hide Step;
    if k == |h| {
      assert h[..k] == h;
    } else {
      var init := h[..|h| - 1];
      AfterSplit(start, init, k);
      assert init[..k] == h[..k];
      assert h[k..][..|h[k..]| - 1] == init[k..];
    }
  }

  /** A client that has just started. The match fields are not initialised: any values. */
  predicate Initial(c: Core) {
    && c.accountId == 0 && c.localId == 0 && c.localName == "" && c.room == NO_ROOM
    && c.roster == [] && c.states == map[] && c.log == []
  }

  // ------------------------------------------------------------------ what does not depend on actors

  /** The event without what its handling found out about actors. */
  function Erased(e: Event): (r: Event)
    ensures e.PlayerState? ==> r.PlayerState? && r.id == e.id && r.state == e.state
    ensures e.Chat? ==> r.Chat? && r.sender == e.sender && r.msg == e.msg
    ensures !e.PlayerState? && !e.Chat? ==> r == e
  {
    match e
    case PlayerState(id, s, _) => PlayerState(id, s, false)
    case Chat(sender, msg, _) => Chat(sender, msg, "")
    case _ => e
  }

  function Quiet(c: Core): Core { c.(log := []) }

  /** Apart from the broadcasts nothing depends on actors or on earlier broadcasts. */
  lemma {:induction false} StepQuiet(c: Core, e: Event)
    ensures Quiet(Step(c, e)) == Quiet(Step(Quiet(c), Erased(e)))
  {
    hide RoomOf, StatesOf, ChatName, ScoreOf, TeamOf, Int32, FailureOf;
  }

  // ------------------------------------------------------------------ login and match

  /** A login that the client takes over. */
  predicate Accepted(e: Event) {
    e.Login? && e.success && e.result == AUTH_RESULT_SUCCESS && e.accountId != 0 && e.objectId != 0
  }

  /** Account, player id and name are those of the last login that was taken over. */
  lemma {:induction false} LastLoginWins(start: Core, h: seq<Event>, k: nat)
    requires k < |h| && Accepted(h[k]) && forall j | k < j < |h| :: !Accepted(h[j])
    ensures var c := After(start, h);
      c.accountId == h[k].accountId && c.localId == h[k].objectId && c.localName == h[k].nickname
    decreases |h|
  {
    hide Step, Accepted;
    var init := h[..|h| - 1];
    LoginStep(After(start, init), h[|h| - 1]);
    if k < |h| - 1 {
      assert init[k] == h[k] && forall j | k < j < |init| :: init[j] == h[j];
      LastLoginWins(start, init, k);
    }
  }

  /** Before the first such login they are zero and empty. */
  lemma {:induction false} NoLoginYet(start: Core, h: seq<Event>)
    requires Initial(start) && forall j | 0 <= j < |h| :: !Accepted(h[j])
    ensures var c := After(start, h); c.accountId == 0 && c.localId == 0 && c.localName == ""
  {
    hide Step, Accepted;
    if h != [] {
      var init := h[..|h| - 1];
      assert forall j | 0 <= j < |init| :: init[j] == h[j];
      LoginStep(After(start, init), h[|h| - 1]);
      NoLoginYet(start, init);
    }
  }

  lemma {:induction false} LoginStep(c: Core, e: Event)
    ensures var d := Step(c, e);
      if Accepted(e) then d.accountId == e.accountId && d.localId == e.objectId && d.localName == e.nickname
      else (d.accountId, d.localId, d.localName) == (c.accountId, c.localId, c.localName)
  {
    hide RoomOf, StatesOf, ChatName, ScoreOf, TeamOf, Int32, FailureOf;
  }

  /** The reason that the message of a failed login gives. */
  predicate Explains(reason: LoginFailure, success: bool, result: int32) {
    && (reason == BadReply <==> success && result == AUTH_RESULT_SUCCESS)
    && (reason == InvalidInput <==> result == AUTH_RESULT_INVALID_INPUT)
    && (reason == AlreadyConnected <==> result == AUTH_RESULT_DUPLICATE_LOGIN_ID)
    && (reason == InvalidCredentials <==> result == AUTH_RESULT_INVALID_CREDENTIALS)
    && (reason == ServerError <==> result == AUTH_RESULT_SERVER_ERROR)
  }

  /** A login that is not taken over changes nothing, and its reason is broadcast. */
  lemma {:induction false} RefusedLogin(c: Core, e: Event)
    requires e.Login? && !Accepted(e)
    ensures exists reason ::
      Explains(reason, e.success, e.result) && Step(c, e) == c.(log := c.log + [LoginFailed(reason)])
  {
    var reason := if e.success && e.result == AUTH_RESULT_SUCCESS then BadReply else FailureOf(e.result);
    assert Explains(reason, e.success, e.result);
  }

  /** The present match is that of the last match packet, also after the return to a room. */
  lemma {:induction false} LastMatchWins(start: Core, h: seq<Event>, k: nat)
    requires k < |h| && h[k].Prepare? && forall j | k < j < |h| :: !h[j].Prepare?
    ensures After(start, h).matchId == h[k].m.matchId
    decreases |h|
  {
    hide Step;
    var init := h[..|h| - 1];
    MatchStep(After(start, init), h[|h| - 1]);
    if k < |h| - 1 {
      assert init[k] == h[k] && forall j | k < j < |init| :: init[j] == h[j];
      LastMatchWins(start, init, k);
    }
  }

  lemma {:induction false} MatchStep(c: Core, e: Event)
    ensures Step(c, e).matchId == if e.Prepare? then e.m.matchId else c.matchId
    ensures Step(c, e).roster
      == if e.Prepare? then (if |e.m.infos| == |e.m.states| then e.m.infos else [])
         else if Resets(e) then [] else c.roster
  {
    hide RoomOf, StatesOf, ChatName, ScoreOf, TeamOf, Int32, FailureOf;
  }

  /** The roster is that of the last event that replaced it: the list of a match packet, if its lists have the same
      length, and otherwise empty. */
  lemma {:induction false} LastRosterWins(start: Core, h: seq<Event>, k: nat)
    requires k < |h| && Resets(h[k]) && NoResets(h[k + 1..])
    ensures After(start, h).roster == if h[k].Prepare? && |h[k].m.infos| == |h[k].m.states| then h[k].m.infos else []
    decreases |h|
  {
    hide Step;
    var init := h[..|h| - 1];
    MatchStep(After(start, init), h[|h| - 1]);
    if k < |h| - 1 {
      assert h[|h| - 1] == h[k + 1..][|h| - k - 2];
      assert init[k + 1..] == h[k + 1..][..|h| - k - 2];
      LastRosterWins(start, init, k);
    }
  }

  // ------------------------------------------------------------------ broadcasts

  /** These broadcasts and no others announce event e to a client in state c. */
  predicate Announces(c: Core, e: Event, more: seq<Broadcast>) {
    match e
    case Login(success, result, _, _, _) =>
      if Accepted(e) then more == []
      else |more| == 1 && more[0].LoginFailed? && Explains(more[0].reason, success, result)
    case CreateRoom(success, room) => more == [CreateRoomResult(success && room.Some?)]
    case EnterRoom(success, room) => more == [EnterRoomResult(success && room.Some?)]
    case RoomState(room) => more == if room.Some? then [RoomStateUpdated] else []
    case LeaveRoom(success) => more == if success then [LeaveRoomResult(true)] else []
    case MatchStart(id) => more == if id == c.matchId then [MatchStarted] else []
    case MatchState(id, _, _, _) => more == if id == c.matchId then [MatchStateUpdated] else []
    case PlayerState(id, s, actor) =>
      if id in c.states && actor then |more| == 1 && ScoreIs(more[0], id, s) else more == []
    case MatchEnd(winner, red, blue, world) =>
      if world then |more| == 2 && more[0] == MatchStateUpdated && ResultIs(more[1], winner, red, blue) else more == []
    case Chat(sender, msg, actorName) => more == [ChatReceived(ChatName(c, sender, actorName) + ": " + msg)]
    case Prepare(_) => more == []
    case SpawnPlayers => more == []
    case ReturnRoom(_) => more == []
  }

  /** A score of this player with the counts of this state. */
  predicate ScoreIs(b: Broadcast, id: uint64, s: StateData) {
    b.ScoreUpdated? && UInt64(b.id) == id && UInt32(b.kills) == s.kills && UInt32(b.deaths) == s.deaths
  }

  predicate ResultIs(b: Broadcast, winner: int32, red: uint32, blue: uint32) {
    b.MatchEnded? && ShowsTeam(b.winner, winner) && UInt32(b.red) == red && UInt32(b.blue) == blue
  }

  /** Broadcasts are never taken back, and each event adds exactly those that announce it. */
  lemma {:induction false} StepAnnounces(c: Core, e: Event)
    ensures var log := Step(c, e).log; c.log <= log && Announces(c, e, log[|c.log|..])
  {
    hide RoomOf, StatesOf, ChatName;
    var log := Step(c, e).log;
    if e.PlayerState? && e.id in c.states && e.actor {
      assert log[|c.log|..] == [ScoreOf(e.id, e.state)];
    } else if e.Login? && !Accepted(e) {
      RefusedLogin(c, e);
    } else if e.MatchEnd? && e.world {
      assert log[|c.log|..] == [MatchStateUpdated, MatchEnded(TeamOf(e.winner), Int32(e.red), Int32(e.blue))];
    }
  }

  /** The broadcasts of a run up to event k are the beginning of its broadcasts, and those of event k come next. */
  lemma {:induction false} LogGrows(start: Core, h: seq<Event>, k: nat)
    requires k <= |h|
    ensures After(start, h[..k]).log <= After(start, h).log
    decreases |h|
  {
    hide Step;
    if k == |h| {
      assert h[..k] == h;
    } else {
      var init := h[..|h| - 1];
      LogGrows(start, init, k);
      assert init[..k] == h[..k];
      StepAnnounces(After(start, init), h[|h| - 1]);
    }
  }

  /** The value of a decimal numeral. */
  function Value(s: string): nat
    requires forall i | 0 <= i < |s| :: '0' <= s[i] <= '9'
  {
    if s == "" then 0 else 10 * Value(s[..|s| - 1]) + (s[|s| - 1] as int - '0' as int)
  }

  /** Digits writes the decimal numeral of n, without leading zeros. */
  lemma {:induction false} DigitsAre(n: nat)
    ensures forall i | 0 <= i < |Digits(n)| :: '0' <= Digits(n)[i] <= '9'
    ensures Value(Digits(n)) == n && (Digits(n)[0] == '0' ==> n == 0)
  {
    if n < 10 {
      var d := ['0', '1', '2', '3', '4', '5', '6', '7', '8', '9'][n];
      assert Digits(n) == [d] && d as int == '0' as int + n;
      assert [d][..0] == [];
    } else {
      DigitsAre(n / 10);
      DigitsAre(n % 10);
      var a, b := Digits(n / 10), Digits(n % 10);
      assert |b| == 1 && (a + b)[..|a|] == a;
      assert b[..0] == [];
    }
  }

  // ------------------------------------------------------------------ player states

  predicate InRoster(roster: seq<RosterItem>, id: uint64) {
    exists i :: 0 <= i < |roster| && roster[i].player.objectId == id
  }

  /** The last position that carries id. */
  predicate LastAt(infos: seq<RosterItem>, id: uint64, i: nat) {
    i < |infos| && infos[i].player.objectId == id && forall j | i < j < |infos| :: infos[j].player.objectId != id
  }

  lemma {:induction false} StatesOfRoster(infos: seq<RosterItem>, states: seq<StateData>, id: uint64)
    requires |infos| == |states|
    ensures id in StatesOf(infos, states) <==> InRoster(infos, id)
    ensures id in StatesOf(infos, states) ==>
      exists i: nat :: LastAt(infos, id, i) && StatesOf(infos, states)[id] == states[i]
  {
    if infos != [] {
      var n := |infos| - 1;
      StatesOfRoster(infos[..n], states[..n], id);
      if infos[n].player.objectId == id {
        assert LastAt(infos, id, n);
      } else {
        if InRoster(infos, id) {
          var i :| 0 <= i < |infos| && infos[i].player.objectId == id;
          assert infos[..n][i].player.objectId == id;
        }
        if InRoster(infos[..n], id) {
          var i: nat :| LastAt(infos[..n], id, i) && StatesOf(infos[..n], states[..n])[id] == states[..n][i];
          assert infos[i].player.objectId == id && LastAt(infos, id, i);
        }
      }
    }
  }

  /** In every run the ids with a state are exactly the ids of the roster. */
  lemma {:induction false} KeysAreRoster(start: Core, h: seq<Event>, id: uint64)
    requires Initial(start)
    ensures id in After(start, h).states <==> InRoster(After(start, h).roster, id)
  {
    hide RoomOf, ChatName, ScoreOf, TeamOf, Int32, FailureOf;
    if h != [] {
      var init, e := h[..|h| - 1], h[|h| - 1];
      KeysAreRoster(start, init, id);
      if e.Prepare? && |e.m.infos| == |e.m.states| {
        StatesOfRoster(e.m.infos, e.m.states, id);
      }
    }
  }

  /** Events that replace the roster. */
  predicate Resets(e: Event) { e.Prepare? || (e.ReturnRoom? && e.room.Some?) }

  predicate NoResets(h: seq<Event>) { forall j | 0 <= j < |h| :: !Resets(h[j]) }

  /** The state in the last state event for this player. */
  function LastState(h: seq<Event>, id: uint64): Option<StateData> {
    if h == [] then None
    else
      var e := h[|h| - 1];
      if e.PlayerState? && e.id == id then Some(e.state) else LastState(h[..|h| - 1], id)
  }

  lemma {:induction false} StatesBetweenResets(c: Core, h: seq<Event>, id: uint64)
    requires NoResets(h)
    ensures After(c, h).roster == c.roster
    ensures id in After(c, h).states <==> id in c.states
    ensures id in c.states ==>
      After(c, h).states[id] == if LastState(h, id).Some? then LastState(h, id).value else c.states[id]
  {
    hide RoomOf, StatesOf, ChatName, ScoreOf, TeamOf, Int32, FailureOf;
    if h != [] { StatesBetweenResets(c, h[..|h| - 1], id); }
  }

  /** The history behind a score. h[k] is the last event that replaced the roster. After a match packet whose two
      lists have the same length, the players with a state are those it lists, and the state of each is the one
      of the last state event since, or else the one at the last position with its id in the packet. After a
      match packet with lists of different lengths, and after the return to a room, nobody has a state. */
  lemma {:induction false} StateHistory(start: Core, h: seq<Event>, k: nat, id: uint64)
    requires k < |h| && Resets(h[k]) && NoResets(h[k + 1..])
    ensures var now := After(start, h).states;
      if h[k].Prepare? && |h[k].m.infos| == |h[k].m.states| then
        && (id in now <==> InRoster(h[k].m.infos, id))
        && (id in now && LastState(h[k + 1..], id).Some? ==> now[id] == LastState(h[k + 1..], id).value)
        && (id in now && LastState(h[k + 1..], id).None? ==>
             exists i: nat :: LastAt(h[k].m.infos, id, i) && now[id] == h[k].m.states[i])
      else id !in now
  {
    hide After;
    AfterSplit(start, h, k + 1);
    var c := After(start, h[..k]);
    assert h[..k + 1] == h[..k] + [h[k]];
    AfterAppend(start, h[..k], h[k]);
    StatesBetweenResets(Step(c, h[k]), h[k + 1..], id);
    if h[k].Prepare? && |h[k].m.infos| == |h[k].m.states| {
      StatesOfRoster(h[k].m.infos, h[k].m.states, id);
    }
  }

  /** Before the first match nobody has a state. */
  lemma {:induction false} NoMatchNoState(start: Core, h: seq<Event>, id: uint64)
    requires Initial(start) && NoResets(h)
    ensures id !in After(start, h).states
  {
    StatesBetweenResets(start, h, id);
  }

  // ------------------------------------------------------------------ time and scores

  /** An event that sets remaining time and team scores, when it arrives in state c. */
  predicate SetsBoard(c: Core, e: Event) {
    e.Prepare? || (e.MatchState? && e.matchId == c.matchId) || (e.MatchEnd? && e.world)
  }

  function BoardOf(e: Event): (uint32, uint32, uint32)
    requires e.Prepare? || e.MatchState? || e.MatchEnd?
  {
    match e
    case Prepare(m) => (m.duration, m.red, m.blue)
    case MatchState(_, remaining, red, blue) => (remaining, red, blue)
    case MatchEnd(_, red, blue, _) => (0, red, blue)
  }

  /** No event from position k on sets the board on its arrival. */
  predicate NoBoardFrom(start: Core, h: seq<Event>, k: nat) {
    forall j | k <= j < |h| :: !SetsBoard(After(start, h[..j]), h[j])
  }

  /** Remaining time and scores are always those of the last event that set them. */
  lemma {:induction false} LastBoardWins(start: Core, h: seq<Event>, k: nat)
    requires k < |h| && SetsBoard(After(start, h[..k]), h[k]) && NoBoardFrom(start, h, k + 1)
    ensures h[k].Prepare? || h[k].MatchState? || h[k].MatchEnd?
    ensures var c := After(start, h); (c.remaining, c.red, c.blue) == BoardOf(h[k])
    ensures match h[k]
      case Prepare(m) =>
        After(start, h).remaining == m.duration && After(start, h).red == m.red && After(start, h).blue == m.blue
      case MatchState(_, remaining, red, blue) =>
        After(start, h).remaining == remaining && After(start, h).red == red && After(start, h).blue == blue
      case MatchEnd(_, red, blue, _) =>
        After(start, h).remaining == 0 && After(start, h).red == red && After(start, h).blue == blue
      case _ => false
    decreases |h|
  {
    hide Step, SetsBoard;
    var init := h[..|h| - 1];
    assert forall j | 0 <= j < |h| :: init[..j] == h[..j];
    BoardStep(After(start, init), h[|h| - 1]);
    if k < |h| - 1 {
      assert !SetsBoard(After(start, h[..|h| - 1]), h[|h| - 1]);
      LastBoardWins(start, init, k);
    }
  }

  lemma {:induction false} BoardStep(c: Core, e: Event)
    ensures var d := Step(c, e);
      if SetsBoard(c, e) then (e.Prepare? || e.MatchState? || e.MatchEnd?) && (d.remaining, d.red, d.blue) == BoardOf(e)
      else (d.remaining, d.red, d.blue) == (c.remaining, c.red, c.blue)
    ensures SetsBoard(c, e) <==> e.Prepare? || (e.MatchState? && e.matchId == c.matchId) || (e.MatchEnd? && e.world)
  {}

  // ------------------------------------------------------------------ packets of another match

  /** A match start or match state that carries another match id than the present one. */
  predicate Stale(c: Core, e: Event) {
    (e.MatchStart? && e.matchId != c.matchId) || (e.MatchState? && e.matchId != c.matchId)
  }

  /** The run without the events that were stale on arrival. */
  function WithoutStale(start: Core, h: seq<Event>): seq<Event> {
    if h == [] then []
    else
      var init, e := h[..|h| - 1], h[|h| - 1];
      if Stale(After(start, init), e) then WithoutStale(start, init) else WithoutStale(start, init) + [e]
  }

  lemma {:induction false} StaleIsIgnored(c: Core, e: Event)
    requires Stale(c, e)
    ensures Step(c, e) == c
  {}

  /** Packets of another match leave no trace: the same state and the same broadcasts come from the run without
      them, which contains no stale event any more. */
  lemma {:induction false} StaleFiltered(start: Core, h: seq<Event>)
    ensures After(start, WithoutStale(start, h)) == After(start, h)
    ensures WithoutStale(start, WithoutStale(start, h)) == WithoutStale(start, h)
  {
    hide Step, Stale;
    if h != [] {
      var init, e := h[..|h| - 1], h[|h| - 1];
      StaleFiltered(start, init);
      var c, w := After(start, init), WithoutStale(start, init);
      if Stale(c, e) {
        StaleIsIgnored(c, e);
      } else {
        AfterAppend(start, w, e);
        assert (w + [e])[..|w|] == w;
      }
    }
  }

  // ------------------------------------------------------------------ rooms and chat

  /** In every run the room's player count is the length of its player list. */
  lemma {:induction false} RoomCount(start: Core, h: seq<Event>)
    requires Initial(start)
    ensures After(start, h).room.playerCount == |After(start, h).room.players|
  {
    hide StatesOf, ChatName, ScoreOf, TeamOf, Int32, FailureOf;
    if h != [] { RoomCount(start, h[..|h| - 1]); }
  }

  /** The team of the packet's constant. */
  predicate ShowsTeam(team: RoomTeam, t: int32) {
    (team == TeamRed <==> t == TEAM_RED) && (team == TeamBlue <==> t == TEAM_BLUE)
  }

  predicate ShowsItem(item: RoomItem, p: RoomPlayerData) {
    && UInt64(item.objectId) == p.objectId && item.nickname == p.nickname && item.ready == p.ready
    && ShowsTeam(item.team, p.team)
  }

  /** The current room has the contents of this room packet. */
  predicate ShowsRoom(c: Core, r: RoomData) {
    && UInt64(c.room.roomId) == r.roomId && c.room.name == r.name && UInt64(c.room.host) == r.host
    && UInt32(c.room.maxPlayers) == r.maxPlayers && c.room.playerCount == |r.players| == |c.room.players|
    && forall i | 0 <= i < |r.players| :: ShowsItem(c.room.players[i], r.players[i])
  }

  /** A room packet has just one room that shows it. */
  lemma {:induction false} ShowsRoomIs(c: Core, r: RoomData)
    ensures ShowsRoom(c, r) <==> c.room == RoomOf(r)
  {
    forall i | 0 <= i < |r.players| && i < |c.room.players|
      ensures ShowsItem(c.room.players[i], r.players[i]) <==> c.room.players[i] == RoomItems(r.players)[i]
    {
      ShowsItemIs(c.room.players[i], r.players[i]);
    }
    CastsBack(c.room.roomId, r.roomId);
    CastsBack(c.room.host, r.host);
    CastsKeepBits(r.maxPlayers, 0, c.room.maxPlayers, 0);
    if ShowsRoom(c, r) { assert c.room.players == RoomItems(r.players); }
  }

  lemma {:induction false} CastsBack(i: int64, w: uint64)
    ensures UInt64(i) == w <==> i == Int64(w)
  {}

  lemma {:induction false} ShowsItemIs(item: RoomItem, p: RoomPlayerData)
    ensures ShowsItem(item, p) <==> item == RoomItem(Int64(p.objectId), p.nickname, p.ready, TeamOf(p.team))
  {
    CastsBack(item.objectId, p.objectId);
  }

  const EMPTY_ROOM := RoomData(0, "", 0, 0, [])

  /** The event carries this room. */
  predicate Carries(e: Event, r: RoomData) {
    match e
    case CreateRoom(_, room) => room == Some(r)
    case EnterRoom(_, room) => room == Some(r)
    case RoomState(room) => room == Some(r)
    case ReturnRoom(room) => room == Some(r)
    case _ => false
  }

  predicate Arrived(h: seq<Event>, r: RoomData) { exists j :: 0 <= j < |h| && Carries(h[j], r) }

  /** In every run the current room is that of some packet of the run, or empty like the room of an empty packet. */
  lemma {:induction false} RoomAlwaysShown(start: Core, h: seq<Event>)
    requires Initial(start)
    ensures exists r :: ShowsRoom(After(start, h), r) && (r == EMPTY_ROOM || Arrived(h, r))
  {
    assert RoomItems([]) == [];
    assert RoomOf(EMPTY_ROOM) == NO_ROOM;
    if h == [] {
      assert ShowsRoom(After(start, h), EMPTY_ROOM);
    } else {
      hide Step, ShowsRoom, RoomOf;
      var init, e := h[..|h| - 1], h[|h| - 1];
      RoomAlwaysShown(start, init);
      var r :| ShowsRoom(After(start, init), r) && (r == EMPTY_ROOM || Arrived(init, r));
      if Arrived(init, r) {
        var j :| 0 <= j < |init| && Carries(init[j], r);
        assert Carries(h[j], r);
      }
      RoomStep(After(start, init), e, r);
      var q :| ShowsRoom(Step(After(start, init), e), q) && (q == r || q == EMPTY_ROOM || Carries(e, q));
      if Carries(e, q) { assert Carries(h[|h| - 1], q); }
      assert q == EMPTY_ROOM || Arrived(h, q);
      assert ShowsRoom(After(start, h), q);
    }
  }

  lemma {:induction false} RoomStep(c: Core, e: Event, r: RoomData)
    requires ShowsRoom(c, r) && RoomOf(EMPTY_ROOM) == NO_ROOM
    ensures exists q :: ShowsRoom(Step(c, e), q) && (q == r || q == EMPTY_ROOM || Carries(e, q))
  {
    hide RoomOf, StatesOf, ChatName, ScoreOf, TeamOf, Int32, FailureOf;
    hide ShowsRoom;
    var d := Step(c, e);
    SameRoomShown(c, d, r);
    if d.room == c.room {
      assert ShowsRoom(d, r);
    } else if e.LeaveRoom? {
      ShowsRoomIs(d, EMPTY_ROOM);
      assert ShowsRoom(d, EMPTY_ROOM);
    } else if e.CreateRoom? {
      ShowsRoomIs(d, e.room.value);
      assert ShowsRoom(d, e.room.value);
    } else if e.EnterRoom? {
      ShowsRoomIs(d, e.room.value);
      assert ShowsRoom(d, e.room.value);
    } else if e.RoomState? {
      ShowsRoomIs(d, e.room.value);
      assert ShowsRoom(d, e.room.value);
    } else {
      ShowsRoomIs(d, e.room.value);
      assert ShowsRoom(d, e.room.value);
    }
  }

  lemma {:induction false} SameRoomShown(c: Core, d: Core, r: RoomData)
    ensures c.room == d.room ==> (ShowsRoom(c, r) <==> ShowsRoom(d, r))
  {}

  /** An event that replaces the room: an answer that succeeds and brings a room, a room update and a return with a
      room, and a successful leave. */
  predicate SetsRoom(e: Event) {
    match e
    case CreateRoom(success, room) => success && room.Some?
    case EnterRoom(success, room) => success && room.Some?
    case RoomState(room) => room.Some?
    case ReturnRoom(room) => room.Some?
    case LeaveRoom(success) => success
    case _ => false
  }

  /** The current room is the one of the last event that replaced it, or empty if that was a leave. */
  lemma {:induction false} LastRoomWins(start: Core, h: seq<Event>, k: nat)
    requires k < |h| && SetsRoom(h[k]) && forall j | k < j < |h| :: !SetsRoom(h[j])
    ensures if h[k].LeaveRoom? then After(start, h).room == NO_ROOM
      else exists r :: Carries(h[k], r) && ShowsRoom(After(start, h), r)
    decreases |h|
  {
    hide Step, ShowsRoom, Carries, SetsRoom;
    var init, e := h[..|h| - 1], h[|h| - 1];
    RoomChange(After(start, init), e);
    if k < |h| - 1 {
      assert init[k] == h[k] && forall j | k < j < |init| :: init[j] == h[j];
      LastRoomWins(start, init, k);
      if !h[k].LeaveRoom? {
        var r :| Carries(h[k], r) && ShowsRoom(After(start, init), r);
        SameRoomShown(After(start, init), After(start, h), r);
      }
    }
  }

  lemma {:induction false} RoomChange(c: Core, e: Event)
    ensures !SetsRoom(e) ==> Step(c, e).room == c.room
    ensures SetsRoom(e) && e.LeaveRoom? ==> Step(c, e).room == NO_ROOM
    ensures SetsRoom(e) && !e.LeaveRoom? ==> exists r :: Carries(e, r) && ShowsRoom(Step(c, e), r)
  {
    hide RoomOf, StatesOf, ChatName, ScoreOf, TeamOf, Int32, FailureOf, ShowsRoom;
    if SetsRoom(e) && !e.LeaveRoom? {
      var room := match e
        case CreateRoom(_, room) => room
        case EnterRoom(_, room) => room
        case RoomState(room) => room
        case ReturnRoom(room) => room
        case _ => None;
      ShowsRoomIs(Step(c, e), room.value);
      assert Carries(e, room.value);
    }
  }

  predicate FirstEntry(ps: seq<RoomPlayerData>, sender: uint64, i: nat) {
    i < |ps| && ps[i].objectId == sender && forall j | 0 <= j < i :: ps[j].objectId != sender
  }

  /** The room name is found by the 64-bit id the server sent, although the client keeps ids signed. */
  lemma {:induction false} RoomNameIsFirst(ps: seq<RoomPlayerData>, sender: uint64)
    ensures forall i: nat | FirstEntry(ps, sender, i) :: RoomName(RoomItems(ps), sender) == ps[i].nickname
    ensures (forall i | 0 <= i < |ps| :: ps[i].objectId != sender) ==> RoomName(RoomItems(ps), sender) == ""
  {
    if ps != [] {
      Int64RoundTrip(ps[0].objectId, sender);
      RoomNameIsFirst(ps[1..], sender);
      assert RoomItems(ps)[1..] == RoomItems(ps[1..]);
      forall i: nat | FirstEntry(ps, sender, i) ensures RoomName(RoomItems(ps), sender) == ps[i].nickname {
        if i > 0 {
          assert ps[0].objectId != sender;
          assert FirstEntry(ps[1..], sender, i - 1) by {
            forall j | 0 <= j < i - 1 ensures ps[1..][j].objectId != sender { assert ps[1..][j] == ps[j + 1]; }
          }
        }
      }
      if forall i | 0 <= i < |ps| :: ps[i].objectId != sender {
        assert ps[0].objectId != sender;
        forall i | 0 <= i < |ps[1..]| ensures ps[1..][i].objectId != sender { assert ps[1..][i] == ps[i + 1]; }
      }
    }
  }

  /** A chat line's name is the first that is not empty: the local name if the sender is the local player, the
      name of the sender's valid actor, the name in the first matching room entry, and Player_ with the id. */
  lemma {:induction false} ChatNameOrder(c: Core, r: RoomData, sender: uint64, actorName: string, i: nat)
    requires ShowsRoom(c, r)
    ensures ChatName(c, sender, actorName) != ""
    ensures sender == c.localId && c.localName != "" ==> ChatName(c, sender, actorName) == c.localName
    ensures (sender != c.localId || c.localName == "") && actorName != "" ==>
      ChatName(c, sender, actorName) == actorName
    ensures (sender != c.localId || c.localName == "") && actorName == "" && FirstEntry(r.players, sender, i) ==>
      ChatName(c, sender, actorName)
        == if r.players[i].nickname != "" then r.players[i].nickname else "Player_" + Digits(sender)
    ensures (forall j | 0 <= j < |r.players| :: r.players[j].objectId != sender) ==>
      (sender != c.localId || c.localName == "") && actorName == "" ==>
      ChatName(c, sender, actorName) == "Player_" + Digits(sender)
  {
    hide ShowsRoom, RoomName, Digits;
    ShowsRoomIs(c, r);
    RoomNameIsFirst(r.players, sender);
  }
}
