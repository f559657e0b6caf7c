/** The lobby server actions: PIN generation, lobby creation with its collision
    retries, the PIN lookups and the host's status changes. */
module LobbyActions {
  import opened Basics
  import opened Text
  import opened Store

  const QuizNotFound: string := "Quiz ikke funnet"
  const PinExhausted: string := "Kunne ikke generere unik PIN. Prov igjen."
  const CreateFailed: string := "Kunne ikke opprette lobby"
  const PinNotFound: string := "Lobby ikke funnet. Sjekk PIN-koden."
  const LobbyNotFound: string := "Lobby ikke funnet"
  const StatusFailed: string := "Kunne ikke oppdatere lobby-status"

  /** How many PINs lobby creation checks before giving up. */
  const MaxAttempts: nat := 10

  // ---------------------------------------------------------------------------
  // PINs

  /** A draw of `Math.random()`. */
  predicate IsDraw(r: real) {
    0.0 <= r < 1.0
  }

  /** `Math.floor(1000 + r * 9000)`. */
  function PinNumber(r: real): (n: nat)
    requires IsDraw(r)
    ensures 1000 <= n <= 9999
    ensures n as real <= 1000.0 + r * 9000.0 < n as real + 1.0
  {
    (1000.0 + r * 9000.0).Floor
  }

  /** `generatePin`: the decimal rendering of the number a draw selects. Every
      PIN is four decimal digits without a leading zero, and reads back as the
      number drawn. */
  function GeneratePin(r: real): (pin: string)
    requires IsDraw(r)
    ensures |pin| == 4
    ensures forall i :: 0 <= i < 4 ==> IsDigit(pin[i])
    ensures pin[0] != '0'
    ensures DecimalValue(pin) == PinNumber(r)
  {
    FourDigits(PinNumber(r));
    DecimalRoundTrip(PinNumber(r));
    NatToString(PinNumber(r))
  }

  /** Every number from 1000 to 9999 is the PIN of some draw. */
  lemma EveryPinReachable(n: nat)
    requires 1000 <= n <= 9999
    ensures exists r :: IsDraw(r) && PinNumber(r) == n
  {
    var r := (n - 1000) as real / 9000.0;
    assert 1000.0 + r * 9000.0 == n as real;
    assert IsDraw(r) && PinNumber(r) == n;
  }

  // ---------------------------------------------------------------------------
  // Creation

  /** The collision query reports a row: exactly one waiting, playing or paused
      lobby has the PIN (with several, `.single()` reports none). */
  ghost predicate PinTaken(lobbies: map<string, Lobby>, pin: string) {
    |ActiveLobbiesWithPin(lobbies, pin)| == 1
  }

  /** Draw `k` gives the first PIN the collision query lets through. */
  ghost predicate FirstFreeDraw(lobbies: map<string, Lobby>, draws: seq<real>, k: nat)
    requires forall i :: 0 <= i < |draws| ==> IsDraw(draws[i])
  {
    && k < |draws|
    && !PinTaken(lobbies, GeneratePin(draws[k]))
    && forall j :: 0 <= j < k ==> PinTaken(lobbies, GeneratePin(draws[j]))
  }

  /** The row a lobby insert creates: status waiting, created now, not started,
      not paused, no creator. */
  function NewLobby(id: string, pin: string, quizId: string, now: int): (l: Lobby)
    ensures l.id == id && l.pin == pin && l.quizId == quizId && l.createdAt == now
    ensures l.status == Waiting && l.startedAt.None? && l.pausedAt.None? && l.createdBy.None?
  {
    Lobby(id, pin, quizId, Waiting, now, None, None, None)
  }

  /** `createLobby(quizId)`. `quizFound` is whether the content store has the quiz;
      `draws` are the successive `Math.random()` results (the first PIN plus one
      per collision, at most 11); `newId` is the id the store assigns, `now` its
      clock, and `insertFails` whether it rejects the insert. `queryFails` says
      whether the collision query fails: its error is not looked at, so the
      failure reads as "PIN free" and the first PIN drawn is used unchecked. */
  method CreateLobby(db: Database, quizId: string, quizFound: bool, draws: seq<real>, newId: string, now: int,
                     queryFails: bool, insertFails: bool) returns (r: Result<Lobby>)
    requires db.Valid()
    requires |draws| == MaxAttempts + 1 && forall i :: 0 <= i < |draws| ==> IsDraw(draws[i])
    requires newId !in db.lobbies
    modifies db
    ensures db.Valid()
    ensures db.players == old(db.players) && db.answers == old(db.answers)
    ensures r.Err? ==> db.lobbies == old(db.lobbies)
    ensures !quizFound ==> r == Err(QuizNotFound)
    ensures quizFound && !queryFails && (forall j :: 0 <= j < MaxAttempts ==> PinTaken(old(db.lobbies), GeneratePin(draws[j]))) ==>
              r == Err(PinExhausted)
    ensures quizFound && insertFails && (queryFails || exists k :: 0 <= k < MaxAttempts && FirstFreeDraw(old(db.lobbies), draws, k)) ==>
              r == Err(CreateFailed)
    ensures quizFound && !insertFails && (queryFails || exists k :: 0 <= k < MaxAttempts && FirstFreeDraw(old(db.lobbies), draws, k)) ==>
              r.Ok?
    ensures r.Ok? && !queryFails ==>
              exists k :: 0 <= k < MaxAttempts && FirstFreeDraw(old(db.lobbies), draws, k)
                          && r.value == NewLobby(newId, GeneratePin(draws[k]), quizId, now)
    ensures r.Ok? && queryFails ==> r.value == NewLobby(newId, GeneratePin(draws[0]), quizId, now)
    ensures r.Ok? ==> db.lobbies == old(db.lobbies)[newId := r.value]
    // While the collision query works, at most one active lobby per PIN before
    // means at most one after.
    ensures r.Ok? && !queryFails && ActivePinsUnique(old(db.lobbies)) ==> ActivePinsUnique(db.lobbies)
  {
    if !quizFound {
      return Err(QuizNotFound);
    }
    var pin := GeneratePin(draws[0]);
    if queryFails {
      if insertFails {
        return Err(CreateFailed);
      }
      var lobby := NewLobby(newId, pin, quizId, now);
      db.PutLobby(lobby);
      return Ok(lobby);
    }
    var attempts := 0;
    while attempts < MaxAttempts
      invariant 0 <= attempts <= MaxAttempts
      invariant pin == GeneratePin(draws[attempts])
      invariant unchanged(db)
      invariant forall j :: 0 <= j < attempts ==> PinTaken(db.lobbies, GeneratePin(draws[j]))
      decreases MaxAttempts - attempts
    {
      var existing := ActiveLobbyByPin(db.lobbies, pin);
      if !existing {
        break;
      }
      pin := GeneratePin(draws[attempts + 1]);
      attempts := attempts + 1;
    }
    if attempts >= MaxAttempts {
      return Err(PinExhausted);
    }
    assert FirstFreeDraw(db.lobbies, draws, attempts);
    FirstFreeDrawUnique(db.lobbies, draws, attempts);
    if insertFails {
      return Err(CreateFailed);
    }
    var lobby := NewLobby(newId, pin, quizId, now);
    if ActivePinsUnique(db.lobbies) {
      InsertKeepsPinsUnique(db.lobbies, lobby);
    }
    db.PutLobby(lobby);
    r := Ok(lobby);
  }

  /** When the collision query fails, a PIN an active lobby already has is handed
      to the new lobby, and two active lobbies then share it. */
  lemma FailedQueryDuplicatesPin(lobbies: map<string, Lobby>, a: string, l: Lobby)
    requires a in lobbies && IsActive(lobbies[a].status)
    requires l.id !in lobbies && l.pin == lobbies[a].pin && l.status == Waiting
    ensures !ActivePinsUnique(lobbies[l.id := l])
  {
    var after := lobbies[l.id := l];
    assert a in after && l.id in after && a != l.id;
    assert IsActive(after[l.id].status) && after[a].pin == after[l.id].pin;
  }

  lemma FirstFreeDrawUnique(lobbies: map<string, Lobby>, draws: seq<real>, k: nat)
    requires forall i :: 0 <= i < |draws| ==> IsDraw(draws[i])
    requires FirstFreeDraw(lobbies, draws, k)
    ensures forall j :: 0 <= j < |draws| && FirstFreeDraw(lobbies, draws, j) ==> j == k
  {
  }

  /** No two waiting, playing or paused lobbies share a PIN. */
  ghost predicate ActivePinsUnique(lobbies: map<string, Lobby>) {
    forall a, b :: (a in lobbies && b in lobbies && IsActive(lobbies[a].status) && IsActive(lobbies[b].status)
                    && lobbies[a].pin == lobbies[b].pin) ==> a == b
  }

  /** Where PINs are unique among active lobbies, a PIN the collision query lets
      through belongs to no active lobby. */
  lemma FreePinIsUnused(lobbies: map<string, Lobby>, pin: string)
    requires ActivePinsUnique(lobbies) && !PinTaken(lobbies, pin)
    ensures ActiveLobbiesWithPin(lobbies, pin) == {}
  {
    AtMostOne(ActiveLobbiesWithPin(lobbies, pin));
  }

  lemma AtMostOne<T>(s: set<T>)
    requires forall x, y :: x in s && y in s ==> x == y
    ensures |s| <= 1
  {
    if s != {} {
      var x :| x in s;
      assert s == {x};
    }
  }

  /** Inserting an active lobby under a PIN the collision query let through keeps
      active PINs unique. */
  lemma InsertKeepsPinsUnique(lobbies: map<string, Lobby>, l: Lobby)
    requires ActivePinsUnique(lobbies) && !PinTaken(lobbies, l.pin) && l.id !in lobbies
    ensures ActivePinsUnique(lobbies[l.id := l])
  {
    FreePinIsUnused(lobbies, l.pin);
    forall y | y in lobbies && IsActive(lobbies[y].status) ensures lobbies[y].pin != l.pin {
      assert y !in ActiveLobbiesWithPin(lobbies, l.pin);
    }
  }

  /** The collision query misses a PIN that two active lobbies share: PINs are kept
      apart only as long as they already are. */
  lemma SharedPinLooksFree(lobbies: map<string, Lobby>, a: string, b: string)
    requires a in lobbies && b in lobbies && a != b
    requires lobbies[a].pin == lobbies[b].pin && IsActive(lobbies[a].status) && IsActive(lobbies[b].status)
    ensures !PinTaken(lobbies, lobbies[a].pin)
  {
    var s := ActiveLobbiesWithPin(lobbies, lobbies[a].pin);
    assert {a, b} <= s;
    assert |{a, b}| == 2;
    SubsetSize({a, b}, s);
  }

  lemma SubsetSize<T>(a: set<T>, b: set<T>)
    requires a <= b
    ensures |a| <= |b|
  {
    assert b == a + (b - a);
  }

  // ---------------------------------------------------------------------------
  // Lookups

  /** `getLobbyByPin(pin)`: the lobby when exactly one lobby, of any status,
      has the PIN and the query does not fail (`queryFails`); a failed query
      reads as an unknown PIN. */
  method GetLobbyByPin(db: Database, pin: string, queryFails: bool) returns (r: Result<Lobby>)
    ensures r.Ok? <==> !queryFails && |LobbiesWithPin(db.lobbies, pin)| == 1
    ensures r.Ok? ==> r.value.pin == pin && r.value in db.lobbies.Values
    ensures r.Err? ==> r.message == PinNotFound
  {
    if queryFails {
      return Err(PinNotFound);
    }
    var lobby := LobbyByPin(db.lobbies, pin);
    if lobby.None? {
      return Err(PinNotFound);
    }
    r := Ok(lobby.value);
  }

  /** A PIN left behind by a finished lobby and reused by a new one names two rows,
      so the lookup by PIN finds neither: the new lobby cannot be found by PIN. */
  lemma ReusedPinHidesLobby(lobbies: map<string, Lobby>, old_: string, new_: string)
    requires old_ in lobbies && new_ in lobbies && old_ != new_
    requires lobbies[old_].status == Finished && lobbies[new_].status == Waiting
    requires lobbies[old_].pin == lobbies[new_].pin
    ensures |LobbiesWithPin(lobbies, lobbies[new_].pin)| != 1
  {
    var s := LobbiesWithPin(lobbies, lobbies[new_].pin);
    assert {old_, new_} <= s;
    assert |{old_, new_}| == 2;
    SubsetSize({old_, new_}, s);
  }

  datatype LobbyWithPlayers = LobbyWithPlayers(lobby: Lobby, players: seq<Player>)

  /** `getLobbyWithPlayers(pin)`: the lobby found by PIN with its roster — the
      players of that lobby who are not kicked, in joining order. A failed lobby
      query (`lobbyFails`) reads as an unknown PIN. A failed roster query
      (`playersFail`) is not reported: the roster then reads as empty. */
  method GetLobbyWithPlayers(db: Database, pin: string, lobbyFails: bool, playersFail: bool)
    returns (r: Result<LobbyWithPlayers>)
    requires db.Valid()
    ensures r.Ok? <==> !lobbyFails && |LobbiesWithPin(db.lobbies, pin)| == 1
    ensures r.Ok? ==> r.value.lobby.pin == pin && r.value.lobby in db.lobbies.Values
    ensures r.Ok? && !playersFail ==> IsRoster(r.value.players, db.players, r.value.lobby.id)
    ensures r.Ok? && playersFail ==> r.value.players == []
    ensures r.Err? ==> r.message == LobbyNotFound
  {
    if lobbyFails {
      return Err(LobbyNotFound);
    }
    var lobby := LobbyByPin(db.lobbies, pin);
    if lobby.None? {
      return Err(LobbyNotFound);
    }
    if playersFail {
      return Ok(LobbyWithPlayers(lobby.value, []));
    }
    var players := SelectRoster(db.players, lobby.value.id);
    r := Ok(LobbyWithPlayers(lobby.value, players));
  }

  // ---------------------------------------------------------------------------
  // Status changes

  /** The row after `updateLobbyStatus(status)` at time `now`: starting stamps the
      start (again, on every start) and clears the pause; pausing stamps the
      pause; finishing clears the pause; waiting only sets the status. */
  function StatusUpdated(l: Lobby, status: LobbyStatus, now: int): (u: Lobby)
    ensures u.status == status
    ensures u.startedAt == if status == Playing then Some(now) else l.startedAt
    ensures u.pausedAt == match status
                          case Playing => None
                          case Paused => Some(now)
                          case Finished => None
                          case Waiting => l.pausedAt
    ensures u.(status := l.status, startedAt := l.startedAt, pausedAt := l.pausedAt) == l
  {
    match status
    case Playing => l.(status := status, startedAt := Some(now), pausedAt := None)
    case Paused => l.(status := status, pausedAt := Some(now))
    case Finished => l.(status := status, pausedAt := None)
    case Waiting => l.(status := status)
  }

  /** `updateLobbyStatus(lobbyId, status)`: every status can follow every other;
      an unknown id updates nothing and still succeeds. */
  method UpdateLobbyStatus(db: Database, lobbyId: string, status: LobbyStatus, now: int, updateFails: bool)
    returns (r: Outcome)
    requires db.Valid()
    modifies db
    ensures db.Valid()
    ensures db.players == old(db.players) && db.answers == old(db.answers)
    ensures updateFails ==> r == Failure(StatusFailed) && db.lobbies == old(db.lobbies)
    ensures !updateFails ==> r == Success
    ensures !updateFails && lobbyId in old(db.lobbies) ==>
              db.lobbies == old(db.lobbies)[lobbyId := StatusUpdated(old(db.lobbies)[lobbyId], status, now)]
    ensures !updateFails && lobbyId !in old(db.lobbies) ==> db.lobbies == old(db.lobbies)
  {
    if updateFails {
      return Failure(StatusFailed);
    }
    if lobbyId in db.lobbies {
      db.PutLobby(StatusUpdated(db.lobbies[lobbyId], status, now));
    }
    r := Success;
  }

  /** Starting a game that was paused keeps its pause cleared and moves its start
      to the time of resuming; pausing and resuming again keeps nothing of the
      first start. */
  lemma ResumeRestampsStart(l: Lobby, t1: int, t2: int)
    requires l.status == Playing && l.startedAt.Some?
    ensures var u := StatusUpdated(StatusUpdated(l, Paused, t1), Playing, t2);
            u.status == Playing && u.startedAt == Some(t2) && u.pausedAt.None?
  {
  }

  /** Setting the same status twice at the same time is setting it once. */
  lemma StatusUpdateIdempotent(l: Lobby, status: LobbyStatus, now: int)
    ensures StatusUpdated(StatusUpdated(l, status, now), status, now) == StatusUpdated(l, status, now)
  {
  }

  /** Nothing stops a finished lobby from being reopened. When a new lobby has
      reused its PIN, two active lobbies then share that PIN. */
  lemma ReopeningSharesPin(lobbies: map<string, Lobby>, old_: string, new_: string, now: int)
    requires old_ in lobbies && new_ in lobbies && old_ != new_
    requires lobbies[old_].status == Finished && lobbies[new_].status == Waiting
    requires lobbies[old_].pin == lobbies[new_].pin
    ensures var reopened := lobbies[old_ := StatusUpdated(lobbies[old_], Waiting, now)];
            && !ActivePinsUnique(reopened)
            && !PinTaken(reopened, lobbies[new_].pin)
  {
    var reopened := lobbies[old_ := StatusUpdated(lobbies[old_], Waiting, now)];
    SharedPinLooksFree(reopened, old_, new_);
  }
}
