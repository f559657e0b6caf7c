/** The player server actions: joining a lobby by PIN, the host's kick, and
    resolving the player a browser session belongs to. */
module PlayerActions {
  import opened Basics
  import opened Text
  import opened Store

  const PinNotFound: string := "Lobby ikke funnet. Sjekk PIN-koden."
  const AlreadyStarted: string := "Dette spillet har allerede startet."
  const NameMissing: string := "Du ma oppgi et navn."
  const NameTooLong: string := "Navnet kan ikke vaere lengre enn 20 tegn."
  const NameTaken: string := "Dette navnet er allerede tatt i denne lobbyen."
  const JoinFailed: string := "Kunne ikke bli med i lobbyen."
  const KickFailed: string := "Kunne ikke sparke spilleren."

  /** The store's error code for a unique-constraint violation. */
  const UniqueViolation: string := "23505"

  /** The longest display name, in UTF-16 code units. */
  const MaxNameLength: nat := 20

  /** The one lobby a PIN names, when it names exactly one. */
  ghost function PinLobby(lobbies: map<string, Lobby>, pin: string): (l: Lobby)
    requires |LobbiesWithPin(lobbies, pin)| == 1
    ensures l in lobbies.Values && l.pin == pin
  {
    var id :| id in LobbiesWithPin(lobbies, pin);
    lobbies[id]
  }

  /** What the name checks make of a display name: the trimmed name, or the
      message refusing it. */
  function CheckName(displayName: string): (r: Result<string>)
    ensures r.Ok? <==> Trim(displayName) != [] && Utf16Length(Trim(displayName)) <= MaxNameLength
    ensures r.Ok? ==> r.value == Trim(displayName)
    ensures r.Err? && Trim(displayName) == [] ==> r.message == NameMissing
    ensures r.Err? && Trim(displayName) != [] ==> r.message == NameTooLong
  {
    var trimmedName := Trim(displayName);
    if trimmedName == [] then Err(NameMissing)
    else if Utf16Length(trimmedName) > MaxNameLength then Err(NameTooLong)
    else Ok(trimmedName)
  }

  /** An accepted name has 1 to 20 characters, no white space at either end, and
      is its own trimmed form; white space around a name never changes the outcome. */
  lemma AcceptedNameShape(displayName: string, w1: string, w2: string)
    requires CheckName(displayName).Ok?
    requires AllWhiteSpace(w1) && AllWhiteSpace(w2)
    ensures var name := CheckName(displayName).value;
            && 1 <= |name| <= MaxNameLength && Trimmed(name)
            && CheckName(name) == CheckName(displayName)
            && CheckName(w1 + displayName + w2) == CheckName(displayName)
  {
    TrimIdempotent(displayName);
    TrimIgnoresPadding(w1, displayName, w2);
  }

  /** The row a player insert creates: at the first question, not finished,
      joined now, not kicked, no penalty. */
  function NewPlayer(id: string, lobbyId: string, displayName: string, now: int): (p: Player)
    ensures p.id == id && p.lobbyId == lobbyId && p.displayName == displayName && p.joinedAt == now
    ensures p.currentQuestion == 0 && p.finishedAt.None? && !p.kicked && p.penaltyUntil.None?
  {
    Player(id, lobbyId, displayName, 0, None, now, false, None)
  }

  /** `joinLobby(pin, displayName)`. `newId` and `now` are the id and the time the
      store gives the new row; `insertError` is the error code of a rejected
      insert (the store reports `23505` when the lobby already has the name).
      `lobbyFails` says whether the lobby query fails; that reads as an unknown PIN. */
  method JoinLobby(db: Database, pin: string, displayName: string, newId: string, now: int,
                   lobbyFails: bool, insertError: Option<string>) returns (r: Result<Player>)
    requires db.Valid()
    requires newId !in db.players
    modifies db
    ensures db.Valid()
    ensures db.lobbies == old(db.lobbies) && db.answers == old(db.answers)
    ensures r.Err? ==> db.players == old(db.players)
    ensures lobbyFails || |LobbiesWithPin(old(db.lobbies), pin)| != 1 ==> r == Err(PinNotFound)
    ensures !lobbyFails && |LobbiesWithPin(old(db.lobbies), pin)| == 1 ==>
              var lobby := PinLobby(old(db.lobbies), pin);
              && (lobby.status != Waiting ==> r == Err(AlreadyStarted))
              && (lobby.status == Waiting && CheckName(displayName).Err? ==> r == Err(CheckName(displayName).message))
              && (lobby.status == Waiting && CheckName(displayName).Ok? ==>
                    && (insertError == Some(UniqueViolation) ==> r == Err(NameTaken))
                    && (insertError.Some? && insertError != Some(UniqueViolation) ==> r == Err(JoinFailed))
                    && (insertError.None? ==>
                          && r == Ok(NewPlayer(newId, lobby.id, CheckName(displayName).value, now))
                          && db.players == old(db.players)[newId := r.value]))
  {
    if lobbyFails {
      return Err(PinNotFound);
    }
    var lobby := LobbyByPin(db.lobbies, pin);
    if lobby.None? {
      return Err(PinNotFound);
    }
    ghost var id :| LobbiesWithPin(db.lobbies, pin) == {id} && db.lobbies[id] == lobby.value;
    assert PinLobby(db.lobbies, pin) == lobby.value;
    if lobby.value.status != Waiting {
      return Err(AlreadyStarted);
    }
    var name := CheckName(displayName);
    if name.Err? {
      return Err(name.message);
    }
    if insertError.Some? {
      if insertError.value == UniqueViolation {
        return Err(NameTaken);
      }
      return Err(JoinFailed);
    }
    var player := NewPlayer(newId, lobby.value.id, name.value, now);
    db.PutPlayer(player);
    r := Ok(player);
  }

  /** A player joins only a lobby that is waiting, under an accepted name. */
  lemma JoinedPlayerIsFresh(p: Player, lobby: Lobby, displayName: string, newId: string, now: int)
    requires CheckName(displayName).Ok? && lobby.status == Waiting
    requires p == NewPlayer(newId, lobby.id, CheckName(displayName).value, now)
    ensures OnRoster(p, lobby.id)
    ensures 1 <= |p.displayName| <= MaxNameLength
  {
  }

  /** The player after the host's kick. */
  function Kicked(p: Player): (k: Player)
    ensures k.kicked && k.(kicked := p.kicked) == p
  {
    p.(kicked := true)
  }

  /** Kicking is idempotent and takes the player off every roster. */
  lemma KickIdempotent(p: Player, lobbyId: string)
    ensures Kicked(Kicked(p)) == Kicked(p)
    ensures !OnRoster(Kicked(p), lobbyId)
  {
  }

  /** `kickPlayer(playerId)`: only the player's kicked flag changes; an unknown id
      changes nothing and still succeeds. */
  method KickPlayer(db: Database, playerId: string, updateFails: bool) returns (r: Outcome)
    requires db.Valid()
    modifies db
    ensures db.Valid()
    ensures db.lobbies == old(db.lobbies) && db.answers == old(db.answers)
    ensures updateFails ==> r == Failure(KickFailed) && db.players == old(db.players)
    ensures !updateFails ==> r == Success
    ensures !updateFails && playerId in old(db.players) ==>
              db.players == old(db.players)[playerId := Kicked(old(db.players)[playerId])]
    ensures !updateFails && playerId !in old(db.players) ==> db.players == old(db.players)
  {
    if updateFails {
      return Failure(KickFailed);
    }
    if playerId in db.players {
      db.PutPlayer(Kicked(db.players[playerId]));
    }
    r := Success;
  }

  /** What `getCurrentPlayer` reports: no session, a session it discards (with
      `kicked` set when the player was kicked), or the player with its lobby and
      the PIN the session remembers. */
  datatype CurrentPlayer =
    | NoSession
    | Discarded(kicked: bool)
    | Present(player: Player, lobby: Option<Lobby>, lobbyPin: Option<string>)

  /** `getCurrentPlayer`, given the player id and lobby PIN its session cookies
      hold. A discarded session is one whose cookies are deleted. `playerFails`
      says whether the player query fails: that reads as an unknown player, so
      a live session is discarded. `lobbyFails` says whether the lobby query
      fails: that reads as a missing lobby. */
  function GetCurrentPlayer(players: map<string, Player>, lobbies: map<string, Lobby>,
                            playerCookie: Option<string>, pinCookie: Option<string>,
                            playerFails: bool, lobbyFails: bool): (r: CurrentPlayer)
    ensures r.NoSession? <==> playerCookie.None? || playerCookie.value == ""
    ensures r.Discarded? <==> playerCookie.Some? && playerCookie.value != ""
                              && (playerFails || playerCookie.value !in players || players[playerCookie.value].kicked)
    ensures r.Discarded? ==> (r.kicked <==> !playerFails && playerCookie.value in players)
    ensures r.Present? ==> && playerCookie.Some? && !playerFails && playerCookie.value in players
                           && r.player == players[playerCookie.value] && !r.player.kicked
                           && (r.lobby.Some? <==> !lobbyFails && r.player.lobbyId in lobbies)
                           && (r.lobby.Some? ==> r.lobby.value == lobbies[r.player.lobbyId])
                           && r.lobbyPin == pinCookie
  {
    if playerCookie.None? || playerCookie.value == "" then NoSession
    else if playerFails || playerCookie.value !in players then Discarded(false)
    else
      var player := players[playerCookie.value];
      if player.kicked then Discarded(true)
      else
        var lobby := if !lobbyFails && player.lobbyId in lobbies then Some(lobbies[player.lobbyId]) else None;
        Present(player, lobby, pinCookie)
  }

  /** Once kicked, a player's session is refused for good: whatever else changes
      in the store, the next resolution whose player query succeeds discards it. */
  lemma KickedSessionRefused(players: map<string, Player>, lobbies: map<string, Lobby>, id: string,
                             pinCookie: Option<string>, lobbyFails: bool)
    requires id != "" && id in players
    ensures GetCurrentPlayer(players[id := Kicked(players[id])], lobbies, Some(id), pinCookie, false, lobbyFails) == Discarded(true)
  {
  }

  /** A failed player query ends the session of a player who is present and not
      kicked: the session's cookies are deleted as if the player were unknown. */
  lemma FailedQueryEndsLiveSession(players: map<string, Player>, lobbies: map<string, Lobby>, id: string,
                                   pinCookie: Option<string>, lobbyFails: bool)
    requires id != "" && id in players && !players[id].kicked
    ensures GetCurrentPlayer(players, lobbies, Some(id), pinCookie, false, lobbyFails).Present?
    ensures GetCurrentPlayer(players, lobbies, Some(id), pinCookie, true, lobbyFails) == Discarded(false)
  {
  }
}
