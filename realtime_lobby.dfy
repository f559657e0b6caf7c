/** The live lobby view: the roster and status a client loads for a lobby and
    then keeps current from the store's change events. */
module RealtimeLobby {
  import opened Basics
  import opened Store

  const ChannelErrorMessage: string := "Tilkoblingsfeil. Prov a laste siden pa nytt."
  const SetupErrorMessage: string := "Kunne ikke koble til. Prov a laste siden pa nytt."

  /** What a handler reports to the screen's callbacks. */
  datatype Notification =
    | Quiet
    | StatusChanged(status: LobbyStatus)
    | PlayerJoined(player: Player)
    | PlayerUpdated(player: Player)
    | PlayerKicked(playerId: string)

  /** Every entry with the updated player's id replaced by the update. */
  function Replaced(players: seq<Player>, updated: Player): (r: seq<Player>)
    ensures |r| == |players|
    ensures forall i :: 0 <= i < |r| ==> r[i] == if players[i].id == updated.id then updated else players[i]
  {
    seq(|players|, i requires 0 <= i < |players| => if players[i].id == updated.id then updated else players[i])
  }

  /** Replacement keeps the order of the ids, adds nobody unknown, and is
      idempotent. */
  lemma ReplacedKeepsIds(players: seq<Player>, updated: Player)
    ensures forall i :: 0 <= i < |players| ==> Replaced(players, updated)[i].id == players[i].id
    ensures (forall i :: 0 <= i < |players| ==> players[i].id != updated.id) ==> Replaced(players, updated) == players
    ensures Replaced(Replaced(players, updated), updated) == Replaced(players, updated)
  {
  }

  /** Nobody listed is kicked. */
  predicate NoneKicked(players: seq<Player>) {
    forall i :: 0 <= i < |players| ==> !players[i].kicked
  }

  /** A loaded roster lists nobody kicked. */
  lemma RosterNoneKicked(s: seq<Player>, players: map<string, Player>, lobbyId: string)
    requires IsRoster(s, players, lobbyId)
    ensures NoneKicked(s)
  {
    forall i | 0 <= i < |s| ensures !s[i].kicked {
      assert s[i].id in RosterIds(players, lobbyId);
    }
  }

  class LobbyView {
    const lobbyId: string
    var players: seq<Player>
    var lobbyStatus: LobbyStatus
    var isConnected: bool
    var error: Option<string>

    /** The roster shows no kicked player. */
    predicate Valid()
      reads this
    {
      NoneKicked(players)
    }

    /** The state before anything is loaded. */
    constructor (lobbyId: string)
      ensures this.lobbyId == lobbyId
      ensures players == [] && lobbyStatus == Waiting && !isConnected && error.None?
      ensures Valid()
    {
      this.lobbyId := lobbyId;
      players := [];
      lobbyStatus := Waiting;
      isConnected := false;
      error := None;
    }

    /** The initial load, given the store's rows and whether each of its two
        queries fails. With no lobby id nothing is loaded. The roster is set
        before the status is read, so a failed status read leaves the roster
        loaded; a missing lobby row is a failed read. */
    method Setup(rows: map<string, Player>, lobbies: map<string, Lobby>, playersFail: bool, lobbyFails: bool)
      requires Valid() && KeysMatch(rows)
      modifies this
      ensures Valid()
      ensures isConnected == old(isConnected)
      ensures lobbyId == "" ==> players == old(players) && lobbyStatus == old(lobbyStatus) && error == old(error)
      ensures lobbyId != "" && playersFail ==>
                players == old(players) && lobbyStatus == old(lobbyStatus) && error == Some(SetupErrorMessage)
      ensures lobbyId != "" && !playersFail ==> IsRoster(players, rows, lobbyId)
      ensures lobbyId != "" && !playersFail && (lobbyFails || lobbyId !in lobbies) ==>
                lobbyStatus == old(lobbyStatus) && error == Some(SetupErrorMessage)
      ensures lobbyId != "" && !playersFail && !lobbyFails && lobbyId in lobbies ==>
                lobbyStatus == lobbies[lobbyId].status && error == old(error)
    {
      if lobbyId == "" {
        return;
      }
      if playersFail {
        error := Some(SetupErrorMessage);
        return;
      }
      var initialPlayers := SelectRoster(rows, lobbyId);
      RosterNoneKicked(initialPlayers, rows, lobbyId);
      players := initialPlayers;
      if lobbyFails || lobbyId !in lobbies {
        error := Some(SetupErrorMessage);
        return;
      }
      lobbyStatus := lobbies[lobbyId].status;
    }

    /** An update of the lobby row: the status follows it. */
    method OnLobbyUpdate(updated: Lobby) returns (n: Notification)
      requires Valid()
      modifies this
      ensures Valid()
      ensures lobbyStatus == updated.status && n == StatusChanged(updated.status)
      ensures players == old(players) && isConnected == old(isConnected) && error == old(error)
    {
      lobbyStatus := updated.status;
      n := StatusChanged(updated.status);
    }

    /** A player row inserted into the lobby: appended unless kicked, with no
        check for an entry already listed. */
    method OnPlayerInsert(inserted: Player) returns (n: Notification)
      requires Valid()
      modifies this
      ensures Valid()
      ensures !inserted.kicked ==> players == old(players) + [inserted] && n == PlayerJoined(inserted)
      ensures inserted.kicked ==> players == old(players) && n == Quiet
      ensures lobbyStatus == old(lobbyStatus) && isConnected == old(isConnected) && error == old(error)
    {
      if !inserted.kicked {
        players := players + [inserted];
        return PlayerJoined(inserted);
      }
      n := Quiet;
    }

    /** A player row of the lobby updated: a kicked player leaves the roster, any
        other update replaces the player's entries where they stand. */
    method OnPlayerUpdate(updated: Player) returns (n: Notification)
      requires Valid()
      modifies this
      ensures Valid()
      ensures updated.kicked ==> players == Without(old(players), updated.id) && n == PlayerKicked(updated.id)
      ensures !updated.kicked ==> players == Replaced(old(players), updated) && n == PlayerUpdated(updated)
      ensures lobbyStatus == old(lobbyStatus) && isConnected == old(isConnected) && error == old(error)
    {
      if updated.kicked {
        players := Without(players, updated.id);
        n := PlayerKicked(updated.id);
      } else {
        players := Replaced(players, updated);
        n := PlayerUpdated(updated);
      }
    }

    /** The channel's subscription status: connected exactly while subscribed;
        a channel error is reported (and stays reported). */
    method OnSubscribeStatus(status: string)
      requires Valid()
      modifies this
      ensures Valid()
      ensures isConnected <==> status == "SUBSCRIBED"
      ensures error == if status == "CHANNEL_ERROR" then Some(ChannelErrorMessage) else old(error)
      ensures players == old(players) && lobbyStatus == old(lobbyStatus)
    {
      isConnected := status == "SUBSCRIBED";
      if status == "CHANNEL_ERROR" {
        error := Some(ChannelErrorMessage);
      }
    }
  }

  /** A kicked player is gone from the roster after the update, whatever else
      it held; other players keep their places. */
  lemma KickRemovesEveryEntry(players: seq<Player>, updated: Player, other: Player)
    requires updated.kicked
    requires other in players && other.id != updated.id
    ensures forall i :: 0 <= i < |Without(players, updated.id)| ==> Without(players, updated.id)[i].id != updated.id
    ensures other in Without(players, updated.id)
  {
    WithoutKeeps(players, updated.id, other);
  }
}
