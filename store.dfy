/** The relational store behind the game: the `lobbies`, `players` and `answers`
    tables as maps keyed by their primary (or upsert) keys, and the queries the
    game runs against them. Times are milliseconds since the epoch. */
module Store {
  import opened Basics

  datatype LobbyStatus = Waiting | Playing | Paused | Finished

  /** The statuses under which a lobby's PIN is in use. */
  predicate IsActive(s: LobbyStatus) {
    s == Waiting || s == Playing || s == Paused
  }

  datatype Lobby = Lobby(
    id: string,
    pin: string,
    quizId: string,
    status: LobbyStatus,
    createdAt: int,
    startedAt: Option<int>,
    pausedAt: Option<int>,
    createdBy: Option<string>)

  datatype Player = Player(
    id: string,
    lobbyId: string,
    displayName: string,
    currentQuestion: int,
    finishedAt: Option<int>,
    joinedAt: int,
    kicked: bool,
    penaltyUntil: Option<int>)

  datatype Answer = Answer(
    playerId: string,
    questionIndex: int,
    answer: string,
    isCorrect: bool,
    answeredAt: int)

  /** The conflict key of the answers table: one answer per player and question. */
  type AnswerKey = (string, int)

  class Database {
    var lobbies: map<string, Lobby>
    var players: map<string, Player>
    var answers: map<AnswerKey, Answer>

    /** Every row is stored under its own key. */
    ghost predicate Valid()
      reads this
    {
      && (forall id :: id in lobbies ==> lobbies[id].id == id)
      && (forall id :: id in players ==> players[id].id == id)
      && (forall k :: k in answers ==> answers[k].playerId == k.0 && answers[k].questionIndex == k.1)
    }

    constructor ()
      ensures Valid()
      ensures lobbies == map[] && players == map[] && answers == map[]
    {
      lobbies, players, answers := map[], map[], map[];
    }

    /** Writes a lobby row under its id, inserting or replacing. */
    method PutLobby(l: Lobby)
      requires Valid()
      modifies this
      ensures Valid()
      ensures lobbies == old(lobbies)[l.id := l]
      ensures players == old(players) && answers == old(answers)
    {
      lobbies := lobbies[l.id := l];
    }

    /** Writes a player row under its id, inserting or replacing. */
    method PutPlayer(p: Player)
      requires Valid()
      modifies this
      ensures Valid()
      ensures players == old(players)[p.id := p]
      ensures lobbies == old(lobbies) && answers == old(answers)
    {
      players := players[p.id := p];
    }

    /** Writes an answer row under its (player, question) key, inserting or replacing. */
    method PutAnswer(a: Answer)
      requires Valid()
      modifies this
      ensures Valid()
      ensures answers == old(answers)[(a.playerId, a.questionIndex) := a]
      ensures lobbies == old(lobbies) && players == old(players)
    {
      answers := answers[(a.playerId, a.questionIndex) := a];
    }
  }

  ghost predicate KeysMatch(players: map<string, Player>) {
    forall id :: id in players ==> players[id].id == id
  }

  /** The lobbies a `pin` filter selects. */
  ghost function LobbiesWithPin(lobbies: map<string, Lobby>, pin: string): set<string> {
    set id | id in lobbies && lobbies[id].pin == pin
  }

  /** The lobbies a `pin` filter restricted to waiting, playing or paused selects. */
  ghost function ActiveLobbiesWithPin(lobbies: map<string, Lobby>, pin: string): set<string> {
    set id | id in lobbies && lobbies[id].pin == pin && IsActive(lobbies[id].status)
  }

  /** `select ... where pin = pin` followed by `.single()`: a row only when exactly
      one lobby carries the PIN, whatever its status; none when several do. */
  method LobbyByPin(lobbies: map<string, Lobby>, pin: string) returns (r: Option<Lobby>)
    ensures r.Some? <==> |LobbiesWithPin(lobbies, pin)| == 1
    ensures r.Some? ==> exists id :: LobbiesWithPin(lobbies, pin) == {id} && lobbies[id] == r.value
  {
    var ids := set id | id in lobbies.Keys && lobbies[id].pin == pin;
    assert ids == LobbiesWithPin(lobbies, pin);
    if |ids| == 1 {
      var id :| id in ids;
      assert ids == {id} by {
        assert |ids - {id}| == 0;
      }
      r := Some(lobbies[id]);
    } else {
      r := None;
    }
  }

  /** The PIN-collision query of lobby creation: `.single()` over the lobbies with
      the PIN that are waiting, playing or paused. */
  method ActiveLobbyByPin(lobbies: map<string, Lobby>, pin: string) returns (found: bool)
    ensures found <==> |ActiveLobbiesWithPin(lobbies, pin)| == 1
  {
    var ids := set id | id in lobbies.Keys && lobbies[id].pin == pin && IsActive(lobbies[id].status);
    assert ids == ActiveLobbiesWithPin(lobbies, pin);
    found := |ids| == 1;
  }

  /** A player listed in a lobby's roster: in the lobby and not kicked. */
  predicate OnRoster(p: Player, lobbyId: string) {
    p.lobbyId == lobbyId && !p.kicked
  }

  /** The ids of the players a lobby's roster lists. */
  ghost function RosterIds(players: map<string, Player>, lobbyId: string): set<string> {
    set id | id in players && OnRoster(players[id], lobbyId)
  }

  /** `s` lists the rows of `players` whose ids are `ids`, each exactly once. */
  ghost predicate ListsExactly(s: seq<Player>, players: map<string, Player>, ids: set<string>) {
    && (forall i :: 0 <= i < |s| ==> s[i].id in ids && s[i].id in players && players[s[i].id] == s[i])
    && (forall id :: id in ids ==> exists i :: 0 <= i < |s| && s[i].id == id)
    && (forall i, j :: 0 <= i < j < |s| ==> s[i].id != s[j].id)
  }

  ghost predicate SortedByJoin(s: seq<Player>) {
    forall i, j :: 0 <= i < j < |s| ==> s[i].joinedAt <= s[j].joinedAt
  }

  /** `s` is the result of selecting the lobby's players that are not kicked,
      ordered by `joined_at` ascending: each such player exactly once, nothing else. */
  ghost predicate IsRoster(s: seq<Player>, players: map<string, Player>, lobbyId: string) {
    ListsExactly(s, players, RosterIds(players, lobbyId)) && SortedByJoin(s)
  }

  /** Nobody listed in `s` joined after anyone in `rest`. */
  ghost predicate NoLaterThan(s: seq<Player>, players: map<string, Player>, rest: set<string>)
    requires rest <= players.Keys
  {
    forall i, o :: 0 <= i < |s| && o in rest ==> s[i].joinedAt <= players[o].joinedAt
  }

  lemma {:induction false} EarliestExists(players: map<string, Player>, ids: set<string>)
    requires ids != {} && ids <= players.Keys
    ensures exists id :: id in ids && forall o :: o in ids ==> players[id].joinedAt <= players[o].joinedAt
  {
    var x :| x in ids;
    if ids != {x} {
      EarliestExists(players, ids - {x});
      var m :| m in ids - {x} && forall o :: o in ids - {x} ==> players[m].joinedAt <= players[o].joinedAt;
      if players[x].joinedAt < players[m].joinedAt {
        assert forall o :: o in ids ==> players[x].joinedAt <= players[o].joinedAt;
      } else {
        assert forall o :: o in ids ==> players[m].joinedAt <= players[o].joinedAt;
      }
    }
  }

  /** Appending a player not listed yet keeps the list exact. */
  lemma AppendListsExactly(s: seq<Player>, players: map<string, Player>, done: set<string>, id: string)
    requires KeysMatch(players) && id in players && id !in done
    requires ListsExactly(s, players, done)
    ensures ListsExactly(s + [players[id]], players, done + {id})
  {
    var t := s + [players[id]];
    forall i | 0 <= i < |t| ensures t[i].id in done + {id} && t[i].id in players && players[t[i].id] == t[i] {
      if i == |s| {
        assert t[i] == players[id];
      } else {
        assert t[i] == s[i];
      }
    }
    forall o | o in done + {id} ensures exists i :: 0 <= i < |t| && t[i].id == o {
      if o == id {
        assert t[|s|].id == o;
      } else {
        var i :| 0 <= i < |s| && s[i].id == o;
        assert t[i].id == o;
      }
    }
    forall i, j | 0 <= i < j < |t| ensures t[i].id != t[j].id {
      assert t[i] == s[i];
      if j < |s| {
        assert t[j] == s[j];
      }
    }
  }

  /** Appending the earliest of the players still to be listed keeps the list sorted. */
  lemma AppendSorted(s: seq<Player>, players: map<string, Player>, rest: set<string>, id: string)
    requires rest <= players.Keys
    requires SortedByJoin(s) && NoLaterThan(s, players, rest)
    requires id in rest && forall o :: o in rest ==> players[id].joinedAt <= players[o].joinedAt
    ensures SortedByJoin(s + [players[id]])
    ensures NoLaterThan(s + [players[id]], players, rest - {id})
  {
    var t := s + [players[id]];
    forall i, j | 0 <= i < j < |t| ensures t[i].joinedAt <= t[j].joinedAt {
      assert t[i] == s[i];
      if j < |s| {
        assert t[j] == s[j];
      }
    }
    forall i, o | 0 <= i < |t| && o in rest - {id} ensures t[i].joinedAt <= players[o].joinedAt {
      if i < |s| {
        assert t[i] == s[i];
      }
    }
  }

  /** Appending the earliest of the players still to be listed keeps the list exact and sorted. */
  lemma AppendEarliest(s: seq<Player>, players: map<string, Player>, done: set<string>, rest: set<string>, id: string)
    requires KeysMatch(players) && rest <= players.Keys && done !! rest
    requires ListsExactly(s, players, done) && SortedByJoin(s) && NoLaterThan(s, players, rest)
    requires id in rest && forall o :: o in rest ==> players[id].joinedAt <= players[o].joinedAt
    ensures ListsExactly(s + [players[id]], players, done + {id})
    ensures SortedByJoin(s + [players[id]])
    ensures NoLaterThan(s + [players[id]], players, rest - {id})
  {
    AppendListsExactly(s, players, done, id);
    AppendSorted(s, players, rest, id);
  }

  /** The roster query: the lobby's players that are not kicked, by `joined_at`
      ascending (players who joined at the same instant come in no particular order). */
  method SelectRoster(players: map<string, Player>, lobbyId: string) returns (s: seq<Player>)
    requires KeysMatch(players)
    ensures IsRoster(s, players, lobbyId)
  {
    var remaining := set id | id in players.Keys && OnRoster(players[id], lobbyId);
    ghost var all := remaining;
    assert all == RosterIds(players, lobbyId);
    s := [];
    while remaining != {}
      invariant remaining <= all <= players.Keys
      invariant ListsExactly(s, players, all - remaining)
      invariant SortedByJoin(s)
      invariant NoLaterThan(s, players, remaining)
      decreases remaining
    {
      EarliestExists(players, remaining);
      var id :| id in remaining && forall o :: o in remaining ==> players[id].joinedAt <= players[o].joinedAt;
      AppendEarliest(s, players, all - remaining, remaining, id);
      assert all - (remaining - {id}) == (all - remaining) + {id};
      s := s + [players[id]];
      remaining := remaining - {id};
    }
    assert all - remaining == all;
  }

  // ---------------------------------------------------------------------------
  // Player lists held by the clients

  /** The players whose id is not `id`, in their order. */
  function Without(players: seq<Player>, id: string): (r: seq<Player>)
    ensures |r| <= |players|
    ensures forall i :: 0 <= i < |r| ==> r[i].id != id && r[i] in players
  {
    if players == [] then []
    else Without(players[..|players| - 1], id)
         + (if players[|players| - 1].id == id then [] else [players[|players| - 1]])
  }

  lemma {:induction false} WithoutAppend(s: seq<Player>, t: seq<Player>, id: string)
    ensures Without(s + t, id) == Without(s, id) + Without(t, id)
    decreases |t|
  {
    if t == [] {
      assert s + t == s;
    } else {
      assert (s + t)[..|s + t| - 1] == s + t[..|t| - 1];
      WithoutAppend(s, t[..|t| - 1], id);
    }
  }

  /** Removal is the identity on a list without the id. */
  lemma {:induction false} WithoutNothing(players: seq<Player>, id: string)
    requires forall i :: 0 <= i < |players| ==> players[i].id != id
    ensures Without(players, id) == players
    decreases |players|
  {
    if players != [] {
      WithoutNothing(players[..|players| - 1], id);
      assert players == players[..|players| - 1] + [players[|players| - 1]];
    }
  }

  /** Removing twice is removing once. */
  lemma WithoutIdempotent(players: seq<Player>, id: string)
    ensures Without(Without(players, id), id) == Without(players, id)
  {
    WithoutNothing(Without(players, id), id);
  }

  /** Removal keeps every player with another id. */
  lemma {:induction false} WithoutKeeps(players: seq<Player>, id: string, p: Player)
    requires p in players && p.id != id
    ensures p in Without(players, id)
    decreases |players|
  {
    var init, last := players[..|players| - 1], players[|players| - 1];
    assert players == init + [last];
    if p == last {
      assert Without(players, id) == Without(init, id) + [last];
    } else {
      assert p in init;
      WithoutKeeps(init, id, p);
    }
  }
}
