/** The client-side game state: the reducer that the game screens dispatch to,
    and the values derived from the state. */
module GameContext {
  import opened Basics
  import opened Content
  import opened Store
  import QuizSchema

  datatype GameState = GameState(
    lobby: Option<Lobby>,
    players: seq<Player>,
    currentPlayer: Option<Player>,
    quiz: Option<Quiz>)

  /** A partial player row: each present field overrides the player's. */
  datatype PlayerPatch = PlayerPatch(
    id: Option<string>,
    lobbyId: Option<string>,
    displayName: Option<string>,
    currentQuestion: Option<int>,
    finishedAt: Option<Option<int>>,
    joinedAt: Option<int>,
    kicked: Option<bool>,
    penaltyUntil: Option<Option<int>>)

  datatype Action =
    | SetLobby(lobby: Lobby)
    | SetQuiz(quiz: Quiz)
    | SetPlayer(player: Player)
    | UpdatePlayer(patch: PlayerPatch)
    | SetPlayers(players: seq<Player>)
    | AddPlayer(player: Player)
    | RemovePlayer(playerId: string)
    | UpdateLobbyStatus(status: LobbyStatus)
    | Reset
    | Unknown(kind: string)

  function InitialState(): GameState {
    GameState(None, [], None, None)
  }

  /** `{ ...p, ...patch }`. */
  function Merge(p: Player, patch: PlayerPatch): (m: Player)
    ensures m.id == patch.id.GetOr(p.id) && m.lobbyId == patch.lobbyId.GetOr(p.lobbyId)
    ensures m.displayName == patch.displayName.GetOr(p.displayName)
    ensures m.currentQuestion == patch.currentQuestion.GetOr(p.currentQuestion)
    ensures m.finishedAt == patch.finishedAt.GetOr(p.finishedAt) && m.joinedAt == patch.joinedAt.GetOr(p.joinedAt)
    ensures m.kicked == patch.kicked.GetOr(p.kicked) && m.penaltyUntil == patch.penaltyUntil.GetOr(p.penaltyUntil)
  {
    Player(patch.id.GetOr(p.id), patch.lobbyId.GetOr(p.lobbyId), patch.displayName.GetOr(p.displayName),
           patch.currentQuestion.GetOr(p.currentQuestion), patch.finishedAt.GetOr(p.finishedAt),
           patch.joinedAt.GetOr(p.joinedAt), patch.kicked.GetOr(p.kicked), patch.penaltyUntil.GetOr(p.penaltyUntil))
  }

  const EmptyPatch: PlayerPatch := PlayerPatch(None, None, None, None, None, None, None, None)

  /** Merging nothing changes nothing, and merging the same patch twice is merging it once. */
  lemma MergeLaws(p: Player, patch: PlayerPatch)
    ensures Merge(p, EmptyPatch) == p
    ensures Merge(Merge(p, patch), patch) == Merge(p, patch)
  {
  }

  /** `gameReducer(state, action)`: each action touches only its own part of
      the state. */
  function Reduce(state: GameState, action: Action): (r: GameState)
    ensures r.lobby != state.lobby ==> action.SetLobby? || action.UpdateLobbyStatus? || action.Reset?
    ensures r.quiz != state.quiz ==> action.SetQuiz? || action.Reset?
    ensures r.currentPlayer != state.currentPlayer ==> action.SetPlayer? || action.UpdatePlayer? || action.Reset?
    ensures r.players != state.players ==> action.SetPlayers? || action.AddPlayer? || action.RemovePlayer? || action.Reset?
    // The setters replace their field with the payload.
    ensures action.SetLobby? ==> r == state.(lobby := Some(action.lobby))
    ensures action.SetQuiz? ==> r == state.(quiz := Some(action.quiz))
    ensures action.SetPlayer? ==> r == state.(currentPlayer := Some(action.player))
    ensures action.SetPlayers? ==> r == state.(players := action.players)
    // Removal keeps exactly the players with another id, in their order.
    ensures action.RemovePlayer? ==> r == state.(players := Without(state.players, action.playerId))
  {
    match action
    case SetLobby(l) => state.(lobby := Some(l))
    case SetQuiz(q) => state.(quiz := Some(q))
    case SetPlayer(p) => state.(currentPlayer := Some(p))
    case UpdatePlayer(patch) =>
      state.(currentPlayer := if state.currentPlayer.Some? then Some(Merge(state.currentPlayer.value, patch)) else None)
    case SetPlayers(ps) => state.(players := ps)
    case AddPlayer(p) => state.(players := state.players + [p])
    case RemovePlayer(id) => state.(players := Without(state.players, id))
    case UpdateLobbyStatus(s) =>
      state.(lobby := if state.lobby.Some? then Some(state.lobby.value.(status := s)) else None)
    case Reset => InitialState()
    case Unknown(_) => state
  }

  /** A merge needs a player to merge into, and a status change a lobby: without
      one they stay absent. The status change touches nothing but the status. */
  lemma UpdatesNeedTarget(state: GameState, patch: PlayerPatch, s: LobbyStatus)
    ensures state.currentPlayer.None? ==> Reduce(state, UpdatePlayer(patch)).currentPlayer.None?
    ensures state.currentPlayer.Some? ==> Reduce(state, UpdatePlayer(patch)).currentPlayer == Some(Merge(state.currentPlayer.value, patch))
    ensures state.lobby.None? ==> Reduce(state, UpdateLobbyStatus(s)).lobby.None?
    ensures state.lobby.Some? ==> Reduce(state, UpdateLobbyStatus(s)).lobby.value.(status := state.lobby.value.status) == state.lobby.value
                                  && Reduce(state, UpdateLobbyStatus(s)).lobby.value.status == s
  {
  }

  /** Adding appends without checking for duplicates; removing drops every
      player with the id. */
  lemma AddThenRemove(state: GameState, p: Player)
    ensures |Reduce(state, AddPlayer(p)).players| == |state.players| + 1
    ensures Reduce(state, AddPlayer(p)).players[|state.players|] == p
    ensures Reduce(state, AddPlayer(p)).players[..|state.players|] == state.players
    ensures Reduce(Reduce(state, AddPlayer(p)), RemovePlayer(p.id)).players == Without(state.players, p.id)
  {
    var s := state.players;
    WithoutAppend(s, [p], p.id);
    assert Without([p], p.id) == [] by {
      assert [p][..0] == [];
    }
  }

  /** Reset and an unknown action. */
  lemma ResetAndUnknown(state: GameState, kind: string)
    ensures Reduce(state, Reset) == InitialState()
    ensures Reduce(state, Unknown(kind)) == state
    ensures Reduce(InitialState(), Reset) == InitialState()
  {
  }

  // ---------------------------------------------------------------------------
  // Derived values

  /** The quiz, if any, carries its question list (reading the count of a quiz
      without one raises a TypeError). */
  predicate QuizLoaded(state: GameState) {
    state.quiz.Some? ==> state.quiz.value.questions.Some?
  }

  /** A quiz the editor can publish always carries its question list, and every
      action keeps a loaded state loaded as long as the quizzes it sets are
      publishable ones. */
  lemma PublishedQuizStaysLoaded(state: GameState, action: Action)
    requires QuizLoaded(state)
    requires action.SetQuiz? ==> QuizSchema.QuizValid(action.quiz)
    ensures QuizLoaded(Reduce(state, action))
  {
    if action.SetQuiz? {
      assert QuizSchema.QuestionsRule(action.quiz.questions).Valid?;
    }
  }

  function TotalQuestions(state: GameState): (n: nat)
    requires QuizLoaded(state)
    ensures state.quiz.None? ==> n == 0
    ensures state.quiz.Some? ==> n == |state.quiz.value.questions.value|
  {
    if state.quiz.Some? then |state.quiz.value.questions.value| else 0
  }

  function CurrentQuestionIndex(state: GameState): (i: int)
    ensures state.currentPlayer.None? ==> i == 0
    ensures state.currentPlayer.Some? ==> i == state.currentPlayer.value.currentQuestion
  {
    if state.currentPlayer.Some? then state.currentPlayer.value.currentQuestion else 0
  }

  /** The question the player is on, when the quiz has one at that index. */
  function CurrentQuestion(state: GameState): (q: Option<Question>)
    requires QuizLoaded(state)
    ensures q.Some? <==> state.quiz.Some? && 0 <= CurrentQuestionIndex(state) < TotalQuestions(state)
    ensures q.Some? ==> q.value == state.quiz.value.questions.value[CurrentQuestionIndex(state)]
  {
    var i := CurrentQuestionIndex(state);
    if state.quiz.Some? && 0 <= i < TotalQuestions(state) then Some(state.quiz.value.questions.value[i]) else None
  }

  /** `finished_at !== null` of the current player: true also when there is no
      current player. */
  function IsFinished(state: GameState): (b: bool)
    ensures b <==> state.currentPlayer.None? || state.currentPlayer.value.finishedAt.Some?
  {
    match state.currentPlayer
    case None => true
    case Some(p) => p.finishedAt.Some?
  }

  /** The progress in percent. */
  function Progress(state: GameState): (pct: real)
    requires QuizLoaded(state)
    ensures TotalQuestions(state) == 0 ==> pct == 0.0
    ensures 0 <= CurrentQuestionIndex(state) <= TotalQuestions(state) ==> 0.0 <= pct <= 100.0
  {
    var total := TotalQuestions(state);
    if total > 0 then (CurrentQuestionIndex(state) as real / total as real) * 100.0 else 0.0
  }

  /** A player who has answered the last question is past the end: no current
      question, and the progress is complete. */
  lemma PastTheEnd(state: GameState)
    requires QuizLoaded(state) && state.quiz.Some? && state.currentPlayer.Some?
    requires TotalQuestions(state) > 0 && CurrentQuestionIndex(state) == TotalQuestions(state)
    ensures CurrentQuestion(state).None?
    ensures Progress(state) == 100.0
  {
  }

  /** Before anything is loaded the screen counts as finished. */
  lemma InitialStateLooksFinished()
    ensures IsFinished(InitialState())
    ensures TotalQuestions(InitialState()) == 0 && CurrentQuestion(InitialState()).None?
  {
  }
}
