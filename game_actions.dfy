/** The answer server actions: judging a submitted answer, the per-answer
    transaction (upsert of the answer, then progress or penalty for the player),
    clearing a penalty and reading a player's progress. */
module GameActions {
  import opened Basics
  import opened Text
  import opened Content
  import opened Store
  import QuizSchema
  import QuestionSchema
  import AnswerOptionSchema

  datatype AnswerResult = AnswerResult(
    correct: bool,
    finished: Option<bool>,
    penaltySeconds: Option<real>,
    error: Option<string>)

  const InvalidQuestion: string := "Ugyldig sporsmal"
  const AlreadyAnswered: string := "Du har allerede svart riktig pa dette sporsmalet"
  const SubmitFailed: string := "Kunne ikke sende inn svaret"
  const ProgressUnavailable: string := "Kunne ikke hente spillerdata"
  const ClearFailed: string := "Kunne ikke fjerne straff"

  // ---------------------------------------------------------------------------
  // The verdict

  /** The option's normalised text equals the normalised submission. */
  predicate OptionMatches(o: AnswerOption, target: string) {
    o.text.Some? && Normalize(o.text.value) == target
  }

  /** The search passes over the option without deciding. */
  predicate OptionPasses(o: AnswerOption, target: string) {
    o.text.Some? && Normalize(o.text.value) != target
  }

  /** What the search callback compares of each option: its normalised text, or
      nothing for an option without text (where the callback raises a TypeError). */
  function SearchKeys(options: seq<AnswerOption>): (keys: seq<Option<string>>)
    ensures |keys| == |options|
    ensures forall j :: 0 <= j < |options| ==>
              keys[j] == if options[j].text.Some? then Some(Normalize(options[j].text.value)) else None
  {
    seq(|options|, j requires 0 <= j < |options| =>
      if options[j].text.Some? then Some(Normalize(options[j].text.value)) else None)
  }

  /** The outcome of `options.find(...)`: the first matching option, none, or the
      TypeError an option without text raises before a match is found. */
  datatype Lookup = Match(index: nat) | NoMatch | Throws

  /** The search from position `i` over the options' keys. */
  function FindFrom(keys: seq<Option<string>>, target: string, i: nat): (r: Lookup)
    requires i <= |keys|
    ensures r.Match? ==> i <= r.index < |keys| && keys[r.index] == Some(target)
                         && forall j :: i <= j < r.index ==> keys[j].Some? && keys[j] != Some(target)
    ensures r.NoMatch? ==> forall j :: i <= j < |keys| ==> keys[j].Some? && keys[j] != Some(target)
    ensures r.Throws? ==> exists k :: i <= k < |keys| && keys[k].None?
    decreases |keys| - i
  {
    if i == |keys| then NoMatch
    else if keys[i].None? then Throws
    else if keys[i].value == target then Match(i)
    else FindFrom(keys, target, i + 1)
  }

  function FindOption(options: seq<AnswerOption>, target: string): Lookup {
    FindFrom(SearchKeys(options), target, 0)
  }

  /** The verdict can be computed without a TypeError. */
  predicate VerdictDefined(q: Question, answer: string) {
    q.questionType == Some(QuestionSchema.Radio) && q.options.Some? ==> !FindOption(q.options.value, Normalize(answer)).Throws?
  }

  /** Whether `answer` is correct for `q`. A text question compares normalised
      strings; a radio question is decided by the first option whose normalised
      text equals the normalised answer; anything else is incorrect. */
  function Verdict(q: Question, answer: string): (correct: bool)
    requires VerdictDefined(q, answer)
    // A correct answer is the text question's correct answer up to case and
    // surrounding white space, or names a radio option marked correct.
    ensures correct ==>
              || (q.questionType == Some(QuestionSchema.TextAnswer) && Truthy(q.correctAnswer)
                  && Normalize(q.correctAnswer.value) == Normalize(answer))
              || (q.questionType == Some(QuestionSchema.Radio) && q.options.Some?
                  && exists i :: 0 <= i < |q.options.value| && OptionMatches(q.options.value[i], Normalize(answer))
                                 && AnswerOptionSchema.MarkedCorrect(q.options.value[i]))
  {
    var playerAnswer := Normalize(answer);
    if q.questionType == Some(QuestionSchema.TextAnswer) && Truthy(q.correctAnswer) then
      Normalize(q.correctAnswer.value) == playerAnswer
    else if q.questionType == Some(QuestionSchema.Radio) && q.options.Some? then
      match FindOption(q.options.value, playerAnswer)
      case Match(i) =>
        MatchIsOption(q.options.value, playerAnswer, i);
        AnswerOptionSchema.MarkedCorrect(q.options.value[i])
      case _ => false
    else false
  }

  /** The option the search returns has the target as its normalised text. */
  lemma MatchIsOption(options: seq<AnswerOption>, target: string, i: nat)
    requires FindOption(options, target) == Match(i)
    ensures i < |options| && OptionMatches(options[i], target)
  {
    var keys := SearchKeys(options);
    assert keys[i] == Some(target);
  }

  /** A text question accepts exactly the answers equal to its correct answer up
      to case and surrounding white space; without a correct answer it accepts nothing. */
  lemma TextVerdict(q: Question, answer: string)
    requires q.questionType == Some(QuestionSchema.TextAnswer)
    ensures VerdictDefined(q, answer)
    ensures Verdict(q, answer) <==> Truthy(q.correctAnswer) && Normalize(answer) == Normalize(q.correctAnswer.value)
  {
  }

  /** A text question accepts its own correct answer, padded with white space and
      in any case. */
  lemma TextAnswerAccepted(q: Question, w1: string, w2: string)
    requires q.questionType == Some(QuestionSchema.TextAnswer) && Truthy(q.correctAnswer)
    requires AllWhiteSpace(w1) && AllWhiteSpace(w2)
    ensures VerdictDefined(q, w1 + ToLower(q.correctAnswer.value) + w2)
    ensures Verdict(q, w1 + ToLower(q.correctAnswer.value) + w2)
  {
    NormalizeIgnoresPadding(w1, ToLower(q.correctAnswer.value), w2);
    NormalizeIgnoresCase(q.correctAnswer.value);
  }

  /** A radio question is decided by the first option whose normalised text equals
      the normalised answer: the answer is correct iff that option is marked correct. */
  lemma RadioFirstMatchDecides(q: Question, answer: string, i: nat)
    requires q.questionType == Some(QuestionSchema.Radio) && q.options.Some?
    requires i < |q.options.value| && OptionMatches(q.options.value[i], Normalize(answer))
    requires forall j :: 0 <= j < i ==> OptionPasses(q.options.value[j], Normalize(answer))
    ensures VerdictDefined(q, answer)
    ensures Verdict(q, answer) <==> AnswerOptionSchema.MarkedCorrect(q.options.value[i])
  {
    var target := Normalize(answer);
    var keys := KeysBeforeMatch(q.options.value, target, i);
    FirstLookupIsMatch(keys, target, i, 0);
    assert FindOption(q.options.value, target) == Match(i);
    assert !(q.questionType == Some(QuestionSchema.TextAnswer));
  }

  /** The keys of the options before the first match are present and differ
      from the target, and the match's key is the target. */
  lemma KeysBeforeMatch(options: seq<AnswerOption>, target: string, i: nat) returns (keys: seq<Option<string>>)
    requires i < |options| && OptionMatches(options[i], target)
    requires forall j :: 0 <= j < i ==> OptionPasses(options[j], target)
    ensures keys == SearchKeys(options)
    ensures keys[i] == Some(target)
    ensures forall j :: 0 <= j < i ==> keys[j].Some? && keys[j] != Some(target)
  {
    keys := SearchKeys(options);
    forall j | 0 <= j < i ensures keys[j].Some? && keys[j] != Some(target) {
      assert OptionPasses(options[j], target);
    }
  }

  lemma {:induction false} FirstLookupIsMatch(keys: seq<Option<string>>, target: string, i: nat, from: nat)
    requires from <= i < |keys| && keys[i] == Some(target)
    requires forall j :: from <= j < i ==> keys[j].Some? && keys[j] != Some(target)
    ensures FindFrom(keys, target, from) == Match(i)
    decreases i - from
  {
    if from < i {
      FirstLookupIsMatch(keys, target, i, from + 1);
    }
  }

  /** A radio answer that matches no option is incorrect, never an error. */
  lemma RadioNoMatch(q: Question, answer: string)
    requires q.questionType == Some(QuestionSchema.Radio) && q.options.Some?
    requires forall j :: 0 <= j < |q.options.value| ==> OptionPasses(q.options.value[j], Normalize(answer))
    ensures VerdictDefined(q, answer) && !Verdict(q, answer)
  {
    var target := Normalize(answer);
    var keys := SearchKeys(q.options.value);
    forall j | 0 <= j < |keys| ensures keys[j].Some? && keys[j] != Some(target) {
      assert OptionPasses(q.options.value[j], target);
    }
    NoLookupMatch(keys, target, 0);
  }

  lemma {:induction false} NoLookupMatch(keys: seq<Option<string>>, target: string, from: nat)
    requires from <= |keys|
    requires forall j :: from <= j < |keys| ==> keys[j].Some? && keys[j] != Some(target)
    ensures FindFrom(keys, target, from) == NoMatch
    decreases |keys| - from
  {
    if from < |keys| {
      NoLookupMatch(keys, target, from + 1);
    }
  }

  /** A question that is neither a text question with a correct answer nor a radio
      question with options accepts nothing. */
  lemma OtherQuestionsRejectEverything(q: Question, answer: string)
    requires !(q.questionType == Some(QuestionSchema.TextAnswer) && Truthy(q.correctAnswer))
    requires !(q.questionType == Some(QuestionSchema.Radio) && q.options.Some?)
    ensures VerdictDefined(q, answer) && !Verdict(q, answer)
  {
  }

  /** When no two options share a normalised text, picking option `i` is correct
      exactly when option `i` is marked correct. */
  lemma PickedOptionVerdict(q: Question, i: nat)
    requires q.questionType == Some(QuestionSchema.Radio) && q.options.Some?
    requires i < |q.options.value| && q.options.value[i].text.Some?
    requires forall j :: 0 <= j < |q.options.value| ==> q.options.value[j].text.Some?
    requires forall j :: 0 <= j < |q.options.value| && j != i ==>
               Normalize(q.options.value[j].text.value) != Normalize(q.options.value[i].text.value)
    ensures VerdictDefined(q, q.options.value[i].text.value)
    ensures Verdict(q, q.options.value[i].text.value) <==> AnswerOptionSchema.MarkedCorrect(q.options.value[i])
  {
    RadioFirstMatchDecides(q, q.options.value[i].text.value, i);
  }

  /** A radio question whose options differ only in case: a wrong 'Oslo' listed
      before a correct 'oslo'. */
  const ShadowingQuestion: Question :=
    Question(Some("Hovedstad?"), Some(QuestionSchema.Radio), None,
             Some([AnswerOption(Some("Oslo"), Some(false)), AnswerOption(Some("oslo"), Some(true))]), None)

  /** The editor accepts such a question. */
  lemma ShadowingQuestionIsValid()
    ensures QuestionSchema.QuestionValid(ShadowingQuestion)
    ensures AnswerOptionSchema.MarkedCorrect(ShadowingQuestion.options.value[1])
  {
  }

  lemma OsloNormalForm()
    ensures Normalize("Oslo") == "oslo" && Normalize("oslo") == "oslo"
  {
    assert ToLower("Oslo") == "oslo";
    assert ToLower("oslo") == "oslo";
    assert "oslo" == [] + "oslo" + [];
    TrimUnique("oslo", [], "oslo", []);
  }

  /** The first match decides even against a later correct option: the answer
      'oslo' to that question is judged incorrect. */
  lemma DuplicateOptionShadowsCorrectOne()
    ensures VerdictDefined(ShadowingQuestion, "oslo") && !Verdict(ShadowingQuestion, "oslo")
  {
    OsloNormalForm();
    RadioFirstMatchDecides(ShadowingQuestion, "oslo", 0);
  }

  // ---------------------------------------------------------------------------
  // Content the transaction can read without a TypeError

  /** The question a request names, if the quiz has one at that index. */
  function QuestionAt(quiz: Option<Quiz>, questionIndex: int): (r: Option<Question>)
    requires quiz.Some? ==> quiz.value.questions.Some?
    ensures r.Some? <==> quiz.Some? && 0 <= questionIndex < |quiz.value.questions.value|
  {
    if quiz.Some? && 0 <= questionIndex < |quiz.value.questions.value| then Some(quiz.value.questions.value[questionIndex])
    else None
  }

  /** What the transaction needs of the content to run to completion: a question
      list, and for the named question a verdict that raises no TypeError. */
  predicate SubmitDefined(quiz: Option<Quiz>, questionIndex: int, answer: string) {
    quiz.Some? ==>
      && quiz.value.questions.Some?
      && (0 <= questionIndex < |quiz.value.questions.value| ==> VerdictDefined(quiz.value.questions.value[questionIndex], answer))
  }

  /** Content the editor can publish always meets that need. */
  lemma ValidQuizIsJudgeable(quiz: Quiz, questionIndex: int, answer: string)
    requires QuizSchema.QuizValid(quiz)
    ensures SubmitDefined(Some(quiz), questionIndex, answer)
  {
    if 0 <= questionIndex < |quiz.questions.value| {
      var q := quiz.questions.value[questionIndex];
      assert QuestionSchema.QuestionValid(q);
      if q.questionType == Some(QuestionSchema.Radio) && q.options.Some? {
        var opts := q.options.value;
        forall k | 0 <= k < |opts| ensures opts[k].text.Some? {
          assert AnswerOptionSchema.TextRule(opts[k].text).Valid?;
        }
        TextedOptionsNeverThrow(opts, Normalize(answer));
      }
    }
  }

  /** The search raises no TypeError when every option has a text. */
  lemma TextedOptionsNeverThrow(options: seq<AnswerOption>, target: string)
    requires forall k :: 0 <= k < |options| ==> options[k].text.Some?
    ensures !FindOption(options, target).Throws?
  {
    var keys := SearchKeys(options);
    forall k | 0 <= k < |keys| ensures keys[k].Some? {
      assert options[k].text.Some?;
    }
  }

  // ---------------------------------------------------------------------------
  // The effects of a verdict

  /** `quiz.wrongAnswerPenalty || 5`: an absent or zero penalty becomes 5 seconds;
      any other value, a fraction of a second included, is used as it is. */
  function PenaltySeconds(quiz: Quiz): (s: real)
    ensures quiz.wrongAnswerPenalty == None || quiz.wrongAnswerPenalty == Some(0.0) ==> s == 5.0
    ensures quiz.wrongAnswerPenalty.Some? && quiz.wrongAnswerPenalty.value != 0.0 ==> s == quiz.wrongAnswerPenalty.value
  {
    if quiz.wrongAnswerPenalty.None? || quiz.wrongAnswerPenalty.value == 0.0 then 5.0 else quiz.wrongAnswerPenalty.value
  }

  /** For publishable content the penalty is more than 0 and at most 60 seconds:
      where the editor chose 0 a wrong answer still costs 5 seconds. */
  lemma PenaltyIsPositive(quiz: Quiz)
    requires QuizSchema.QuizValid(quiz)
    ensures 0.0 < PenaltySeconds(quiz) <= 60.0
  {
  }

  /** The time value `new Date(t)` keeps: the whole milliseconds of `t`,
      truncated toward zero. */
  function DateMillis(t: real): (ms: int)
    ensures t >= 0.0 ==> 0 <= ms && ms as real <= t < ms as real + 1.0
    ensures t < 0.0 ==> ms <= 0 && ms as real - 1.0 < t <= ms as real
  {
    if t >= 0.0 then t.Floor else -((-t).Floor)
  }

  /** `Date.now() + penaltySeconds * 1000`, as the stored penalty end: the whole
      milliseconds of the exact sum. */
  function PenaltyEnd(now: int, seconds: real): (until: int)
    ensures now as real + seconds * 1000.0 >= 0.0 ==>
              until as real <= now as real + seconds * 1000.0 < until as real + 1.0
  {
    DateMillis(now as real + seconds * 1000.0)
  }

  /** A penalty of whole seconds ends exactly that many seconds from now. */
  lemma WholeSecondPenaltyEnd(now: nat, seconds: nat)
    ensures PenaltyEnd(now, seconds as real) == now + seconds * 1000
  {
    var t := now as real + (seconds as real) * 1000.0;
    assert t == (now + seconds * 1000) as real;
  }

  /** A penalty of any length ends no earlier than now and less than a
      millisecond before the configured time has passed. */
  lemma PenaltyEndBounds(now: nat, seconds: real)
    requires 0.0 <= seconds
    ensures now <= PenaltyEnd(now, seconds)
    ensures PenaltyEnd(now, seconds) as real <= now as real + seconds * 1000.0 < PenaltyEnd(now, seconds) as real + 1.0
  {
    var t := now as real + seconds * 1000.0;
    assert (now as real) <= t;
    assert now as real <= DateMillis(t) as real + 1.0;
  }

  /** The editor publishes a penalty of half a second, and it is applied as it
      is: the player waits 500 milliseconds. */
  lemma HalfSecondPenalty(quiz: Quiz, now: nat)
    requires quiz.wrongAnswerPenalty == Some(0.5)
    ensures QuizSchema.PenaltyRule(quiz.wrongAnswerPenalty).Valid?
    ensures PenaltySeconds(quiz) == 0.5
    ensures PenaltyEnd(now, PenaltySeconds(quiz)) == now + 500
  {
    assert now as real + 0.5 * 1000.0 == (now + 500) as real;
  }

  /** A penalty of 0.0005 seconds passes the editor's rule and is not replaced
      by 5 seconds, yet its end is the moment of the answer: the wrong answer
      costs no time. */
  lemma SubMillisecondPenaltyCostsNothing(quiz: Quiz, now: nat)
    requires quiz.wrongAnswerPenalty == Some(0.0005)
    ensures QuizSchema.PenaltyRule(quiz.wrongAnswerPenalty).Valid?
    ensures 0.0 < PenaltySeconds(quiz) < 1.0
    ensures PenaltyEnd(now, PenaltySeconds(quiz)) == now
  {
    var t := now as real + 0.0005 * 1000.0;
    assert now as real <= t < now as real + 1.0;
  }

  /** The player after a correct answer to question `questionIndex` of a quiz with
      `count` questions. */
  function Advanced(p: Player, questionIndex: int, count: nat, now: int): (r: Player)
    ensures r.currentQuestion == questionIndex + 1
    ensures r.finishedAt.Some? <==> questionIndex + 1 >= count
    ensures r.finishedAt.Some? ==> r.finishedAt.value == now
    ensures r.penaltyUntil.None?
    ensures r.(currentQuestion := p.currentQuestion, finishedAt := p.finishedAt, penaltyUntil := p.penaltyUntil) == p
  {
    p.(currentQuestion := questionIndex + 1,
       finishedAt := if questionIndex + 1 >= count then Some(now) else None,
       penaltyUntil := None)
  }

  /** The player after a wrong answer: only the penalty end changes. */
  function Penalised(p: Player, until: int): (r: Player)
    ensures r.penaltyUntil == Some(until)
    ensures r.(penaltyUntil := p.penaltyUntil) == p
  {
    p.(penaltyUntil := Some(until))
  }

  /** The stored answer is final once correct. */
  predicate AlreadySolved(answers: map<AnswerKey, Answer>, playerId: string, questionIndex: int) {
    (playerId, questionIndex) in answers && answers[(playerId, questionIndex)].isCorrect
  }

  /** The upsert on `(player_id, question_index)`: a new row stamped `now`, or the
      existing row with its text and verdict replaced (the upsert does not name
      `answered_at`, so the first submission's time is kept). */
  function Upserted(answers: map<AnswerKey, Answer>, playerId: string, questionIndex: int, text: string, isCorrect: bool, now: int): (a: Answer)
    ensures a.playerId == playerId && a.questionIndex == questionIndex && a.answer == text && a.isCorrect == isCorrect
    ensures a.answeredAt == if (playerId, questionIndex) in answers then answers[(playerId, questionIndex)].answeredAt else now
  {
    if (playerId, questionIndex) in answers then
      Answer(playerId, questionIndex, text, isCorrect, answers[(playerId, questionIndex)].answeredAt)
    else Answer(playerId, questionIndex, text, isCorrect, now)
  }

  /** Nothing guards the player's progress against going back: a player moved to
      question 7 by answering question 6 correctly (the index is not checked
      against `current_question`) and who then answers question 0 correctly is
      moved back to question 1, and their finish time is erased. */
  lemma ProgressCanGoBack(p: Player, now: int)
    requires p.currentQuestion == 7 && p.finishedAt.Some?
    ensures Advanced(p, 0, 7, now).currentQuestion < p.currentQuestion
    ensures Advanced(p, 0, 7, now).finishedAt.None?
  {
  }

  // ---------------------------------------------------------------------------
  // The server actions

  /** One answer submission by `playerId` for question `questionIndex`, at time
      `now` (milliseconds). `quiz` is what the content store returned for the
      lobby's quiz. `readFails` says whether the read of the existing answer
      fails: its error is not looked at, so a failed read passes for "no answer
      yet". `upsertFails` and `updateFails` say whether the store rejects the
      answer upsert and the player update. The answer upsert also fails when no
      player row has the id (the answers table's foreign key). A player update
      that fails is only logged. */
  method SubmitAnswer(db: Database, playerId: string, questionIndex: int, answer: string, quiz: Option<Quiz>,
                      now: int, readFails: bool, upsertFails: bool, updateFails: bool) returns (r: AnswerResult)
    requires db.Valid()
    requires SubmitDefined(quiz, questionIndex, answer)
    modifies db
    ensures db.Valid()
    ensures db.lobbies == old(db.lobbies)
    // No such question: an error and no write.
    ensures QuestionAt(quiz, questionIndex).None? ==>
              && r == AnswerResult(false, None, None, Some(InvalidQuestion))
              && db.answers == old(db.answers) && db.players == old(db.players)
    // Already answered correctly, and the read says so: an error and no write.
    ensures QuestionAt(quiz, questionIndex).Some? && !readFails && AlreadySolved(old(db.answers), playerId, questionIndex) ==>
              && r == AnswerResult(false, None, None, Some(AlreadyAnswered))
              && db.answers == old(db.answers) && db.players == old(db.players)
    // The upsert fails: an error, and the player is not touched.
    ensures QuestionAt(quiz, questionIndex).Some? && (readFails || !AlreadySolved(old(db.answers), playerId, questionIndex))
            && (upsertFails || playerId !in old(db.players)) ==>
              && r == AnswerResult(false, None, None, Some(SubmitFailed))
              && db.answers == old(db.answers) && db.players == old(db.players)
    // Otherwise the answer of record is replaced, then the player advances or is penalised.
    ensures QuestionAt(quiz, questionIndex).Some? && (readFails || !AlreadySolved(old(db.answers), playerId, questionIndex))
            && !upsertFails && playerId in old(db.players) ==>
              var q := QuestionAt(quiz, questionIndex).value;
              var count := |quiz.value.questions.value|;
              var correct := Verdict(q, answer);
              && db.answers == old(db.answers)[(playerId, questionIndex) :=
                                 Upserted(old(db.answers), playerId, questionIndex, Trim(answer), correct, now)]
              && (correct ==>
                    && r == AnswerResult(true, Some(questionIndex + 1 >= count), None, None)
                    && db.players == if updateFails then old(db.players)
                                     else old(db.players)[playerId := Advanced(old(db.players)[playerId], questionIndex, count, now)])
              && (!correct ==>
                    var seconds := PenaltySeconds(quiz.value);
                    && r == AnswerResult(false, None, Some(seconds), None)
                    && db.players == if updateFails then old(db.players)
                                     else old(db.players)[playerId := Penalised(old(db.players)[playerId], PenaltyEnd(now, seconds))])
    // While the read of the existing answer succeeds, a correct answer of record
    // is never overwritten.
    ensures !readFails ==>
              forall k :: k in old(db.answers) && old(db.answers)[k].isCorrect ==> k in db.answers && db.answers[k] == old(db.answers)[k]
  {
    var question := QuestionAt(quiz, questionIndex);
    if question.None? {
      return AnswerResult(false, None, None, Some(InvalidQuestion));
    }
    var q := question.value;
    var isCorrect := Verdict(q, answer);

    var key := (playerId, questionIndex);
    var existingCorrect := !readFails && key in db.answers && db.answers[key].isCorrect;
    if existingCorrect {
      return AnswerResult(false, None, None, Some(AlreadyAnswered));
    }

    if upsertFails || playerId !in db.players {
      return AnswerResult(false, None, None, Some(SubmitFailed));
    }
    db.PutAnswer(Upserted(db.answers, playerId, questionIndex, Trim(answer), isCorrect, now));

    var count := |quiz.value.questions.value|;
    if isCorrect {
      var nextQuestion := questionIndex + 1;
      var isFinished := nextQuestion >= count;
      if !updateFails {
        var p := db.players[playerId];
        db.PutPlayer(p.(currentQuestion := nextQuestion,
                        finishedAt := if isFinished then Some(now) else None,
                        penaltyUntil := None));
      }
      r := AnswerResult(true, Some(isFinished), None, None);
    } else {
      var penaltySeconds := PenaltySeconds(quiz.value);
      var penaltyUntil := PenaltyEnd(now, penaltySeconds);
      if !updateFails {
        db.PutPlayer(db.players[playerId].(penaltyUntil := Some(penaltyUntil)));
      }
      r := AnswerResult(false, None, Some(penaltySeconds), None);
    }
  }

  /** When the read of the existing answer fails, a wrong resubmission replaces a
      correct answer of record: the upserted row is no longer correct, and the
      answers table no longer holds what it held. */
  lemma FailedReadOverwritesCorrectAnswer(answers: map<AnswerKey, Answer>, playerId: string, questionIndex: int,
                                          text: string, now: int)
    requires AlreadySolved(answers, playerId, questionIndex)
    ensures var key := (playerId, questionIndex);
            var after := answers[key := Upserted(answers, playerId, questionIndex, text, false, now)];
            && key in after && !after[key].isCorrect
            && after[key] != answers[key]
  {
  }

  /** `clearPenalty`: only the player's penalty end is cleared. */
  method ClearPenalty(db: Database, playerId: string, updateFails: bool) returns (r: Outcome)
    requires db.Valid()
    modifies db
    ensures db.Valid()
    ensures db.lobbies == old(db.lobbies) && db.answers == old(db.answers)
    ensures updateFails ==> r == Failure(ClearFailed) && db.players == old(db.players)
    ensures !updateFails ==> r == Success
    ensures !updateFails && playerId in old(db.players) ==>
              db.players == old(db.players)[playerId := old(db.players)[playerId].(penaltyUntil := None)]
    ensures !updateFails && playerId !in old(db.players) ==> db.players == old(db.players)
  {
    if updateFails {
      return Failure(ClearFailed);
    }
    if playerId in db.players {
      db.PutPlayer(db.players[playerId].(penaltyUntil := None));
    }
    r := Success;
  }

  datatype Progress = Progress(currentQuestion: int, finishedAt: Option<int>, penaltyUntil: Option<int>)

  /** `getPlayerProgress`: the player's question, finish time and penalty end, or
      an error when there is no such player or the read fails (`readFails`). */
  function PlayerProgress(players: map<string, Player>, playerId: string, readFails: bool): (r: Result<Progress>)
    ensures r.Ok? <==> !readFails && playerId in players
    ensures r.Ok? ==> r.value.currentQuestion == players[playerId].currentQuestion
                      && r.value.finishedAt == players[playerId].finishedAt
                      && r.value.penaltyUntil == players[playerId].penaltyUntil
    ensures r.Err? ==> r.message == ProgressUnavailable
  {
    if !readFails && playerId in players then
      var p := players[playerId];
      Ok(Progress(p.currentQuestion, p.finishedAt, p.penaltyUntil))
    else Err(ProgressUnavailable)
  }
}
