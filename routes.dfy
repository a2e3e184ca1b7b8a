/** The quiz, attempt, achievement and leaderboard handlers (server/routes.ts). The session user is the
    `caller` parameter (`None` when the request is not authenticated), and the clock is the `now` (epoch
    milliseconds) and `nowIso` (its ISO-8601 rendering) parameters. */
module Routes {

  import opened Schema
  import opened Seqs
  import opened Leaderboard
  import opened Achievements
  import opened Storage

  // ---- achievements and leaderboard ----

  /** GET /api/achievements: the whole catalogue, for any signed-in caller. */
  function ListAchievements(store: MemStorage, caller: Option<User>): (r: (Status, seq<Achievement>))
    reads store
    requires store.Valid()
    ensures caller.None? ==> r.0 == Unauthorized401 && r.1 == []
    ensures caller.Some? ==> r.0 == OK200 && r.1 == store.achievements
  {
    if caller.None? then (Unauthorized401, []) else (OK200, store.GetAllAchievements())
  }

  /** GET /api/user/achievements: the caller's stored badges, or none when the caller's id is unknown. */
  function UserAchievements(store: MemStorage, caller: Option<User>): (r: (Status, seq<Badge>))
    reads store
    requires store.Valid()
    ensures caller.None? ==> r.0 == Unauthorized401 && r.1 == []
    ensures caller.Some? ==> r.0 == OK200
    ensures caller.Some? ==> forall u :: u in store.users && u.id == caller.value.id ==> r.1 == u.badges
    ensures caller.Some? && (forall u :: u in store.users ==> u.id != caller.value.id) ==> r.1 == []
  {
    if caller.None? then (Unauthorized401, [])
    else
      match store.GetUser(caller.value.id)
      case None => (OK200, [])
      case Some(user) => (OK200, user.badges)
  }

  /** GET /api/leaderboard. */
  method LeaderboardRoute(store: MemStorage, caller: Option<User>) returns (status: Status, board: seq<Entry>)
    requires store.Valid()
    ensures caller.None? ==> status == Unauthorized401 && board == []
    ensures caller.Some? ==> status == OK200 && board == Board(store.attempts, store.users)
  {
    if caller.None? {
      return Unauthorized401, [];
    }
    board := store.GetLeaderboard();
    status := OK200;
  }

  // ---- attempts ----

  /** The caller's attempts after one attempt is appended to the store: the previous ones, then the new
      one when it is the caller's. */
  lemma UserAttemptsAfterAppend(attempts: seq<Attempt>, added: Attempt, userId: int)
    ensures var p := (a: Attempt) => a.userId == userId;
      Filter(attempts + [added], p) == Filter(attempts, p) + (if added.userId == userId then [added] else [])
  {
    var p := (a: Attempt) => a.userId == userId;
    FilterAppend(attempts, [added], p);
    FilterCons(added, [], p);
  }

  /** `after` is the user table `before` once `user`'s badges are re-evaluated against `history` and the
      catalogue: the old badges stay a prefix, every met rule is held by name, and distinct names stay
      distinct. */
  ghost predicate Awarded(
    before: seq<User>, after: seq<User>, user: User, history: seq<Attempt>, catalogue: seq<Achievement>,
    nowIso: string)
  {
    var badges := Evaluate(history, catalogue, user.badges, nowIso);
    && 1 <= user.id <= |before|
    && after == before[user.id - 1 := user.(badges := badges)]
    && user.badges <= badges
    && (forall a :: a in catalogue && Earned(history, a) ==> HasName(badges, a.name))
    && (DistinctNames(user.badges) ==> DistinctNames(badges))
  }

  /** The award block of PATCH /api/attempts/:id: re-evaluates the badges of user `userId` against that
      user's whole history and the catalogue, and stores the result. `false`, changing nothing, when the id
      is unknown (the JavaScript then throws reading `user.id`). */
  method AwardAchievements(store: MemStorage, userId: int, nowIso: string) returns (found: bool)
    requires store.Valid()
    modifies store
    ensures store.Valid()
    ensures store.quizzes == old(store.quizzes) && store.attempts == old(store.attempts)
    ensures store.achievements == old(store.achievements)
    ensures found <==> old(store.GetUser(userId)).Some?
    ensures !found ==> store.users == old(store.users)
    ensures found ==>
      Awarded(old(store.users), store.users, old(store.GetUser(userId)).value, store.GetUserAttempts(userId),
              store.achievements, nowIso)
  {
    var user := store.GetUser(userId);
    if user.None? {
      return false;
    }
    var history := store.GetUserAttempts(userId);
    var catalogue := store.GetAllAchievements();
    var badges := EvaluateAchievements(history, catalogue, user.value.badges, nowIso);
    ghost var before := store.users;
    assert Awarded(before, before[userId - 1 := user.value.(badges := badges)], user.value, history, catalogue, nowIso) by {
      assert user.value == before[userId - 1];
      EvaluateAppends(history, catalogue, user.value.badges, nowIso);
      EvaluateComplete(history, catalogue, user.value.badges, nowIso);
      if DistinctNames(user.value.badges) {
        EvaluateDistinct(history, catalogue, user.value.badges, nowIso);
      }
    }
    var updated := store.UpdateUserBadges(userId, badges);
    assert store.GetUserAttempts(userId) == history && store.achievements == catalogue;
    found := true;
  }

  /** PATCH /api/attempts/:id. The completed attempt is stored as a NEW record (a copy of the original with
      a fresh id, the completion time, and the submitted score and answers); the original stays as it was.
      Then the caller's badges are re-evaluated against the caller's whole history, which includes the new
      record only when the attempt is the caller's. A caller whose id is no longer in the store yields 400,
      after the new record is stored. */
  method CompleteAttempt(
    store: MemStorage, caller: Option<User>, attemptId: int, score: Option<int>, answers: Option<seq<Answer>>,
    now: int, nowIso: string)
    returns (status: Status, result: Option<Attempt>)
    requires store.Valid()
    modifies store
    ensures store.Valid()
    ensures store.quizzes == old(store.quizzes) && store.achievements == old(store.achievements)
    ensures caller.None? || old(store.GetAttempt(attemptId)).None? ==>
      && status == (if caller.None? then Unauthorized401 else NotFound404)
      && result.None?
      && store.users == old(store.users) && store.attempts == old(store.attempts)
    ensures caller.Some? && old(store.GetAttempt(attemptId)).Some? ==>
      var original := old(store.GetAttempt(attemptId)).value;
      var added := Attempt(
        |old(store.attempts)| + 1, original.quizId, original.userId, original.startedAt, Some(now),
        if score == Some(0) then None else score, answers);
      && store.attempts == old(store.attempts) + [added]
      && (old(store.GetUser(caller.value.id)).None? ==>
            status == BadRequest400 && result.None? && store.users == old(store.users))
      && (old(store.GetUser(caller.value.id)).Some? ==>
            && status == OK200 && result == Some(added)
            && store.GetUserAttempts(caller.value.id)
               == old(store.GetUserAttempts(caller.value.id)) + (if original.userId == caller.value.id then [added] else [])
            && Awarded(old(store.users), store.users, old(store.GetUser(caller.value.id)).value,
                       store.GetUserAttempts(caller.value.id), store.achievements, nowIso))
  {
    if caller.None? {
      return Unauthorized401, None;
    }
    var found := store.GetAttempt(attemptId);
    if found.None? {
      return NotFound404, None;
    }
    var original := found.value;
    ghost var before := store.attempts;
    var added := store.CreateAttempt(
      InsertAttempt(original.quizId, original.userId, original.startedAt, Some(now), score, answers));
    UserAttemptsAfterAppend(before, added, caller.value.id);
    assert old(store.GetUser(caller.value.id)) == store.GetUser(caller.value.id);
    var awarded := AwardAchievements(store, caller.value.id, nowIso);
    if !awarded {
      return BadRequest400, None;
    }
    status, result := OK200, Some(added);
  }

  /** POST /api/quizzes/:id/attempts: starts an attempt by the caller at `quizId`, with no completion time,
      no score and an empty answer list. */
  method StartAttempt(store: MemStorage, caller: Option<User>, quizId: int, now: int)
    returns (status: Status, attempt: Option<Attempt>)
    requires store.Valid()
    modifies store
    ensures store.Valid()
    ensures store.users == old(store.users) && store.quizzes == old(store.quizzes)
    ensures store.achievements == old(store.achievements)
    ensures caller.None? ==> status == Unauthorized401 && attempt.None? && store.attempts == old(store.attempts)
    ensures caller.Some? ==>
      && status == Created201
      && attempt == Some(Attempt(|old(store.attempts)| + 1, quizId, caller.value.id, now, None, None, Some([])))
      && store.attempts == old(store.attempts) + [attempt.value]
  {
    if caller.None? {
      return Unauthorized401, None;
    }
    var created := store.CreateAttempt(InsertAttempt(quizId, caller.value.id, now, None, None, Some([])));
    status, attempt := Created201, Some(created);
  }

  // ---- quizzes ----

  /** POST /api/quizzes: teachers and admins create quizzes under their own id, whatever creator the body
      names; students are refused. */
  method CreateQuizRoute(
    store: MemStorage, caller: Option<User>, title: string, timeLimit: Option<int>, questions: seq<Question>)
    returns (status: Status, quiz: Option<Quiz>)
    requires store.Valid()
    modifies store
    ensures store.Valid()
    ensures store.users == old(store.users) && store.attempts == old(store.attempts)
    ensures store.achievements == old(store.achievements)
    ensures caller.None? || caller.value.role == Student ==>
      && status == (if caller.None? then Unauthorized401 else Forbidden403)
      && quiz.None? && store.quizzes == old(store.quizzes)
    ensures caller.Some? && caller.value.role != Student ==>
      && status == Created201
      && quiz == Some(Quiz(|old(store.quizzes)| + 1, title, caller.value.id,
                           if timeLimit == Some(0) then None else timeLimit, questions))
      && store.quizzes == old(store.quizzes) + [quiz.value]
  {
    if caller.None? {
      return Unauthorized401, None;
    }
    if caller.value.role == Student {
      return Forbidden403, None;
    }
    var created := store.CreateQuiz(InsertQuiz(title, caller.value.id, timeLimit, questions));
    status, quiz := Created201, Some(created);
  }

  /** GET /api/quizzes: a student sees every quiz; a teacher or admin sees exactly the quizzes they created,
      in creation order. */
  function ListQuizzes(store: MemStorage, caller: Option<User>): (r: (Status, seq<Quiz>))
    reads store
    requires store.Valid()
    ensures caller.None? ==> r.0 == Unauthorized401 && r.1 == []
    ensures caller.Some? ==> r.0 == OK200
    ensures caller.Some? && caller.value.role == Student ==> r.1 == store.quizzes
    ensures caller.Some? && caller.value.role != Student ==>
      && (forall q :: q in r.1 <==> q in store.quizzes && q.creatorId == caller.value.id)
      && (forall i, j :: 0 <= i < j < |r.1| ==> r.1[i].id < r.1[j].id)
  {
    if caller.None? then (Unauthorized401, [])
    else if caller.value.role == Student then (OK200, store.GetAssignedQuizzes(caller.value.id))
    else (OK200, store.GetQuizzesByCreator(caller.value.id))
  }

  /** GET /api/quizzes/:id. */
  function GetQuizRoute(store: MemStorage, caller: Option<User>, quizId: int): (r: (Status, Option<Quiz>))
    reads store
    requires store.Valid()
    ensures caller.None? ==> r.0 == Unauthorized401 && r.1.None?
    ensures caller.Some? ==> (r.0 == OK200 <==> exists q :: q in store.quizzes && q.id == quizId)
    ensures caller.Some? && r.0 != OK200 ==> r.0 == NotFound404 && r.1.None?
    ensures r.0 == OK200 ==> r.1.Some? && r.1.value in store.quizzes && r.1.value.id == quizId
  {
    if caller.None? then (Unauthorized401, None)
    else
      match store.GetQuiz(quizId)
      case None => (NotFound404, None)
      case Some(quiz) => (OK200, Some(quiz))
  }
}
