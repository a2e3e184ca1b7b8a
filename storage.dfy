/** `MemStorage`, the in-memory store of users, quizzes, attempts and achievements.

    Each JavaScript `Map` of the store is keyed by ids that the store allocates itself, 1, 2, 3, ..., from
    the `currentIds` counters, and a `Map` iterates in insertion order; a table is therefore held as a
    sequence in insertion order whose record at index i has id i + 1, and replacing a record (`Map.set` on
    an existing key) keeps its position. */
module Storage {

  import opened Schema
  import opened Seqs
  import opened Leaderboard

  /** The `currentIds` record: the id the next record of each kind receives. */
  datatype Counters = Counters(users: int, quizzes: int, attempts: int, achievements: int)

  /** `Map.get(id)` on a table whose record at index i has id i + 1. */
  function Lookup<T>(table: seq<T>, id: int): Option<T>
  {
    if 1 <= id <= |table| then Some(table[id - 1]) else None
  }

  /** `Array.from(users.values()).find(u => u.username === username)`: the position of the first user with
      that name, or `|users|` when there is none. */
  function FindUsername(users: seq<User>, username: string): nat
  {
    FirstIndex(users, (u: User) => u.username, username)
  }

  /** A reset code passes when the user has a non-empty code and an expiry, the expiry is not before `now`,
      and the code is the one supplied. */
  function CodeAccepted(u: User, code: string, now: int): (accepted: bool)
    ensures accepted ==> code != "" && u.resetCode == Some(code)
    ensures u.resetCode.None? || u.resetCodeExpiry.None? ==> !accepted
  {
    && u.resetCode == Some(code)
    && code != ""
    && u.resetCodeExpiry.Some?
    && now <= u.resetCodeExpiry.value
  }

  class MemStorage {
    var users: seq<User>
    var quizzes: seq<Quiz>
    var attempts: seq<Attempt>
    var achievements: seq<Achievement>
    var currentIds: Counters

    /** Ids are 1, 2, 3, ... in insertion order and each counter is the next id of its kind. */
    ghost predicate Valid()
      reads this
    {
      && currentIds == Counters(|users| + 1, |quizzes| + 1, |attempts| + 1, |achievements| + 1)
      && (forall i :: 0 <= i < |users| ==> users[i].id == i + 1)
      && (forall i :: 0 <= i < |quizzes| ==> quizzes[i].id == i + 1)
      && (forall i :: 0 <= i < |attempts| ==> attempts[i].id == i + 1)
      && (forall i :: 0 <= i < |achievements| ==> achievements[i].id == i + 1)
    }

    /** An empty store seeded with the three default achievements. */
    constructor ()
      ensures Valid()
      ensures users == [] && quizzes == [] && attempts == []
      ensures achievements == [
        Achievement(1, "Quiz Master", "Complete 10 quizzes", "\U{1F393}", Requirement(QuizzesCompleted, 10)),
        Achievement(2, "Perfect Score", "Get 100% on any quiz", "\U{2B50}", Requirement(PerfectScores, 1)),
        Achievement(3, "High Achiever", "Maintain an average score above 90%", "\U{1F3C6}", Requirement(QuizScore, 90))]
    {
      users, quizzes, attempts, achievements := [], [], [], [];
      currentIds := Counters(1, 1, 1, 1);
      new;
      var quizMaster := CreateAchievement(
        InsertAchievement("Quiz Master", "Complete 10 quizzes", "\U{1F393}", Requirement(QuizzesCompleted, 10)));
      var perfectScore := CreateAchievement(
        InsertAchievement("Perfect Score", "Get 100% on any quiz", "\U{2B50}", Requirement(PerfectScores, 1)));
      var highAchiever := CreateAchievement(
        InsertAchievement("High Achiever", "Maintain an average score above 90%", "\U{1F3C6}", Requirement(QuizScore, 90)));
    }

    // ---- users ----

    function GetUser(id: int): (r: Option<User>)
      reads this
      requires Valid()
      ensures r.Some? ==> r.value in users && r.value.id == id
      ensures r.None? ==> forall u :: u in users ==> u.id != id
    {
      Lookup(users, id)
    }

    /** The first user with that name, in insertion order. */
    function GetUserByUsername(username: string): (r: Option<User>)
      reads this
      ensures r.Some? ==> r.value in users && r.value.username == username
      ensures r.Some? ==> r.value == users[FindUsername(users, username)]
      ensures r.None? <==> forall u :: u in users ==> u.username != username
    {
      var k := FindUsername(users, username);
      if k < |users| then Some(users[k]) else None
    }

    /** Allocates the next user id; the role defaults to student and the badge list starts empty. */
    method CreateUser(insertUser: InsertUser) returns (user: User)
      requires Valid()
      modifies this
      ensures Valid()
      ensures user == User(
        old(currentIds.users), insertUser.username, insertUser.password,
        if insertUser.role.Some? then insertUser.role.value else Student,
        insertUser.resetCode, insertUser.resetCodeExpiry, [])
      ensures users == old(users) + [user]
      ensures quizzes == old(quizzes) && attempts == old(attempts) && achievements == old(achievements)
    {
      var id := currentIds.users;
      currentIds := currentIds.(users := currentIds.users + 1);
      user := User(
        id, insertUser.username, insertUser.password,
        if insertUser.role.Some? then insertUser.role.value else Student,
        insertUser.resetCode, insertUser.resetCodeExpiry, []);
      users := users + [user];
    }

    /** Replaces the badge list of one user; fails (`None`) for an unknown id, changing nothing. */
    method UpdateUserBadges(userId: int, badges: seq<Badge>) returns (r: Option<User>)
      requires Valid()
      modifies this
      ensures Valid()
      ensures old(GetUser(userId)).None? ==> r.None? && users == old(users)
      ensures old(GetUser(userId)).Some? ==>
        && r == Some(old(users[userId - 1]).(badges := badges))
        && users == old(users)[userId - 1 := r.value]
      ensures quizzes == old(quizzes) && attempts == old(attempts) && achievements == old(achievements)
      ensures currentIds == old(currentIds)
    {
      var user := GetUser(userId);
      if user.None? {
        return None;
      }
      var updated := user.value.(badges := badges);
      users := users[userId - 1 := updated];
      r := Some(updated);
    }

    // ---- achievements ----

    method CreateAchievement(achievement: InsertAchievement) returns (created: Achievement)
      requires Valid()
      modifies this
      ensures Valid()
      ensures created == Achievement(
        old(currentIds.achievements), achievement.name, achievement.description,
        achievement.badgeImage, achievement.requirement)
      ensures achievements == old(achievements) + [created]
      ensures users == old(users) && quizzes == old(quizzes) && attempts == old(attempts)
    {
      var id := currentIds.achievements;
      currentIds := currentIds.(achievements := currentIds.achievements + 1);
      created := Achievement(id, achievement.name, achievement.description, achievement.badgeImage, achievement.requirement);
      achievements := achievements + [created];
    }

    function GetAchievement(id: int): (r: Option<Achievement>)
      reads this
      requires Valid()
      ensures r.Some? ==> r.value in achievements && r.value.id == id
      ensures r.None? ==> forall a :: a in achievements ==> a.id != id
    {
      Lookup(achievements, id)
    }

    /** The catalogue in id order. */
    function GetAllAchievements(): (r: seq<Achievement>)
      reads this
      requires Valid()
      ensures |r| == |achievements| && forall a :: a in r <==> a in achievements
      ensures forall i :: 0 <= i < |r| ==> r[i].id == i + 1
    {
      achievements
    }

    // ---- leaderboard ----

    /** Tallies completed, scored attempts per user in one pass over the attempts, then builds the rows and
        sorts them. */
    method GetLeaderboard() returns (board: seq<Entry>)
      requires Valid()
      ensures board == Board(attempts, users)
    {
      var table: seq<Stats> := [];
      var i := 0;
      while i < |attempts|
        invariant 0 <= i <= |attempts|
        invariant table == Accumulate(attempts[..i])
      {
        var attempt := attempts[i];
        if attempt.score.Some? && attempt.completedAt.Some? {
          var k := IndexOfUser(table, attempt.userId);
          if k < |table| {
            table := table[k := Stats(attempt.userId, table[k].attempts + 1, table[k].totalScore + attempt.score.value)];
          } else {
            table := table + [Stats(attempt.userId, 1, attempt.score.value)];
          }
        }
        assert attempts[..i + 1] == attempts[..i] + [attempt];
        i := i + 1;
      }
      assert attempts[..i] == attempts;
      AccumulateSpec(attempts);
      board := SortByScore(Rows(table, users));
    }

    // ---- quizzes ----

    /** Allocates the next quiz id; a missing or zero time limit is stored as none. */
    method CreateQuiz(insertQuiz: InsertQuiz) returns (quiz: Quiz)
      requires Valid()
      modifies this
      ensures Valid()
      ensures quiz == Quiz(
        old(currentIds.quizzes), insertQuiz.title, insertQuiz.creatorId,
        if insertQuiz.timeLimit == Some(0) then None else insertQuiz.timeLimit,
        insertQuiz.questions)
      ensures quizzes == old(quizzes) + [quiz]
      ensures users == old(users) && attempts == old(attempts) && achievements == old(achievements)
    {
      var id := currentIds.quizzes;
      currentIds := currentIds.(quizzes := currentIds.quizzes + 1);
      var timeLimit := if insertQuiz.timeLimit == Some(0) then None else insertQuiz.timeLimit;
      quiz := Quiz(id, insertQuiz.title, insertQuiz.creatorId, timeLimit, insertQuiz.questions);
      quizzes := quizzes + [quiz];
    }

    function GetQuiz(id: int): (r: Option<Quiz>)
      reads this
      requires Valid()
      ensures r.Some? ==> r.value in quizzes && r.value.id == id
      ensures r.None? ==> forall q :: q in quizzes ==> q.id != id
    {
      Lookup(quizzes, id)
    }

    /** Exactly the quizzes created by `creatorId`, in insertion order. */
    function GetQuizzesByCreator(creatorId: int): (r: seq<Quiz>)
      reads this
      requires Valid()
      ensures forall q :: q in r <==> q in quizzes && q.creatorId == creatorId
      ensures forall i, j :: 0 <= i < j < |r| ==> r[i].id < r[j].id
    {
      var key := (q: Quiz) => q.id;
      var p := (q: Quiz) => q.creatorId == creatorId;
      assert Increasing(quizzes, key);
      FilterKeepsOrder(quizzes, p, key);
      Filter(quizzes, p)
    }

    /** Every quiz, whoever asks. */
    function GetAssignedQuizzes(userId: int): (r: seq<Quiz>)
      reads this
      ensures r == quizzes
    {
      quizzes
    }

    // ---- attempts ----

    /** Allocates the next attempt id. A missing completion time, a missing or zero score, and missing
        answers are stored as none. */
    method CreateAttempt(insertAttempt: InsertAttempt) returns (attempt: Attempt)
      requires Valid()
      modifies this
      ensures Valid()
      ensures attempt == Attempt(
        old(currentIds.attempts), insertAttempt.quizId, insertAttempt.userId, insertAttempt.startedAt,
        insertAttempt.completedAt,
        if insertAttempt.score == Some(0) then None else insertAttempt.score,
        insertAttempt.answers)
      ensures attempts == old(attempts) + [attempt]
      ensures users == old(users) && quizzes == old(quizzes) && achievements == old(achievements)
    {
      var id := currentIds.attempts;
      currentIds := currentIds.(attempts := currentIds.attempts + 1);
      var score := if insertAttempt.score == Some(0) then None else insertAttempt.score;
      attempt := Attempt(
        id, insertAttempt.quizId, insertAttempt.userId, insertAttempt.startedAt,
        insertAttempt.completedAt, score, insertAttempt.answers);
      attempts := attempts + [attempt];
    }

    function GetAttempt(id: int): (r: Option<Attempt>)
      reads this
      requires Valid()
      ensures r.Some? ==> r.value in attempts && r.value.id == id
      ensures r.None? ==> forall a :: a in attempts ==> a.id != id
    {
      Lookup(attempts, id)
    }

    /** Exactly the attempts of `userId`, in insertion order. */
    function GetUserAttempts(userId: int): (r: seq<Attempt>)
      reads this
      requires Valid()
      ensures forall a :: a in r <==> a in attempts && a.userId == userId
      ensures forall i, j :: 0 <= i < j < |r| ==> r[i].id < r[j].id
    {
      var key := (a: Attempt) => a.id;
      var p := (a: Attempt) => a.userId == userId;
      assert Increasing(attempts, key);
      FilterKeepsOrder(attempts, p, key);
      Filter(attempts, p)
    }

    /** Exactly the attempts at quiz `quizId`, in insertion order. */
    function GetQuizAttempts(quizId: int): (r: seq<Attempt>)
      reads this
      requires Valid()
      ensures forall a :: a in r <==> a in attempts && a.quizId == quizId
      ensures forall i, j :: 0 <= i < j < |r| ==> r[i].id < r[j].id
    {
      var key := (a: Attempt) => a.id;
      var p := (a: Attempt) => a.quizId == quizId;
      assert Increasing(attempts, key);
      FilterKeepsOrder(attempts, p, key);
      Filter(attempts, p)
    }

    // ---- password reset ----

    /** Stores a reset code and its expiry on the first user with that name; fails (`false`) for an unknown
        name, changing nothing. */
    method SetResetCode(username: string, code: string, expiry: int) returns (found: bool)
      requires Valid()
      modifies this
      ensures Valid()
      ensures var k := FindUsername(old(users), username);
        && found == (k < |old(users)|)
        && users == if found then old(users)[k := old(users)[k].(resetCode := Some(code), resetCodeExpiry := Some(expiry))]
                    else old(users)
      ensures found ==> FindUsername(users, username) == FindUsername(old(users), username)
      ensures found ==> forall now :: ValidateResetCode(username, code, now) <==> code != "" && now <= expiry
      ensures quizzes == old(quizzes) && attempts == old(attempts) && achievements == old(achievements)
      ensures currentIds == old(currentIds)
    {
      var user := GetUserByUsername(username);
      if user.None? {
        return false;
      }
      var k := FindUsername(users, username);
      assert users[k].id == user.value.id;
      users := users[user.value.id - 1 := user.value.(resetCode := Some(code), resetCodeExpiry := Some(expiry))];
      assert FindUsername(users, username) == k by {
        assert forall i :: 0 <= i < k ==> users[i] == old(users)[i];
        FindUsernameUnchanged(old(users), users, username, k);
      }
      found := true;
    }

    /** `validateResetCode`: false for an unknown name; otherwise whether the stored code is accepted. */
    function ValidateResetCode(username: string, code: string, now: int): (valid: bool)
      reads this
      ensures valid <==> GetUserByUsername(username).Some? && CodeAccepted(GetUserByUsername(username).value, code, now)
    {
      match GetUserByUsername(username)
      case None => false
      case Some(user) =>
        if user.resetCode.None? || user.resetCode.value == "" || user.resetCodeExpiry.None?
           || user.resetCodeExpiry.value < now
        then false
        else user.resetCode.value == code
    }

    /** Sets the password of the first user with that name and clears the reset code and its expiry; fails
        (`false`) for an unknown name, changing nothing. */
    method ResetPassword(username: string, newPassword: string) returns (found: bool)
      requires Valid()
      modifies this
      ensures Valid()
      ensures var k := FindUsername(old(users), username);
        && found == (k < |old(users)|)
        && users == if found then old(users)[k := old(users)[k].(password := newPassword, resetCode := None, resetCodeExpiry := None)]
                    else old(users)
      ensures found ==> forall code, now :: !ValidateResetCode(username, code, now)
      ensures found ==> FindUsername(users, username) == FindUsername(old(users), username)
      ensures quizzes == old(quizzes) && attempts == old(attempts) && achievements == old(achievements)
      ensures currentIds == old(currentIds)
    {
      var user := GetUserByUsername(username);
      if user.None? {
        return false;
      }
      var k := FindUsername(users, username);
      assert users[k].id == user.value.id;
      users := users[user.value.id - 1 := user.value.(password := newPassword, resetCode := None, resetCodeExpiry := None)];
      assert FindUsername(users, username) == k by {
        assert forall i :: 0 <= i < k ==> users[i] == old(users)[i];
        FindUsernameUnchanged(old(users), users, username, k);
      }
      found := true;
    }
  }

  /** Replacing a record without changing names before or at the found position keeps the position. */
  lemma FindUsernameUnchanged(before: seq<User>, after: seq<User>, username: string, k: nat)
    requires k < |before| == |after|
    requires FindUsername(before, username) == k
    requires forall i :: 0 <= i < k ==> after[i] == before[i]
    requires after[k].username == before[k].username
    ensures FindUsername(after, username) == k
  {
  }
}
