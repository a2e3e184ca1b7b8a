/** The records of the quiz application (shared/schema.ts) and the HTTP outcomes of its handlers.
    Timestamps are milliseconds since the epoch; nullable columns are `Option`s. */
module Schema {

  datatype Option<+T> = None | Some(value: T)

  /** Outcome of an HTTP handler, by status code. */
  datatype Status = OK200 | Created201 | BadRequest400 | Unauthorized401 | Forbidden403 | NotFound404

  datatype Role = Student | Teacher | Admin

  /** An earned badge as stored in a user's `badges` column. */
  datatype Badge = Badge(id: string, name: string, description: string, image: string, earnedAt: string)

  datatype User = User(
    id: int,
    username: string,
    password: string,
    role: Role,
    resetCode: Option<string>,
    resetCodeExpiry: Option<int>,
    badges: seq<Badge>)

  /** The three closed requirement kinds of an achievement rule. */
  datatype RequirementKind = QuizScore | QuizzesCompleted | PerfectScores

  datatype Requirement = Requirement(kind: RequirementKind, threshold: int)

  datatype Achievement = Achievement(
    id: int,
    name: string,
    description: string,
    badgeImage: string,
    requirement: Requirement)

  datatype QuestionType = MCQ | TrueFalse | ShortAnswer

  datatype Question = Question(
    id: int,
    questionType: QuestionType,
    text: string,
    options: Option<seq<string>>,
    correctAnswer: string)

  datatype Quiz = Quiz(id: int, title: string, creatorId: int, timeLimit: Option<int>, questions: seq<Question>)

  datatype Answer = Answer(questionId: int, answer: string)

  datatype Attempt = Attempt(
    id: int,
    quizId: int,
    userId: int,
    startedAt: int,
    completedAt: Option<int>,
    score: Option<int>,
    answers: Option<seq<Answer>>)

  /** The insert shapes: a record without its id; optional fields may be absent. */
  datatype InsertUser = InsertUser(
    username: string,
    password: string,
    role: Option<Role>,
    resetCode: Option<string>,
    resetCodeExpiry: Option<int>)

  datatype InsertQuiz = InsertQuiz(title: string, creatorId: int, timeLimit: Option<int>, questions: seq<Question>)

  datatype InsertAttempt = InsertAttempt(
    quizId: int,
    userId: int,
    startedAt: int,
    completedAt: Option<int>,
    score: Option<int>,
    answers: Option<seq<Answer>>)

  datatype InsertAchievement = InsertAchievement(
    name: string,
    description: string,
    badgeImage: string,
    requirement: Requirement)
}
