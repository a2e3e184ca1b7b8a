# Quiz platform core, modelled in Dafny

This project models the server core of a quiz web application. Teachers and admins create quizzes. Students
start and complete attempts. Completing an attempt can award achievement badges. A leaderboard ranks users
by their average score. Accounts register and log in with a salted password hash, and passwords can be
reset with a six-digit code.

Modules:

- `Schema`: the records (users, quizzes, questions, attempts, achievements, badges), their insert shapes,
  and HTTP outcomes as a `Status` enumeration.
- `Seqs`: an order-preserving filter (`Array.prototype.filter`), the first-match search (`Array.prototype.find`)
  used for user names and tally rows, sums, minimum and maximum.
- `Text`: decimal rendering of numbers, lower-case hex encoding, Node's lenient hex decoding, and `split`
  on one character, each with its round-trip or shape lemma.
- `Storage`: the in-memory store, as the class `MemStorage`. Each `Map` is a `seq` field in insertion
  order, and the record at index i has id i + 1. `Valid()` ties the `currentIds` counters to the table
  lengths.
- `Leaderboard`: the specification of `getLeaderboard`.
  - The tally table is kept in the order of each user's first counted attempt.
  - The average is rounded to hundredths and held as an integer number of hundredths.
  - The sort is stable and descending.
- `Achievements`: the badge-award loop of the attempt-completion handler. It is a fold over the catalogue
  (`Evaluate`) with a loop method proved against it.
- `Routes`: the attempt, quiz, achievement and leaderboard handlers, as methods on a `MemStorage`. The
  session user is an `Option<User>` parameter; the clock is a parameter.
- `Auth`: the stored password format `hex(key) + "." + hex(salt)`, login, registration and the three
  password-reset handlers. The key-derivation function, the salt bytes, the `Math.random()` draw and the
  clock are parameters.

Behaviours of the code that the model keeps as written:

- `createAttempt` stores a score of 0 as null (`score || null`). A zero score therefore counts neither
  toward the leaderboard nor toward the "High Achiever" mean.
- Completing an attempt stores a new record with a new id. The original record stays incomplete.
- "Maintain an average score above 90%" is checked with `>=`.
- Reset codes are compared only while `now <= expiry`, and an empty stored code never matches.

## Model

| member | source | states |
|---|---|---|
| Storage.MemStorage.constructor | server/storage.ts:43-72 | The tables start empty apart from the three default achievements, with ids 1-3: 10 completed quizzes, 1 perfect score, and a mean score of at least 90. |
| Seqs.FirstIndex | server/storage.ts:78-82 | Returns the position of the first element with that key, or the length when there is none. Every earlier element has a different key. Used by name for `getUserByUsername` and by user id for the tally's `userScores.get` (line 132). |
| Storage.CodeAccepted | server/storage.ts:221-225 | Accepts only a non-empty code equal to the stored one. A user whose code or expiry is cleared accepts nothing. |
| Storage.MemStorage.GetUser | server/storage.ts:74-76 | Returns a stored user with that id, or none exactly when no user has that id. |
| Storage.MemStorage.GetUserByUsername | server/storage.ts:78-82 | Returns the first stored user with that name, in insertion order: no earlier user has that name. Returns none exactly when no user has that name. |
| Storage.MemStorage.CreateUser | server/storage.ts:84-94 | Appends a user with the next id, the role defaulting to student, and no badges. The other tables are unchanged and the id invariant is kept. |
| Storage.MemStorage.UpdateUserBadges | server/storage.ts:96-106 | For a known id, replaces only that user's badges, in place. For an unknown id, fails and changes nothing. |
| Storage.MemStorage.CreateAchievement | server/storage.ts:108-116 | Appends the achievement with the next id. |
| Storage.MemStorage.GetAchievement | server/storage.ts:118-120 | Returns the achievement with that id, or none exactly when no achievement has that id. |
| Storage.MemStorage.GetAllAchievements | server/storage.ts:122-124 | Returns exactly the stored achievements, in id order 1, 2, 3, ... |
| Storage.MemStorage.GetLeaderboard | server/storage.ts:126-149 | The tally loop followed by the sort computes `Leaderboard.Board` of the store's attempts and users. |
| Storage.MemStorage.CreateQuiz | server/storage.ts:151-160 | Appends the quiz with the next id. A zero or missing time limit is stored as none. |
| Storage.MemStorage.GetQuiz | server/storage.ts:162-164 | Returns the quiz with that id, or none exactly when no quiz has that id. |
| Storage.MemStorage.GetQuizzesByCreator | server/storage.ts:166-170 | Returns exactly the quizzes of that creator, in increasing id order. |
| Storage.MemStorage.GetAssignedQuizzes | server/storage.ts:172-174 | Returns every stored quiz, whatever the user. |
| Storage.MemStorage.CreateAttempt | server/storage.ts:176-187 | Appends the attempt with the next id. A zero score is stored as none. |
| Storage.MemStorage.GetAttempt | server/storage.ts:189-191 | Returns the attempt with that id, or none exactly when no attempt has that id. |
| Storage.MemStorage.GetUserAttempts | server/storage.ts:193-197 | Returns exactly that user's attempts, in increasing id order. |
| Storage.MemStorage.GetQuizAttempts | server/storage.ts:199-203 | Returns exactly that quiz's attempts, in increasing id order. |
| Storage.MemStorage.SetResetCode | server/storage.ts:204-214 | For an unknown name, fails and changes nothing. Otherwise sets the code and expiry on the first user with that name. Afterwards the code validates at time t exactly when it is non-empty and t <= expiry. |
| Storage.MemStorage.ValidateResetCode | server/storage.ts:216-226 | True exactly when the first user with that name has a non-empty code equal to the one supplied and an expiry not before now. |
| Storage.MemStorage.ResetPassword | server/storage.ts:228-239 | Sets the password and clears the code and expiry of the first user with that name. Afterwards no code validates at any time. |
| Leaderboard.Tally | server/storage.ts:131-135 | One loop step. An attempt that is not completed and scored leaves the table unchanged. Otherwise the table grows by at most one row. |
| Leaderboard.Accumulate | server/storage.ts:127-137 | The tally over all attempts in order has at most one row per attempt. |
| Leaderboard.FirstSeen | server/storage.ts:140 | Returns the same ids without repeats, in first-occurrence order, as the keys of a `Map`. |
| Leaderboard.QualifyingScoresPresent | server/storage.ts:130-137 | A user has counted scores exactly when the user owns a counted attempt. |
| Leaderboard.AccumulateSpec | server/storage.ts:127-137 | The tally has one row per user with a completed, scored attempt, in order of first such attempt. Each row holds that user's count and total of those scores. |
| Leaderboard.RoundedAverage | server/storage.ts:144 | Returns the integer r with 2·count·r <= 200·total + count < 2·count·(r+1). That is 100·total/count rounded to the nearest integer, halves upward, as `Math.round` does. |
| Leaderboard.RoundedAverageBetween | server/storage.ts:144 | The rounded average of values in [lo, hi] lies in [100·lo, 100·hi] hundredths. |
| Leaderboard.DisplayName | server/storage.ts:143 | Returns the user's name, or "Unknown" for a missing user or an empty name. The result is never empty. |
| Leaderboard.SortByScore | server/storage.ts:146 | Returns a permutation of the rows, in non-increasing score order. |
| Leaderboard.SortStable | server/storage.ts:146 | Rows with equal scores keep their relative order. |
| Leaderboard.SortDistinct | server/storage.ts:140-146 | Sorting keeps one row per user. |
| Leaderboard.Unsorted | server/storage.ts:140-145 | One row per user with a completed, scored attempt, in the order of their first such attempt. `UnsortedRows` states each row's display name and rounded average. |
| Leaderboard.Board | server/storage.ts:126-149 | Returns the unsorted rows, permuted into non-increasing score order. |
| Leaderboard.UnsortedRows | server/storage.ts:140-145 | Each unsorted row belongs to a user with counted scores and carries their rounded average and display name. |
| Leaderboard.LeaderboardMembers | server/storage.ts:126-149 | A user has a row exactly when the user has a completed, scored attempt, and no user has two rows. |
| Leaderboard.LeaderboardScores | server/storage.ts:130-145 | Each row's score is the user's mean over completed, scored attempts, rounded to hundredths. It lies between 100 × their lowest and 100 × their highest score, and the row carries their display name. |
| Leaderboard.LeaderboardOrder | server/storage.ts:140-146 | Rows are in non-increasing score order. Ties keep the order of each user's first counted attempt. |
| Achievements.Earned | server/routes.ts:72-85 | The three rule kinds. A met count rule has a threshold no larger than the history. A met quiz_score rule needs a completed, scored attempt. |
| Achievements.BadgeFor | server/routes.ts:88-94 | The badge carries the achievement's name and the time stamp. For a non-negative id, the badge id is decimal digits that read back as the id. |
| Achievements.Step | server/routes.ts:70-95 | One iteration either keeps the badges or appends this achievement's badge. Afterwards the name is held exactly when it was held before or the rule is met. |
| Achievements.Evaluate | server/routes.ts:69-96 | The walk over the catalogue keeps the old badges as a prefix and adds at most one badge per catalogue entry. |
| Achievements.QuizScoreIsMean | server/routes.ts:80-84 | The quiz_score rule as modelled (cross-multiplied) holds exactly when there is a completed, scored attempt and the real-valued mean reaches the threshold. |
| Achievements.QuizScoreNeedsScores | server/routes.ts:80-84 | Without a completed, scored attempt, the quiz_score rule is never met: the mean is NaN. |
| Achievements.EvaluateAchievements | server/routes.ts:69-96 | The award loop computes `Evaluate` over the catalogue in order, seeing the badges it appended earlier in the walk. |
| Achievements.EvaluateAppends | server/routes.ts:69-96 | Only appends. Each new badge is the badge of a catalogue achievement that is met and whose name was not held before. |
| Achievements.EvaluateComplete | server/routes.ts:69-96 | Afterwards every met achievement of the catalogue is held by name. |
| Achievements.EvaluateDistinct | server/routes.ts:70 | If no two badges shared a name before, none do afterwards. |
| Achievements.EvaluateSettled | server/routes.ts:70 | When every met achievement is already held by name, nothing is added. |
| Achievements.EvaluateIdempotent | server/routes.ts:69-96 | Evaluating again on the result, with the same history, adds nothing. |
| Routes.ListAchievements | server/routes.ts:12-21 | Returns 401 with nothing when signed out. Otherwise returns 200 with the whole catalogue. |
| Routes.UserAchievements | server/routes.ts:23-32 | Returns 401 when signed out. Otherwise returns 200 with the caller's stored badges, or none for an unknown id. |
| Routes.LeaderboardRoute | server/routes.ts:35-44 | Returns 401 when signed out. Otherwise returns 200 with `Board` of the store. |
| Routes.UserAttemptsAfterAppend | server/routes.ts:61-65 | After an append, a user's attempts are the previous ones, followed by the new one when it is theirs. |
| Routes.AwardAchievements | server/routes.ts:62-96 | Unknown user id: reports failure and changes nothing. Otherwise stores `Evaluate` of the user's whole history as that user's badges and changes no other table. The old badges stay a prefix, every met achievement is held by name, and distinct names stay distinct. |
| Routes.CompleteAttempt | server/routes.ts:47-103 | Returns 401 or 404 and changes nothing when signed out or the attempt is unknown. Otherwise appends the completed copy. Returns 400 when the caller's id is gone. Otherwise returns 200: the caller's badges become `Evaluate` of their new history and keep the old badges as a prefix. Every met achievement is then held, and no duplicate name appears. |
| Routes.CreateQuizRoute | server/routes.ts:106-119 | Returns 401 when signed out and 403 for a student, and creates nothing. Otherwise returns 201 with the quiz stored under the caller's id. |
| Routes.ListQuizzes | server/routes.ts:121-132 | Returns 401 when signed out. A student gets every quiz. A teacher or admin gets exactly their own quizzes, in id order. |
| Routes.GetQuizRoute | server/routes.ts:134-144 | Returns 401 when signed out. Returns 200 with the quiz exactly when a quiz has that id, otherwise 404. |
| Routes.StartAttempt | server/routes.ts:146-160 | Returns 401 when signed out. Otherwise returns 201 with a new attempt by the caller that has no completion time, no score and an empty answer list. |
| Auth.HashPassword | server/auth.ts:18-22 | Returns 161 characters that split at '.' into exactly the key's hex and the salt's hex. |
| Auth.ComparePasswords | server/auth.ts:24-29 | Fails when there is no '.' or the decoded hash is not 64 bytes. Answers true exactly when the decoded first piece equals the key derived under the second. |
| Auth.ComparePasswordsHashed | server/auth.ts:18-29 | Against a stored hash, the comparison never fails and succeeds exactly when the derived keys agree. In particular it accepts the hashed password. |
| Auth.Login | server/auth.ts:42-48 | Looks up the first user with that name and logs them in exactly when their password compares true. An unknown name is rejected. |
| Auth.Register | server/auth.ts:56-71 | Returns 400 and creates nothing when the name is taken. Otherwise returns 201 with the request body stored as a new user under the hashed password: the role defaults to student, and a reset code and expiry in the body are kept. That password then logs in as them, and a code supplied in the body validates as stored. Keeps usernames unique. |
| Auth.ResetCodeDraw | server/auth.ts:95 | The drawn code lies in 100000..999999. |
| Auth.ResetCodeSixDigits | server/auth.ts:95 | The drawn code renders as six digits that read back as the number drawn. |
| Auth.RequestReset | server/auth.ts:85-106 | Always returns 200. Changes nothing for an unknown name. Otherwise stores and returns a six-digit code with expiry now + 1,800,000 ms, and that code validates at t exactly when t <= expiry. |
| Auth.VerifyResetCode | server/auth.ts:108-121 | Returns 200 exactly when the code is accepted now, otherwise 400. Changes nothing. |
| Auth.ResetPasswordRoute | server/auth.ts:123-139 | Returns 400 and changes nothing for a rejected code. Otherwise stores the new password's hash and clears the code, so no code opens it any more, and the new password logs in. |
| Text.NatToString | server/auth.ts:95 | Renders a number as at least one decimal digit, without a leading zero. |
| Text.IntToString | server/routes.ts:89 | Starts with '-' exactly for a negative number; the digits after any sign read back as the number's magnitude. |
| Text.HexEncode | server/auth.ts:21 | Returns two hex digits per byte. |
| Text.HexDecode | server/auth.ts:26 | Returns at most one byte per two characters, and exactly one per two when every character is a hex digit. |
| Text.Split | server/auth.ts:25 | Returns at least one piece, and no piece contains the separator. |
| Text.DecimalRoundTrip | server/routes.ts:89 | Reading back a number's decimal rendering gives the number. |
| Text.HexRoundTrip | server/auth.ts:21-26 | Hex-decoding the hex encoding of bytes gives the bytes. |
| Text.SplitAtFirst | server/auth.ts:25 | Text without the separator, then the separator, then more text splits into the first text followed by the pieces of the rest. |
| Text.SplitPieces | server/auth.ts:25 | Text splits into more than one piece exactly when it contains the separator. |
| Seqs.FilterKeepsOrder | server/storage.ts:166-203 | Filtering keeps the original order. |
| Seqs.SumBetweenExtremes | server/storage.ts:144 | A sum lies between the length times the minimum and the length times the maximum. |

## Left out

- Express, passport, `express-session` and its `MemoryStore`: framework plumbing. Handlers are methods that return a `Status`, and the session user is a parameter.
- Logout and `GET /api/user` (server/auth.ts:77-82, 141-144): session plumbing with no store effect.
- Passport's own refusal of an empty username or password, before the local strategy runs, is not part of this model.
- scrypt and `randomBytes`: foreign crypto, given as parameters: a total key-derivation function with a 64-byte output, and a 16-byte salt. `timingSafeEqual` is modelled as sequence equality that fails on unequal lengths; its constant-time behaviour is not captured.
- `Math.random`, `Date.now` and `new Date().toISOString()`: passed in as a real in [0, 1), epoch milliseconds, and a string.
- Floating point: averages, the 90% mean and `Math.round` are computed on exact rationals. Binary rounding of the quotient is not modelled.
- `parseInt` of path parameters: ids arrive as integers, so NaN ids are not modelled.
- The `catch` branches answering 500, and the ones answering 400 in POST /api/quizzes (server/routes.ts:116-118) and POST /api/quizzes/:id/attempts (server/routes.ts:157-159): no modelled store operation throws on the paths that reach them. `createQuiz` and `createAttempt` never throw. The one reachable throw, the caller's user missing during completion, is modelled as its 400.
- `req.body` spread into records: the model passes every field of the schema's insert shape, including a reset code and expiry in a registration body. Fields outside the schema are not stored.
- Routes.AwardAchievements: `earnedBadges.push` mutates the stored user's badge array in place before `updateUserBadges` writes it back. The model builds a new sequence, so the aliasing is not captured. The end state is the same.
- `new Date().toISOString()` is read once per awarded badge. The model stamps every badge awarded in one request with the same `nowIso`.
- Asynchrony: each handler runs to completion, so interleaved requests are not modelled.
- A user's `badges` column can be null in the database schema. In the store it is always a list, so `user.badges || []` has no null case.
- The client pages and zod schemas: client-side only.
