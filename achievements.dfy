/** The achievement rules evaluated when an attempt is completed: each rule of the catalogue whose name the
    user does not yet hold as a badge is checked against the user's attempt history, and a badge is appended
    for each rule that is met. */
module Achievements {

  import opened Schema
  import opened Seqs
  import Text

  /** Attempts with a completion time (`a.completedAt` is truthy). */
  function Completed(history: seq<Attempt>): seq<Attempt>
  {
    Filter(history, (a: Attempt) => a.completedAt.Some?)
  }

  /** Attempts whose score is exactly 100, completed or not. */
  function Perfect(history: seq<Attempt>): seq<Attempt>
  {
    Filter(history, (a: Attempt) => a.score == Some(100))
  }

  /** Attempts with a completion time and a score: the ones averaged by the quiz_score rule. */
  function CompletedScored(history: seq<Attempt>): seq<Attempt>
  {
    Filter(history, (a: Attempt) => a.completedAt.Some? && a.score.Some?)
  }

  /** `reduce((sum, a) => sum + (a.score || 0), 0)`: the total score, a missing score counting as 0. */
  function ScoreTotal(attempts: seq<Attempt>): int
  {
    if attempts == [] then 0
    else
      var last := attempts[|attempts| - 1];
      ScoreTotal(attempts[..|attempts| - 1]) + (if last.score.Some? then last.score.value else 0)
  }

  /** Whether the rule `achievement` is met by `history`. The quiz_score rule compares the mean by
      cross-multiplication; with no completed, scored attempt the mean is 0/0 (NaN in JavaScript), and
      NaN >= threshold is false. */
  function Earned(history: seq<Attempt>, achievement: Achievement): (met: bool)
    ensures met && achievement.requirement.kind != QuizScore ==> achievement.requirement.threshold <= |history|
    ensures met && achievement.requirement.kind == QuizScore ==>
      exists a :: a in history && a.completedAt.Some? && a.score.Some?
  {
    var scored := CompletedScored(history);
    assert |scored| > 0 ==> scored[0] in scored;
    var threshold := achievement.requirement.threshold;
    match achievement.requirement.kind
    case QuizzesCompleted => |Completed(history)| >= threshold
    case PerfectScores => |Perfect(history)| >= threshold
    case QuizScore => |scored| > 0 && ScoreTotal(scored) >= threshold * |scored|
  }

  /** The quiz_score rule against the mean computed with real division: met exactly when there is at least
      one completed, scored attempt and their mean score reaches the threshold. */
  lemma QuizScoreIsMean(history: seq<Attempt>, achievement: Achievement)
    requires achievement.requirement.kind == QuizScore
    ensures var scored := CompletedScored(history);
      Earned(history, achievement)
      <==> |scored| > 0 && (ScoreTotal(scored) as real) / (|scored| as real) >= achievement.requirement.threshold as real
  {
    var scored := CompletedScored(history);
    if |scored| > 0 {
      MeanAtLeast(ScoreTotal(scored), |scored|, achievement.requirement.threshold);
    }
  }

  /** Comparing a mean with a threshold is comparing the total with the threshold times the count. */
  lemma MeanAtLeast(total: int, n: int, t: int)
    requires n > 0
    ensures (total as real) / (n as real) >= t as real <==> total >= t * n
  {
    var sum, count, bound := total as real, n as real, t as real;
    assert (t * n) as real == bound * count;
    assert sum == (sum / count) * count;
    if sum / count >= bound {
      assert (sum / count) * count >= bound * count;
    }
    if sum >= bound * count {
      assert sum / count >= (bound * count) / count;
    }
  }

  /** The badge recorded for an achievement: its id rendered in decimal, its name, description and image,
      stamped with the evaluation time. */
  function BadgeFor(achievement: Achievement, earnedAt: string): (b: Badge)
    ensures b.name == achievement.name && b.earnedAt == earnedAt
    ensures achievement.id >= 0 ==> (forall c :: c in b.id ==> Text.IsDigit(c)) && Text.DecimalValue(b.id) == achievement.id
  {
    Text.DecimalRoundTrip(if achievement.id >= 0 then achievement.id else 0);
    Badge(Text.IntToString(achievement.id), achievement.name, achievement.description, achievement.badgeImage, earnedAt)
  }

  /** `badges.some(b => b.name === name)`. */
  predicate HasName(badges: seq<Badge>, name: string)
  {
    exists b :: b in badges && b.name == name
  }

  /** One iteration of the award loop. */
  function Step(history: seq<Attempt>, achievement: Achievement, badges: seq<Badge>, earnedAt: string): (r: seq<Badge>)
    ensures r == badges || r == badges + [BadgeFor(achievement, earnedAt)]
    ensures HasName(r, achievement.name) <==> HasName(badges, achievement.name) || Earned(history, achievement)
  {
    assert BadgeFor(achievement, earnedAt) in badges + [BadgeFor(achievement, earnedAt)];
    if HasName(badges, achievement.name) then badges
    else if Earned(history, achievement) then badges + [BadgeFor(achievement, earnedAt)]
    else badges
  }

  /** The badge list after walking the catalogue in order, starting from `badges`. */
  function Evaluate(history: seq<Attempt>, catalogue: seq<Achievement>, badges: seq<Badge>, earnedAt: string): (r: seq<Badge>)
    ensures badges <= r
    ensures |r| <= |badges| + |catalogue|
  {
    if catalogue == [] then badges
    else Evaluate(history, catalogue[1..], Step(history, catalogue[0], badges, earnedAt), earnedAt)
  }

  /** The award loop: walks the catalogue, skips achievements whose name is already held (including badges
      appended earlier in the same walk), and appends a badge for each rule met. */
  method EvaluateAchievements(history: seq<Attempt>, catalogue: seq<Achievement>, badges: seq<Badge>, earnedAt: string)
    returns (earned: seq<Badge>)
    ensures earned == Evaluate(history, catalogue, badges, earnedAt)
  {
    earned := badges;
    var i := 0;
    while i < |catalogue|
      invariant 0 <= i <= |catalogue|
      invariant Evaluate(history, catalogue[i..], earned, earnedAt) == Evaluate(history, catalogue, badges, earnedAt)
    {
      var achievement := catalogue[i];
      assert catalogue[i..][1..] == catalogue[i + 1..];
      if HasName(earned, achievement.name) {
        i := i + 1;
        continue;
      }
      var met := false;
      var threshold := achievement.requirement.threshold;
      match achievement.requirement.kind {
        case QuizzesCompleted =>
          met := |Completed(history)| >= threshold;
        case PerfectScores =>
          met := |Perfect(history)| >= threshold;
        case QuizScore =>
          var scored := CompletedScored(history);
          met := |scored| > 0 && ScoreTotal(scored) >= threshold * |scored|;
      }
      if met {
        earned := earned + [BadgeFor(achievement, earnedAt)];
      }
      i := i + 1;
    }
  }

  // ---- properties ----

  /** Evaluation only appends: the badges held before keep their order and contents, and each appended badge
      belongs to a catalogue achievement whose rule is met and whose name was not held before. */
  lemma {:induction false} EvaluateAppends(history: seq<Attempt>, catalogue: seq<Achievement>, badges: seq<Badge>, earnedAt: string)
    ensures var r := Evaluate(history, catalogue, badges, earnedAt);
      && badges <= r
      && forall k :: |badges| <= k < |r| ==>
           exists a :: a in catalogue && r[k] == BadgeFor(a, earnedAt) && Earned(history, a) && !HasName(badges, a.name)
  {
    if catalogue != [] {
      var a := catalogue[0];
      var next := Step(history, a, badges, earnedAt);
      EvaluateAppends(history, catalogue[1..], next, earnedAt);
      var r := Evaluate(history, catalogue, badges, earnedAt);
      assert forall w :: w in badges ==> w in next;
      forall k | |badges| <= k < |r|
        ensures exists b :: b in catalogue && r[k] == BadgeFor(b, earnedAt) && Earned(history, b) && !HasName(badges, b.name)
      {
        if k < |next| {
          assert next == badges + [BadgeFor(a, earnedAt)] && r[k] == next[k];
          assert r[k] == BadgeFor(a, earnedAt);
        } else {
          var b :| b in catalogue[1..] && r[k] == BadgeFor(b, earnedAt) && Earned(history, b) && !HasName(next, b.name);
          assert b in catalogue;
        }
      }
    }
  }

  /** After evaluation every met rule of the catalogue is held by name. */
  lemma {:induction false} EvaluateComplete(history: seq<Attempt>, catalogue: seq<Achievement>, badges: seq<Badge>, earnedAt: string)
    ensures forall a :: a in catalogue && Earned(history, a) ==> HasName(Evaluate(history, catalogue, badges, earnedAt), a.name)
  {
    if catalogue != [] {
      var a := catalogue[0];
      var next := Step(history, a, badges, earnedAt);
      EvaluateComplete(history, catalogue[1..], next, earnedAt);
      EvaluateAppends(history, catalogue[1..], next, earnedAt);
      var r := Evaluate(history, catalogue, badges, earnedAt);
      if Earned(history, a) {
        if HasName(badges, a.name) {
          var w :| w in badges && w.name == a.name;
          assert w in next;
        } else {
          assert BadgeFor(a, earnedAt) in next;
        }
        var w :| w in next && w.name == a.name;
        assert w in r;
      }
    }
  }

  /** No two badges share a name. */
  predicate DistinctNames(badges: seq<Badge>)
  {
    forall i, j :: 0 <= i < j < |badges| ==> badges[i].name != badges[j].name
  }

  /** Evaluation never introduces a duplicate name, because each name check sees the badges appended
      earlier in the same walk. */
  lemma {:induction false} EvaluateDistinct(history: seq<Attempt>, catalogue: seq<Achievement>, badges: seq<Badge>, earnedAt: string)
    requires DistinctNames(badges)
    ensures DistinctNames(Evaluate(history, catalogue, badges, earnedAt))
  {
    if catalogue != [] {
      var a := catalogue[0];
      var next := Step(history, a, badges, earnedAt);
      if next != badges {
        assert next == badges + [BadgeFor(a, earnedAt)];
        forall i, j | 0 <= i < j < |next| ensures next[i].name != next[j].name {
          if j == |badges| {
            assert next[i] in badges;
          }
        }
      }
      EvaluateDistinct(history, catalogue[1..], next, earnedAt);
    }
  }

  /** With every met rule already held by name, evaluation adds nothing. */
  lemma {:induction false} EvaluateSettled(history: seq<Attempt>, catalogue: seq<Achievement>, badges: seq<Badge>, earnedAt: string)
    requires forall a :: a in catalogue && Earned(history, a) ==> HasName(badges, a.name)
    ensures Evaluate(history, catalogue, badges, earnedAt) == badges
  {
    if catalogue != [] {
      assert Step(history, catalogue[0], badges, earnedAt) == badges;
      EvaluateSettled(history, catalogue[1..], badges, earnedAt);
    }
  }

  /** Re-running the evaluation on its own output with the same history adds nothing, at any time. */
  lemma EvaluateIdempotent(history: seq<Attempt>, catalogue: seq<Achievement>, badges: seq<Badge>, earnedAt: string, later: string)
    ensures var once := Evaluate(history, catalogue, badges, earnedAt);
      Evaluate(history, catalogue, once, later) == once
  {
    EvaluateComplete(history, catalogue, badges, earnedAt);
    EvaluateSettled(history, catalogue, Evaluate(history, catalogue, badges, earnedAt), later);
  }

  /** The quiz_score rule is never met by a history without a completed, scored attempt (the mean of no
      attempts is NaN, which compares false with any threshold). */
  lemma QuizScoreNeedsScores(history: seq<Attempt>, achievement: Achievement)
    requires achievement.requirement.kind == QuizScore
    requires forall a :: a in history ==> a.completedAt.None? || a.score.None?
    ensures !Earned(history, achievement)
  {
    FilterNone(history, (a: Attempt) => a.completedAt.Some? && a.score.Some?);
  }
}
