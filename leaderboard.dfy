/** The aggregation behind `MemStorage.getLeaderboard`: completed, scored attempts are tallied per user in a
    table kept in order of each user's first counted attempt (a JavaScript `Map` iterates in insertion
    order), each user's average is rounded to hundredths, and the rows are sorted by descending score with
    a stable sort, so equal scores keep the table's order.

    Scores are integer hundredths: a displayed average of 92.5 is the integer 9250. */
module Leaderboard {

  import opened Schema
  import opened Seqs

  /** An attempt counts when it has a score and a completion time. */
  predicate Qualifies(a: Attempt)
  {
    a.score.Some? && a.completedAt.Some?
  }

  /** One value of the `userScores` map: a user's number of counted attempts and their total score. */
  datatype Stats = Stats(userId: int, attempts: int, totalScore: int)

  /** One leaderboard row; `score` is the rounded average in hundredths. */
  datatype Entry = Entry(userId: int, username: string, score: int)

  // ---- the userScores table ----

  /** Position of `userId`'s row in the table, or `|table|` when it has none (`Map.get`). */
  function IndexOfUser(table: seq<Stats>, userId: int): nat
  {
    FirstIndex(table, (s: Stats) => s.userId, userId)
  }

  /** One iteration of the tally loop: a counted attempt bumps its user's row, or adds a row at the end. */
  function Tally(table: seq<Stats>, a: Attempt): (r: seq<Stats>)
    ensures !Qualifies(a) ==> r == table
    ensures |table| <= |r| <= |table| + 1
  {
    if !Qualifies(a) then table
    else
      var k := IndexOfUser(table, a.userId);
      if k < |table| then
        table[k := Stats(a.userId, table[k].attempts + 1, table[k].totalScore + a.score.value)]
      else
        table + [Stats(a.userId, 1, a.score.value)]
  }

  /** The table after tallying `atts` in order. */
  function Accumulate(atts: seq<Attempt>): (r: seq<Stats>)
    ensures |r| <= |atts|
  {
    if atts == [] then [] else Tally(Accumulate(atts[..|atts| - 1]), atts[|atts| - 1])
  }

  function UserIds(table: seq<Stats>): seq<int>
  {
    seq(|table|, i requires 0 <= i < |table| => table[i].userId)
  }

  // ---- reference definitions ----

  /** The users of the counted attempts, one per counted attempt, in attempt order. */
  function QualifiedUserIds(atts: seq<Attempt>): seq<int>
  {
    if atts == [] then []
    else
      var a := atts[|atts| - 1];
      QualifiedUserIds(atts[..|atts| - 1]) + (if Qualifies(a) then [a.userId] else [])
  }

  /** The scores of `userId`'s counted attempts, in attempt order. */
  function QualifyingScores(atts: seq<Attempt>, userId: int): seq<int>
  {
    if atts == [] then []
    else
      var a := atts[|atts| - 1];
      QualifyingScores(atts[..|atts| - 1], userId)
        + (if Qualifies(a) && a.userId == userId then [a.score.value] else [])
  }

  /** `ids` without repetitions, each kept at its first occurrence. */
  function FirstSeen(ids: seq<int>): (r: seq<int>)
    ensures forall x :: x in r <==> x in ids
    ensures forall i, j :: 0 <= i < j < |r| ==> r[i] != r[j]
  {
    if ids == [] then []
    else
      var r', x := FirstSeen(ids[..|ids| - 1]), ids[|ids| - 1];
      assert ids == ids[..|ids| - 1] + [x];
      if x in r' then r' else r' + [x]
  }

  /** A user has counted scores exactly when the user owns a counted attempt. */
  lemma {:induction false} QualifyingScoresPresent(atts: seq<Attempt>, userId: int)
    ensures QualifyingScores(atts, userId) != [] <==> userId in QualifiedUserIds(atts)
  {
    if atts != [] {
      QualifyingScoresPresent(atts[..|atts| - 1], userId);
    }
  }

  /** The table holds, per user, the count and the sum of exactly that user's counted scores. */
  ghost predicate Summarises(table: seq<Stats>, atts: seq<Attempt>)
  {
    forall k :: 0 <= k < |table| ==>
      var qs := QualifyingScores(atts, table[k].userId);
      table[k].attempts == |qs| > 0 && table[k].totalScore == Sum(qs)
  }

  lemma UserIdsSnoc(p: seq<Attempt>, a: Attempt)
    ensures QualifiedUserIds(p + [a]) == QualifiedUserIds(p) + (if Qualifies(a) then [a.userId] else [])
  {
    assert (p + [a])[..|p|] == p;
  }

  lemma ScoresSnoc(p: seq<Attempt>, a: Attempt, userId: int)
    ensures QualifyingScores(p + [a], userId)
      == QualifyingScores(p, userId) + (if Qualifies(a) && a.userId == userId then [a.score.value] else [])
  {
    assert (p + [a])[..|p|] == p;
  }

  lemma AccumulateSnoc(p: seq<Attempt>, a: Attempt)
    ensures Accumulate(p + [a]) == Tally(Accumulate(p), a)
  {
    assert (p + [a])[..|p|] == p;
  }

  /** Tallying a counted attempt of a user who already has a row keeps the table's order and summary. */
  lemma TallyExisting(p: seq<Attempt>, a: Attempt)
    requires Qualifies(a)
    requires UserIds(Accumulate(p)) == FirstSeen(QualifiedUserIds(p))
    requires Summarises(Accumulate(p), p)
    requires IndexOfUser(Accumulate(p), a.userId) < |Accumulate(p)|
    ensures UserIds(Accumulate(p + [a])) == FirstSeen(QualifiedUserIds(p + [a]))
    ensures Summarises(Accumulate(p + [a]), p + [a])
  {
    var u, x := a.userId, a.score.value;
    var t' := Accumulate(p);
    var k := IndexOfUser(t', u);
    var t := t'[k := Stats(u, t'[k].attempts + 1, t'[k].totalScore + x)];
    assert Accumulate(p + [a]) == t by {
      AccumulateSnoc(p, a);
      assert Tally(t', a) == t;
    }
    assert UserIds(t')[k] == u;
    assert UserIds(t) == FirstSeen(QualifiedUserIds(p + [a])) by {
      UserIdsSnoc(p, a);
      var ids := QualifiedUserIds(p) + [u];
      assert ids[..|ids| - 1] == QualifiedUserIds(p);
      assert FirstSeen(ids) == FirstSeen(QualifiedUserIds(p));
      assert UserIds(t) == UserIds(t');
    }
    assert forall i :: 0 <= i < |t'| && i != k ==> t'[i].userId != u by {
      forall i | 0 <= i < |t'| && i != k ensures t'[i].userId != u {
        assert UserIds(t')[i] != UserIds(t')[k];
      }
    }
    SummarisesBump(t', p, a, k);
  }

  /** Bumping the one row of a user by a counted score summarises that user's scores with the new one. */
  lemma SummarisesBump(t': seq<Stats>, p: seq<Attempt>, a: Attempt, k: int)
    requires Qualifies(a)
    requires Summarises(t', p)
    requires 0 <= k < |t'| && t'[k].userId == a.userId
    requires forall i :: 0 <= i < |t'| && i != k ==> t'[i].userId != a.userId
    ensures Summarises(t'[k := Stats(a.userId, t'[k].attempts + 1, t'[k].totalScore + a.score.value)], p + [a])
  {
    var u, x := a.userId, a.score.value;
    var t := t'[k := Stats(u, t'[k].attempts + 1, t'[k].totalScore + x)];
    forall j | 0 <= j < |t|
      ensures var qs := QualifyingScores(p + [a], t[j].userId);
        t[j].attempts == |qs| > 0 && t[j].totalScore == Sum(qs)
    {
      var w := t'[j].userId;
      ScoresSnoc(p, a, w);
      if j != k {
        assert QualifyingScores(p + [a], w) == QualifyingScores(p, w) + [] == QualifyingScores(p, w);
      } else {
        SumSnoc(QualifyingScores(p, u), x);
        assert Sum(QualifyingScores(p + [a], u)) == Sum(QualifyingScores(p, u)) + x;
      }
    }
  }

  /** Tallying a counted attempt of a user without a row appends that user's row with one score. */
  lemma TallyNew(p: seq<Attempt>, a: Attempt)
    requires Qualifies(a)
    requires UserIds(Accumulate(p)) == FirstSeen(QualifiedUserIds(p))
    requires Summarises(Accumulate(p), p)
    requires IndexOfUser(Accumulate(p), a.userId) == |Accumulate(p)|
    ensures UserIds(Accumulate(p + [a])) == FirstSeen(QualifiedUserIds(p + [a]))
    ensures Summarises(Accumulate(p + [a]), p + [a])
  {
    var atts := p + [a];
    var u, x := a.userId, a.score.value;
    var t' := Accumulate(p);
    var t := t' + [Stats(u, 1, x)];
    assert Accumulate(atts) == t by {
      AccumulateSnoc(p, a);
      assert Tally(t', a) == t;
    }
    assert forall i :: 0 <= i < |t'| ==> t'[i].userId != u;
    assert u !in UserIds(t') by {
      forall i | 0 <= i < |t'| ensures UserIds(t')[i] != u { }
    }
    assert UserIds(t) == FirstSeen(QualifiedUserIds(atts)) by {
      UserIdsSnoc(p, a);
      var ids := QualifiedUserIds(p) + [u];
      assert ids[..|ids| - 1] == QualifiedUserIds(p);
      assert FirstSeen(ids) == FirstSeen(QualifiedUserIds(p)) + [u];
      assert UserIds(t) == UserIds(t') + [u];
    }
    assert QualifyingScores(p, u) == [] by {
      QualifyingScoresPresent(p, u);
    }
    SummarisesAppendNew(t', p, a);
  }

  /** A new row for a user who had no counted attempt summarises that user's one counted score. */
  lemma SummarisesAppendNew(t': seq<Stats>, p: seq<Attempt>, a: Attempt)
    requires Qualifies(a)
    requires Summarises(t', p)
    requires forall i :: 0 <= i < |t'| ==> t'[i].userId != a.userId
    requires QualifyingScores(p, a.userId) == []
    ensures Summarises(t' + [Stats(a.userId, 1, a.score.value)], p + [a])
  {
    var u, x := a.userId, a.score.value;
    var t := t' + [Stats(u, 1, x)];
    forall j | 0 <= j < |t|
      ensures var qs := QualifyingScores(p + [a], t[j].userId);
        t[j].attempts == |qs| > 0 && t[j].totalScore == Sum(qs)
    {
      if j < |t'| {
        var w := t'[j].userId;
        assert t[j] == t'[j];
        ScoresSnoc(p, a, w);
        assert QualifyingScores(p + [a], w) == QualifyingScores(p, w) + [] == QualifyingScores(p, w);
      } else {
        ScoresSnoc(p, a, u);
        SumSnoc([], x);
        assert [] + [x] == [x];
        assert t[j] == Stats(u, 1, x);
        assert QualifyingScores(p + [a], u) == [x];
      }
    }
  }

  /** The tally loop builds one row per user with a counted attempt, in order of each user's first counted
      attempt, holding the number and the sum of that user's counted scores. */
  lemma {:induction false} AccumulateSpec(atts: seq<Attempt>)
    ensures UserIds(Accumulate(atts)) == FirstSeen(QualifiedUserIds(atts))
    ensures Summarises(Accumulate(atts), atts)
  {
    if atts != [] {
      var p, a := atts[..|atts| - 1], atts[|atts| - 1];
      assert atts == p + [a];
      AccumulateSpec(p);
      if !Qualifies(a) {
        AccumulateSnoc(p, a);
        UserIdsSnoc(p, a);
        assert Accumulate(atts) == Accumulate(p);
        assert QualifiedUserIds(atts) == QualifiedUserIds(p);
        forall k | 0 <= k < |Accumulate(atts)|
          ensures QualifyingScores(atts, Accumulate(atts)[k].userId) == QualifyingScores(p, Accumulate(atts)[k].userId)
        {
          ScoresSnoc(p, a, Accumulate(atts)[k].userId);
        }
      } else if IndexOfUser(Accumulate(p), a.userId) < |Accumulate(p)| {
        TallyExisting(p, a);
      } else {
        TallyNew(p, a);
      }
    }
  }

  // ---- rounding ----

  /** `Math.round(total / count * 100)` in hundredths, on the exact quotient: floor(100 * total / count + 1/2),
      which rounds halves upwards as `Math.round` does. */
  function RoundedAverage(total: int, count: int): (r: int)
    requires count > 0
    ensures 2 * count * r <= 200 * total + count < 2 * count * (r + 1)
  {
    var x, d := 200 * total + count, 2 * count;
    assert x == (x / d) * d + x % d && 0 <= x % d < d;
    x / d
  }

  lemma DivAtLeast(x: int, d: int, q: int)
    requires d > 0 && q * d <= x
    ensures q <= x / d
  {
    var qq := x / d;
    assert x == qq * d + x % d && x % d < d;
    assert (qq + 1) * d == qq * d + d;
    if qq < q {
      MulMonotone(qq + 1, q, d);
    }
  }

  lemma DivAtMost(x: int, d: int, q: int)
    requires d > 0 && x < (q + 1) * d
    ensures x / d <= q
  {
    var qq := x / d;
    assert x == qq * d + x % d && 0 <= x % d;
    if qq > q {
      MulMonotone(q + 1, qq, d);
    }
  }

  /** An average of values between `lo` and `hi` rounds to a value between them. */
  lemma RoundedAverageBetween(total: int, count: int, lo: int, hi: int)
    requires count > 0 && lo * count <= total <= hi * count
    ensures 100 * lo <= RoundedAverage(total, count) <= 100 * hi
  {
    var x, d := 200 * total + count, 2 * count;
    assert (100 * lo) * d == 200 * (lo * count);
    DivAtLeast(x, d, 100 * lo);
    assert (100 * hi + 1) * d == 200 * (hi * count) + d;
    DivAtMost(x, d, 100 * hi);
  }

  // ---- rows ----

  /** `users.get(userId)?.username || "Unknown"`; `users` is the store's user table, where the record at
      index i has id i + 1. */
  function DisplayName(users: seq<User>, userId: int): (name: string)
    ensures !(1 <= userId <= |users|) ==> name == "Unknown"
    ensures 1 <= userId <= |users| && users[userId - 1].username != "" ==> name == users[userId - 1].username
    ensures 1 <= userId <= |users| && users[userId - 1].username == "" ==> name == "Unknown"
    ensures name != ""
  {
    if 1 <= userId <= |users| && users[userId - 1].username != "" then users[userId - 1].username
    else "Unknown"
  }

  function Row(s: Stats, users: seq<User>): Entry
    requires s.attempts > 0
  {
    Entry(s.userId, DisplayName(users, s.userId), RoundedAverage(s.totalScore, s.attempts))
  }

  /** The rows before sorting, in table order. */
  function Rows(table: seq<Stats>, users: seq<User>): (r: seq<Entry>)
    requires forall k :: 0 <= k < |table| ==> table[k].attempts > 0
  {
    seq(|table|, k requires 0 <= k < |table| => Row(table[k], users))
  }

  // ---- stable sort by descending score ----

  predicate SortedByScore(s: seq<Entry>)
  {
    forall i, j :: 0 <= i < j < |s| ==> s[i].score >= s[j].score
  }

  /** Puts `x` before the first row whose score does not exceed its own. */
  function Insert(x: Entry, s: seq<Entry>): (r: seq<Entry>)
    ensures multiset(r) == multiset(s) + multiset{x}
    ensures |r| == |s| + 1
  {
    if s == [] || x.score >= s[0].score then [x] + s
    else
      assert s == [s[0]] + s[1..];
      [s[0]] + Insert(x, s[1..])
  }

  /** Inserting below a bound keeps every row below it. */
  lemma InsertBelow(x: Entry, t: seq<Entry>, bound: int)
    requires x.score <= bound
    requires forall e :: e in t ==> e.score <= bound
    ensures forall e :: e in Insert(x, t) ==> e.score <= bound
  {
    forall e | e in Insert(x, t) ensures e.score <= bound {
      assert e in multiset(Insert(x, t));
    }
  }

  /** A row heading a sorted list whose rows all score at most its own keeps the list sorted. */
  lemma ConsSorted(h: Entry, s: seq<Entry>)
    requires SortedByScore(s)
    requires forall e :: e in s ==> e.score <= h.score
    ensures SortedByScore([h] + s)
  {
    var r := [h] + s;
    forall i, j | 0 <= i < j < |r| ensures r[i].score >= r[j].score {
      assert r[j] == s[j - 1] && s[j - 1] in s;
      if i > 0 {
        assert r[i] == s[i - 1];
      }
    }
  }

  lemma {:induction false} InsertSorted(x: Entry, s: seq<Entry>)
    requires SortedByScore(s)
    ensures SortedByScore(Insert(x, s))
  {
    if s == [] || x.score >= s[0].score {
      assert forall e :: e in s ==> e.score <= x.score by {
        forall e | e in s ensures e.score <= x.score {
          var m :| 0 <= m < |s| && s[m] == e;
          assert s[0].score >= s[m].score;
        }
      }
      ConsSorted(x, s);
    } else {
      var t := s[1..];
      assert s == [s[0]] + t;
      assert SortedByScore(t) by {
        forall i, j | 0 <= i < j < |t| ensures t[i].score >= t[j].score {
          assert t[i] == s[i + 1] && t[j] == s[j + 1];
        }
      }
      assert forall e :: e in t ==> e.score <= s[0].score by {
        forall e | e in t ensures e.score <= s[0].score {
          var m :| 0 <= m < |t| && t[m] == e;
          assert s[m + 1] == e;
        }
      }
      InsertSorted(x, t);
      InsertBelow(x, t, s[0].score);
      ConsSorted(s[0], Insert(x, t));
    }
  }

  /** `Array.prototype.sort` with the comparator `(a, b) => b.score - a.score`, as an insertion sort; the
      sort is stable, which section 22.1.3.27 of ECMA-262 10th edition (2019) requires. */
  function SortByScore(s: seq<Entry>): (r: seq<Entry>)
    ensures multiset(r) == multiset(s)
    ensures SortedByScore(r)
  {
    if s == [] then []
    else
      var rest := SortByScore(s[1..]);
      InsertSorted(s[0], rest);
      assert s == [s[0]] + s[1..];
      Insert(s[0], rest)
  }

  /** The rows with score `v`, in order. */
  function WithScore(s: seq<Entry>, v: int): seq<Entry>
  {
    if s == [] then [] else (if s[0].score == v then [s[0]] else []) + WithScore(s[1..], v)
  }

  lemma WithScoreCons(e: Entry, s: seq<Entry>, v: int)
    ensures WithScore([e] + s, v) == (if e.score == v then [e] else []) + WithScore(s, v)
  {
    assert ([e] + s)[0] == e && ([e] + s)[1..] == s;
  }

  lemma {:induction false} InsertStable(x: Entry, s: seq<Entry>, v: int)
    ensures WithScore(Insert(x, s), v) == WithScore([x] + s, v)
  {
    if s != [] && x.score < s[0].score {
      var h, t := s[0], s[1..];
      assert s == [h] + t;
      var rest := Insert(x, t);
      assert Insert(x, s) == [h] + rest;
      InsertStable(x, t, v);
      WithScoreCons(h, rest, v);
      WithScoreCons(x, t, v);
      WithScoreCons(h, t, v);
      WithScoreCons(x, s, v);
      // x and h have different scores, so at most one of them is kept
      var keepX, keepH := if x.score == v then [x] else [], if h.score == v then [h] else [];
      assert keepX == [] || keepH == [];
      assert WithScore(Insert(x, s), v) == keepH + (keepX + WithScore(t, v));
      assert WithScore([x] + s, v) == keepX + (keepH + WithScore(t, v));
    }
  }

  /** Sorting keeps the relative order of rows with equal scores. */
  lemma {:induction false} SortStable(s: seq<Entry>, v: int)
    ensures WithScore(SortByScore(s), v) == WithScore(s, v)
  {
    if s != [] {
      var rest := SortByScore(s[1..]);
      SortStable(s[1..], v);
      InsertStable(s[0], rest, v);
      WithScoreCons(s[0], rest, v);
      WithScoreCons(s[0], s[1..], v);
      assert s == [s[0]] + s[1..];
    }
  }

  predicate DistinctUsers(s: seq<Entry>)
  {
    forall i, j :: 0 <= i < j < |s| ==> s[i].userId != s[j].userId
  }

  lemma {:induction false} InsertDistinct(x: Entry, s: seq<Entry>)
    requires DistinctUsers(s)
    requires forall e :: e in s ==> e.userId != x.userId
    ensures DistinctUsers(Insert(x, s))
  {
    var r := Insert(x, s);
    if s == [] || x.score >= s[0].score {
      assert r == [x] + s;
      forall i, j | 0 <= i < j < |r| ensures r[i].userId != r[j].userId {
        assert r[j] == s[j - 1];
        if i > 0 {
          assert r[i] == s[i - 1];
        }
      }
    } else {
      var t := s[1..];
      assert DistinctUsers(t) by {
        forall i, j | 0 <= i < j < |t| ensures t[i].userId != t[j].userId {
          assert t[i] == s[i + 1] && t[j] == s[j + 1];
        }
      }
      InsertDistinct(x, t);
      var rest := Insert(x, t);
      assert r == [s[0]] + rest;
      forall i, j | 0 <= i < j < |r| ensures r[i].userId != r[j].userId {
        if i == 0 {
          assert r[j] == rest[j - 1];
          assert r[j] in multiset(rest);
          if r[j] != x {
            assert r[j] in t;
            var m :| 0 <= m < |t| && t[m] == r[j];
            assert s[m + 1] == r[j];
          }
        } else {
          assert r[i] == rest[i - 1] && r[j] == rest[j - 1];
        }
      }
    }
  }

  /** Sorting never puts two rows of one user where there was one. */
  lemma {:induction false} SortDistinct(s: seq<Entry>)
    requires DistinctUsers(s)
    ensures DistinctUsers(SortByScore(s))
  {
    if s != [] {
      var t := s[1..];
      assert DistinctUsers(t) by {
        forall i, j | 0 <= i < j < |t| ensures t[i].userId != t[j].userId {
          assert t[i] == s[i + 1] && t[j] == s[j + 1];
        }
      }
      SortDistinct(t);
      var rest := SortByScore(t);
      forall e | e in rest ensures e.userId != s[0].userId {
        assert e in multiset(t);
        var m :| 0 <= m < |t| && t[m] == e;
        assert s[m + 1] == e;
      }
      InsertDistinct(s[0], rest);
    }
  }

  // ---- the leaderboard ----

  /** The rows in table order, before sorting: one per user with counted attempts, in the order of the
      users' first counted attempts (`UnsortedRows` gives each row's name and score). */
  function Unsorted(atts: seq<Attempt>, users: seq<User>): (r: seq<Entry>)
    ensures |r| == |FirstSeen(QualifiedUserIds(atts))|
    ensures forall k :: 0 <= k < |r| ==> r[k].userId == FirstSeen(QualifiedUserIds(atts))[k]
  {
    AccumulateSpec(atts);
    Rows(Accumulate(atts), users)
  }

  /** `getLeaderboard()` over the store's attempts and users, both in insertion order. */
  function Board(atts: seq<Attempt>, users: seq<User>): (r: seq<Entry>)
    ensures multiset(r) == multiset(Unsorted(atts, users))
    ensures SortedByScore(r)
  {
    SortByScore(Unsorted(atts, users))
  }

  /** Every row of the unsorted table belongs to a user with counted attempts and carries the rounded
      average of exactly that user's counted scores, which lies between their least and greatest score. */
  lemma UnsortedRows(atts: seq<Attempt>, users: seq<User>, e: Entry)
    requires e in Unsorted(atts, users)
    ensures var qs := QualifyingScores(atts, e.userId);
      && qs != []
      && e.score == RoundedAverage(Sum(qs), |qs|)
      && 100 * Min(qs) <= e.score <= 100 * Max(qs)
      && e.username == DisplayName(users, e.userId)
  {
    AccumulateSpec(atts);
    var t := Accumulate(atts);
    var u := Unsorted(atts, users);
    var k :| 0 <= k < |u| && u[k] == e;
    assert e == Row(t[k], users);
    var qs := QualifyingScores(atts, e.userId);
    SumBetweenExtremes(qs);
    RoundedAverageBetween(Sum(qs), |qs|, Min(qs), Max(qs));
  }

  /** The leaderboard has exactly one row per user with at least one completed, scored attempt; users
      without one are absent. */
  lemma LeaderboardMembers(atts: seq<Attempt>, users: seq<User>)
    ensures var r := Board(atts, users);
      && (forall userId :: (exists e :: e in r && e.userId == userId) <==> QualifyingScores(atts, userId) != [])
      && DistinctUsers(r)
  {
    AccumulateSpec(atts);
    var t := Accumulate(atts);
    var u := Unsorted(atts, users);
    var r := Board(atts, users);
    forall userId
      ensures (exists e :: e in r && e.userId == userId) <==> QualifyingScores(atts, userId) != []
    {
      QualifyingScoresPresent(atts, userId);
      if QualifyingScores(atts, userId) != [] {
        assert userId in UserIds(t);
        var k :| 0 <= k < |t| && UserIds(t)[k] == userId;
        assert u[k] in multiset(r);
      }
      if e :| e in r && e.userId == userId {
        assert e in multiset(u);
        UnsortedRows(atts, users, e);
      }
    }
    assert DistinctUsers(u) by {
      forall i, j | 0 <= i < j < |u| ensures u[i].userId != u[j].userId {
        assert u[i].userId == UserIds(t)[i] && u[j].userId == UserIds(t)[j];
      }
    }
    SortDistinct(u);
  }

  /** Each row's score is its user's average over completed, scored attempts, rounded to hundredths, and
      lies between that user's least and greatest such score; the name is "Unknown" for a missing user. */
  lemma LeaderboardScores(atts: seq<Attempt>, users: seq<User>)
    ensures forall e :: e in Board(atts, users) ==>
      var qs := QualifyingScores(atts, e.userId);
      && qs != []
      && e.score == RoundedAverage(Sum(qs), |qs|)
      && 100 * Min(qs) <= e.score <= 100 * Max(qs)
      && e.username == DisplayName(users, e.userId)
  {
    forall e | e in Board(atts, users)
      ensures var qs := QualifyingScores(atts, e.userId);
        && qs != []
        && e.score == RoundedAverage(Sum(qs), |qs|)
        && 100 * Min(qs) <= e.score <= 100 * Max(qs)
        && e.username == DisplayName(users, e.userId)
    {
      assert e in multiset(Board(atts, users));
      UnsortedRows(atts, users, e);
    }
  }

  /** Rows are in non-increasing score order, and rows with equal scores appear in the order of their
      users' first completed, scored attempts. */
  lemma LeaderboardOrder(atts: seq<Attempt>, users: seq<User>)
    ensures SortedByScore(Board(atts, users))
    ensures forall v :: WithScore(Board(atts, users), v) == WithScore(Unsorted(atts, users), v)
    ensures UserIds(Accumulate(atts)) == FirstSeen(QualifiedUserIds(atts))
    ensures |Unsorted(atts, users)| == |Accumulate(atts)|
      && forall k :: 0 <= k < |Accumulate(atts)| ==> Unsorted(atts, users)[k].userId == UserIds(Accumulate(atts))[k]
  {
    AccumulateSpec(atts);
    forall v ensures WithScore(Board(atts, users), v) == WithScore(Unsorted(atts, users), v) {
      SortStable(Unsorted(atts, users), v);
    }
  }
}
