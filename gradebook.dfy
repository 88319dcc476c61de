/** The gradebook analyser: loading marks from CSV rows, the summary statistics, the letter
    grades with their tally, and the pass/fail split at 40. */
module Gradebook {
  import opened Wrappers
  import RealStats
  import Grouping

  /** The `marks` dict as insertion-ordered keys plus the key-to-score map. */
  datatype Dict = Dict(order: seq<string>, score: map<string, real>)

  ghost predicate WellFormed(d: Dict)
  {
    Grouping.NoDuplicates(d.order) && (forall n :: n in d.score <==> n in d.order)
  }

  type Marks = d: Dict | WellFormed(d) witness Dict([], map[])

  /** The scores in insertion order, as `marks.values()` yields them. */
  function Scores(m: Marks): (r: seq<real>)
    ensures |r| == |m.order|
    ensures forall i :: 0 <= i < |r| ==> r[i] == m.score[m.order[i]]
  {
    seq(|m.order|, i requires 0 <= i < |m.order| => m.score[m.order[i]])
  }

  /** `marks[name] = score`: a new name goes to the end, a known one keeps its place and
      takes the new score. */
  function Put(m: Marks, name: string, score: real): (r: Marks)
    ensures r.order == if name in m.score then m.order else m.order + [name]
    ensures r.score == m.score[name := score]
  {
    if name in m.score then Dict(m.order, m.score[name := score])
    else Dict(m.order + [name], m.score[name := score])
  }

  // ---------------------------------------------------------------- loading from CSV

  /** A CSV row yields a mark when it has at least two fields and the second parses as a
      number; anything else is skipped. */
  function AcceptRow(row: seq<string>, parse: string -> Option<real>): (r: Option<(string, real)>)
    ensures r.Some? <==> |row| >= 2 && parse(row[1]).Some?
    ensures r.Some? ==> r.value == (row[0], parse(row[1]).value)
  {
    if |row| >= 2 then
      match parse(row[1])
      case Some(score) => Some((row[0], score))
      case None => None
    else None
  }

  /** The accepted (name, score) pairs, in file order. */
  function Accepted(rows: seq<seq<string>>, parse: string -> Option<real>): seq<(string, real)>
  {
    if rows == [] then []
    else
      Accepted(rows[..|rows| - 1], parse) +
      match AcceptRow(rows[|rows| - 1], parse)
      case Some(p) => [p]
      case None => []
  }

  function PairName(p: (string, real)): string { p.0 }

  /** The score of the last accepted pair for `name`. */
  function LastScore(ps: seq<(string, real)>, name: string): Option<real>
  {
    if ps == [] then None
    else if ps[|ps| - 1].0 == name then Some(ps[|ps| - 1].1)
    else LastScore(ps[..|ps| - 1], name)
  }

  function Get(m: Marks, name: string): Option<real>
  {
    if name in m.score then Some(m.score[name]) else None
  }

  lemma AcceptedStep(rows: seq<seq<string>>, i: nat, parse: string -> Option<real>)
    requires i < |rows|
    ensures Accepted(rows[..i + 1], parse)
         == Accepted(rows[..i], parse) + match AcceptRow(rows[i], parse) case Some(p) => [p] case None => []
  {
    assert rows[..i + 1][..i] == rows[..i];
  }

  lemma LastScoreSnoc(ps: seq<(string, real)>, p: (string, real), name: string)
    ensures LastScore(ps + [p], name) == if p.0 == name then Some(p.1) else LastScore(ps, name)
  {
    assert (ps + [p])[..|ps|] == ps;
  }

  /** Invariant of the loading loop: `m` holds exactly what the accepted pairs `ps` say. */
  ghost predicate Holds(m: Marks, ps: seq<(string, real)>)
  {
    m.order == Grouping.Distinct(ps, PairName) &&
    forall name :: Get(m, name) == LastScore(ps, name)
  }

  lemma {:induction false} PutStep(m: Marks, ps: seq<(string, real)>, p: (string, real))
    requires Holds(m, ps)
    ensures Holds(Put(m, p.0, p.1), ps + [p])
  {
    PutOrderStep(m, ps, p);
    PutScoreStep(m, ps, p);
  }

  lemma {:induction false} PutOrderStep(m: Marks, ps: seq<(string, real)>, p: (string, real))
    requires m.order == Grouping.Distinct(ps, PairName)
    ensures Put(m, p.0, p.1).order == Grouping.Distinct(ps + [p], PairName)
  {
    Grouping.DistinctSnoc(ps, p, PairName);
    assert p.0 in m.score <==> p.0 in m.order;
  }

  lemma {:induction false} PutScoreStep(m: Marks, ps: seq<(string, real)>, p: (string, real))
    requires forall name :: Get(m, name) == LastScore(ps, name)
    ensures forall name :: Get(Put(m, p.0, p.1), name) == LastScore(ps + [p], name)
  {
    forall name ensures Get(Put(m, p.0, p.1), name) == LastScore(ps + [p], name) {
      LastScoreSnoc(ps, p, name);
    }
  }

  /** The CSV loading loop: the names come in order of their first accepted row, and each
      name keeps the score of its last accepted row. */
  method LoadMarks(rows: seq<seq<string>>, parse: string -> Option<real>) returns (m: Marks)
    ensures m.order == Grouping.Distinct(Accepted(rows, parse), PairName)
    ensures forall name :: Get(m, name) == LastScore(Accepted(rows, parse), name)
  {
    m := Dict([], map[]);
    var i := 0;
    while i < |rows|
      invariant 0 <= i <= |rows|
      invariant Holds(m, Accepted(rows[..i], parse))
    {
      AcceptedStep(rows, i, parse);
      var accepted := AcceptRow(rows[i], parse);
      if accepted.Some? {
        PutStep(m, Accepted(rows[..i], parse), accepted.value);
        m := Put(m, accepted.value.0, accepted.value.1);
        assert Accepted(rows[..i + 1], parse) == Accepted(rows[..i], parse) + [accepted.value];
      } else {
        assert Accepted(rows[..i + 1], parse) == Accepted(rows[..i], parse) + [];
        assert Accepted(rows[..i + 1], parse) == Accepted(rows[..i], parse);
      }
      i := i + 1;
    }
    assert rows[..i] == rows;
  }

  // ---------------------------------------------------------------- statistics

  /** `calc_avg`: the sum of the scores over their count. On empty marks the script divides
      by zero, so the average is only defined on non-empty marks. */
  function CalcAvg(m: Marks): (r: real)
    requires m.order != []
    ensures r == RealStats.Sum(Scores(m)) / (|m.order| as real)
    ensures MinScore(m) <= r <= MaxScore(m)
  {
    var s := Scores(m);
    RealStats.MeanBetween(s);
    assert MinScore(m) == RealStats.Min(s) && MaxScore(m) == RealStats.Max(s);
    RealStats.Mean(s)
  }

  /** `max_score`: one of the scores, and no score is larger. */
  function MaxScore(m: Marks): (r: real)
    requires m.order != []
    ensures exists name :: name in m.score && m.score[name] == r
    ensures forall name :: name in m.score ==> m.score[name] <= r
  {
    var s := Scores(m);
    var r := RealStats.Max(s);
    ghost var i :| 0 <= i < |s| && s[i] == r;
    assert m.order[i] in m.score;
    assert forall name :: name in m.score ==> exists j :: 0 <= j < |s| && m.order[j] == name;
    r
  }

  /** `min_score`: one of the scores, and no score is smaller. */
  function MinScore(m: Marks): (r: real)
    requires m.order != []
    ensures exists name :: name in m.score && m.score[name] == r
    ensures forall name :: name in m.score ==> r <= m.score[name]
  {
    var s := Scores(m);
    var r := RealStats.Min(s);
    ghost var i :| 0 <= i < |s| && s[i] == r;
    assert m.order[i] in m.score;
    assert forall name :: name in m.score ==> exists j :: 0 <= j < |s| && m.order[j] == name;
    r
  }

  // ---------------------------------------------------------------- grades

  datatype Grade = A | B | C | D | F

  /** The threshold chain: each grade covers a band of scores below the previous one's. */
  function GradeOf(score: real): (g: Grade)
    ensures g == A <==> score >= 90.0
    ensures g == B <==> 80.0 <= score < 90.0
    ensures g == C <==> 70.0 <= score < 80.0
    ensures g == D <==> 60.0 <= score < 70.0
    ensures g == F <==> score < 60.0
  {
    if score >= 90.0 then A
    else if score >= 80.0 then B
    else if score >= 70.0 then C
    else if score >= 60.0 then D
    else F
  }

  /** Position of a grade from best (0) to worst (4). */
  function Rank(g: Grade): nat
  {
    match g
    case A => 0
    case B => 1
    case C => 2
    case D => 3
    case F => 4
  }

  /** A higher score never earns a worse grade. */
  lemma GradeMonotonic(lo: real, hi: real)
    requires lo <= hi
    ensures Rank(GradeOf(hi)) <= Rank(GradeOf(lo))
  {
  }

  /** The grading loop: every student gets exactly one grade, that of their score. */
  method AssignGrades(m: Marks) returns (grades: map<string, Grade>)
    ensures grades.Keys == m.score.Keys
    ensures forall name :: name in grades ==> grades[name] == GradeOf(m.score[name])
  {
    grades := map[];
    var i := 0;
    while i < |m.order|
      invariant 0 <= i <= |m.order|
      invariant grades.Keys == set j | 0 <= j < i :: m.order[j]
      invariant forall name :: name in grades ==> name in m.score && grades[name] == GradeOf(m.score[name])
    {
      var name := m.order[i];
      grades := grades[name := GradeOf(m.score[name])];
      i := i + 1;
    }
    assert forall name :: name in m.score ==> exists j :: 0 <= j < |m.order| && m.order[j] == name;
  }

  /** The grades in the marks' insertion order, as `grades.values()` yields them. */
  function GradesInOrder(m: Marks, grades: map<string, Grade>): (r: seq<Grade>)
    requires grades.Keys == m.score.Keys
    ensures |r| == |m.order| && forall i :: 0 <= i < |r| ==> r[i] == grades[m.order[i]]
  {
    seq(|m.order|, i requires 0 <= i < |m.order| => grades[m.order[i]])
  }

  function GradeKey(g: Grade): Grade { g }

  /** How many of `gs` are `g`. */
  function Tally(gs: seq<Grade>, g: Grade): nat
  {
    |Grouping.Where(gs, GradeKey, g)|
  }

  lemma TallySnoc(gs: seq<Grade>, g: Grade, h: Grade)
    ensures Tally(gs + [g], h) == Tally(gs, h) + (if g == h then 1 else 0)
  {
    Grouping.WhereSnoc(gs, g, GradeKey, h);
  }

  const AllGrades: seq<Grade> := [A, B, C, D, F]

  /** The tally loop over `grade_count = {"A":0, ..., "F":0}`. The source's `if g in
      grade_count` always holds, since every grade is one of the five. */
  method CountGrades(m: Marks, grades: map<string, Grade>) returns (count: map<Grade, nat>)
    requires grades.Keys == m.score.Keys
    ensures forall g :: g in count
    ensures forall g :: count[g] == Tally(GradesInOrder(m, grades), g)
  {
    count := map[A := 0, B := 0, C := 0, D := 0, F := 0];
    forall g ensures g in count && count[g] == 0 {
      match g
      case A =>
      case B =>
      case C =>
      case D =>
      case F =>
    }
    ghost var gs := GradesInOrder(m, grades);
    var i := 0;
    while i < |m.order|
      invariant 0 <= i <= |m.order|
      invariant forall g :: g in count
      invariant forall g :: count[g] == Tally(gs[..i], g)
    {
      var g := grades[m.order[i]];
      assert gs[..i + 1] == gs[..i] + [g];
      count := count[g := count[g] + 1];
      forall h ensures count[h] == Tally(gs[..i + 1], h) {
        TallySnoc(gs[..i], g, h);
      }
      i := i + 1;
    }
    assert gs[..i] == gs;
  }

  /** The five counts add up to the number of students. */
  lemma {:induction false} TallyTotal(m: Marks, grades: map<string, Grade>)
    requires grades.Keys == m.score.Keys
    ensures var gs := GradesInOrder(m, grades);
      Tally(gs, A) + Tally(gs, B) + Tally(gs, C) + Tally(gs, D) + Tally(gs, F) == |m.order|
  {
    var gs := GradesInOrder(m, grades);
    forall i | 0 <= i < |gs| ensures GradeKey(gs[i]) in AllGrades {
      assert gs[i].A? || gs[i].B? || gs[i].C? || gs[i].D? || gs[i].F?;
    }
    Grouping.PartitionCount(AllGrades, gs, GradeKey);
    Grouping.CountGroupsCons(A, [B, C, D, F], gs, GradeKey);
    Grouping.CountGroupsCons(B, [C, D, F], gs, GradeKey);
    Grouping.CountGroupsCons(C, [D, F], gs, GradeKey);
    Grouping.CountGroupsCons(D, [F], gs, GradeKey);
    Grouping.CountGroupsCons(F, [], gs, GradeKey);
  }

  // ---------------------------------------------------------------- pass / fail

  /** For each name, whether its score reaches the pass mark of 40. */
  function PassKey(m: Marks): string -> bool
  {
    name => name in m.score && m.score[name] >= 40.0
  }

  /** `passed = [name for name, s in marks.items() if s >= 40]`. */
  function Passed(m: Marks): (r: seq<string>)
    ensures |r| <= |m.order|
    ensures forall name :: name in r ==> name in m.score && m.score[name] >= 40.0
  {
    Grouping.Where(m.order, PassKey(m), true)
  }

  /** `failed = [name for name, s in marks.items() if s < 40]`. */
  function Failed(m: Marks): (r: seq<string>)
    ensures |r| <= |m.order|
    ensures forall name :: name in r ==> name in m.score && m.score[name] < 40.0
  {
    Grouping.Where(m.order, PassKey(m), false)
  }

  lemma OrderCoversScores(m: Marks)
    ensures forall name :: name in m.score ==> exists j :: 0 <= j < |m.order| && m.order[j] == name
  {
  }

  /** A student is in `passed` exactly when their score is at least 40. */
  lemma {:induction false} PassedIff(m: Marks)
    ensures forall name :: name in Passed(m) <==> name in m.score && m.score[name] >= 40.0
  {
    OrderCoversScores(m);
  }

  /** A student is in `failed` exactly when their score is below 40. */
  lemma {:induction false} FailedIff(m: Marks)
    ensures forall name :: name in Failed(m) <==> name in m.score && m.score[name] < 40.0
  {
    OrderCoversScores(m);
  }

  /** Both lists keep the insertion order of `marks`. */
  lemma {:induction false} PassFailKeepOrder(m: Marks)
    ensures Grouping.IsSubsequence(Passed(m), m.order)
    ensures Grouping.IsSubsequence(Failed(m), m.order)
  {
    Grouping.WhereIsSubsequence(m.order, PassKey(m), true);
    Grouping.WhereIsSubsequence(m.order, PassKey(m), false);
  }

  /** Together the two lists hold every student once. */
  lemma {:induction false} PassFailCount(m: Marks)
    ensures |Passed(m)| + |Failed(m)| == |m.order|
  {
    var ks := [true, false];
    forall i | 0 <= i < |m.order| ensures PassKey(m)(m.order[i]) in ks {
    }
    Grouping.PartitionCount(ks, m.order, PassKey(m));
    Grouping.CountGroupsCons(true, [false], m.order, PassKey(m));
    Grouping.CountGroupsCons(false, [], m.order, PassKey(m));
  }
}
