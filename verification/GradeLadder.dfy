/**
 The grade of a student, computed when it is read: it climbs a ladder of twelve by one
 step each 1 August since the academic year it was recorded in, and stays at the top.
 */
module GradeLadder {
  import opened Common

  const LADDER: seq<string> := [
    "小学一年级", "小学二年级", "小学三年级", "小学四年级", "小学五年级", "小学六年级",
    "初一", "初二", "初三", "高一", "高二", "高三"
  ]

  const TOP: nat := 11

  /** A calendar date; months count from 0, so August is 7. */
  datatype Date = Date(year: int, month0: int, day: int) {
    predicate Valid() {
      0 <= month0 < 12 && 1 <= day <= 31
    }
  }

  predicate Before(a: Date, b: Date) {
    a.year < b.year || (a.year == b.year && (a.month0 < b.month0 || (a.month0 == b.month0 && a.day < b.day)))
  }

  function AcademicYear(d: Date): int {
    if d.month0 >= 7 then d.year else d.year - 1
  }

  /** An academic year runs from 1 August of its year to 31 July of the next. */
  lemma YearStartsInAugust(d: Date, year: int)
    requires d.Valid()
    ensures AcademicYear(d) == year <==> !Before(d, Date(year, 7, 1)) && Before(d, Date(year + 1, 7, 1))
  {
  }

  /** `indexOf`, from position `i` on */
  function IndexFrom(ladder: seq<string>, grade: string, i: nat): (r: Option<nat>)
    requires i <= |ladder|
    ensures r.Some? ==> i <= r.value < |ladder| && ladder[r.value] == grade
    ensures r.None? ==> grade !in ladder[i..]
    decreases |ladder| - i
  {
    if i == |ladder| then None else if ladder[i] == grade then Some(i) else IndexFrom(ladder, grade, i + 1)
  }

  /** `None` stands for null and undefined. */
  function Advance(grade: Option<string>, steps: int): Option<string> {
    if grade.None? || grade.value == "" then grade
    else
      match IndexFrom(LADDER, grade.value, 0)
      case None => grade
      case Some(i) =>
        if steps <= 0 then grade else Some(LADDER[if i + steps < TOP then i + steps else TOP])
  }

  function CurrentGrade(grade: Option<string>, baseYear: Option<int>, now: Date): Option<string> {
    if grade.None? || grade.value == "" || baseYear.None? then grade
    else Advance(grade, AcademicYear(now) - baseYear.value)
  }

  // ----- Climbing -----

  lemma LadderDistinct(i: nat, j: nat)
    requires i < |LADDER| && j < |LADDER| && LADDER[i] == LADDER[j]
    ensures i == j
  {
  }

  lemma IndexOfRung(i: nat)
    requires i < |LADDER|
    ensures IndexFrom(LADDER, LADDER[i], 0) == Some(i) && LADDER[i] != ""
  {
  }

  /** The 1 Augusts after `a` and up to `b`. */
  function Augusts(a: Date, b: Date): set<int> {
    set y | a.year <= y <= b.year && Before(a, Date(y, 7, 1)) && !Before(b, Date(y, 7, 1))
  }

  ghost function Years(lo: int, hi: int): (s: set<int>)
    requires lo <= hi
    ensures |s| == hi - lo && forall y :: y in s <==> lo < y <= hi
    decreases hi - lo
  {
    if lo == hi then {} else Years(lo, hi - 1) + {hi}
  }

  /** The academic year advances by exactly the number of 1 Augusts passed. */
  lemma AugustsCounted(a: Date, b: Date)
    requires a.Valid() && b.Valid() && !Before(b, a)
    ensures |Augusts(a, b)| == AcademicYear(b) - AcademicYear(a)
  {
    assert Augusts(a, b) == Years(AcademicYear(a), AcademicYear(b));
  }

  /** The rung reached from rung `i` in a number of steps. */
  function Climb(i: nat, steps: int): (j: nat)
    requires i <= TOP
    ensures i <= j <= TOP
  {
    if steps <= 0 then i else if i + steps < TOP then i + steps else TOP
  }

  lemma CurrentRung(i: nat, baseYear: int, now: Date)
    requires i <= TOP
    ensures CurrentGrade(Some(LADDER[i]), Some(baseYear), now) == Some(LADDER[Climb(i, AcademicYear(now) - baseYear)])
  {
    IndexOfRung(i);
  }

  /** A student recorded on rung `i` has climbed one rung for each 1 August since, up to
      the top. */
  lemma ClimbsEachAugust(i: nat, recorded: Date, now: Date)
    requires i <= TOP && recorded.Valid() && now.Valid() && !Before(now, recorded)
    ensures var rungs := i + |Augusts(recorded, now)|;
            CurrentGrade(Some(LADDER[i]), Some(AcademicYear(recorded)), now) == Some(LADDER[if rungs < TOP then rungs else TOP])
  {
    CurrentRung(i, AcademicYear(recorded), now);
    AugustsCounted(recorded, now);
  }

  /** The computed grade never drops: whenever it is read later, it is on the same rung or a
      higher one. */
  lemma GradeNeverDrops(i: nat, baseYear: int, n1: Date, n2: Date) returns (j: nat, k: nat)
    requires i <= TOP && n1.Valid() && n2.Valid() && !Before(n2, n1)
    ensures j <= k <= TOP
    ensures CurrentGrade(Some(LADDER[i]), Some(baseYear), n1) == Some(LADDER[j])
    ensures CurrentGrade(Some(LADDER[i]), Some(baseYear), n2) == Some(LADDER[k])
  {
    j, k := Climb(i, AcademicYear(n1) - baseYear), Climb(i, AcademicYear(n2) - baseYear);
    CurrentRung(i, baseYear, n1);
    CurrentRung(i, baseYear, n2);
  }

  /** Reading at `n2` gives the same whether or not the grade computed at `n1` was written
      back with its own academic year. */
  predicate SameReading(i: nat, baseYear: int, n1: Date, n2: Date)
    requires i <= TOP
  {
    CurrentGrade(CurrentGrade(Some(LADDER[i]), Some(baseYear), n1), Some(AcademicYear(n1)), n2)
      == CurrentGrade(Some(LADDER[i]), Some(baseYear), n2)
  }

  lemma SameReadingByRungs(i: nat, baseYear: int, n1: Date, n2: Date)
    requires i <= TOP
    ensures var j := Climb(i, AcademicYear(n1) - baseYear);
            SameReading(i, baseYear, n1, n2) <==>
              Climb(j, AcademicYear(n2) - AcademicYear(n1)) == Climb(i, AcademicYear(n2) - baseYear)
  {
    var j := Climb(i, AcademicYear(n1) - baseYear);
    CurrentRung(i, baseYear, n1);
    CurrentRung(j, AcademicYear(n1), n2);
    CurrentRung(i, baseYear, n2);
    var k, l := Climb(j, AcademicYear(n2) - AcademicYear(n1)), Climb(i, AcademicYear(n2) - baseYear);
    if LADDER[k] == LADDER[l] { LadderDistinct(k, l); }
  }

  /** Re-basing changes no later reading exactly when the recorded base year is not ahead
      of the clock, or the grade does not climb at all. */
  lemma RebaseIsNeutral(i: nat, baseYear: int, n1: Date)
    requires i <= TOP
    ensures (forall n2 | AcademicYear(n1) <= AcademicYear(n2) :: SameReading(i, baseYear, n1, n2))
            <==> baseYear <= AcademicYear(n1) || i == TOP
  {
    if baseYear <= AcademicYear(n1) || i == TOP {
      forall n2 | AcademicYear(n1) <= AcademicYear(n2)
        ensures SameReading(i, baseYear, n1, n2)
      {
        SameReadingByRungs(i, baseYear, n1, n2);
      }
    } else {
      var n2 := Date(baseYear, 7, 1);
      assert AcademicYear(n2) == baseYear;
      SameReadingByRungs(i, baseYear, n1, n2);
      assert !SameReading(i, baseYear, n1, n2);
    }
  }

  /** Reading changes a stored grade exactly when it is on the ladder below the top and was
      recorded in an earlier academic year; every other value is returned as it is. */
  lemma ChangesExactly(grade: Option<string>, baseYear: Option<int>, now: Date)
    ensures CurrentGrade(grade, baseYear, now) != grade <==>
              && grade.Some? && grade.value in LADDER && grade.value != LADDER[TOP]
              && baseYear.Some? && baseYear.value < AcademicYear(now)
  {
    if grade.Some? && grade.value in LADDER {
      var i: nat :| i < |LADDER| && LADDER[i] == grade.value;
      IndexOfRung(i);
      if baseYear.Some? {
        LadderDistinctFrom(i, Climb(i, AcademicYear(now) - baseYear.value));
        LadderDistinctFrom(i, TOP);
        CurrentRung(i, baseYear.value, now);
      }
    }
  }

  lemma LadderDistinctFrom(i: nat, j: nat)
    requires i < |LADDER| && j < |LADDER|
    ensures LADDER[i] == LADDER[j] <==> i == j
  {
    if LADDER[i] == LADDER[j] { LadderDistinct(i, j); }
  }
}
