/** Grade aggregation and promotion evaluation (src/utils/promotion.ts).

    A leaf subject reduces to the weighted mean of its grades rounded to a
    half-grade; a combined subject to the rounded unweighted mean of the final
    grades of its graded members; the evaluator reduces the list of per-entity
    final grades and the year's criteria to a three-criterion verdict. */
module Promotion {
  import opened Wrappers
  import opened Types
  import opened Rounding
  import opened Seqs

  // ---------------------------------------------------------------------------
  // Leaf subjects
  // ---------------------------------------------------------------------------

  function WeightedValue(g: Grade): real
  {
    g.value * g.weight
  }

  function WeightOf(g: Grade): real
  {
    g.weight
  }

  /** The accumulator `totalWeightedSum` after the whole list. */
  function WeightedSum(grades: seq<Grade>): real
  {
    Sum(WeightedValue, grades)
  }

  /** The accumulator `totalWeight` after the whole list. */
  function TotalWeight(grades: seq<Grade>): real
  {
    Sum(WeightOf, grades)
  }

  /** The final grade of a leaf subject: 0 without grades, otherwise the
      weighted mean rounded to a half-grade, where the mean is taken as 0 when
      the total weight is not positive. */
  function LeafFinalGrade(grades: seq<Grade>): (r: real)
    ensures IsHalfMultiple(r)
    ensures grades == [] ==> r == 0.0
    ensures TotalWeight(grades) <= 0.0 ==> r == 0.0
    ensures grades != [] && TotalWeight(grades) > 0.0 ==>
      var mean := WeightedSum(grades) / TotalWeight(grades);
      mean - 0.25 < r <= mean + 0.25
  {
    if |grades| == 0 then 0.0
    else
      var average := if TotalWeight(grades) > 0.0 then WeightedSum(grades) / TotalWeight(grades) else 0.0;
      RoundToHalf(average)
  }

  /** A sum between lo * n and hi * n, divided by a positive n, lies in [lo, hi]. */
  lemma MeanWithin(total: real, n: real, lo: real, hi: real)
    requires n > 0.0 && lo * n <= total <= hi * n
    ensures lo <= total / n <= hi
  {
    var mean := total / n;
    assert mean * n == total;
  }

  lemma MulNonNegative(a: real, b: real)
    requires a >= 0.0 && b >= 0.0
    ensures a * b >= 0.0
  {
  }

  /** A grade on the documented scale: value in [1, 6], positive weight. */
  predicate WellFormedGrade(g: Grade)
  {
    1.0 <= g.value <= 6.0 && g.weight > 0.0
  }

  lemma {:induction false} WeightedSumBounds(grades: seq<Grade>)
    requires forall i :: 0 <= i < |grades| ==> WellFormedGrade(grades[i])
    ensures TotalWeight(grades) <= WeightedSum(grades) <= 6.0 * TotalWeight(grades)
    ensures grades != [] ==> TotalWeight(grades) > 0.0
  {
    if grades != [] {
      var n := |grades| - 1;
      var g := grades[n];
      WeightedSumBounds(grades[..n]);
      assert grades == grades[..n] + [g];
      SumSnoc(WeightedValue, grades[..n], g);
      SumSnoc(WeightOf, grades[..n], g);
      MulNonNegative(g.value - 1.0, g.weight);
      MulNonNegative(6.0 - g.value, g.weight);
      assert g.value * g.weight - g.weight == (g.value - 1.0) * g.weight;
      assert 6.0 * g.weight - g.value * g.weight == (6.0 - g.value) * g.weight;
    }
  }

  /** With well-formed grades a graded leaf's final grade is a half-grade on
      the scale [1, 6]. */
  lemma LeafFinalGradeOnScale(grades: seq<Grade>)
    requires grades != []
    requires forall i :: 0 <= i < |grades| ==> WellFormedGrade(grades[i])
    ensures 1.0 <= LeafFinalGrade(grades) <= 6.0
  {
    WeightedSumBounds(grades);
    var ws, tw := WeightedSum(grades), TotalWeight(grades);
    MeanWithin(ws, tw, 1.0, 6.0);
    RoundToHalfWithin(ws / tw, 1.0, 6.0);
  }

  /** The order in which grades were entered does not matter. */
  lemma LeafFinalGradePermutation(grades: seq<Grade>, other: seq<Grade>)
    requires multiset(grades) == multiset(other)
    ensures LeafFinalGrade(grades) == LeafFinalGrade(other)
  {
    SumPermutation(WeightedValue, grades, other);
    SumPermutation(WeightOf, grades, other);
    assert |grades| == |multiset(grades)| == |other|;
  }

  /** Worked example: grades 5 (weight 1) and 3 (weight 2) give the half-grade rounding of 11/3, which is 3.5. */
  lemma LeafExample()
    ensures LeafFinalGrade([Grade("a", 5.0, 1.0, None), Grade("b", 3.0, 2.0, None)]) == 3.5
  {
    var a, b := Grade("a", 5.0, 1.0, None), Grade("b", 3.0, 2.0, None);
    var gs := [a, b];
    assert gs == [a] + [b];
    SumSnoc(WeightOf, [a], b);
    SumSnoc(WeightedValue, [a], b);
    SumSingleton(WeightOf, a);
    SumSingleton(WeightedValue, a);
    assert TotalWeight(gs) == 3.0;
    assert WeightedSum(gs) == 11.0;
    RoundToHalfUnique(11.0 / 3.0, 3.5);
  }

  // ---------------------------------------------------------------------------
  // Combined subjects
  // ---------------------------------------------------------------------------

  /** `sub.grades.length > 0`. */
  predicate HasGrades(s: Subject)
  {
    |s.grades| > 0
  }

  /** calculateFinalGrade applied to a member, which is always a leaf. */
  function MemberFinalGrade(s: Subject): real
  {
    LeafFinalGrade(s.grades)
  }

  /** The members that enter the combined mean, in order. */
  function GradedMembers(members: seq<Subject>): seq<Subject>
  {
    Filter(HasGrades, members)
  }

  /** The final grade of a combined subject: the unweighted mean of the final
      grades of its graded members, rounded to a half-grade. Ungraded members
      count in neither the sum nor the divisor. The source has no guard for a
      divisor of zero: with no graded member it computes 0 / 0, which is NaN,
      and the model says so with the NaN variant. */
  function CombinedFinalGrade(members: seq<Subject>): (r: Number)
    ensures r.NaN? <==> GradedMembers(members) == []
    ensures r.Real? ==> IsHalfMultiple(r.value)
  {
    var graded := GradedMembers(members);
    if |graded| == 0 then NaN
    else Real(RoundToHalf(Sum(MemberFinalGrade, graded) / |graded| as real))
  }

  /** `combinedSubjectHasGrades`: some member has a grade. */
  function CombinedSubjectHasGrades(members: seq<Subject>): (r: bool)
    ensures r <==> CombinedFinalGrade(members).Real?
    ensures r <==> exists i :: 0 <= i < |members| && |members[i].grades| > 0
  {
    FilterEmpty(HasGrades, members);
    exists i :: 0 <= i < |members| && HasGrades(members[i])
  }

  /** Adding a member without grades, anywhere in the list, changes nothing. */
  lemma CombinedIgnoresUngraded(before: seq<Subject>, u: Subject, after: seq<Subject>)
    requires u.grades == []
    ensures CombinedFinalGrade(before + [u] + after) == CombinedFinalGrade(before + after)
  {
    FilterAppend(HasGrades, before + [u], after);
    FilterAppend(HasGrades, before, [u]);
    FilterAppend(HasGrades, before, after);
    assert Filter(HasGrades, [u]) == [] by { assert [u][..0] == []; }
    assert GradedMembers(before + [u] + after) == GradedMembers(before + after);
  }

  /** With exactly one graded member the combined grade is that member's final
      grade, however many ungraded members there are. */
  lemma CombinedSingleGraded(members: seq<Subject>, s: Subject)
    requires GradedMembers(members) == [s]
    ensures CombinedFinalGrade(members) == Real(MemberFinalGrade(s))
  {
    assert [s][..0] == [];
    assert Sum(MemberFinalGrade, [s]) == MemberFinalGrade(s);
    RoundToHalfFixes(MemberFinalGrade(s));
  }

  /** With well-formed grades the combined grade, when defined, is on the scale. */
  lemma CombinedFinalGradeOnScale(members: seq<Subject>)
    requires forall i, j :: 0 <= i < |members| && 0 <= j < |members[i].grades| ==> WellFormedGrade(members[i].grades[j])
    ensures CombinedFinalGrade(members).Real? ==> 1.0 <= CombinedFinalGrade(members).value <= 6.0
  {
    var graded := GradedMembers(members);
    if |graded| > 0 {
      forall k | 0 <= k < |graded| ensures 1.0 <= MemberFinalGrade(graded[k]) <= 6.0 {
        var s := graded[k];
        FilterMembers(HasGrades, members, s);
        var i :| 0 <= i < |members| && members[i] == s;
        assert forall j :: 0 <= j < |s.grades| ==> WellFormedGrade(members[i].grades[j]);
        LeafFinalGradeOnScale(s.grades);
      }
      SumBounds(MemberFinalGrade, graded, 1.0, 6.0);
      var n := |graded| as real;
      MeanWithin(Sum(MemberFinalGrade, graded), n, 1.0, 6.0);
      RoundToHalfWithin(Sum(MemberFinalGrade, graded) / n, 1.0, 6.0);
    }
  }

  /** The order of the members does not matter. */
  lemma CombinedFinalGradePermutation(members: seq<Subject>, other: seq<Subject>)
    requires multiset(members) == multiset(other)
    ensures CombinedFinalGrade(members) == CombinedFinalGrade(other)
  {
    FilterPermutation(HasGrades, members, other);
    SumPermutation(MemberFinalGrade, GradedMembers(members), GradedMembers(other));
    assert |GradedMembers(members)| == |multiset(GradedMembers(members))| == |GradedMembers(other)|;
  }

  /** Worked example: members graded 5 and 4 and one without grades give 4.5. */
  lemma CombinedExample()
    ensures CombinedFinalGrade([
      Subject("m1", "M1", [Grade("a", 5.0, 1.0, None)]),
      Subject("m2", "M2", [Grade("b", 4.0, 1.0, None)]),
      Subject("m3", "M3", [])]) == Real(4.5)
  {
    var m1, m2 := Subject("m1", "M1", [Grade("a", 5.0, 1.0, None)]), Subject("m2", "M2", [Grade("b", 4.0, 1.0, None)]);
    var m3 := Subject("m3", "M3", []);
    CombinedIgnoresUngraded([m1, m2], m3, []);
    assert [m1, m2] + [m3] + [] == [m1, m2, m3];
    assert [m1, m2] + [] == [m1, m2];
    CombinedOfTwo(m1, m2);
    MemberExample(m1, Grade("a", 5.0, 1.0, None));
    MemberExample(m2, Grade("b", 4.0, 1.0, None));
    RoundToHalfFixes(4.5);
  }

  /** Two graded members: the rounded mean of their two final grades. */
  lemma CombinedOfTwo(m1: Subject, m2: Subject)
    requires HasGrades(m1) && HasGrades(m2)
    ensures CombinedFinalGrade([m1, m2]) == Real(RoundToHalf((MemberFinalGrade(m1) + MemberFinalGrade(m2)) / 2.0))
  {
    assert [m1, m2] == [m1] + [m2];
    FilterSnoc(HasGrades, [m1], m2);
    FilterSingleton(HasGrades, m1);
    SumSnoc(MemberFinalGrade, [m1], m2);
    SumSingleton(MemberFinalGrade, m1);
  }

  /** A member whose one grade is a whole grade g (weight 1) has final grade g. */
  lemma MemberExample(s: Subject, g: Grade)
    requires s.grades == [g] && g.weight == 1.0 && (g.value == 4.0 || g.value == 5.0)
    ensures MemberFinalGrade(s) == g.value
  {
    SumSingleton(WeightedValue, g);
    SumSingleton(WeightOf, g);
    RoundToHalfFixes(g.value);
  }

  /** Worked example: a combined subject without any graded member. */
  lemma CombinedUngradedExample()
    ensures CombinedFinalGrade([Subject("m1", "M1", []), Subject("m2", "M2", [])]).NaN?
    ensures !CombinedSubjectHasGrades([Subject("m1", "M1", []), Subject("m2", "M2", [])])
  {
    FilterEmpty(HasGrades, [Subject("m1", "M1", []), Subject("m2", "M2", [])]);
  }

  // ---------------------------------------------------------------------------
  // Any entity
  // ---------------------------------------------------------------------------

  /** `calculateFinalGrade` on an entity of the model. */
  function FinalGrade(e: Entity): (r: Number)
    ensures e.Leaf? ==> r == Real(LeafFinalGrade(e.grades))
    ensures e.Combined? ==> r == CombinedFinalGrade(e.members)
    ensures r.Real? ==> IsHalfMultiple(r.value)
  {
    match e
    case Leaf(_, _, grades) => Real(LeafFinalGrade(grades))
    case Combined(_, _, members) => CombinedFinalGrade(members)
  }

  /** `calculateFinalGrade` on an arbitrary object: the `subjects` test comes
      first, and an object with neither field gets 0. */
  function FinalGradeOfShape(o: Shape): (r: Number)
    ensures IsCombinedSubject(o) ==> r == CombinedFinalGrade(o.subjects.value)
    ensures IsSubject(o) && !IsCombinedSubject(o) ==> r == Real(LeafFinalGrade(o.grades.value))
    ensures !IsSubject(o) && !IsCombinedSubject(o) ==> r == Real(0.0)
  {
    match Classify(o)
    case Some(e) => FinalGrade(e)
    case None => Real(0.0)
  }

  /** The entity has at least one grade, directly or through a member. */
  predicate EntityHasGrades(e: Entity)
  {
    match e
    case Leaf(_, _, grades) => |grades| > 0
    case Combined(_, _, members) => CombinedSubjectHasGrades(members)
  }

  predicate WellFormedEntity(e: Entity)
  {
    match e
    case Leaf(_, _, grades) => forall j :: 0 <= j < |grades| ==> WellFormedGrade(grades[j])
    case Combined(_, _, members) =>
      forall i, j :: 0 <= i < |members| && 0 <= j < |members[i].grades| ==> WellFormedGrade(members[i].grades[j])
  }

  /** `grade > 0` in JavaScript: false for NaN. */
  predicate IsPositive(n: Number)
  {
    n.Real? && n.value > 0.0
  }

  /** An entity without grades never enters the statistics; with well-formed
      grades, an entity with grades always does. So on well-formed data the
      `> 0` filter keeps exactly the graded entities. */
  lemma CountedIffGraded(e: Entity)
    ensures IsPositive(FinalGrade(e)) ==> EntityHasGrades(e)
    ensures WellFormedEntity(e) && EntityHasGrades(e) ==> IsPositive(FinalGrade(e))
  {
    match e
    case Leaf(_, _, grades) =>
      if WellFormedEntity(e) && grades != [] { LeafFinalGradeOnScale(grades); }
    case Combined(_, _, members) =>
      if WellFormedEntity(e) { CombinedFinalGradeOnScale(members); }
  }

  /** The loops of calculateFinalGrade: the leaf branch accumulates
      `totalWeightedSum` and `totalWeight` over the grades, the combined branch
      hands over to CalculateFinalGradeCombined. */
  method CalculateFinalGrade(e: Entity) returns (g: Number)
    ensures g == FinalGrade(e)
    decreases if e.Combined? then 2 else 0
  {
    if e.Combined? {
      g := CalculateFinalGradeCombined(e.members);
      return;
    }
    var grades := e.grades;
    if |grades| == 0 {
      return Real(0.0);
    }
    var totalWeightedSum, totalWeight := 0.0, 0.0;
    for i := 0 to |grades|
      invariant totalWeightedSum == WeightedSum(grades[..i])
      invariant totalWeight == TotalWeight(grades[..i])
    {
      var grade := grades[i];
      assert grades[..i + 1][..i] == grades[..i];
      totalWeightedSum := totalWeightedSum + grade.value * grade.weight;
      totalWeight := totalWeight + grade.weight;
    }
    assert grades[..|grades|] == grades;
    var average := if totalWeight > 0.0 then totalWeightedSum / totalWeight else 0.0;
    g := Real(RoundToHalf(average));
  }

  /** `calculateFinalGradeCombined`: `sum` and `numGrades` accumulate over the
      members that have grades. */
  /** One more member: the graded prefix grows by that member exactly when it
      has grades, and so does the sum of their final grades. */
  lemma GradedStep(members: seq<Subject>, i: nat)
    requires i < |members|
    ensures GradedMembers(members[..i + 1])
      == GradedMembers(members[..i]) + (if HasGrades(members[i]) then [members[i]] else [])
    ensures Sum(MemberFinalGrade, GradedMembers(members[..i + 1]))
      == Sum(MemberFinalGrade, GradedMembers(members[..i])) + (if HasGrades(members[i]) then MemberFinalGrade(members[i]) else 0.0)
  {
    var m, before := members[i], GradedMembers(members[..i]);
    assert members[..i + 1] == members[..i] + [m];
    FilterSnoc(HasGrades, members[..i], m);
    if HasGrades(m) {
      SumSnoc(MemberFinalGrade, before, m);
    } else {
      assert before + [] == before;
    }
  }

  /** A member's own final grade, as calculateFinalGrade returns it. */
  lemma MemberAsEntityGrade(m: Subject)
    ensures FinalGrade(AsEntity(m)) == Real(MemberFinalGrade(m))
  {
  }

  /** The totals over every member determine the combined grade. */
  lemma CombinedFromTotals(members: seq<Subject>, sum: real, numGrades: int)
    requires sum == Sum(MemberFinalGrade, GradedMembers(members))
    requires numGrades == |GradedMembers(members)|
    ensures numGrades == 0 ==> CombinedFinalGrade(members) == NaN
    ensures numGrades != 0 ==> CombinedFinalGrade(members) == Real(RoundToHalf(sum / numGrades as real))
  {
  }

  method CalculateFinalGradeCombined(members: seq<Subject>) returns (g: Number)
    ensures g == CombinedFinalGrade(members)
    decreases 1
  {
    var sum, numGrades := 0.0, 0;
    ghost var graded: seq<Subject> := [];
    for i := 0 to |members|
      invariant graded == GradedMembers(members[..i])
      invariant sum == Sum(MemberFinalGrade, graded)
      invariant numGrades == |graded|
    {
      GradedStep(members, i);
      if |members[i].grades| > 0 {
        var grade := CalculateFinalGrade(AsEntity(members[i]));
        MemberAsEntityGrade(members[i]);
        sum := sum + grade.value;
        numGrades := numGrades + 1;
        graded := graded + [members[i]];
      }
    }
    assert members[..|members|] == members;
    CombinedFromTotals(members, sum, numGrades);
    if numGrades == 0 {
      // sum / numGrades is 0 / 0 here
      g := NaN;
    } else {
      g := Real(RoundToHalf(sum / numGrades as real));
    }
  }

  // ---------------------------------------------------------------------------
  // Promotion evaluation
  // ---------------------------------------------------------------------------

  function ValueOf(n: Number): real
  {
    if n.Real? then n.value else 0.0
  }

  /** `grade < 4`. */
  predicate IsFailing(g: real)
  {
    g < 4.0
  }

  /** `Math.max(0, 4 - grade)`. */
  function Shortfall(g: real): real
  {
    if 4.0 - g > 0.0 then 4.0 - g else 0.0
  }

  function Identity(g: real): real
  {
    g
  }

  /** `subjects.map(calculateFinalGrade)`. */
  function FinalGrades(entities: seq<Entity>): seq<Number>
  {
    Map(FinalGrade, entities)
  }

  /** `finalGrades.filter(grade => grade > 0)`. */
  function ValidGrades(entities: seq<Entity>): seq<real>
  {
    Map(ValueOf, Filter(IsPositive, FinalGrades(entities)))
  }

  /** `checkPromotionCriteria`. */
  function CheckPromotionCriteria(entities: seq<Entity>, criteria: PromotionCriteria): PromotionStatus
  {
    var validGrades := ValidGrades(entities);
    var hasGrades := |validGrades| > 0;
    var failures := Filter(IsFailing, validGrades);
    var average := if |validGrades| > 0 then Sum(Identity, validGrades) / |validGrades| as real else 0.0;
    var roundedAverage := RoundToHalf(average);
    var deficit := Sum(Shortfall, failures);
    var roundedDeficit := RoundToTwoDecimals(deficit);
    var failuresPassed := |failures| as real <= criteria.maxFailures;
    var averagePassed := roundedAverage >= criteria.minAverage;
    var deficitPassed := roundedDeficit <= criteria.maxDeficit;
    PromotionStatus(
      failuresPassed && averagePassed && deficitPassed,
      hasGrades,
      FailuresCriterion(failuresPassed, |failures|, criteria.maxFailures),
      AverageCriterion(averagePassed, roundedAverage, criteria.minAverage),
      DeficitCriterion(deficitPassed, roundedDeficit, criteria.maxDeficit))
  }

  /** Every grade that enters the statistics is a positive half-grade. */
  lemma ValidGradesArePositiveHalves(entities: seq<Entity>)
    ensures forall k :: 0 <= k < |ValidGrades(entities)| ==>
      ValidGrades(entities)[k] > 0.0 && IsHalfMultiple(ValidGrades(entities)[k])
  {
    var pos := Filter(IsPositive, FinalGrades(entities));
    forall k | 0 <= k < |pos| ensures pos[k].Real? && pos[k].value > 0.0 && IsHalfMultiple(pos[k].value) {
      FilterMembers(IsPositive, FinalGrades(entities), pos[k]);
    }
  }

  /** ValidGrades follows the entity list one entity at a time. */
  lemma ValidGradesSnoc(entities: seq<Entity>, e: Entity)
    ensures ValidGrades(entities + [e]) ==
      ValidGrades(entities) + (if IsPositive(FinalGrade(e)) then [FinalGrade(e).value] else [])
  {
    MapAppend(FinalGrade, entities, [e]);
    var fs := FinalGrades(entities);
    assert Map(FinalGrade, [e]) == [FinalGrade(e)];
    FilterAppend(IsPositive, fs, [FinalGrade(e)]);
    assert Filter(IsPositive, [FinalGrade(e)]) == if IsPositive(FinalGrade(e)) then [FinalGrade(e)] else [] by {
      assert [FinalGrade(e)][..0] == [];
    }
    MapAppend(ValueOf, Filter(IsPositive, fs), Filter(IsPositive, [FinalGrade(e)]));
  }

  /** The entity's final grade is a real in (0, 4): it enters the failures. */
  predicate FailsEntity(e: Entity)
  {
    IsPositive(FinalGrade(e)) && FinalGrade(e).value < 4.0
  }

  /** `failures.length` counts exactly the entities whose final grade is a
      real strictly between 0 and 4; `validGrades.length` those above 0. */
  lemma {:induction false} CountsByEntity(entities: seq<Entity>)
    ensures |ValidGrades(entities)| == |Filter(e => IsPositive(FinalGrade(e)), entities)|
    ensures |Filter(IsFailing, ValidGrades(entities))| == |Filter(FailsEntity, entities)|
  {
    if entities != [] {
      var n := |entities| - 1;
      var init, e := entities[..n], entities[n];
      assert entities == init + [e];
      CountsByEntity(init);
      ValidGradesSnoc(init, e);
      var one := if IsPositive(FinalGrade(e)) then [FinalGrade(e).value] else [];
      FilterAppend(IsFailing, ValidGrades(init), one);
      assert one != [] ==> Filter(IsFailing, one) == (if FinalGrade(e).value < 4.0 then one else []) by {
        assert one != [] ==> one[..0] == [];
      }
    } else {
      assert ValidGrades(entities) == [];
    }
  }

  /** `hasGrades` holds exactly when some entity's final grade is above 0. */
  lemma HasGradesMeaning(entities: seq<Entity>, criteria: PromotionCriteria)
    ensures CheckPromotionCriteria(entities, criteria).hasGrades <==>
      exists i :: 0 <= i < |entities| && IsPositive(FinalGrade(entities[i]))
  {
    CountsByEntity(entities);
    FilterEmpty(e => IsPositive(FinalGrade(e)), entities);
  }

  /** The failures criterion: the count of final grades in (0, 4), passing
      exactly when it does not exceed maxFailures. */
  lemma FailuresMeaning(entities: seq<Entity>, criteria: PromotionCriteria)
    ensures var st := CheckPromotionCriteria(entities, criteria);
      && st.failures.count == |Filter(FailsEntity, entities)|
      && st.failures.count <= |ValidGrades(entities)|
      && (st.failures.passed <==> st.failures.count as real <= criteria.maxFailures)
      && st.failures.max == criteria.maxFailures
  {
    CountsByEntity(entities);
  }

  /** The average criterion: a half-grade within 0.25 of the arithmetic mean
      of the valid grades; 0 when there are none, so that an empty or fully
      ungraded list fails this criterion whenever minAverage is positive. */
  lemma AverageMeaning(entities: seq<Entity>, criteria: PromotionCriteria)
    ensures var st := CheckPromotionCriteria(entities, criteria);
      var valid := ValidGrades(entities);
      && IsHalfMultiple(st.average.value)
      && (valid == [] ==> st.average.value == 0.0)
      && (valid != [] ==>
            var mean := Sum(Identity, valid) / |valid| as real;
            mean - 0.25 < st.average.value <= mean + 0.25)
      && (st.average.passed <==> st.average.value >= criteria.minAverage)
      && st.average.min == criteria.minAverage
      && (valid == [] && criteria.minAverage > 0.0 ==> !st.average.passed && !st.isPassing)
  {
    RoundToHalfFixes(0.0);
  }

  /** The average of valid grades that all lie in [lo, hi] (half-grades)
      lies there too, e.g. on the scale [1, 6]. */
  lemma AverageWithin(entities: seq<Entity>, criteria: PromotionCriteria, lo: real, hi: real)
    requires IsHalfMultiple(lo) && IsHalfMultiple(hi)
    requires ValidGrades(entities) != []
    requires forall k :: 0 <= k < |ValidGrades(entities)| ==> lo <= ValidGrades(entities)[k] <= hi
    ensures lo <= CheckPromotionCriteria(entities, criteria).average.value <= hi
  {
    var valid := ValidGrades(entities);
    RoundedMeanWithin(valid, lo, hi);
    assert CheckPromotionCriteria(entities, criteria).average.value == RoundToHalf(Sum(Identity, valid) / |valid| as real);
  }

  lemma RoundedMeanWithin(valid: seq<real>, lo: real, hi: real)
    requires IsHalfMultiple(lo) && IsHalfMultiple(hi)
    requires valid != []
    requires forall k :: 0 <= k < |valid| ==> lo <= valid[k] <= hi
    ensures lo <= RoundToHalf(Sum(Identity, valid) / |valid| as real) <= hi
  {
    MeanOfBounded(valid, lo, hi);
    RoundToHalfWithin(Sum(Identity, valid) / |valid| as real, lo, hi);
  }

  lemma MeanOfBounded(valid: seq<real>, lo: real, hi: real)
    requires valid != []
    requires forall k :: 0 <= k < |valid| ==> lo <= valid[k] <= hi
    ensures lo <= Sum(Identity, valid) / |valid| as real <= hi
  {
    SumBounds(Identity, valid, lo, hi);
    MeanWithin(Sum(Identity, valid), |valid| as real, lo, hi);
  }

  /** Sum of shortfalls of positive failing half-grades: each term is a
      half-grade in [0.5, 3.5]. */
  lemma {:induction false} ShortfallSum(failures: seq<real>)
    requires forall k :: 0 <= k < |failures| ==> 0.0 < failures[k] < 4.0 && IsHalfMultiple(failures[k])
    ensures IsHalfMultiple(Sum(Shortfall, failures))
    ensures 0.5 * |failures| as real <= Sum(Shortfall, failures) <= 3.5 * |failures| as real
  {
    if failures != [] {
      var n := |failures| - 1;
      var g := failures[n];
      ShortfallSum(failures[..n]);
      assert (2.0 * g).Floor >= 1;
      HalfMultipleSum(4.0, g);
      HalfMultipleSum(Sum(Shortfall, failures[..n]), Shortfall(g));
    } else {
      assert (2.0 * 0.0).Floor == 0;
    }
  }

  /** The deficit criterion: the exact sum of 4 - g over the failing grades
      (the two-decimal rounding changes nothing on half-grades), between half
      a grade and 3.5 grades per failure, so 0 exactly when there is no
      failure; passing exactly when it does not exceed maxDeficit. */
  lemma DeficitMeaning(entities: seq<Entity>, criteria: PromotionCriteria)
    ensures var st := CheckPromotionCriteria(entities, criteria);
      var failures := Filter(IsFailing, ValidGrades(entities));
      && st.deficit.value == Sum(Shortfall, failures)
      && 0.5 * st.failures.count as real <= st.deficit.value <= 3.5 * st.failures.count as real
      && st.deficit.value >= 0.0
      && (st.deficit.value == 0.0 <==> st.failures.count == 0)
      && (st.deficit.passed <==> st.deficit.value <= criteria.maxDeficit)
      && st.deficit.max == criteria.maxDeficit
  {
    var valid := ValidGrades(entities);
    var failures := Filter(IsFailing, valid);
    ValidGradesArePositiveHalves(entities);
    forall k | 0 <= k < |failures| ensures 0.0 < failures[k] < 4.0 && IsHalfMultiple(failures[k]) {
      FilterMembers(IsFailing, valid, failures[k]);
    }
    ShortfallSum(failures);
    HalfIsCent(Sum(Shortfall, failures));
    RoundToTwoDecimalsFixes(Sum(Shortfall, failures));
  }

  /** `isPassing` is the conjunction of the three criteria. */
  lemma VerdictIsConjunction(entities: seq<Entity>, criteria: PromotionCriteria)
    ensures var st := CheckPromotionCriteria(entities, criteria);
      st.isPassing <==> st.failures.passed && st.average.passed && st.deficit.passed
  {
  }

  /** Reordering the entity list changes nothing in the verdict. */
  lemma CheckPromotionCriteriaPermutation(entities: seq<Entity>, other: seq<Entity>, criteria: PromotionCriteria)
    requires multiset(entities) == multiset(other)
    ensures CheckPromotionCriteria(entities, criteria) == CheckPromotionCriteria(other, criteria)
  {
    MapPermutation(FinalGrade, entities, other);
    FilterPermutation(IsPositive, FinalGrades(entities), FinalGrades(other));
    MapPermutation(ValueOf, Filter(IsPositive, FinalGrades(entities)), Filter(IsPositive, FinalGrades(other)));
    var v, w := ValidGrades(entities), ValidGrades(other);
    assert |v| == |multiset(v)| == |w|;
    SumPermutation(Identity, v, w);
    FilterPermutation(IsFailing, v, w);
    var fv, fw := Filter(IsFailing, v), Filter(IsFailing, w);
    assert |fv| == |multiset(fv)| == |fw|;
    SumPermutation(Shortfall, fv, fw);
  }

  // ---------------------------------------------------------------------------
  // Worked verdicts
  // ---------------------------------------------------------------------------

  /** Three entities whose final grades all enter the statistics. */
  lemma ThreeValid(a: Entity, b: Entity, c: Entity)
    requires IsPositive(FinalGrade(a)) && IsPositive(FinalGrade(b)) && IsPositive(FinalGrade(c))
    ensures ValidGrades([a, b, c]) == [FinalGrade(a).value, FinalGrade(b).value, FinalGrade(c).value]
  {
    assert ValidGrades([]) == [];
    ValidGradesSnoc([], a);
    assert [] + [a] == [a];
    ValidGradesSnoc([a], b);
    assert [a] + [b] == [a, b];
    ValidGradesSnoc([a, b], c);
    assert [a, b] + [c] == [a, b, c];
  }

  /** Sum of three grades, and the failing ones among them. */
  lemma ThreeStatistics(x: real, y: real, z: real)
    ensures Sum(Identity, [x, y, z]) == x + y + z
    ensures Filter(IsFailing, [x, y, z]) ==
      (if x < 4.0 then [x] else []) + (if y < 4.0 then [y] else []) + (if z < 4.0 then [z] else [])
  {
    assert [x, y, z] == [x, y] + [z] && [x, y] == [x] + [y];
    SumSingleton(Identity, x);
    SumSnoc(Identity, [x], y);
    SumSnoc(Identity, [x, y], z);
    FilterSingleton(IsFailing, x);
    FilterSnoc(IsFailing, [x], y);
    FilterSnoc(IsFailing, [x, y], z);
  }

  /** Final grades 5, 4.5 and 3.5 under the shipped thresholds: one failure,
      average 4.5, deficit 0.5, promoted. */
  lemma PassingVerdict(a: Entity, b: Entity, c: Entity)
    requires FinalGrade(a) == Real(5.0) && FinalGrade(b) == Real(4.5) && FinalGrade(c) == Real(3.5)
    ensures var st := CheckPromotionCriteria([a, b, c], PromotionCriteria(4.0, 4.0, 2.0));
      && st.hasGrades && st.failures.count == 1 && st.average.value == 4.5
      && st.deficit.value == 0.5 && st.isPassing
  {
    ThreeValid(a, b, c);
    ThreeStatistics(5.0, 4.5, 3.5);
    assert Filter(IsFailing, [5.0, 4.5, 3.5]) == [3.5];
    SumSingleton(Shortfall, 3.5);
    RoundToHalfUnique(13.0 / 3.0, 4.5);
    RoundToTwoDecimalsFixes(0.5);
  }

  /** Final grades 2, 2 and 6: two failures are allowed, but the average 3.5
      and the deficit 4 both miss their thresholds. */
  lemma FailingVerdict(a: Entity, b: Entity, c: Entity)
    requires FinalGrade(a) == Real(2.0) && FinalGrade(b) == Real(2.0) && FinalGrade(c) == Real(6.0)
    ensures var st := CheckPromotionCriteria([a, b, c], PromotionCriteria(4.0, 4.0, 2.0));
      && st.failures.count == 2 && st.failures.passed
      && st.average.value == 3.5 && !st.average.passed
      && st.deficit.value == 4.0 && !st.deficit.passed && !st.isPassing
  {
    var valid := [2.0, 2.0, 6.0];
    ThreeValid(a, b, c);
    assert ValidGrades([a, b, c]) == valid;
    ThreeStatistics(2.0, 2.0, 6.0);
    var failures := [2.0] + [2.0];
    assert Filter(IsFailing, valid) == failures;
    SumSingleton(Shortfall, 2.0);
    SumSnoc(Shortfall, [2.0], 2.0);
    assert Sum(Shortfall, failures) == 4.0;
    RoundToHalfUnique(10.0 / 3.0, 3.5);
    assert Sum(Identity, valid) / |valid| as real == 10.0 / 3.0;
    RoundToTwoDecimalsFixes(4.0);
  }

  /** A list in which no entity has a grade is never promoted when an average
      is demanded: nothing counts, the average is 0. */
  lemma UngradedListFails(entities: seq<Entity>, criteria: PromotionCriteria)
    requires criteria.minAverage > 0.0
    requires forall k :: 0 <= k < |entities| ==> !EntityHasGrades(entities[k])
    ensures var st := CheckPromotionCriteria(entities, criteria);
      && !st.hasGrades && st.failures.count == 0 && st.average.value == 0.0
      && st.deficit.value == 0.0 && !st.isPassing
  {
    forall k | 0 <= k < |entities| ensures !IsPositive(FinalGrade(entities[k])) {
      CountedIffGraded(entities[k]);
    }
    CountsByEntity(entities);
    FilterEmpty(e => IsPositive(FinalGrade(e)), entities);
    assert ValidGrades(entities) == [];
    RoundToHalfFixes(0.0);
    RoundToTwoDecimalsFixes(0.0);
  }
}
