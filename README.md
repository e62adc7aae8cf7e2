# Grade tracker: promotion evaluation, in Dafny

This project models the core of a grade tracker for a Swiss secondary school.

- A student records weighted grades per subject, on the scale 1 to 6.
- A subject's final grade is its weighted mean rounded to the nearest half-grade.
- A combined subject averages the final grades of those of its member subjects that have grades.
- A year's list of subjects and combined subjects is checked against three promotion criteria:
  - the number of final grades below 4;
  - the rounded average;
  - the total deficit below 4.

The model covers:

- the evaluator (`src/utils/promotion.ts`) and the data model it works on (`src/types/index.ts`);
- the per-year thresholds (`src/config/criteria.ts`);
- the subject templates and their slug ids (`src/config/subjects.ts`);
- the year/direction resolution (`src/utils/initializeData.ts`);
- the grade and direction handlers of the app component (`src/App.tsx`);
- the grade dialog (`src/components/GradeModal.tsx`) and the onboarding form (`src/components/Onboarding.tsx`).

Modules, one per source file, plus five supporting ones:

| module | file | models |
|---|---|---|
| `Wrappers` | wrappers.dfy | `Option` |
| `Seqs` | seqs.dfy | `map`, `filter` and `reduce` as `Map`, `Filter` and `Sum`, with append and permutation lemmas |
| `Rounding` | rounding.dfy | `Math.round`, `roundToHalf`, `roundToTwoDecimals` |
| `Strings` | strings.dfy | `trim`, ASCII `toLowerCase`, `replace(/\s+/g, '-')` |
| `Decimal` | decimal.dfy | `parseFloat` on decimal numerals with an optional exponent part; `toString` on non-negative multiples of 0.01 |
| `Types` | types.dfy | entities, type guards, years, student data, criteria, status |
| `Promotion` | promotion.dfy | final grades (loops as methods) and `checkPromotionCriteria` |
| `Criteria` | criteria.dfy | `getCriteriaForYear` |
| `Subjects` | subjects.dfy | `createDefaultSubject`, the default and direction tables |
| `InitializeData` | initialize.dfy | `initializeStudentData`, `getSubjectsForYear` |
| `AppState` | app.dfy | the `App` class and its handlers |
| `GradeModal` | grademodal.dfy | the `GradeForm` class: filter, pre-fill, submit |
| `Onboarding` | onboarding.dfy | the `OnboardingForm` class |

Modelling choices:

- **Numbers.** JavaScript numbers are `real`. `Math.round(y)` is `(y + 0.5).Floor`, so ties go up. NaN appears only where the source produces it:
  - a combined subject with no graded member divides 0 by 0;
  - `parseFloat` finds no digit.

  Both are the `NaN` variant of `Number`.
- **Entities.** An entity is a `Leaf` (a subject with grades) or a `Combined` subject whose members are leaf subjects. The type guards test for the presence of a field, so they are modelled on a `Shape` record with optional `grades` and `subjects` fields. `subjects` is checked first.
- **Loops.** The two `forEach` loops of the final-grade computation are methods proved equal to the functions that `checkPromotionCriteria` uses.
- **UI state.** The app component and the two forms are classes whose fields are the React state. Their methods are the handlers.
  - The app's save and delete handlers work on the stored list of the current year, as the source does. The subject list on display comes from `GetSubjectsForYear`.
  - The generated grade id is a parameter (`freshId`).

The model follows what the code computes, also where that differs from what one might expect:

- A combined subject without graded members has final grade NaN, not 0.
  - It is left out of the statistics only because `NaN > 0` is false.
- An empty entity list, or one without grades, is not vacuously promoted.
  - Its average is 0, which fails `minAverage` 4, so `isPassing` is false (`Promotion.UngradedListFails`).
- Editing a grade with an empty label removes the old label, because the dialog always sends a `label` key (`AppState.EditDropsLabel`).

## Model

| member | source | states |
|---|---|---|
| `Rounding.JsRound` | src/utils/promotion.ts:8 | `Math.round(y)` is the integer within (y - 0.5, y + 0.5] |
| `Rounding.RoundToHalf` | src/utils/promotion.ts:7-9 | the result is a multiple of 0.5 within (x - 0.25, x + 0.25] |
| `Rounding.RoundToHalfUnique` | src/utils/promotion.ts:7-9 | that half-grade is the only one in the interval, so the contract determines the function |
| `Rounding.RoundToHalfFixes` | src/utils/promotion.ts:7-9 | every half-grade is left unchanged |
| `Rounding.RoundToHalfIdempotent` | src/utils/promotion.ts:7-9 | rounding twice equals rounding once |
| `Rounding.RoundToHalfMonotone` | src/utils/promotion.ts:7-9 | x <= y implies RoundToHalf(x) <= RoundToHalf(y) |
| `Rounding.RoundToHalfWithin` | src/utils/promotion.ts:7-9 | a value inside an interval with half-grade ends rounds to a value inside it |
| `Rounding.RoundToHalfTieGoesUp` | src/utils/promotion.ts:7-9 | 4.25 rounds to 4.5 (ties toward +infinity) |
| `Rounding.RoundToTwoDecimals` | src/utils/promotion.ts:14-16 | the result is a multiple of 0.01 within (x - 0.005, x + 0.005] |
| `Rounding.HalfIsCent` | src/utils/promotion.ts:14-16 | every half-grade is a multiple of 0.01 |
| `Rounding.RoundToTwoDecimalsFixes` | src/utils/promotion.ts:14-16 | multiples of 0.01, hence half-grades and deficits built from them, are unchanged |
| `Rounding.HalfMultipleSum` | src/utils/promotion.ts:80-84 | sums and differences of half-grades are half-grades |
| `Rounding.WholeIsHalf` | src/utils/promotion.ts:7-9 | proof helper: a real whose double is a whole number is a half-grade |
| `Rounding.RoundToTwoDecimalsWithin` | src/components/GradeModal.tsx:55-56 | a value inside an interval with cent ends rounds to a value inside it |
| `Rounding.RoundToTwoDecimalsNonNegative` | src/components/GradeModal.tsx:56 | a non-negative value does not round to a negative one |
| `Types.AsEntity` | src/types/index.ts:13-15 | a subject viewed as an entity is a leaf with the same id, name and grades |
| `Types.EntityIndex` | src/App.tsx:114 | `find` by id: the first entity with the id, or none exactly when no entity has it |
| `Types.Classify` | src/types/index.ts:22-28 | `subjects` present gives a combined subject even if `grades` is present too; `grades` alone a leaf; neither, no entity |
| `Types.ClassifyToShape` | src/types/index.ts:13-28 | a stored entity has exactly one of the two fields and is read back as itself |
| `Types.Years.Set` | src/types/index.ts:49-53 | replacing one year's list leaves the other two years unchanged |
| `Promotion.LeafFinalGrade` | src/utils/promotion.ts:24-36 | 0 with no grades or total weight <= 0; otherwise within 0.25 of the weighted mean; always a half-grade |
| `Promotion.WeightedSumBounds` | src/utils/promotion.ts:26-32 | with values in [1, 6] and positive weights: total weight <= weighted sum <= 6 times total weight |
| `Promotion.MeanWithin` | src/utils/promotion.ts:34 | a mean of values in [lo, hi] lies in [lo, hi] |
| `Promotion.MulNonNegative` | src/utils/promotion.ts:30 | proof helper: a product of non-negative factors is non-negative |
| `Promotion.LeafFinalGradeOnScale` | src/utils/promotion.ts:24-36 | a leaf with well-formed grades has a final grade in [1, 6] |
| `Promotion.LeafFinalGradePermutation` | src/utils/promotion.ts:29-32 | reordering the grades does not change the final grade |
| `Promotion.LeafExample` | src/utils/promotion.ts:24-36 | grades 5 (weight 1) and 3 (weight 2) give 3.5 |
| `Promotion.CombinedFinalGrade` | src/utils/promotion.ts:42-54 | NaN exactly when no member has a grade; otherwise a half-grade |
| `Promotion.CombinedSubjectHasGrades` | src/utils/promotion.ts:56-58 | true exactly when some member has a grade, i.e. when the combined grade is a number |
| `Promotion.CombinedIgnoresUngraded` | src/utils/promotion.ts:45-51 | inserting an ungraded member anywhere changes nothing |
| `Promotion.CombinedSingleGraded` | src/utils/promotion.ts:42-54 | with one graded member the combined grade is that member's grade |
| `Promotion.CombinedFinalGradeOnScale` | src/utils/promotion.ts:42-54 | with well-formed grades the combined grade, when a number, lies in [1, 6] |
| `Promotion.CombinedFinalGradePermutation` | src/utils/promotion.ts:45-51 | reordering the members does not change the combined grade |
| `Promotion.CombinedExample` | src/utils/promotion.ts:42-54 | members graded 5, 4 and one ungraded give 4.5 |
| `Promotion.CombinedOfTwo` | src/utils/promotion.ts:42-54 | with two graded members the combined grade is the half-grade rounding of the mean of their two final grades |
| `Promotion.MemberExample` | src/utils/promotion.ts:24-36 | one whole grade of weight 1 is its own final grade |
| `Promotion.CombinedUngradedExample` | src/utils/promotion.ts:52-58 | two ungraded members give NaN, and the combined subject has no grades |
| `Promotion.FinalGrade` | src/utils/promotion.ts:18-40 | a leaf gets its leaf grade, a combined subject its combined grade; a number is a half-grade |
| `Promotion.FinalGradeOfShape` | src/utils/promotion.ts:18-40 | the `subjects` test comes first; an object with neither field gets 0 |
| `Promotion.CountedIffGraded` | src/utils/promotion.ts:64-65 | an entity that enters the statistics has grades; with well-formed grades every graded entity enters |
| `Promotion.CalculateFinalGrade` | src/utils/promotion.ts:18-40 | the accumulating loop returns FinalGrade(e) |
| `Promotion.GradedStep` | src/utils/promotion.ts:45-51 | one loop step adds the member to the graded members and its grade to the sum exactly when it has grades |
| `Promotion.MemberAsEntityGrade` | src/utils/promotion.ts:47 | calculateFinalGrade on a member returns that member's leaf final grade |
| `Promotion.CombinedFromTotals` | src/utils/promotion.ts:52-53 | the sum and count over the graded members determine the combined grade: NaN for a count of 0, otherwise the rounded quotient |
| `Promotion.CalculateFinalGradeCombined` | src/utils/promotion.ts:42-54 | the `sum`/`numGrades` loop returns CombinedFinalGrade(members) |
| `Promotion.ValidGradesArePositiveHalves` | src/utils/promotion.ts:64-65 | every valid grade is a positive half-grade |
| `Promotion.ValidGradesSnoc` | src/utils/promotion.ts:64-65 | the valid grades follow the entity list one entity at a time |
| `Promotion.ValidGrades` | src/utils/promotion.ts:64-65 | the positive final grades in list order; their meaning is stated by `ValidGradesArePositiveHalves`, `ValidGradesSnoc` and `CountsByEntity` |
| `Promotion.CountsByEntity` | src/utils/promotion.ts:64-69 | counts the valid grades by entities with a positive grade, and the failures by entities graded in (0, 4) |
| `Promotion.HasGradesMeaning` | src/utils/promotion.ts:66 | `hasGrades` holds exactly when some entity's final grade is above 0 |
| `Promotion.FailuresMeaning` | src/utils/promotion.ts:69-98 | the failure count is the number of entities graded in (0, 4), at most the valid count; passes exactly when count <= maxFailures; the threshold is echoed |
| `Promotion.AverageMeaning` | src/utils/promotion.ts:72-103 | the average is a half-grade within 0.25 of the mean of valid grades, 0 when there are none; passes exactly when >= minAverage; with no valid grade and a positive minAverage, not promoted |
| `Promotion.AverageWithin` | src/utils/promotion.ts:72-76 | valid grades inside [lo, hi] give an average inside [lo, hi] |
| `Promotion.RoundedMeanWithin` | src/utils/promotion.ts:72-76 | the rounded mean of values inside [lo, hi] with half-grade ends lies inside [lo, hi] |
| `Promotion.MeanOfBounded` | src/utils/promotion.ts:72-76 | the unrounded mean of grades all in [lo, hi] lies in [lo, hi] |
| `Promotion.ShortfallSum` | src/utils/promotion.ts:80-83 | the deficit of failing half-grades is a half-grade between 0.5 and 3.5 per failure |
| `Promotion.Shortfall` | src/utils/promotion.ts:80-83 | an entity's deficit 4 - g, 0 from 4 up; `ShortfallSum` and `DeficitMeaning` state what the summed deficit is |
| `Promotion.DeficitMeaning` | src/utils/promotion.ts:80-108 | the deficit is the unrounded sum of shortfalls, >= 0, and 0 exactly when there is no failure; passes exactly when <= maxDeficit; the threshold is echoed |
| `Promotion.VerdictIsConjunction` | src/utils/promotion.ts:91 | `isPassing` is the conjunction of the three criteria |
| `Promotion.CheckPromotionCriteria` | src/utils/promotion.ts:60-111 | the status; `HasGradesMeaning`, `FailuresMeaning`, `AverageMeaning`, `DeficitMeaning` and `VerdictIsConjunction` state each field, `CheckPromotionCriteriaPermutation` its order independence |
| `Promotion.CheckPromotionCriteriaPermutation` | src/utils/promotion.ts:60-111 | reordering the entity list does not change the status |
| `Promotion.ThreeValid` | src/utils/promotion.ts:64-65 | three positively graded entities give their three grades as the valid grades |
| `Promotion.ThreeStatistics` | src/utils/promotion.ts:69-75 | the sum of three grades and the failing ones among them |
| `Promotion.PassingVerdict` | src/utils/promotion.ts:60-111 | grades 5, 4.5, 3.5 under 4/4/2: one failure, average 4.5, deficit 0.5, promoted |
| `Promotion.FailingVerdict` | src/utils/promotion.ts:60-111 | grades 2, 2, 6: two failures allowed, average 3.5 and deficit 4 fail, not promoted |
| `Promotion.UngradedListFails` | src/utils/promotion.ts:72-87 | with no graded entity and a positive minAverage: no grades, nothing counted, average and deficit 0, not promoted |
| `Criteria.GetCriteriaForYear` | src/config/criteria.ts:4-32 | each year returns its own record: at most 4 failures, average at least 4, deficit at most 2; maxFailures a non-negative whole number, maxDeficit non-negative |
| `Strings.TrimStart` | src/components/Onboarding.tsx:19 | a suffix of the input preceded only by whitespace, and starting with a non-whitespace character |
| `Strings.TrimStartStep` | src/components/Onboarding.tsx:19 | removing one more leading whitespace character preserves those facts |
| `Strings.TrimEnd` | src/components/Onboarding.tsx:19 | a prefix of the input followed only by whitespace, and ending with a non-whitespace character |
| `Strings.IsWhitespace` | src/components/GradeModal.tsx:61 | the characters `trim` and `\s` remove or match; see Left out |
| `Strings.Trim` | src/components/GradeModal.tsx:61 | `trim()`; `TrimMeaning`, `TrimEmptyWhenBlank`, `BlankWhenTrimEmpty`, `TrimmedEnds` and `TrimIdempotent` state its meaning |
| `Strings.TrimMeaning` | src/components/GradeModal.tsx:61 | the trimmed text is empty exactly when the input is all whitespace; otherwise it begins and ends with non-whitespace |
| `Strings.TrimEmptyWhenBlank` | src/components/GradeModal.tsx:61 | trimming all-whitespace text gives the empty string |
| `Strings.BlankWhenTrimEmpty` | src/components/GradeModal.tsx:61 | text that trims to the empty string is all whitespace |
| `Strings.TrimmedEnds` | src/components/GradeModal.tsx:61 | a non-empty trimmed string neither starts nor ends with whitespace |
| `Strings.WhitespaceConcat` | src/components/Onboarding.tsx:19 | two all-whitespace strings joined are all whitespace |
| `Strings.TrimIdempotent` | src/components/Onboarding.tsx:27 | trimming twice equals trimming once |
| `Strings.TrimStartAppend` | src/components/Onboarding.tsx:19 | how leading whitespace is trimmed off a concatenation |
| `Strings.LowerChar` | src/config/subjects.ts:5 | upper-case ASCII letters move to lower case; every other character is unchanged |
| `Strings.ToLowerCase` | src/config/subjects.ts:5 | `toLowerCase` maps each character, keeping the length |
| `Strings.ReplaceWhitespaceRuns` | src/config/subjects.ts:5 | `replace(/\s+/g, '-')`; `ReplaceRemovesWhitespace`, `ReplaceWithoutWhitespace` and `ReplaceRun` state its meaning |
| `Strings.ReplaceRunsFrom` | src/config/subjects.ts:5 | the scan behind it, with a flag for being inside a run; `ScanStep`, `RunContinues`, `RunEnds` and `ReplaceRunFrom` state its steps |
| `Strings.ReplaceRemovesWhitespace` | src/config/subjects.ts:5 | after `replace(/\s+/g, '-')` no whitespace is left and the text is no longer |
| `Strings.ReplaceWithoutWhitespace` | src/config/subjects.ts:5 | text without whitespace is unchanged |
| `Strings.RunContinues` | src/config/subjects.ts:5 | more whitespace inside a run adds nothing |
| `Strings.RunEnds` | src/config/subjects.ts:5 | a run ends at a non-whitespace character |
| `Strings.ReplaceRun` | src/config/subjects.ts:5 | one maximal whitespace run between two words becomes exactly one '-' |
| `Strings.ReplaceRunFrom` | src/config/subjects.ts:5 | the same, from any scanner state |
| `Strings.ScanStep` | src/config/subjects.ts:5 | one scanner step: whitespace opens a run with '-', or continues one with nothing; other characters are copied |
| `Strings.ScanStepAcross` | src/config/subjects.ts:5 | the replacement scan emits the same first piece for a + w + b as for a alone, and goes on with the rest |
| `Strings.RunAfterWord` | src/config/subjects.ts:5 | a run after a word yields one '-' |
| `Subjects.CreateDefaultSubject` | src/config/subjects.ts:4-8 | keeps the name verbatim and starts without grades |
| `Subjects.Slug` | src/config/subjects.ts:4-8 | the id of a name: lower case, whitespace runs as '-'; `SlugShape`, `SlugOfWord`, `SlugOfTwoWords`, `SlugPrefix` and `SlugExample` state its meaning |
| `Subjects.SlugShape` | src/config/subjects.ts:5 | the id has no whitespace and no upper-case letter, and is no longer than the name |
| `Subjects.ScanKeepsNoUpperCase` | src/config/subjects.ts:5 | replacing whitespace runs adds no upper-case letter |
| `Subjects.SlugOfWord` | src/config/subjects.ts:5 | a one-word name's id is its lower-cased name |
| `Subjects.SlugOfTwoWords` | src/config/subjects.ts:5 | two words separated by whitespace give lower(a) + "-" + lower(b) |
| `Subjects.SlugExample` | src/config/subjects.ts:42 | "Advanced Math" gives the id "advanced-math" |
| `Subjects.DefaultSubjects` | src/config/subjects.ts:10-34 | years 1 and 2 list their names in order, ungraded, with slug ids; year 3 exactly the empty list |
| `Subjects.DefaultsOfFirstTwoYears` | src/config/subjects.ts:11-32 | years 1 and 2 get the same eight subjects, French first and Geography last |
| `Subjects.DirectionsShape` | src/config/subjects.ts:37-74 | exactly three directions with ids direction-a/b/c, pairwise distinct; each has six ungraded subjects including French and English |
| `Subjects.SlugPrefix` | src/config/subjects.ts:5 | a name starting with two letters gives an id starting with them in lower case |
| `Subjects.DistinctIdsByPrefix` | src/config/subjects.ts:5 | names whose lower-cased two-letter prefixes differ pairwise give pairwise distinct ids |
| `Subjects.DefaultIdsDistinct` | src/config/subjects.ts:11-33 | the ids of every default list are pairwise distinct |
| `Subjects.DirectionIdsDistinct` | src/config/subjects.ts:41-71 | the ids within every direction are pairwise distinct |
| `Subjects.DirectionAIds` | src/config/subjects.ts:41-48 | the ids of direction A are pairwise distinct |
| `Subjects.DirectionBIds` | src/config/subjects.ts:53-60 | the ids of direction B are pairwise distinct |
| `Subjects.DirectionCIds` | src/config/subjects.ts:65-72 | the ids of direction C are pairwise distinct |
| `InitializeData.DefaultEntities` | src/utils/initializeData.ts:45-46 | the year's templates, copied one for one, as leaves |
| `InitializeData.InitializeStudentData` | src/utils/initializeData.ts:4-19 | year 1, no student info, no direction; years 1 and 2 are the defaults, year 3 empty |
| `InitializeData.FindDirection` | src/utils/initializeData.ts:26 | the first direction with the id, or none exactly when no direction has it |
| `InitializeData.ChosenDirection` | src/utils/initializeData.ts:25-27 | a direction applies only in year 3, with a non-empty stored direction id that names a known direction |
| `InitializeData.MergeSubject` | src/utils/initializeData.ts:30-34 | the first stored entity with the template's id, or an ungraded copy of the template |
| `InitializeData.MergeDirection` | src/utils/initializeData.ts:29-35 | one merged entity per direction subject, in order |
| `InitializeData.GetSubjectsForYear` | src/utils/initializeData.ts:21-47 | the direction merge; otherwise the stored list when non-empty; otherwise the defaults |
| `InitializeData.DirectionMerge` | src/utils/initializeData.ts:25-35 | year 3 lists exactly the direction's ids in order, each the first stored entity with that id or ungraded |
| `InitializeData.StoredListKept` | src/utils/initializeData.ts:39-42 | without an applicable direction, a non-empty stored list is returned as it is |
| `InitializeData.EmptyListFallback` | src/utils/initializeData.ts:44-46 | an empty stored list gives the eight templates in years 1 and 2, nothing in year 3 |
| `InitializeData.InitialSubjects` | src/utils/initializeData.ts:4-47 | fresh data reads back as ungraded leaves with distinct ids, empty only in year 3 |
| `AppState.GradeIndex` | src/App.tsx:120-122 | `findIndex`: the first grade with the id, or none exactly when no grade has it |
| `AppState.SaveIntoGrades` | src/App.tsx:118-136 | the leaf's grade list after a save; `AddAppends`, `EditOverwrites` and `EditDropsLabel` state its meaning |
| `AppState.SaveGradeIn` | src/App.tsx:109-136 | returns early without a subject id or with an unknown one; throws on a combined subject; otherwise updates exactly the found leaf's grades |
| `AppState.DeleteGradeIn` | src/App.tsx:144-153 | returns early for an unknown subject; throws on a combined subject; otherwise filters the found leaf's grades |
| `AppState.DeleteFromGrades` | src/App.tsx:151 | the filter on the grade list; `DeleteFromGradesMeaning` and `DeleteCounts` state its meaning |
| `AppState.DeleteFromGradesMeaning` | src/App.tsx:151 | the empty list stays empty; a grade appended at the end survives exactly when its id differs, after the kept earlier grades, so order is kept; a grade is kept exactly when it has another id, as often as it occurs; the list never lengthens; a second filter changes nothing |
| `AppState.DeleteCounts` | src/App.tsx:151 | every grade with another id occurs as often after the filter as before, every grade with the id not at all |
| `AppState.FreshSubjects` | src/App.tsx:88 | one ungraded leaf per direction subject, with its id and name |
| `AppState.SelectDirectionIn` | src/App.tsx:78-91 | an unknown id changes nothing; a known one is stored and year 3 restarts from the direction's subjects |
| `AppState.AddAppends` | src/App.tsx:129-136 | adding appends one grade with the fresh id and leaves everything else alone; a fresh id keeps grade ids distinct |
| `AppState.EditOverwrites` | src/App.tsx:118-128 | editing overwrites the first matching grade in place, keeping its id; without a match nothing changes; distinct ids stay distinct |
| `AppState.EditDropsLabel` | src/App.tsx:124-127 | an edit without a label removes the old label |
| `AppState.DeleteRemovesAll` | src/App.tsx:144-153 | the found leaf's list becomes the filter of its old list, so it keeps exactly the grades with another id, in order and with their multiplicity; nothing else changes; deleting again changes nothing |
| `AppState.EntityIndexFirst` | src/App.tsx:114 | the first position with the id is the one found |
| `AppState.DirectionResetsYearThree` | src/App.tsx:78-91 | a known direction is stored, years 1 and 2 and the rest of the data stay, and year 3 reads back as the direction's subjects, ungraded |
| `AppState.UnknownDirectionIgnored` | src/App.tsx:79-80 | an unknown direction id changes nothing |
| `AppState.ExistingGrade` | src/App.tsx:155-159 | a found grade has the editing id and belongs to a leaf with the subject id; with both ids set, a TypeError exactly when the first entity with the subject id is combined, and the first grade with the editing id is found whenever that entity is a leaf holding one |
| `AppState.SaveOverwritesShownGrade` | src/App.tsx:118-159 | the grade the dialog is pre-filled with is the grade a save overwrites, at its position |
| `AppState.EmptyStoredListIgnoresEdits` | src/App.tsx:113-116 | years 1 and 2 show eight templates while nothing is stored (the fallback at src/utils/initializeData.ts:44-46), yet a save or delete there returns early |
| `AppState.App.constructor` | src/App.tsx:28-38 | saved data with its year, or fresh data in year 1; dialog closed |
| `AppState.App.CompleteOnboarding` | src/App.tsx:58-62 | stores the student info and nothing else |
| `AppState.App.ChangeYear` | src/App.tsx:71-76 | sets the shown and the stored year; nothing else changes |
| `AppState.App.SelectDirection` | src/App.tsx:78-95 | the new data is SelectDirectionIn of the old |
| `AppState.App.OpenAddGrade` | src/App.tsx:97-101 | opens the dialog for a new grade in the subject |
| `AppState.App.OpenEditGrade` | src/App.tsx:103-107 | opens the dialog on an existing grade |
| `AppState.App.SaveGrade` | src/App.tsx:109-142 | on an update, the current year's list is replaced and the handler closes the dialog; on an early return or a TypeError the handler changes nothing |
| `AppState.App.CloseDialog` | src/App.tsx:227-231 | the dialog's `onClose`: closed, no subject or grade selected, data and year unchanged |
| `AppState.App.SubmitDialog` | src/components/GradeModal.tsx:58-64 | an accepted submission saves, then closes through `onClose`: after an early return the dialog closes with the data unchanged; only a TypeError leaves it open with nothing changed |
| `AppState.App.DeleteGrade` | src/App.tsx:144-153 | on an update the current year's list is replaced; otherwise nothing changes |
| `Decimal.ParseFloat` | src/components/GradeModal.tsx:40-41 | `parseFloat`: an optional '-', then ParseUnsigned; its meaning is stated by `ParseNumeral`, `ParseWhole`, `FormatRoundTrip` and the exponent lemmas below |
| `Decimal.ParseUnsigned` | src/components/GradeModal.tsx:40-41 | NaN without a digit before the exponent part, otherwise the mantissa scaled by the exponent part if there is one |
| `Decimal.MantissaEnd` | src/components/GradeModal.tsx:40-41 | where the mantissa stops: after the fraction digits if a '.' follows the integer digits, else after the integer digits |
| `Decimal.Exponent` | src/components/GradeModal.tsx:41 | an exponent part needs 'e' or 'E' first and is absent when the text does not start with one |
| `Decimal.Scale` | src/components/GradeModal.tsx:41 | m shifted by e decimal places, one factor of ten at a time; `ScaleUp` and `ScaleDown` prove it is m * 10^e and m / 10^-e |
| `Decimal.Format` | src/components/GradeModal.tsx:26-27 | `toString` of a non-negative multiple of 0.01; `FormatRoundTrip` and `PartsRoundTrip` state that `parseFloat` reads it back as the number |
| `Decimal.DigitChar` | src/components/GradeModal.tsx:26-27 | the digit character of a value below 10 |
| `Decimal.Pow10` | src/components/GradeModal.tsx:40-41 | helper: 10^k, at least 1 |
| `Decimal.LeadingDigits` | src/components/GradeModal.tsx:40-41 | the length of the longest run of digits at the start |
| `Decimal.FractionDigits` | src/components/GradeModal.tsx:40-41 | the fraction digits are digits |
| `Decimal.NatToString` | src/components/GradeModal.tsx:26-27 | a non-empty digit string whose value is n, without a leading zero unless n is 0 |
| `Decimal.LeadingDigitsOfNumeral` | src/components/GradeModal.tsx:40-41 | a run of digits followed by a non-digit is read in full |
| `Decimal.SmallDigitsValue` | src/components/GradeModal.tsx:40-41 | the value of one and of two digits |
| `Decimal.NumeralParts` | src/components/GradeModal.tsx:40-41 | the integer and fraction digits of a numeral a.d |
| `Decimal.ParseNumeral` | src/components/GradeModal.tsx:40-41 | `parseFloat` of a.d is the value of a plus d / 10^\|d\| |
| `Decimal.ParseByParts` | src/components/GradeModal.tsx:40-41 | the unsigned read, once integer and fraction digits are known |
| `Decimal.ParseWhole` | src/components/GradeModal.tsx:40-41 | `parseFloat` reads a whole number's numeral back as that number |
| `Decimal.CentsSplit` | src/components/GradeModal.tsx:26-27 | a non-negative multiple of 0.01 is whole units plus cents |
| `Decimal.FormatRoundTrip` | src/components/GradeModal.tsx:26-41 | `parseFloat(x.toString())` is x for every non-negative multiple of 0.01 |
| `Decimal.PartsRoundTrip` | src/components/GradeModal.tsx:26-41 | the same, by units and cents |
| `Decimal.OneFractionDigit` | src/components/GradeModal.tsx:40-41 | reading a numeral with one fraction digit |
| `Decimal.TwoFractionDigits` | src/components/GradeModal.tsx:40-41 | reading a numeral with two fraction digits |
| `Decimal.ReadFraction` | src/components/GradeModal.tsx:40-41 | a whole part, a point and a non-empty digit string parse as whole + value / 10^digits |
| `Decimal.ParsePositiveExponent` | src/components/GradeModal.tsx:41 | digits a, 'e', digits d read as a scaled up by d places, which is a * 10^d by `ScaleUp` |
| `Decimal.ParseNegativeExponent` | src/components/GradeModal.tsx:41 | digits a, "e-", digits d read as a / 10^d |
| `Decimal.ParseWithExponentPart` | src/components/GradeModal.tsx:41 | digits followed by any text that is an exponent part read as the digits' value scaled by that exponent |
| `Decimal.ReadBeforeExponent` | src/components/GradeModal.tsx:41 | proof helper: digits followed by text that neither continues them nor starts a fraction form the whole mantissa |
| `Decimal.WholeMantissa` | src/components/GradeModal.tsx:41 | proof helper: a mantissa without fraction digits is the value of its integer digits |
| `Decimal.ExponentPositive` | src/components/GradeModal.tsx:41 | "e" d is the exponent d |
| `Decimal.ExponentNegative` | src/components/GradeModal.tsx:41 | "e-" d is the exponent -d |
| `Decimal.SignedNegative` | src/components/GradeModal.tsx:41 | proof helper: a '-' before digits negates their value |
| `Decimal.ExponentMarker` | src/components/GradeModal.tsx:41 | proof helper: after the 'e' come the sign and the digits |
| `Decimal.WholeDigits` | src/components/GradeModal.tsx:41 | proof helper: a non-empty digit string is read in full as its value |
| `Decimal.ScaleUp` | src/components/GradeModal.tsx:41 | a non-negative exponent k multiplies by 10^k |
| `Decimal.ScaleDown` | src/components/GradeModal.tsx:41 | a negative exponent -k divides by 10^k |
| `GradeModal.Admitted` | src/components/GradeModal.tsx:70 | the value filter: empty, or digits, at most one '.', at most two digits after it; `FormatAdmitted`, `AdmittedParse` and `AdmittedParts` state what it lets through |
| `GradeModal.FormatAdmitted` | src/components/GradeModal.tsx:24-73 | every pre-filled value passes the input filter |
| `GradeModal.FractionIsCent` | src/components/GradeModal.tsx:70 | at most two fraction digits give a non-negative multiple of 0.01 |
| `GradeModal.ScaledCent` | src/components/GradeModal.tsx:70 | a whole part plus d / q, with q one of 1, 10, 100 and n the value in cents, is a non-negative multiple of 0.01 |
| `GradeModal.AdmittedParse` | src/components/GradeModal.tsx:40-70 | filtered text reads as NaN exactly when empty or a lone '.', otherwise as a non-negative multiple of 0.01 |
| `GradeModal.AdmittedParts` | src/components/GradeModal.tsx:40-70 | an admitted entry parses without a sign, with at most two fraction digits, and those digits are the text after its point |
| `GradeModal.SubmitForm` | src/components/GradeModal.tsx:38-65 | rejected exactly when the value is NaN or outside [1, 6], or the weight is NaN or <= 0; otherwise both rounded to cents, and the trimmed label kept, absent when empty |
| `GradeModal.AcceptedGradeShape` | src/components/GradeModal.tsx:43-61 | an accepted value lies in [1, 6], the weight is >= 0, both are cent multiples, and a label has no surrounding whitespace |
| `GradeModal.ParseFour` | src/components/GradeModal.tsx:40 | "4" reads as 4 |
| `GradeModal.TinyWeightDigits` | src/components/GradeModal.tsx:41 | the digits of "0.004" |
| `GradeModal.ParseTinyWeight` | src/components/GradeModal.tsx:41 | "0.004" reads as 0.004 |
| `GradeModal.TinyWeightSavedAsZero` | src/components/GradeModal.tsx:48-56 | weight 0.004 passes the check and is saved as 0 |
| `GradeModal.TinyWeightRoundsToZero` | src/components/GradeModal.tsx:56 | 0.004 rounds to 0 at two decimals |
| `GradeModal.ParseHalfWithExponent` | src/components/GradeModal.tsx:41 | the weight text "5e-1" reads as 0.5 |
| `GradeModal.ParseHundredWithExponent` | src/components/GradeModal.tsx:41 | the weight text "1e2" reads as 100 |
| `GradeModal.ExponentExampleDigits` | src/components/GradeModal.tsx:41 | proof helper: the digit values and powers of ten those two examples use |
| `GradeModal.ExponentWeightAccepted` | src/components/GradeModal.tsx:116-124 | the number input can hold "5e-1"; with value "4" the dialog accepts it as weight 0.5 |
| `GradeModal.AdmittedValueKept` | src/components/GradeModal.tsx:55-70 | with the filter in place, the saved value is the number typed, without rounding |
| `GradeModal.GradeForm.constructor` | src/components/GradeModal.tsx:20-22 | fields start as "", "1", "" |
| `GradeModal.GradeForm.Reset` | src/components/GradeModal.tsx:24-34 | pre-fills the grade's value, weight and label, which read back as the grade's numbers; without a grade, "", "1", "" |
| `GradeModal.GradeForm.ChangeValue` | src/components/GradeModal.tsx:67-73 | takes the input exactly if it passes the filter; otherwise the field keeps its text |
| `GradeModal.GradeForm.ChangeWeight` | src/components/GradeModal.tsx:121 | the weight field takes any text |
| `GradeModal.GradeForm.ChangeNote` | src/components/GradeModal.tsx:137 | the label field takes any text |
| `GradeModal.GradeForm.Submit` | src/components/GradeModal.tsx:38-65 | the result is SubmitForm of the fields; an accepted value is the one typed; rejected exactly when the value is empty, "." or off the scale, or the weight is not positive |
| `Onboarding.Validate` | src/components/Onboarding.tsx:18-21 | a name error exactly when the name is all whitespace; a division error exactly when none is chosen |
| `Onboarding.Completion` | src/components/Onboarding.tsx:25-30 | completes exactly when the name is not all whitespace and a division is chosen, with the trimmed name and that division |
| `Onboarding.CompletionShape` | src/components/Onboarding.tsx:25-30 | completes exactly when there is no error; the name is non-empty with no surrounding whitespace |
| `Onboarding.CompletionStable` | src/components/Onboarding.tsx:26-29 | submitting the completed name again gives the same info |
| `Onboarding.OnboardingForm.constructor` | src/components/Onboarding.tsx:11-13 | empty name, no division, no errors |
| `Onboarding.OnboardingForm.ChangeName` | src/components/Onboarding.tsx:53-56 | sets the name and clears only the name error |
| `Onboarding.OnboardingForm.ChangeDivision` | src/components/Onboarding.tsx:87-90 | sets the division and clears only the division error |
| `Onboarding.OnboardingForm.Submit` | src/components/Onboarding.tsx:15-31 | records the validation errors and completes exactly when there are none |
| `Seqs.Map` | src/utils/promotion.ts:64 | keeps the length and applies f to each element |
| `Seqs.Filter` | src/utils/promotion.ts:65 | no longer than its input |
| `Seqs.FilterMembers` | src/utils/promotion.ts:65-69 | an element is kept exactly when it is in the input and passes |
| `Seqs.FilterAppend` | src/utils/promotion.ts:65-69 | filtering distributes over concatenation |
| `Seqs.SumAppend` | src/utils/promotion.ts:74-83 | summing distributes over concatenation |
| `Seqs.MapAppend` | src/utils/promotion.ts:64 | mapping distributes over concatenation |
| `Seqs.RemoveLast` | src/utils/promotion.ts:60-111 | a permutation of a list contains its last element, and the rests are permutations of each other |
| `Seqs.SumPermutation` | src/utils/promotion.ts:74-83 | a sum does not depend on the order |
| `Seqs.FilterPermutation` | src/utils/promotion.ts:65-69 | filtering permuted lists gives permuted results |
| `Seqs.FilterAround` | src/utils/promotion.ts:65-69 | filtering a list with one marked element |
| `Seqs.MapPermutation` | src/utils/promotion.ts:64 | mapping permuted lists gives permuted results |
| `Seqs.FilterEmpty` | src/utils/promotion.ts:66 | the filter is empty exactly when no element passes |
| `Seqs.SumBounds` | src/utils/promotion.ts:74 | a sum of terms in [lo, hi] lies in [lo*n, hi*n] |
| `Seqs.SumSingleton` | src/utils/promotion.ts:74 | the sum of one term |
| `Seqs.FilterSingleton` | src/utils/promotion.ts:65 | the filter of one element |
| `Seqs.FilterSnoc` | src/utils/promotion.ts:65 | filtering a list extended by one element |
| `Seqs.SumSnoc` | src/utils/promotion.ts:74 | summing a list extended by one element |
| `Seqs.FilterAll` | src/App.tsx:151 | filtering a list whose elements all pass changes nothing |

## Left out

- IEEE-754 floating point. Grades, weights and means are exact reals. `roundToTwoDecimals` exists in the source to hide rounding noise that the model does not have.
- Decimal.ParseFloat: reads an optional '-', digits, an optional '.' with digits, and an optional exponent part. Leading whitespace, a leading '+' and "Infinity" are not modelled. Neither field can hold them: the value filter admits only digits and '.', and a number input's value is either a valid floating-point number or empty.
- GradeModal.GradeForm.Reset: its requires limits the pre-filled value and weight to non-negative multiples of 0.01, because `toString` is modelled only there. Grades saved through the dialog have that form; imported data need not have it.
- Strings.LowerChar: lower-cases only the ASCII letters A-Z. Unicode case mapping is not modelled.
- Strings.IsWhitespace: is the fixed set of characters that `\s` and `trim` treat as whitespace. Unicode category data is not consulted.
- The browser's own checks on the weight field (`min`, `step`, `required`) are not modelled. Without them a weight below 0.005 is saved as 0 (`GradeModal.TinyWeightSavedAsZero`).
- The generated grade id (`Date.now()` and `Math.random()`) becomes the parameter `freshId`. Its uniqueness is a hypothesis of `AppState.AddAppends`.
- Aliasing: in the source, the handlers mutate subject objects shared with the previous state through shallow copies. The model builds new values instead, so it does not capture that the old state object changes as well.
- React's state, effects and re-rendering are not modelled. Each handler is one method call, and the `isOpen` dependency of the dialog's reset effect becomes an explicit `Reset` call.
- Storage (localStorage, import/export), translations, analytics and `alert` are I/O. They are left out; a rejected submission just returns `Rejected`.
- The status shown by the app (`checkPromotionCriteria` on `getSubjectsForYear` with `getCriteriaForYear`, src/App.tsx:67-69) is the composition of the modelled functions. It is not a separate member.
- Rendering components (status panel, cards, selectors, menu, swipe gestures) are not part of the model.
- Subjects.DefaultIdsDistinct and Subjects.DirectionIdsDistinct: distinctness is proved from the names' distinct two-letter prefixes, not by computing every id. Only "Advanced Math" has its full id worked out (`Subjects.SlugExample`).
