/** The data model of src/types/index.ts. */
module Types {
  import opened Wrappers

  /** One assessment. `note` is the source's optional `label` (a keyword in
      Dafny). The source documents value as 1-6 and weight as a positive
      multiplier; neither is enforced by the type. */
  datatype Grade = Grade(id: string, value: real, weight: real, note: Option<string>)

  /** A leaf subject: a named list of grades. */
  datatype Subject = Subject(id: string, name: string, grades: seq<Grade>)

  /** A curriculum entity of a year: a leaf subject, or a combined subject whose
      members are leaf subjects (so nesting is one level deep at most). */
  datatype Entity =
    | Leaf(id: string, name: string, grades: seq<Grade>)
    | Combined(id: string, name: string, members: seq<Subject>)

  function AsEntity(s: Subject): (e: Entity)
    ensures e.Leaf? && e.id == s.id && e.name == s.name && e.grades == s.grades
  {
    Leaf(s.id, s.name, s.grades)
  }

  /** `Array.prototype.find` by id on an entity list, as a position: the first
      entity carrying the id, or None when none does. */
  function EntityIndex(es: seq<Entity>, id: string): (r: Option<nat>)
    ensures r.Some? ==> r.value < |es| && es[r.value].id == id
    ensures r.Some? ==> forall j :: 0 <= j < r.value ==> es[j].id != id
    ensures r.None? <==> forall k :: 0 <= k < |es| ==> es[k].id != id
  {
    if es == [] then None
    else if es[0].id == id then Some(0)
    else match EntityIndex(es[1..], id)
      case None => None
      case Some(k) => Some(k + 1)
  }

  /** A JavaScript object as the type guards see it: `grades` and `subjects` are
      optional fields, and nothing stops an object from carrying both. */
  datatype Shape = Shape(id: string, name: string, grades: Option<seq<Grade>>, subjects: Option<seq<Subject>>)

  /** `isSubject`: the object has a `grades` field. */
  predicate IsSubject(o: Shape)
  {
    o.grades.Some?
  }

  /** `isCombinedSubject`: the object has a `subjects` field. */
  predicate IsCombinedSubject(o: Shape)
  {
    o.subjects.Some?
  }

  /** How calculateFinalGrade reads an object: `subjects` is checked first, so an
      object with both fields is a combined subject; one with neither is no
      entity at all (and gets the final grade 0). */
  function Classify(o: Shape): (r: Option<Entity>)
    ensures r.None? <==> !IsSubject(o) && !IsCombinedSubject(o)
    ensures r.Some? ==> r.value.id == o.id && r.value.name == o.name
    ensures IsCombinedSubject(o) ==> r == Some(Combined(o.id, o.name, o.subjects.value))
    ensures IsSubject(o) && !IsCombinedSubject(o) ==> r == Some(Leaf(o.id, o.name, o.grades.value))
  {
    match o.subjects
    case Some(members) => Some(Combined(o.id, o.name, members))
    case None =>
      match o.grades
      case Some(grades) => Some(Leaf(o.id, o.name, grades))
      case None => None
  }

  /** The object an entity is stored as: exactly one of the two fields. */
  function ToShape(e: Entity): Shape
  {
    match e
    case Leaf(id, name, grades) => Shape(id, name, Some(grades), None)
    case Combined(id, name, members) => Shape(id, name, None, Some(members))
  }

  lemma ClassifyToShape(e: Entity)
    ensures Classify(ToShape(e)) == Some(e)
    ensures IsSubject(ToShape(e)) <==> e.Leaf?
    ensures IsCombinedSubject(ToShape(e)) <==> e.Combined?
  {
  }

  /** A JavaScript number where the model needs NaN: the mean of zero members
      and parseFloat of a string without digits. */
  datatype Number = Real(value: real) | NaN

  /** The school years 1, 2 and 3. */
  type Year = y: int | 1 <= y <= 3 witness 1

  /** `StudentData.years`: one entity list per year. */
  datatype Years = Years(first: seq<Entity>, second: seq<Entity>, third: seq<Entity>)
  {
    function Get(y: Year): seq<Entity>
    {
      if y == 1 then first else if y == 2 then second else third
    }

    function Set(y: Year, subjects: seq<Entity>): (r: Years)
      ensures r.Get(y) == subjects
      ensures forall z: Year :: z != y ==> r.Get(z) == Get(z)
    {
      if y == 1 then this.(first := subjects)
      else if y == 2 then this.(second := subjects)
      else this.(third := subjects)
    }
  }

  /** A year-3 track: an id, a display name and its subjects. */
  datatype Direction = Direction(id: string, name: string, subjects: seq<Subject>)

  datatype Division = FMS | Gymnasium

  datatype StudentInfo = StudentInfo(name: string, division: Division)

  /** The persisted state: optional student info, the current year, the chosen
      year-3 direction (an id) and the subjects of each year. */
  datatype StudentData = StudentData(
    studentInfo: Option<StudentInfo>,
    currentYear: Year,
    year3Direction: Option<string>,
    years: Years)

  /** Thresholds of one year. JavaScript numbers, so reals. */
  datatype PromotionCriteria = PromotionCriteria(maxFailures: real, minAverage: real, maxDeficit: real)

  datatype FailuresCriterion = FailuresCriterion(passed: bool, count: nat, max: real)
  datatype AverageCriterion = AverageCriterion(passed: bool, value: real, min: real)
  datatype DeficitCriterion = DeficitCriterion(passed: bool, value: real, max: real)

  /** The verdict: overall result, whether any grade counts yet, and for each
      criterion its outcome, computed value and threshold. */
  datatype PromotionStatus = PromotionStatus(
    isPassing: bool,
    hasGrades: bool,
    failures: FailuresCriterion,
    average: AverageCriterion,
    deficit: DeficitCriterion)
}
