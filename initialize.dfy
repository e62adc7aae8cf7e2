/** Building and reading the per-year subject lists: src/utils/initializeData.ts. */
module InitializeData {
  import opened Wrappers
  import opened Types
  import opened Seqs
  import opened Subjects

  /** `defaultSubjects[y].map((s) => ({ ...s }))`: the templates as entities. As
      values a shallow copy equals its original. */
  function DefaultEntities(year: Year): (r: seq<Entity>)
    ensures |r| == |DefaultSubjects(year)|
    ensures forall k :: 0 <= k < |r| ==> r[k] == AsEntity(DefaultSubjects(year)[k])
  {
    Map(AsEntity, DefaultSubjects(year))
  }

  /** `initializeStudentData`: year 1, no student info, no direction, the
      templates for years 1 and 2 and nothing for year 3. */
  function InitializeStudentData(): (d: StudentData)
    ensures d.currentYear == 1 && d.studentInfo.None? && d.year3Direction.None?
    ensures d.years.Get(1) == DefaultEntities(1) && d.years.Get(2) == DefaultEntities(2)
    ensures d.years.Get(3) == []
  {
    StudentData(None, 1, None, Years(DefaultEntities(1), DefaultEntities(2), []))
  }

  /** `year3Directions.find((d) => d.id === id)`. */
  function FindDirection(ds: seq<Direction>, id: string): (r: Option<Direction>)
    ensures r.Some? ==> r.value.id == id && exists k :: 0 <= k < |ds| && ds[k] == r.value && forall j :: 0 <= j < k ==> ds[j].id != id
    ensures r.None? <==> forall k :: 0 <= k < |ds| ==> ds[k].id != id
  {
    if ds == [] then None
    else if ds[0].id == id then Some(ds[0])
    else
      var r := FindDirection(ds[1..], id);
      assert r.Some? ==> exists k :: 0 <= k < |ds| && ds[k] == r.value && forall j :: 0 <= j < k ==> ds[j].id != id by {
        if r.Some? {
          var k :| 0 <= k < |ds[1..]| && ds[1..][k] == r.value && forall j :: 0 <= j < k ==> ds[1..][j].id != id;
          assert ds[k + 1] == r.value;
          assert forall j :: 0 <= j < k + 1 ==> ds[j].id != id by {
            forall j | 0 <= j < k + 1 ensures ds[j].id != id {
              if j > 0 {
                assert ds[j] == ds[1..][j - 1];
              }
            }
          }
        }
      }
      r
  }

  /** The direction getSubjectsForYear uses: the stored direction id must be a
      non-empty string (JavaScript truthiness) naming one of the directions. */
  function ChosenDirection(data: StudentData, year: Year): (r: Option<Direction>)
    ensures r.Some? <==> year == 3 && data.year3Direction.Some? && data.year3Direction.value != []
                         && exists k :: 0 <= k < |Year3Directions| && Year3Directions[k].id == data.year3Direction.value
    ensures r.Some? ==> r.value in Year3Directions && r.value.id == data.year3Direction.value
  {
    if year == 3 && data.year3Direction.Some? && data.year3Direction.value != [] then
      FindDirection(Year3Directions, data.year3Direction.value)
    else None
  }

  /** One direction subject in the merge: the first stored year-3 entity with
      its id, grades and all, or else a copy of it without grades. */
  function MergeSubject(stored: seq<Entity>, template: Subject): (e: Entity)
    ensures e.id == template.id
    ensures EntityIndex(stored, template.id).Some? ==> e == stored[EntityIndex(stored, template.id).value]
    ensures EntityIndex(stored, template.id).None? ==> e == Leaf(template.id, template.name, [])
  {
    match EntityIndex(stored, template.id)
    case Some(k) => stored[k]
    case None => Leaf(template.id, template.name, [])
  }

  /** `direction.subjects.map(...)`: the merge, in the direction's order. */
  function MergeDirection(stored: seq<Entity>, templates: seq<Subject>): (r: seq<Entity>)
    ensures |r| == |templates|
    ensures forall k :: 0 <= k < |r| ==> r[k] == MergeSubject(stored, templates[k])
  {
    seq(|templates|, k requires 0 <= k < |templates| => MergeSubject(stored, templates[k]))
  }

  /** `getSubjectsForYear`. */
  function GetSubjectsForYear(data: StudentData, year: Year): (r: seq<Entity>)
    ensures ChosenDirection(data, year).Some? ==> r == MergeDirection(data.years.third, ChosenDirection(data, year).value.subjects)
    ensures ChosenDirection(data, year).None? && data.years.Get(year) != [] ==> r == data.years.Get(year)
    ensures ChosenDirection(data, year).None? && data.years.Get(year) == [] ==> r == DefaultEntities(year)
  {
    match ChosenDirection(data, year)
    case Some(direction) => MergeDirection(data.years.third, direction.subjects)
    case None =>
      if |data.years.Get(year)| > 0 then data.years.Get(year)
      else DefaultEntities(year)
  }

  /** With a known direction, year 3 lists exactly the direction's subjects, in
      its order and with its ids; each is a stored year-3 entity with that id
      (the first one, grades preserved) or, when none is stored, ungraded. */
  lemma DirectionMerge(data: StudentData)
    requires ChosenDirection(data, 3).Some?
    ensures var t, stored, r := ChosenDirection(data, 3).value.subjects, data.years.third, GetSubjectsForYear(data, 3);
      && |r| == |t|
      && forall k :: 0 <= k < |r| ==>
           && r[k].id == t[k].id
           && ((exists j :: 0 <= j < |stored| && stored[j] == r[k] && forall i :: 0 <= i < j ==> stored[i].id != t[k].id)
               || ((forall j :: 0 <= j < |stored| ==> stored[j].id != t[k].id) && r[k] == Leaf(t[k].id, t[k].name, [])))
  {
    var t, stored, r := ChosenDirection(data, 3).value.subjects, data.years.third, GetSubjectsForYear(data, 3);
    forall k | 0 <= k < |r|
      ensures (exists j :: 0 <= j < |stored| && stored[j] == r[k] && forall i :: 0 <= i < j ==> stored[i].id != t[k].id)
           || ((forall j :: 0 <= j < |stored| ==> stored[j].id != t[k].id) && r[k] == Leaf(t[k].id, t[k].name, []))
    {
      var m := EntityIndex(stored, t[k].id);
      if m.Some? {
        assert stored[m.value] == r[k];
      }
    }
  }

  /** Without a usable direction (another year, none stored, an empty or an
      unknown id) a non-empty stored list comes back as it is. */
  lemma StoredListKept(data: StudentData, year: Year)
    requires year != 3 || data.year3Direction.None? || data.year3Direction.value == []
             || forall k :: 0 <= k < |Year3Directions| ==> Year3Directions[k].id != data.year3Direction.value
    requires data.years.Get(year) != []
    ensures GetSubjectsForYear(data, year) == data.years.Get(year)
  {
  }

  /** An empty stored list gives the templates of years 1 and 2, and nothing for
      year 3 without a usable direction. */
  lemma EmptyListFallback(data: StudentData, year: Year)
    requires ChosenDirection(data, year).None? && data.years.Get(year) == []
    ensures year == 3 ==> GetSubjectsForYear(data, year) == []
    ensures year != 3 ==> |GetSubjectsForYear(data, year)| == 8
    ensures forall k :: 0 <= k < |GetSubjectsForYear(data, year)| ==>
      GetSubjectsForYear(data, year)[k] == AsEntity(DefaultSubjects(year)[k])
  {
    DefaultsOfFirstTwoYears();
  }

  /** Fresh data: every year reads back as its templates: eight ungraded
      subjects with distinct ids for years 1 and 2, none for year 3. */
  lemma InitialSubjects(year: Year)
    ensures var r := GetSubjectsForYear(InitializeStudentData(), year);
      && (year == 3 <==> r == [])
      && (forall k :: 0 <= k < |r| ==> r[k].Leaf? && r[k].grades == [])
      && (forall i, j :: 0 <= i < j < |r| ==> r[i].id != r[j].id)
  {
    var d := InitializeStudentData();
    assert ChosenDirection(d, year).None?;
    DefaultIdsDistinct(year);
    var r := GetSubjectsForYear(d, year);
    assert r == DefaultEntities(year);
  }
}
