/** The state-changing handlers of src/App.tsx: saving, editing and deleting a
    grade, choosing the year-3 direction, changing the year and completing the
    onboarding. Each handler is a method of `App` proved against a function
    that computes the new subject list or the new data. */
module AppState {
  import opened Wrappers
  import opened Types
  import opened Seqs
  import opened Subjects
  import opened InitializeData

  /** What GradeModal hands to the save handler: a grade without its id. */
  datatype GradeData = GradeData(value: real, weight: real, note: Option<string>)

  /** How a handler ends on the subject list of the current year: an early
      `return` with nothing changed, a TypeError because the entity found is a
      combined subject (it has no `grades` array), or a new list. */
  datatype ListUpdate = Returned | Threw | Updated(subjects: seq<Entity>)

  /** A string that JavaScript treats as true: present and non-empty. */
  predicate Truthy(s: Option<string>)
  {
    s.Some? && s.value != []
  }

  /** `grades.findIndex((g) => g.id === id)`, None for -1. */
  function GradeIndex(grades: seq<Grade>, id: string): (r: Option<nat>)
    ensures r.Some? ==> r.value < |grades| && grades[r.value].id == id
    ensures r.Some? ==> forall j :: 0 <= j < r.value ==> grades[j].id != id
    ensures r.None? <==> forall k :: 0 <= k < |grades| ==> grades[k].id != id
  {
    if grades == [] then None
    else if grades[0].id == id then Some(0)
    else match GradeIndex(grades[1..], id)
      case None => None
      case Some(k) => Some(k + 1)
  }

  /** The grade list after a save: with a truthy editing id the first grade with
      that id gets the new fields (its id stays), none matching changes nothing;
      otherwise a grade with the fresh id is appended. */
  function SaveIntoGrades(grades: seq<Grade>, editingId: Option<string>, gd: GradeData, freshId: string): seq<Grade>
  {
    if Truthy(editingId) then
      match GradeIndex(grades, editingId.value)
      case Some(j) => grades[j := Grade(grades[j].id, gd.value, gd.weight, gd.note)]
      case None => grades
    else grades + [Grade(freshId, gd.value, gd.weight, gd.note)]
  }

  /** `handleSaveGrade` on the current year's stored list. */
  function SaveGradeIn(subjects: seq<Entity>, subjectId: Option<string>, editingId: Option<string>,
                       gd: GradeData, freshId: string): (r: ListUpdate)
    ensures !Truthy(subjectId) ==> r == Returned
    ensures Truthy(subjectId) ==> (r == Returned <==> EntityIndex(subjects, subjectId.value).None?)
    ensures Truthy(subjectId) && EntityIndex(subjects, subjectId.value).Some? ==>
      var k := EntityIndex(subjects, subjectId.value).value;
      && (r == Threw <==> subjects[k].Combined?)
      && (subjects[k].Leaf? ==> r == Updated(subjects[k := subjects[k].(grades := SaveIntoGrades(subjects[k].grades, editingId, gd, freshId))]))
  {
    if !Truthy(subjectId) then Returned
    else match EntityIndex(subjects, subjectId.value)
      case None => Returned
      case Some(k) =>
        if subjects[k].Combined? then Threw
        else Updated(subjects[k := subjects[k].(grades := SaveIntoGrades(subjects[k].grades, editingId, gd, freshId))])
  }

  /** `grades.filter((g) => g.id !== gradeId)`. */
  function DeleteFromGrades(grades: seq<Grade>, gradeId: string): seq<Grade>
  {
    Filter((g: Grade) => g.id != gradeId, grades)
  }

  /** The grades kept are exactly those with another id, in their order and
      as often as they occur: deleting from the empty list gives the empty
      list, and a grade appended at the end survives exactly when its id
      differs. The list does not grow and deleting again changes nothing. */
  lemma DeleteFromGradesMeaning(grades: seq<Grade>, gradeId: string)
    ensures DeleteFromGrades([], gradeId) == []
    ensures forall g ::
      DeleteFromGrades(grades + [g], gradeId) == DeleteFromGrades(grades, gradeId) + (if g.id != gradeId then [g] else [])
    ensures forall g :: g in DeleteFromGrades(grades, gradeId) <==> g in grades && g.id != gradeId
    ensures forall g :: multiset(DeleteFromGrades(grades, gradeId))[g] == if g.id != gradeId then multiset(grades)[g] else 0
    ensures |DeleteFromGrades(grades, gradeId)| <= |grades|
    ensures DeleteFromGrades(DeleteFromGrades(grades, gradeId), gradeId) == DeleteFromGrades(grades, gradeId)
  {
    var p := (g: Grade) => g.id != gradeId;
    var kept := Filter(p, grades);
    forall g ensures DeleteFromGrades(grades + [g], gradeId) == kept + (if g.id != gradeId then [g] else []) {
      FilterSnoc(p, grades, g);
    }
    forall g ensures g in kept <==> g in grades && g.id != gradeId {
      FilterMembers(p, grades, g);
    }
    DeleteCounts(grades, gradeId);
    FilterAll(p, kept);
  }

  /** How often each grade occurs after the delete. */
  lemma {:induction false} DeleteCounts(grades: seq<Grade>, gradeId: string)
    ensures forall g :: multiset(DeleteFromGrades(grades, gradeId))[g] == if g.id != gradeId then multiset(grades)[g] else 0
  {
    if grades != [] {
      var n := |grades| - 1;
      var front, last := grades[..n], grades[n];
      DeleteCounts(front, gradeId);
      assert grades == front + [last];
      FilterSnoc((g: Grade) => g.id != gradeId, front, last);
      assert multiset(grades) == multiset(front) + multiset{last};
    }
  }

  /** `handleDeleteGrade` on the current year's stored list: the found leaf
      keeps the grades whose id differs, in order. */
  function DeleteGradeIn(subjects: seq<Entity>, subjectId: string, gradeId: string): (r: ListUpdate)
    ensures r == Returned <==> EntityIndex(subjects, subjectId).None?
    ensures EntityIndex(subjects, subjectId).Some? ==>
      var k := EntityIndex(subjects, subjectId).value;
      && (r == Threw <==> subjects[k].Combined?)
      && (subjects[k].Leaf? ==> r == Updated(subjects[k := subjects[k].(grades := DeleteFromGrades(subjects[k].grades, gradeId))]))
  {
    match EntityIndex(subjects, subjectId)
    case None => Returned
    case Some(k) =>
      if subjects[k].Combined? then Threw
      else Updated(subjects[k := subjects[k].(grades := DeleteFromGrades(subjects[k].grades, gradeId))])
  }

  /** `direction.subjects.map((s) => ({ ...s, grades: [] }))`. */
  function FreshSubjects(templates: seq<Subject>): (r: seq<Entity>)
    ensures |r| == |templates|
    ensures forall k :: 0 <= k < |r| ==> r[k] == Leaf(templates[k].id, templates[k].name, [])
  {
    seq(|templates|, k requires 0 <= k < |templates| => Leaf(templates[k].id, templates[k].name, []))
  }

  /** `handleDirectionSelect` on the data: an unknown id changes nothing; a known
      one is stored and year 3 restarts from the direction's subjects. */
  function SelectDirectionIn(data: StudentData, directionId: string): (r: StudentData)
    ensures FindDirection(Year3Directions, directionId).None? ==> r == data
    ensures FindDirection(Year3Directions, directionId).Some? ==>
      r == data.(year3Direction := Some(directionId),
                 years := data.years.Set(3, FreshSubjects(FindDirection(Year3Directions, directionId).value.subjects)))
  {
    match FindDirection(Year3Directions, directionId)
    case None => data
    case Some(direction) =>
      data.(year3Direction := Some(directionId), years := data.years.Set(3, FreshSubjects(direction.subjects)))
  }

  /** The grade ids of a list are pairwise distinct. */
  predicate DistinctGradeIds(grades: seq<Grade>)
  {
    forall i, j :: 0 <= i < j < |grades| ==> grades[i].id != grades[j].id
  }

  /** Adding: the found leaf gets one new grade with the fresh id at the end,
      its other grades stay as they were and in order, every other entity is
      untouched; a fresh id keeps the grade ids distinct. */
  lemma AddAppends(subjects: seq<Entity>, subjectId: string, gd: GradeData, freshId: string, editingId: Option<string>)
    requires subjectId != [] && !Truthy(editingId)
    requires EntityIndex(subjects, subjectId).Some? && subjects[EntityIndex(subjects, subjectId).value].Leaf?
    ensures var k, u := EntityIndex(subjects, subjectId).value, SaveGradeIn(subjects, Some(subjectId), editingId, gd, freshId);
      && u.Updated? && |u.subjects| == |subjects|
      && (forall i :: 0 <= i < |subjects| && i != k ==> u.subjects[i] == subjects[i])
      && u.subjects[k].Leaf? && u.subjects[k].id == subjects[k].id && u.subjects[k].name == subjects[k].name
      && |u.subjects[k].grades| == |subjects[k].grades| + 1
      && u.subjects[k].grades[..|subjects[k].grades|] == subjects[k].grades
      && u.subjects[k].grades[|subjects[k].grades|] == Grade(freshId, gd.value, gd.weight, gd.note)
      && ((DistinctGradeIds(subjects[k].grades) && forall g :: g in subjects[k].grades ==> g.id != freshId)
          ==> DistinctGradeIds(u.subjects[k].grades))
  {
    var k := EntityIndex(subjects, subjectId).value;
    var old_, new_ := subjects[k].grades, SaveIntoGrades(subjects[k].grades, editingId, gd, freshId);
    assert new_ == old_ + [Grade(freshId, gd.value, gd.weight, gd.note)];
    assert new_[..|old_|] == old_;
    if DistinctGradeIds(old_) && (forall g :: g in old_ ==> g.id != freshId) {
      forall i, j | 0 <= i < j < |new_| ensures new_[i].id != new_[j].id {
        if j == |old_| {
          assert new_[i] in old_;
        }
      }
    }
  }

  /** Editing: the first grade with the editing id takes the new value, weight
      and label and keeps its id and position; the other grades and entities are
      untouched, so distinct ids stay distinct. No matching grade: no change. */
  lemma EditOverwrites(subjects: seq<Entity>, subjectId: string, gd: GradeData, freshId: string, gradeId: string)
    requires subjectId != [] && gradeId != []
    requires EntityIndex(subjects, subjectId).Some? && subjects[EntityIndex(subjects, subjectId).value].Leaf?
    ensures var k, u := EntityIndex(subjects, subjectId).value, SaveGradeIn(subjects, Some(subjectId), Some(gradeId), gd, freshId);
      var grades := subjects[k].grades;
      && u.Updated? && |u.subjects| == |subjects|
      && (forall i :: 0 <= i < |subjects| && i != k ==> u.subjects[i] == subjects[i])
      && u.subjects[k].Leaf? && u.subjects[k].id == subjects[k].id && |u.subjects[k].grades| == |grades|
      && (GradeIndex(grades, gradeId).None? ==> u.subjects[k] == subjects[k])
      && (GradeIndex(grades, gradeId).Some? ==>
            var j := GradeIndex(grades, gradeId).value;
            && u.subjects[k].grades[j] == Grade(gradeId, gd.value, gd.weight, gd.note)
            && forall i :: 0 <= i < |grades| && i != j ==> u.subjects[k].grades[i] == grades[i])
      && (DistinctGradeIds(grades) ==> DistinctGradeIds(u.subjects[k].grades))
  {
    var k := EntityIndex(subjects, subjectId).value;
    var grades := subjects[k].grades;
    var new_ := SaveIntoGrades(grades, Some(gradeId), gd, freshId);
    assert forall i :: 0 <= i < |grades| ==> new_[i].id == grades[i].id;
    if GradeIndex(grades, gradeId).None? {
      assert subjects[k].(grades := new_) == subjects[k];
    }
  }

  /** The label quirk: an edit whose label is absent removes the old label. */
  lemma EditDropsLabel(g: Grade, gd: GradeData)
    requires g.id != [] && g.note.Some? && gd.note.None?
    ensures SaveIntoGrades([g], Some(g.id), gd, "")[0].note.None?
  {
  }

  /** Deleting: the found leaf keeps exactly the grades with another id, in
      their order; a second delete changes nothing more. */
  lemma DeleteRemovesAll(subjects: seq<Entity>, subjectId: string, gradeId: string)
    requires EntityIndex(subjects, subjectId).Some? && subjects[EntityIndex(subjects, subjectId).value].Leaf?
    ensures var k, u := EntityIndex(subjects, subjectId).value, DeleteGradeIn(subjects, subjectId, gradeId);
      && u.Updated? && |u.subjects| == |subjects|
      && (forall i :: 0 <= i < |subjects| && i != k ==> u.subjects[i] == subjects[i])
      && u.subjects[k].Leaf? && u.subjects[k].id == subjects[k].id && u.subjects[k].name == subjects[k].name
      && u.subjects[k].grades == DeleteFromGrades(subjects[k].grades, gradeId)
      && (forall g :: g in u.subjects[k].grades <==> g in subjects[k].grades && g.id != gradeId)
      && (forall g :: multiset(u.subjects[k].grades)[g] == if g.id != gradeId then multiset(subjects[k].grades)[g] else 0)
      && |u.subjects[k].grades| <= |subjects[k].grades|
      && DeleteGradeIn(u.subjects, subjectId, gradeId) == u
  {
    var k, u := EntityIndex(subjects, subjectId).value, DeleteGradeIn(subjects, subjectId, gradeId);
    DeleteFromGradesMeaning(subjects[k].grades, gradeId);
    assert EntityIndex(u.subjects, subjectId) == Some(k) by {
      assert forall j :: 0 <= j < k ==> u.subjects[j].id != subjectId;
      EntityIndexFirst(u.subjects, subjectId, k);
    }
  }

  /** The first position carrying an id is what EntityIndex finds. */
  lemma EntityIndexFirst(es: seq<Entity>, id: string, k: nat)
    requires k < |es| && es[k].id == id
    requires forall j :: 0 <= j < k ==> es[j].id != id
    ensures EntityIndex(es, id) == Some(k)
  {
  }

  /** Choosing a known direction: the id is stored, years 1 and 2 and the rest
      of the data stay, and year 3 then reads back as the direction's subjects,
      all ungraded. */
  lemma DirectionResetsYearThree(data: StudentData, d: nat)
    requires d < |Year3Directions|
    ensures var id := Year3Directions[d].id; var r := SelectDirectionIn(data, id);
      && r.year3Direction == Some(id)
      && r.years.Get(1) == data.years.Get(1) && r.years.Get(2) == data.years.Get(2)
      && r.studentInfo == data.studentInfo && r.currentYear == data.currentYear
      && GetSubjectsForYear(r, 3) == FreshSubjects(Year3Directions[d].subjects)
  {
    DirectionsShape();
    var id := Year3Directions[d].id;
    var dir := FindDirection(Year3Directions, id);
    assert dir == Some(Year3Directions[d]);
    var t := Year3Directions[d].subjects;
    var copies := FreshSubjects(t);
    DirectionIdsDistinct(d);
    var r := SelectDirectionIn(data, id);
    assert r.years.third == copies;
    assert ChosenDirection(r, 3) == dir;
    forall k | 0 <= k < |t| ensures MergeSubject(copies, t[k]) == copies[k] {
      EntityIndexFirst(copies, t[k].id, k);
    }
  }

  /** Choosing an unknown direction changes nothing. */
  lemma UnknownDirectionIgnored(data: StudentData, id: string)
    requires forall k :: 0 <= k < |Year3Directions| ==> Year3Directions[k].id != id
    ensures SelectDirectionIn(data, id) == data
  {
  }

  /** What the `existingGrade` lookup yields: nothing, a TypeError (the entity
      found is a combined subject, whose `grades` is undefined), or a grade. */
  datatype GradeLookup = NoGrade | LookupThrew | Found(grade: Grade)

  /** `existingGrade`: with both a subject and a grade selected, the first grade
      with the editing id in the first entity with the subject id, searched in
      the list on display. */
  function ExistingGrade(view: seq<Entity>, subjectId: Option<string>, editingId: Option<string>): (r: GradeLookup)
    ensures !Truthy(subjectId) || !Truthy(editingId) ==> r == NoGrade
    ensures r.Found? ==> r.grade.id == editingId.value
    ensures r.Found? ==> exists k :: 0 <= k < |view| && view[k].Leaf? && view[k].id == subjectId.value && r.grade in view[k].grades
    ensures r == LookupThrew ==> exists k :: 0 <= k < |view| && view[k].Combined? && view[k].id == subjectId.value
    ensures Truthy(subjectId) && Truthy(editingId) ==>
      (r == LookupThrew <==> EntityIndex(view, subjectId.value).Some? && view[EntityIndex(view, subjectId.value).value].Combined?)
    ensures Truthy(subjectId) && Truthy(editingId) && EntityIndex(view, subjectId.value).Some? ==>
      var k := EntityIndex(view, subjectId.value).value;
      view[k].Leaf? && GradeIndex(view[k].grades, editingId.value).Some? ==>
        r == Found(view[k].grades[GradeIndex(view[k].grades, editingId.value).value])
  {
    if !Truthy(subjectId) || !Truthy(editingId) then NoGrade
    else match EntityIndex(view, subjectId.value)
      case None => NoGrade
      case Some(k) =>
        if view[k].Combined? then LookupThrew
        else match GradeIndex(view[k].grades, editingId.value)
          case None => NoGrade
          case Some(j) => Found(view[k].grades[j])
  }

  /** When the list on display is the stored one, the grade the dialog is
      pre-filled with is the grade a save overwrites: it keeps its id and
      position and takes the new fields. */
  lemma SaveOverwritesShownGrade(subjects: seq<Entity>, subjectId: Option<string>, editingId: Option<string>,
                                 gd: GradeData, freshId: string)
    requires ExistingGrade(subjects, subjectId, editingId).Found?
    ensures var g, u := ExistingGrade(subjects, subjectId, editingId).grade, SaveGradeIn(subjects, subjectId, editingId, gd, freshId);
      && u.Updated?
      && exists k, j :: 0 <= k < |subjects| && subjects[k].Leaf? && 0 <= j < |subjects[k].grades|
           && subjects[k].grades[j] == g
           && u.subjects == subjects[k := subjects[k].(grades := subjects[k].grades[j := Grade(g.id, gd.value, gd.weight, gd.note)])]
  {
    var k := EntityIndex(subjects, subjectId.value).value;
    var j := GradeIndex(subjects[k].grades, editingId.value).value;
    assert subjects[k].grades[j] == ExistingGrade(subjects, subjectId, editingId).grade;
  }

  /** Years 1 and 2 show their templates while nothing is stored for them, but
      the handlers search the stored list: there a save or a delete finds no
      subject and changes nothing. */
  lemma EmptyStoredListIgnoresEdits(data: StudentData, year: Year, subjectId: string, editingId: Option<string>,
                                    gradeId: string, gd: GradeData, freshId: string)
    requires year != 3 && data.years.Get(year) == []
    ensures |GetSubjectsForYear(data, year)| == 8
    ensures SaveGradeIn(data.years.Get(year), Some(subjectId), editingId, gd, freshId) == Returned
    ensures DeleteGradeIn(data.years.Get(year), subjectId, gradeId) == Returned
  {
    EmptyListFallback(data, year);
  }

  /** The App component's state: the data and the current year, the subject
      and grade the grade dialog is open for, and whether it is open. */
  class App {
    var data: StudentData
    var currentYear: Year
    var selectedSubjectId: Option<string>
    var editingGradeId: Option<string>
    var isGradeModalOpen: bool

    /** The mount effect: the saved data and its year, or fresh data in year 1. */
    constructor(saved: Option<StudentData>)
      ensures saved.Some? ==> data == saved.value && currentYear == saved.value.currentYear
      ensures saved.None? ==> data == InitializeStudentData() && currentYear == 1
      ensures selectedSubjectId.None? && editingGradeId.None? && !isGradeModalOpen
    {
      if saved.Some? {
        data := saved.value;
        currentYear := saved.value.currentYear;
      } else {
        data := InitializeStudentData();
        currentYear := 1;
      }
      selectedSubjectId := None;
      editingGradeId := None;
      isGradeModalOpen := false;
    }

    /** `onComplete` of the onboarding: the student info is stored. */
    method CompleteOnboarding(info: StudentInfo)
      modifies this
      ensures data == old(data).(studentInfo := Some(info))
      ensures currentYear == old(currentYear) && selectedSubjectId == old(selectedSubjectId)
      ensures editingGradeId == old(editingGradeId) && isGradeModalOpen == old(isGradeModalOpen)
    {
      data := data.(studentInfo := Some(info));
    }

    /** `handleYearChange`: both the shown year and the stored one change. */
    method ChangeYear(year: Year)
      modifies this
      ensures currentYear == year && data == old(data).(currentYear := year)
      ensures selectedSubjectId == old(selectedSubjectId) && editingGradeId == old(editingGradeId)
      ensures isGradeModalOpen == old(isGradeModalOpen)
    {
      currentYear := year;
      data := data.(currentYear := year);
    }

    /** `handleDirectionSelect`. */
    method SelectDirection(directionId: string)
      modifies this
      ensures data == SelectDirectionIn(old(data), directionId)
      ensures currentYear == old(currentYear) && selectedSubjectId == old(selectedSubjectId)
      ensures editingGradeId == old(editingGradeId) && isGradeModalOpen == old(isGradeModalOpen)
    {
      var direction := FindDirection(Year3Directions, directionId);
      if direction.None? {
        return;
      }
      data := data.(year3Direction := Some(directionId),
                    years := data.years.Set(3, FreshSubjects(direction.value.subjects)));
    }

    /** `handleAddGrade`: open the dialog to add a grade to a subject. */
    method OpenAddGrade(subjectId: string)
      modifies this
      ensures selectedSubjectId == Some(subjectId) && editingGradeId.None? && isGradeModalOpen
      ensures data == old(data) && currentYear == old(currentYear)
    {
      selectedSubjectId := Some(subjectId);
      editingGradeId := None;
      isGradeModalOpen := true;
    }

    /** `handleEditGrade`: open the dialog on an existing grade. */
    method OpenEditGrade(subjectId: string, gradeId: string)
      modifies this
      ensures selectedSubjectId == Some(subjectId) && editingGradeId == Some(gradeId) && isGradeModalOpen
      ensures data == old(data) && currentYear == old(currentYear)
    {
      selectedSubjectId := Some(subjectId);
      editingGradeId := Some(gradeId);
      isGradeModalOpen := true;
    }

    /** `handleSaveGrade`, with `freshId` standing for the generated grade id.
        An early return or a TypeError leaves every field as it was; a save
        replaces the current year's list and closes the dialog. The dialog's
        own `onClose`, which runs after an early return too, is CloseDialog. */
    method SaveGrade(gd: GradeData, freshId: string)
      modifies this
      ensures var u := SaveGradeIn(old(data).years.Get(old(currentYear)), old(selectedSubjectId), old(editingGradeId), gd, freshId);
        && (u.Updated? ==>
              && data == old(data).(years := old(data).years.Set(old(currentYear), u.subjects))
              && selectedSubjectId.None? && editingGradeId.None? && !isGradeModalOpen)
        && (!u.Updated? ==>
              && data == old(data) && selectedSubjectId == old(selectedSubjectId)
              && editingGradeId == old(editingGradeId) && isGradeModalOpen == old(isGradeModalOpen))
      ensures currentYear == old(currentYear)
    {
      var u := SaveGradeIn(data.years.Get(currentYear), selectedSubjectId, editingGradeId, gd, freshId);
      if !u.Updated? {
        return;
      }
      data := data.(years := data.years.Set(currentYear, u.subjects));
      isGradeModalOpen := false;
      selectedSubjectId := None;
      editingGradeId := None;
    }

    /** The dialog's `onClose`: closes the dialog and forgets which subject
        and grade it was opened for. */
    method CloseDialog()
      modifies this
      ensures !isGradeModalOpen && selectedSubjectId.None? && editingGradeId.None?
      ensures data == old(data) && currentYear == old(currentYear)
    {
      isGradeModalOpen := false;
      selectedSubjectId := None;
      editingGradeId := None;
    }

    /** An accepted dialog submission: `onSave` (SaveGrade), then `onClose`.
        The dialog closes after a save and after an early return alike; only
        a TypeError, which escapes the submit handler before `onClose`, leaves
        it open with nothing changed. */
    method SubmitDialog(gd: GradeData, freshId: string)
      modifies this
      ensures var u := SaveGradeIn(old(data).years.Get(old(currentYear)), old(selectedSubjectId), old(editingGradeId), gd, freshId);
        && (u.Updated? ==> data == old(data).(years := old(data).years.Set(old(currentYear), u.subjects)))
        && (!u.Updated? ==> data == old(data))
        && (u == Threw ==>
              && selectedSubjectId == old(selectedSubjectId) && editingGradeId == old(editingGradeId)
              && isGradeModalOpen == old(isGradeModalOpen))
        && (u != Threw ==> !isGradeModalOpen && selectedSubjectId.None? && editingGradeId.None?)
      ensures currentYear == old(currentYear)
    {
      var u := SaveGradeIn(data.years.Get(currentYear), selectedSubjectId, editingGradeId, gd, freshId);
      SaveGrade(gd, freshId);
      if u != Threw {
        CloseDialog();
      }
    }

    /** `handleDeleteGrade`. */
    method DeleteGrade(subjectId: string, gradeId: string)
      modifies this
      ensures var u := DeleteGradeIn(old(data).years.Get(old(currentYear)), subjectId, gradeId);
        && (u.Updated? ==> data == old(data).(years := old(data).years.Set(old(currentYear), u.subjects)))
        && (!u.Updated? ==> data == old(data))
      ensures currentYear == old(currentYear) && selectedSubjectId == old(selectedSubjectId)
      ensures editingGradeId == old(editingGradeId) && isGradeModalOpen == old(isGradeModalOpen)
    {
      var u := DeleteGradeIn(data.years.Get(currentYear), subjectId, gradeId);
      if u.Updated? {
        data := data.(years := data.years.Set(currentYear, u.subjects));
      }
    }
  }
}
