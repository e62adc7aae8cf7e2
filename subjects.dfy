/** The subject templates of src/config/subjects.ts: the default lists of years
    1 and 2 and the three year-3 directions, all built by createDefaultSubject. */
module Subjects {
  import opened Types
  import opened Strings
  import opened Seqs

  /** The id rule of createDefaultSubject: lower-case the name, then replace
      every maximal run of whitespace by one '-'. */
  function Slug(name: string): string
  {
    ReplaceWhitespaceRuns(ToLowerCase(name))
  }

  /** `createDefaultSubject`: the name verbatim and no grades; the id is the slug
      of the name, see SlugShape and SlugOfWord for what it looks like. */
  function CreateDefaultSubject(name: string): (s: Subject)
    ensures s.name == name && s.grades == []
  {
    Subject(Slug(name), name, [])
  }

  /** An id never contains whitespace or an upper-case ASCII letter, and is
      never longer than the name. */
  lemma SlugShape(name: string)
    ensures |CreateDefaultSubject(name).id| <= |name|
    ensures forall k :: 0 <= k < |Slug(name)| ==> !IsWhitespace(Slug(name)[k]) && !('A' <= Slug(name)[k] <= 'Z')
  {
    ReplaceRemovesWhitespace(ToLowerCase(name), false);
    ScanKeepsNoUpperCase(ToLowerCase(name), false);
  }

  lemma {:induction false} ScanKeepsNoUpperCase(s: string, inRun: bool)
    requires forall k :: 0 <= k < |s| ==> !('A' <= s[k] <= 'Z')
    ensures forall k :: 0 <= k < |ReplaceRunsFrom(s, inRun)| ==> !('A' <= ReplaceRunsFrom(s, inRun)[k] <= 'Z')
  {
    if s != [] {
      ScanKeepsNoUpperCase(s[1..], IsWhitespace(s[0]));
    }
  }

  /** A name made of ASCII letters only: its id is the name in lower case. */
  lemma SlugOfWord(name: string)
    requires forall k :: 0 <= k < |name| ==> 'A' <= name[k] <= 'Z' || 'a' <= name[k] <= 'z'
    ensures CreateDefaultSubject(name).id == ToLowerCase(name)
  {
    var t := ToLowerCase(name);
    assert forall k :: 0 <= k < |t| ==> 'a' <= t[k] <= 'z';
    ReplaceWithoutWhitespace(t);
  }

  /** Two words joined by one run of whitespace: the id joins their lower-case
      forms with one '-'. */
  lemma SlugOfTwoWords(a: string, w: string, b: string)
    requires forall k :: 0 <= k < |a| ==> 'A' <= a[k] <= 'Z' || 'a' <= a[k] <= 'z'
    requires forall k :: 0 <= k < |b| ==> 'A' <= b[k] <= 'Z' || 'a' <= b[k] <= 'z'
    requires w != [] && AllWhitespace(w)
    ensures CreateDefaultSubject(a + w + b).id == ToLowerCase(a) + "-" + ToLowerCase(b)
  {
    var la, lw, lb := ToLowerCase(a), ToLowerCase(w), ToLowerCase(b);
    assert ToLowerCase(a + w + b) == la + lw + lb;
    assert forall k :: 0 <= k < |la| ==> 'a' <= la[k] <= 'z';
    assert forall k :: 0 <= k < |lb| ==> 'a' <= lb[k] <= 'z';
    assert AllWhitespace(lw);
    ReplaceRun(la, lw, lb);
    ReplaceWithoutWhitespace(la);
    ReplaceWithoutWhitespace(lb);
  }

  /** The example of the id rule: "Advanced Math" becomes "advanced-math". */
  lemma SlugExample()
    ensures CreateDefaultSubject("Advanced Math").id == "advanced-math"
  {
    assert "Advanced Math" == "Advanced" + " " + "Math";
    SlugOfTwoWords("Advanced", " ", "Math");
    assert ToLowerCase("Advanced") == "advanced";
    assert ToLowerCase("Math") == "math";
  }

  const Year1Names: seq<string> := ["French", "English", "Biology", "Math", "Physics", "Chemistry", "History", "Geography"]
  const Year2Names: seq<string> := ["French", "English", "Biology", "Math", "Physics", "Chemistry", "History", "Geography"]

  /** `defaultSubjects`: the template list of a year, one ungraded subject per
      name; year 3 has none, its subjects come from the chosen direction. */
  function DefaultSubjects(year: Year): (r: seq<Subject>)
    ensures year == 3 <==> r == []
    ensures year == 1 ==> |r| == |Year1Names| && forall k :: 0 <= k < |r| ==> r[k].name == Year1Names[k]
    ensures year == 2 ==> |r| == |Year2Names| && forall k :: 0 <= k < |r| ==> r[k].name == Year2Names[k]
    ensures forall k :: 0 <= k < |r| ==> r[k].grades == [] && r[k].id == Slug(r[k].name)
  {
    if year == 1 then Map(CreateDefaultSubject, Year1Names)
    else if year == 2 then Map(CreateDefaultSubject, Year2Names)
    else []
  }

  /** Years 1 and 2 start from the same eight subjects in the same order. */
  lemma DefaultsOfFirstTwoYears()
    ensures DefaultSubjects(1) == DefaultSubjects(2) && |DefaultSubjects(1)| == 8
    ensures DefaultSubjects(1)[0].name == "French" && DefaultSubjects(1)[7].name == "Geography"
  {
  }

  const DirectionANames: seq<string> := ["Advanced Math", "Physics", "Chemistry", "Biology", "French", "English"]
  const DirectionBNames: seq<string> := ["Economics", "Business", "Math", "History", "French", "English"]
  const DirectionCNames: seq<string> := ["Literature", "History", "Philosophy", "Languages", "French", "English"]

  /** `year3Directions`: the three tracks offered in year 3. */
  const Year3Directions: seq<Direction> := [
    Direction("direction-a", "Direction A", Map(CreateDefaultSubject, DirectionANames)),
    Direction("direction-b", "Direction B", Map(CreateDefaultSubject, DirectionBNames)),
    Direction("direction-c", "Direction C", Map(CreateDefaultSubject, DirectionCNames))
  ]

  /** The three directions have distinct ids; each has six ungraded subjects,
      the last two of which are French and English. */
  lemma DirectionsShape()
    ensures |Year3Directions| == 3
    ensures Year3Directions[0].id == "direction-a" && Year3Directions[1].id == "direction-b"
    ensures Year3Directions[2].id == "direction-c"
    ensures forall i, j :: 0 <= i < j < |Year3Directions| ==> Year3Directions[i].id != Year3Directions[j].id
    ensures forall i :: 0 <= i < |Year3Directions| ==>
      var s := Year3Directions[i].subjects;
      && |s| == 6 && s[4].name == "French" && s[5].name == "English"
      && forall k :: 0 <= k < |s| ==> s[k].grades == []
  {
  }

  predicate IsLetter(c: char)
  {
    'A' <= c <= 'Z' || 'a' <= c <= 'z'
  }

  /** A name starting with two letters: its id starts with them in lower case. */
  lemma SlugPrefix(name: string)
    requires |name| >= 2 && IsLetter(name[0]) && IsLetter(name[1])
    ensures var id := CreateDefaultSubject(name).id;
      |id| >= 2 && id[0] == LowerChar(name[0]) && id[1] == LowerChar(name[1])
  {
    var t := ToLowerCase(name);
    assert !IsWhitespace(t[0]) && !IsWhitespace(t[1]);
    assert t[1..][0] == t[1];
    assert ReplaceRunsFrom(t, false) == [t[0]] + ReplaceRunsFrom(t[1..], false);
    assert ReplaceRunsFrom(t[1..], false) == [t[1]] + ReplaceRunsFrom(t[1..][1..], false);
  }

  /** Subject ids of a list of names are pairwise distinct when the names start
      with two letters and no two agree on both, ignoring case. */
  lemma {:induction false} DistinctIdsByPrefix(names: seq<string>)
    requires forall i :: 0 <= i < |names| ==> |names[i]| >= 2 && IsLetter(names[i][0]) && IsLetter(names[i][1])
    requires forall i, j :: 0 <= i < j < |names| ==>
      LowerChar(names[i][0]) != LowerChar(names[j][0]) || LowerChar(names[i][1]) != LowerChar(names[j][1])
    ensures DistinctIds(Map(CreateDefaultSubject, names))
  {
    forall i | 0 <= i < |names| ensures
      var id := CreateDefaultSubject(names[i]).id;
      |id| >= 2 && id[0] == LowerChar(names[i][0]) && id[1] == LowerChar(names[i][1])
    {
      SlugPrefix(names[i]);
    }
  }

  /** No two subjects of the list share an id. */
  predicate DistinctIds(s: seq<Subject>)
  {
    forall i, j :: 0 <= i < j < |s| ==> s[i].id != s[j].id
  }

  /** The ids within each default list are pairwise distinct. */
  lemma DefaultIdsDistinct(year: Year)
    ensures DistinctIds(DefaultSubjects(year))
  {
    if year == 1 {
      DistinctIdsByPrefix(Year1Names);
    } else if year == 2 {
      DistinctIdsByPrefix(Year2Names);
    }
  }

  /** The ids within each direction are pairwise distinct. */
  lemma DirectionIdsDistinct(d: nat)
    requires d < |Year3Directions|
    ensures DistinctIds(Year3Directions[d].subjects)
  {
    if d == 0 {
      DirectionAIds();
    } else if d == 1 {
      DirectionBIds();
    } else {
      DirectionCIds();
    }
  }

  lemma DirectionAIds()
    ensures DistinctIds(Map(CreateDefaultSubject, DirectionANames))
  {
    DistinctIdsByPrefix(DirectionANames);
  }

  lemma DirectionBIds()
    ensures DistinctIds(Map(CreateDefaultSubject, DirectionBNames))
  {
    DistinctIdsByPrefix(DirectionBNames);
  }

  lemma DirectionCIds()
    ensures DistinctIds(Map(CreateDefaultSubject, DirectionCNames))
  {
    DistinctIdsByPrefix(DirectionCNames);
  }
}
