/** The first-run form of src/components/Onboarding.tsx: a name and a division,
    both required, with an error flag per field. */
module Onboarding {
  import opened Wrappers
  import opened Types
  import opened Strings

  /** Which fields the last submission found missing. */
  datatype Errors = Errors(name: bool, division: bool)

  const NoErrors := Errors(false, false)

  /** The error flags `handleSubmit` computes: a name that trims to nothing,
      and a division not picked. */
  function Validate(name: string, division: Option<Division>): (e: Errors)
    ensures e.name <==> AllWhitespace(name)
    ensures e.division <==> division.None?
  {
    TrimMeaning(name);
    Errors(Trim(name) == [], division.None?)
  }

  /** What `handleSubmit` hands on: the trimmed name and the division, when
      both are present. */
  function Completion(name: string, division: Option<Division>): (r: Option<StudentInfo>)
    ensures r.Some? <==> !AllWhitespace(name) && division.Some?
    ensures r.Some? ==> r.value.division == division.value && r.value.name == Trim(name)
  {
    TrimMeaning(name);
    if Trim(name) != [] && division.Some? then Some(StudentInfo(Trim(name), division.value)) else None
  }

  /** The form completes exactly when it shows no error, and the name it
      hands on is non-empty with no whitespace at either end. */
  lemma CompletionShape(name: string, division: Option<Division>)
    ensures Completion(name, division).Some? <==> Validate(name, division) == NoErrors
    ensures Completion(name, division).Some? ==>
      var n := Completion(name, division).value.name;
      n != [] && !IsWhitespace(n[0]) && !IsWhitespace(n[|n| - 1])
  {
    TrimMeaning(name);
  }

  /** Submitting again with the completed name changes nothing: it is already
      trimmed. */
  lemma CompletionStable(name: string, division: Option<Division>)
    requires Completion(name, division).Some?
    ensures Completion(Completion(name, division).value.name, division) == Completion(name, division)
  {
    TrimMeaning(name);
    TrimIdempotent(name);
    TrimMeaning(Trim(name));
  }

  class OnboardingForm {
    var name: string
    var division: Option<Division>
    var errors: Errors

    constructor()
      ensures name == "" && division.None? && errors == NoErrors
    {
      name, division, errors := "", None, NoErrors;
    }

    /** Typing in the name field clears the name error only. */
    method ChangeName(input: string)
      modifies this
      ensures name == input && division == old(division)
      ensures errors == old(errors).(name := false)
    {
      name := input;
      errors := errors.(name := false);
    }

    /** Picking a division clears the division error only. */
    method ChangeDivision(d: Division)
      modifies this
      ensures division == Some(d) && name == old(name)
      ensures errors == old(errors).(division := false)
    {
      division := Some(d);
      errors := errors.(division := false);
    }

    /** `handleSubmit`: record the error flags, and complete when there are
        none. */
    method Submit() returns (info: Option<StudentInfo>)
      modifies this
      ensures name == old(name) && division == old(division)
      ensures errors == Validate(name, division)
      ensures info == Completion(name, division)
      ensures info.Some? <==> errors == NoErrors
    {
      errors := Validate(name, division);
      CompletionShape(name, division);
      info := Completion(name, division);
    }
  }
}
