/** The grade dialog of src/components/GradeModal.tsx: the keystroke filter of
    the value field, the pre-fill when the dialog opens, and the validation and
    rounding on submit. */
module GradeModal {
  import opened Wrappers
  import opened Types
  import opened Rounding
  import opened Strings
  import opened Decimal
  import opened AppState

  /** The value field's filter `^\d*\.?\d{0,2}$` (the empty string included):
      digits, then at most one '.', then at most two digits. */
  predicate Admitted(s: string)
  {
    var rest := s[LeadingDigits(s)..];
    rest == [] || (rest[0] == '.' && |rest| <= 3 && AllDigits(rest[1..]))
  }

  /** Every pre-filled value passes the filter: what toString writes for a
      non-negative multiple of 0.01 has at most two fraction digits. */
  lemma FormatAdmitted(x: real)
    requires x >= 0.0 && IsCentMultiple(x)
    ensures Admitted(Format(x))
  {
    var c := (100.0 * x).Floor;
    var a, cents := NatToString(c / 100), c % 100;
    if cents == 0 {
      LeadingDigitsOfNumeral(a, []);
      assert a + [] == a;
      assert Format(x)[|a|..] == [];
    } else {
      var d := if cents % 10 == 0 then [DigitChar(cents / 10)]
               else [DigitChar(cents / 10), DigitChar(cents % 10)];
      assert Format(x) == a + ("." + d);
      LeadingDigitsOfNumeral(a, "." + d);
      assert Format(x)[|a|..] == "." + d;
      assert ("." + d)[1..] == d;
    }
  }

  /** A numeral with at most two fraction digits is a non-negative multiple
      of 0.01. */
  lemma FractionIsCent(i: nat, f: string)
    requires AllDigits(f) && |f| <= 2
    ensures var v := i as real + DigitsValue(f) as real / Pow10(|f|) as real;
      v >= 0.0 && IsCentMultiple(v)
  {
    var d, q := DigitsValue(f), Pow10(|f|);
    if |f| == 0 {
      assert d == 0 && q == 1;
      ScaledCent(i, 0, 1, 100 * i);
    } else if |f| == 1 {
      assert q == 10;
      ScaledCent(i, d, 10, 100 * i + 10 * d);
    } else {
      assert q == 100;
      ScaledCent(i, d, 100, 100 * i + d);
    }
  }

  lemma ScaledCent(i: nat, d: nat, q: nat, n: nat)
    requires q == 1 || q == 10 || q == 100
    requires (q == 1 ==> n == 100 * i && d == 0) && (q == 10 ==> n == 100 * i + 10 * d)
    requires q == 100 ==> n == 100 * i + d
    ensures var v := i as real + d as real / q as real;
      v >= 0.0 && IsCentMultiple(v)
  {
    var v := i as real + d as real / q as real;
    assert 100.0 * v == n as real;
    assert (n as real).Floor == n;
  }

  /** What the filter lets into the value field reads as NaN exactly when it
      holds no digit (it is empty or a lone '.'), and otherwise as a
      non-negative multiple of 0.01. */
  lemma AdmittedParse(s: string)
    requires Admitted(s)
    ensures ParseFloat(s).NaN? <==> (s == [] || s == ".")
    ensures ParseFloat(s).Real? ==> ParseFloat(s).value >= 0.0 && IsCentMultiple(ParseFloat(s).value)
  {
    var n := LeadingDigits(s);
    var f := FractionDigits(s, n);
    AdmittedParts(s);
    if n == 0 && f == [] {
      assert s == s[n..];
      assert s == [] || s == [s[0]];
    } else {
      FractionIsCent(DigitsValue(s[..n]), f);
    }
  }

  /** Filtered text has no sign, and its fraction digits are all that follows
      the point. */
  lemma AdmittedParts(s: string)
    requires Admitted(s)
    ensures var n := LeadingDigits(s);
      && ParseFloat(s) == ParseUnsigned(s)
      && |FractionDigits(s, n)| <= 2
      && (s[n..] == [] ==> FractionDigits(s, n) == [])
      && (s[n..] != [] ==> FractionDigits(s, n) == s[n..][1..])
  {
    var n := LeadingDigits(s);
    var rest := s[n..];
    if rest != [] {
      LeadingDigitsOfNumeral(rest[1..], []);
      assert rest[1..] + [] == rest[1..];
      assert rest[1..][..|rest[1..]|] == rest[1..];
    }
    if s != [] && n == 0 {
      assert s[0] == rest[0];
    }
  }

  /** What pressing "save" does: reject, or hand a grade to the save handler. */
  datatype SubmitResult = Rejected | Accepted(grade: GradeData)

  /** `handleSubmit`: both fields are read with parseFloat; the input is
      rejected when the value is not a number or outside [1, 6], or the weight
      is not a number or not positive. Otherwise value and weight are rounded to
      two decimals and the trimmed label is kept, an empty one as absent. */
  function SubmitForm(value: string, weight: string, note: string): (r: SubmitResult)
    ensures r.Rejected? <==>
      || ParseFloat(value).NaN? || ParseFloat(value).value < 1.0 || ParseFloat(value).value > 6.0
      || ParseFloat(weight).NaN? || ParseFloat(weight).value <= 0.0
    ensures r.Accepted? ==>
      && r.grade.value == RoundToTwoDecimals(ParseFloat(value).value)
      && r.grade.weight == RoundToTwoDecimals(ParseFloat(weight).value)
      && (r.grade.note.None? <==> Trim(note) == [])
      && (r.grade.note.Some? ==> r.grade.note.value == Trim(note))
  {
    var v, w := ParseFloat(value), ParseFloat(weight);
    if v.NaN? || v.value < 1.0 || v.value > 6.0 || w.NaN? || w.value <= 0.0 then Rejected
    else
      var trimmed := Trim(note);
      Accepted(GradeData(RoundToTwoDecimals(v.value), RoundToTwoDecimals(w.value),
                         if trimmed == [] then None else Some(trimmed)))
  }

  /** An accepted grade has a value on the scale [1, 6] and a non-negative
      weight, both multiples of 0.01, and a label without surrounding
      whitespace. */
  lemma AcceptedGradeShape(value: string, weight: string, note: string)
    requires SubmitForm(value, weight, note).Accepted?
    ensures var g := SubmitForm(value, weight, note).grade;
      && 1.0 <= g.value <= 6.0 && IsCentMultiple(g.value)
      && g.weight >= 0.0 && IsCentMultiple(g.weight)
      && (g.note.Some? ==> g.note.value != [] && !IsWhitespace(g.note.value[0])
                            && !IsWhitespace(g.note.value[|g.note.value| - 1]))
  {
    var v, w := ParseFloat(value).value, ParseFloat(weight).value;
    var g := SubmitForm(value, weight, note).grade;
    assert g.value == RoundToTwoDecimals(v) && g.weight == RoundToTwoDecimals(w);
    RoundToTwoDecimalsWithin(v, 1.0, 6.0);
    RoundToTwoDecimalsNonNegative(w);
    TrimMeaning(note);
  }

  lemma ParseFour()
    ensures ParseFloat("4") == Real(4.0)
  {
    ParseWhole(4);
    assert NatToString(4) == "4";
  }

  lemma TinyWeightDigits()
    ensures AllDigits("0") && AllDigits("004")
    ensures DigitsValue("0") == 0 && DigitsValue("004") == 4 && Pow10(3) == 1000
  {
    assert "004"[..2] == "00" && "00"[..1] == "0" && "0"[..0] == "";
  }

  lemma ParseTinyWeight()
    ensures ParseFloat("0.004") == Real(0.004)
  {
    TinyWeightDigits();
    ParseNumeral("0", "004");
    assert "0" + "." + "004" == "0.004";
  }

  /** A weight too small to show in cents passes the check and is saved as 0. */
  lemma TinyWeightSavedAsZero()
    ensures SubmitForm("4", "0.004", "") == Accepted(GradeData(4.0, 0.0, None))
  {
    ParseFour();
    ParseTinyWeight();
    RoundToTwoDecimalsFixes(4.0);
    TinyWeightRoundsToZero();
    assert Trim("") == [];
  }

  lemma TinyWeightRoundsToZero()
    ensures RoundToTwoDecimals(0.004) == 0.0
  {
    assert JsRound(100.0 * 0.004) == 0;
  }

  /** The weight field is a number input, so it can hold an exponent:
      "5e-1" is read as 0.5 and "1e2" as 100. */
  lemma ParseHalfWithExponent()
    ensures ParseFloat("5e-1") == Real(0.5)
  {
    ExponentExampleDigits();
    ParseNegativeExponent("5", "1");
    assert 5.0 / Pow10(1) as real == 0.5;
    assert "5" + ("e-" + "1") == "5e-1";
  }

  lemma ParseHundredWithExponent()
    ensures ParseFloat("1e2") == Real(100.0)
  {
    ExponentExampleDigits();
    ParsePositiveExponent("1", "2");
    ScaleUp(1.0, 2);
    assert "1" + ("e" + "2") == "1e2";
  }

  lemma ExponentExampleDigits()
    ensures AllDigits("5") && DigitsValue("5") == 5
    ensures AllDigits("1") && DigitsValue("1") == 1
    ensures AllDigits("2") && DigitsValue("2") == 2
    ensures Pow10(1) == 10 && Pow10(2) == 100
  {
    assert "5"[..0] == "" && "1"[..0] == "" && "2"[..0] == "";
  }

  /** A weight typed in exponent notation is accepted like its decimal form. */
  lemma ExponentWeightAccepted()
    ensures SubmitForm("4", "5e-1", "") == Accepted(GradeData(4.0, 0.5, None))
  {
    ParseFour();
    ParseHalfWithExponent();
    RoundToTwoDecimalsFixes(4.0);
    RoundToTwoDecimalsFixes(0.5);
    assert Trim("") == [];
  }

  /** With the filter in place rounding the value changes nothing: the grade
      saved is the number typed. */
  lemma AdmittedValueKept(value: string, weight: string, note: string)
    requires Admitted(value) && SubmitForm(value, weight, note).Accepted?
    ensures SubmitForm(value, weight, note).grade.value == ParseFloat(value).value
  {
    AdmittedParse(value);
    RoundToTwoDecimalsFixes(ParseFloat(value).value);
  }

  /** The dialog's three text fields. The value field only ever holds text the
      filter admits. */
  class GradeForm {
    var value: string
    var weight: string
    var note: string

    predicate Valid()
      reads this
    {
      Admitted(value)
    }

    /** The initial field contents: no value, weight 1, no label. */
    constructor()
      ensures Valid()
      ensures value == "" && weight == "1" && note == ""
    {
      value, weight, note := "", "1", "";
    }

    /** The effect run whenever the dialog opens or the grade being edited
        changes: pre-fill from that grade, or clear. The pre-filled fields read
        back as the grade's own value and weight. */
    method Reset(existing: Option<Grade>)
      requires existing.Some? ==> existing.value.value >= 0.0 && IsCentMultiple(existing.value.value)
      requires existing.Some? ==> existing.value.weight >= 0.0 && IsCentMultiple(existing.value.weight)
      modifies this
      ensures Valid()
      ensures existing.None? ==> value == "" && weight == "1" && note == ""
      ensures existing.Some? ==>
        && value == Format(existing.value.value)
        && weight == Format(existing.value.weight)
        && note == (if existing.value.note.Some? then existing.value.note.value else "")
      ensures existing.Some? ==>
        ParseFloat(value) == Real(existing.value.value) && ParseFloat(weight) == Real(existing.value.weight)
    {
      match existing
      case None =>
        value, weight, note := "", "1", "";
      case Some(g) =>
        FormatAdmitted(g.value);
        FormatRoundTrip(g.value);
        FormatRoundTrip(g.weight);
        value, weight := Format(g.value), Format(g.weight);
        note := if g.note.Some? then g.note.value else "";
    }

    /** `handleValueChange`: a keystroke is taken only if the resulting text
        passes the filter; otherwise the field keeps its text. */
    method ChangeValue(input: string)
      requires Valid()
      modifies this
      ensures Valid()
      ensures value == (if Admitted(input) then input else old(value))
      ensures weight == old(weight) && note == old(note)
    {
      if Admitted(input) {
        value := input;
      }
    }

    /** The weight field takes any text. */
    method ChangeWeight(input: string)
      requires Valid()
      modifies this
      ensures Valid()
      ensures weight == input && value == old(value) && note == old(note)
    {
      weight := input;
    }

    /** The label field takes any text. */
    method ChangeNote(input: string)
      requires Valid()
      modifies this
      ensures Valid()
      ensures note == input && value == old(value) && weight == old(weight)
    {
      note := input;
    }

    /** `handleSubmit` on the current fields. An accepted grade carries the
        value exactly as typed. */
    method Submit() returns (r: SubmitResult)
      requires Valid()
      ensures r == SubmitForm(value, weight, note)
      ensures r.Accepted? ==> r.grade.value == ParseFloat(value).value
      ensures r.Rejected? <==>
        || value == [] || value == "." || ParseFloat(value).value < 1.0 || ParseFloat(value).value > 6.0
        || ParseFloat(weight).NaN? || ParseFloat(weight).value <= 0.0
    {
      r := SubmitForm(value, weight, note);
      AdmittedParse(value);
      if r.Accepted? {
        AdmittedValueKept(value, weight, note);
      }
    }
  }
}
