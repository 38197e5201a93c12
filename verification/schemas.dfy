/** The patient-data form schema: three text fields, each at least ten
    UTF-16 code units long, with a message of its own for each field. */
module Schemas {
  import opened Wrappers
  import Text

  datatype PatientData = PatientData(medicalHistory: string, symptoms: string, labResults: string)

  /** The form's field names, in declaration order. */
  datatype Field = MedicalHistory | Symptoms | LabResults

  /** The minimum length of every field. */
  const MinLength: nat := 10

  /** A rejected field and the message shown under it. */
  datatype Issue = Issue(field: Field, message: string)

  function Value(d: PatientData, f: Field): string {
    match f
    case MedicalHistory => d.medicalHistory
    case Symptoms => d.symptoms
    case LabResults => d.labResults
  }

  /** The position of a field in the schema. */
  function Position(f: Field): nat {
    match f
    case MedicalHistory => 0
    case Symptoms => 1
    case LabResults => 2
  }

  /** The field's name as the form shows it. */
  function Label(f: Field): string {
    match f
    case MedicalHistory => "Medical history"
    case Symptoms => "Symptoms"
    case LabResults => "Lab results"
  }

  /** The message shown under a field that is too short. */
  function Message(f: Field): string {
    Label(f) + " must be at least 10 characters."
  }

  predicate FieldValid(d: PatientData, f: Field) {
    Text.Utf16Length(Value(d, f)) >= MinLength
  }

  /** The issue for field `f`, if it is too short. */
  function FieldIssues(d: PatientData, f: Field): (r: seq<Issue>)
    ensures |r| <= 1
    ensures r == [] <==> FieldValid(d, f)
    ensures forall i :: 0 <= i < |r| ==> r[i] == Issue(f, Message(f))
  {
    if FieldValid(d, f) then [] else [Issue(f, Message(f))]
  }

  /** Parses the form values: the data itself when every field is long
      enough, otherwise one issue per short field, in field order. */
  function Validate(d: PatientData): (r: Result<PatientData, seq<Issue>>)
    ensures r.Success? <==>
      && Text.Utf16Length(d.medicalHistory) >= MinLength
      && Text.Utf16Length(d.symptoms) >= MinLength
      && Text.Utf16Length(d.labResults) >= MinLength
    ensures r.Success? ==> r.value == d
    ensures r.Failure? ==> |r.error| >= 1
    ensures r.Failure? ==> forall f :: !FieldValid(d, f) <==> Issue(f, Message(f)) in r.error
  {
    var issues := FieldIssues(d, MedicalHistory) + FieldIssues(d, Symptoms) + FieldIssues(d, LabResults);
    if issues == [] then Success(d) else Failure(issues)
  }

  /** Every issue names a short field with that field's own message, and the
      issues follow the order of the fields in the schema, so no field is
      reported twice. */
  lemma ValidateIssues(d: PatientData)
    requires Validate(d).Failure?
    ensures forall i :: 0 <= i < |Validate(d).error| ==>
      && !FieldValid(d, Validate(d).error[i].field)
      && Validate(d).error[i].message == Message(Validate(d).error[i].field)
    ensures forall i, j :: 0 <= i < j < |Validate(d).error| ==>
      Position(Validate(d).error[i].field) < Position(Validate(d).error[j].field)
  {
    var a, b, c := FieldIssues(d, MedicalHistory), FieldIssues(d, Symptoms), FieldIssues(d, LabResults);
    var e := Validate(d).error;
    assert e == a + b + c;
    forall i | 0 <= i < |e|
      ensures !FieldValid(d, e[i].field) && e[i].message == Message(e[i].field)
    {
      if i < |a| {
        assert e[i] == a[i];
      } else if i < |a| + |b| {
        assert e[i] == b[i - |a|];
      } else {
        assert e[i] == c[i - |a| - |b|];
      }
    }
  }

  /** A field exactly ten code units long passes; nine fails, and an empty
      field always fails. */
  lemma ValidateBoundary(d: PatientData, f: Field)
    ensures Text.Utf16Length(Value(d, f)) == 9 ==> Validate(d).Failure? && Issue(f, Message(f)) in Validate(d).error
    ensures Value(d, f) == "" ==> Validate(d).Failure? && Issue(f, Message(f)) in Validate(d).error
    ensures (forall g :: Text.Utf16Length(Value(d, g)) == 10) ==> Validate(d) == Success(d)
  {
    if forall g :: Text.Utf16Length(Value(d, g)) == 10 {
      assert Text.Utf16Length(Value(d, MedicalHistory)) == 10;
      assert Text.Utf16Length(Value(d, Symptoms)) == 10;
      assert Text.Utf16Length(Value(d, LabResults)) == 10;
    }
  }

  /** There is no upper bound: lengthening fields of accepted data keeps it
      accepted. */
  lemma ValidateMonotone(d: PatientData, extra1: string, extra2: string, extra3: string)
    requires Validate(d).Success?
    ensures Validate(PatientData(d.medicalHistory + extra1, d.symptoms + extra2, d.labResults + extra3)).Success?
  {
    Text.Utf16LengthAppend(d.medicalHistory, extra1);
    Text.Utf16LengthAppend(d.symptoms, extra2);
    Text.Utf16LengthAppend(d.labResults, extra3);
  }
}
