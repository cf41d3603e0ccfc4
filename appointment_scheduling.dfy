/** The appointment booking form: its ten fields, the update of one field
    on input, and the submit handler's required-field check and the
    `error` / `isSubmitted` state it leaves behind. */
module AppointmentScheduling {

  import opened Wrappers

  /** The names of the form's inputs. */
  datatype Field =
    | Date | Time | Name | Email | Phone | Doctor | AppointmentType
    | Reason | Symptoms | MedicalHistory

  /** The form's contents; every field holds the text of its input. */
  datatype Appointment = Appointment(
    date: string,
    time: string,
    name: string,
    email: string,
    phone: string,
    doctor: string,
    appointmentType: string,
    reason: string,
    symptoms: string,
    medicalHistory: string)

  /** The state the form starts in: every field empty. */
  const Blank := Appointment("", "", "", "", "", "", "", "", "", "")

  const RequiredMessage := "Please fill in all required fields."

  /** The value of one field. */
  function Get(a: Appointment, f: Field): string
  {
    match f
    case Date => a.date
    case Time => a.time
    case Name => a.name
    case Email => a.email
    case Phone => a.phone
    case Doctor => a.doctor
    case AppointmentType => a.appointmentType
    case Reason => a.reason
    case Symptoms => a.symptoms
    case MedicalHistory => a.medicalHistory
  }

  /** `{ ...prev, [name]: value }`: the named field takes the new value and
      the other nine keep theirs. */
  function Set(a: Appointment, f: Field, v: string): (b: Appointment)
    ensures forall g :: Get(b, g) == if g == f then v else Get(a, g)
  {
    match f
    case Date => a.(date := v)
    case Time => a.(time := v)
    case Name => a.(name := v)
    case Email => a.(email := v)
    case Phone => a.(phone := v)
    case Doctor => a.(doctor := v)
    case AppointmentType => a.(appointmentType := v)
    case Reason => a.(reason := v)
    case Symptoms => a.(symptoms := v)
    case MedicalHistory => a.(medicalHistory := v)
  }

  /** The seven fields the submit handler insists on. */
  predicate IsRequired(f: Field)
  {
    !(f == Reason || f == Symptoms || f == MedicalHistory)
  }

  /** The submit handler's test as written: one of the seven required
      fields is the empty string. */
  predicate MissingRequired(a: Appointment)
  {
    a.date == "" || a.time == "" || a.name == "" || a.email == ""
    || a.phone == "" || a.doctor == "" || a.appointmentType == ""
  }

  /** The test fails exactly when some required field is empty: any other
      value, whitespace-only ones included, is accepted, and the optional
      fields play no part. */
  lemma MissingRequiredMeans(a: Appointment)
    ensures MissingRequired(a) <==> exists f :: IsRequired(f) && Get(a, f) == ""
    ensures !MissingRequired(a) <==> forall f :: IsRequired(f) ==> Get(a, f) != ""
  {
    if MissingRequired(a) {
      var f :| f in [Date, Time, Name, Email, Phone, Doctor, AppointmentType] && Get(a, f) == "" by {
        if a.date == "" { assert Get(a, Date) == ""; }
        else if a.time == "" { assert Get(a, Time) == ""; }
        else if a.name == "" { assert Get(a, Name) == ""; }
        else if a.email == "" { assert Get(a, Email) == ""; }
        else if a.phone == "" { assert Get(a, Phone) == ""; }
        else if a.doctor == "" { assert Get(a, Doctor) == ""; }
        else { assert Get(a, AppointmentType) == ""; }
      }
      assert IsRequired(f);
    }
  }

  /** Editing `reason`, `symptoms` or `medicalHistory` never changes the
      outcome of the check. */
  lemma OptionalFieldsIgnored(a: Appointment, f: Field, v: string)
    requires !IsRequired(f)
    ensures MissingRequired(Set(a, f, v)) == MissingRequired(a)
  {
    var b := Set(a, f, v);
    assert Get(b, Date) == Get(a, Date) && Get(b, Time) == Get(a, Time);
    assert Get(b, Name) == Get(a, Name) && Get(b, Email) == Get(a, Email);
    assert Get(b, Phone) == Get(a, Phone) && Get(b, Doctor) == Get(a, Doctor);
    assert Get(b, AppointmentType) == Get(a, AppointmentType);
  }

  /** Clearing a required field makes the check fail, and giving the last
      empty required field any non-empty value makes it pass. */
  lemma RequiredFieldDecides(a: Appointment, f: Field, v: string)
    requires IsRequired(f)
    ensures v == "" ==> MissingRequired(Set(a, f, v))
    ensures v != "" && (forall g :: g != f && IsRequired(g) ==> Get(a, g) != "")
            ==> !MissingRequired(Set(a, f, v))
  {
    var b := Set(a, f, v);
    MissingRequiredMeans(b);
    if v == "" {
      assert Get(b, f) == "";
    }
  }

  /** The form component's state. */
  class SchedulingForm {

    var appointment: Appointment
    var isSubmitted: bool
    var error: Option<string>

    /** The initial state: all fields empty, nothing submitted, no error;
        submitting it straight away fails the check. */
    constructor()
      ensures appointment == Blank && !isSubmitted && error == None
      ensures MissingRequired(appointment)
    {
      appointment := Blank;
      isSubmitted := false;
      error := None;
    }

    /** `handleInputChange`: one field takes the input's value. */
    method HandleInputChange(field: Field, value: string)
      modifies this
      ensures appointment == Set(old(appointment), field, value)
      ensures isSubmitted == old(isSubmitted) && error == old(error)
    {
      appointment := Set(appointment, field, value);
    }

    /** `handleSubmit`: the error and the submitted flag are cleared, then
        either the required-field message is shown and the form stays
        unsubmitted, or the form is marked submitted without an error. */
    method HandleSubmit()
      modifies this
      ensures appointment == old(appointment)
      ensures isSubmitted <==> !MissingRequired(appointment)
      ensures error == if MissingRequired(appointment) then Some(RequiredMessage) else None
    {
      error := None;
      isSubmitted := false;
      if MissingRequired(appointment) {
        error := Some(RequiredMessage);
        return;
      }
      isSubmitted := true;
    }
  }
}
