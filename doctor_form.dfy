/**
 * The doctor modal: a schema whose password rule depends on the mode, the
 * values it resets to, and the payloads a submit sends.
 */
module DoctorForm {
  import opened Wrappers
  import opened Domain
  import opened Lists
  import opened FormCommon
  import Stores

  /** The form's contents; `fullname` is missing after resetting to a user without one, `password` until it is typed. */
  datatype DoctorValues = DoctorValues(fullname: Option<string>, email: string, password: Option<string>, address: Option<string>)

  /** The body of an update: name, address and e-mail only. */
  datatype DoctorUpdate = DoctorUpdate(fullname: string, address: Option<string>, email: string)

  datatype DoctorField = FullnameField | EmailField | PasswordField

  predicate FullnameOk(v: DoctorValues) {
    v.fullname.Some? && MinLength(v.fullname.value, 2)
  }

  predicate PasswordOk(v: DoctorValues, editing: bool) {
    editing || (v.password.Some? && MinLength(v.password.value, 6))
  }

  /** `doctorSchema`: the rejected fields, in the schema's order; `isEmail` is zod's e-mail pattern. */
  function DoctorErrors(v: DoctorValues, editing: bool, isEmail: string -> bool): (errs: seq<DoctorField>)
    ensures FullnameField in errs <==> v.fullname.None? || |v.fullname.value| < 2
    ensures EmailField in errs <==> !isEmail(v.email)
    ensures PasswordField in errs <==> !editing && (v.password.None? || |v.password.value| < 6)
  {
    (if FullnameOk(v) then [] else [FullnameField])
    + (if isEmail(v.email) then [] else [EmailField])
    + (if PasswordOk(v, editing) then [] else [PasswordField])
  }

  /** The form's contents after `reset`: the doctor user's fields (an empty address for none), or all empty. */
  function ResetValues(doctor: Option<Doctor>): (v: DoctorValues)
    ensures doctor.None? ==> v == DoctorValues(Some(""), "", None, Some(""))
    ensures doctor.Some? ==> v.fullname == doctor.value.user.fullname && v.email == doctor.value.user.email
    ensures doctor.Some? ==> v.address == Some(doctor.value.user.address.GetOr(""))
    ensures v.password.None?
  {
    match doctor
    case None => DoctorValues(Some(""), "", None, Some(""))
    case Some(d) => DoctorValues(d.user.fullname, d.user.email, None, Some(d.user.address.GetOr("")))
  }

  /** An edited doctor can be saved untouched exactly when the name has two characters or more and the e-mail is valid. */
  lemma EditUntouchedAccepted(d: Doctor, isEmail: string -> bool)
    ensures |DoctorErrors(ResetValues(Some(d)), true, isEmail)| == 0 <==>
              d.user.fullname.Some? && |d.user.fullname.value| >= 2 && isEmail(d.user.email)
  {
    var errs := DoctorErrors(ResetValues(Some(d)), true, isEmail);
    if |errs| > 0 {
      assert errs[0] in errs;
    }
  }

  /** Creating is refused without a password of six characters, whatever else is filled in. */
  lemma CreateNeedsPassword(v: DoctorValues, isEmail: string -> bool)
    requires v.password.None? || |v.password.value| < 6
    ensures |DoctorErrors(v, false, isEmail)| > 0
  {
    assert PasswordField in DoctorErrors(v, false, isEmail);
  }

  /** What a valid submit sends: `update(user.user.id, …)` without a password, or `create` with the whole form. */
  datatype DoctorRequest = UpdateDoctor(id: string, body: DoctorUpdate) | CreateDoctor(form: DoctorValues)

  function RequestFor(doctor: Option<Doctor>, v: DoctorValues): (r: DoctorRequest)
    requires v.fullname.Some?
    ensures doctor.Some? <==> r.UpdateDoctor?
    ensures r.UpdateDoctor? ==> r.id == doctor.value.user.id
                                && r.body == DoctorUpdate(v.fullname.value, v.address, v.email)
    ensures r.CreateDoctor? ==> r.form == v
  {
    match doctor
    case Some(d) => UpdateDoctor(d.user.id, DoctorUpdate(v.fullname.value, v.address, v.email))
    case None => CreateDoctor(v)
  }

  /** Whatever password was typed while editing, the update sends the same body. */
  lemma UpdateIgnoresPassword(d: Doctor, v: DoctorValues, password: Option<string>)
    requires v.fullname.Some?
    ensures RequestFor(Some(d), v) == RequestFor(Some(d), v.(password := password))
  {
  }

  /** The doctor modal: the edited doctor (`user`, absent when creating) and the form's contents. */
  class DoctorFormModal {
    const doctor: Option<Doctor>
    /** zod's e-mail pattern. */
    const isEmail: string -> bool
    var values: DoctorValues

    /** The form starts from its default values. */
    constructor(doctor: Option<Doctor>, isEmail: string -> bool)
      ensures this.doctor == doctor && this.isEmail == isEmail
      ensures values == DoctorValues(Some(""), "", None, Some(""))
    {
      this.doctor := doctor;
      this.isEmail := isEmail;
      values := DoctorValues(Some(""), "", None, Some(""));
    }

    /** The effect run when the modal opens or its doctor changes. */
    method Reset()
      modifies this
      ensures values == ResetValues(doctor)
    {
      match doctor {
        case Some(d) =>
          values := DoctorValues(d.user.fullname, d.user.email, None, Some(d.user.address.GetOr("")));
        case None =>
          values := DoctorValues(Some(""), "", None, Some(""));
      }
    }

    /**
     * `handleSubmit(onSubmit)`: rejected values send nothing; valid values
     * send `RequestFor(doctor, values)` to the store, whose outcome is
     * `result`, and the modal closes exactly when the store call resolves.
     */
    method Submit(store: Stores.EntityStore<Doctor>, result: Outcome<Doctor>)
        returns (sent: Option<DoctorRequest>, closed: bool)
      requires store.Valid()
      modifies store
      ensures |DoctorErrors(values, doctor.Some?, isEmail)| > 0 ==>
                sent.None? && !closed && store.data == old(store.data) && store.total == old(store.total)
      ensures |DoctorErrors(values, doctor.Some?, isEmail)| == 0 ==>
                values.fullname.Some? && sent == Some(RequestFor(doctor, values)) && (closed <==> result.Ok?)
      ensures |DoctorErrors(values, doctor.Some?, isEmail)| == 0 && doctor.Some? && result.Ok? ==>
                store.data == ReplaceWhere(old(store.data), store.key, doctor.value.user.id, result.value)
      ensures |DoctorErrors(values, doctor.Some?, isEmail)| == 0 && doctor.None? && result.Ok? ==>
                store.data == [result.value] + old(store.data) && store.total == |old(store.data)| + 1
      ensures result.Failed? ==> store.data == old(store.data) && store.total == old(store.total)
      ensures store.Valid()
    {
      if |DoctorErrors(values, doctor.Some?, isEmail)| > 0 {
        return None, false;
      }
      sent := Some(RequestFor(doctor, values));
      match doctor {
        case Some(d) =>
          closed := store.Update(d.user.id, result);
        case None =>
          closed := store.Create(result);
      }
    }
  }
}
