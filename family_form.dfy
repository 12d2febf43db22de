/**
 * The family modal: a schema whose password rule depends on whether a family
 * is being created or edited, the patients offered in the multi-select, the
 * preselected patients of an edited family, and the payloads a submit sends.
 */
module FamilyForm {
  import opened Wrappers
  import opened Domain
  import opened Lists
  import opened FormCommon
  import MultiSelect
  import Stores

  /** The form's contents; `fullname` is missing after resetting to a user without one, `password` until it is typed. */
  datatype FamilyValues = FamilyValues(
    fullname: Option<string>,
    email: string,
    password: Option<string>,
    address: Option<string>,
    patientIds: seq<string>)

  /** The body of a create or update call; the list of ids travels as `patientsId`. */
  datatype FamilyPayload = FamilyPayload(
    fullname: string,
    email: string,
    password: Option<string>,
    address: Option<string>,
    patientsId: seq<string>)

  datatype FamilyField = FullnameField | EmailField | PasswordField | PatientIdsField

  predicate FullnameOk(v: FamilyValues) {
    v.fullname.Some? && MinLength(v.fullname.value, 2)
  }

  /** Creating needs a password of six characters or more; editing accepts any password or none. */
  predicate PasswordOk(v: FamilyValues, editing: bool) {
    editing || (v.password.Some? && MinLength(v.password.value, 6))
  }

  /**
   * `familySchema`: the rejected fields, in the schema's order. The address
   * is optional and never rejected; `isEmail` is zod's e-mail pattern.
   */
  function FamilyErrors(v: FamilyValues, editing: bool, isEmail: string -> bool): (errs: seq<FamilyField>)
    ensures FullnameField in errs <==> !FullnameOk(v)
    ensures EmailField in errs <==> !isEmail(v.email)
    ensures PasswordField in errs <==> !editing && (v.password.None? || |v.password.value| < 6)
    ensures PatientIdsField in errs <==> |v.patientIds| == 0
  {
    (if FullnameOk(v) then [] else [FullnameField])
    + (if isEmail(v.email) then [] else [EmailField])
    + (if PasswordOk(v, editing) then [] else [PasswordField])
    + (if |v.patientIds| >= 1 then [] else [PatientIdsField])
  }

  /** `toPatientOptions`: one option per patient. */
  function ToPatientOptions(ps: seq<Patient>): (os: seq<MultiSelect.SelectOption>)
    ensures |os| == |ps|
    ensures forall i :: 0 <= i < |ps| ==> os[i].value == ps[i].id
    ensures forall i :: 0 <= i < |ps| ==> os[i].caption == ps[i].user.fullname.GetOr(Unnamed)
  {
    PatientOptions(ps)
  }

  /**
   * The form's contents after `reset`: when editing, the family user's name,
   * e-mail and address (an empty one for none) and the ids of its linked
   * patients; all empty when creating.
   */
  function ResetValues(family: Option<Family>): (v: FamilyValues)
    ensures family.None? ==> v == FamilyValues(Some(""), "", None, Some(""), [])
    ensures family.Some? ==> v.fullname == family.value.user.fullname && v.email == family.value.user.email
    ensures family.Some? ==> v.address == Some(family.value.user.address.GetOr(""))
    ensures family.Some? ==> |v.patientIds| == |family.value.patients|
                             && forall i :: 0 <= i < |v.patientIds| ==> v.patientIds[i] == family.value.patients[i].id
    ensures v.password.None?
  {
    match family
    case None => FamilyValues(Some(""), "", None, Some(""), [])
    case Some(f) =>
      FamilyValues(f.user.fullname, f.user.email, None, Some(f.user.address.GetOr("")), PatientIds(f.patients))
  }

  /**
   * An edited family can be saved untouched exactly when its user has a name
   * of two or more characters and a valid e-mail and it has a linked patient:
   * no password is asked for.
   */
  lemma EditUntouchedAccepted(f: Family, isEmail: string -> bool)
    ensures |FamilyErrors(ResetValues(Some(f)), true, isEmail)| == 0 <==>
              && f.user.fullname.Some? && |f.user.fullname.value| >= 2
              && isEmail(f.user.email)
              && |f.patients| >= 1
  {
    var errs := FamilyErrors(ResetValues(Some(f)), true, isEmail);
    if |errs| > 0 {
      assert errs[0] in errs;
    }
  }

  /** A blank creation form is rejected on the name, the password and the patients. */
  lemma BlankFormRejected(isEmail: string -> bool)
    ensures var errs := FamilyErrors(ResetValues(None), false, isEmail);
            FullnameField in errs && PasswordField in errs && PatientIdsField in errs
  {
  }

  /**
   * Every preselected id of an edited family names an option when the loaded
   * patients include the family's patients, so the multi-select shows them all.
   */
  lemma PreselectedShown(f: Family, loaded: seq<Patient>)
    requires forall p :: p in f.patients ==> p in loaded
    ensures MultiSelect.Values(MultiSelect.Selected(ToPatientOptions(loaded), ResetValues(Some(f)).patientIds))
         == ResetValues(Some(f)).patientIds
  {
    var ids := ResetValues(Some(f)).patientIds;
    var os := ToPatientOptions(loaded);
    forall i | 0 <= i < |ids| ensures MultiSelect.HasOption(os)(ids[i]) {
      assert f.patients[i] in loaded;
      var j :| 0 <= j < |loaded| && loaded[j] == f.patients[i];
      OptionForId(loaded, ids[i]);
    }
    FilterAll(ids, MultiSelect.HasOption(os));
    MultiSelect.SelectedValues(os, ids);
  }

  /**
   * `onSubmit`: an update of the family user's id with name, address, e-mail
   * and patients but no password, or a creation that also carries the password.
   */
  function RequestFor(family: Option<Family>, v: FamilyValues): (r: Request<FamilyPayload>)
    requires v.fullname.Some?
    ensures family.Some? <==> r.UpdateRequest?
    ensures r.UpdateRequest? ==> r.id == family.value.user.id && r.payload.password.None?
    ensures r.CreateRequest? ==> r.payload.password == v.password
    ensures r.payload.fullname == v.fullname.value && r.payload.email == v.email && r.payload.address == v.address
    ensures r.payload.patientsId == v.patientIds
  {
    match family
    case Some(f) => UpdateRequest(f.user.id, FamilyPayload(v.fullname.value, v.email, None, v.address, v.patientIds))
    case None => CreateRequest(FamilyPayload(v.fullname.value, v.email, v.password, v.address, v.patientIds))
  }

  /** The update targets the row the family store keys the edited family by. */
  lemma UpdateTargetsFamilyRow(f: Family, v: FamilyValues)
    requires v.fullname.Some?
    ensures RequestFor(Some(f), v).id == Stores.FamilyKey(f)
  {
  }

  /** The family modal: the edited family (`user`, absent when creating) and the form's contents. */
  class FamilyFormModal {
    const family: Option<Family>
    /** zod's e-mail pattern. */
    const isEmail: string -> bool
    var values: FamilyValues

    /** The form starts from its default values. */
    constructor(family: Option<Family>, isEmail: string -> bool)
      ensures this.family == family && this.isEmail == isEmail
      ensures values == FamilyValues(Some(""), "", None, Some(""), [])
    {
      this.family := family;
      this.isEmail := isEmail;
      values := FamilyValues(Some(""), "", None, Some(""), []);
    }

    /** The effect run when the modal opens or its family changes. */
    method Reset()
      modifies this
      ensures values == ResetValues(family)
    {
      match family {
        case Some(f) =>
          var preselected := PatientIds(f.patients);
          values := FamilyValues(f.user.fullname, f.user.email, None, Some(f.user.address.GetOr("")), preselected);
        case None =>
          values := FamilyValues(Some(""), "", None, Some(""), []);
      }
    }

    /**
     * `handleSubmit(onSubmit)`: rejected values send nothing; valid values
     * send `RequestFor(family, values)` to the store, whose outcome is
     * `result`, and the modal closes exactly when the store call resolves.
     */
    method Submit(store: Stores.EntityStore<Family>, result: Outcome<Family>)
        returns (sent: Option<Request<FamilyPayload>>, closed: bool)
      requires store.Valid()
      modifies store
      ensures |FamilyErrors(values, family.Some?, isEmail)| > 0 ==>
                sent.None? && !closed && store.data == old(store.data) && store.total == old(store.total)
      ensures |FamilyErrors(values, family.Some?, isEmail)| == 0 ==>
                values.fullname.Some? && sent == Some(RequestFor(family, values)) && (closed <==> result.Ok?)
      ensures |FamilyErrors(values, family.Some?, isEmail)| == 0 && family.Some? && result.Ok? ==>
                store.data == ReplaceWhere(old(store.data), store.key, family.value.user.id, result.value)
      ensures |FamilyErrors(values, family.Some?, isEmail)| == 0 && family.None? && result.Ok? ==>
                store.data == [result.value] + old(store.data) && store.total == |old(store.data)| + 1
      ensures result.Failed? ==> store.data == old(store.data) && store.total == old(store.total)
      ensures store.Valid()
    {
      if |FamilyErrors(values, family.Some?, isEmail)| > 0 {
        return None, false;
      }
      sent := Some(RequestFor(family, values));
      match family {
        case Some(f) =>
          closed := store.Update(f.user.id, result);
        case None =>
          closed := store.Create(result);
      }
    }
  }
}
