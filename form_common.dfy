/**
 * What the three modal forms share: the request a submit sends (an update of
 * an existing row or a creation), the string rules of their schemas, and the
 * patient options offered by the device and family forms.
 */
module FormCommon {
  import opened Wrappers
  import opened Domain
  import MultiSelect

  /** The store call a valid submit makes: `update(id, payload)` when editing, `create(payload)` otherwise. */
  datatype Request<P> = UpdateRequest(id: string, payload: P) | CreateRequest(payload: P)

  /** `z.string().min(n)`. */
  predicate MinLength(s: string, n: nat) {
    |s| >= n
  }

  predicate IsHexDigit(c: char) {
    '0' <= c <= '9' || 'a' <= c <= 'f' || 'A' <= c <= 'F'
  }

  predicate IsDashPosition(i: int) {
    i == 8 || i == 13 || i == 18 || i == 23
  }

  /** `z.string().uuid()`: five groups of 8, 4, 4, 4 and 12 hexadecimal digits joined by dashes. */
  predicate IsUuid(s: string) {
    |s| == 36 && forall i :: 0 <= i < 36 ==> if IsDashPosition(i) then s[i] == '-' else IsHexDigit(s[i])
  }

  /** The label shown for a patient without a name. */
  const Unnamed: string := "(Sin nombre)"

  /** `{ value: p.id, label: p.user?.fullname ?? "(Sin nombre)" }`. */
  function PatientOption(p: Patient): (o: MultiSelect.SelectOption)
    ensures o.value == p.id && o.hint.None?
    ensures p.user.fullname.Some? ==> o.caption == p.user.fullname.value
    ensures p.user.fullname.None? ==> o.caption == Unnamed
  {
    MultiSelect.SelectOption(p.id, p.user.fullname.GetOr(Unnamed), None)
  }

  /** One option per patient, in the patients' order. */
  function PatientOptions(ps: seq<Patient>): (os: seq<MultiSelect.SelectOption>)
    ensures |os| == |ps|
    ensures forall i :: 0 <= i < |ps| ==> os[i] == PatientOption(ps[i])
  {
    seq(|ps|, i requires 0 <= i < |ps| => PatientOption(ps[i]))
  }

  /** The ids of a list of patients, in order. */
  function PatientIds(ps: seq<Patient>): (ids: seq<string>)
    ensures |ids| == |ps|
    ensures forall i :: 0 <= i < |ps| ==> ids[i] == ps[i].id
  {
    seq(|ps|, i requires 0 <= i < |ps| => ps[i].id)
  }

  /** A patient's id names an option of a list that holds a patient with that id. */
  lemma OptionForId(ps: seq<Patient>, id: string)
    ensures MultiSelect.LookupOption(PatientOptions(ps), id).Some? <==> exists i :: 0 <= i < |ps| && ps[i].id == id
  {
    var os := PatientOptions(ps);
    if exists i :: 0 <= i < |ps| && ps[i].id == id {
      var i :| 0 <= i < |ps| && ps[i].id == id;
      assert os[i].value == id;
    }
  }
}
