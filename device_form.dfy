/**
 * The device modal: its schema, the patients it offers, how it fills itself
 * for a creation or an edit, and what a submit sends to the device store.
 */
module DeviceForm {
  import opened Wrappers
  import opened Domain
  import opened Lists
  import opened FormCommon
  import MultiSelect
  import Stores

  datatype DeviceValues = DeviceValues(serialNumber: string, model: string, patientId: string)

  /** The body of both the create and the update call. */
  datatype DevicePayload = DevicePayload(serialNumber: string, model: string, patientId: string)

  /** A field the schema rejects, each with its message. */
  datatype DeviceField = SerialNumberField | ModelField | PatientIdField

  function Message(f: DeviceField): string {
    match f
    case SerialNumberField => "Serial requerido"
    case ModelField => "Modelo requerido"
    case PatientIdField => "Paciente inválido"
  }

  /** `deviceSchema`: the rejected fields, in the schema's order. */
  function DeviceErrors(v: DeviceValues): (errs: seq<DeviceField>)
    ensures SerialNumberField in errs <==> |v.serialNumber| < 2
    ensures ModelField in errs <==> |v.model| < 1
    ensures PatientIdField in errs <==> !IsUuid(v.patientId)
    ensures |errs| == 0 <==> MinLength(v.serialNumber, 2) && MinLength(v.model, 1) && IsUuid(v.patientId)
  {
    (if MinLength(v.serialNumber, 2) then [] else [SerialNumberField])
    + (if MinLength(v.model, 1) then [] else [ModelField])
    + (if IsUuid(v.patientId) then [] else [PatientIdField])
  }

  /** The form's contents after `reset`: the device's fields when editing, all empty when creating. */
  function ResetValues(device: Option<Device>): (v: DeviceValues)
    ensures device.None? ==> v == DeviceValues("", "", "")
    ensures device.Some? ==> v.serialNumber == device.value.serialNumber && v.model == device.value.model
    ensures device.Some? && device.value.patient.Some? ==> v.patientId == device.value.patient.value.id
    ensures device.Some? && device.value.patient.None? ==> v.patientId == ""
  {
    match device
    case None => DeviceValues("", "", "")
    case Some(d) =>
      DeviceValues(d.serialNumber, d.model, if d.patient.Some? then d.patient.value.id else "")
  }

  /** A blank creation form is rejected on every field. */
  lemma BlankFormRejected()
    ensures DeviceErrors(ResetValues(None)) == [SerialNumberField, ModelField, PatientIdField]
  {
  }

  /** An edited device without a linked patient cannot be saved until a patient is chosen. */
  lemma UnlinkedDeviceNeedsPatient(d: Device)
    requires d.patient.None?
    ensures PatientIdField in DeviceErrors(ResetValues(Some(d)))
  {
  }

  /** `onSubmit`: an update of the edited device's id, or a creation, with the same three fields. */
  function RequestFor(device: Option<Device>, v: DeviceValues): (r: Request<DevicePayload>)
    ensures device.Some? <==> r.UpdateRequest?
    ensures r.UpdateRequest? ==> r.id == device.value.id
    ensures r.payload.serialNumber == v.serialNumber && r.payload.model == v.model && r.payload.patientId == v.patientId
  {
    var payload := DevicePayload(v.serialNumber, v.model, v.patientId);
    match device
    case Some(d) => UpdateRequest(d.id, payload)
    case None => CreateRequest(payload)
  }

  /** Saving an edited device untouched sends back its own fields. */
  lemma ResubmitUnchanged(d: Device)
    requires d.patient.Some?
    ensures RequestFor(Some(d), ResetValues(Some(d)))
         == UpdateRequest(d.id, DevicePayload(d.serialNumber, d.model, d.patient.value.id))
  {
  }

  /**
   * The patients the select offers: those without a device, and, when an
   * edited device has a truthy id, those whose device is that device.
   */
  predicate Eligible(device: Option<Device>, p: Patient) {
    p.device.None? || (device.Some? && device.value.id != "" && p.device.value.id == device.value.id)
  }

  function EligibleFor(device: Option<Device>): Patient -> bool {
    p => Eligible(device, p)
  }

  /** `patientOptions`: the eligible patients, in order, as options. */
  function DevicePatientOptions(patients: seq<Patient>, device: Option<Device>): (os: seq<MultiSelect.SelectOption>)
    ensures |os| <= |patients|
    ensures forall o :: o in os <==> exists p :: p in patients && Eligible(device, p) && o == PatientOption(p)
  {
    var eligible := Filter(patients, EligibleFor(device));
    FilterMembers(patients, EligibleFor(device));
    var os := PatientOptions(eligible);
    assert forall o :: o in os ==> exists p :: p in eligible && o == PatientOption(p);
    assert forall p :: p in eligible ==> PatientOption(p) in os by {
      forall p | p in eligible ensures PatientOption(p) in os {
        var i :| 0 <= i < |eligible| && eligible[i] == p;
        assert os[i] == PatientOption(p);
      }
    }
    os
  }

  /** The options keep the patients' order: they are the options of a subsequence of the patients. */
  lemma DevicePatientOptionsOrder(patients: seq<Patient>, device: Option<Device>)
    ensures exists kept :: IsSubsequence(kept, patients) && DevicePatientOptions(patients, device) == PatientOptions(kept)
  {
    var kept := Filter(patients, EligibleFor(device));
    FilterIsSubsequence(patients, EligibleFor(device));
    assert DevicePatientOptions(patients, device) == PatientOptions(kept);
  }

  /** When editing, the patient the device is linked to is still offered, so the reset value stays selectable. */
  lemma LinkedPatientOffered(patients: seq<Patient>, d: Device, p: Patient)
    requires p in patients && p.device.Some? && p.device.value.id == d.id && d.id != ""
    ensures PatientOption(p) in DevicePatientOptions(patients, Some(d))
  {
    assert Eligible(Some(d), p);
  }

  /** A patient linked to another device is never offered. */
  lemma OtherDevicePatientHidden(patients: seq<Patient>, device: Option<Device>, p: Patient)
    requires p.device.Some? && (device.None? || p.device.value.id != device.value.id)
    requires forall q :: q in patients && PatientOption(q) == PatientOption(p) ==> q == p
    ensures PatientOption(p) !in DevicePatientOptions(patients, device)
  {
  }

  /** The device modal: the edited device (`user`, absent when creating) and the form's contents. */
  class DeviceFormModal {
    const device: Option<Device>
    var values: DeviceValues

    /** The form starts from its default values. */
    constructor(device: Option<Device>)
      ensures this.device == device && values == DeviceValues("", "", "")
    {
      this.device := device;
      values := DeviceValues("", "", "");
    }

    /** The effect run when the modal opens or its device changes. */
    method Reset()
      modifies this
      ensures values == ResetValues(device)
    {
      match device {
        case Some(d) =>
          values := DeviceValues(d.serialNumber, d.model, if d.patient.Some? then d.patient.value.id else "");
        case None =>
          values := DeviceValues("", "", "");
      }
    }

    /**
     * `handleSubmit(onSubmit)`: rejected values send nothing; valid values
     * send `RequestFor(device, values)` to the store, whose outcome is
     * `result`, and the modal closes exactly when the store call resolves.
     */
    method Submit(store: Stores.EntityStore<Device>, result: Outcome<Device>)
        returns (sent: Option<Request<DevicePayload>>, closed: bool)
      requires store.Valid()
      modifies store
      ensures |DeviceErrors(values)| > 0 ==> sent.None? && !closed && store.data == old(store.data) && store.total == old(store.total)
      ensures |DeviceErrors(values)| == 0 ==> sent == Some(RequestFor(device, values)) && (closed <==> result.Ok?)
      ensures |DeviceErrors(values)| == 0 && device.Some? && result.Ok? ==>
                store.data == ReplaceWhere(old(store.data), store.key, device.value.id, result.value)
      ensures |DeviceErrors(values)| == 0 && device.None? && result.Ok? ==>
                store.data == [result.value] + old(store.data) && store.total == |old(store.data)| + 1
      ensures result.Failed? ==> store.data == old(store.data) && store.total == old(store.total)
      ensures store.Valid()
    {
      if |DeviceErrors(values)| > 0 {
        return None, false;
      }
      sent := Some(RequestFor(device, values));
      match device {
        case Some(d) =>
          closed := store.Update(d.id, result);
        case None =>
          closed := store.Create(result);
      }
    }
  }
}
