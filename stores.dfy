/**
 * The zustand stores behind the device, patient and family tables, and the
 * store of a patient's sessions. The three table stores share one shape: the
 * loaded list, the list the search box lets through, the search term, a
 * loading flag and a total. Each awaited service call is a parameter holding
 * what the call produced (`Ok(value)`) or that its promise was rejected.
 */
module Stores {
  import opened Wrappers
  import opened JsString
  import opened Domain
  import opened Lists

  /** `item => matches(item, normalized)`: the predicate `data.filter` applies. */
  function MatchesTerm<T>(matches: (T, string) -> bool, normalized: string): T -> bool {
    x => matches(x, normalized)
  }

  /** The items of `items` the search `term` lets through, compared in lower case. */
  function SearchResult<T>(items: seq<T>, matches: (T, string) -> bool, term: string): seq<T> {
    Filter(items, MatchesTerm(matches, ToLower(term)))
  }

  /** The search keeps the order of the list and lets through exactly the matching items. */
  lemma SearchSpec<T>(items: seq<T>, matches: (T, string) -> bool, term: string)
    ensures IsSubsequence(SearchResult(items, matches, term), items)
    ensures forall x :: x in SearchResult(items, matches, term) <==> x in items && matches(x, ToLower(term))
  {
    FilterIsSubsequence(items, MatchesTerm(matches, ToLower(term)));
    FilterMembers(items, MatchesTerm(matches, ToLower(term)));
  }

  /** The term is lower-cased first, so its case does not matter. */
  lemma SearchIgnoresCase<T>(items: seq<T>, matches: (T, string) -> bool, term: string)
    ensures SearchResult(items, matches, term) == SearchResult(items, matches, ToLower(term))
  {
    ToLowerIdempotent(term);
  }

  /** A table store: `data`, `filteredData`, `search`, `isLoading` and `total`, keyed by `key`. */
  class EntityStore<T> {
    /** The id `update`, `remove` and `changeStatus` compare with. */
    const key: T -> string
    /** Whether an item matches an already lower-cased search term. */
    const matches: (T, string) -> bool

    var data: seq<T>
    var filteredData: seq<T>
    var search: string
    var isLoading: bool
    var total: int

    /** After every operation the visible list is the search applied to the loaded one. */
    ghost predicate Valid()
      reads this
    {
      filteredData == SearchResult(data, matches, search)
    }

    constructor(key: T -> string, matches: (T, string) -> bool)
      ensures this.key == key && this.matches == matches
      ensures data == [] && filteredData == [] && search == "" && !isLoading && total == 0
      ensures Valid()
    {
      this.key := key;
      this.matches := matches;
      data := [];
      filteredData := [];
      search := "";
      isLoading := false;
      total := 0;
    }

    /** `applySearch(term)`: stores the term and filters the loaded list with it. */
    method ApplySearch(term: string)
      modifies this
      ensures search == term && filteredData == SearchResult(data, matches, term)
      ensures data == old(data) && isLoading == old(isLoading) && total == old(total)
      ensures Valid()
    {
      search := term;
      filteredData := SearchResult(data, matches, search);
    }

    /** `reload()`: filters again with the stored term. */
    method Reload()
      modifies this
      ensures filteredData == SearchResult(data, matches, search)
      ensures data == old(data) && search == old(search) && isLoading == old(isLoading) && total == old(total)
      ensures Valid()
    {
      ApplySearch(search);
    }

    /**
     * `fetchFull()`: on success the loaded list is replaced and filtered with
     * the stored term; on failure the lists stay. The total is not touched
     * either way, and the loading flag ends cleared.
     */
    method FetchFull(result: Outcome<seq<T>>)
      requires Valid()
      modifies this
      ensures !isLoading
      ensures result.Ok? ==> data == result.value
      ensures result.Failed? ==> data == old(data) && filteredData == old(filteredData)
      ensures filteredData == SearchResult(data, matches, search)
      ensures search == old(search) && total == old(total)
      ensures Valid()
    {
      isLoading := true;
      match result {
        case Ok(items) =>
          data := items;
          filteredData := items;
          isLoading := false;
          ApplySearch(search);
        case Failed =>
          isLoading := false;
      }
    }

    /**
     * `create(payload)`: the created item goes first and the total becomes one
     * more than the old length. A rejected call is not caught: it leaves the
     * store as it was and reaches the caller (`resolved` is false).
     */
    method Create(result: Outcome<T>) returns (resolved: bool)
      requires Valid()
      modifies this
      ensures resolved <==> result.Ok?
      ensures result.Ok? ==> data == [result.value] + old(data) && total == |old(data)| + 1
      ensures result.Failed? ==> data == old(data) && total == old(total) && filteredData == old(filteredData)
      ensures search == old(search) && isLoading == old(isLoading)
      ensures Valid()
    {
      match result {
        case Ok(created) =>
          total := |data| + 1;
          data := [created] + data;
          ApplySearch(search);
          resolved := true;
        case Failed =>
          resolved := false;
      }
    }

    /**
     * `update(id, payload)`: every item whose key is `id` becomes the updated
     * item. A rejected call is not caught: nothing changes and it reaches the caller.
     */
    method Update(id: string, result: Outcome<T>) returns (resolved: bool)
      requires Valid()
      modifies this
      ensures resolved <==> result.Ok?
      ensures result.Ok? ==> data == ReplaceWhere(old(data), key, id, result.value)
      ensures result.Failed? ==> data == old(data) && filteredData == old(filteredData)
      ensures search == old(search) && isLoading == old(isLoading) && total == old(total)
      ensures Valid()
    {
      match result {
        case Ok(updated) =>
          data := ReplaceWhere(data, key, id, updated);
          Reload();
          resolved := true;
        case Failed =>
          resolved := false;
      }
    }

    /**
     * `remove(id)`: the items whose key is `id` are dropped and the total is the
     * new length. A rejected call is caught: nothing changes.
     */
    method Remove(id: string, result: Outcome<()>)
      requires Valid()
      modifies this
      ensures result.Ok? ==> data == RemoveWhere(old(data), key, id) && total == |data|
      ensures result.Failed? ==> data == old(data) && total == old(total) && filteredData == old(filteredData)
      ensures search == old(search) && isLoading == old(isLoading)
      ensures Valid()
    {
      if result.Ok? {
        data := RemoveWhere(data, key, id);
        total := |data|;
        Reload();
      }
    }

    /**
     * `changeStatus(id, status)`: like `update`, but a rejected call is caught.
     * The device store's `unlink(deviceId)` has the same shape.
     */
    method ChangeStatus(id: string, result: Outcome<T>)
      requires Valid()
      modifies this
      ensures result.Ok? ==> data == ReplaceWhere(old(data), key, id, result.value)
      ensures result.Failed? ==> data == old(data) && filteredData == old(filteredData)
      ensures search == old(search) && isLoading == old(isLoading) && total == old(total)
      ensures Valid()
    {
      if result.Ok? {
        data := ReplaceWhere(data, key, id, result.value);
        Reload();
      }
    }
  }

  /** Creating an item and then removing its id is removing that id from the old list. */
  lemma CreateThenRemove<T>(items: seq<T>, key: T -> string, created: T)
    ensures RemoveWhere([created] + items, key, key(created)) == RemoveWhere(items, key, key(created))
  {
    assert ([created] + items)[1..] == items;
  }

  /** Removing an id no item carries keeps the list. */
  lemma RemoveAbsent<T>(items: seq<T>, key: T -> string, id: string)
    requires forall i :: 0 <= i < |items| ==> key(items[i]) != id
    ensures RemoveWhere(items, key, id) == items
  {
    FilterAll(items, KeyIsNot(key, id));
  }

  /** After an update the updated item sits wherever the id was, and nothing else moves. */
  lemma UpdatePlaces<T>(items: seq<T>, key: T -> string, id: string, v: T)
    ensures forall i :: 0 <= i < |items| && key(items[i]) == id ==> ReplaceWhere(items, key, id, v)[i] == v
    ensures forall i :: 0 <= i < |items| && key(items[i]) != id ==> ReplaceWhere(items, key, id, v)[i] == items[i]
  {
  }

  // ---------- the three table stores ----------

  function DeviceKey(d: Device): string { d.id }

  /** `serialNumber?.toLowerCase().includes(n) || model?.toLowerCase().includes(n)`. */
  predicate DeviceMatches(d: Device, normalized: string) {
    Includes(ToLower(d.serialNumber), normalized) || Includes(ToLower(d.model), normalized)
  }

  /** Patients and family members are keyed by their user's id. */
  function PatientKey(p: Patient): string { p.user.id }

  /** `fullname?.toLowerCase().includes(n) || email?.toLowerCase().includes(n)`; a missing name never matches. */
  predicate UserMatches(u: User, normalized: string) {
    (u.fullname.Some? && Includes(ToLower(u.fullname.value), normalized)) || Includes(ToLower(u.email), normalized)
  }

  predicate PatientMatches(p: Patient, normalized: string) { UserMatches(p.user, normalized) }

  function FamilyKey(f: Family): string { f.user.id }

  predicate FamilyMatches(f: Family, normalized: string) { UserMatches(f.user, normalized) }

  /** An empty search shows every device. */
  lemma DeviceSearchEmpty(items: seq<Device>)
    ensures SearchResult(items, DeviceMatches, "") == items
  {
    forall i | 0 <= i < |items| ensures MatchesTerm(DeviceMatches, ToLower(""))(items[i]) {
      IncludesEmpty(ToLower(items[i].serialNumber));
    }
    FilterAll(items, MatchesTerm(DeviceMatches, ToLower("")));
  }

  /** An empty search shows every patient, named or not (the e-mail always matches). */
  lemma PatientSearchEmpty(items: seq<Patient>)
    ensures SearchResult(items, PatientMatches, "") == items
  {
    var empty := ToLower("");
    assert empty == "";
    forall i | 0 <= i < |items| ensures MatchesTerm(PatientMatches, empty)(items[i]) {
      IncludesEmpty(ToLower(items[i].user.email));
      assert PatientMatches(items[i], empty);
    }
    FilterAll(items, MatchesTerm(PatientMatches, empty));
  }

  /** A patient without a name is found by its e-mail only. */
  lemma UnnamedPatientByEmail(p: Patient, term: string)
    requires p.user.fullname.None?
    ensures p in SearchResult([p], PatientMatches, term) <==> Includes(ToLower(p.user.email), ToLower(term))
  {
    SearchSpec([p], PatientMatches, term);
  }

  /** `userDeviceStore`: devices keyed by id, searched by serial number and model. */
  method NewDeviceStore() returns (st: EntityStore<Device>)
    ensures fresh(st) && st.key == DeviceKey && st.matches == DeviceMatches
    ensures st.data == [] && st.filteredData == [] && st.search == "" && !st.isLoading && st.total == 0
    ensures st.Valid()
  {
    st := new EntityStore(DeviceKey, DeviceMatches);
  }

  /** `userPatientStore`: patients keyed by their user's id, searched by name and e-mail. */
  method NewPatientStore() returns (st: EntityStore<Patient>)
    ensures fresh(st) && st.key == PatientKey && st.matches == PatientMatches
    ensures st.data == [] && st.filteredData == [] && st.search == "" && !st.isLoading && st.total == 0
    ensures st.Valid()
  {
    st := new EntityStore(PatientKey, PatientMatches);
  }

  /** `userFamilyStore`: family members keyed by their user's id, searched by name and e-mail. */
  method NewFamilyStore() returns (st: EntityStore<Family>)
    ensures fresh(st) && st.key == FamilyKey && st.matches == FamilyMatches
    ensures st.data == [] && st.filteredData == [] && st.search == "" && !st.isLoading && st.total == 0
    ensures st.Valid()
  {
    st := new EntityStore(FamilyKey, FamilyMatches);
  }

  /**
   * `unlink(deviceId)`: the device the service returns replaces the devices
   * with that id (its patient `?? null` is `None` here either way); a rejected
   * call is caught.
   */
  method Unlink(st: EntityStore<Device>, deviceId: string, result: Outcome<Device>)
    requires st.Valid()
    modifies st
    ensures result.Ok? ==> st.data == ReplaceWhere(old(st.data), st.key, deviceId, result.value)
    ensures result.Failed? ==> st.data == old(st.data) && st.filteredData == old(st.filteredData)
    ensures st.search == old(st.search) && st.isLoading == old(st.isLoading) && st.total == old(st.total)
    ensures st.Valid()
  {
    st.ChangeStatus(deviceId, result);
  }

  // ---------- the sessions of one patient ----------

  /** `sessionStore`: the sessions of the patient last loaded. */
  class SessionStore {
    var sessions: seq<Session>
    var isLoading: bool

    constructor()
      ensures sessions == [] && !isLoading
    {
      sessions := [];
      isLoading := false;
    }

    /** `fetchByPatient(patientId)`: the sessions the service lists, or the old ones if it fails. */
    method FetchByPatient(result: Outcome<seq<Session>>)
      modifies this
      ensures result.Ok? ==> sessions == result.value
      ensures result.Failed? ==> sessions == old(sessions)
      ensures !isLoading
    {
      isLoading := true;
      if result.Ok? {
        sessions := result.value;
      }
      isLoading := false;
    }

    /** `getSession(id)`: the first session with that id, if any. */
    function GetSession(id: string): (r: Option<Session>)
      reads this
      ensures r.None? <==> forall i :: 0 <= i < |sessions| ==> sessions[i].id != id
      ensures r.Some? ==> r.value in sessions && r.value.id == id
      ensures r.Some? ==> exists i :: 0 <= i < |sessions| && sessions[i] == r.value
                                      && forall j :: 0 <= j < i ==> sessions[j].id != id
    {
      FindFirst(sessions, SessionId, id)
    }

    /** `clear()`: no sessions. */
    method Clear()
      modifies this
      ensures sessions == [] && isLoading == old(isLoading)
    {
      sessions := [];
    }
  }
}
