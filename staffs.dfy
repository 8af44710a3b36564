/**
 * The employee ("staff") collection: an ordered list of employee records with
 * integer ids, keyed for uniqueness on `name`, and the handlers that list, look
 * up, insert, update and delete records of it. It mirrors the animal
 * collection, except that an update may also overwrite the id.
 */
module Staffs {
  import opened Wrappers
  import opened Collection

  /** The schedule is stored and returned as given; its structure is never inspected. */
  type Schedule = string

  datatype Staff = Staff(
    id: int,
    name: string,
    email: string,
    phoneNumber: string,
    role: string,
    schedule: Option<Schedule>)

  /**
   * A request body as a JSON object: each recognised key with its value when the
   * request supplies it, and the keys the handlers ignore (which still make the body non-empty).
   * `id` is read only by an update; an insert ignores it.
   */
  datatype StaffPayload = StaffPayload(
    id: Option<int>,
    name: Option<string>,
    email: Option<string>,
    phoneNumber: Option<string>,
    role: Option<string>,
    schedule: Option<Schedule>,
    otherKeys: set<string>)

  /** The JSON keys the employee handlers read. */
  const StaffKeys: set<string> := {"id", "name", "email", "phone_number", "role", "schedule"}

  /** A payload that describes a real JSON object: an ignored key is never one the handlers read. */
  type StaffBody = p: StaffPayload | p.otherKeys !! StaffKeys
    witness StaffPayload(None, None, None, None, None, None, {})

  /** Python's truthiness of `request.json`: a body is there and is not the empty object. */
  predicate Supplied(body: Option<StaffBody>) {
    body.Some? &&
    (body.value.id.Some? || body.value.name.Some? || body.value.email.Some? ||
     body.value.phoneNumber.Some? || body.value.role.Some? || body.value.schedule.Some? ||
     body.value.otherKeys != {})
  }

  /** An insert is refused unless the body is there and holds 'name'. */
  predicate LacksName(body: Option<StaffBody>) {
    body.None? || body.value.name.None?
  }

  /** The ids of the records, in collection order. */
  function Ids(staffs: seq<Staff>): (r: seq<int>)
    ensures |r| == |staffs|
    ensures forall i :: 0 <= i < |staffs| ==> r[i] == staffs[i].id
  {
    seq(|staffs|, i requires 0 <= i < |staffs| => staffs[i].id)
  }

  /** Position of the first record whose id is `id`. */
  function IndexOf(staffs: seq<Staff>, id: int): (r: Option<nat>)
    ensures r.Some? ==> r.value < |staffs| && staffs[r.value].id == id
    ensures r.Some? ==> forall j :: 0 <= j < r.value ==> staffs[j].id != id
    ensures r.None? <==> forall j :: 0 <= j < |staffs| ==> staffs[j].id != id
  {
    var ids := Ids(staffs);
    var r := FirstIndex(ids, id);
    assert r.None? ==> forall j :: 0 <= j < |staffs| ==> ids[j] != id;
    assert (forall j :: 0 <= j < |staffs| ==> staffs[j].id != id) ==> id !in ids;
    r
  }

  /** Some existing record already has this name. */
  predicate HasName(staffs: seq<Staff>, name: string) {
    exists j :: 0 <= j < |staffs| && staffs[j].name == name
  }

  /** The record an update leaves behind: each field, the id included, from the payload when supplied, else unchanged. */
  function Patch(s: Staff, p: StaffPayload): (r: Staff) {
    s.(id := p.id.GetOr(s.id),
       name := p.name.GetOr(s.name),
       email := p.email.GetOr(s.email),
       phoneNumber := p.phoneNumber.GetOr(s.phoneNumber),
       role := p.role.GetOr(s.role),
       schedule := if p.schedule.Some? then p.schedule else s.schedule)
  }

  /** Applying the same update twice is the same as applying it once. */
  lemma PatchIdempotent(s: Staff, p: StaffPayload)
    ensures Patch(Patch(s, p), p) == Patch(s, p)
  {
  }

  /** A body holding none of the recognised keys (only ignored ones) leaves the record as it was. */
  lemma PatchWithoutFieldsIsIdentity(s: Staff, p: StaffPayload)
    requires p.id.None? && p.name.None? && p.email.None? && p.phoneNumber.None?
    requires p.role.None? && p.schedule.None?
    ensures Patch(s, p) == s
  {
  }

  /** A field the body supplies wins (the id too); every other field keeps its previous value. */
  lemma PatchFields(s: Staff, p: StaffPayload)
    ensures var r := Patch(s, p);
      && (p.id.Some? ==> r.id == p.id.value) && (p.id.None? ==> r.id == s.id)
      && (p.name.Some? ==> r.name == p.name.value) && (p.name.None? ==> r.name == s.name)
      && (p.email.Some? ==> r.email == p.email.value) && (p.email.None? ==> r.email == s.email)
      && (p.phoneNumber.Some? ==> r.phoneNumber == p.phoneNumber.value)
      && (p.phoneNumber.None? ==> r.phoneNumber == s.phoneNumber)
      && (p.role.Some? ==> r.role == p.role.value) && (p.role.None? ==> r.role == s.role)
      && (p.schedule.Some? ==> r.schedule == p.schedule) && (p.schedule.None? ==> r.schedule == s.schedule)
  {
  }

  lemma IdsAppend(staffs: seq<Staff>, s: Staff)
    ensures Ids(staffs + [s]) == Ids(staffs) + [s.id]
  {
    assert forall i :: 0 <= i < |staffs| ==> (staffs + [s])[i] == staffs[i];
  }

  lemma IdsRemoveAt(staffs: seq<Staff>, k: nat)
    requires k < |staffs|
    ensures Ids(RemoveAt(staffs, k)) == RemoveAt(Ids(staffs), k)
  {
  }

  lemma IdsSet(staffs: seq<Staff>, k: nat, s: Staff)
    requires k < |staffs|
    ensures Ids(staffs[k := s]) == Ids(staffs)[k := s.id]
  {
  }

  /** Inserting into a collection with increasing ids: ids stay increasing and a lookup finds the new record. */
  lemma InsertThenLookup(staffs: seq<Staff>, s: Staff)
    requires Increasing(Ids(staffs)) && s.id == NextId(Ids(staffs))
    ensures Increasing(Ids(staffs + [s]))
    ensures IndexOf(staffs + [s], s.id) == Some(|staffs|)
  {
    IdsAppend(staffs, s);
    AppendNextIdIncreasing(Ids(staffs));
    NextIdIsFresh(Ids(staffs));
    FirstIndexAfterAppend(Ids(staffs), s.id);
  }

  /** Deleting from a collection with unique ids: ids stay unique and the deleted id is gone. */
  lemma DeleteUniqueThenLookup(staffs: seq<Staff>, k: nat)
    requires Unique(Ids(staffs)) && k < |staffs|
    ensures Unique(Ids(RemoveAt(staffs, k)))
    ensures IndexOf(RemoveAt(staffs, k), staffs[k].id).None?
  {
    IdsRemoveAt(staffs, k);
    RemoveAtUnique(Ids(staffs), k);
    RemoveAtUniqueAbsent(Ids(staffs), k);
    assert Ids(staffs)[k] == staffs[k].id;
  }

  /** Deleting from a collection with increasing ids: ids stay increasing and the deleted id is gone. */
  lemma DeleteThenLookup(staffs: seq<Staff>, k: nat)
    requires Increasing(Ids(staffs)) && k < |staffs|
    ensures Increasing(Ids(RemoveAt(staffs, k)))
    ensures IndexOf(RemoveAt(staffs, k), staffs[k].id).None?
  {
    IdsRemoveAt(staffs, k);
    RemoveAtIncreasing(Ids(staffs), k);
    IncreasingIsUnique(Ids(staffs));
    RemoveAtUniqueAbsent(Ids(staffs), k);
    assert Ids(staffs)[k] == staffs[k].id;
  }

  /** An update that leaves the id alone keeps increasing ids increasing. */
  lemma UpdateKeepsIncreasing(staffs: seq<Staff>, k: nat, p: StaffPayload)
    requires Increasing(Ids(staffs)) && k < |staffs|
    requires p.id.None? || p.id == Some(staffs[k].id)
    ensures Increasing(Ids(staffs[k := Patch(staffs[k], p)]))
  {
    IdsSet(staffs, k, Patch(staffs[k], p));
    assert Ids(staffs)[k := staffs[k].id] == Ids(staffs);
  }

  /**
   * An update that overwrites the id can break the id discipline: with employees 1 and 2,
   * moving employee 2 to id 0 makes the next insert reuse id 1, which employee 1 still holds.
   */
  lemma IdOverwriteBreaksIdAssignment()
    ensures var before := [Staff(1, "Ani", "", "Unknown", "", None), Staff(2, "Budi", "", "Unknown", "", None)];
      var p := StaffPayload(Some(0), None, None, None, None, None, {});
      var after := before[1 := Patch(before[1], p)];
      && Increasing(Ids(before))
      && !Increasing(Ids(after))
      && NextId(Ids(after)) == after[0].id
  {
    var before := [Staff(1, "Ani", "", "Unknown", "", None), Staff(2, "Budi", "", "Unknown", "", None)];
    var after := before[1 := Patch(before[1], StaffPayload(Some(0), None, None, None, None, None, {}))];
    assert Ids(after)[0] == 1 && Ids(after)[1] == 0;
  }

  /**
   * In general: with increasing ids and at least two employees, moving the last employee to
   * one below the first id breaks the order, and the next insert gets the first employee's id.
   */
  lemma IdOverwriteBelowFirstReusesId(staffs: seq<Staff>, p: StaffPayload)
    requires Increasing(Ids(staffs)) && |staffs| >= 2
    requires p.id == Some(staffs[0].id - 1)
    ensures var after := staffs[|staffs| - 1 := Patch(staffs[|staffs| - 1], p)];
      && !Increasing(Ids(after))
      && NextId(Ids(after)) == after[0].id
  {
    var last := |staffs| - 1;
    var after := staffs[last := Patch(staffs[last], p)];
    assert Ids(after)[0] == staffs[0].id && Ids(after)[last] == staffs[0].id - 1;
  }

  /** The employee collection as loaded from storage; a "save" is the state the handler leaves. */
  class StaffStore {
    var staffs: seq<Staff>

    constructor (loaded: seq<Staff>)
      ensures staffs == loaded
    {
      staffs := loaded;
    }

    /** GET /employees: the whole collection in storage order. */
    function GetAll(): (r: seq<Staff>)
      reads this
      ensures r == staffs
    {
      staffs
    }

    /** GET /employees/<id>: the first record with that id, or NotFound. */
    function GetById(id: nat): (r: Result<Staff>)
      reads this
      ensures r.Ok? ==> r.value in staffs && r.value.id == id
      ensures r.Ok? ==> exists k :: 0 <= k < |staffs| && staffs[k] == r.value &&
                         forall j :: 0 <= j < k ==> staffs[j].id != id
      ensures r.Err? ==> r.error == NotFound
      ensures r.Err? <==> forall j :: 0 <= j < |staffs| ==> staffs[j].id != id
    {
      match IndexOf(staffs, id)
      case Some(k) => Ok(staffs[k])
      case None => Err(NotFound)
    }

    /** The duplicate scan of an insert: does some record already have this name? */
    method NameTaken(name: string) returns (taken: bool)
      ensures taken <==> HasName(staffs, name)
    {
      for i := 0 to |staffs|
        invariant forall j :: 0 <= j < i ==> staffs[j].name != name
      {
        if staffs[i].name == name {
          return true;
        }
      }
      return false;
    }

    /** POST /employees */
    method Add(body: Option<StaffBody>) returns (r: Result<Staff>)
      modifies this
      ensures r == Err(Validation) <==> LacksName(body)
      ensures r == Err(Duplicate) <==>
                !LacksName(body) && HasName(old(staffs), body.value.name.value)
      ensures r.Ok? <==> !LacksName(body) && !HasName(old(staffs), body.value.name.value)
      ensures r.Err? ==> staffs == old(staffs)
      ensures r.Ok? ==> !LacksName(body) && staffs == old(staffs) + [r.value]
      ensures r.Ok? ==>
                && r.value.id == NextId(Ids(old(staffs)))
                && r.value.name == body.value.name.value
                && r.value.email == body.value.email.GetOr("")
                && r.value.phoneNumber == body.value.phoneNumber.GetOr("Unknown")
                && r.value.role == body.value.role.GetOr("")
                && r.value.schedule == body.value.schedule
      ensures Increasing(Ids(old(staffs))) ==> Increasing(Ids(staffs))
      ensures r.Ok? && Increasing(Ids(old(staffs))) && r.value.id >= 0 ==> GetById(r.value.id) == Ok(r.value)
    {
      if LacksName(body) {
        return Err(Validation);
      }
      var p := body.value;
      var name := p.name.value;
      var taken := NameTaken(name);
      if taken {
        return Err(Duplicate);
      }
      var s := Staff(
        NextId(Ids(staffs)),
        name,
        p.email.GetOr(""),
        p.phoneNumber.GetOr("Unknown"),
        p.role.GetOr(""),
        p.schedule);
      if Increasing(Ids(staffs)) {
        InsertThenLookup(staffs, s);
      }
      staffs := staffs + [s];
      r := Ok(s);
    }

    /** PUT /employees/<id> */
    method Update(id: nat, body: Option<StaffBody>) returns (r: Result<Staff>)
      modifies this
      ensures r == Err(NotFound) <==> IndexOf(old(staffs), id).None?
      ensures r == Err(Validation) <==> IndexOf(old(staffs), id).Some? && !Supplied(body)
      ensures r.Ok? <==> IndexOf(old(staffs), id).Some? && Supplied(body)
      ensures r.Err? ==> staffs == old(staffs)
      ensures r.Ok? ==>
                && Supplied(body)
                && IndexOf(old(staffs), id).Some?
                && var k := IndexOf(old(staffs), id).value;
                && r.value == Patch(old(staffs)[k], body.value)
                && r.value.id == body.value.id.GetOr(id)
                && staffs == old(staffs)[k := r.value]
      ensures Increasing(Ids(old(staffs))) && (r.Ok? ==> r.value.id == id) ==> Increasing(Ids(staffs))
    {
      var found := IndexOf(staffs, id);
      if found.None? {
        return Err(NotFound);
      }
      if !Supplied(body) {
        return Err(Validation);
      }
      var k := found.value;
      var p := body.value;
      var s := staffs[k];
      s := s.(id := p.id.GetOr(s.id));
      s := s.(name := p.name.GetOr(s.name));
      s := s.(email := p.email.GetOr(s.email));
      s := s.(phoneNumber := p.phoneNumber.GetOr(s.phoneNumber));
      s := s.(role := p.role.GetOr(s.role));
      s := s.(schedule := if p.schedule.Some? then p.schedule else s.schedule);
      if Increasing(Ids(staffs)) && s.id == id {
        UpdateKeepsIncreasing(staffs, k, p);
      }
      staffs := staffs[k := s];
      r := Ok(s);
    }

    /** DELETE /employees/<id> */
    method Delete(id: nat) returns (r: Result<()>)
      modifies this
      ensures r == Err(NotFound) <==> IndexOf(old(staffs), id).None?
      ensures r.Err? ==> r.error == NotFound && staffs == old(staffs)
      ensures r.Ok? ==>
                && IndexOf(old(staffs), id).Some?
                && staffs == RemoveAt(old(staffs), IndexOf(old(staffs), id).value)
      ensures Increasing(Ids(old(staffs))) ==> Increasing(Ids(staffs))
      ensures Unique(Ids(old(staffs))) ==> Unique(Ids(staffs))
      ensures r.Ok? && Unique(Ids(old(staffs))) ==> GetById(id) == Err(NotFound)
    {
      var found := IndexOf(staffs, id);
      if found.None? {
        return Err(NotFound);
      }
      var target := staffs[found.value];
      // list.remove drops the first element EQUAL to the found record; no earlier one is.
      var i := 0;
      while staffs[i] != target
        invariant 0 <= i <= found.value
        invariant forall j :: 0 <= j < i ==> staffs[j] != target
        decreases found.value - i
      {
        i := i + 1;
      }
      if Increasing(Ids(staffs)) {
        DeleteThenLookup(staffs, i);
      }
      if Unique(Ids(staffs)) {
        DeleteUniqueThenLookup(staffs, i);
      }
      staffs := RemoveAt(staffs, i);
      r := Ok(());
    }
  }
}
