/**
 * The animal collection: an ordered list of animal records with integer ids,
 * keyed for uniqueness on `species`, and the handlers that list, look up,
 * insert, update and delete records of it.
 */
module Animals {
  import opened Wrappers
  import opened Collection

  datatype Animal = Animal(
    id: int,
    species: string,
    age: int,
    gender: string,
    specialRequirements: string)

  /**
   * A request body as a JSON object: each recognised key with its value when the
   * request supplies it, and the keys the handlers ignore (which still make the body non-empty).
   */
  datatype AnimalPayload = AnimalPayload(
    species: Option<string>,
    age: Option<int>,
    gender: Option<string>,
    specialRequirements: Option<string>,
    otherKeys: set<string>)

  /** The JSON keys the animal handlers read. */
  const AnimalKeys: set<string> := {"species", "age", "gender", "special_requirements"}

  /** A payload that describes a real JSON object: an ignored key is never one the handlers read. */
  type AnimalBody = p: AnimalPayload | p.otherKeys !! AnimalKeys
    witness AnimalPayload(None, None, None, None, {})

  /** Python's truthiness of `request.json`: a body is there and is not the empty object. */
  predicate Supplied(body: Option<AnimalBody>) {
    body.Some? &&
    (body.value.species.Some? || body.value.age.Some? || body.value.gender.Some? ||
     body.value.specialRequirements.Some? || body.value.otherKeys != {})
  }

  /** An insert is refused unless the body is there and holds 'species'. */
  predicate LacksSpecies(body: Option<AnimalBody>) {
    body.None? || body.value.species.None?
  }

  /** The ids of the records, in collection order. */
  function Ids(animals: seq<Animal>): (r: seq<int>)
    ensures |r| == |animals|
    ensures forall i :: 0 <= i < |animals| ==> r[i] == animals[i].id
  {
    seq(|animals|, i requires 0 <= i < |animals| => animals[i].id)
  }

  /** Position of the first record whose id is `id`. */
  function IndexOf(animals: seq<Animal>, id: int): (r: Option<nat>)
    ensures r.Some? ==> r.value < |animals| && animals[r.value].id == id
    ensures r.Some? ==> forall j :: 0 <= j < r.value ==> animals[j].id != id
    ensures r.None? <==> forall j :: 0 <= j < |animals| ==> animals[j].id != id
  {
    var ids := Ids(animals);
    var r := FirstIndex(ids, id);
    assert r.None? ==> forall j :: 0 <= j < |animals| ==> ids[j] != id;
    assert (forall j :: 0 <= j < |animals| ==> animals[j].id != id) ==> id !in ids;
    r
  }

  /** Some existing record already has this species. */
  predicate HasSpecies(animals: seq<Animal>, species: string) {
    exists j :: 0 <= j < |animals| && animals[j].species == species
  }

  /** The record an update leaves behind: each field from the payload when supplied, else unchanged. */
  function Patch(a: Animal, p: AnimalPayload): (r: Animal) {
    a.(species := p.species.GetOr(a.species),
       age := p.age.GetOr(a.age),
       gender := p.gender.GetOr(a.gender),
       specialRequirements := p.specialRequirements.GetOr(a.specialRequirements))
  }

  /** An animal update never changes the id. */
  lemma PatchKeepsId(a: Animal, p: AnimalPayload)
    ensures Patch(a, p).id == a.id
  {
  }

  /** Applying the same update twice is the same as applying it once. */
  lemma PatchIdempotent(a: Animal, p: AnimalPayload)
    ensures Patch(Patch(a, p), p) == Patch(a, p)
  {
  }

  /** A body holding none of the recognised keys (only ignored ones) leaves the record as it was. */
  lemma PatchWithoutFieldsIsIdentity(a: Animal, p: AnimalPayload)
    requires p.species.None? && p.age.None? && p.gender.None? && p.specialRequirements.None?
    ensures Patch(a, p) == a
  {
  }

  /** A field the body supplies wins; every other field keeps its previous value. */
  lemma PatchFields(a: Animal, p: AnimalPayload)
    ensures var r := Patch(a, p);
      && (p.species.Some? ==> r.species == p.species.value) && (p.species.None? ==> r.species == a.species)
      && (p.age.Some? ==> r.age == p.age.value) && (p.age.None? ==> r.age == a.age)
      && (p.gender.Some? ==> r.gender == p.gender.value) && (p.gender.None? ==> r.gender == a.gender)
      && (p.specialRequirements.Some? ==> r.specialRequirements == p.specialRequirements.value)
      && (p.specialRequirements.None? ==> r.specialRequirements == a.specialRequirements)
  {
  }

  lemma IdsAppend(animals: seq<Animal>, a: Animal)
    ensures Ids(animals + [a]) == Ids(animals) + [a.id]
  {
    assert forall i :: 0 <= i < |animals| ==> (animals + [a])[i] == animals[i];
  }

  lemma IdsRemoveAt(animals: seq<Animal>, k: nat)
    requires k < |animals|
    ensures Ids(RemoveAt(animals, k)) == RemoveAt(Ids(animals), k)
  {
  }

  lemma IdsSet(animals: seq<Animal>, k: nat, a: Animal)
    requires k < |animals|
    ensures Ids(animals[k := a]) == Ids(animals)[k := a.id]
  {
  }

  /** Inserting into a collection with increasing ids: ids stay increasing and a lookup finds the new record. */
  lemma InsertThenLookup(animals: seq<Animal>, a: Animal)
    requires Increasing(Ids(animals)) && a.id == NextId(Ids(animals))
    ensures Increasing(Ids(animals + [a]))
    ensures IndexOf(animals + [a], a.id) == Some(|animals|)
  {
    IdsAppend(animals, a);
    AppendNextIdIncreasing(Ids(animals));
    NextIdIsFresh(Ids(animals));
    FirstIndexAfterAppend(Ids(animals), a.id);
  }

  /** Deleting from a collection with unique ids: ids stay unique and the deleted id is gone. */
  lemma DeleteUniqueThenLookup(animals: seq<Animal>, k: nat)
    requires Unique(Ids(animals)) && k < |animals|
    ensures Unique(Ids(RemoveAt(animals, k)))
    ensures IndexOf(RemoveAt(animals, k), animals[k].id).None?
  {
    IdsRemoveAt(animals, k);
    RemoveAtUnique(Ids(animals), k);
    RemoveAtUniqueAbsent(Ids(animals), k);
    assert Ids(animals)[k] == animals[k].id;
  }

  /** Deleting from a collection with increasing ids: ids stay increasing and the deleted id is gone. */
  lemma DeleteThenLookup(animals: seq<Animal>, k: nat)
    requires Increasing(Ids(animals)) && k < |animals|
    ensures Increasing(Ids(RemoveAt(animals, k)))
    ensures IndexOf(RemoveAt(animals, k), animals[k].id).None?
  {
    IdsRemoveAt(animals, k);
    RemoveAtIncreasing(Ids(animals), k);
    IncreasingIsUnique(Ids(animals));
    RemoveAtUniqueAbsent(Ids(animals), k);
    assert Ids(animals)[k] == animals[k].id;
  }

  /** Updating one record in a collection with increasing ids keeps them increasing. */
  lemma UpdateKeepsIncreasing(animals: seq<Animal>, k: nat, p: AnimalPayload)
    requires Increasing(Ids(animals)) && k < |animals|
    ensures Increasing(Ids(animals[k := Patch(animals[k], p)]))
  {
    IdsSet(animals, k, Patch(animals[k], p));
    assert Ids(animals)[k := animals[k].id] == Ids(animals);
  }

  /** The animal collection as loaded from storage; a "save" is the state the handler leaves. */
  class AnimalStore {
    var animals: seq<Animal>

    constructor (loaded: seq<Animal>)
      ensures animals == loaded
    {
      animals := loaded;
    }

    /** GET /animals: the whole collection in storage order. */
    function GetAll(): (r: seq<Animal>)
      reads this
      ensures r == animals
    {
      animals
    }

    /** GET /animals/<id>: the first record with that id, or NotFound. */
    function GetById(id: nat): (r: Result<Animal>)
      reads this
      ensures r.Ok? ==> r.value in animals && r.value.id == id
      ensures r.Ok? ==> exists k :: 0 <= k < |animals| && animals[k] == r.value &&
                         forall j :: 0 <= j < k ==> animals[j].id != id
      ensures r.Err? ==> r.error == NotFound
      ensures r.Err? <==> forall j :: 0 <= j < |animals| ==> animals[j].id != id
    {
      match IndexOf(animals, id)
      case Some(k) => Ok(animals[k])
      case None => Err(NotFound)
    }

    /** The duplicate scan of an insert: does some record already have this species? */
    method SpeciesTaken(species: string) returns (taken: bool)
      ensures taken <==> HasSpecies(animals, species)
    {
      for i := 0 to |animals|
        invariant forall j :: 0 <= j < i ==> animals[j].species != species
      {
        if animals[i].species == species {
          return true;
        }
      }
      return false;
    }

    /** POST /animals */
    method Add(body: Option<AnimalBody>) returns (r: Result<Animal>)
      modifies this
      ensures r == Err(Validation) <==> LacksSpecies(body)
      ensures r == Err(Duplicate) <==>
                !LacksSpecies(body) && HasSpecies(old(animals), body.value.species.value)
      ensures r.Ok? <==> !LacksSpecies(body) && !HasSpecies(old(animals), body.value.species.value)
      ensures r.Err? ==> animals == old(animals)
      ensures r.Ok? ==> !LacksSpecies(body) && animals == old(animals) + [r.value]
      ensures r.Ok? ==>
                && r.value.id == NextId(Ids(old(animals)))
                && r.value.species == body.value.species.value
                && r.value.age == body.value.age.GetOr(0)
                && r.value.gender == body.value.gender.GetOr("Unknown")
                && r.value.specialRequirements == body.value.specialRequirements.GetOr("")
      ensures Increasing(Ids(old(animals))) ==> Increasing(Ids(animals))
      ensures r.Ok? && Increasing(Ids(old(animals))) && r.value.id >= 0 ==> GetById(r.value.id) == Ok(r.value)
    {
      if LacksSpecies(body) {
        return Err(Validation);
      }
      var p := body.value;
      var species := p.species.value;
      var taken := SpeciesTaken(species);
      if taken {
        return Err(Duplicate);
      }
      var a := Animal(
        NextId(Ids(animals)),
        species,
        p.age.GetOr(0),
        p.gender.GetOr("Unknown"),
        p.specialRequirements.GetOr(""));
      if Increasing(Ids(animals)) {
        InsertThenLookup(animals, a);
      }
      animals := animals + [a];
      r := Ok(a);
    }

    /** PUT /animals/<id> */
    method Update(id: nat, body: Option<AnimalBody>) returns (r: Result<Animal>)
      modifies this
      ensures r == Err(NotFound) <==> IndexOf(old(animals), id).None?
      ensures r == Err(Validation) <==> IndexOf(old(animals), id).Some? && !Supplied(body)
      ensures r.Ok? <==> IndexOf(old(animals), id).Some? && Supplied(body)
      ensures r.Err? ==> animals == old(animals)
      ensures r.Ok? ==>
                && Supplied(body)
                && IndexOf(old(animals), id).Some?
                && var k := IndexOf(old(animals), id).value;
                && r.value == Patch(old(animals)[k], body.value)
                && r.value.id == id
                && animals == old(animals)[k := r.value]
      ensures Increasing(Ids(old(animals))) ==> Increasing(Ids(animals))
    {
      var found := IndexOf(animals, id);
      if found.None? {
        return Err(NotFound);
      }
      if !Supplied(body) {
        return Err(Validation);
      }
      var k := found.value;
      var p := body.value;
      var a := animals[k];
      a := a.(species := p.species.GetOr(a.species));
      a := a.(age := p.age.GetOr(a.age));
      a := a.(gender := p.gender.GetOr(a.gender));
      a := a.(specialRequirements := p.specialRequirements.GetOr(a.specialRequirements));
      if Increasing(Ids(animals)) {
        UpdateKeepsIncreasing(animals, k, p);
      }
      animals := animals[k := a];
      r := Ok(a);
    }

    /** DELETE /animals/<id> */
    method Delete(id: nat) returns (r: Result<()>)
      modifies this
      ensures r == Err(NotFound) <==> IndexOf(old(animals), id).None?
      ensures r.Err? ==> r.error == NotFound && animals == old(animals)
      ensures r.Ok? ==>
                && IndexOf(old(animals), id).Some?
                && animals == RemoveAt(old(animals), IndexOf(old(animals), id).value)
      ensures Increasing(Ids(old(animals))) ==> Increasing(Ids(animals))
      ensures Unique(Ids(old(animals))) ==> Unique(Ids(animals))
      ensures r.Ok? && Unique(Ids(old(animals))) ==> GetById(id) == Err(NotFound)
    {
      var found := IndexOf(animals, id);
      if found.None? {
        return Err(NotFound);
      }
      var target := animals[found.value];
      // list.remove drops the first element EQUAL to the found record; no earlier one is.
      var i := 0;
      while animals[i] != target
        invariant 0 <= i <= found.value
        invariant forall j :: 0 <= j < i ==> animals[j] != target
        decreases found.value - i
      {
        i := i + 1;
      }
      if Increasing(Ids(animals)) {
        DeleteThenLookup(animals, i);
      }
      if Unique(Ids(animals)) {
        DeleteUniqueThenLookup(animals, i);
      }
      animals := RemoveAt(animals, i);
      r := Ok(());
    }
  }
}
