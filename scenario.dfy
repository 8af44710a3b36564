/**
 * A client of the animal store showing what callers can conclude from the
 * handlers' contracts alone: starting from an empty collection, two inserts and
 * a rejected duplicate; then a delete, a failed lookup and a second delete.
 */
module Scenario {
  import opened Wrappers
  import opened Collection
  import opened Animals

  method InsertLionAndTiger() returns (store: AnimalStore)
    ensures fresh(store)
    ensures store.animals == [Animal(1, "Lion", 0, "Unknown", ""), Animal(2, "Tiger", 3, "Unknown", "")]
  {
    store := new AnimalStore([]);
    assert Ids([]) == [];
    var lion := store.Add(Some(AnimalPayload(Some("Lion"), None, None, None, {})));
    assert lion == Ok(Animal(1, "Lion", 0, "Unknown", ""));

    var again := store.Add(Some(AnimalPayload(Some("Lion"), None, None, None, {})));
    assert store.animals[0].species == "Lion";
    assert again == Err(Duplicate);
    assert |store.GetAll()| == 1;

    assert Ids(store.animals) == [1];
    assert !HasSpecies(store.animals, "Tiger");
    var tiger := store.Add(Some(AnimalPayload(Some("Tiger"), Some(3), None, None, {})));
    assert tiger == Ok(Animal(2, "Tiger", 3, "Unknown", ""));
  }

  method DeleteLion() returns (store: AnimalStore)
    ensures store.GetAll() == [Animal(2, "Tiger", 3, "Unknown", "")]
    ensures store.GetById(1) == Err(NotFound)
  {
    store := InsertLionAndTiger();
    assert Ids(store.animals) == [1, 2];
    assert IndexOf(store.animals, 1) == Some(0);
    var deleted := store.Delete(1);
    assert deleted.Ok?;
    assert store.GetAll() == [Animal(2, "Tiger", 3, "Unknown", "")];
    assert store.GetById(1) == Err(NotFound);

    var missing := store.Delete(1);
    assert missing == Err(NotFound);
  }
}
