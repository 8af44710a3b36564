# Animal and employee record stores

A model of the record-collection logic of a small Flask service that keeps two
collections, animals and employees, each as an ordered list of records with an
integer `id`. Animals are unique by `species`, employees by `name`. Every
handler loads the whole list and works on it. The insert handlers first refuse
a missing body or a missing key, before they load anything. The list is saved after
every successful insert, update or delete, even when an update changed nothing.
The model keeps only what a handler does to the list:

- `get_animals` / `get_staffs`: return the list as stored.
- `get_animal_by_id` / `get_staff_by_id`: return the first record whose id matches, or NotFound.
- `add_animal` / `add_staff`: refuse a missing body or a body without the
  required key (Validation), refuse a taken key (Duplicate), otherwise give the
  record id "last record's id + 1" (1 for an empty list), fill the defaults and
  append it.
- `update_animal` / `update_staff`: NotFound for an unknown id, then Validation
  for a missing or empty body, otherwise overwrite each field the body supplies
  and keep the others. The employee handler also overwrites `id`.
- `delete_animal` / `delete_staff`: NotFound for an unknown id, otherwise remove the record.

Layout:

- `wrappers.dfy` (`Wrappers`): the `Option` type for payload fields.
- `collection.dfy` (`Collection`): what both stores share. It holds the outcome
  type (`Ok`, or `Err` with `NotFound`, `Validation`, `Duplicate`), the
  first-match scan over ids, the next-id rule and removal at an index. It also
  holds the lemmas that inserting with the next id and removing a record keep
  ids strictly increasing, and so unique.
- `animals.dfy` (`Animals`) and `staffs.dfy` (`Staffs`): the record and
  payload datatypes, the partial update `Patch`, the lemmas that connect each
  handler to the id discipline, and a class (`AnimalStore`, `StaffStore`)
  whose field is the loaded list and whose methods are the handlers. Error
  paths leave the list unchanged, since the source then saves nothing.
- `scenario.dfy` (`Scenario`): a client that uses only the handlers' contracts.
  It inserts Lion and Tiger into an empty store, has a second Lion refused, then
  deletes Lion, fails to find it, and fails to delete it again.

A request body is modelled as a JSON object: one `Option` per recognised key,
plus the set of keys the handler ignores. Python's `not request.json` is
modelled by `Supplied`: it is false for a missing body and for `{}`, and true
for a body such as `{"foo": 1}`, which the update then accepts and which
changes nothing (`PatchWithoutFieldsIsIdentity`). The subset types
`AnimalBody` and `StaffBody` keep the ignored keys apart from the keys the
handlers read, so a payload always describes a JSON object that can exist.

The routes take the id as `<int:id>`, which matches only non-negative
integers, so the handlers take a `nat`. A record whose id is negative stays in
the list but cannot be fetched, updated or deleted. That happens when an
employee update sets a negative id, or when the file holds one. For the same
reason, `Add` promises that a lookup finds the new record only when its id is
non-negative.

The duplicate scan (a `for` loop with early return) is the method
`SpeciesTaken` / `NameTaken`. `list.remove(record)` removes the first element
EQUAL to the record found, not that object itself. `Delete` makes the same
scan, and its contract shows that the scan stops at the index the lookup found.

The id discipline holds only conditionally, because the loaded file may hold
any ids. If the ids are strictly increasing before an animal handler runs, they
are strictly increasing after it. The same holds for employees, except after
an update that changes the id. `Staffs.IdOverwriteBreaksIdAssignment`
exhibits such an update. Employees 1 and 2 exist, and employee 2 is moved to
id 0. The next insert then gets id 1, which employee 1 still holds.
`Staffs.IdOverwriteBelowFirstReusesId` states the general case. It needs
increasing ids and at least two employees. Moving the last employee to one
below the first id breaks the order, and the next insert gets the first
employee's id. Deleting depends only on unique ids, not increasing ones: a
delete keeps unique ids unique, and the deleted id is then not found. Neither
update handler re-checks the unique key either: an update may set a `species`
or `name` that another record already has.

Behaviour of the code that a reader might not expect, modelled as written:

- Ids are not always unique: the employee update can change them.
- A duplicate insert answers 200 with a message for animals and 400 for
  employees. Both are `Err(Duplicate)` here.
- A file that exists but cannot be opened makes `open` raise (main.py:9, main.py:20). One that cannot be parsed makes `json.load` raise (main.py:10, main.py:21). Nothing catches it, so the request fails with a server error (500). Loading is outside the model.

## Model

| member | source | states |
|---|---|---|
| `Collection.FirstIndex` | main.py:43 | the index returned holds the id and no earlier index does; None exactly when the id occurs nowhere |
| `Collection.IncreasingIsUnique` | main.py:61 | strictly increasing ids are pairwise distinct |
| `Collection.FirstIndexOfUnique` | main.py:43 | when ids are unique, the first match for `ids[k]` is `k` itself |
| `Collection.NextIdIsFresh` | main.py:61 | when ids increase, "last id + 1" exceeds every id present, so it is not taken |
| `Collection.AppendNextIdIncreasing` | main.py:61-67 | appending the next id keeps ids strictly increasing |
| `Collection.FirstIndexAfterAppend` | main.py:67 | after appending an id not yet present, the lookup of that id finds the last position |
| `Collection.RemoveAtIncreasing` | main.py:98 | removing one record keeps ids strictly increasing |
| `Collection.RemoveAtUniqueAbsent` | main.py:94-98 | when ids are unique, the removed record's id no longer occurs |
| `Collection.RemoveAtUnique` | main.py:98 | removing one record keeps unique ids unique |
| `Animals.IndexOf` | main.py:43 | first animal whose id matches; None exactly when no animal has that id |
| `Animals.PatchKeepsId` | main.py:82-85 | an animal update never changes the id |
| `Animals.PatchFields` | main.py:82-85 | each field takes the payload value when supplied and keeps its old value otherwise |
| `Animals.PatchIdempotent` | main.py:82-85 | repeating the same update changes nothing further |
| `Animals.PatchWithoutFieldsIsIdentity` | main.py:82-85 | a body with only ignored keys leaves the record as it was |
| `Animals.InsertThenLookup` | main.py:60-67 | with increasing ids, appending a record with the next id keeps them increasing, and a lookup of that id finds the new record |
| `Animals.DeleteUniqueThenLookup` | main.py:94-98 | with unique ids, removing a record keeps them unique, and its id can no longer be found |
| `Animals.DeleteThenLookup` | main.py:94-98 | with increasing ids, removing a record keeps them increasing, and its id can no longer be found |
| `Animals.UpdateKeepsIncreasing` | main.py:82-85 | with increasing ids, an update keeps them increasing |
| `Animals.AnimalStore.GetAll` | main.py:35-37 | the list exactly as stored, in storage order |
| `Animals.AnimalStore.GetById` | main.py:40-46 | for a non-negative id (the route's `<int:id>`): Ok with the first record having that id, or NotFound exactly when no record has it; never another error |
| `Animals.AnimalStore.SpeciesTaken` | main.py:57-59 | true exactly when some existing record has the given species |
| `Animals.AnimalStore.Add` | main.py:50-69 | Validation exactly when the body or `species` is missing; Duplicate exactly when the species is taken; both leave the list unchanged. Otherwise a record is appended with id last+1 (or 1), the given species, age 0, gender "Unknown" and special requirements "" unless supplied. Increasing ids stay increasing, and a lookup then finds the new record when its id is non-negative (the only ids a route accepts) |
| `Animals.AnimalStore.Update` | main.py:73-88 | NotFound exactly when the id is absent; Validation exactly when it is present but the body is missing or empty; both leave the list unchanged. Otherwise only the first record with that id is replaced by its patch, with the id kept. Increasing ids stay increasing |
| `Animals.AnimalStore.Delete` | main.py:92-100 | NotFound exactly when the id is absent, list unchanged. Otherwise exactly the first record with that id is removed and the others keep their order. Increasing ids stay increasing and unique ids stay unique. With unique ids, the id is then not found |
| `Staffs.IndexOf` | main.py:117 | first employee whose id matches; None exactly when no employee has that id |
| `Staffs.PatchFields` | main.py:157-162 | each field, the id included, takes the payload value when supplied and keeps its old value otherwise |
| `Staffs.PatchIdempotent` | main.py:157-162 | repeating the same update changes nothing further |
| `Staffs.PatchWithoutFieldsIsIdentity` | main.py:157-162 | a body with only ignored keys leaves the record as it was |
| `Staffs.InsertThenLookup` | main.py:134-142 | with increasing ids, appending a record with the next id keeps them increasing, and a lookup of that id finds the new record |
| `Staffs.DeleteUniqueThenLookup` | main.py:171-175 | with unique ids, removing a record keeps them unique, and its id can no longer be found. Such ids occur after an employee update that changes an id without breaking uniqueness |
| `Staffs.DeleteThenLookup` | main.py:171-175 | with increasing ids, removing a record keeps them increasing, and its id can no longer be found |
| `Staffs.UpdateKeepsIncreasing` | main.py:157-162 | with increasing ids, an update that leaves the id alone keeps them increasing |
| `Staffs.IdOverwriteBreaksIdAssignment` | main.py:157 | one example: with employees 1 and 2, moving employee 2 to id 0 breaks the order, and the next insert gets id 1, which employee 1 still holds |
| `Staffs.IdOverwriteBelowFirstReusesId` | main.py:157 | with increasing ids and at least two employees, moving the last employee to one below the first id breaks the order, and the next insert gets the id the first employee still holds |
| `Staffs.StaffStore.GetAll` | main.py:109-111 | the list exactly as stored, in storage order |
| `Staffs.StaffStore.GetById` | main.py:114-120 | for a non-negative id (the route's `<int:id>`): Ok with the first record having that id, or NotFound exactly when no record has it; never another error |
| `Staffs.StaffStore.NameTaken` | main.py:131-133 | true exactly when some existing record has the given name |
| `Staffs.StaffStore.Add` | main.py:124-144 | Validation exactly when the body or `name` is missing; Duplicate exactly when the name is taken; both leave the list unchanged. Otherwise a record is appended with id last+1 (or 1), the given name, email "", phone number "Unknown", role "" and the schedule as given (absent if not). Increasing ids stay increasing, and a lookup then finds the new record when its id is non-negative (the only ids a route accepts) |
| `Staffs.StaffStore.Update` | main.py:148-165 | NotFound exactly when the id is absent; Validation exactly when it is present but the body is missing or empty; both leave the list unchanged. Otherwise only the first record with that id is replaced by its patch, whose id is the supplied one if any. Increasing ids stay increasing when the id is not changed |
| `Staffs.StaffStore.Delete` | main.py:169-177 | NotFound exactly when the id is absent, list unchanged. Otherwise exactly the first record with that id is removed and the others keep their order. Increasing ids stay increasing and unique ids stay unique. With unique ids, the id is then not found |
| `Scenario.InsertLionAndTiger` | main.py:50-69 | from an empty store: Lion gets id 1 with the defaults, a second Lion is refused as a duplicate, Tiger with age 3 gets id 2 |
| `Scenario.DeleteLion` | main.py:92-100 | after those inserts, deleting id 1 leaves only Tiger, a lookup of id 1 is NotFound, and a second delete of id 1 is NotFound |

## Left out

- Flask routing, the `/` greeting, `request.json` parsing, `jsonify`, `abort` and the error handlers (main.py:1-5, 29-31, 181-190). Each outcome is a constructor of `Result` instead. HTTP status codes and message texts are not modelled, including 201 on insert and the 200-versus-400 answer to a duplicate.
- `load_animals`, `save_animals`, `load_staffs`, `save_staffs` (main.py:7-27): file and JSON I/O. A store is constructed from the loaded list, so a missing file is a store built from `[]`. A save is the list a handler leaves.
- Dynamic typing: payload and record fields have fixed types. Not modelled: a key present with JSON `null`, a body that is a JSON array or scalar, and records in the file that lack a key or have a non-integer id. In the source these crash or behave in ways that depend on the value.
- The employee `schedule` is any JSON value in the source. Here it is an uninterpreted string, which is only stored and returned.
- In-place mutation and aliasing: the source modifies the dict it found inside the list. The model builds the updated record and writes it back at that record's index.
- Concurrent requests and lost updates between a load and a save.
