# Blossom catalogue controller, modelled in Dafny

The Blossom API serves one product table (`Blossoms`) over HTTP. Its controller,
`BlossomController`, has six actions: list all products, get one by id, create,
delete, full update (PUT) and partial update (PATCH, a JSON Patch document).
Each action runs its own guards before it touches the store. Get, delete and
partial update refuse id 0 as a sentinel; the full update has no such check. A
new name may not equal a stored one once both are lower-cased. A create request
with a positive id is refused; an id of 0 or below passes. A full update's route
id must equal the request's id. Every branch answers with a fixed status code.

The model keeps the table as a `map<int, Blossom>` keyed by product id:

- `blossoms.dfy` (module `Blossoms`): the stored row `Blossom` and the wire
  shape `BlossomDto`, both with id, name, description, price, brand and image
  URL. It also holds the ASCII lower-casing behind the duplicate-name check,
  and the field copies the actions make between row and DTO.
- `actions.dfy` (module `Actions`): each action as a pure transition from a
  table to a status, an optional body and the new table. The guards run in
  the source's order. The contracts state which status each input gets and
  exactly how the table changes.
- `properties.dfy` (module `Properties`): lemmas that relate several actions.
  They cover listing completeness, create-then-get, the case-insensitive
  duplicate rule across requests, name uniqueness under create but not under
  update, delete twice, and a create/get/delete session.
- `controller.dfy` (module `Controller`): class `BlossomController` holding
  the table and the identity counter the store draws new keys from. Its
  mutating methods change the table in place. Each method's contract equates
  its answer and new table with the `Actions` transition. The object invariant
  `Valid()` keeps rows under their own ids and keys positive and below the
  counter.

Behaviour of the code that the model follows as written:

- Create checks, in order: model-binding validity, duplicate name, null
  request, then `Id > 0`. A duplicate name with a positive id therefore gets
  400, not 500.
- The duplicate check reads `blossomDto.Name` before the null check runs, so
  a null request that passed model binding throws (`Unhandled`). The later
  null check can never answer.
- A successful create answers with the request as submitted and its own id
  as the route value. That id is at most 0, so it is never the stored key,
  and a client that follows the link never reaches the created row
  (`CreatedRouteMissesRow`).
- The full update has no id-0 check and no duplicate-name check.
  `UpdateMayDuplicateName` exhibits two rows whose names differ only in case.
- The partial update reads the row's fields before it checks the row for
  absence, so an absent id throws (`Unhandled`) rather than answering 400 or
  404. It writes back the row as loaded, not the patched DTO. The patch
  therefore only decides the validity verdict, and the table never changes.
- The patched copy is never re-validated against the DTO's annotations: only
  errors in applying the patch (an unknown path, a value that cannot be
  converted) make `ModelState` invalid and answer 400.

## Model

| member | source | states |
|---|---|---|
| `Blossoms.ToLower` | Blosom_API2/Controllers/BlossomController.cs:67 | lower-casing keeps the length, maps each character to its lower-case partner, and leaves no upper-case letter |
| `Blossoms.ToLowerIdempotent` | Blosom_API2/Controllers/BlossomController.cs:67 | lower-casing an already lower-cased name changes nothing |
| `Blossoms.CaseVariantsCompareEqual` | Blosom_API2/Controllers/BlossomController.cs:67 | two names that differ only in letter case compare equal in the duplicate check |
| `Actions.GetBlossoms` | Blosom_API2/Controllers/BlossomController.cs:26-30 | listing always answers 200, with every stored row and nothing that is not stored |
| `Actions.GetBlossom` | Blosom_API2/Controllers/BlossomController.cs:36-53 | id 0 gets 400 whatever the table holds; a nonzero absent id gets 404; otherwise 200 with exactly the row stored under that id |
| `Actions.PostProduct` | Blosom_API2/Controllers/BlossomController.cs:61-94 | invalid model gets 400; valid model with a null request throws; a name equal up to case to a stored one gets 400; then a positive id gets 500; all of these leave the table unchanged; otherwise 201, one new key, fresh and positive, holding the request's five content fields, every other row untouched, and the answer echoes the request and its id |
| `Actions.DeleteProduct` | Blosom_API2/Controllers/BlossomController.cs:100-115 | id 0 gets 400 and an absent id 404, both with the table unchanged; otherwise 204 and exactly that key is removed, every other row untouched |
| `Actions.UpdateProduct` | Blosom_API2/Controllers/BlossomController.cs:120-147 | a null request or a route id that differs from the request's id gets 400 with the table unchanged; otherwise 204, same keys, the row under the id holds all six request fields, every other row untouched |
| `Actions.UpdatePartialProduct` | Blosom_API2/Controllers/BlossomController.cs:152-194 | the table never changes; 400 exactly for a null patch, id 0, or a present row whose patch cannot be applied (`ModelState` invalid after `ApplyTo`); an absent row throws; 204 otherwise |
| `Controller.BlossomController.constructor` | Blosom_API2/Controllers/BlossomController.cs:18-22 | a controller adopts the store it is handed, rows included, with the identity counter above every stored key |
| `Controller.BlossomController.PostProduct` | Blosom_API2/Controllers/BlossomController.cs:61-94 | the in-place create gives the answer and table of `Actions.PostProduct`, with the counter as new key; the counter advances only on 201; rows stay under their own ids |
| `Controller.BlossomController.DeleteProduct` | Blosom_API2/Controllers/BlossomController.cs:100-115 | the in-place delete gives the answer and table of `Actions.DeleteProduct` and keeps the object invariant |
| `Controller.BlossomController.UpdateProduct` | Blosom_API2/Controllers/BlossomController.cs:120-147 | the in-place full update gives the answer and table of `Actions.UpdateProduct` and keeps the object invariant |
| `Controller.BlossomController.UpdatePartialProduct` | Blosom_API2/Controllers/BlossomController.cs:152-194 | the in-place partial update gives the answer of `Actions.UpdatePartialProduct` and leaves the table as it was |
| `Properties.ListedOnce` | Blosom_API2/Controllers/BlossomController.cs:29 | in a table whose rows sit under their own ids, the listing has exactly as many rows as the table has keys |
| `Properties.PostThenGet` | Blosom_API2/Controllers/BlossomController.cs:80-91 | after a 201, getting the new key answers 200 with a row under that key carrying the request's content |
| `Properties.CreatedRouteMissesRow` | Blosom_API2/Controllers/BlossomController.cs:93 | following the route value of a 201 answer gets 400 (id 0) or 404 (negative id), never the created row |
| `Properties.PostRejectsCaseVariant` | Blosom_API2/Controllers/BlossomController.cs:67-71 | after a name is created, a create of the same name in any letter case gets 400 and stores nothing |
| `Properties.PostKeepsNamesUnique` | Blosom_API2/Controllers/BlossomController.cs:67-91 | if stored names are distinct up to case before a create, they still are after it |
| `Properties.UpdateMayDuplicateName` | Blosom_API2/Controllers/BlossomController.cs:120-145 | a full update can store "rose" beside "Rose": the update path keeps no name uniqueness |
| `Properties.DeleteTwice` | Blosom_API2/Controllers/BlossomController.cs:102-114 | after a 204 delete, deleting or getting the same id again gets 404 |
| `Properties.PatchIgnoresDocument` | Blosom_API2/Controllers/BlossomController.cs:172-190 | the partial update's answer and table are the same for any two patch documents with the same post-patch validity verdict |
| `Properties.RoseScenario` | Blosom_API2/Controllers/BlossomController.cs:36-115 | create "Rose" gets 201 with route value 0; get 1 returns it; create "rose" gets 400; delete 1 gets 204; get 1 then gets 404 |

## Left out

- Entity Framework is not modelled. The table is a map keyed by id, so the
  storage order of the listing is not captured: listing yields a set of rows.
- Key generation is not modelled beyond "a positive key not in the table". The
  class draws it from a counter that stays above every stored key.
- `Actions.PostProduct`: requires the new key to be positive and unused. The
  store guarantees this, not the caller.
- `Actions.UpdateProduct`: requires the route id to be stored when the guards
  pass. The store's behaviour on an update of an absent key is left out: an
  update of id 0 inserts a row, any other absent id fails at save time.
- `Controller.BlossomController.UpdateProduct`: same precondition, same reason.
- `ModelState.IsValid` is a boolean input. For create it is the model-binding
  verdict, driven by data annotations on the DTO class, which is not part of
  this model. For the partial update it is the state after `ApplyTo`, which
  records only errors in applying the patch.
- JSON Patch `ApplyTo` is left out. The patch document is carried as a list of
  operations, and only the validity verdict after applying it is an input. The
  patched DTO is never stored.
- Culture-sensitive `ToLower` is replaced by ASCII lower-casing.
- `Price` is a `real` stand-in. No arithmetic is done on it.
- Null string fields are not modelled: names are non-null strings. A null
  `Name` would throw in the duplicate check.
- The bodies of 400 answers (model-state error dictionaries), routing, response
  objects and logging are left out. Answers are a status, plus the body where
  the action returns data.
- The race between the duplicate-name check and the insert is concurrency. It
  is outside this sequential model.
