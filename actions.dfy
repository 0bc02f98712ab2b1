/**
 Each action of the Blossom controller as a transition over the product table:
 the guards it runs, in the order it runs them, the status it answers with, and
 the table the store holds afterwards. The controller class in module
 Controller performs these transitions in place.

 Inputs the framework decides are parameters: `modelValid` is the model-binding
 verdict (`ModelState.IsValid`), `newKey` the key the store assigns to an
 inserted row, `validAfterPatch` whether `ModelState` is still valid once the
 patch document has been applied to a copy of the loaded row (it records only
 errors in applying the operations; the patched copy is not re-validated).
 */
module Actions {
  import opened Blossoms

  /** The HTTP status an action answers with; `Unhandled` is an exception
      escaping the action (a dereference of a null reference). */
  datatype Status =
    | Ok200
    | Created201
    | NoContent204
    | BadRequest400
    | NotFound404
    | ServerError500
    | Unhandled

  /** The answer to a read: a status and, with 200, the body. */
  datatype Reply<T> = Reply(status: Status, body: Option<T>)

  /** A "created at route" answer: the route value it links to and the body. */
  datatype CreatedAt = CreatedAt(routeId: int, dto: BlossomDto)

  /** The outcome of the create action. */
  datatype PostOutcome = PostOutcome(status: Status, created: Option<CreatedAt>, table: Table)

  /** The outcome of an action that answers without a body. */
  datatype Effect = Effect(status: Status, table: Table)

  /** A JSON Patch document; its operations only reach the model-binding verdict. */
  datatype PatchOperation = PatchOperation(op: string, path: string, value: string)
  type PatchDocument = seq<PatchOperation>

  /** Some stored name equals `name` once both are lower-cased. */
  predicate NameTaken(t: Table, name: string) {
    exists k :: k in t && ToLower(t[k].name) == ToLower(name)
  }

  /** No two stored rows have names equal up to case. */
  predicate UniqueNames(t: Table) {
    forall j, k :: j in t && k in t && j != k ==> ToLower(t[j].name) != ToLower(t[k].name)
  }

  // ---------------------------------------------------------------------------
  // GET api/Blossom

  /** Listing answers 200 with exactly the stored rows, whatever the table. */
  function GetBlossoms(t: Table): (r: Reply<set<Blossom>>)
    ensures r.status == Ok200 && r.body.Some?
    ensures forall k :: k in t ==> t[k] in r.body.value
    ensures forall b :: b in r.body.value ==> exists k :: k in t && t[k] == b
  {
    Reply(Ok200, Some(set k | k in t :: t[k]))
  }

  // ---------------------------------------------------------------------------
  // GET api/Blossom/id

  /** Id 0 is refused before the table is consulted; an absent id is not
      found; otherwise the answer is 200 with the row stored under `id`. */
  function GetBlossom(t: Table, id: int): (r: Reply<Blossom>)
    ensures r.status == BadRequest400 <==> id == 0
    ensures r.status == NotFound404 <==> id != 0 && id !in t
    ensures r.status == Ok200 <==> id != 0 && id in t
    ensures r.body.Some? <==> r.status == Ok200
    ensures r.body.Some? ==> id in t && r.body.value == t[id]
  {
    if id == 0 then Reply(BadRequest400, None)
    else if id !in t then Reply(NotFound404, None)
    else Reply(Ok200, Some(t[id]))
  }

  // ---------------------------------------------------------------------------
  // POST api/Blossom

  /** The create action. Its guards run in this order: model-binding verdict,
      duplicate name (which dereferences the request, so a null request that
      passed model binding throws here), null request, caller-supplied id.
      Only a request that passes all of them changes the table, by exactly
      one new row under a fresh key; the answer echoes the request and its
      own id, not the stored row. */
  function PostProduct(t: Table, dto: Option<BlossomDto>, modelValid: bool, newKey: int): (o: PostOutcome)
    requires newKey > 0 && newKey !in t
    ensures !modelValid ==> o.status == BadRequest400
    ensures modelValid && dto.None? ==> o.status == Unhandled
    ensures modelValid && dto.Some? && NameTaken(t, dto.value.name) ==> o.status == BadRequest400
    ensures modelValid && dto.Some? && !NameTaken(t, dto.value.name) && dto.value.id > 0 ==>
              o.status == ServerError500
    ensures o.status == Created201 <==>
              modelValid && dto.Some? && !NameTaken(t, dto.value.name) && dto.value.id <= 0
    ensures o.status != Created201 ==> o.table == t && o.created.None?
    ensures o.status == Created201 ==>
              && o.table.Keys == t.Keys + {newKey}
              && |o.table| == |t| + 1
              && (forall k :: k in t ==> o.table[k] == t[k])
              && o.table[newKey].id == newKey
              && Carries(o.table[newKey], dto.value)
              && o.created == Some(CreatedAt(dto.value.id, dto.value))
    ensures WellKeyed(t) ==> WellKeyed(o.table)
  {
    if !modelValid then PostOutcome(BadRequest400, None, t)
    else if dto.None? then PostOutcome(Unhandled, None, t)
    else if NameTaken(t, dto.value.name) then PostOutcome(BadRequest400, None, t)
    else if dto.value.id > 0 then PostOutcome(ServerError500, None, t)
    else
      PostOutcome(Created201, Some(CreatedAt(dto.value.id, dto.value)),
                  t[newKey := NewRecord(dto.value, newKey)])
  }

  // ---------------------------------------------------------------------------
  // DELETE api/Blossom/{id}

  /** Id 0 is refused and an absent id is not found, both leaving the table
      alone; otherwise exactly the row under `id` goes. */
  function DeleteProduct(t: Table, id: int): (e: Effect)
    ensures e.status == BadRequest400 <==> id == 0
    ensures e.status == NotFound404 <==> id != 0 && id !in t
    ensures e.status == NoContent204 <==> id != 0 && id in t
    ensures e.status != NoContent204 ==> e.table == t
    ensures e.status == NoContent204 ==>
              && e.table.Keys == t.Keys - {id}
              && |e.table| == |t| - 1
              && (forall k :: k in e.table ==> e.table[k] == t[k])
    ensures WellKeyed(t) ==> WellKeyed(e.table)
  {
    if id == 0 then Effect(BadRequest400, t)
    else if id !in t then Effect(NotFound404, t)
    else Effect(NoContent204, t - {id})
  }

  // ---------------------------------------------------------------------------
  // PUT api/Blossom/{id}

  /** A missing request or one whose id differs from the route id is refused
      with the table unchanged; otherwise the row under `id` is replaced by all
      six fields of the request and nothing else changes. The store's
      behaviour on an update of a key it does not hold is not modelled. */
  function UpdateProduct(t: Table, id: int, dto: Option<BlossomDto>): (e: Effect)
    requires dto.Some? && dto.value.id == id ==> id in t
    ensures e.status == BadRequest400 <==> dto.None? || dto.value.id != id
    ensures e.status == BadRequest400 || e.status == NoContent204
    ensures e.status == BadRequest400 ==> e.table == t
    ensures e.status == NoContent204 ==>
              && e.table.Keys == t.Keys
              && e.table[id].id == id
              && Carries(e.table[id], dto.value)
              && (forall k :: k in t && k != id ==> e.table[k] == t[k])
    ensures WellKeyed(t) ==> WellKeyed(e.table)
  {
    if dto.None? || id != dto.value.id then Effect(BadRequest400, t)
    else Effect(NoContent204, t[id := RecordOf(dto.value)])
  }

  // ---------------------------------------------------------------------------
  // PATCH api/Blossom/{id}

  /** A missing patch document or id 0 is refused. The row is read before it
      is checked for absence, so an absent id throws. A patch that cannot be
      applied (`ModelState` invalid afterwards) is refused; otherwise the row
      is written back as it was
      loaded, so that the table never changes, whatever the document says. */
  function UpdatePartialProduct(t: Table, id: int, patch: Option<PatchDocument>, validAfterPatch: bool): (e: Effect)
    ensures e.table == t
    ensures e.status == BadRequest400 <==> patch.None? || id == 0 || (id in t && !validAfterPatch)
    ensures e.status == Unhandled <==> patch.Some? && id != 0 && id !in t
    ensures e.status == NoContent204 <==> patch.Some? && id != 0 && id in t && validAfterPatch
  {
    if patch.None? || id == 0 then Effect(BadRequest400, t)
    else if id !in t then Effect(Unhandled, t)
    else if !validAfterPatch then Effect(BadRequest400, t)
    else Effect(NoContent204, t[id := Reloaded(t[id])])
  }
}
