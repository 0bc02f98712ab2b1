/**
 The Blossom controller as an object over the store it shares: the product
 table and the identity counter the store draws new keys from. Each mutating
 action runs its guards and changes `table` in place; its contract equates the
 answer and the new table with the transition of module Actions, whose
 contracts and lemmas say what that means. The reads are the functions
 GetBlossoms and GetBlossom of module Actions applied to `table`.
 */
module Controller {
  import opened Blossoms
  import opened Actions

  class BlossomController {
    /** The `Blossoms` table. */
    var table: Table
    /** The next key the store's identity column hands out. */
    var nextId: int

    /** Every row is filed under its own id, and every key is positive and
        below the identity counter, so the counter is always a fresh key. */
    ghost predicate Valid()
      reads this
    {
      && nextId > 0
      && WellKeyed(table)
      && forall k :: k in table ==> 0 < k < nextId
    }

    /** The controller is handed the store it works on: a table that may
        already hold rows, and the identity counter's current value. */
    constructor (t: Table, next: int)
      requires next > 0 && WellKeyed(t) && forall k :: k in t ==> 0 < k < next
      ensures Valid() && table == t && nextId == next
    {
      table := t;
      nextId := next;
    }

    /** POST: the create action; a created row takes the counter's key. */
    method PostProduct(dto: Option<BlossomDto>, modelValid: bool) returns (status: Status, created: Option<CreatedAt>)
      requires Valid()
      modifies this
      ensures Valid()
      ensures PostOutcome(status, created, table) == Actions.PostProduct(old(table), dto, modelValid, old(nextId))
      ensures nextId == if status == Created201 then old(nextId) + 1 else old(nextId)
    {
      if !modelValid {
        return BadRequest400, None;
      }
      if dto.None? {
        return Unhandled, None;
      }
      if NameTaken(table, dto.value.name) {
        return BadRequest400, None;
      }
      if dto.value.id > 0 {
        return ServerError500, None;
      }
      table := table[nextId := NewRecord(dto.value, nextId)];
      nextId := nextId + 1;
      status, created := Created201, Some(CreatedAt(dto.value.id, dto.value));
    }

    /** DELETE: removes the row under `id` when there is one. */
    method DeleteProduct(id: int) returns (status: Status)
      requires Valid()
      modifies this
      ensures Valid() && nextId == old(nextId)
      ensures Effect(status, table) == Actions.DeleteProduct(old(table), id)
    {
      if id == 0 {
        return BadRequest400;
      }
      if id !in table {
        return NotFound404;
      }
      table := table - {id};
      status := NoContent204;
    }

    /** PUT: replaces the row under `id` with the request's fields. */
    method UpdateProduct(id: int, dto: Option<BlossomDto>) returns (status: Status)
      requires Valid()
      requires dto.Some? && dto.value.id == id ==> id in table
      modifies this
      ensures Valid() && nextId == old(nextId)
      ensures Effect(status, table) == Actions.UpdateProduct(old(table), id, dto)
    {
      if dto.None? || id != dto.value.id {
        return BadRequest400;
      }
      table := table[id := RecordOf(dto.value)];
      status := NoContent204;
    }

    /** PATCH: applies the patch to a copy of the row, checks the verdict, and
        writes the row back. */
    method UpdatePartialProduct(id: int, patch: Option<PatchDocument>, validAfterPatch: bool) returns (status: Status)
      requires Valid()
      modifies this
      ensures Valid() && nextId == old(nextId)
      ensures Effect(status, table) == Actions.UpdatePartialProduct(old(table), id, patch, validAfterPatch)
      ensures table == old(table)
    {
      if patch.None? || id == 0 {
        return BadRequest400;
      }
      if id !in table {
        return Unhandled;
      }
      var blossom := table[id];
      if !validAfterPatch {
        return BadRequest400;
      }
      table := table[id := Reloaded(blossom)];
      status := NoContent204;
    }
  }
}
