/**
 Properties that relate several actions of the Blossom controller, stated over
 the transitions of module Actions.
 */
module Properties {
  import opened Blossoms
  import opened Actions

  /** Listing shows every stored row exactly once: in a well-keyed table no two
      keys hold the same row, so there are as many listed rows as keys. */
  lemma {:induction false} ListedOnce(t: Table)
    requires WellKeyed(t)
    ensures |GetBlossoms(t).body.value| == |t|
  {
    var rows := GetBlossoms(t).body.value;
    if t == map[] {
      assert rows == {};
    } else {
      var k :| k in t;
      var rest := t - {k};
      ListedOnce(rest);
      var restRows := GetBlossoms(rest).body.value;
      assert restRows == rows - {t[k]} by {
        forall b | b in rows - {t[k]} ensures b in restRows {
          var j :| j in t && t[j] == b;
          assert j != k;
          assert rest[j] == b;
        }
      }
      assert t[k] in rows;
      assert |rest| == |t| - 1 by {
        assert rest.Keys == t.Keys - {k};
      }
    }
  }

  /** A row created by the create action is served by the lookup under the
      key the store gave it, with the request's content. */
  lemma PostThenGet(t: Table, dto: BlossomDto, newKey: int)
    requires newKey > 0 && newKey !in t
    requires PostProduct(t, Some(dto), true, newKey).status == Created201
    ensures var r := GetBlossom(PostProduct(t, Some(dto), true, newKey).table, newKey);
            r.status == Ok200 && r.body.value.id == newKey && Carries(r.body.value, dto)
  {
  }

  /** The route value of a "created" answer is the request's own id, which the
      create action only admits when it is at most 0; stored keys are
      positive, so following the link never yields the created row. */
  lemma CreatedRouteMissesRow(t: Table, dto: BlossomDto, newKey: int)
    requires newKey > 0 && newKey !in t
    requires forall k :: k in t ==> k > 0
    requires PostProduct(t, Some(dto), true, newKey).status == Created201
    ensures var o := PostProduct(t, Some(dto), true, newKey);
            var r := GetBlossom(o.table, o.created.value.routeId);
            r.status == (if dto.id == 0 then BadRequest400 else NotFound404)
  {
  }

  /** Once a name is stored, a later create of the same name in any letter
      case is refused and stores nothing. */
  lemma PostRejectsCaseVariant(t: Table, first: BlossomDto, key1: int, second: BlossomDto, key2: int)
    requires key1 > 0 && key1 !in t
    requires PostProduct(t, Some(first), true, key1).status == Created201
    requires ToLower(second.name) == ToLower(first.name)
    requires key2 > 0 && key2 !in PostProduct(t, Some(first), true, key1).table
    ensures var t1 := PostProduct(t, Some(first), true, key1).table;
            var o := PostProduct(t1, Some(second), true, key2);
            o.status == BadRequest400 && o.table == t1
  {
  }

  /** The create action keeps stored names distinct up to case. */
  lemma PostKeepsNamesUnique(t: Table, dto: Option<BlossomDto>, modelValid: bool, newKey: int)
    requires newKey > 0 && newKey !in t
    requires UniqueNames(t)
    ensures UniqueNames(PostProduct(t, dto, modelValid, newKey).table)
  {
  }

  /** The full update does not check names: it can store a name that another
      row already has in a different case. */
  lemma UpdateMayDuplicateName()
    ensures var t := map[1 := Blossom(1, "Rose", "", 9.99, "", ""),
                         2 := Blossom(2, "Tulip", "", 5.0, "", "")];
            var e := UpdateProduct(t, 2, Some(BlossomDto(2, "rose", "", 5.0, "", "")));
            UniqueNames(t) && e.status == NoContent204 && !UniqueNames(e.table)
  {
    var t := map[1 := Blossom(1, "Rose", "", 9.99, "", ""),
                 2 := Blossom(2, "Tulip", "", 5.0, "", "")];
    assert ToLower("Rose") == "rose";
    assert ToLower("Tulip") == "tulip";
    assert ToLower("rose") == "rose";
    assert "rose" != "tulip";
    var e := UpdateProduct(t, 2, Some(BlossomDto(2, "rose", "", 5.0, "", "")));
    assert e.table[1].name == "Rose" && e.table[2].name == "rose";
  }

  /** A second delete of the same id finds nothing. */
  lemma DeleteTwice(t: Table, id: int)
    requires DeleteProduct(t, id).status == NoContent204
    ensures var t1 := DeleteProduct(t, id).table;
            DeleteProduct(t1, id).status == NotFound404
            && GetBlossom(t1, id).status == NotFound404
  {
  }

  /** Given the same validity verdict after patching, the partial update
      answers the same, and leaves the same table, whatever operations the
      patch document holds. This follows from the model's abstraction of
      `ApplyTo`, which keeps only its verdict; what it shows about the source
      is that the row written back is rebuilt from the loaded row, not from
      the patched copy. */
  lemma PatchIgnoresDocument(t: Table, id: int, p: PatchDocument, q: PatchDocument, validAfterPatch: bool)
    ensures UpdatePartialProduct(t, id, Some(p), validAfterPatch)
         == UpdatePartialProduct(t, id, Some(q), validAfterPatch)
  {
  }

  /** Create "Rose", read it back, try "rose", delete it, read it again. */
  lemma RoseScenario()
    ensures
      var rose := BlossomDto(0, "Rose", "", 9.99, "", "");
      var p1 := PostProduct(map[], Some(rose), true, 1);
      var g1 := GetBlossom(p1.table, 1);
      var p2 := PostProduct(p1.table, Some(BlossomDto(0, "rose", "", 5.0, "", "")), true, 2);
      var d := DeleteProduct(p2.table, 1);
      var g2 := GetBlossom(d.table, 1);
      && p1.status == Created201 && p1.created == Some(CreatedAt(0, rose))
      && g1 == Reply(Ok200, Some(Blossom(1, "Rose", "", 9.99, "", "")))
      && p2.status == BadRequest400 && p2.table == p1.table
      && d.status == NoContent204
      && g2.status == NotFound404
  {
  }
}
