/** Properties of the generic domain service: what a later `Get` sees after
    each operation, the soft-delete state machine (Active <-> SoftDeleted ->
    Removed), the invariant that ids and codes stay unique, and the
    agreement of `Get` with a filter run through the set's query root. */
module ServiceLaws {
  import opened Outcomes
  import opened EntitySets
  import opened Services

  predicate UniqueIds<X>(s: Store<X>)
  {
    forall i, j :: 0 <= i < j < |s.rows| ==> s.rows[i].id != s.rows[j].id
  }

  predicate UniqueCodes<X>(s: Store<X>)
  {
    forall i, j :: 0 <= i < j < |s.rows| ==> s.rows[i].code != s.rows[j].code
  }

  /** The store invariant the services keep: no two rows share an id, and
      no two rows share a code. */
  predicate Valid<X>(s: Store<X>)
  {
    UniqueIds(s) && UniqueCodes(s)
  }

  // Listing

  /** Asking for a page of Count rows from the start lists the whole set:
      one item per row, soft-deleted ones included. */
  lemma ListWholeSet<X>(s: Store<X>)
    ensures List(s, Count(s)) == ListAll(s)
    ensures |List(s, Count(s))| == Count(s)
  {
  }

  /** Soft-deleting a row does not take it out of the list or the count. */
  lemma SoftDeletedRowsStayListed<X>(s: Store<X>, id: int)
    requires SetStatus(s, id, true).Ok?
    ensures Count(SetStatus(s, id, true).value) == Count(s)
    ensures |ListAll(SetStatus(s, id, true).value)| == |ListAll(s)|
  {
  }

  // Get through the query root

  /** The filter `Where(e => e.Id == id)` over the set's query root. */
  function ById<X>(id: int): Query<Entity<X>>
  {
    Where(Root, IdIs(id))
  }

  function IdIs<X>(id: int): Entity<X> -> bool
  {
    (e: Entity<X>) => e.id == id
  }

  lemma {:induction false} FilterByIdHead<X>(rows: seq<Entity<X>>, id: int)
    ensures var m := Filter(rows, IdIs(id));
            var k := FindById(rows, id);
            && (k == -1 <==> |m| == 0)
            && (k != -1 ==> m[0] == rows[k])
  {
    if |rows| == 0 {
    } else if rows[0].id == id {
      assert Filter(rows, IdIs(id)) == [rows[0]] + Filter(rows[1..], IdIs(id));
    } else {
      FilterByIdHead(rows[1..], id);
      assert Filter(rows, IdIs(id)) == Filter(rows[1..], IdIs(id));
    }
  }

  /** `Get` fails exactly when running the id filter through the query root
      yields nothing, and otherwise returns the filter's first result. */
  lemma GetAgreesWithQuery<X>(s: Store<X>, id: int)
    ensures Get(s, id).Err? <==> |Execute(ById(id), s)| == 0
    ensures Get(s, id).Ok? ==> Get(s, id).value == Execute(ById(id), s)[0]
  {
    FilterByIdHead(s.rows, id);
  }

  // Create

  /** A created row can be read back under its new id. */
  lemma CreateThenGet<X>(s: Store<X>, req: Request<X>, freshId: int)
    requires !HasId(s, freshId)
    requires Create(s, req, freshId).Ok?
    ensures Get(Create(s, req, freshId).value.0, freshId) == Ok(Create(s, req, freshId).value.1)
  {
  }

  /** Once a code is taken, a second create with the same code is refused,
      whatever the rest of the request. */
  lemma SecondCreateConflicts<X>(s: Store<X>, req: Request<X>, freshId: int, other: Request<X>, nextId: int)
    requires Create(s, req, freshId).Ok?
    requires other.code == req.code
    ensures Create(Create(s, req, freshId).value.0, other, nextId) == Err(Conflict)
  {
  }

  /** Create keeps ids and codes unique when the new id is fresh. */
  lemma CreatePreservesValid<X>(s: Store<X>, req: Request<X>, freshId: int)
    requires Valid(s)
    requires !HasId(s, freshId)
    requires Create(s, req, freshId).Ok?
    ensures Valid(Create(s, req, freshId).value.0)
  {
  }

  // Update

  /** An updated row reads back with the requested fields under the same id. */
  lemma UpdateThenGet<X>(s: Store<X>, id: int, req: Request<X>)
    requires Update(s, id, req).Ok?
    ensures Get(Update(s, id, req).value.0, id) == Ok(Update(s, id, req).value.1)
  {
    var (s', e) := Update(s, id, req).value;
    var k :| FirstWithId(s.rows, k, id) && e.isDeleted == s.rows[k].isDeleted && s'.rows == s.rows[k := e];
    assert FirstWithId(s'.rows, k, id);
    assert FindById(s'.rows, id) == k;
  }

  /** Update keeps ids and codes unique: the code it writes is held by no
      other row. */
  lemma UpdatePreservesValid<X>(s: Store<X>, id: int, req: Request<X>)
    requires Valid(s)
    requires Update(s, id, req).Ok?
    ensures Valid(Update(s, id, req).value.0)
  {
  }

  // The soft-delete state machine

  /** After a successful status change, `Get` reports the requested flag and
      every other field as before. */
  lemma SetStatusThenGet<X>(s: Store<X>, id: int, deleted: bool)
    requires HasId(s, id)
    ensures SetStatus(s, id, deleted).Ok? && Get(s, id).Ok?
    ensures Get(SetStatus(s, id, deleted).value, id) == Ok(Get(s, id).value.(isDeleted := deleted))
  {
    var s' := SetStatus(s, id, deleted).value;
    var k :| FirstWithId(s.rows, k, id) && s'.rows == s.rows[k := s.rows[k].(isDeleted := deleted)];
    assert FindById(s.rows, id) == k;
    assert FirstWithId(s'.rows, k, id);
    assert FindById(s'.rows, id) == k;
  }

  /** Setting the same status twice leaves the store as setting it once. */
  lemma SetStatusIdempotent<X>(s: Store<X>, id: int, deleted: bool)
    requires SetStatus(s, id, deleted).Ok?
    ensures SetStatus(SetStatus(s, id, deleted).value, id, deleted) == SetStatus(s, id, deleted)
  {
    var s' := SetStatus(s, id, deleted).value;
    var k :| FirstWithId(s.rows, k, id) && s'.rows == s.rows[k := s.rows[k].(isDeleted := deleted)];
    assert FirstWithId(s'.rows, k, id);
    assert FindById(s'.rows, id) == k;
    assert s'.rows[k := s'.rows[k].(isDeleted := deleted)] == s'.rows;
  }

  /** Soft-deleting an active row and restoring it gives back the original
      store: Active -> SoftDeleted -> Active is a round trip. */
  lemma SoftDeleteThenRestore<X>(s: Store<X>, id: int, k: int)
    requires FirstWithId(s.rows, k, id) && !s.rows[k].isDeleted
    ensures SetStatus(s, id, true).Ok?
    ensures SetStatus(SetStatus(s, id, true).value, id, false) == Ok(s)
  {
    assert FindById(s.rows, id) == k;
    var s' := SetStatus(s, id, true).value;
    assert s'.rows == s.rows[k := s.rows[k].(isDeleted := true)];
    assert FirstWithId(s'.rows, k, id);
    assert FindById(s'.rows, id) == k;
    assert s'.rows[k := s'.rows[k].(isDeleted := false)] == s.rows;
  }

  /** Status changes keep ids and codes unique: they touch only the flag. */
  lemma SetStatusPreservesValid<X>(s: Store<X>, id: int, deleted: bool)
    requires Valid(s)
    requires SetStatus(s, id, deleted).Ok?
    ensures Valid(SetStatus(s, id, deleted).value)
  {
  }

  /** With unique ids, deleting the soft-deleted row `k` succeeds and takes
      exactly that row out. */
  lemma DeleteTakesOutRow<X>(s: Store<X>, id: int, k: int)
    requires UniqueIds(s)
    requires 0 <= k < |s.rows| && s.rows[k].id == id && s.rows[k].isDeleted
    ensures Delete(s, id) == Ok(EntitySet(s.rows[..k] + s.rows[k + 1..]))
  {
    assert FirstWithId(s.rows, k, id);
    assert FindById(s.rows, id) == k;
    var k' :| FirstWithId(s.rows, k', id) && Delete(s, id).value.rows == s.rows[..k'] + s.rows[k' + 1..];
    FirstWithIdUnique(s.rows, k, k', id);
  }

  /** At most one position is the first one holding an id. */
  lemma FirstWithIdUnique<X>(rows: seq<Entity<X>>, k: int, k': int, id: int)
    requires FirstWithId(rows, k, id) && FirstWithId(rows, k', id)
    ensures k == k'
  {
  }

  /** With unique ids, taking row `k` out leaves no row with its id. */
  lemma RemoveRowDropsId<X>(s: Store<X>, k: int, t: Store<X>)
    requires UniqueIds(s)
    requires 0 <= k < |s.rows| && t.rows == s.rows[..k] + s.rows[k + 1..]
    ensures !HasId(t, s.rows[k].id)
  {
    forall i | 0 <= i < |t.rows|
      ensures t.rows[i].id != s.rows[k].id
    {
      if i < k {
        assert t.rows[i] == s.rows[i];
      } else {
        assert t.rows[i] == s.rows[i + 1];
      }
    }
  }

  /** Removed is terminal: after a purge the id is gone, so get, a second
      delete and a status change all fail with NotFound. */
  lemma DeleteThenNotFound<X>(s: Store<X>, id: int, k: int, deleted: bool)
    requires UniqueIds(s)
    requires 0 <= k < |s.rows| && s.rows[k].id == id && s.rows[k].isDeleted
    ensures Delete(s, id).Ok?
    ensures !HasId(Delete(s, id).value, id)
    ensures Get(Delete(s, id).value, id) == Err(NotFound)
    ensures Delete(Delete(s, id).value, id) == Err(NotFound)
    ensures SetStatus(Delete(s, id).value, id, deleted) == Err(NotFound)
  {
    DeleteTakesOutRow(s, id, k);
    RemoveRowDropsId(s, k, Delete(s, id).value);
  }

  /** Taking one row out of a store keeps ids and codes unique. */
  lemma RemoveRowKeepsValid<X>(s: Store<X>, k: int, t: Store<X>)
    requires Valid(s)
    requires 0 <= k < |s.rows| && t.rows == s.rows[..k] + s.rows[k + 1..]
    ensures Valid(t)
  {
    forall i, j | 0 <= i < j < |t.rows|
      ensures t.rows[i].id != t.rows[j].id && t.rows[i].code != t.rows[j].code
    {
      var i' := if i < k then i else i + 1;
      var j' := if j < k then j else j + 1;
      assert t.rows[i] == s.rows[i'];
      assert t.rows[j] == s.rows[j'];
    }
  }

  /** Delete keeps ids and codes unique: it only takes a row out. With
      unique ids, row `k` is the first row with its id. */
  lemma DeletePreservesValid<X>(s: Store<X>, id: int, k: int)
    requires Valid(s)
    requires 0 <= k < |s.rows| && s.rows[k].id == id && s.rows[k].isDeleted
    ensures Delete(s, id).Ok?
    ensures Valid(Delete(s, id).value)
  {
    DeleteTakesOutRow(s, id, k);
    RemoveRowKeepsValid(s, k, Delete(s, id).value);
  }

  /** The whole life of an active row: a purge is refused while it is
      active; after a soft delete the purge succeeds, and from then on the
      id is not found. */
  lemma SoftDeleteThenPurge<X>(s: Store<X>, id: int, k: int)
    requires UniqueIds(s)
    requires 0 <= k < |s.rows| && s.rows[k].id == id && !s.rows[k].isDeleted
    ensures Delete(s, id) == Err(Conflict)
    ensures SetStatus(s, id, true).Ok?
    ensures Delete(SetStatus(s, id, true).value, id).Ok?
    ensures Get(Delete(SetStatus(s, id, true).value, id).value, id) == Err(NotFound)
  {
    assert FirstWithId(s.rows, k, id);
    assert FindById(s.rows, id) == k;
    var s' := SetStatus(s, id, true).value;
    assert s'.rows == s.rows[k := s.rows[k].(isDeleted := true)];
    assert forall i :: 0 <= i < |s.rows| ==> s'.rows[i].id == s.rows[i].id;
    DeleteThenNotFound(s', id, k, true);
  }
}
