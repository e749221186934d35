/** The domain services for hives, hive sections, catalogue products and
    product categories, as their tests pin them down. All four follow one
    contract over an entity set, so one generic service is modelled: an
    entity has an id, a unique `code`, a `name`, the soft-delete flag and
    the kind-specific rest of its editable fields (`extra`; for a hive,
    its address). */
module Services {
  import opened Outcomes
  import opened Lists
  import opened EntitySets

  datatype Entity<X> = Entity(id: int, code: string, name: string, isDeleted: bool, extra: X)

  /** The create/update payload: every editable field, no identity. */
  datatype Request<X> = Request(code: string, name: string, extra: X)

  /** One row of a list result. */
  datatype ListItem = ListItem(id: int, code: string, name: string, isDeleted: bool)

  type Store<X> = EntitySet<Entity<X>>

  predicate HasId<X>(s: Store<X>, id: int)
  {
    exists i :: 0 <= i < |s.rows| && s.rows[i].id == id
  }

  predicate HasCode<X>(s: Store<X>, code: string)
  {
    exists i :: 0 <= i < |s.rows| && s.rows[i].code == code
  }

  /** Some row other than the one with this id already uses `code`. */
  predicate CodeHeldByOther<X>(s: Store<X>, code: string, id: int)
  {
    exists i :: 0 <= i < |s.rows| && s.rows[i].code == code && s.rows[i].id != id
  }

  /** `k` is the position of the first row with this id. */
  predicate FirstWithId<X>(rows: seq<Entity<X>>, k: int, id: int)
  {
    && 0 <= k < |rows|
    && rows[k].id == id
    && forall i :: 0 <= i < k ==> rows[i].id != id
  }

  /** Position of the first row with this id, or -1 when there is none. */
  function FindById<X>(rows: seq<Entity<X>>, id: int): (k: int)
    ensures -1 <= k < |rows|
    ensures k == -1 <==> forall i :: 0 <= i < |rows| ==> rows[i].id != id
    ensures k != -1 ==> FirstWithId(rows, k, id)
  {
    if |rows| == 0 then -1
    else if rows[0].id == id then 0
    else
      var k := FindById(rows[1..], id);
      if k == -1 then -1 else k + 1
  }

  function ToListItem<X>(e: Entity<X>): ListItem
  {
    ListItem(e.id, e.code, e.name, e.isDeleted)
  }

  function Project<X>(rows: seq<Entity<X>>): (r: seq<ListItem>)
    ensures |r| == |rows|
    ensures forall i :: 0 <= i < |r| ==> r[i] == ToListItem(rows[i])
  {
    if |rows| == 0 then [] else [ToListItem(rows[0])] + Project(rows[1..])
  }

  /** A page from the start of the set: one item per row for the first
      `take` rows (all of them when the set is shorter), soft-deleted rows
      included, in set order. */
  function List<X>(s: Store<X>, take: nat): (r: seq<ListItem>)
    ensures |r| == if take < |s.rows| then take else |s.rows|
    ensures forall i :: 0 <= i < |r| ==> r[i] == ToListItem(s.rows[i])
  {
    var n := if take < Count(s) then take else Count(s);
    Project(s.rows[..n])
  }

  /** The unpaged list: one item per row of the set, soft-deleted rows
      included, in set order. */
  function ListAll<X>(s: Store<X>): (r: seq<ListItem>)
    ensures |r| == |s.rows|
    ensures forall i :: 0 <= i < |r| ==> r[i] == ToListItem(s.rows[i])
  {
    Project(s.rows)
  }

  /** The row with this id, whatever its soft-delete flag; NotFound when no
      row has it. */
  function Get<X>(s: Store<X>, id: int): (r: Result<Entity<X>>)
    ensures r.Err? <==> !HasId(s, id)
    ensures r.Err? ==> r.error == NotFound
    ensures r.Ok? ==> exists k :: FirstWithId(s.rows, k, id) && r.value == s.rows[k]
  {
    var k := FindById(s.rows, id);
    if k == -1 then Err(NotFound) else Ok(s.rows[k])
  }

  /** Creates an active row from the request under the identity the store
      allocated (`freshId`) and appends it. Conflict, with the store left
      as it was, when any row already uses the request's code. */
  function Create<X>(s: Store<X>, req: Request<X>, freshId: int): (r: Result<(Store<X>, Entity<X>)>)
    ensures r.Err? <==> HasCode(s, req.code)
    ensures r.Err? ==> r.error == Conflict
    ensures r.Ok? ==>
              var e := r.value.1;
              e.id == freshId && e.code == req.code && e.name == req.name && e.extra == req.extra && !e.isDeleted
    ensures r.Ok? ==> |r.value.0.rows| == |s.rows| + 1
    ensures r.Ok? ==> r.value.0.rows[..|s.rows|] == s.rows && r.value.0.rows[|s.rows|] == r.value.1
  {
    if HasCode(s, req.code) then Err(Conflict)
    else Ok(Add(s, Entity(freshId, req.code, req.name, false, req.extra)))
  }

  /** Overwrites the editable fields of the row with this id in place,
      keeping its identity, its position and its soft-delete flag.
      Conflict when another row already uses the requested code (checked
      first), NotFound when no row has the id. */
  function Update<X>(s: Store<X>, id: int, req: Request<X>): (r: Result<(Store<X>, Entity<X>)>)
    ensures CodeHeldByOther(s, req.code, id) ==> r == Err(Conflict)
    ensures !CodeHeldByOther(s, req.code, id) && !HasId(s, id) ==> r == Err(NotFound)
    ensures r.Ok? <==> !CodeHeldByOther(s, req.code, id) && HasId(s, id)
    ensures r.Ok? ==>
              var e := r.value.1;
              e.id == id && e.code == req.code && e.name == req.name && e.extra == req.extra
    ensures r.Ok? ==>
              exists k :: FirstWithId(s.rows, k, id)
                          && r.value.1.isDeleted == s.rows[k].isDeleted
                          && r.value.0.rows == s.rows[k := r.value.1]
  {
    if CodeHeldByOther(s, req.code, id) then Err(Conflict)
    else
      var k := FindById(s.rows, id);
      if k == -1 then Err(NotFound)
      else
        var e := s.rows[k].(code := req.code, name := req.name, extra := req.extra);
        Ok((EntitySet(s.rows[k := e]), e))
  }

  /** Sets the soft-delete flag of the row with this id to `deleted`,
      leaving every other field and every other row alone; NotFound when no
      row has the id. */
  function SetStatus<X>(s: Store<X>, id: int, deleted: bool): (r: Result<Store<X>>)
    ensures r.Err? <==> !HasId(s, id)
    ensures r.Err? ==> r.error == NotFound
    ensures r.Ok? ==>
              exists k :: FirstWithId(s.rows, k, id)
                          && r.value.rows == s.rows[k := s.rows[k].(isDeleted := deleted)]
  {
    var k := FindById(s.rows, id);
    if k == -1 then Err(NotFound)
    else Ok(EntitySet(s.rows[k := s.rows[k].(isDeleted := deleted)]))
  }

  /** The second phase of deletion: removes the row with this id from the
      set, but only once it has been soft-deleted. NotFound when no row has
      the id, Conflict when the row is still active. */
  function Delete<X(==)>(s: Store<X>, id: int): (r: Result<Store<X>>)
    ensures !HasId(s, id) ==> r == Err(NotFound)
    ensures r.Ok? <==> Get(s, id).Ok? && Get(s, id).value.isDeleted
    ensures Get(s, id).Ok? && !Get(s, id).value.isDeleted ==> r == Err(Conflict)
    ensures r.Ok? ==> |r.value.rows| == |s.rows| - 1
    ensures r.Ok? ==>
              exists k :: FirstWithId(s.rows, k, id) && r.value.rows == s.rows[..k] + s.rows[k + 1..]
  {
    var k := FindById(s.rows, id);
    if k == -1 then Err(NotFound)
    else if !s.rows[k].isDeleted then Err(Conflict)
    else
      RemoveFindsRow(s.rows, k, id);
      Ok(Remove(s, s.rows[k]).0)
  }

  /** Removing a row by value takes out the first row with its id: no
      earlier row can equal it, since no earlier row has that id. */
  lemma RemoveFindsRow<X>(rows: seq<Entity<X>>, k: int, id: int)
    requires FirstWithId(rows, k, id)
    ensures IndexOf(rows, rows[k]) == k
  {
  }
}
