# KatlaSport in-memory entity sets and service contracts, in Dafny

KatlaSport is an inventory back end. It manages hives, hive sections, catalogue
products and product categories. Its domain services are written against an
asynchronous entity-set abstraction. Their tests run them against two
in-memory substitutes, `FakeAsyncEntitySet<T>` and `FakeEntitySet<T>`.
`FakeAsyncEntitySet<T>` is a façade over one shared list: `Add`/`Attach`
append, `Remove`/`Detach` delete the first equal element, `Count` is the list
length, and both enumerators and the query root read the live list.
`FakeEntitySet<T>` defines its `Add`, `Remove`, query root and asynchronous
enumerator in the same way.

This project models two things:

- those substitutes, as an immutable `EntitySet<T>` over a `seq<T>`;
- the service contract the four service test files assert, as one generic
  service over `Entity(id, code, name, isDeleted, extra)` running on that
  entity set.

The four services share one contract: list, get, create, update, set-status
and a two-phase delete, failing with `NotFound` or `Conflict`. `extra` stands
for the kind-specific editable fields. For a hive it is the `Address`.

Files and modules:

- `outcomes.dfy` (`Outcomes`): `Option`, the two failures, `Result`.
- `lists.dfy` (`Lists`): `List<T>.IndexOf`, `RemoveAt` and `Remove`
  (first occurrence), plus an independent front-to-back reference definition.
- `enumerators.dfy` (`Enumerators`): the list enumerator as a cursor, the
  asynchronous wrapper, and the consumer loop over the asynchronous protocol.
- `entity_sets.dfy` (`EntitySets`): the entity set façade, its enumerators,
  the deferred query (`Root` or a `Where` filter) and its liveness lemmas.
- `services.dfy` (`Services`): the entity, request and list-item records, and
  the six service operations.
- `service_laws.dfy` (`ServiceLaws`): read-after-write, the soft-delete state
  machine, and preservation of unique ids and codes.

Modelling decisions:

- The service classes are not part of this model; only their tests are. Each
  operation states what those tests assert, over every input rather than the
  ten fixture rows.
- `Get` does not hide soft-deleted rows. `List` returns every row,
  soft-deleted ones included. The list tests expect one item per fixture row,
  whatever its flag.
- `Create` is refused when any row already holds the requested code,
  soft-deleted or not. The conflict tests reuse the code of row 0 without
  looking at its flag.
- The new row's identity is a parameter (`freshId`). The lemmas that need it
  fresh say so. A created row starts active.
- `Update` is refused with `Conflict` when a row with a different id holds the
  requested code, and with `NotFound` when the id is absent. When both hold,
  the tests do not say which wins; the model reports `Conflict`.
- `Delete` finds the row, fails with `NotFound` or `Conflict`, and otherwise
  removes it through `EntitySets.Remove`.
- `Add` does not reject a duplicate id: the code appends. `Remove` of an
  absent item is a no-op, as in `List<T>.Remove`.
- Element equality is the element type's own. For the entity classes that is
  reference identity, which for rows with unique ids picks the same row.
- `FakeAsyncEntitySet` is modelled by `EntitySet<T>`. The members that
  `FakeEntitySet` defines itself (`Add`, `Remove`, the query root and the
  asynchronous enumerator) have the same bodies, so the same datatype models
  them too.
- `AsyncEnumeratorWrapper` is not part of this model. It is modelled as
  completing every advance at once with the wrapped enumerator's answer.

Test coverage. The service test files check broadly the same behaviours
(the differences are listed under "Left out"), and the members below cover
them for all four entity kinds:

- list: `Services.List`, `Services.ListAll`, `ServiceLaws.ListWholeSet`
- get: `Services.Get`
- create: `Services.Create`, `ServiceLaws.SecondCreateConflicts`
- update: `Services.Update`, `ServiceLaws.UpdateThenGet`
- delete: `Services.Delete`, `ServiceLaws.DeleteThenNotFound`,
  `ServiceLaws.SoftDeleteThenPurge`
- set-status: `Services.SetStatus`, `ServiceLaws.SetStatusThenGet`

## Model

| member | source | states |
|---|---|---|
| `Lists.RemoveFirst` | KatlaSport.Services.Tests/FakeEntitySet.cs:28-32 | removing deletes exactly the first equal element and keeps all other elements in order (one fewer element, multiset minus one copy); a list without the element is unchanged |
| `Lists.RemoveFirstMatchesRef` | KatlaSport.Services.Tests/FakeAsyncEntitySet.cs:65-69 | removal via IndexOf and RemoveAt equals an independent front-to-back "drop the first match" definition |
| `Lists.AppendThenRemoveFirst` | KatlaSport.Services.Tests/FakeEntitySet.cs:22-32 | appending an element the list lacked, then removing it, restores the list |
| `EntitySets.Add` | KatlaSport.Services.Tests/FakeAsyncEntitySet.cs:59-63 | the item is appended after all existing rows, which are unchanged; Count grows by exactly one; the same item is returned; no duplicate check |
| `EntitySets.Remove` | KatlaSport.Services.Tests/FakeAsyncEntitySet.cs:65-69 | only the first occurrence is deleted, the other rows keep their order, Count drops by one; an absent item leaves the set unchanged; the argument is returned |
| `EntitySets.Attach` | KatlaSport.Services.Tests/FakeAsyncEntitySet.cs:71-75 | Attach behaves exactly like Add |
| `EntitySets.Detach` | KatlaSport.Services.Tests/FakeAsyncEntitySet.cs:77-81 | Detach behaves exactly like Remove |
| `EntitySets.Count` | KatlaSport.Services.Tests/FakeAsyncEntitySet.cs:44-47 | Count is the number of rows that enumerating the set yields, soft-deleted rows included |
| `EntitySets.AddThenRemove` | KatlaSport.Services.Tests/FakeEntitySet.cs:22-32 | Add of an entity not in the set followed by Remove of it restores the original set |
| `Enumerators.Drain` | KatlaSport.Services.Tests/FakeAsyncEntitySet.cs:99-102 | advancing the list enumerator until it answers false yields the not-yet-yielded elements in list order |
| `EntitySets.GetEnumerator` | KatlaSport.Services.Tests/FakeAsyncEntitySet.cs:94-102 | both synchronous enumerators start before the first row, and walking one to the end yields the backing rows in order |
| `EntitySets.GetAsyncEnumerator` | KatlaSport.Services.Tests/FakeAsyncEntitySet.cs:104-112 | the asynchronous enumerator starts before the first row and wraps a cursor that yields the backing rows in order |
| `Enumerators.ToListAsync` | KatlaSport.Services.Tests/FakeAsyncEntitySet.cs:104-112 | consuming the asynchronous enumerator yields exactly what synchronous enumeration of the wrapped enumerator yields |
| `EntitySets.ToListAsync` | KatlaSport.Services.Tests/FakeEntitySet.cs:34-42 | the set's asynchronous enumerator, consumed to the end, yields the backing rows in order |
| `EntitySets.AsQueryable` | KatlaSport.Services.Tests/FakeAsyncEntitySet.cs:18-22 | the query root is built over the list reference, not a copy: run against the set at any later time, after any Add or Remove, it returns exactly the rows the set then holds |
| `EntitySets.Execute` | KatlaSport.Services.Tests/FakeAsyncEntitySet.cs:18-42 | a query run against the set is one in-order pass over the live rows keeping each row that every stacked filter accepts, once per occurrence; so every returned row is an accepted row of the set, every accepted row is returned, and there are no more results than rows |
| `EntitySets.FilterPartition` | KatlaSport.Services.Tests/FakeAsyncEntitySet.cs:34-42 | what a filter keeps and what its complement keeps together are the whole row list as a multiset: each row is returned exactly as often as it occurs when accepted, and not at all otherwise |
| `EntitySets.ExecuteAfterAdd` | KatlaSport.Services.Tests/FakeEntitySet.cs:14-26 | any filtered query over the root, run after Add, returns its earlier results plus the new row at the end when the filters accept it |
| `EntitySets.ExecuteAfterRemove` | KatlaSport.Services.Tests/FakeEntitySet.cs:14-32 | any filtered query over the root, run after Remove, returns its earlier results without the first occurrence of the removed row when the filters accepted it, and unchanged otherwise |
| `Services.List` | KatlaSport.Services.Tests/ProductManagement/ProductCatalogueServiceAutoFixtureTests.cs:31-41 | a page from offset 0 has min(take, Count) items, item i describing row i, soft-deleted rows included |
| `Services.ListAll` | KatlaSport.Services.Tests/HiveManagement/HiveSectionServiceAutoFixtureTest.cs:31-38 | the unpaged list has exactly one item per row of the set, in set order |
| `ServiceLaws.ListWholeSet` | KatlaSport.Services.Tests/ProductManagement/ProductCategoryServiceAutoFixtureTests.cs:31-40 | asking for skip 0, take Count returns all Count rows, the same as the unpaged list |
| `ServiceLaws.SoftDeletedRowsStayListed` | KatlaSport.Services.Tests/FakeAsyncEntitySet.cs:44-47 | soft-deleting a row changes neither Count nor the number of listed items |
| `Services.Get` | KatlaSport.Services.Tests/HiveManagement/HiveServiceAutoFixtureTest.cs:44-62 | get fails with NotFound exactly when no row has the id; otherwise it returns the first row with that id, carrying its code, name and address |
| `ServiceLaws.GetAgreesWithQuery` | KatlaSport.Services.Tests/ProductManagement/ProductCategoryServiceAutoFixtureTests.cs:44-62 | get fails exactly when the id filter run through the query root returns nothing, and otherwise returns that filter's first result |
| `Services.Create` | KatlaSport.Services.Tests/ProductManagement/ProductCatalogueServiceAutoFixtureTests.cs:73-99 | create fails with Conflict exactly when some row holds the request's code; otherwise it appends one active row with the fresh id, and the returned view's code, name and extra fields equal the request's |
| `ServiceLaws.CreateThenGet` | KatlaSport.Services.Tests/HiveManagement/HiveServiceAutoFixtureTest.cs:66-76 | the created view, with the request's code, name and address, is what a later get of the new id returns |
| `ServiceLaws.SecondCreateConflicts` | KatlaSport.Services.Tests/HiveManagement/HiveSectionServiceAutoFixtureTest.cs:77-84 | after a create, a second create with the same code fails with Conflict |
| `ServiceLaws.CreatePreservesValid` | KatlaSport.Services.Tests/ProductManagement/ProductCategoryServiceAutoFixtureTests.cs:77-86 | with a fresh id, create keeps ids and codes unique across the set |
| `Services.Update` | KatlaSport.Services.Tests/HiveManagement/HiveServiceAutoFixtureTest.cs:91-126 | update fails with Conflict when another id holds the code, and with NotFound when the id is absent; otherwise it overwrites the row in place, keeping id, position and flag, and taking code, name and address from the request |
| `ServiceLaws.UpdateThenGet` | KatlaSport.Services.Tests/HiveManagement/HiveSectionServiceAutoFixtureTest.cs:88-110 | a later get of the same id returns the updated view |
| `ServiceLaws.UpdatePreservesValid` | KatlaSport.Services.Tests/ProductManagement/ProductCatalogueServiceAutoFixtureTests.cs:121-132 | update keeps ids and codes unique, because the written code is held by no other row |
| `Services.SetStatus` | KatlaSport.Services.Tests/ProductManagement/ProductCategoryServiceAutoFixtureTests.cs:163-193 | set-status fails with NotFound exactly when no row has the id; otherwise it writes the requested flag, either way, into that row and changes nothing else |
| `ServiceLaws.SetStatusThenGet` | KatlaSport.Services.Tests/HiveManagement/HiveServiceAutoFixtureTest.cs:165-185 | for an existing id, set-status succeeds and get of the id returns the same row with the requested flag |
| `ServiceLaws.SetStatusIdempotent` | KatlaSport.Services.Tests/HiveManagement/HiveSectionServiceAutoFixtureTest.cs:149-169 | setting the same status twice leaves the store as setting it once |
| `ServiceLaws.SoftDeleteThenRestore` | KatlaSport.Services.Tests/ProductManagement/ProductCatalogueServiceAutoFixtureTests.cs:194-220 | for the first row with an id that is active, soft-deleting it and then restoring it succeeds and gives back the original store |
| `ServiceLaws.SetStatusPreservesValid` | KatlaSport.Services.Tests/ProductManagement/ProductCategoryServiceAutoFixtureTests.cs:173-183 | status changes keep ids and codes unique |
| `Services.Delete` | KatlaSport.Services.Tests/ProductManagement/ProductCatalogueServiceAutoFixtureTests.cs:150-190 | delete succeeds exactly on an existing soft-deleted row and physically removes it, with Count one lower and the other rows in order; an absent id fails with NotFound, an active row fails with Conflict |
| `ServiceLaws.DeleteThenNotFound` | KatlaSport.Services.Tests/ProductManagement/ProductCategoryServiceAutoFixtureTests.cs:128-137 | with unique ids, deleting a soft-deleted row succeeds, and afterwards the id is gone: get, a second delete and set-status all fail with NotFound |
| `ServiceLaws.DeletePreservesValid` | KatlaSport.Services.Tests/HiveManagement/HiveServiceAutoFixtureTest.cs:130-139 | in a store with unique ids and codes, deleting a soft-deleted row succeeds and keeps ids and codes unique |
| `ServiceLaws.SoftDeleteThenPurge` | KatlaSport.Services.Tests/HiveManagement/HiveSectionServiceAutoFixtureTest.cs:114-145 | with unique ids, for an active row delete fails with Conflict; after a soft delete it succeeds, and a later get fails with NotFound |

## Left out

- `Find`, `FindAsync` and `Local` throw `NotImplementedException` in both substitutes. They hold no behaviour to model.
- `Create()` and `Create<TDerived>()` build instances by reflection (`Activator`). This is not modelled.
- The query provider (`AsyncQueryProviderWrapper`, `AsyncEnumerableQuery`) and LINQ expression trees are not modelled. A query is a root with stacked `Where` filters. Projection, ordering and execution through a provider are left out.
- Cancellation tokens, disposal and the `Task` machinery of the asynchronous enumerator are left out. Every advance completes at once.
- `List<T>`'s enumerator aborts when the list changes mid-walk. This version check is not modelled: a cursor walks the list it was created over.
- AutoMapper, AutoFixture, Moq and xUnit are left out. The entity-to-view mapping is taken as a field-for-field copy, and a returned view is the entity row itself.
- Audit fields, such as who changed a row and when, are not modelled. The service classes, which would fill them in from the user context and the clock, are not part of this model, and no test asserts such a field.
- The related sets that some list tests also populate (hive sections for hives, products for categories) are not modelled. The services that might read them are not part of this model, and the tests assert only the item count.
- `Services.List` models only pages that start at offset 0, which is all the tests exercise. Other offsets are not modelled.
- `Services.List`: the tests do not pin the order of list results. The model lists rows in set order.
- `Services.ListAll`: the hive and hive-section list tests assert only the number of items, not their order. The model lists rows in set order.
- `FakeEntitySet` inherits `Attach`, `Detach`, `Count` and its synchronous enumerator from `EntitySetBase`, which is not part of this model. They are taken to behave like `FakeAsyncEntitySet`'s members of the same name.
- `Services.SetStatus`/`Services.Update`: rows are values, and an operation writes the first row with the id. In the services the entities are objects changed in place, and since `Add` makes no duplicate check, one object could sit in the list twice, where a change through one position shows at both. One object listed twice is not modelled: the tests seed distinct objects with distinct ids.
- `Services.Update`: the hive-section tests do not exercise the Conflict path. The model applies the same code check to all four kinds.
- `Services.Create`: identity allocation is not modelled. The new id is a parameter, and only lemmas that need it fresh require it to be absent.
