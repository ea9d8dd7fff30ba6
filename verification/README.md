# Sortable entries: verified model of the ordering logic

This project models the server-side ordering logic of a Strapi plugin that
lets editors reorder the entries of a collection by drag and drop and stores
the order in a sort field. The model has three parts:

- **Subset reorder engine** (`ReorderSubset`, file `reorder_subset.dfy`).
  Given a full sequence and some of its elements in a new order, the engine
  finds the positions that hold requested elements, in ascending order. It
  throws when the number of such positions differs from the number of
  requested elements. Otherwise it writes the requested elements into those
  positions in the new order and leaves every other position alone. The
  `Set` lookup of `reorderSubsetInPlace` is membership in the sequence.
- **Sort-order write set** (`SortOrderService`, file `sort_order_service.dfy`).
  This is the pure part of `updateSortOrder`. The document id at list
  position `i` gets one update request that writes `i` into the sort field,
  under the common locale. `ApplyUpdates` describes how a store holding sort
  values per document changes when the requests run: an update writes the
  sort field of an existing document and never creates one.
- **Initial sort value on create** (`AssignSortOrderValue`, file
  `assign_sort_order_value.dfy`). This is the decision logic of the
  document-service middleware. On a create whose data has the sort field but
  no provided value, the field becomes the last entry's value plus one, or 0
  when there is no last entry or its value is null. Every other request passes
  its data through unchanged. Every path that does not throw continues to
  `next`.

`Wrappers` (`Option`, `Result`) and `Sequences` (distinctness, element sets,
cardinality facts) are shared helpers.

JavaScript's `v || v === 0` is modelled by `IsProvided` over the value kinds
null, integer and string. The looked-up last entry's sort value is a parameter
of type `Option<int>`: `None` stands for no entry, or an entry whose field is
null or undefined. The value `Null` stands for both `null` and `undefined`,
which the middleware treats alike.

On duplicates, the engine's gate counts matched positions, not elements.
`DuplicateCountExample` shows that `a, x` against `a, a, b` passes the gate
and yields `a, x, b`. The doc comment at
server/src/utils/reorderSubsetInPlace.ts:10 says it throws when an element is
not found. That holds only when the full sequence has no repeats, which is the
case for document ids (`MissingElementFails`, `SucceedsIffAllPresent`).

The tests in server/src/services/service.test.ts:191-400 expect more from
`updateSortOrder` than server/src/services/service.ts:53-77 does. They expect
it to fetch the current order, delegate to the reorder engine when filters
are set, reject a length mismatch, and skip positions that did not change.
The model follows the code as written: every id is written, in list order
(`ReversedListExample` shows five writes where those tests expect four).

## Model

| member | source | states |
|---|---|---|
| ReorderSubset.MatchedPositions | server/src/utils/reorderSubsetInPlace.ts:26-35 | the positions scan gives ascending, in-range indices; each holds an element of `newSubsetOrder`, and no index whose element is requested is missed |
| ReorderSubset.MatchedBelowSpec | server/src/utils/reorderSubsetInPlace.ts:28-35 | the same for the scan over the first `n` elements, proved by induction over the `forEach` |
| ReorderSubset.Overwrite | server/src/utils/reorderSubsetInPlace.ts:42-45 | overwriting a copy keeps its length, puts `values[k]` at the k-th position, and leaves every other slot unchanged |
| ReorderSubset.Reorder | server/src/utils/reorderSubsetInPlace.ts:25-48 | throws exactly when the count of matched positions differs from the subset's length; on success the length is kept, unmatched slots keep their element, and the k-th matched slot holds the k-th requested element |
| ReorderSubset.ReorderSubsetInPlace | server/src/utils/reorderSubsetInPlace.ts:25-48 | the loop version (scan, gate, overwrite a copy) returns exactly the engine's result |
| ReorderSubset.MatchCountIsIndexCount | server/src/utils/reorderSubsetInPlace.ts:28-37 | the count compared at the gate is the number of indices whose element is in `newSubsetOrder` |
| ReorderSubset.MatchedElementsOfDistinct | server/src/utils/reorderSubsetInPlace.ts:26-35 | with no repeats in the input, the matched elements have no repeats and are exactly the requested elements present in the input |
| ReorderSubset.MissingElementFails | server/src/utils/reorderSubsetInPlace.ts:37-39 | with no repeats in the input, a requested element missing from the input makes the engine throw |
| ReorderSubset.SucceedsIffAllPresent | server/src/utils/reorderSubsetInPlace.ts:26-39 | with no repeats in either input, the engine succeeds exactly when every requested element is present |
| ReorderSubset.SubsetKeepsPositions | server/src/utils/reorderSubsetInPlace.ts:43-45 | on success a slot holds a requested element afterwards exactly when it held one before |
| ReorderSubset.OverwriteMultiset | server/src/utils/reorderSubsetInPlace.ts:42-45 | overwriting exchanges the elements previously at the positions for the written values, counted with multiplicity |
| ReorderSubset.ReorderIsPermutation | server/src/utils/reorderSubsetInPlace.ts:2-8 | with no repeats in either input and every requested element present, the engine succeeds and its result is a permutation of the input |
| ReorderSubset.MatchedPositionsFollowPattern | server/src/utils/reorderSubsetInPlace.ts:29-35 | the scan depends only on which slots hold requested elements |
| ReorderSubset.ReorderIdempotent | server/src/utils/reorderSubsetInPlace.ts:28-45 | reordering a successful result again with the same subset returns it unchanged, for all inputs |
| ReorderSubset.EmptySubsetKeepsArray | server/src/utils/reorderSubsetInPlace.test.ts:9-31 | an empty subset returns the input unchanged, and empty with empty gives empty |
| ReorderSubset.SingleElementKeepsArray | server/src/utils/reorderSubsetInPlace.ts:28-45 | whenever a single requested element passes the gate, the result equals the input, repeats included |
| ReorderSubset.SingleElementKeepsDistinctArray | server/src/utils/reorderSubsetInPlace.test.ts:44-54 | a single requested element present in a repeat-free input succeeds and leaves the input unchanged |
| ReorderSubset.WorkedExample | server/src/utils/reorderSubsetInPlace.test.ts:56-66 | `a..f` reordered by `e, a, c` gives `e, b, a, d, c, f` |
| ReorderSubset.InvalidElementExample | server/src/utils/reorderSubsetInPlace.test.ts:33-42 | `a..f` with `a, b, g` throws |
| ReorderSubset.DuplicateCountExample | server/src/utils/reorderSubsetInPlace.ts:26-39 | with a repeated element the gate counts positions: `a, a, b` with `a, x` passes and gives `a, x, b` |
| SortOrderService.UpdateSortOrder | server/src/services/service.ts:66-74 | one request per id; the request at position `i` carries that id unchanged and the common locale, and writes only the sort field, with value `i` |
| SortOrderService.RequestsFollowInputOrder | server/src/services/service.ts:66-76 | the requests address exactly the input ids, in input order |
| SortOrderService.WrittenValuesAreIndices | server/src/services/service.ts:66-71 | the written sort values are exactly `0..n-1`, without gaps or duplicates |
| SortOrderService.UpdatesStorePositions | server/src/services/service.ts:66-76 | for distinct ids, after the requests run each listed document the store holds stores its list position, every other document keeps its value, and no document is added or removed |
| SortOrderService.ApplyDistinctUpdates | server/src/services/service.ts:66-76 | requests for distinct documents, each writing the sort field, leave every existing addressed document with the value its request writes and every other document unchanged |
| SortOrderService.PermutedIdsDistinct | server/src/services/service.ts:66-76 | any permutation of requests for distinct documents again addresses distinct documents |
| SortOrderService.UpdateOrderIrrelevant | server/src/services/service.ts:76 | for distinct ids, running the same requests in any permutation leaves the store the same, so the order in which `Promise.all` settles does not matter |
| SortOrderService.ReversedListExample | server/src/services/service.ts:66-74 | `doc-5 .. doc-1` gives five requests writing 0..4 in that order |
| AssignSortOrderValue.HasSortOrderField | server/src/document-service-middlewares/assign-sort-order-value.ts:26-27 | the data has the sort field as an own property; its effect on a create is stated by `CreateWritesExactlyWhenUnset` |
| AssignSortOrderValue.IsProvided | server/src/document-service-middlewares/assign-sort-order-value.ts:50 | `v \|\| v === 0` holds exactly for values other than null and the empty string; every number, zero included, counts as provided |
| AssignSortOrderValue.CreateWritesExactlyWhenUnset | server/src/document-service-middlewares/assign-sort-order-value.ts:26-53 | a create changes the data exactly when it has the sort field without a provided value; the field's presence never changes, and a second pass changes nothing |
| AssignSortOrderValue.NextSortOrder | server/src/document-service-middlewares/assign-sort-order-value.ts:60-61 | the next value is strictly above a present last value (0 included), and 0 when there is none |
| AssignSortOrderValue.MiddlewareCallback | server/src/document-service-middlewares/assign-sort-order-value.ts:39-76 | non-create actions (delete included), data without the sort field, and a provided value (0 included) leave the data unchanged; otherwise only the sort field is written, with the next sort value; the key set never changes |
| AssignSortOrderValue.CreateKeepsValuesContiguous | server/src/document-service-middlewares/assign-sort-order-value.ts:56-63 | when the existing values are `0..n-1` and the last entry holds the largest, the new value is `n`: above every existing value, and the values become `0..n` |

## Left out

- Store calls: `fetchEntries`, `strapi.documents(uid).findMany` and `update`, and `fetchLastEntry` are persistence I/O. Update requests are outputs, and the last entry's sort value is an input.
- Concurrency: `Promise.all` in server/src/services/service.ts:76 and the async `next()` chain are not modelled. The requests form an ordered sequence that `ApplyUpdates` runs one after another. When the ids are distinct, their order does not change the outcome (`UpdateOrderIrrelevant`). server/src/services/service.ts does not check that the ids are distinct.
- Duplicate ids: server/src/services/service.ts:66 maps every id, and server/src/controllers/controller.ts only checks that `sortedDocumentIds` is present. So a repeated id issues concurrent writes to one document, and the stored value depends on timing. The sequential model lets the last write win, so the store lemmas require distinct ids.
- ApplyUpdates: this is a model of the document store's `update` for one locale, not of any line of the plugin. It writes only the sort field of an existing document; a request for an unknown id changes nothing. Drafts, publication and the other fields of a document are not modelled. Every update is assumed to succeed. A failed update makes `Promise.all` at server/src/services/service.ts:76 reject while other writes may already have landed, and nothing is rolled back.
- The filter, diff and length-check behaviour expected by server/src/services/service.test.ts:191-400 is not implemented in server/src/services/service.ts, so it is not modelled.
- HTTP controller (server/src/controllers/controller.ts), routes, registration, and the admin UI (including `arrayMove`) are request plumbing, wiring or interface code.
- The configured name of the sort field and the `DocumentAction` constants are not part of this model. The field name is a parameter, and actions other than create and delete are `OtherAction`.
- AssignSortOrderValue: JavaScript values other than null or undefined (both `Null`), integers and strings (floats, NaN, booleans, objects) are outside the value model.
- AssignSortOrderValue.NextSortOrder: sort values are unbounded integers. JavaScript numbers are doubles, so above `Number.MAX_SAFE_INTEGER` (2^53 - 1) the `+ 1` at server/src/document-service-middlewares/assign-sort-order-value.ts:61 can return the same value, and the model's `next > last` does not hold there. The width of the stored column is not modelled either.
- Throwing paths of the middleware: when `context.params.data` is null or undefined, `hasOwnProperty` at server/src/document-service-middlewares/assign-sort-order-value.ts:27 throws. When the last-entry lookup at :56-58 rejects, the callback rejects too. Both paths skip `next()`. In the model the data is always a map and the lookup always answers. The file that defines `fetchLastEntry` is not part of this model; server/src/services/service.ts does not define it.
- SortOrderService.UpdateSortOrder: the content-type uid is not modelled, because every request of one call targets the same content type.
