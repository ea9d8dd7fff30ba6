/** The pure part of the sort-order service: turning an ordered list of
    document ids into the update requests that write each id's new sort
    value. The document store that executes the requests is not modelled;
    its effect on stored sort values is described by `ApplyUpdates`. */
module SortOrderService {
  import opened Wrappers
  import opened Sequences

  type DocumentId = string
  type Locale = string

  /** One `update` call on the document store: the document, the locale it
      is scoped to (`None` when localization is off) and the data written. */
  datatype UpdateRequest = UpdateRequest(documentId: DocumentId, locale: Option<Locale>, data: map<string, int>)

  /** The requests `updateSortOrder` issues, one per id, in list order: the id
      at position `i` gets `sortOrderField` set to `i`. */
  function UpdateSortOrder(sortOrderField: string, sortedDocumentIds: seq<DocumentId>, locale: Option<Locale>)
    : (requests: seq<UpdateRequest>)
    ensures |requests| == |sortedDocumentIds|
    ensures forall i :: 0 <= i < |requests| ==>
      && requests[i].documentId == sortedDocumentIds[i]
      && requests[i].locale == locale
      && requests[i].data.Keys == {sortOrderField}
      && requests[i].data[sortOrderField] == i
    decreases |sortedDocumentIds|
  {
    if |sortedDocumentIds| == 0 then []
    else
      var last := |sortedDocumentIds| - 1;
      UpdateSortOrder(sortOrderField, sortedDocumentIds[..last], locale)
        + [UpdateRequest(sortedDocumentIds[last], locale, map[sortOrderField := last])]
  }

  /** The ids the requests address, in request order. */
  function RequestedIds(requests: seq<UpdateRequest>): seq<DocumentId> {
    seq(|requests|, i requires 0 <= i < |requests| => requests[i].documentId)
  }

  /** The sort values the requests write, in request order. */
  function WrittenValues(sortOrderField: string, requests: seq<UpdateRequest>): seq<int>
    requires forall i :: 0 <= i < |requests| ==> sortOrderField in requests[i].data
  {
    seq(|requests|, i requires 0 <= i < |requests| => requests[i].data[sortOrderField])
  }

  /** The requests address exactly the given ids, in the given order: no id is
      added, dropped or moved. */
  lemma RequestsFollowInputOrder(sortOrderField: string, sortedDocumentIds: seq<DocumentId>, locale: Option<Locale>)
    ensures RequestedIds(UpdateSortOrder(sortOrderField, sortedDocumentIds, locale)) == sortedDocumentIds
  {
  }

  /** The written sort values are exactly `0 .. n-1`, each once. */
  lemma WrittenValuesAreIndices(sortOrderField: string, sortedDocumentIds: seq<DocumentId>, locale: Option<Locale>)
    ensures var values := WrittenValues(sortOrderField, UpdateSortOrder(sortOrderField, sortedDocumentIds, locale));
      && Distinct(values)
      && (forall v :: v in values <==> 0 <= v < |sortedDocumentIds|)
  {
    var values := WrittenValues(sortOrderField, UpdateSortOrder(sortOrderField, sortedDocumentIds, locale));
    assert forall i :: 0 <= i < |values| ==> values[i] == i;
    forall v | 0 <= v < |sortedDocumentIds|
      ensures v in values
    {
      assert values[v] == v;
    }
  }

  /** Sort values per document, as held by the store for one locale. */
  type SortStore = map<DocumentId, int>

  /** The store after executing the requests one after another. An update
      addresses an existing document: a request for an id the store does not
      hold changes nothing, so updates never create or remove documents. */
  function ApplyUpdates(sortOrderField: string, store: SortStore, requests: seq<UpdateRequest>): (after: SortStore)
    ensures after.Keys == store.Keys
    decreases |requests|
  {
    if |requests| == 0 then store
    else
      var last := requests[|requests| - 1];
      var before := ApplyUpdates(sortOrderField, store, requests[..|requests| - 1]);
      if last.documentId in before && sortOrderField in last.data
      then before[last.documentId := last.data[sortOrderField]]
      else before
  }

  /** Requests for distinct documents, each writing the sort field: every
      addressed document that exists ends with the value its request writes,
      and every other document keeps its value. */
  lemma {:induction false} ApplyDistinctUpdates(sortOrderField: string, store: SortStore, requests: seq<UpdateRequest>)
    requires Distinct(RequestedIds(requests))
    requires forall j :: 0 <= j < |requests| ==> sortOrderField in requests[j].data
    ensures var after := ApplyUpdates(sortOrderField, store, requests);
      && (forall j :: 0 <= j < |requests| && requests[j].documentId in store ==>
            after[requests[j].documentId] == requests[j].data[sortOrderField])
      && (forall id :: id in store && id !in RequestedIds(requests) ==> after[id] == store[id])
    decreases |requests|
  {
    if |requests| > 0 {
      var n := |requests| - 1;
      var prefix := requests[..n];
      assert RequestedIds(prefix) == RequestedIds(requests)[..n];
      ApplyDistinctUpdates(sortOrderField, store, prefix);
      var after := ApplyUpdates(sortOrderField, store, requests);
      forall j | 0 <= j < |requests| && requests[j].documentId in store
        ensures after[requests[j].documentId] == requests[j].data[sortOrderField]
      {
        if j < n {
          assert requests[j].documentId == RequestedIds(requests)[j];
          assert requests[n].documentId == RequestedIds(requests)[n];
          assert prefix[j] == requests[j];
        }
      }
      forall id | id in store && id !in RequestedIds(requests)
        ensures after[id] == store[id]
      {
        assert id != RequestedIds(requests)[n];
        assert id !in RequestedIds(prefix);
      }
    }
  }

  /** Any reordering of requests for distinct documents again addresses
      distinct documents. */
  lemma PermutedIdsDistinct(requests: seq<UpdateRequest>, reordered: seq<UpdateRequest>)
    requires Distinct(RequestedIds(requests))
    requires multiset(reordered) == multiset(requests)
    ensures Distinct(RequestedIds(reordered))
  {
    forall i, j | 0 <= i < j < |requests|
      ensures requests[i] != requests[j]
    {
      assert RequestedIds(requests)[i] != RequestedIds(requests)[j];
    }
    assert Distinct(requests);
    DistinctCounts(requests);
    DistinctOfCounts(reordered);
    forall i, j | 0 <= i < j < |reordered|
      ensures RequestedIds(reordered)[i] != RequestedIds(reordered)[j]
    {
      assert reordered[i] in multiset(requests) && reordered[j] in multiset(requests);
      var a :| 0 <= a < |requests| && requests[a] == reordered[i];
      var b :| 0 <= b < |requests| && requests[b] == reordered[j];
      assert a != b;
      assert RequestedIds(requests)[a] != RequestedIds(requests)[b];
    }
  }

  /** Running requests for distinct documents in any other order leaves the
      store the same: the outcome of `Promise.all` does not depend on which
      update the store executes first. */
  lemma UpdateOrderIrrelevant(sortOrderField: string, store: SortStore,
                              requests: seq<UpdateRequest>, reordered: seq<UpdateRequest>)
    requires Distinct(RequestedIds(requests))
    requires multiset(reordered) == multiset(requests)
    requires forall j :: 0 <= j < |requests| ==> sortOrderField in requests[j].data
    ensures ApplyUpdates(sortOrderField, store, reordered) == ApplyUpdates(sortOrderField, store, requests)
  {
    PermutedIdsDistinct(requests, reordered);
    forall j | 0 <= j < |reordered|
      ensures sortOrderField in reordered[j].data
    {
      assert reordered[j] in multiset(requests);
    }
    ApplyDistinctUpdates(sortOrderField, store, requests);
    ApplyDistinctUpdates(sortOrderField, store, reordered);
    var a := ApplyUpdates(sortOrderField, store, requests);
    var b := ApplyUpdates(sortOrderField, store, reordered);
    forall id | id in store
      ensures a[id] == b[id]
    {
      if id in RequestedIds(requests) {
        var j :| 0 <= j < |requests| && RequestedIds(requests)[j] == id;
        assert requests[j] in multiset(reordered);
        var k :| 0 <= k < |reordered| && reordered[k] == requests[j];
        assert RequestedIds(reordered)[k] == id;
      } else {
        forall k | 0 <= k < |reordered|
          ensures RequestedIds(reordered)[k] != id
        {
          assert reordered[k] in multiset(requests);
          var j :| 0 <= j < |requests| && requests[j] == reordered[k];
          assert RequestedIds(requests)[j] == reordered[k].documentId;
        }
      }
    }
  }

  /** After the requests run, every listed document (ids distinct) that the
      store holds stores its list position as sort value, every other
      document keeps its value, and no document is added or removed. */
  lemma UpdatesStorePositions(sortOrderField: string, store: SortStore,
                              sortedDocumentIds: seq<DocumentId>, locale: Option<Locale>)
    requires Distinct(sortedDocumentIds)
    ensures var after := ApplyUpdates(sortOrderField, store, UpdateSortOrder(sortOrderField, sortedDocumentIds, locale));
      && after.Keys == store.Keys
      && (forall i :: 0 <= i < |sortedDocumentIds| && sortedDocumentIds[i] in store ==> after[sortedDocumentIds[i]] == i)
      && (forall id :: id in store && id !in sortedDocumentIds ==> after[id] == store[id])
  {
    var requests := UpdateSortOrder(sortOrderField, sortedDocumentIds, locale);
    RequestsFollowInputOrder(sortOrderField, sortedDocumentIds, locale);
    ApplyDistinctUpdates(sortOrderField, store, requests);
  }

  /** The request list for `d1 .. d5` reversed, as the service issues it. */
  lemma ReversedListExample()
    ensures UpdateSortOrder("sortOrder", ["doc-5", "doc-4", "doc-3", "doc-2", "doc-1"], Some("en"))
         == [ UpdateRequest("doc-5", Some("en"), map["sortOrder" := 0]),
              UpdateRequest("doc-4", Some("en"), map["sortOrder" := 1]),
              UpdateRequest("doc-3", Some("en"), map["sortOrder" := 2]),
              UpdateRequest("doc-2", Some("en"), map["sortOrder" := 3]),
              UpdateRequest("doc-1", Some("en"), map["sortOrder" := 4]) ]
  {
    var ids := ["doc-5", "doc-4", "doc-3", "doc-2", "doc-1"];
    var r := UpdateSortOrder("sortOrder", ids, Some("en"));
    forall i | 0 <= i < 5
      ensures r[i] == UpdateRequest(ids[i], Some("en"), map["sortOrder" := i])
    {
      assert r[i].data == map["sortOrder" := i];
    }
  }
}
