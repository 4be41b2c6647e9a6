/**
 The indexes of one collection, kept in step with its documents: an insert
 that any index refuses is rolled back in the indexes already changed.
 */
module IndexManager {
  import opened Wrappers
  import opened Documents
  import opened IndexKeys
  import opened BTreeIndex

  ghost predicate Named(indexes: seq<Index>) {
    forall i, j :: 0 <= i < j < |indexes| ==> indexes[i].name != indexes[j].name
  }

  ghost predicate AllAgree(indexes: seq<Index>, docs: Collection) {
    forall i {:trigger indexes[i]} :: 0 <= i < |indexes| ==> Agrees(indexes[i], docs)
  }

  /** Every index accepts the document. */
  ghost predicate AllAccept(indexes: seq<Index>, id: Id, doc: Fields, estimate: Estimate) {
    forall i {:trigger indexes[i]} :: 0 <= i < |indexes| ==> Insert(indexes[i], id, doc, estimate).Ok?
  }

  ghost predicate AllAcceptable(indexes: seq<Index>, docs: Collection, doc: Fields) {
    forall i {:trigger indexes[i]} :: 0 <= i < |indexes| ==> Acceptable(indexes[i], docs, doc)
  }

  ghost predicate SameDefinitions(before: seq<Index>, now: seq<Index>) {
    |now| == |before| && forall i {:trigger now[i]} :: 0 <= i < |now| ==> SameDefinition(before[i], now[i])
  }

  lemma AcceptedIff(indexes: seq<Index>, docs: Collection, id: Id, doc: Fields, estimate: Estimate)
    requires AllAgree(indexes, docs)
    ensures AllAccept(indexes, id, doc, estimate) <==> AllAcceptable(indexes, docs - {id}, doc)
  {
    forall i | 0 <= i < |indexes|
      ensures Insert(indexes[i], id, doc, estimate).Ok? <==> Acceptable(indexes[i], docs - {id}, doc)
    {
      InsertFailsIff(indexes[i], docs, id, doc, estimate);
    }
  }

  /** What is acceptable depends on the definition of an index alone. */
  lemma SameAcceptable(before: seq<Index>, now: seq<Index>, docs: Collection, doc: Fields)
    requires SameDefinitions(before, now)
    ensures AllAcceptable(before, docs, doc) <==> AllAcceptable(now, docs, doc)
  {
    forall i | 0 <= i < |now| ensures Acceptable(before[i], docs, doc) <==> Acceptable(now[i], docs, doc) {
      forall d ensures Listed(before[i], d) == Listed(now[i], d) {}
    }
  }

  /** Every index can compute the document's key. */
  ghost predicate AllKeyed(indexes: seq<Index>, doc: Fields) {
    forall i {:trigger indexes[i]} :: 0 <= i < |indexes| ==> KeyFor(doc, indexes[i].fields).Some?
  }

  ghost predicate AllName(indexes: seq<Index>, docs: Collection, id: Id, doc: Fields) {
    forall i {:trigger indexes[i]} :: 0 <= i < |indexes| ==> Names(indexes[i], docs, id, doc)
  }

  /** The first `n` indexes have dropped the document, the others not yet. */
  ghost predicate RemovedUpTo(before: seq<Index>, n: nat, id: Id, doc: Fields, estimate: Estimate, now: seq<Index>) {
    && n <= |before| == |now|
    && (forall i {:trigger now[i]} :: 0 <= i < n ==> Remove(before[i], id, doc, estimate) == Ok(now[i]))
    && (forall i {:trigger now[i]} :: n <= i < |before| ==> now[i] == before[i])
  }

  /** The first `n` indexes have taken the document, the others not yet. */
  ghost predicate InsertedUpTo(before: seq<Index>, n: nat, id: Id, doc: Fields, estimate: Estimate, now: seq<Index>) {
    && n <= |before| == |now|
    && (forall i {:trigger now[i]} :: 0 <= i < n ==> Insert(before[i], id, doc, estimate) == Ok(now[i]))
    && (forall i {:trigger now[i]} :: n <= i < |before| ==> now[i] == before[i])
  }

  /** An index before an insert, and after the insert was taken back. */
  ghost predicate TakenBack(ix: Index, id: Id, doc: Fields, estimate: Estimate, ix': Index) {
    Insert(ix, id, doc, estimate).Ok? && Remove(Insert(ix, id, doc, estimate).value, id, doc, estimate) == Ok(ix')
  }

  /** The first `n` indexes have had their insert taken back, the others had none. */
  ghost predicate RolledBack(before: seq<Index>, n: nat, id: Id, doc: Fields, estimate: Estimate, now: seq<Index>) {
    && n <= |before| == |now|
    && (forall i {:trigger now[i]} :: 0 <= i < n ==> TakenBack(before[i], id, doc, estimate, now[i]))
    && (forall i {:trigger now[i]} :: n <= i < |before| ==> now[i] == before[i])
  }

  /** On the way: `i` of the first `n` indexes have had it taken back. */
  ghost predicate Rolling(before: seq<Index>, i: nat, n: nat, id: Id, doc: Fields, estimate: Estimate, now: seq<Index>) {
    && i <= n < |before| == |now|
    && (forall j {:trigger now[j]} :: 0 <= j < i ==> TakenBack(before[j], id, doc, estimate, now[j]))
    && (forall j {:trigger now[j]} :: i <= j < n ==> Insert(before[j], id, doc, estimate) == Ok(now[j]))
    && (forall j {:trigger now[j]} :: n <= j < |before| ==> now[j] == before[j])
  }

  lemma RollStops(before: seq<Index>, i: nat, n: nat, id: Id, doc: Fields, estimate: Estimate, now: seq<Index>)
    requires Rolling(before, i, n, id, doc, estimate, now) && Named(now)
    ensures now[i].name == before[n].name <==> i == n
  {
    assert now[n] == before[n];
  }

  lemma RollNext(before: seq<Index>, docs: Collection, i: nat, n: nat, id: Id, doc: Fields, estimate: Estimate,
                 now: seq<Index>, now': seq<Index>)
    requires AllAgree(before, docs) && Rolling(before, i, n, id, doc, estimate, now) && i < n
    requires now' == now[i := match Remove(now[i], id, doc, estimate) case Ok(ix) => ix case Err(_) => now[i]]
    ensures Remove(now[i], id, doc, estimate).Ok? && Rolling(before, i + 1, n, id, doc, estimate, now')
    ensures now'[i].name == now[i].name
  {
    assert Insert(before[i], id, doc, estimate) == Ok(now[i]);
    RemoveUndoesInsertIff(before[i], docs, id, doc, estimate);
    assert TakenBack(before[i], id, doc, estimate, now'[i]);
    assert forall j {:trigger now'[j]} :: 0 <= j < |now| && j != i ==> now'[j] == now[j];
  }

  lemma NamedStill(now: seq<Index>, i: nat, ix: Index)
    requires Named(now) && i < |now| && ix.name == now[i].name
    ensures Named(now[i := ix])
  {
  }

  ghost predicate AllUndo(indexes: seq<Index>, n: nat, id: Id, doc: Fields) {
    n <= |indexes| && forall i {:trigger indexes[i]} :: 0 <= i < n ==> Undoes(indexes[i], id, doc)
  }

  /** No index has an entry for the id. */
  ghost predicate AllUnlisted(indexes: seq<Index>, docs: Collection, id: Id) {
    forall i {:trigger indexes[i]} :: 0 <= i < |indexes| ==> id in docs ==> Listed(indexes[i], docs[id]).None?
  }

  lemma AllTook(before: seq<Index>, id: Id, doc: Fields, estimate: Estimate, now: seq<Index>)
    requires InsertedUpTo(before, |before|, id, doc, estimate, now)
    ensures AllAccept(before, id, doc, estimate)
  {
    forall i | 0 <= i < |before| ensures Insert(before[i], id, doc, estimate).Ok? {
      assert Insert(before[i], id, doc, estimate) == Ok(now[i]);
    }
  }

  lemma RolledBackIff(before: seq<Index>, docs: Collection, n: nat, id: Id, doc: Fields, estimate: Estimate, now: seq<Index>)
    requires AllAgree(before, docs) && RolledBack(before, n, id, doc, estimate, now)
    ensures now == before <==> AllUndo(before, n, id, doc)
    ensures id !in docs ==> AllUndo(before, n, id, doc)
  {
    forall i | 0 <= i < n
      ensures now[i] == before[i] <==> Undoes(before[i], id, doc)
      ensures id !in docs ==> Undoes(before[i], id, doc)
    {
      assert TakenBack(before[i], id, doc, estimate, now[i]);
      RemoveUndoesInsertIff(before[i], docs, id, doc, estimate);
      if id !in docs { FreshIdUndoes(before[i], docs, id, doc); }
    }
  }

  class Manager {
    const estimate: Estimate
    /** The indexes, in the order the manager visits them. */
    var indexes: seq<Index>
    /** The documents the indexes stand for. */
    ghost var docs: Collection

    ghost predicate Valid()
      reads this
    {
      Named(indexes) && AllAgree(indexes, docs)
    }

    constructor (estimate: Estimate)
      ensures Valid() && indexes == [] && docs == map[] && this.estimate == estimate
    {
      this.estimate, indexes, docs := estimate, [], map[];
    }

    /** A new index starts empty, and takes the place of one with its name. The
        indexes then still agree with the documents exactly when the new one
        has nothing to list: documents already there are not indexed. */
    method CreateIndex(name: string, fields: seq<string>, unique: bool, sparse: bool) returns (ghost at: nat)
      requires Valid()
      modifies this
      ensures docs == old(docs) && at < |indexes| && |indexes| >= |old(indexes)|
      ensures indexes[at] == Index(name, fields, unique, sparse, map[], 0, 0)
      ensures forall i :: 0 <= i < |indexes| && i != at ==> i < |old(indexes)| && indexes[i] == old(indexes)[i]
      ensures at < |old(indexes)| ==> old(indexes)[at].name == name
      ensures Valid() <==> NothingToList(indexes[at], docs)
    {
      var ix := Index(name, fields, unique, sparse, map[], 0, 0);
      var i := Find(name);
      at := i;
      EmptyAgreesIff(ix, docs);
      ghost var before := indexes;
      indexes := if i < |indexes| then indexes[i := ix] else indexes + [ix];
      assert forall j :: 0 <= j < |indexes| && j != i ==> indexes[j] == before[j];
      assert indexes[i] == ix;
    }

    /** Succeeds exactly if every index can take the document. The indexes then
        agree with the collection holding it exactly if the id is new or was
        not listed; a failure leaves every index as it was exactly if each one
        before the refusing index undoes the insert. Both hold for a new id:
        all or nothing. */
    method InsertDocument(id: Id, doc: Fields) returns (r: IndexResult<()>, ghost n: nat)
      requires Valid()
      modifies this
      ensures r.Ok? <==> AllAcceptable(old(indexes), old(docs) - {id}, doc)
      ensures r.Ok? ==> docs == old(docs)[id := doc] && InsertedUpTo(old(indexes), |indexes|, id, doc, estimate, indexes)
      ensures r.Ok? ==> (Valid() <==> AllUnlisted(old(indexes), old(docs), id))
      ensures r.Err? ==> docs == old(docs) && RolledBack(old(indexes), n, id, doc, estimate, indexes)
      ensures r.Err? ==> (indexes == old(indexes) <==> AllUndo(old(indexes), n, id, doc))
      ensures id !in old(docs) ==> Valid() && (r.Err? ==> indexes == old(indexes))
    {
      ghost var before := indexes;
      AcceptedIff(before, docs, id, doc, estimate);
      r, n := InsertInto(id, doc);
      if r.Ok? {
        NamesKept(before, |indexes|, id, doc, estimate, indexes);
        AllAgreeAfterInsertIff(before, docs, id, doc, estimate, indexes);
        docs := docs[id := doc];
      } else {
        RolledBackIff(before, docs, n, id, doc, estimate, indexes);
      }
    }

    /** The loop over the indexes: all take the document, or the first `n` take
        it back. */
    method InsertInto(id: Id, doc: Fields) returns (r: IndexResult<()>, ghost n: nat)
      requires Valid()
      modifies this`indexes
      ensures r.Ok? ==> InsertedUpTo(old(indexes), |indexes|, id, doc, estimate, indexes) && AllAccept(old(indexes), id, doc, estimate)
      ensures r.Err? ==> RolledBack(old(indexes), n, id, doc, estimate, indexes) && !AllAccept(old(indexes), id, doc, estimate)
    {
      ghost var before := indexes;
      for i := 0 to |indexes|
        invariant InsertedUpTo(before, i, id, doc, estimate, indexes)
      {
        var result := BTreeIndex.Insert(indexes[i], id, doc, estimate);
        if result.Err? {
          assert indexes[i] == before[i] && !AllAccept(before, id, doc, estimate);
          NamesKept(before, i, id, doc, estimate, indexes);
          RollbackInsertions(id, doc, indexes[i].name, i, before);
          return Err(result.error), i;
        }
        indexes := indexes[i := result.value];
      }
      AllTook(before, id, doc, estimate, indexes);
      r, n := Ok(()), |indexes|;
    }

    /** Take the document out of the indexes before the one that failed. */
    method RollbackInsertions(id: Id, doc: Fields, failed: string, ghost n: nat, ghost before: seq<Index>)
      requires AllAgree(before, docs) && Named(before) && Named(indexes)
      requires n < |before| && before[n].name == failed
      requires InsertedUpTo(before, n, id, doc, estimate, indexes)
      modifies this`indexes
      ensures RolledBack(before, n, id, doc, estimate, indexes)
    {
      assert Rolling(before, 0, n, id, doc, estimate, indexes);
      for i := 0 to |indexes|
        invariant i <= n
        invariant Rolling(before, i, n, id, doc, estimate, indexes) && Named(indexes)
      {
        RollStops(before, i, n, id, doc, estimate, indexes);
        if indexes[i].name == failed {
          break;
        }
        ghost var now := indexes;
        var result := BTreeIndex.Remove(indexes[i], id, doc, estimate);
        RollNext(before, docs, i, n, id, doc, estimate, now, now[i := if result.Ok? then result.value else now[i]]);
        NamedStill(now, i, result.value);
        indexes := indexes[i := result.value];
      }
    }

    /** Removing by a document succeeds exactly if every index can compute its
        key; the indexes then agree with the collection without the id exactly
        if the document names the entry each of them has. On failure the
        indexes before the first that cannot compute a key have dropped it. */
    method RemoveDocument(id: Id, doc: Fields) returns (r: IndexResult<()>, ghost n: nat)
      requires Valid()
      modifies this
      ensures SameDefinitions(old(indexes), indexes)
      ensures r.Ok? <==> AllKeyed(old(indexes), doc)
      ensures r.Ok? ==> docs == old(docs) - {id} && (Valid() <==> AllName(old(indexes), old(docs), id, doc))
      ensures r.Err? ==> docs == old(docs) && RemovedUpTo(old(indexes), n, id, doc, estimate, indexes)
    {
      ghost var before := indexes;
      for i := 0 to |indexes|
        invariant docs == old(docs)
        invariant RemovedUpTo(before, i, id, doc, estimate, indexes)
      {
        assert indexes[i] == before[i];
        var result := BTreeIndex.Remove(indexes[i], id, doc, estimate);
        if result.Err? {
          RemoveStops(before, docs, i, id, doc, estimate, indexes);
          return Err(result.error), i;
        }
        indexes := indexes[i := result.value];
      }
      RemoveAllAgreeIff(before, docs, id, doc, estimate, indexes);
      docs := docs - {id};
      r, n := Ok(()), |indexes|;
    }

    /** An update removes by the old document and inserts the new one. If the
        new document is refused, the old one is gone from the indexes all the
        same. */
    method UpdateDocument(id: Id, oldDocument: Fields, newDocument: Fields) returns (r: IndexResult<()>)
      requires Valid() && (AllKeyed(indexes, oldDocument) ==> AllName(indexes, docs, id, oldDocument))
      modifies this
      ensures !AllKeyed(old(indexes), oldDocument) ==> r.Err? && docs == old(docs)
      ensures AllKeyed(old(indexes), oldDocument) ==>
                && Valid()
                && (r.Ok? <==> AllAcceptable(old(indexes), old(docs) - {id}, newDocument))
                && docs == if r.Ok? then old(docs)[id := newDocument] else old(docs) - {id}
    {
      ghost var n;
      r, n := RemoveDocument(id, oldDocument);
      if r.Err? {
        return;
      }
      SameAcceptable(old(indexes), indexes, docs, newDocument);
      assert docs - {id} == docs;
      r, n := InsertDocument(id, newDocument);
      BTreeIndex.PutBack(old(docs), id, newDocument);
    }

    /** Look an index up by name. */
    method Find(name: string) returns (i: nat)
      ensures i <= |indexes|
      ensures i < |indexes| ==> indexes[i].name == name
      ensures i == |indexes| ==> forall j :: 0 <= j < |indexes| ==> indexes[j].name != name
    {
      i := 0;
      while i < |indexes| && indexes[i].name != name
        invariant i <= |indexes|
        invariant forall j :: 0 <= j < i ==> indexes[j].name != name
      {
        i := i + 1;
      }
    }

    /** Exact lookup: the ids a scan of the documents would select, each once. */
    method FindWithIndex(name: string, key: IndexKey) returns (r: IndexResult<seq<Id>>, ghost i: nat)
      requires Valid()
      ensures r.Err? ==> forall j :: 0 <= j < |indexes| ==> indexes[j].name != name
      ensures r.Ok? ==>
                && i < |indexes| && indexes[i].name == name && NoDuplicates(r.value)
                && forall id :: id in r.value <==> id in docs && Listed(indexes[i], docs[id]) == Some(key)
    {
      var at := Find(name);
      i := at;
      if at == |indexes| {
        return Err(OperationFailed), at;
      }
      FindExactIsScan(indexes[at], docs, key);
      r := Ok(IdsAt(indexes[at].tree, key));
    }

    /** Range lookup: the ids a scan would select, each once, by ascending key. */
    method FindRangeWithIndex(name: string, start: Option<IndexKey>, end: Option<IndexKey>,
                              includeStart: bool, includeEnd: bool)
      returns (r: IndexResult<seq<Id>>, ghost i: nat)
      requires Valid()
      ensures r.Err? ==> forall j :: 0 <= j < |indexes| ==> indexes[j].name != name
      ensures r.Ok? ==>
                && i < |indexes| && indexes[i].name == name
                && ScanSelects(indexes[i], docs, r.value, start, end, includeStart, includeEnd)
    {
      var at := Find(name);
      i := at;
      if at == |indexes| {
        return Err(OperationFailed), at;
      }
      var ids := FindRange(indexes[at], start, end, includeStart, includeEnd, ListingOf(indexes[at], docs));
      RangeIsScan(indexes[at], docs, ids, start, end, includeStart, includeEnd);
      r := Ok(ids);
    }
  }

  lemma RangeIsScan(ix: Index, docs: Collection, ids: seq<Id>, start: Option<IndexKey>, end: Option<IndexKey>,
                    includeStart: bool, includeEnd: bool)
    requires var listing := ListingOf(ix, docs);
             && (forall id :: id in ids <==> id in listing && InRange(listing[id], start, end, includeStart, includeEnd))
             && NoDuplicates(ids) && InKeyOrder(ids, listing)
    ensures ScanSelects(ix, docs, ids, start, end, includeStart, includeEnd)
  {
  }

  /** What a scan of the documents would answer to a range query. */
  ghost predicate ScanSelects(ix: Index, docs: Collection, ids: seq<Id>, start: Option<IndexKey>, end: Option<IndexKey>,
                              includeStart: bool, includeEnd: bool)
  {
    && NoDuplicates(ids)
    && (forall id :: id in ids <==>
          id in docs && Listed(ix, docs[id]).Some? &&
          InRange(Listed(ix, docs[id]).value, start, end, includeStart, includeEnd))
    && forall i, j :: 0 <= i < j < |ids| ==>
         Listed(ix, docs[ids[i]]) == Listed(ix, docs[ids[j]]) ||
         KeyLess(Listed(ix, docs[ids[i]]).value, Listed(ix, docs[ids[j]]).value)
  }

  lemma RemovedDefinitions(before: seq<Index>, docs: Collection, n: nat, id: Id, doc: Fields, estimate: Estimate, now: seq<Index>)
    requires AllAgree(before, docs) && RemovedUpTo(before, n, id, doc, estimate, now)
    ensures SameDefinitions(before, now)
  {
    forall i | 0 <= i < |now| ensures SameDefinition(before[i], now[i]) {
      if i < n { RemoveAgreesIff(before[i], docs, id, doc, estimate); }
    }
  }

  lemma RemoveStops(before: seq<Index>, docs: Collection, n: nat, id: Id, doc: Fields, estimate: Estimate, now: seq<Index>)
    requires AllAgree(before, docs) && RemovedUpTo(before, n, id, doc, estimate, now)
    requires n < |before| && Remove(before[n], id, doc, estimate).Err?
    ensures SameDefinitions(before, now) && !AllKeyed(before, doc)
  {
    RemovedDefinitions(before, docs, n, id, doc, estimate, now);
    RemoveAgreesIff(before[n], docs, id, doc, estimate);
  }

  lemma RemoveAllAgreeIff(before: seq<Index>, docs: Collection, id: Id, doc: Fields, estimate: Estimate, now: seq<Index>)
    requires Named(before) && AllAgree(before, docs) && RemovedUpTo(before, |before|, id, doc, estimate, now)
    ensures Named(now) && (AllAgree(now, docs - {id}) <==> AllName(before, docs, id, doc))
    ensures SameDefinitions(before, now) && AllKeyed(before, doc)
  {
    RemovedDefinitions(before, docs, |before|, id, doc, estimate, now);
    forall i | 0 <= i < |now|
      ensures Agrees(now[i], docs - {id}) <==> Names(before[i], docs, id, doc)
      ensures KeyFor(doc, before[i].fields).Some?
    {
      assert Remove(before[i], id, doc, estimate) == Ok(now[i]);
      RemoveAgreesIff(before[i], docs, id, doc, estimate);
    }
  }

  ghost predicate NothingToList(ix: Index, docs: Collection) {
    forall id :: id in docs ==> KeyFor(docs[id], ix.fields).Some? && Listed(ix, docs[id]).None?
  }

  lemma EmptyAgreesIff(ix: Index, docs: Collection)
    requires ix.tree == map[] && ix.totalEntries == 0
    ensures Agrees(ix, docs) <==> NothingToList(ix, docs)
  {
    var listing := ListingOf(ix, docs);
    if NothingToList(ix, docs) {
      assert listing == map[];
      forall id, key ensures EntryOk(ix, listing, id, key) {}
    }
    if Agrees(ix, docs) {
      assert listing == map[];
      forall id | id in docs ensures Listed(ix, docs[id]).None? {
        assert id !in listing;
      }
    }
  }

  lemma NamesKept(before: seq<Index>, n: nat, id: Id, doc: Fields, estimate: Estimate, now: seq<Index>)
    requires Named(before) && InsertedUpTo(before, n, id, doc, estimate, now)
    ensures Named(now)
    ensures forall i {:trigger now[i]} :: 0 <= i < |now| ==> SameDefinition(before[i], now[i])
  {
    forall i | 0 <= i < |now|
      ensures SameDefinition(before[i], now[i])
    {
      InsertKeepsDefinition(before[i], id, doc, estimate);
    }
  }

  lemma InsertKeepsDefinition(ix: Index, id: Id, doc: Fields, estimate: Estimate)
    ensures Insert(ix, id, doc, estimate).Ok? ==> SameDefinition(ix, Insert(ix, id, doc, estimate).value)
  {
  }

  lemma AllAgreeAfterInsertIff(before: seq<Index>, docs: Collection, id: Id, doc: Fields, estimate: Estimate, now: seq<Index>)
    requires AllAgree(before, docs)
    requires InsertedUpTo(before, |before|, id, doc, estimate, now)
    ensures AllAgree(now, docs[id := doc]) <==> AllUnlisted(before, docs, id)
  {
    forall i | 0 <= i < |now|
      ensures Agrees(now[i], docs[id := doc]) <==> (id in docs ==> Listed(before[i], docs[id]).None?)
    {
      assert Insert(before[i], id, doc, estimate) == Ok(now[i]);
      InsertAgreesIff(before[i], docs, id, doc, estimate);
    }
  }
}
