/**
 One secondary index: a B-tree from keys to lists of document ids, unique or
 not, sparse or not. It must agree with a scan of the documents.
 */
module BTreeIndex {
  import opened Wrappers
  import opened Documents
  import opened IndexKeys

  /** Document ids are 128-bit numbers. */
  type Id = nat
  type Collection = map<Id, Fields>
  type Tree = map<IndexKey, seq<Id>>

  datatype IndexError = UniqueViolation | Unsupported | OperationFailed

  type IndexResult<+T> = Result<T, IndexError>

  /** An index: its definition, its tree and its two entry statistics. */
  datatype Index = Index(name: string, fields: seq<string>, unique: bool, sparse: bool,
                         tree: Tree, totalEntries: nat, totalSize: int)

  /** Estimated size of the entry a document makes in an index. */
  type Estimate = (Fields, seq<string>) -> nat

  function IdsAt(tree: Tree, key: IndexKey): seq<Id> {
    if key in tree then tree[key] else []
  }

  /** The key under which the index lists a document, if it does at all. */
  function Listed(ix: Index, doc: Fields): Option<IndexKey> {
    match KeyFor(doc, ix.fields)
    case None => None
    case Some(key) => if ix.sparse && HasNull(key) then None else Some(key)
  }

  // ---------------------------------------------------------------- operations

  /** A new entry: a unique index keeps one id per key. */
  function AddEntry(ix: Index, id: Id, key: IndexKey, size: nat): Index {
    ix.(tree := ix.tree[key := if ix.unique then [id] else IdsAt(ix.tree, key) + [id]],
        totalEntries := ix.totalEntries + 1,
        totalSize := ix.totalSize + size)
  }

  function Insert(ix: Index, id: Id, doc: Fields, estimate: Estimate): IndexResult<Index> {
    match KeyFor(doc, ix.fields)
    case None => Err(Unsupported)
    case Some(key) =>
      if ix.sparse && HasNull(key) then Ok(ix)
      else if ix.unique && IdsAt(ix.tree, key) != [] && id !in IdsAt(ix.tree, key) then Err(UniqueViolation)
      else Ok(AddEntry(ix, id, key, estimate(doc, ix.fields)))
  }

  function FirstOf(ids: seq<Id>, id: Id): (i: nat)
    requires id in ids
    ensures i < |ids| && ids[i] == id && id !in ids[..i]
  {
    if ids[0] == id then 0 else 1 + FirstOf(ids[1..], id)
  }

  /** The list without the first occurrence of `id`. */
  function Without(ids: seq<Id>, id: Id): seq<Id>
    requires id in ids
  {
    ids[..FirstOf(ids, id)] + ids[FirstOf(ids, id) + 1..]
  }

  /** The first occurrence of `id` goes, and the key with its last id. */
  function DropEntry(ix: Index, id: Id, key: IndexKey, size: nat): Index
    requires id in IdsAt(ix.tree, key)
  {
    var ids := Without(ix.tree[key], id);
    ix.(tree := if ids == [] then ix.tree - {key} else ix.tree[key := ids],
        totalEntries := if ix.totalEntries == 0 then 0 else ix.totalEntries - 1,
        totalSize := ix.totalSize - size)
  }

  function Remove(ix: Index, id: Id, doc: Fields, estimate: Estimate): IndexResult<Index> {
    match KeyFor(doc, ix.fields)
    case None => Err(Unsupported)
    case Some(key) =>
      if (ix.sparse && HasNull(key)) || id !in IdsAt(ix.tree, key) then Ok(ix)
      else Ok(DropEntry(ix, id, key, estimate(doc, ix.fields)))
  }

  // ----------------------------------------------------------------- agreement

  /** The key of every listed document: what a scan would compute. */
  type Listing = map<Id, IndexKey>

  ghost predicate NoDuplicates(ids: seq<Id>) {
    forall i, j :: 0 <= i < j < |ids| ==> ids[i] != ids[j]
  }

  ghost predicate ListOk(ix: Index, key: IndexKey)
    requires key in ix.tree
  {
    ix.tree[key] != [] && NoDuplicates(ix.tree[key]) && (ix.unique ==> |ix.tree[key]| == 1)
  }

  ghost predicate EntryOk(ix: Index, listing: Listing, id: Id, key: IndexKey) {
    id in IdsAt(ix.tree, key) <==> id in listing && listing[id] == key
  }

  /** The tree holds the listing, each id once, and the entry count is right. */
  ghost predicate HoldsListing(ix: Index, listing: Listing) {
    && (forall key {:trigger ListOk(ix, key)} :: key in ix.tree ==> ListOk(ix, key))
    && (forall id, key {:trigger EntryOk(ix, listing, id, key)} :: EntryOk(ix, listing, id, key))
    && ix.totalEntries == |listing|
  }

  lemma AddEntryHolds(ix: Index, listing: Listing, id: Id, key: IndexKey, size: nat, ix': Index, listing': Listing)
    requires HoldsListing(ix, listing) && id !in listing && (ix.unique ==> IdsAt(ix.tree, key) == [])
    requires ix' == AddEntry(ix, id, key, size) && listing' == listing[id := key]
    ensures HoldsListing(ix', listing')
  {
    assert listing'.Keys == listing.Keys + {id};
    assert EntryOk(ix, listing, id, key);
    assert ix.unique ==> [id] == IdsAt(ix.tree, key) + [id];
    forall i, k
      ensures EntryOk(ix', listing', i, k)
    {
      assert EntryOk(ix, listing, i, k);
    }
    forall k | k in ix'.tree
      ensures ListOk(ix', k)
    {
      assert k in ix.tree ==> ListOk(ix, k);
    }
  }

  lemma WithoutOk(ids: seq<Id>, id: Id)
    requires id in ids && NoDuplicates(ids)
    ensures NoDuplicates(Without(ids, id)) && |Without(ids, id)| == |ids| - 1
    ensures forall i :: i in Without(ids, id) <==> i in ids && i != id
  {
  }

  lemma DropEntryHolds(ix: Index, listing: Listing, id: Id, key: IndexKey, size: nat, ix': Index, listing': Listing)
    requires HoldsListing(ix, listing) && id in listing && listing[id] == key && id in IdsAt(ix.tree, key)
    requires ix' == DropEntry(ix, id, key, size) && listing' == listing - {id}
    ensures HoldsListing(ix', listing')
  {
    assert listing'.Keys == listing.Keys - {id};
    assert ListOk(ix, key);
    WithoutOk(ix.tree[key], id);
    forall i, k
      ensures EntryOk(ix', listing', i, k)
    {
      assert EntryOk(ix, listing, i, k);
    }
    forall k | k in ix'.tree
      ensures ListOk(ix', k)
    {
      assert ListOk(ix, k);
    }
  }

  /** The first occurrence goes: what was appended is undone exactly if it is
      the only one, or the list ended with it before. */
  lemma WithoutAppended(ids: seq<Id>, id: Id)
    requires NoDuplicates(ids)
    ensures Without(ids + [id], id) == ids <==> id !in ids || ids[|ids| - 1] == id
  {
    var k := FirstOf(ids + [id], id);
    if id in ids {
      assert k < |ids|;
      if k < |ids| - 1 {
        assert Without(ids + [id], id)[|ids| - 1] == id;
        assert ids[|ids| - 1] != id;
      } else {
        assert Without(ids + [id], id) == ids[..k] + [id] == ids;
      }
    } else {
      assert k == |ids|;
      assert Without(ids + [id], id) == ids + [];
    }
  }

  /** What taking an id out of a list it was just added to restores. */
  predicate Undone(unique: bool, ids: seq<Id>, id: Id) {
    id !in ids || (!unique && ids[|ids| - 1] == id)
  }

  /** Dropping an entry that was just added restores the index, the tree, its
      lists in their old order and both statistics, exactly if the id was not
      in the list or, without uniqueness, ended it. */
  lemma DropUndoesAddIff(ix: Index, listing: Listing, id: Id, key: IndexKey, size: nat, ix': Index)
    requires HoldsListing(ix, listing) && !(ix.unique && IdsAt(ix.tree, key) != [] && id !in IdsAt(ix.tree, key))
    requires ix' == AddEntry(ix, id, key, size)
    ensures id in IdsAt(ix'.tree, key)
    ensures DropEntry(ix', id, key, size) == ix <==> Undone(ix.unique, IdsAt(ix.tree, key), id)
  {
    var ids := IdsAt(ix.tree, key);
    if key in ix.tree { assert ListOk(ix, key); }
    if ix.unique {
      assert Without([id], id) == [];
      assert DropEntry(ix', id, key, size).tree == ix'.tree - {key};
      if ids == [] { assert ix'.tree - {key} == ix.tree; }
    } else {
      WithoutAppended(ids, id);
      DropFromList(ix, id, key, size, ix');
    }
  }

  lemma DropFromList(ix: Index, id: Id, key: IndexKey, size: nat, ix': Index)
    requires ix' == AddEntry(ix, id, key, size) && !ix.unique && (key in ix.tree ==> ix.tree[key] != [])
    ensures id in IdsAt(ix'.tree, key)
    ensures DropEntry(ix', id, key, size) == ix <==> Without(IdsAt(ix.tree, key) + [id], id) == IdsAt(ix.tree, key)
  {
    var ids := IdsAt(ix.tree, key);
    var rest := Without(ids + [id], id);
    assert |rest| == |ids|;
    if key in ix.tree {
      assert DropEntry(ix', id, key, size).tree == ix.tree[key := rest];
      assert rest == ids ==> ix.tree[key := rest] == ix.tree;
      assert ix.tree[key := rest] == ix.tree ==> rest == ids;
    } else {
      assert ix'.tree - {key} == ix.tree;
    }
  }

  // ------------------------------------------------------ documents and indexes

  ghost function ListingOf(ix: Index, docs: Collection): Listing {
    map id | id in docs && Listed(ix, docs[id]).Some? :: Listed(ix, docs[id]).value
  }

  ghost predicate AllSupported(ix: Index, docs: Collection) {
    forall id :: id in docs ==> KeyFor(docs[id], ix.fields).Some?
  }

  /** The index lists exactly what a scan of the documents would list. */
  ghost predicate Agrees(ix: Index, docs: Collection) {
    AllSupported(ix, docs) && HoldsListing(ix, ListingOf(ix, docs))
  }

  /** Two indexes with the same definition. */
  predicate SameDefinition(ix: Index, ix': Index) {
    ix'.name == ix.name && ix'.fields == ix.fields && ix'.unique == ix.unique && ix'.sparse == ix.sparse
  }

  lemma ListingAfterPut(ix: Index, ix': Index, docs: Collection, id: Id, doc: Fields)
    requires SameDefinition(ix, ix') && id !in docs
    ensures ListingOf(ix', docs[id := doc]) ==
            match Listed(ix, doc) { case None => ListingOf(ix, docs) case Some(key) => ListingOf(ix, docs)[id := key] }
  {
  }

  lemma ListingAfterRemove(ix: Index, ix': Index, docs: Collection, id: Id)
    requires SameDefinition(ix, ix')
    ensures ListingOf(ix', docs - {id}) == ListingOf(ix, docs) - {id}
  {
  }

  lemma InsertIs(ix: Index, id: Id, doc: Fields, estimate: Estimate)
    ensures match Listed(ix, doc) {
              case None => KeyFor(doc, ix.fields).Some? ==> Insert(ix, id, doc, estimate) == Ok(ix)
              case Some(key) =>
                if ix.unique && IdsAt(ix.tree, key) != [] && id !in IdsAt(ix.tree, key)
                then Insert(ix, id, doc, estimate) == Err(UniqueViolation)
                else Insert(ix, id, doc, estimate) == Ok(AddEntry(ix, id, key, estimate(doc, ix.fields)))
            }
  {
  }

  /** Every field can be indexed, and in a unique index no document has the key yet. */
  ghost predicate Acceptable(ix: Index, docs: Collection, doc: Fields) {
    && KeyFor(doc, ix.fields).Some?
    && !(ix.unique && Listed(ix, doc).Some? && exists other :: other in docs && Listed(ix, docs[other]) == Listed(ix, doc))
  }

  /** An insert is refused exactly for a document with a field that cannot be
      indexed, or with the key of another document in a unique index. */
  lemma InsertFailsIff(ix: Index, docs: Collection, id: Id, doc: Fields, estimate: Estimate)
    requires Agrees(ix, docs)
    ensures Insert(ix, id, doc, estimate).Err? <==> !Acceptable(ix, docs - {id}, doc)
  {
    InsertIs(ix, id, doc, estimate);
    if Listed(ix, doc).Some? {
      var key := Listed(ix, doc).value;
      var listing, others := ListingOf(ix, docs), docs - {id};
      if key in ix.tree { assert ListOk(ix, key); }
      if IdsAt(ix.tree, key) != [] && id !in IdsAt(ix.tree, key) {
        var other := ix.tree[key][0];
        assert EntryOk(ix, listing, other, key);
        assert other in others && Listed(ix, others[other]) == Listed(ix, doc);
      }
      if other :| other in others && Listed(ix, others[other]) == Some(key) {
        assert EntryOk(ix, listing, other, key);
      }
    }
  }

  /** Inserting a fresh document keeps the index in agreement. */
  lemma InsertAgrees(ix: Index, docs: Collection, id: Id, doc: Fields, estimate: Estimate)
    requires Agrees(ix, docs) && id !in docs && Insert(ix, id, doc, estimate).Ok?
    ensures Agrees(Insert(ix, id, doc, estimate).value, docs[id := doc])
    ensures SameDefinition(ix, Insert(ix, id, doc, estimate).value)
  {
    var ix', docs' := Insert(ix, id, doc, estimate).value, docs[id := doc];
    InsertIs(ix, id, doc, estimate);
    ListingAfterPut(ix, ix', docs, id, doc);
    if Listed(ix, doc).Some? {
      var key := Listed(ix, doc).value;
      assert EntryOk(ix, ListingOf(ix, docs), id, key);
      AddEntryHolds(ix, ListingOf(ix, docs), id, key, estimate(doc, ix.fields), ix', ListingOf(ix', docs'));
    }
  }

  lemma RemoveIs(ix: Index, id: Id, doc: Fields, estimate: Estimate)
    ensures match Listed(ix, doc) {
              case None => KeyFor(doc, ix.fields).Some? ==> Remove(ix, id, doc, estimate) == Ok(ix)
              case Some(key) =>
                if id in IdsAt(ix.tree, key)
                then Remove(ix, id, doc, estimate) == Ok(DropEntry(ix, id, key, estimate(doc, ix.fields)))
                else Remove(ix, id, doc, estimate) == Ok(ix)
            }
  {
  }

  /** The document names the entry that the index has for the id, if any. */
  ghost predicate Names(ix: Index, docs: Collection, id: Id, doc: Fields) {
    id in docs && Listed(ix, docs[id]).Some? ==> Listed(ix, doc) == Listed(ix, docs[id])
  }

  lemma RemoveNamed(ix: Index, docs: Collection, id: Id, doc: Fields, estimate: Estimate)
    requires Agrees(ix, docs) && KeyFor(doc, ix.fields).Some? && Names(ix, docs, id, doc)
    ensures Agrees(Remove(ix, id, doc, estimate).value, docs - {id})
  {
    RemoveIs(ix, id, doc, estimate);
    var listing := ListingOf(ix, docs);
    if Listed(ix, doc).Some? { assert EntryOk(ix, listing, id, Listed(ix, doc).value); }
    if id in listing {
      var key := listing[id];
      assert EntryOk(ix, listing, id, key);
      var ix' := Remove(ix, id, doc, estimate).value;
      ListingAfterRemove(ix, ix', docs, id);
      DropEntryHolds(ix, listing, id, key, estimate(doc, ix.fields), ix', ListingOf(ix', docs - {id}));
    } else {
      ListingAfterRemove(ix, ix, docs, id);
      assert listing - {id} == listing;
    }
  }

  lemma RemoveOther(ix: Index, docs: Collection, id: Id, doc: Fields, estimate: Estimate)
    requires Agrees(ix, docs) && KeyFor(doc, ix.fields).Some? && !Names(ix, docs, id, doc)
    ensures !Agrees(Remove(ix, id, doc, estimate).value, docs - {id})
  {
    RemoveIs(ix, id, doc, estimate);
    var listing := ListingOf(ix, docs);
    var key, ix' := listing[id], Remove(ix, id, doc, estimate).value;
    assert EntryOk(ix, listing, id, key);
    if Listed(ix, doc).Some? { assert EntryOk(ix, listing, id, Listed(ix, doc).value); }
    ListingAfterRemove(ix, ix', docs, id);
    assert !EntryOk(ix', ListingOf(ix', docs - {id}), id, key);
  }

  /** Removing by any document whose fields can be indexed: the index then
      agrees with the collection without the id exactly if the document names
      the entry the index has for it. */
  lemma RemoveAgreesIff(ix: Index, docs: Collection, id: Id, doc: Fields, estimate: Estimate)
    requires Agrees(ix, docs)
    ensures Remove(ix, id, doc, estimate).Ok? <==> KeyFor(doc, ix.fields).Some?
    ensures Remove(ix, id, doc, estimate).Ok? ==>
              && SameDefinition(ix, Remove(ix, id, doc, estimate).value)
              && (Agrees(Remove(ix, id, doc, estimate).value, docs - {id}) <==> Names(ix, docs, id, doc))
  {
    if KeyFor(doc, ix.fields).Some? {
      if Names(ix, docs, id, doc) {
        RemoveNamed(ix, docs, id, doc, estimate);
      } else {
        RemoveOther(ix, docs, id, doc, estimate);
      }
    }
  }

  lemma NotListedNotNeeded(ix: Index, docs: Collection, id: Id)
    requires Agrees(ix, docs) && id in docs && Listed(ix, docs[id]).None?
    ensures Agrees(ix, docs - {id})
  {
    assert ListingOf(ix, docs - {id}) == ListingOf(ix, docs);
  }

  lemma PutBack(docs: Collection, id: Id, doc: Fields)
    ensures (docs - {id})[id := doc] == docs[id := doc]
  {
  }

  lemma InsertOverUnlisted(ix: Index, docs: Collection, id: Id, doc: Fields, estimate: Estimate)
    requires Agrees(ix, docs) && id in docs && Listed(ix, docs[id]).None? && Insert(ix, id, doc, estimate).Ok?
    ensures Agrees(Insert(ix, id, doc, estimate).value, docs[id := doc])
  {
    NotListedNotNeeded(ix, docs, id);
    InsertAgrees(ix, docs - {id}, id, doc, estimate);
    PutBack(docs, id, doc);
  }

  lemma ReplacedCount(listing: Listing, id: Id, key: IndexKey)
    requires id in listing
    ensures |listing[id := key]| == |listing|
  {
    assert listing[id := key].Keys == listing.Keys;
  }

  lemma ListingReplaced(ix: Index, ix': Index, docs: Collection, id: Id, doc: Fields)
    requires SameDefinition(ix, ix') && id in docs && Listed(ix, doc).Some?
    ensures ListingOf(ix', docs[id := doc]) == ListingOf(ix, docs)[id := Listed(ix, doc).value]
  {
  }

  /** A second entry for the id: the entry count is one too many. */
  lemma ListedTwiceDisagrees(ix: Index, docs: Collection, id: Id, doc: Fields, estimate: Estimate)
    requires Agrees(ix, docs) && id in docs && Listed(ix, docs[id]).Some? && Listed(ix, doc).Some?
    requires Insert(ix, id, doc, estimate).Ok?
    ensures !Agrees(Insert(ix, id, doc, estimate).value, docs[id := doc])
  {
    InsertIs(ix, id, doc, estimate);
    ListingReplaced(ix, Insert(ix, id, doc, estimate).value, docs, id, doc);
    ReplacedCount(ListingOf(ix, docs), id, Listed(ix, doc).value);
  }

  /** The old entry stays, although the new document has none. */
  lemma LeftListedDisagrees(ix: Index, docs: Collection, id: Id, doc: Fields, estimate: Estimate)
    requires Agrees(ix, docs) && id in docs && Listed(ix, docs[id]).Some? && Listed(ix, doc).None?
    requires Insert(ix, id, doc, estimate).Ok?
    ensures Insert(ix, id, doc, estimate).value == ix && !Agrees(ix, docs[id := doc])
  {
    InsertIs(ix, id, doc, estimate);
    var key := Listed(ix, docs[id]).value;
    assert EntryOk(ix, ListingOf(ix, docs), id, key);
    assert !EntryOk(ix, ListingOf(ix, docs[id := doc]), id, key);
  }

  /** Inserting under any id leaves the index in agreement exactly if the id
      is new or its old document was not listed: the old entry is not removed. */
  lemma InsertAgreesIff(ix: Index, docs: Collection, id: Id, doc: Fields, estimate: Estimate)
    requires Agrees(ix, docs) && Insert(ix, id, doc, estimate).Ok?
    ensures Agrees(Insert(ix, id, doc, estimate).value, docs[id := doc]) <==> (id in docs ==> Listed(ix, docs[id]).None?)
  {
    if id !in docs {
      InsertAgrees(ix, docs, id, doc, estimate);
    } else if Listed(ix, docs[id]).None? {
      InsertOverUnlisted(ix, docs, id, doc, estimate);
    } else if Listed(ix, doc).Some? {
      ListedTwiceDisagrees(ix, docs, id, doc, estimate);
    } else {
      LeftListedDisagrees(ix, docs, id, doc, estimate);
    }
  }

  /** A rolled back insert leaves no trace in the index. */
  ghost predicate Undoes(ix: Index, id: Id, doc: Fields) {
    Listed(ix, doc).Some? ==> Undone(ix.unique, IdsAt(ix.tree, Listed(ix, doc).value), id)
  }

  /** Removing what was just inserted, under any id, restores the index exactly
      if the id was not listed under that key or, in an index that is not
      unique, was the last one listed under it. */
  lemma RemoveUndoesInsertIff(ix: Index, docs: Collection, id: Id, doc: Fields, estimate: Estimate)
    requires Agrees(ix, docs) && Insert(ix, id, doc, estimate).Ok?
    ensures Remove(Insert(ix, id, doc, estimate).value, id, doc, estimate).Ok?
    ensures Remove(Insert(ix, id, doc, estimate).value, id, doc, estimate).value == ix <==> Undoes(ix, id, doc)
  {
    InsertIs(ix, id, doc, estimate);
    var ix' := Insert(ix, id, doc, estimate).value;
    RemoveIs(ix', id, doc, estimate);
    if Listed(ix, doc).Some? {
      DropUndoesAddIff(ix, ListingOf(ix, docs), id, Listed(ix, doc).value, estimate(doc, ix.fields), ix');
    }
  }

  /** In particular for a fresh id. */
  lemma FreshIdUndoes(ix: Index, docs: Collection, id: Id, doc: Fields)
    requires Agrees(ix, docs) && id !in docs
    ensures Undoes(ix, id, doc)
  {
    if Listed(ix, doc).Some? { assert EntryOk(ix, ListingOf(ix, docs), id, Listed(ix, doc).value); }
  }

  /** The size statistic follows the entries: it grows by the estimate of a
      document that is listed, and shrinks by it when its entry is taken out. */
  lemma SizesFollow(ix: Index, id: Id, doc: Fields, estimate: Estimate)
    ensures Insert(ix, id, doc, estimate).Ok? ==>
              Insert(ix, id, doc, estimate).value.totalSize - ix.totalSize ==
                if Listed(ix, doc).Some? then estimate(doc, ix.fields) else 0
    ensures Remove(ix, id, doc, estimate).Ok? ==>
              ix.totalSize - Remove(ix, id, doc, estimate).value.totalSize ==
                if Listed(ix, doc).Some? && id in IdsAt(ix.tree, Listed(ix, doc).value) then estimate(doc, ix.fields) else 0
  {
  }

  // ------------------------------------------------------------------- lookups

  /** An exact lookup returns the ids a scan would select, each once. */
  lemma FindExactIsScan(ix: Index, docs: Collection, key: IndexKey)
    requires Agrees(ix, docs)
    ensures NoDuplicates(IdsAt(ix.tree, key))
    ensures forall id :: id in IdsAt(ix.tree, key) <==> id in docs && Listed(ix, docs[id]) == Some(key)
  {
    if key in ix.tree { assert ListOk(ix, key); }
    forall id
      ensures id in IdsAt(ix.tree, key) <==> id in docs && Listed(ix, docs[id]) == Some(key)
    {
      assert EntryOk(ix, ListingOf(ix, docs), id, key);
    }
  }

  /** The two bound tests of a range lookup. */
  predicate InRange(key: IndexKey, start: Option<IndexKey>, end: Option<IndexKey>, includeStart: bool, includeEnd: bool) {
    && (start.Some? ==> if includeStart then !KeyLess(key, start.value)
                        else !(KeyLess(key, start.value) || key == start.value))
    && (end.Some? ==> if includeEnd then !KeyLess(end.value, key)
                      else !(KeyLess(end.value, key) || key == end.value))
  }

  /** By the total order: at or after the start, at or before the end. */
  lemma InRangeMeans(key: IndexKey, start: Option<IndexKey>, end: Option<IndexKey>, includeStart: bool, includeEnd: bool)
    ensures InRange(key, start, end, includeStart, includeEnd) <==>
            && (start.Some? ==> KeyLess(start.value, key) || (includeStart && key == start.value))
            && (end.Some? ==> KeyLess(key, end.value) || (includeEnd && key == end.value))
  {
    if start.Some? { KeyTotal(key, start.value); }
    if end.Some? { KeyTotal(key, end.value); }
  }

  ghost predicate InKeyOrder(ids: seq<Id>, listing: Listing)
    requires forall id :: id in ids ==> id in listing
  {
    forall i, j :: 0 <= i < j < |ids| ==>
      listing[ids[i]] == listing[ids[j]] || KeyLess(listing[ids[i]], listing[ids[j]])
  }

  /** The ids whose keys are among `keys` and in range, in key order. */
  ghost predicate Selects(ids: seq<Id>, listing: Listing, keys: seq<IndexKey>, wanted: IndexKey -> bool) {
    && (forall id :: id in ids <==> id in listing && listing[id] in keys && wanted(listing[id]))
    && NoDuplicates(ids)
    && InKeyOrder(ids, listing)
  }

  lemma SelectMore(ix: Index, listing: Listing, ids: seq<Id>, keys: seq<IndexKey>, key: IndexKey,
                   wanted: IndexKey -> bool, ids': seq<Id>)
    requires HoldsListing(ix, listing) && key in ix.tree && Selects(ids, listing, keys, wanted)
    requires forall k :: k in keys ==> KeyLess(k, key)
    requires ids' == if wanted(key) then ids + ix.tree[key] else ids
    ensures Selects(ids', listing, keys + [key], wanted)
  {
    assert ListOk(ix, key);
    KeyTotal(key, key);
    forall id
      ensures id in ix.tree[key] <==> id in listing && listing[id] == key
    {
      assert EntryOk(ix, listing, id, key);
    }
    forall i, j | 0 <= i < j < |ids'|
      ensures ids'[i] != ids'[j]
      ensures listing[ids'[i]] == listing[ids'[j]] || KeyLess(listing[ids'[i]], listing[ids'[j]])
    {
      assert ids'[i] in ids' && ids'[j] in ids';
      if i < |ids| { assert ids'[i] == ids[i] && ids[i] in ids; }
      if j >= |ids| { assert ids'[j] == ix.tree[key][j - |ids|]; }
    }
  }

  /** The same step of a walk along all the keys. */
  lemma SelectNext(ix: Index, listing: Listing, ids: seq<Id>, keys: seq<IndexKey>, n: nat,
                   wanted: IndexKey -> bool, ids': seq<Id>)
    requires HoldsListing(ix, listing) && Ascending(keys) && n < |keys| && keys[n] in ix.tree
    requires Selects(ids, listing, keys[..n], wanted)
    requires ids' == if wanted(keys[n]) then ids + ix.tree[keys[n]] else ids
    ensures Selects(ids', listing, keys[..n + 1], wanted)
  {
    SelectMore(ix, listing, ids, keys[..n], keys[n], wanted, ids');
    assert keys[..n + 1] == keys[..n] + [keys[n]];
  }

  lemma SelectedAll(ix: Index, listing: Listing, ids: seq<Id>, keys: seq<IndexKey>, wanted: IndexKey -> bool)
    requires HoldsListing(ix, listing) && Selects(ids, listing, keys[..|keys|], wanted)
    requires forall k :: k in ix.tree ==> k in keys
    ensures forall id :: id in ids <==> id in listing && wanted(listing[id])
    ensures NoDuplicates(ids) && InKeyOrder(ids, listing)
  {
    assert keys[..|keys|] == keys;
    forall id | id in listing ensures listing[id] in keys {
      assert EntryOk(ix, listing, id, listing[id]);
    }
  }

  /** Range lookup: the ids a scan would select, each once, by ascending key. */
  method FindRange(ix: Index, start: Option<IndexKey>, end: Option<IndexKey>, includeStart: bool, includeEnd: bool,
                   ghost listing: Listing)
    returns (ids: seq<Id>)
    requires HoldsListing(ix, listing)
    ensures forall id :: id in ids <==> id in listing && InRange(listing[id], start, end, includeStart, includeEnd)
    ensures NoDuplicates(ids) && InKeyOrder(ids, listing)
  {
    ghost var wanted := key => InRange(key, start, end, includeStart, includeEnd);
    var keys := InOrder(ix.tree.Keys);
    ids := [];
    for n := 0 to |keys|
      invariant Selects(ids, listing, keys[..n], wanted)
    {
      ghost var before := ids;
      assert keys[n] in keys;
      if InRange(keys[n], start, end, includeStart, includeEnd) {
        ids := ids + ix.tree[keys[n]];
      }
      SelectNext(ix, listing, before, keys, n, wanted, ids);
    }
    SelectedAll(ix, listing, ids, keys, wanted);
  }
}
