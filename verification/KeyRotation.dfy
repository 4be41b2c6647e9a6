/**
 Key rotation with re-encryption in batches. Everything written to disk is
 recorded, so that each state a crash can leave behind is in the history.
 */
module KeyRotation {
  import opened Wrappers
  import opened Memory

  type Key = nat
  type Id = nat

  /** Authenticated encryption as an ideal pair: the key that sealed a text
      opens it, any other key fails. */
  datatype Cipher = Sealed(key: Key, plain: Bytes)

  function Decrypt(c: Cipher, key: Key): Option<Bytes> {
    if c.key == key then Some(c.plain) else None
  }

  function Encrypt(plain: Bytes, key: Key): Cipher {
    Sealed(key, plain)
  }

  datatype Doc = Doc(id: Id, data: Cipher)
  /** Each encrypted collection in the order in which it is scanned. */
  type Storage = map<string, seq<Doc>>

  datatype KeyRecord = KeyRecord(key: Key, version: nat, active: bool)
  type KeyTable = map<string, KeyRecord>

  datatype RotationState =
    | Idle
    | ReEncrypting(keyId: string, processed: nat, total: nat, checkpoint: Option<(string, Id)>)
    | Completed(keyId: string, documents: nat)
    | Failed(keyId: string)

  predicate CanStartRotation(s: RotationState) {
    s.Idle? || s.Completed?
  }

  /** Which steps of a rotation fail: reading the saved state, saving the keys, listing the
      collections, scanning one, saving that re-encryption begins, updating a document, saving a
      checkpoint, saving the completion. */
  datatype Faults = Faults(load: bool, keys: bool, list: bool, unreadable: set<string>, begin: bool,
                           broken: set<Id>, checkpoints: set<nat>, finish: bool)

  /** What survives a crash. */
  datatype World = World(storage: Storage, keys: KeyTable, saved: RotationState)

  const PREFIX: string := "collection_"

  /** The collection a key is for, by its name. */
  predicate IsCollectionUsingKey(collection: string, keyId: string) {
    PREFIX <= keyId && collection == keyId[|PREFIX|..]
  }

  /** The key "collection_" plus the name. */
  lemma KeyOfCollection(collection: string, keyId: string)
    ensures IsCollectionUsingKey(collection, keyId) <==> keyId == "collection_" + collection
  {
  }

  ghost predicate DistinctIds(docs: seq<Doc>) {
    forall i, j :: 0 <= i < j < |docs| ==> docs[i].id != docs[j].id
  }

  /** A document re-encrypted, or left alone if the old key does not open it. */
  function Converted(d: Doc, oldKey: Key, newKey: Key): Doc {
    match Decrypt(d.data, oldKey)
    case None => d
    case Some(plain) => Doc(d.id, Encrypt(plain, newKey))
  }

  /** A collection of which the documents from `a` up to `b` are converted. */
  function Progress(docs: seq<Doc>, a: nat, b: nat, oldKey: Key, newKey: Key): (r: seq<Doc>)
    ensures |r| == |docs|
    ensures forall i :: 0 <= i < |docs| ==> r[i] == if a <= i < b then Converted(docs[i], oldKey, newKey) else docs[i]
  {
    seq(|docs|, i requires 0 <= i < |docs| => if a <= i < b then Converted(docs[i], oldKey, newKey) else docs[i])
  }

  /** `update_encrypted_document` on one collection. */
  function Update(docs: seq<Doc>, id: Id, data: Cipher): (r: seq<Doc>)
    ensures |r| == |docs|
    ensures forall i :: 0 <= i < |docs| ==> r[i] == if docs[i].id == id then Doc(id, data) else docs[i]
  {
    seq(|docs|, i requires 0 <= i < |docs| => if docs[i].id == id then Doc(id, data) else docs[i])
  }

  lemma UpdateIsProgress(docs: seq<Doc>, a: nat, i: nat, oldKey: Key, newKey: Key)
    requires a <= i < |docs| && DistinctIds(docs)
    ensures Decrypt(docs[i].data, oldKey).None? ==>
              Progress(docs, a, i + 1, oldKey, newKey) == Progress(docs, a, i, oldKey, newKey)
    ensures Decrypt(docs[i].data, oldKey).Some? ==>
              Progress(docs, a, i + 1, oldKey, newKey)
              == Update(Progress(docs, a, i, oldKey, newKey), docs[i].id,
                        Encrypt(Decrypt(docs[i].data, oldKey).value, newKey))
  {
  }

  /** How many of the documents from `from` up to `to` the key opens. */
  function Readable(docs: seq<Doc>, from: nat, to: nat, key: Key): nat
    requires from <= to <= |docs|
  {
    if from == to then 0
    else Readable(docs, from, to - 1, key) + if Decrypt(docs[to - 1].data, key).Some? then 1 else 0
  }

  lemma {:induction false} ReadableJoins(docs: seq<Doc>, a: nat, b: nat, c: nat, key: Key)
    requires a <= b <= c <= |docs|
    ensures Readable(docs, a, c, key) == Readable(docs, a, b, key) + Readable(docs, b, c, key)
  {
    if b < c { ReadableJoins(docs, a, b, c - 1, key); }
  }

  lemma {:induction false} AllReadable(docs: seq<Doc>, n: nat, key: Key)
    requires n <= |docs| && forall i :: 0 <= i < |docs| ==> Decrypt(docs[i].data, key).Some?
    ensures Readable(docs, 0, n, key) == n
  {
    if n > 0 { AllReadable(docs, n - 1, key); }
  }

  // ----------------------------------------------------------- what is rotated

  /** The stored collection that a key is for, if there is one. */
  function Target(storage: Storage, keyId: string): Option<string> {
    if PREFIX <= keyId && keyId[|PREFIX|..] in storage then Some(keyId[|PREFIX|..]) else None
  }

  function Matching(storage: Storage, keyId: string): seq<Doc> {
    match Target(storage, keyId)
    case None => []
    case Some(name) => storage[name]
  }

  predicate ScanFails(storage: Storage, keyId: string, f: Faults) {
    f.list || (Target(storage, keyId).Some? && Target(storage, keyId).value in f.unreadable)
  }

  /** Every document the key opens can be updated. */
  ghost predicate NoneBroken(docs: seq<Doc>, from: nat, to: nat, key: Key, broken: set<Id>)
    requires to <= |docs|
  {
    forall i :: from <= i < to && Decrypt(docs[i].data, key).Some? ==> docs[i].id !in broken
  }

  /** Every document of the key's collection that it opens can be updated. */
  ghost predicate Unbroken(w: World, keyId: string, broken: set<Id>) {
    keyId in w.keys ==>
      NoneBroken(Matching(w.storage, keyId), 0, |Matching(w.storage, keyId)|, w.keys[keyId].key, broken)
  }

  /** The storage with the documents of the key's collection replaced. */
  function WithDocs(storage: Storage, keyId: string, docs: seq<Doc>): Storage {
    match Target(storage, keyId)
    case None => storage
    case Some(name) => storage[name := docs]
  }

  function Rotated(keys: KeyTable, keyId: string, newKey: Key): KeyTable
    requires keyId in keys
  {
    keys[keyId := KeyRecord(newKey, keys[keyId].version + 1, keys[keyId].active)]
  }

  /** Re-encryption from world `w0` has dealt with the documents from `a` up
      to `j`; the saved state is `saved`. */
  ghost predicate AtDocument(w: World, w0: World, keyId: string, newKey: Key, a: nat, j: nat, saved: RotationState) {
    && keyId in w0.keys
    && w.keys == Rotated(w0.keys, keyId, newKey)
    && w.saved == saved
    && var docs := Matching(w0.storage, keyId);
    && a <= j <= |docs|
    && w.storage == WithDocs(w0.storage, keyId, Progress(docs, a, j, w0.keys[keyId].key, newKey))
  }

  ghost predicate InFlight(w: World, w0: World, keyId: string, newKey: Key, a: nat, saved: RotationState) {
    exists j :: AtDocument(w, w0, keyId, newKey, a, j, saved)
  }

  lemma NextDocument(w: World, w0: World, keyId: string, newKey: Key, a: nat, j: nat, saved: RotationState, w': World)
    requires AtDocument(w, w0, keyId, newKey, a, j, saved) && j < |Matching(w0.storage, keyId)|
    requires DistinctIds(Matching(w0.storage, keyId))
    requires var d, name := Matching(w0.storage, keyId)[j], Target(w0.storage, keyId).value;
             match Decrypt(d.data, w0.keys[keyId].key)
             case None => w' == w
             case Some(plain) =>
               name in w.storage &&
               w' == w.(storage := w.storage[name := Update(w.storage[name], d.id, Encrypt(plain, newKey))])
    ensures AtDocument(w', w0, keyId, newKey, a, j + 1, saved)
  {
    UpdateIsProgress(Matching(w0.storage, keyId), a, j, w0.keys[keyId].key, newKey);
  }

  // ----------------------------------------------------------------- scheduler

  /** The same with between `lo` and `hi` documents dealt with. */
  ghost predicate InFlightAt(w: World, w0: World, keyId: string, newKey: Key, a: nat, lo: nat, hi: nat, saved: RotationState) {
    exists j :: lo <= j <= hi && AtDocument(w, w0, keyId, newKey, a, j, saved)
  }

  /** What the disk went through since `before` are states of the rotation. */
  ghost predicate Written(before: seq<World>, now: seq<World>, w0: World, keyId: string, newKey: Key, a: nat,
                          lo: nat, hi: nat, saved: RotationState)
  {
    before <= now && forall n :: |before| <= n < |now| ==> InFlightAt(now[n], w0, keyId, newKey, a, lo, hi, saved)
  }

  lemma WrittenOne(before: seq<World>, mid: seq<World>, now: seq<World>, w: World,
                   w0: World, keyId: string, newKey: Key, a: nat, lo: nat, i: nat, saved: RotationState)
    requires Written(before, mid, w0, keyId, newKey, a, lo, i, saved) && (now == mid || now == mid + [w]) && lo <= i
    requires AtDocument(w, w0, keyId, newKey, a, i + 1, saved)
    ensures Written(before, now, w0, keyId, newKey, a, lo, i + 1, saved)
  {
    forall n | |before| <= n < |now| ensures InFlightAt(now[n], w0, keyId, newKey, a, lo, i + 1, saved) {
      if n < |mid| { assert InFlightAt(now[n], w0, keyId, newKey, a, lo, i, saved); }
    }
  }

  lemma WrittenMore(before: seq<World>, mid: seq<World>, now: seq<World>,
                    w0: World, keyId: string, newKey: Key, a: nat, lo: nat, at: nat, hi: nat, saved: RotationState)
    requires lo <= at <= hi
    requires Written(before, mid, w0, keyId, newKey, a, lo, at, saved) && Written(mid, now, w0, keyId, newKey, a, at, hi, saved)
    ensures Written(before, now, w0, keyId, newKey, a, lo, hi, saved)
  {
    forall n | |before| <= n < |now| ensures InFlightAt(now[n], w0, keyId, newKey, a, lo, hi, saved) {
      if n < |mid| {
        assert InFlightAt(now[n], w0, keyId, newKey, a, lo, at, saved);
      } else {
        assert InFlightAt(now[n], w0, keyId, newKey, a, at, hi, saved);
      }
    }
  }

  lemma WrittenInFlight(before: seq<World>, now: seq<World>, w0: World, keyId: string, newKey: Key, a: nat,
                        lo: nat, hi: nat, saved: RotationState)
    requires Written(before, now, w0, keyId, newKey, a, lo, hi, saved)
    ensures forall n :: |before| <= n < |now| ==> InFlight(now[n], w0, keyId, newKey, a, saved)
  {
    forall n | |before| <= n < |now| ensures InFlight(now[n], w0, keyId, newKey, a, saved) {
      assert InFlightAt(now[n], w0, keyId, newKey, a, lo, hi, saved);
    }
  }

  class Scheduler {
    const batchSize: nat
    /** What is on disk. */
    var world: World
    /** Every state the disk has been in. */
    ghost var history: seq<World>

    ghost predicate Valid()
      reads this
    {
      batchSize > 0 && history != [] && history[|history| - 1] == world
    }

    constructor (batchSize: nat, world: World)
      requires batchSize > 0
      ensures Valid() && this.world == world && history == [world] && this.batchSize == batchSize
    {
      this.batchSize, this.world, history := batchSize, world, [world];
    }

    method Persist(w: World)
      modifies this
      ensures world == w && history == old(history) + [w]
    {
      world, history := w, history + [w];
    }

    /** Collect the documents of the collections that use the key. */
    method ScanDocuments(collections: seq<string>, keyId: string, f: Faults) returns (r: Option<seq<Doc>>)
      requires forall i, j :: 0 <= i < j < |collections| ==> collections[i] != collections[j]
      requires forall c :: c in collections <==> c in world.storage
      ensures r == if ScanFails(world.storage, keyId, f) then None else Some(Matching(world.storage, keyId))
    {
      if f.list { return None; }
      var docs := [];
      for n := 0 to |collections|
        invariant docs == if exists m :: 0 <= m < n && IsCollectionUsingKey(collections[m], keyId)
                          then Matching(world.storage, keyId) else []
        invariant forall m :: 0 <= m < n && IsCollectionUsingKey(collections[m], keyId) ==> collections[m] !in f.unreadable
      {
        assert collections[n] in collections;
        if IsCollectionUsingKey(collections[n], keyId) {
          if collections[n] in f.unreadable { return None; }
          docs := docs + world.storage[collections[n]];
        }
      }
      r := Some(docs);
    }

    /** Re-encrypt one document: skipped if the old key does not open it. */
    method ReencryptDocument(docs: seq<Doc>, i: nat, name: string, oldKey: Key, newKey: Key, broken: set<Id>,
                             ghost w0: World, ghost keyId: string, ghost a: nat, ghost saved: RotationState)
      returns (ok: bool, counted: bool)
      requires Valid() && i < |docs| && DistinctIds(docs)
      requires docs == Matching(w0.storage, keyId) && Target(w0.storage, keyId) == Some(name)
      requires keyId in w0.keys && oldKey == w0.keys[keyId].key
      requires AtDocument(world, w0, keyId, newKey, a, i, saved)
      modifies this
      ensures Valid() && (history == old(history) || history == old(history) + [world])
      ensures AtDocument(world, w0, keyId, newKey, a, if ok then i + 1 else i, saved)
      ensures ok ==> counted == Decrypt(docs[i].data, oldKey).Some?
      ensures ok <==> (Decrypt(docs[i].data, oldKey).Some? ==> docs[i].id !in broken)
      ensures !ok ==> history == old(history)
    {
      ghost var w := world;
      match Decrypt(docs[i].data, oldKey)
      case None =>
        NextDocument(w, w0, keyId, newKey, a, i, saved, world);
        return true, false;
      case Some(plain) =>
        if docs[i].id in broken {
          return false, false;
        }
        var stored := world.storage[name];
        Persist(world.(storage := world.storage[name := Update(stored, docs[i].id, Encrypt(plain, newKey))]));
        NextDocument(w, w0, keyId, newKey, a, i, saved, world);
        return true, true;
    }

    /** Re-encrypt the documents from `from` up to `to`. `docs` is the scan, and
        updates of documents in `broken` fail. */
    method ReencryptBatch(docs: seq<Doc>, from: nat, to: nat, name: string, oldKey: Key, newKey: Key, broken: set<Id>,
                          ghost w0: World, ghost keyId: string, ghost a: nat, ghost saved: RotationState)
      returns (ok: bool, count: nat, ghost reached: nat)
      requires Valid() && from <= to <= |docs| && DistinctIds(docs)
      requires docs == Matching(w0.storage, keyId) && (docs != [] ==> Target(w0.storage, keyId) == Some(name))
      requires keyId in w0.keys && oldKey == w0.keys[keyId].key
      requires AtDocument(world, w0, keyId, newKey, a, from, saved)
      modifies this
      ensures Valid() && from <= reached <= to && (ok ==> reached == to)
      ensures ok <==> NoneBroken(docs, from, to, oldKey, broken)
      ensures AtDocument(world, w0, keyId, newKey, a, reached, saved)
      ensures ok ==> count == Readable(docs, from, to, oldKey)
      ensures Written(old(history), history, w0, keyId, newKey, a, from, reached, saved)
    {
      count := 0;
      for i := from to to
        invariant Valid() && AtDocument(world, w0, keyId, newKey, a, i, saved)
        invariant count == Readable(docs, from, i, oldKey) && NoneBroken(docs, from, i, oldKey, broken)
        invariant Written(old(history), history, w0, keyId, newKey, a, from, i, saved)
      {
        ghost var before := history;
        var done, counted := ReencryptDocument(docs, i, name, oldKey, newKey, broken, w0, keyId, a, saved);
        if !done {
          return false, count, i;
        }
        WrittenOne(old(history), before, history, world, w0, keyId, newKey, a, from, i, saved);
        if counted { count := count + 1; }
      }
      return true, count, to;
    }

    /** Whether a rotation gets past its checks and puts the new key on disk. */
    ghost predicate Rotates(keyId: string, f: Faults)
      reads this
    {
      !f.load && (world.saved.Idle? || world.saved.Completed?) && keyId in world.keys && !f.keys
    }

    /** Whether it then gets as far as saving that re-encryption begins. */
    ghost predicate Begins(keyId: string, f: Faults)
      reads this
    {
      Rotates(keyId, f) && world.keys[keyId].active && !ScanFails(world.storage, keyId, f) && !f.begin
    }

    /** Rotate a key and re-encrypt the documents of its collection. */
    method RotateKey(keyId: string, newKey: Key, collections: seq<string>, f: Faults) returns (ok: bool)
      requires Valid() && DistinctIds(Matching(world.storage, keyId))
      requires forall i, j :: 0 <= i < j < |collections| ==> collections[i] != collections[j]
      requires forall c :: c in collections <==> c in world.storage
      modifies this
      ensures Valid() && old(history) <= history
      // nothing is touched unless a rotation may start and the key can be replaced
      ensures !old(Rotates(keyId, f)) ==> !ok && history == old(history)
      // the new key reaches the disk first
      ensures old(Rotates(keyId, f)) ==>
                && |history| > |old(history)|
                && history[|old(history)|] == old(world).(keys := Rotated(old(world).keys, keyId, newKey))
      // failing there leaves the new key beside documents under the old one
      ensures old(Rotates(keyId, f)) && !old(Begins(keyId, f)) ==> !ok && |history| == |old(history)| + 1
      // from then on, until completion, every state on disk is in flight
      ensures old(Begins(keyId, f)) ==>
                forall n :: |old(history)| < n < |history| - (if ok then 1 else 0) ==>
                  InFlight(history[n], old(world), keyId, newKey, 0, Begun(old(world), keyId))
      ensures old(Begins(keyId, f)) && !ok ==> InFlight(world, old(world), keyId, newKey, 0, Begun(old(world), keyId))
      ensures ok ==> Finished(world, old(world), keyId, newKey)
      ensures ok <==> old(Begins(keyId, f)) && !f.finish && old(Unbroken(world, keyId, f.broken))
      // a rotation that failed after it replaced the key blocks the next one exactly if it had begun
      ensures old(Rotates(keyId, f)) && !ok ==> (CanStartRotation(world.saved) <==> !old(Begins(keyId, f)))
    {
      ghost var w0 := world;
      if f.load || !CanStartRotation(world.saved) {
        return false;
      }
      if keyId !in world.keys || f.keys {
        return false;
      }
      var oldKey := world.keys[keyId].key;
      Persist(world.(keys := Rotated(world.keys, keyId, newKey)));
      if !world.keys[keyId].active {
        return false;
      }
      var scan := ScanDocuments(collections, keyId, f);
      if scan.None? || f.begin {
        return false;
      }
      var docs := scan.value;
      var name := if PREFIX <= keyId then keyId[|PREFIX|..] else "";
      var begun := ReEncrypting(keyId, 0, |docs|, None);
      Persist(world.(saved := begun));
      NothingDone(w0, keyId, newKey, 0, begun);
      assert AtDocument(world, w0, keyId, newKey, 0, 0, begun);
      ok := RotateBatches(docs, name, keyId, oldKey, newKey, f, w0, begun);
    }

    /** The batches of a rotation, and its completion. */
    method RotateBatches(docs: seq<Doc>, name: string, keyId: string, oldKey: Key, newKey: Key, f: Faults,
                         ghost w0: World, ghost begun: RotationState)
      returns (ok: bool)
      requires Valid() && DistinctIds(docs) && begun == Begun(w0, keyId)
      requires docs == Matching(w0.storage, keyId) && (docs != [] ==> Target(w0.storage, keyId) == Some(name))
      requires keyId in w0.keys && oldKey == w0.keys[keyId].key
      requires AtDocument(world, w0, keyId, newKey, 0, 0, begun)
      modifies this
      ensures Valid() && old(history) <= history
      ensures forall n :: |old(history)| <= n < |history| - (if ok then 1 else 0) ==>
                InFlight(history[n], w0, keyId, newKey, 0, begun)
      ensures !ok ==> InFlight(world, w0, keyId, newKey, 0, begun)
      ensures ok ==> Finished(world, w0, keyId, newKey)
      ensures ok <==> NoneBroken(docs, 0, |docs|, oldKey, f.broken) && !f.finish
    {
      var next, processed := 0, 0;
      while next < |docs|
        invariant Valid() && next <= |docs| && AtDocument(world, w0, keyId, newKey, 0, next, begun)
        invariant processed == Readable(docs, 0, next, oldKey) && NoneBroken(docs, 0, next, oldKey, f.broken)
        invariant Written(old(history), history, w0, keyId, newKey, 0, 0, next, begun)
        decreases |docs| - next
      {
        ghost var before := history;
        var end := if next + batchSize <= |docs| then next + batchSize else |docs|;
        var done, count, reached := ReencryptBatch(docs, next, end, name, oldKey, newKey, f.broken, w0, keyId, 0, begun);
        WrittenMore(old(history), before, history, w0, keyId, newKey, 0, 0, next, reached, begun);
        WrittenInFlight(old(history), history, w0, keyId, newKey, 0, 0, reached, begun);
        ReadableJoins(docs, 0, next, end, oldKey);
        if !done {
          return false;
        }
        processed := processed + count;
        next := end;
      }
      WrittenInFlight(old(history), history, w0, keyId, newKey, 0, 0, next, begun);
      if f.finish {
        return false;
      }
      Persist(world.(saved := Completed(keyId, processed)));
      ok := true;
    }

    /** The loop that skips documents before the checkpoint. */
    method SkipToCheckpoint(docs: seq<Doc>, name: string, checkpoint: Option<(string, Id)>) returns (n: nat)
      ensures n == ResumeFrom(docs, name, checkpoint)
    {
      var skipping := checkpoint.Some?;
      n := 0;
      while n < |docs| && skipping
        invariant n <= |docs| && (skipping ==> checkpoint.Some?)
        invariant ResumeFrom(docs, name, checkpoint) == if skipping then n + ResumeFrom(docs[n..], name, checkpoint) else n
        decreases |docs| - n, skipping
      {
        assert docs[n..][0] == docs[n] && docs[n..][1..] == docs[n + 1..];
        if name == checkpoint.value.0 && docs[n].id == checkpoint.value.1 {
          skipping := false;
        } else {
          n := n + 1;
        }
      }
    }

    /** Whether an interrupted rotation gets as far as its batches. */
    ghost predicate Resumes(f: Faults)
      reads this
    {
      && !f.load && world.saved.ReEncrypting?
      && var keyId := world.saved.keyId;
      keyId in world.keys && !f.keys && world.keys[keyId].active && !ScanFails(world.storage, keyId, f)
    }

    /** Resume an interrupted rotation after a restart. The key is rotated once
        more, and only documents from the checkpoint on are visited. */
    method ResumeRotation(newKey: Key, collections: seq<string>, f: Faults) returns (ok: bool)
      requires Valid()
      requires world.saved.ReEncrypting? ==> DistinctIds(Matching(world.storage, world.saved.keyId))
      requires forall i, j :: 0 <= i < j < |collections| ==> collections[i] != collections[j]
      requires forall c :: c in collections <==> c in world.storage
      modifies this
      ensures Valid() && old(history) <= history
      ensures f.load || !old(world).saved.ReEncrypting? ==> history == old(history) && ok == (!f.load && !old(world).saved.Failed?)
      ensures old(world).saved.ReEncrypting? && ok ==> Resumed(world, old(world), newKey)
      ensures old(world).saved.ReEncrypting? ==>
                (ok <==> old(Resumes(f)) && old(ResumeUnhindered(world, batchSize, f)))
      ensures old(world).saved.ReEncrypting? ==>
                ResumeWritten(old(history), if ok then history[..|history| - 1] else history, old(world),
                              old(world).saved.keyId, newKey, ResumePoint(old(world)), batchSize)
    {
      if f.load {
        return false;
      }
      if !world.saved.ReEncrypting? {
        return !world.saved.Failed?;
      }
      ok := ResumeFromCheckpoint(newKey, collections, f, world.saved.keyId, world.saved.checkpoint,
                                 world.saved.processed, world.saved.total);
    }

    /** The key is rotated again, the documents are collected and those before
        the checkpoint left out. */
    method ResumeFromCheckpoint(newKey: Key, collections: seq<string>, f: Faults,
                                keyId: string, checkpoint: Option<(string, Id)>, already: nat, total: nat)
      returns (ok: bool)
      requires Valid() && !f.load && world.saved.ReEncrypting? && world.saved == ReEncrypting(keyId, already, total, checkpoint)
      requires DistinctIds(Matching(world.storage, keyId))
      requires forall i, j :: 0 <= i < j < |collections| ==> collections[i] != collections[j]
      requires forall c :: c in collections <==> c in world.storage
      modifies this
      ensures Valid() && old(history) <= history
      ensures ok ==> Resumed(world, old(world), newKey)
      ensures ok <==> old(Resumes(f)) && old(ResumeUnhindered(world, batchSize, f))
      ensures ResumeWritten(old(history), if ok then history[..|history| - 1] else history, old(world),
                            keyId, newKey, ResumePoint(old(world)), batchSize)
    {
      ghost var w0 := world;
      if keyId !in world.keys || f.keys {
        return false;
      }
      var oldKey := world.keys[keyId].key;
      var name := if PREFIX <= keyId then keyId[|PREFIX|..] else "";
      ghost var a := ResumePoint(w0);
      NothingDone(w0, keyId, newKey, a, w0.saved);
      Persist(world.(keys := Rotated(world.keys, keyId, newKey)));
      ResumeWrittenOne(old(history), old(history), history, world, w0, keyId, newKey, a, a, batchSize);
      if !world.keys[keyId].active {
        return false;
      }
      ghost var before := history;
      ok := ResumeScan(newKey, collections, f, keyId, name, checkpoint, already, total, oldKey, w0);
      ResumeWrittenJoins(old(history), before, if ok then history[..|history| - 1] else history,
                         w0, keyId, newKey, a, batchSize);
    }

    /** The documents are collected, and those from the checkpoint on re-encrypted. */
    method ResumeScan(newKey: Key, collections: seq<string>, f: Faults, keyId: string, name: string,
                      checkpoint: Option<(string, Id)>, already: nat, total: nat, oldKey: Key, ghost w0: World)
      returns (ok: bool)
      requires Valid() && w0.saved == ReEncrypting(keyId, already, total, checkpoint)
      requires keyId in w0.keys && oldKey == w0.keys[keyId].key && name == if PREFIX <= keyId then keyId[|PREFIX|..] else ""
      requires world == World(w0.storage, Rotated(w0.keys, keyId, newKey), w0.saved)
      requires DistinctIds(Matching(world.storage, keyId))
      requires forall i, j :: 0 <= i < j < |collections| ==> collections[i] != collections[j]
      requires forall c :: c in collections <==> c in world.storage
      modifies this
      ensures Valid() && old(history) <= history
      ensures ok ==> Resumed(world, w0, newKey)
      ensures ok <==> !ScanFails(w0.storage, keyId, f) && ResumeUnhindered(w0, batchSize, f)
      ensures ResumeWritten(old(history), if ok then history[..|history| - 1] else history, w0,
                            keyId, newKey, ResumePoint(w0), batchSize)
    {
      NothingDone(w0, keyId, newKey, ResumePoint(w0), w0.saved);
      var scan := ScanDocuments(collections, keyId, f);
      if scan.None? {
        return false;
      }
      var from := SkipToCheckpoint(scan.value, name, checkpoint);
      ok := ResumeBatches(scan.value, from, name, keyId, already, total, oldKey, newKey, f, w0);
    }

    /** One batch of a resumed run, and the checkpoint behind it. */
    method ResumeBatch(docs: seq<Doc>, next: nat, end: nat, name: string, processed: nat, oldKey: Key, newKey: Key, f: Faults,
                       ghost w0: World, keyId: string, total: nat, ghost a: nat)
      returns (ok: bool, after: nat)
      requires Valid() && DistinctIds(docs) && a <= next < end <= |docs| && end <= next + batchSize
      requires docs == Matching(w0.storage, keyId) && Target(w0.storage, keyId) == Some(name)
      requires keyId in w0.keys && oldKey == w0.keys[keyId].key && w0.saved.ReEncrypting? && total == w0.saved.total
      requires AtDocument(world, w0, keyId, newKey, a, next, SavedAt(w0, keyId, a, next))
      requires processed == w0.saved.processed + Readable(docs, a, next, oldKey)
      modifies this
      ensures Valid() && ResumeWritten(old(history), history, w0, keyId, newKey, a, batchSize)
      ensures ok <==> NoneBroken(docs, next, end, oldKey, f.broken) && end !in f.checkpoints
      ensures ok ==> AtDocument(world, w0, keyId, newKey, a, end, SavedAt(w0, keyId, a, end))
      ensures ok ==> after == w0.saved.processed + Readable(docs, a, end, oldKey)
    {
      ghost var saved := SavedAt(w0, keyId, a, next);
      var done, count, reached := ReencryptBatch(docs, next, end, name, oldKey, newKey, f.broken, w0, keyId, a, saved);
      ResumeWrittenMore(old(history), old(history), history, w0, keyId, newKey, a, next, reached, batchSize);
      ReadableJoins(docs, a, next, end, oldKey);
      after := processed + count;
      if !done || end in f.checkpoints {
        return false, after;
      }
      ghost var before := history;
      Persist(world.(saved := ReEncrypting(keyId, after, total, Some((name, docs[end - 1].id)))));
      assert world.saved == SavedAt(w0, keyId, a, end);
      ResumeWrittenOne(old(history), before, history, world, w0, keyId, newKey, a, end, batchSize);
      ok := true;
    }

    /** The batches of a resumed run, and its completion. */
    method ResumeBatches(docs: seq<Doc>, from: nat, name: string, keyId: string, already: nat, total: nat,
                         oldKey: Key, newKey: Key, f: Faults, ghost w0: World)
      returns (ok: bool)
      requires Valid() && from <= |docs| && DistinctIds(docs)
      requires docs == Matching(w0.storage, keyId) && (docs != [] ==> Target(w0.storage, keyId) == Some(name))
      requires keyId in w0.keys && oldKey == w0.keys[keyId].key
      requires w0.saved.ReEncrypting? && already == w0.saved.processed && total == w0.saved.total
      requires AtDocument(world, w0, keyId, newKey, from, from, w0.saved)
      modifies this
      ensures Valid() && old(history) <= history
      ensures ok <==> Unhindered(docs, from, oldKey, batchSize, f) && !f.finish
      ensures ok ==> AtDocument(world, w0, keyId, newKey, from, |docs|,
                                Completed(keyId, already + Readable(docs, from, |docs|, oldKey)))
      ensures ResumeWritten(old(history), if ok then history[..|history| - 1] else history, w0, keyId, newKey, from, batchSize)
    {
      var next, processed := from, already;
      while next < |docs|
        invariant Valid() && from <= next <= |docs|
        invariant AtDocument(world, w0, keyId, newKey, from, next, SavedAt(w0, keyId, from, next))
        invariant processed == already + Readable(docs, from, next, oldKey)
        invariant Unhindered(docs, from, oldKey, batchSize, f) <==> Unhindered(docs, next, oldKey, batchSize, f)
        invariant ResumeWritten(old(history), history, w0, keyId, newKey, from, batchSize)
        decreases |docs| - next
      {
        ghost var before := history;
        var end := if next + batchSize <= |docs| then next + batchSize else |docs|;
        var done;
        done, processed := ResumeBatch(docs, next, end, name, processed, oldKey, newKey, f, w0, keyId, total, from);
        ResumeWrittenJoins(old(history), before, history, w0, keyId, newKey, from, batchSize);
        if !done {
          return false;
        }
        next := end;
      }
      if f.finish {
        return false;
      }
      ghost var before := history;
      Persist(world.(saved := Completed(keyId, processed)));
      assert history[..|history| - 1] == before;
      ok := true;
    }
  }

  /** No batch from `next` on meets a document that cannot be updated or a
      checkpoint that cannot be saved. */
  ghost predicate Unhindered(docs: seq<Doc>, next: nat, key: Key, batchSize: nat, f: Faults)
    requires next <= |docs|
    decreases |docs| - next
  {
    next == |docs| || batchSize == 0 ||
    var end := if next + batchSize <= |docs| then next + batchSize else |docs|;
    NoneBroken(docs, next, end, key, f.broken) && end !in f.checkpoints && Unhindered(docs, end, key, batchSize, f)
  }

  ghost predicate ResumeUnhindered(w: World, batchSize: nat, f: Faults)
    requires w.saved.ReEncrypting?
  {
    && !f.finish
    && (w.saved.keyId in w.keys ==>
          Unhindered(Matching(w.storage, w.saved.keyId), ResumePoint(w), w.keys[w.saved.keyId].key, batchSize, f))
  }

  function ResumePoint(w0: World): (a: nat)
    requires w0.saved.ReEncrypting?
    ensures a <= |Matching(w0.storage, w0.saved.keyId)|
  {
    var keyId := w0.saved.keyId;
    ResumeFrom(Matching(w0.storage, keyId), if PREFIX <= keyId then keyId[|PREFIX|..] else "", w0.saved.checkpoint)
  }

  /** A resumed run has completed: the documents from the resume point on that
      opened under the key current at that time are under the new key. */
  ghost predicate Resumed(w: World, w0: World, newKey: Key)
    requires w0.saved.ReEncrypting?
  {
    && w0.saved.keyId in w0.keys
    && var keyId, a := w0.saved.keyId, ResumePoint(w0);
       var docs := Matching(w0.storage, keyId);
       AtDocument(w, w0, keyId, newKey, a, |docs|,
                  Completed(keyId, w0.saved.processed + Readable(docs, a, |docs|, w0.keys[keyId].key)))
  }

  // --------------------------------------------------------------- resumption

  /** Where a resumed run starts: at the checkpoint if the scan meets it, else
      past the end; at the beginning without a checkpoint. */
  function ResumeFrom(docs: seq<Doc>, name: string, checkpoint: Option<(string, Id)>): (n: nat)
    ensures n <= |docs|
  {
    match checkpoint
    case None => 0
    case Some(c) =>
      if docs == [] then 0
      else if name == c.0 && docs[0].id == c.1 then 0
      else 1 + ResumeFrom(docs[1..], name, checkpoint)
  }

  /** The state a resumed run saves once it has dealt with the documents from
      `a` up to `c`: the key, what was counted before and since, the old total,
      and the last of the documents. Until then the old state stands. */
  ghost function SavedAt(w0: World, keyId: string, a: nat, c: nat): RotationState
    requires w0.saved.ReEncrypting? && keyId in w0.keys && a <= c <= |Matching(w0.storage, keyId)|
  {
    var docs := Matching(w0.storage, keyId);
    if c == a then w0.saved
    else ReEncrypting(keyId, w0.saved.processed + Readable(docs, a, c, w0.keys[keyId].key), w0.saved.total,
                      Some((Target(w0.storage, keyId).value, docs[c - 1].id)))
  }

  /** A state on disk during a resumed run: the last checkpoint was saved at
      document `c`, and less than a batch more has been dealt with. */
  ghost predicate ResumingFrom(w: World, w0: World, keyId: string, newKey: Key, a: nat, c: nat, batchSize: nat) {
    && w0.saved.ReEncrypting? && keyId in w0.keys && a <= c <= |Matching(w0.storage, keyId)|
    && InFlightAt(w, w0, keyId, newKey, a, c, c + batchSize, SavedAt(w0, keyId, a, c))
  }

  ghost predicate Resuming(w: World, w0: World, keyId: string, newKey: Key, a: nat, batchSize: nat) {
    exists c :: ResumingFrom(w, w0, keyId, newKey, a, c, batchSize)
  }

  ghost predicate ResumeWritten(before: seq<World>, now: seq<World>, w0: World, keyId: string, newKey: Key, a: nat, batchSize: nat) {
    before <= now && forall n :: |before| <= n < |now| ==> Resuming(now[n], w0, keyId, newKey, a, batchSize)
  }

  lemma ResumeWrittenMore(before: seq<World>, mid: seq<World>, now: seq<World>,
                          w0: World, keyId: string, newKey: Key, a: nat, c: nat, reached: nat, batchSize: nat)
    requires ResumeWritten(before, mid, w0, keyId, newKey, a, batchSize)
    requires w0.saved.ReEncrypting? && keyId in w0.keys && a <= c <= |Matching(w0.storage, keyId)| && reached <= c + batchSize
    requires Written(mid, now, w0, keyId, newKey, a, c, reached, SavedAt(w0, keyId, a, c))
    ensures ResumeWritten(before, now, w0, keyId, newKey, a, batchSize)
  {
    forall n | |before| <= n < |now| ensures Resuming(now[n], w0, keyId, newKey, a, batchSize) {
      if n >= |mid| {
        assert InFlightAt(now[n], w0, keyId, newKey, a, c, reached, SavedAt(w0, keyId, a, c));
        assert ResumingFrom(now[n], w0, keyId, newKey, a, c, batchSize);
      }
    }
  }

  lemma ResumeWrittenOne(before: seq<World>, mid: seq<World>, now: seq<World>, w: World,
                         w0: World, keyId: string, newKey: Key, a: nat, c: nat, batchSize: nat)
    requires ResumeWritten(before, mid, w0, keyId, newKey, a, batchSize) && now == mid + [w]
    requires w0.saved.ReEncrypting? && keyId in w0.keys && a <= c <= |Matching(w0.storage, keyId)|
    requires AtDocument(w, w0, keyId, newKey, a, c, SavedAt(w0, keyId, a, c))
    ensures ResumeWritten(before, now, w0, keyId, newKey, a, batchSize)
  {
    assert ResumingFrom(w, w0, keyId, newKey, a, c, batchSize);
  }

  lemma ResumeWrittenJoins(before: seq<World>, mid: seq<World>, now: seq<World>,
                           w0: World, keyId: string, newKey: Key, a: nat, batchSize: nat)
    requires ResumeWritten(before, mid, w0, keyId, newKey, a, batchSize) && ResumeWritten(mid, now, w0, keyId, newKey, a, batchSize)
    ensures ResumeWritten(before, now, w0, keyId, newKey, a, batchSize)
  {
  }

  /** The state saved when re-encryption of a key begins. */
  function Begun(w0: World, keyId: string): RotationState {
    ReEncrypting(keyId, 0, |Matching(w0.storage, keyId)|, None)
  }

  /** A completed rotation: the key is new, every document the old key opened
      is under the new one, and their number is saved. */
  ghost predicate Finished(w: World, w0: World, keyId: string, newKey: Key) {
    && keyId in w0.keys
    && var docs, oldKey := Matching(w0.storage, keyId), w0.keys[keyId].key;
    AtDocument(w, w0, keyId, newKey, 0, |docs|, Completed(keyId, Readable(docs, 0, |docs|, oldKey)))
  }

  lemma NothingDone(w0: World, keyId: string, newKey: Key, a: nat, saved: RotationState)
    requires keyId in w0.keys && a <= |Matching(w0.storage, keyId)|
    ensures AtDocument(World(w0.storage, Rotated(w0.keys, keyId, newKey), saved), w0, keyId, newKey, a, a, saved)
  {
    var docs := Matching(w0.storage, keyId);
    assert Progress(docs, a, a, w0.keys[keyId].key, newKey) == docs;
    assert WithDocs(w0.storage, keyId, docs) == w0.storage;
  }

  // ------------------------------------------------------------------ theorems

  /** The document at position `i` of the key's collection. */
  function DocAt(w: World, keyId: string, i: nat): Doc
    requires i < |Matching(w.storage, keyId)|
  {
    Matching(w.storage, keyId)[i]
  }

  lemma InFlightDocs(w: World, w0: World, keyId: string, newKey: Key, a: nat, j: nat, saved: RotationState)
    requires AtDocument(w, w0, keyId, newKey, a, j, saved)
    ensures Matching(w.storage, keyId) == Progress(Matching(w0.storage, keyId), a, j, w0.keys[keyId].key, newKey)
    ensures w.storage.Keys == w0.storage.Keys
    ensures forall c :: c in w0.storage && Some(c) != Target(w0.storage, keyId) ==> w.storage[c] == w0.storage[c]
  {
  }

  /** At every crash point of a rotation whose documents all opened under the
      old key, each document opens under the old or the new key to its old
      text, other collections are untouched, and no rotation may start. */
  lemma CrashKeepsPlaintext(w: World, w0: World, keyId: string, newKey: Key, i: nat)
    requires InFlight(w, w0, keyId, newKey, 0, Begun(w0, keyId)) && i < |Matching(w0.storage, keyId)|
    requires Decrypt(DocAt(w0, keyId, i).data, w0.keys[keyId].key).Some?
    ensures i < |Matching(w.storage, keyId)| && DocAt(w, keyId, i).id == DocAt(w0, keyId, i).id
    ensures var plain := Decrypt(DocAt(w0, keyId, i).data, w0.keys[keyId].key);
            || Decrypt(DocAt(w, keyId, i).data, w0.keys[keyId].key) == plain
            || Decrypt(DocAt(w, keyId, i).data, newKey) == plain
    ensures w.storage.Keys == w0.storage.Keys
    ensures forall c :: c in w0.storage && Some(c) != Target(w0.storage, keyId) ==> w.storage[c] == w0.storage[c]
    ensures !CanStartRotation(w.saved)
  {
  }

  /** After a completed rotation each of them opens under the current key, and
      the saved count is their number. */
  lemma FinishedKeepsPlaintext(w: World, w0: World, keyId: string, newKey: Key)
    requires Finished(w, w0, keyId, newKey)
    requires forall i :: 0 <= i < |Matching(w0.storage, keyId)| ==>
               Decrypt(DocAt(w0, keyId, i).data, w0.keys[keyId].key).Some?
    ensures keyId in w.keys && |Matching(w.storage, keyId)| == |Matching(w0.storage, keyId)|
    ensures forall i :: 0 <= i < |Matching(w0.storage, keyId)| ==>
              Decrypt(DocAt(w, keyId, i).data, w.keys[keyId].key)
              == Decrypt(DocAt(w0, keyId, i).data, w0.keys[keyId].key)
    ensures w.saved == Completed(keyId, |Matching(w0.storage, keyId)|) && CanStartRotation(w.saved)
  {
    var docs := Matching(w0.storage, keyId);
    forall i | 0 <= i < |docs|
      ensures Decrypt(docs[i].data, w0.keys[keyId].key).Some?
    {
      assert docs[i] == DocAt(w0, keyId, i);
    }
    AllReadable(docs, |docs|, w0.keys[keyId].key);
    InFlightDocs(w, w0, keyId, newKey, 0, |docs|, Completed(keyId, |docs|));
  }

  /** Some key on disk opens the document. */
  ghost predicate Recoverable(w: World, d: Doc) {
    exists k :: k in w.keys && Decrypt(d.data, w.keys[k].key).Some?
  }

  /** The old key is not on disk after the rotation step: of the documents it
      opened, exactly those already re-encrypted can be opened from what a
      crash leaves behind. */
  lemma CrashRecoverableIff(w: World, w0: World, keyId: string, newKey: Key, j: nat, saved: RotationState, i: nat)
    requires AtDocument(w, w0, keyId, newKey, 0, j, saved) && i < |Matching(w0.storage, keyId)|
    requires Decrypt(DocAt(w0, keyId, i).data, w0.keys[keyId].key).Some?
    requires newKey != w0.keys[keyId].key
    requires forall k :: k in w0.keys && k != keyId ==> w0.keys[k].key != w0.keys[keyId].key
    ensures i < |Matching(w.storage, keyId)| && (Recoverable(w, DocAt(w, keyId, i)) <==> i < j)
  {
    InFlightDocs(w, w0, keyId, newKey, 0, j, saved);
    if i < j { assert Decrypt(DocAt(w, keyId, i).data, w.keys[keyId].key).Some?; }
  }

  /** A crash after `j` documents of a rotation, then a completed resumption:
      the current key opens exactly the documents done before the crash. */
  lemma ResumeKeepsOnlyWhatWasDone(w0: World, keyId: string, newKey: Key, j: nat, w1: World, newerKey: Key, w2: World, i: nat)
    requires AtDocument(w1, w0, keyId, newKey, 0, j, Begun(w0, keyId)) && i < |Matching(w0.storage, keyId)|
    requires Decrypt(DocAt(w0, keyId, i).data, w0.keys[keyId].key).Some?
    requires Resumed(w2, w1, newerKey)
    requires newKey != w0.keys[keyId].key && newerKey != newKey && newerKey != w0.keys[keyId].key
    ensures keyId in w2.keys && i < |Matching(w2.storage, keyId)|
    ensures Decrypt(DocAt(w2, keyId, i).data, w2.keys[keyId].key).Some? <==> i < j
    ensures w2.saved.Completed?
  {
  }

  /** A checkpoint is where a resumed run starts again. */
  lemma {:induction false} ResumesAtCheckpoint(docs: seq<Doc>, name: string, k: nat)
    requires DistinctIds(docs) && k < |docs|
    ensures ResumeFrom(docs, name, Some((name, docs[k].id))) == k
  {
    if k > 0 {
      assert docs[0].id != docs[k].id && docs[1..][k - 1] == docs[k];
      ResumesAtCheckpoint(docs[1..], name, k - 1);
    }
  }

  /** A checkpoint that the scan does not meet leaves nothing to do. */
  lemma {:induction false} LostCheckpointSkipsAll(docs: seq<Doc>, name: string, c: (string, Id))
    requires forall i :: 0 <= i < |docs| ==> name != c.0 || docs[i].id != c.1
    ensures ResumeFrom(docs, name, Some(c)) == |docs|
  {
    if docs != [] { LostCheckpointSkipsAll(docs[1..], name, c); }
  }

  lemma {:induction false} SameIdsResume(docs: seq<Doc>, docs': seq<Doc>, name: string, checkpoint: Option<(string, Id)>)
    requires |docs'| == |docs| && forall i :: 0 <= i < |docs| ==> docs'[i].id == docs[i].id
    ensures ResumeFrom(docs', name, checkpoint) == ResumeFrom(docs, name, checkpoint)
  {
    if docs != [] { SameIdsResume(docs[1..], docs'[1..], name, checkpoint); }
  }

  /** What a crashed resumption leaves to the next one: the key it was about,
      the old total, what was counted, and the last document of its last
      checkpoint, at which the next resumption starts. */
  lemma CheckpointResumes(w: World, w0: World, newKey: Key, c: nat, batchSize: nat)
    requires w0.saved.ReEncrypting? && DistinctIds(Matching(w0.storage, w0.saved.keyId))
    requires ResumingFrom(w, w0, w0.saved.keyId, newKey, ResumePoint(w0), c, batchSize)
    ensures w.saved.ReEncrypting? && w.saved.keyId == w0.saved.keyId && w.saved.total == w0.saved.total
    ensures w0.saved.keyId in w0.keys && c <= |Matching(w0.storage, w0.saved.keyId)|
    ensures w.saved.processed == w0.saved.processed +
              Readable(Matching(w0.storage, w0.saved.keyId), ResumePoint(w0), c, w0.keys[w0.saved.keyId].key)
    ensures c == ResumePoint(w0) ==> ResumePoint(w) == c && w.saved.checkpoint == w0.saved.checkpoint
    ensures c > ResumePoint(w0) ==>
              && ResumePoint(w) == c - 1
              && w.saved.checkpoint.Some? && IsCollectionUsingKey(w.saved.checkpoint.value.0, w0.saved.keyId)
              && w.saved.checkpoint.value.1 == Matching(w0.storage, w0.saved.keyId)[c - 1].id
  {
    var keyId, a := w0.saved.keyId, ResumePoint(w0);
    var saved := SavedAt(w0, keyId, a, c);
    var j :| c <= j <= c + batchSize && AtDocument(w, w0, keyId, newKey, a, j, saved);
    var docs, docs' := Matching(w0.storage, keyId), Matching(w.storage, keyId);
    var name := if PREFIX <= keyId then keyId[|PREFIX|..] else "";
    InFlightDocs(w, w0, keyId, newKey, a, j, saved);
    SameIdsResume(docs, docs', name, saved.checkpoint);
    if c > a { ResumesAtCheckpoint(docs, name, c - 1); }
  }

  // ------------------------------------------------- any number of resumptions

  /** A rotation or a resumption, completed or not: the key it rotated to, the
      documents it went through, and what it left on disk. */
  datatype Attempt = Attempt(key: Key, from: nat, to: nat, world: World)

  function Before(w0: World, runs: seq<Attempt>, n: nat): World
    requires n <= |runs|
  {
    if n == 0 then w0 else runs[n - 1].world
  }

  function KeyBefore(k0: Key, runs: seq<Attempt>, n: nat): Key
    requires n <= |runs|
  {
    if n == 0 then k0 else runs[n - 1].key
  }

  /** Attempt `n` is the rotation, or resumes what the one before it left; it
      completes, or leaves the state saved last. */
  ghost predicate Attempted(w0: World, keyId: string, runs: seq<Attempt>, n: nat)
    requires n < |runs|
  {
    var w, r := Before(w0, runs, n), runs[n];
    if n == 0 then
      && r.from == 0 && AtDocument(r.world, w, keyId, r.key, 0, r.to, r.world.saved)
      && (r.world.saved == Begun(w, keyId) || r.world.saved.Completed?)
    else
      && w.saved.ReEncrypting? && r.from == ResumePoint(w)
      && AtDocument(r.world, w, w.saved.keyId, r.key, r.from, r.to, r.world.saved)
      && (r.world.saved.Completed? || exists c :: r.from <= c <= r.to && r.world.saved == SavedAt(w, w.saved.keyId, r.from, c))
  }

  /** Each state of a rotation is such an attempt. */
  lemma RotationIsAttempt(w: World, w0: World, keyId: string, key: Key) returns (r: Attempt)
    requires InFlight(w, w0, keyId, key, 0, Begun(w0, keyId)) || Finished(w, w0, keyId, key)
    ensures r.key == key && r.world == w && Attempted(w0, keyId, [r], 0)
  {
    var to: nat :| AtDocument(w, w0, keyId, key, 0, to, w.saved) &&
              (w.saved == Begun(w0, keyId) || w.saved.Completed?);
    r := Attempt(key, 0, to, w);
  }

  /** So is each state of a resumption of what the last attempt left. */
  lemma ResumptionIsAttempt(w0: World, keyId: string, runs: seq<Attempt>, w: World, key: Key, batchSize: nat)
      returns (r: Attempt)
    requires runs != [] && runs[|runs| - 1].world.saved.ReEncrypting?
    requires var last := runs[|runs| - 1].world;
             Resuming(w, last, last.saved.keyId, key, ResumePoint(last), batchSize) || Resumed(w, last, key)
    ensures r.key == key && r.world == w && Attempted(w0, keyId, runs + [r], |runs|)
    ensures forall n :: 0 <= n < |runs| && Attempted(w0, keyId, runs, n) ==> Attempted(w0, keyId, runs + [r], n)
  {
    var last := runs[|runs| - 1].world;
    var id, a := last.saved.keyId, ResumePoint(last);
    if Resumed(w, last, key) {
      r := Attempt(key, a, |Matching(last.storage, id)|, w);
    } else {
      var c: nat :| ResumingFrom(w, last, id, key, a, c, batchSize);
      var to: nat :| c <= to <= c + batchSize && AtDocument(w, last, id, key, a, to, SavedAt(last, id, a, c));
      r := Attempt(key, a, to, w);
    }
  }

  /** No resumption forgets which key it is about. */
  lemma {:induction false} AttemptsKeepKeyId(w0: World, keyId: string, runs: seq<Attempt>, n: nat)
    requires forall m :: 0 <= m < |runs| ==> Attempted(w0, keyId, runs, m)
    requires 0 < n <= |runs| && Before(w0, runs, n).saved.ReEncrypting?
    ensures Before(w0, runs, n).saved.keyId == keyId
  {
    assert Attempted(w0, keyId, runs, n - 1);
    if n > 1 { AttemptsKeepKeyId(w0, keyId, runs, n - 1); }
  }

  ghost predicate Attempts(w0: World, keyId: string, runs: seq<Attempt>) {
    && (forall n :: 0 <= n < |runs| ==> Attempted(w0, keyId, runs, n))
    && keyId in w0.keys
    && forall m, n :: 0 <= m < n <= |runs| ==>
         KeyBefore(w0.keys[keyId].key, runs, m) != KeyBefore(w0.keys[keyId].key, runs, n)
  }

  /** The first `n` attempts all went through document `i`. */
  ghost predicate DoneByAll(runs: seq<Attempt>, n: nat, i: nat)
    requires n <= |runs|
  {
    forall m :: 0 <= m < n ==> runs[m].from <= i < runs[m].to
  }

  /** The document keeps its text, and is sealed with a key used so far, with
      the last one exactly if every attempt went through it. */
  ghost predicate SealedAt(w0: World, keyId: string, runs: seq<Attempt>, n: nat, i: nat)
    requires n <= |runs| && keyId in w0.keys && i < |Matching(w0.storage, keyId)|
  {
    var w, k0 := Before(w0, runs, n), w0.keys[keyId].key;
    && keyId in w.keys && w.keys[keyId].key == KeyBefore(k0, runs, n) && i < |Matching(w.storage, keyId)|
    && var c := DocAt(w, keyId, i).data;
       && c.plain == DocAt(w0, keyId, i).data.plain
       && (exists m :: 0 <= m <= n && c.key == KeyBefore(k0, runs, m))
       && (c.key == KeyBefore(k0, runs, n) <==> DoneByAll(runs, n, i))
  }

  lemma NextAttempt(w0: World, keyId: string, runs: seq<Attempt>, n: nat, i: nat)
    requires Attempts(w0, keyId, runs) && n < |runs| && i < |Matching(w0.storage, keyId)|
    requires SealedAt(w0, keyId, runs, n, i)
    ensures SealedAt(w0, keyId, runs, n + 1, i)
  {
    var w, r, k0 := Before(w0, runs, n), runs[n], w0.keys[keyId].key;
    assert Attempted(w0, keyId, runs, n);
    if n > 0 { AttemptsKeepKeyId(w0, keyId, runs, n); }
    InFlightDocs(r.world, w, keyId, r.key, r.from, r.to, r.world.saved);
    var c, c' := DocAt(w, keyId, i).data, DocAt(r.world, keyId, i).data;
    var m :| 0 <= m <= n && c.key == KeyBefore(k0, runs, m);
    assert KeyBefore(k0, runs, m) != KeyBefore(k0, runs, n + 1);
    if r.from <= i < r.to && c.key == KeyBefore(k0, runs, n) {
      assert c'.key == KeyBefore(k0, runs, n + 1);
    } else {
      assert c' == c && c'.key == KeyBefore(k0, runs, m);
    }
  }

  lemma {:induction false} SealedByAttempts(w0: World, keyId: string, runs: seq<Attempt>, n: nat, i: nat)
    requires Attempts(w0, keyId, runs) && n <= |runs| && i < |Matching(w0.storage, keyId)|
    requires Decrypt(DocAt(w0, keyId, i).data, w0.keys[keyId].key).Some?
    ensures SealedAt(w0, keyId, runs, n, i)
  {
    if n == 0 {
      assert DocAt(w0, keyId, i).data.key == KeyBefore(w0.keys[keyId].key, runs, 0);
    } else {
      SealedByAttempts(w0, keyId, runs, n - 1, i);
      NextAttempt(w0, keyId, runs, n - 1, i);
    }
  }

  /** A rotation and any number of resumptions, each under a new key: the
      current key opens exactly the documents that all of them went through,
      and those keep their text. */
  lemma AttemptsKeepIff(w0: World, keyId: string, runs: seq<Attempt>, i: nat)
    requires Attempts(w0, keyId, runs) && i < |Matching(w0.storage, keyId)|
    requires Decrypt(DocAt(w0, keyId, i).data, w0.keys[keyId].key).Some?
    ensures var w := Before(w0, runs, |runs|);
            && keyId in w.keys && i < |Matching(w.storage, keyId)|
            && Decrypt(DocAt(w, keyId, i).data, w.keys[keyId].key)
               == if forall m :: 0 <= m < |runs| ==> runs[m].from <= i < runs[m].to
                  then Decrypt(DocAt(w0, keyId, i).data, w0.keys[keyId].key) else None
  {
    SealedByAttempts(w0, keyId, runs, |runs|, i);
  }

  /** Each of them takes the key to its next version; nothing else about keys changes. */
  lemma {:induction false} AttemptsCountVersions(w0: World, keyId: string, runs: seq<Attempt>, n: nat)
    requires Attempts(w0, keyId, runs) && n <= |runs|
    ensures var keys := Before(w0, runs, n).keys;
            && keys.Keys == w0.keys.Keys && keys[keyId].version == w0.keys[keyId].version + n
            && keys[keyId].active == w0.keys[keyId].active
            && forall k :: k in w0.keys && k != keyId ==> keys[k] == w0.keys[k]
  {
    if n > 0 {
      AttemptsCountVersions(w0, keyId, runs, n - 1);
      assert Attempted(w0, keyId, runs, n - 1);
      if n > 1 { AttemptsKeepKeyId(w0, keyId, runs, n - 1); }
    }
  }
}
