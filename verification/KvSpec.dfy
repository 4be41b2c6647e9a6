/**
 The key-value store as callers see it: a finite map from keys to versioned
 values, and what each operation does to it.
 */
module KvSpec {
  import opened Wrappers
  import opened Memory

  datatype KvError = KeyTooLarge | ValueTooLarge | OutOfMemory | VersionMismatch | NotFound
  type KvResult<+T> = Result<T, KvError>

  datatype Versioned = Versioned(value: Bytes, version: nat)
  type Store = map<Bytes, Versioned>

  /** The key is present and the new value does not fit in its old block. */
  predicate Grows(m: Store, key: Bytes, value: Bytes) {
    key in m && |value| > |m[key].value|
  }

  /** A write of `value` needs a new block. */
  predicate Asks(m: Store, key: Bytes, value: Bytes) {
    key !in m || Grows(m, key, value)
  }

  function InsertMap(m: Store, key: Bytes, value: Bytes, granted: bool): Store {
    if |key| > U32_MAX || |value| > U32_MAX then m
    else if key in m then
      if Grows(m, key, value) && !granted then m
      else m[key := Versioned(value, m[key].version)]
    else if granted then m[key := Versioned(value, 1)] else m
  }

  function InsertResult(m: Store, key: Bytes, value: Bytes, granted: bool): KvResult<bool> {
    if |key| > U32_MAX || |value| > U32_MAX then Err(KeyTooLarge)
    else if key in m then
      if Grows(m, key, value) && !granted then Err(OutOfMemory) else Ok(false)
    else if granted then Ok(true) else Err(OutOfMemory)
  }

  /** The size of the removed record, added up in 32 bits. */
  function RemoveResult(m: Store, key: Bytes): Option<nat> {
    if key in m then Some(Wrap32(|key| + |m[key].value|)) else None
  }

  /** `cas` stores the value length in 32 bits without a check. */
  function Truncated(value: Bytes): (r: Bytes)
    ensures r <= value
    ensures |value| <= U32_MAX <==> r == value
  {
    value[..Wrap32(|value|)]
  }

  function CasResult(m: Store, key: Bytes, expected: nat, value: Bytes, granted: bool): KvResult<nat> {
    if key !in m then Err(NotFound)
    else if m[key].version != expected then Err(VersionMismatch)
    else if Grows(m, key, value) && !granted then Err(OutOfMemory)
    else Ok(Wrap64(expected + 1))
  }

  function CasMap(m: Store, key: Bytes, expected: nat, value: Bytes, granted: bool): Store {
    match CasResult(m, key, expected, value, granted)
    case Ok(version) => m[key := Versioned(Truncated(value), version)]
    case Err(_) => m
  }

  /** The two maps agree on every key but `key`. */
  ghost predicate SameExcept(m: Store, m': Store, key: Bytes) {
    forall k :: k != key ==> (k in m' <==> k in m) && (k in m' ==> m'[k] == m[k])
  }

  /** `key` now has `value`, and no other key has changed. */
  ghost predicate Stores(m: Store, m': Store, key: Bytes, value: Bytes) {
    key in m' && m'[key].value == value && SameExcept(m, m', key)
  }

  /** What the caller of `insert` can rely on: the value is stored exactly if
      the answer says so, other keys are as before, and the version starts at 1
      or stays. */
  lemma InsertStores(m: Store, key: Bytes, value: Bytes, granted: bool)
    ensures var r, m' := InsertResult(m, key, value, granted), InsertMap(m, key, value, granted);
            && SameExcept(m, m', key) && (r.Err? ==> m' == m)
            && (r.Ok? ==> Stores(m, m', key, value) && m'[key].version == if r.value then 1 else m[key].version)
            && (r.Ok? ==> (r.value <==> key !in m))
            && (r == Err(KeyTooLarge) <==> |key| > 0xFFFF_FFFF || |value| > 0xFFFF_FFFF)
            && (r == Err(OutOfMemory) <==> |key| <= 0xFFFF_FFFF && |value| <= 0xFFFF_FFFF && !granted &&
                                           (key in m ==> |m[key].value| < |value|))
  {
  }

  /** And of `cas`: a value beyond 32 bits of length is cut off. */
  lemma CasStores(m: Store, key: Bytes, expected: nat, value: Bytes, granted: bool)
    ensures var r, m' := CasResult(m, key, expected, value, granted), CasMap(m, key, expected, value, granted);
            && SameExcept(m, m', key) && (r.Err? ==> m' == m)
            && (r.Ok? ==> Stores(m, m', key, Truncated(value)) && m'[key].version == r.value)
            && Truncated(value) == value[..|value| % 0x1_0000_0000]
            && (r.Ok? ==> r.value == (expected + 1) % 0x1_0000_0000_0000_0000)
            && (r == Err(NotFound) <==> key !in m)
            && (r == Err(VersionMismatch) <==> key in m && m[key].version != expected)
            && (r == Err(OutOfMemory) <==> key in m && m[key].version == expected && !granted && |m[key].value| < |value|)
  {
  }

  /** And of `remove`: the key is gone, no other has changed, and the answer is
      the size of the record in 32 bits. */
  lemma RemoveForgets(m: Store, key: Bytes)
    ensures var r := RemoveResult(m, key);
            && SameExcept(m, m - {key}, key) && key !in m - {key} && (r.None? <==> key !in m)
            && (r.Some? ==> r.value == (|key| + |m[key].value|) % 0x1_0000_0000)
  {
  }

  // --------------------------------------------------------------------- runs

  /** One operation on a store; `granted` says whether the arena had room. */
  datatype Op =
    | Insert(key: Bytes, value: Bytes, granted: bool)
    | Remove(key: Bytes)
    | Cas(key: Bytes, expected: nat, value: Bytes, granted: bool)

  function Apply(m: Store, op: Op): Store {
    match op
    case Insert(key, value, granted) => InsertMap(m, key, value, granted)
    case Remove(key) => m - {key}
    case Cas(key, expected, value, granted) => CasMap(m, key, expected, value, granted)
  }

  /** The store after a run that starts empty. */
  function Run(ops: seq<Op>): Store {
    if ops == [] then map[] else Apply(Run(ops[..|ops| - 1]), ops[|ops| - 1])
  }

  lemma RunSnoc(ops: seq<Op>, op: Op)
    ensures Run(ops + [op]) == Apply(Run(ops), op)
  {
    assert (ops + [op])[..|ops|] == ops;
  }

  /** `op` makes `key` present in a store where it was absent. */
  predicate IsFresh(m: Store, op: Op, key: Bytes) {
    op.Insert? && op.key == key && InsertResult(m, key, op.value, op.granted) == Ok(true)
  }

  predicate CasWins(m: Store, op: Op, key: Bytes) {
    op.Cas? && op.key == key && CasResult(m, key, op.expected, op.value, op.granted).Ok?
  }

  /** Successful CAS operations on `key` since its last fresh insertion. */
  function CasCount(ops: seq<Op>, key: Bytes): nat {
    if ops == [] then 0
    else
      var before, op := ops[..|ops| - 1], ops[|ops| - 1];
      if IsFresh(Run(before), op, key) then 0
      else CasCount(before, key) + if CasWins(Run(before), op, key) then 1 else 0
  }

  /** A live key's version counts its successful CAS operations. */
  lemma {:induction false} VersionCountsCas(ops: seq<Op>, key: Bytes)
    ensures key in Run(ops) ==> Run(ops)[key].version == Wrap64(1 + CasCount(ops, key))
  {
    if ops != [] {
      VersionCountsCas(ops[..|ops| - 1], key);
    }
  }

  // ------------------------------------------------------------- the last write

  /** Operation `i` of the run stores a value for `key`. */
  predicate WritesAt(ops: seq<Op>, i: int, key: Bytes) {
    && 0 <= i < |ops| && ops[i].key == key
    && match ops[i]
       case Insert(_, value, granted) => InsertResult(Run(ops[..i]), key, value, granted).Ok?
       case Cas(_, expected, value, granted) => CasResult(Run(ops[..i]), key, expected, value, granted).Ok?
       case Remove(_) => false
  }

  /** No operation from `i` up to `n` stores a value for `key` or removes it. */
  ghost predicate Untouched(ops: seq<Op>, i: int, n: int, key: Bytes) {
    forall j :: i <= j < n && 0 <= j < |ops| && ops[j].key == key ==> !ops[j].Remove? && !WritesAt(ops, j, key)
  }

  /** The value an operation stores: that of `cas` is cut off at 32 bits of length. */
  function StoredBy(op: Op): Bytes
    requires !op.Remove?
  {
    if op.Cas? then op.value[..|op.value| % 0x1_0000_0000] else op.value
  }

  /** The last operation on `key` that counts was operation `i`, which stored a value. */
  ghost predicate LastWrite(ops: seq<Op>, i: int, key: Bytes) {
    WritesAt(ops, i, key) && Untouched(ops, i + 1, |ops|, key)
  }

  lemma WritesInPrefix(ops: seq<Op>, n: nat, i: int, key: Bytes)
    requires n <= |ops| && i < n
    ensures WritesAt(ops[..n], i, key) <==> WritesAt(ops, i, key)
  {
    if 0 <= i { assert ops[..n][..i] == ops[..i]; }
  }

  lemma LastWriteNext(ops: seq<Op>, n: nat, i: int, key: Bytes)
    requires n + 1 == |ops| && i < n
    ensures LastWrite(ops, i, key) <==> LastWrite(ops[..n], i, key) && Untouched(ops, n, n + 1, key)
  {
    WritesInPrefix(ops, n, i, key);
    forall j | i < j < n && 0 <= j && ops[j].key == key
      ensures WritesAt(ops[..n], j, key) <==> WritesAt(ops, j, key)
    {
      WritesInPrefix(ops, n, j, key);
    }
  }

  /** In every run a key is there exactly if a write of it was answered with
      success and it was not removed since, and its value is that of the last
      such write. */
  lemma {:induction false} RunHoldsLastWrite(ops: seq<Op>, key: Bytes)
    ensures key in Run(ops) <==> exists i :: LastWrite(ops, i, key)
    ensures forall i :: LastWrite(ops, i, key) ==> key in Run(ops) && Run(ops)[key].value == StoredBy(ops[i])
  {
    if ops != [] {
      var n := |ops| - 1;
      var op := ops[n];
      RunHoldsLastWrite(ops[..n], key);
      forall i | i < n ensures LastWrite(ops, i, key) <==> LastWrite(ops[..n], i, key) && Untouched(ops, n, n + 1, key) {
        LastWriteNext(ops, n, i, key);
      }
      if WritesAt(ops, n, key) { assert LastWrite(ops, n, key); }
      RunStepAt(ops, key);
    }
  }

  /** What the last operation does to a key. */
  lemma RunStepAt(ops: seq<Op>, key: Bytes)
    requires ops != []
    ensures var n := |ops| - 1;
            var before, after := Run(ops[..n]), Run(ops);
            if ops[n].key == key && ops[n].Remove? then key !in after
            else if WritesAt(ops, n, key) then key in after && after[key].value == StoredBy(ops[n])
            else (key in after <==> key in before) && (key in after ==> after[key] == before[key])
  {
    var n := |ops| - 1;
    var m := Run(ops[..n]);
    match ops[n]
    case Insert(k, value, granted) => InsertStores(m, k, value, granted);
    case Cas(k, expected, value, granted) => CasStores(m, k, expected, value, granted);
    case Remove(_) =>
  }

  /** Step `i` of the run inserts `key` afresh. */
  predicate FreshAt(ops: seq<Op>, i: int, key: Bytes) {
    0 <= i < |ops| && IsFresh(Run(ops[..i]), ops[i], key)
  }

  predicate WinsAt(ops: seq<Op>, i: int, key: Bytes) {
    0 <= i < |ops| && CasWins(Run(ops[..i]), ops[i], key)
  }

  lemma {:induction false} CasCountGrows(ops: seq<Op>, i: nat, j: nat, key: Bytes)
    requires i < j <= |ops| && WinsAt(ops, i, key)
    requires forall n :: i <= n < j ==> !FreshAt(ops, n, key)
    ensures CasCount(ops[..i], key) < CasCount(ops[..j], key)
    decreases j
  {
    assert ops[..j][..j - 1] == ops[..j - 1];
    assert !FreshAt(ops, j - 1, key);
    if i < j - 1 { CasCountGrows(ops, i, j - 1, key); }
  }

  /** Between two fresh insertions of a key, at most one CAS succeeds for each
      expected version, as long as the 64-bit version has not wrapped. */
  lemma CasWinsOnce(ops: seq<Op>, i: nat, j: nat, key: Bytes)
    requires i < j < |ops| && WinsAt(ops, i, key) && WinsAt(ops, j, key)
    requires forall n :: i <= n < j ==> !FreshAt(ops, n, key)
    requires 1 + CasCount(ops[..j], key) < 0x1_0000_0000_0000_0000
    ensures ops[i].expected < ops[j].expected
  {
    VersionCountsCas(ops[..i], key);
    VersionCountsCas(ops[..j], key);
    CasCountGrows(ops, i, j, key);
  }
}
