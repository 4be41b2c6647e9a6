/**
 The sharded store: keys are routed by hash to one of several hash tables,
 all of which keep their blocks in one arena.
 */
module KvStore {
  import opened Wrappers
  import opened Memory
  import opened KvSpec
  import opened Probing
  import opened HashTable

  // ------------------------------------------------ several tables, one arena

  ghost function Flatten(ts: seq<seq<Entry>>): seq<Entry> {
    if ts == [] then [] else ts[0] + Flatten(ts[1..])
  }

  /** The entries of all tables but table `s`. */
  ghost function Others(ts: seq<seq<Entry>>, s: nat): seq<Entry>
    requires s < |ts|
  {
    Flatten(ts[s := []])
  }

  lemma {:induction false} FlattenFind(ts: seq<seq<Entry>>, t: nat, i: nat) returns (j: nat)
    requires t < |ts| && i < |ts[t]|
    ensures j < |Flatten(ts)| && Flatten(ts)[j] == ts[t][i]
  {
    if t == 0 {
      j := i;
    } else {
      j := FlattenFind(ts[1..], t - 1, i);
      j := j + |ts[0]|;
    }
  }

  lemma {:induction false} FlattenSource(ts: seq<seq<Entry>>, j: nat) returns (t: nat, i: nat)
    requires j < |Flatten(ts)|
    ensures t < |ts| && i < |ts[t]| && Flatten(ts)[j] == ts[t][i]
  {
    if j < |ts[0]| {
      t, i := 0, j;
    } else {
      t, i := FlattenSource(ts[1..], j - |ts[0]|);
      t := t + 1;
    }
  }

  ghost predicate AllApart(ts: seq<seq<Entry>>) {
    forall t, u {:trigger Apart(ts[t], ts[u])} :: 0 <= t < |ts| && 0 <= u < |ts| && t != u ==> Apart(ts[t], ts[u])
  }

  lemma ApartFromOthers(ts: seq<seq<Entry>>, s: nat)
    requires s < |ts| && AllApart(ts)
    ensures Apart(ts[s], Others(ts, s))
  {
    var others := Others(ts, s);
    forall i, j | LiveAt(ts[s], i) && LiveAt(others, j)
      ensures Disjoint(BlockOf(ts[s][i]), BlockOf(others[j]))
    {
      var t, n := FlattenSource(ts[s := []], j);
      assert LiveAt(ts[t], n) && Apart(ts[s], ts[t]);
    }
  }

  lemma OthersInclude(ts: seq<seq<Entry>>, s: nat, t: nat, i: nat) returns (j: nat)
    requires s < |ts| && t < |ts| && t != s && LiveAt(ts[t], i)
    ensures LiveAt(Others(ts, s), j) && Others(ts, s)[j] == ts[t][i]
  {
    j := FlattenFind(ts[s := []], t, i);
  }

  lemma ReplaceTable(ts: seq<seq<Entry>>, s: nat, es: seq<Entry>, ts': seq<seq<Entry>>)
    requires s < |ts| == |ts'| && AllApart(ts) && Apart(es, Others(ts, s))
    requires ts'[s] == es && forall t :: 0 <= t < |ts| && t != s ==> ts'[t] == ts[t]
    ensures AllApart(ts')
  {
    forall t, i, j | 0 <= t < |ts| && t != s && LiveAt(es, i) && LiveAt(ts[t], j)
      ensures Disjoint(BlockOf(es[i]), BlockOf(ts[t][j]))
    {
      var n := OthersInclude(ts, s, t, j);
    }
    forall t, u | 0 <= t < |ts| && 0 <= u < |ts| && t != u
      ensures Apart(ts'[t], ts'[u])
    {
      assert t != s && u != s ==> Apart(ts[t], ts[u]);
    }
  }

  lemma OthersSame(ts: seq<seq<Entry>>, s: nat, t: nat, mem: Bytes, mem': Bytes)
    requires s < |ts| && t < |ts| && t != s
    requires SameElsewhere(Others(ts, s), -1, mem, mem')
    ensures SameElsewhere(ts[t], -1, mem, mem')
  {
    forall i | LiveAt(ts[t], i) && Fits(BlockOf(ts[t][i]), mem)
      ensures Read(mem', BlockOf(ts[t][i])) == Read(mem, BlockOf(ts[t][i]))
    {
      var j := OthersInclude(ts, s, t, i);
    }
  }

  // ----------------------------------------------------------------- counting

  ghost function Sum(ns: seq<nat>): nat {
    if ns == [] then 0 else Sum(ns[..|ns| - 1]) + ns[|ns| - 1]
  }

  lemma {:induction false} SumUpdate(ns: seq<nat>, i: nat, n: nat)
    requires i < |ns|
    ensures Sum(ns[i := n]) == Sum(ns) - ns[i] + n
  {
    var l := |ns| - 1;
    if i < l {
      SumUpdate(ns[..l], i, n);
      assert ns[i := n][..l] == ns[..l][i := n];
    } else {
      assert ns[i := n][..l] == ns[..l];
    }
  }

  /** Sets that split `keys` by route have sizes that add up to `|keys|`. */
  lemma {:induction false} PartitionCount(keys: set<Bytes>, route: Bytes -> nat, parts: seq<set<Bytes>>, sizes: seq<nat>)
    requires |sizes| == |parts|
    requires forall i :: 0 <= i < |parts| ==> sizes[i] == |parts[i]|
    requires forall i, k :: 0 <= i < |parts| ==> (k in parts[i] <==> k in keys && route(k) == i)
    requires forall k :: k in keys ==> route(k) < |parts|
    ensures Sum(sizes) == |keys|
  {
    if parts == [] {
      assert keys == {};
    } else {
      var n := |parts| - 1;
      var rest := set k | k in keys && route(k) < n;
      PartitionCount(rest, route, parts[..n], sizes[..n]);
      assert keys == rest + parts[n];
    }
  }

  // -------------------------------------------------------------------- shard

  /** What `set` tells its caller. */
  function Answer(r: KvResult<bool>): KvResult<()> {
    match r
    case Ok(_) => Ok(())
    case Err(e) => Err(e)
  }

  class Shard {
    const table: Table
    var entryCount: nat

    constructor (table: Table)
      requires table.Valid() && table.contents == map[] && table.size == 0
      ensures this.table == table && Valid() && entryCount == 0
    {
      this.table := table;
      entryCount := 0;
    }

    ghost predicate Valid()
      reads this, table, table.arena, table.entries
    {
      table.Valid() && entryCount == table.size
    }

    ghost function View(): View
      reads table, table.entries
    {
      ShardView(table.entries[..], table.slot, table.contents, table.size, table.inserted)
    }

    method Insert(key: Bytes, value: Bytes, g: Grant, ghost foreign: seq<Entry>) returns (r: KvResult<bool>)
      requires Valid() && table.Probes(key) && Apart(table.entries[..], foreign)
      requires table.GrantedFor(key, value, foreign, g)
      modifies table, table.arena, table.entries
      ensures r == InsertResult(old(table.contents), key, value, g.offset != 0)
      ensures table.size == old(table.size) + if r == Ok(true) then 1 else 0
      ensures if r == Err(OutOfMemory) && key in old(table.contents)
              then View() == old(View()) && table.arena.bytes == g.bytes
              else ShardStep(table.raw, old(View()), old(table.arena.bytes),
                             Op.Insert(key, value, g.offset != 0), foreign, View(), table.arena.bytes)
    {
      ghost var v, mem := View(), table.arena.bytes;
      r := table.Insert(key, value, g, foreign);
      if !(r == Err(OutOfMemory) && key in v.m) {
        StepShown(table.raw, v, mem, Op.Insert(key, value, g.offset != 0), foreign, View(), table.arena.bytes);
      }
    }

    method Set(key: Bytes, value: Bytes, g: Grant, ghost foreign: seq<Entry>) returns (r: KvResult<()>)
      requires Valid() && table.Probes(key) && Apart(table.entries[..], foreign)
      requires table.GrantedFor(key, value, foreign, g)
      modifies this, table, table.arena, table.entries
      ensures r == Answer(InsertResult(old(table.contents), key, value, g.offset != 0))
      ensures entryCount == old(entryCount) + if r.Ok? && key !in old(table.contents) then 1 else 0
      ensures if r == Err(OutOfMemory) && key in old(table.contents)
              then View() == old(View()) && table.arena.bytes == g.bytes
              else Valid() && ShardStep(table.raw, old(View()), old(table.arena.bytes),
                                        Op.Insert(key, value, g.offset != 0), foreign, View(), table.arena.bytes)
    {
      var inserted := Insert(key, value, g, foreign);
      if inserted == Ok(true) {
        entryCount := entryCount + 1;
      }
      r := Answer(inserted);
    }

    method Get(key: Bytes) returns (r: Option<Bytes>)
      requires Valid() && table.Probes(key)
      ensures r == if key in table.contents then Some(table.contents[key].value) else None
    {
      r := table.Get(key);
    }

    method Delete(key: Bytes, after: Bytes, ghost foreign: seq<Entry>) returns (r: bool)
      requires Valid() && table.Probes(key) && Apart(table.entries[..], foreign)
      requires SameElsewhere(table.entries[..], table.Freed(key), table.arena.bytes, after)
      requires SameElsewhere(foreign, -1, table.arena.bytes, after)
      modifies this, table, table.arena, table.entries
      ensures Valid() && ShardStep(table.raw, old(View()), old(table.arena.bytes),
                                   Remove(key), foreign, View(), table.arena.bytes)
      ensures r <==> key in old(table.contents)
      ensures entryCount == old(entryCount) - if r then 1 else 0
    {
      var removed := table.Remove(key, after, foreign);
      if removed.Some? {
        entryCount := entryCount - 1;
      }
      r := removed.Some?;
    }

    method Cas(key: Bytes, expected: nat, value: Bytes, g: Grant, ghost foreign: seq<Entry>) returns (r: KvResult<nat>)
      requires Valid() && table.Probes(key) && Apart(table.entries[..], foreign)
      requires table.GrantedFor(key, value, foreign, g)
      modifies this, table, table.arena, table.entries
      ensures r == CasResult(old(table.contents), key, expected, value, g.offset != 0)
      ensures entryCount == old(entryCount)
      ensures if r == Err(OutOfMemory)
              then View() == old(View()) && table.arena.bytes == g.bytes
              else Valid() && ShardStep(table.raw, old(View()), old(table.arena.bytes),
                                        Op.Cas(key, expected, value, g.offset != 0), foreign, View(), table.arena.bytes)
    {
      ghost var v, mem := View(), table.arena.bytes;
      r := table.Cas(key, expected, value, g, foreign);
      if r != Err(OutOfMemory) {
        StepShown(table.raw, v, mem, Op.Cas(key, expected, value, g.offset != 0), foreign, View(), table.arena.bytes);
      }
    }
  }

  // ------------------------------------------------------ the store as a value

  /** What one shard's table holds. */
  datatype View = ShardView(es: seq<Entry>, slot: Slots, m: Store, size: nat, inserted: nat)

  ghost predicate ViewOk(raw: RawHash, v: View, mem: Bytes) {
    TableOk(raw, v.es, mem, v.slot, v.m, v.size, v.inserted)
  }

  /** The shard a key belongs to: its hash by the number of shards. */
  function Route(raw: RawHash, count: nat, key: Bytes): (i: nat)
    requires count > 0
    ensures i < count
  {
    raw(key) % count
  }

  /** Raw hashes that differ by the number of shards share a shard, and those
      below it have each their own. */
  lemma RouteIsRemainder(raw: RawHash, raw': RawHash, count: nat, key: Bytes)
    requires count > 0
    ensures raw'(key) == count + raw(key) ==> Route(raw', count, key) == Route(raw, count, key)
    ensures raw(key) < count ==> Route(raw, count, key) == raw(key)
  {
    AddDivisor(raw(key), count);
  }

  /** Shard `i` of `count` holds exactly the keys of `m` that are routed to it. */
  ghost predicate Holds(raw: RawHash, count: nat, i: nat, v: View, m: Store)
    requires count > 0
  {
    forall k :: if k in m && Route(raw, count, k) == i then k in v.m && v.m[k] == m[k] else k !in v.m
  }

  ghost function EntriesOf(vs: seq<View>): (ts: seq<seq<Entry>>)
    ensures |ts| == |vs| && forall i :: 0 <= i < |vs| ==> ts[i] == vs[i].es
  {
    seq(|vs|, i requires 0 <= i < |vs| => vs[i].es)
  }

  ghost function SizesOf(vs: seq<View>): (ns: seq<nat>)
    ensures |ns| == |vs| && forall i :: 0 <= i < |vs| ==> ns[i] == vs[i].size
  {
    seq(|vs|, i requires 0 <= i < |vs| => vs[i].size)
  }

  /** The shards represent `m`: each its own part, in blocks of its own. */
  ghost predicate ShardsOk(raw: RawHash, vs: seq<View>, mem: Bytes, m: Store) {
    && |vs| > 0
    && (forall i {:trigger ViewOk(raw, vs[i], mem)} :: 0 <= i < |vs| ==>
          ViewOk(raw, vs[i], mem) && Holds(raw, |vs|, i, vs[i], m))
    && AllApart(EntriesOf(vs))
  }

  lemma HoldsElsewhere(raw: RawHash, count: nat, i: nat, v: View, m: Store, m': Store, key: Bytes)
    requires count > 0 && Holds(raw, count, i, v, m) && SameExcept(m, m', key) && Route(raw, count, key) != i
    ensures Holds(raw, count, i, v, m')
  {
  }

  lemma HoldsHere(raw: RawHash, count: nat, v: View, m: Store, v': View, m': Store, key: Bytes)
    requires count > 0 && Holds(raw, count, Route(raw, count, key), v, m)
    requires SameExcept(m, m', key) && SameExcept(v.m, v'.m, key)
    requires (key in v'.m <==> key in m') && (key in m' ==> v'.m[key] == m'[key])
    ensures Holds(raw, count, Route(raw, count, key), v', m')
  {
  }

  lemma ViewFrame(raw: RawHash, v: View, mem: Bytes, mem': Bytes)
    requires ViewOk(raw, v, mem) && SameElsewhere(v.es, -1, mem, mem')
    ensures ViewOk(raw, v, mem')
  {
    RepFrame(raw, v.es, mem, mem', v.slot);
  }

  /** One shard takes a step that changes `m` at one of its own keys. */
  lemma StoreStep(raw: RawHash, vs: seq<View>, mem: Bytes, m: Store, key: Bytes, s: nat, v: View, mem': Bytes, m': Store)
    requires ShardsOk(raw, vs, mem, m) && s == Route(raw, |vs|, key)
    requires ViewOk(raw, v, mem') && Apart(v.es, Others(EntriesOf(vs), s))
    requires SameElsewhere(Others(EntriesOf(vs), s), -1, mem, mem')
    requires SameExcept(m, m', key) && SameExcept(vs[s].m, v.m, key)
    requires (key in v.m <==> key in m') && (key in m' ==> v.m[key] == m'[key])
    ensures ShardsOk(raw, vs[s := v], mem', m')
  {
    var vs' := vs[s := v];
    forall i | 0 <= i < |vs'|
      ensures ViewOk(raw, vs'[i], mem') && Holds(raw, |vs'|, i, vs'[i], m')
    {
      assert ViewOk(raw, vs[i], mem) && Holds(raw, |vs|, i, vs[i], m);
      if i == s {
        HoldsHere(raw, |vs|, vs[s], m, v, m', key);
      } else {
        OthersSame(EntriesOf(vs), s, i, mem, mem');
        ViewFrame(raw, vs[i], mem, mem');
        HoldsElsewhere(raw, |vs|, i, vs[i], m, m', key);
      }
    }
    ReplaceTable(EntriesOf(vs), s, v.es, EntriesOf(vs'));
  }

  /** An operation on a key depends on, and changes, that key only. */
  lemma ApplyLocal(m: Store, part: Store, op: Op)
    requires op.key in part <==> op.key in m
    requires op.key in m ==> part[op.key] == m[op.key]
    ensures SameExcept(m, Apply(m, op), op.key) && SameExcept(part, Apply(part, op), op.key)
    ensures op.key in Apply(part, op) <==> op.key in Apply(m, op)
    ensures op.key in Apply(m, op) ==> Apply(part, op)[op.key] == Apply(m, op)[op.key]
  {
  }

  /** So do the answers. */
  lemma AnswersLocal(m: Store, part: Store, key: Bytes, expected: nat, value: Bytes, granted: bool)
    requires key in part <==> key in m
    requires key in m ==> part[key] == m[key]
    ensures InsertResult(part, key, value, granted) == InsertResult(m, key, value, granted)
    ensures CasResult(part, key, expected, value, granted) == CasResult(m, key, expected, value, granted)
  {
  }

  /** One shard performs `op` in its own part; the store as a whole has then
      performed `op`. */
  lemma OpStep(raw: RawHash, vs: seq<View>, mem: Bytes, m: Store, op: Op, s: nat, v: View, mem': Bytes)
    requires ShardsOk(raw, vs, mem, m) && s == Route(raw, |vs|, op.key)
    requires ViewOk(raw, v, mem') && Apart(v.es, Others(EntriesOf(vs), s))
    requires SameElsewhere(Others(EntriesOf(vs), s), -1, mem, mem')
    requires v.m == Apply(vs[s].m, op)
    ensures ShardsOk(raw, vs[s := v], mem', Apply(m, op))
    ensures op.key in vs[s].m <==> op.key in m
    ensures op.key in m ==> vs[s].m[op.key] == m[op.key]
    ensures Sum(SizesOf(vs[s := v])) == Sum(SizesOf(vs)) - vs[s].size + v.size
  {
    assert ViewOk(raw, vs[s], mem) && Holds(raw, |vs|, s, vs[s], m);
    ApplyLocal(m, vs[s].m, op);
    StoreStep(raw, vs, mem, m, op.key, s, v, mem', Apply(m, op));
    SizesStep(vs, s, v);
  }

  lemma SizesStep(vs: seq<View>, s: nat, v: View)
    requires s < |vs|
    ensures Sum(SizesOf(vs[s := v])) == Sum(SizesOf(vs)) - vs[s].size + v.size
  {
    assert SizesOf(vs[s := v]) == SizesOf(vs)[s := v.size];
    SumUpdate(SizesOf(vs), s, v.size);
  }

  /** If only one shard's records may have suffered, the store stands exactly
      if that shard's table does. */
  lemma StoreStandsIff(raw: RawHash, vs: seq<View>, mem: Bytes, m: Store, s: nat, mem': Bytes)
    requires ShardsOk(raw, vs, mem, m) && s < |vs| && ViewOk(raw, vs[s], mem)
    requires SameElsewhere(Others(EntriesOf(vs), s), -1, mem, mem')
    ensures ShardsOk(raw, vs, mem', m) <==> Survives(raw, vs[s].es, mem, vs[s].slot, mem')
  {
    if Survives(raw, vs[s].es, mem, vs[s].slot, mem') {
      forall i | 0 <= i < |vs| ensures ViewOk(raw, vs[i], mem') && Holds(raw, |vs|, i, vs[i], m) {
        assert ViewOk(raw, vs[i], mem) && Holds(raw, |vs|, i, vs[i], m);
        if i != s {
          OthersSame(EntriesOf(vs), s, i, mem, mem');
          ViewFrame(raw, vs[i], mem, mem');
        }
      }
    }
    if ShardsOk(raw, vs, mem', m) { assert ViewOk(raw, vs[s], mem'); }
  }

  // ------------------------------------------------------------------ runs

  /** The store: what each shard holds, the arena, and the key counter. */
  datatype State = State(shards: seq<View>, mem: Bytes, totalKeys: int)

  /** All shards empty, as `init` leaves them. */
  ghost predicate Init(raw: RawHash, s: State) {
    && |s.shards| > 0 && s.totalKeys == 0
    && forall i :: 0 <= i < |s.shards| ==>
         && ViewOk(raw, s.shards[i], s.mem) && s.shards[i].m == map[] && s.shards[i].size == 0
         && forall j {:trigger LiveAt(s.shards[i].es, j)} :: !LiveAt(s.shards[i].es, j)
  }

  /** What the methods of `Shard` promise, for one operation. */
  ghost predicate ShardStep(raw: RawHash, v: View, mem: Bytes, op: Op, foreign: seq<Entry>, v': View, mem': Bytes) {
    && ViewOk(raw, v', mem') && Apart(v'.es, foreign) && SameElsewhere(foreign, -1, mem, mem')
    && v'.m == Apply(v.m, op)
  }

  lemma StepShown(raw: RawHash, v: View, mem: Bytes, op: Op, foreign: seq<Entry>, v': View, mem': Bytes)
    requires TableOk(raw, v'.es, mem', v'.slot, v'.m, v'.size, v'.inserted) && v'.m == Apply(v.m, op)
    requires Apart(v'.es, foreign) && SameElsewhere(foreign, -1, mem, mem')
    ensures ShardStep(raw, v, mem, op, foreign, v', mem')
  {
  }

  /** `set` counts every success, also of a key that was there; `delete` only
      the removals; `cas` nothing. */
  function Counted(m: Store, op: Op): int {
    match op
    case Insert(key, value, granted) => if InsertResult(m, key, value, granted).Ok? then 1 else 0
    case Remove(key) => if key in m then -1 else 0
    case Cas(_, _, _, _) => 0
  }

  /** One operation of the store: the key's shard takes a step, the other
      shards stay as they are, and the key counter follows the result. */
  ghost predicate Next(raw: RawHash, s: State, op: Op, s': State) {
    && |s.shards| > 0
    && var i := Route(raw, |s.shards|, op.key);
    && |s'.shards| == |s.shards| && s'.shards == s.shards[i := s'.shards[i]]
    && ShardStep(raw, s.shards[i], s.mem, op, Others(EntriesOf(s.shards), i), s'.shards[i], s'.mem)
    && s'.totalKeys == s.totalKeys + Counted(s.shards[i].m, op)
  }

  ghost predicate IsRun(raw: RawHash, ops: seq<Op>, states: seq<State>) {
    && |states| == |ops| + 1
    && Init(raw, states[0])
    && forall n :: 0 <= n < |ops| ==> Next(raw, states[n], ops[n], states[n + 1])
  }

  /** Successful sets of keys that were already present. */
  function Overwrites(ops: seq<Op>): nat {
    if ops == [] then 0
    else
      var before, op := ops[..|ops| - 1], ops[|ops| - 1];
      Overwrites(before) +
      if op.Insert? && InsertResult(Run(before), op.key, op.value, op.granted) == Ok(false) then 1 else 0
  }

  lemma InitOk(raw: RawHash, s: State)
    requires Init(raw, s)
    ensures ShardsOk(raw, s.shards, s.mem, map[])
  {
  }

  /** In every run the shards partition one map, which is the map of the run. */
  lemma {:induction false} RunIsOneMap(raw: RawHash, ops: seq<Op>, states: seq<State>)
    requires IsRun(raw, ops, states)
    ensures ShardsOk(raw, states[|ops|].shards, states[|ops|].mem, Run(ops))
  {
    var n := |ops| - 1;
    if ops == [] {
      InitOk(raw, states[0]);
    } else {
      assert Next(raw, states[n], ops[n], states[n + 1]);
      RunIsOneMap(raw, ops[..n], states[..n + 1]);
      var s, s' := states[n], states[n + 1];
      var i := Route(raw, |s.shards|, ops[n].key);
      OpStep(raw, s.shards, s.mem, Run(ops[..n]), ops[n], i, s'.shards[i], s'.mem);
    }
  }

  /** The shards' sizes add up to the number of keys of the store. */
  lemma SizesAddUp(raw: RawHash, vs: seq<View>, mem: Bytes, m: Store)
    requires ShardsOk(raw, vs, mem, m)
    ensures Sum(SizesOf(vs)) == |m|
  {
    var parts := seq(|vs|, i requires 0 <= i < |vs| => vs[i].m.Keys);
    forall i | 0 <= i < |vs|
      ensures SizesOf(vs)[i] == |parts[i]|
      ensures forall k :: k in parts[i] <==> k in m.Keys && Route(raw, |vs|, k) == i
    {
      assert ViewOk(raw, vs[i], mem) && Holds(raw, |vs|, i, vs[i], m);
      LiveCountIsCardinality(raw, vs[i].es, mem, vs[i].slot);
    }
    PartitionCount(m.Keys, k => Route(raw, |vs|, k), parts, SizesOf(vs));
  }

  lemma CardAfter(m: Store, op: Op)
    ensures |Apply(m, op)| ==
            |m| + Counted(m, op) - if op.Insert? && InsertResult(m, op.key, op.value, op.granted) == Ok(false) then 1 else 0
  {
  }

  /** In every run the shards' sizes add up to the number of keys, and the
      key counter exceeds that number by exactly the overwriting sets. */
  lemma {:induction false} RunCounts(raw: RawHash, ops: seq<Op>, states: seq<State>)
    requires IsRun(raw, ops, states)
    ensures Sum(SizesOf(states[|ops|].shards)) == |Run(ops)|
    ensures states[|ops|].totalKeys == |Run(ops)| + Overwrites(ops)
  {
    RunIsOneMap(raw, ops, states);
    SizesAddUp(raw, states[|ops|].shards, states[|ops|].mem, Run(ops));
    if ops != [] {
      var n := |ops| - 1;
      RunCounts(raw, ops[..n], states[..n + 1]);
      RunIsOneMap(raw, ops[..n], states[..n + 1]);
      CardAfter(Run(ops[..n]), ops[n]);
      assert Next(raw, states[n], ops[n], states[n + 1]);
      SameCount(raw, states[n].shards, states[n].mem, Run(ops[..n]), ops[n]);
    }
  }

  /** A shard judges an operation as the whole store would. */
  lemma SameCount(raw: RawHash, vs: seq<View>, mem: Bytes, m: Store, op: Op)
    requires ShardsOk(raw, vs, mem, m)
    ensures Counted(vs[Route(raw, |vs|, op.key)].m, op) == Counted(m, op)
  {
    var i := Route(raw, |vs|, op.key);
    assert ViewOk(raw, vs[i], mem) && Holds(raw, |vs|, i, vs[i], m);
  }

  // -------------------------------------------------------- the store in place

  /** Shards that share the arena and nothing else. */
  ghost predicate Separate(shards: seq<Shard>, arena: SharedMemory, raw: RawHash) {
    && |shards| > 0
    && (forall i :: 0 <= i < |shards| ==> shards[i].table.arena == arena && shards[i].table.raw == raw)
    && (forall i, j :: 0 <= i < |shards| && 0 <= j < |shards| && i != j ==>
          shards[i] != shards[j] && shards[i].table != shards[j].table && shards[i].table.entries != shards[j].table.entries)
  }

  class Sharded {
    const shards: seq<Shard>
    const arena: SharedMemory
    const raw: RawHash
    var totalKeys: int
    /** What each shard holds, and the one map they hold together. */
    ghost var views: seq<View>
    ghost var contents: Store

    /** Starts with new shards: nothing stored, nothing live. */
    constructor (shards: seq<Shard>, arena: SharedMemory, raw: RawHash, ghost views: seq<View>)
      requires Separate(shards, arena, raw) && |views| == |shards| && Init(raw, State(views, arena.bytes, 0))
      requires forall i :: 0 <= i < |shards| ==> views[i] == shards[i].View() && shards[i].entryCount == 0
      ensures Valid() && contents == map[] && totalKeys == 0
      ensures this.shards == shards && this.arena == arena && this.raw == raw
    {
      this.shards, this.arena, this.raw, totalKeys := shards, arena, raw, 0;
      this.views, contents := views, map[];
      InitOk(raw, State(views, arena.bytes, 0));
    }

    ghost predicate Shows()
      reads *
    {
      |views| == |shards| && forall i :: 0 <= i < |shards| ==>
        views[i] == shards[i].View() && shards[i].entryCount == views[i].size
    }

    ghost predicate Valid()
      reads *
    {
      Separate(shards, arena, raw) && Shows() && ShardsOk(raw, views, arena.bytes, contents)
    }

    function Home(key: Bytes): (i: nat)
      requires |shards| > 0
      ensures i < |shards|
    {
      Route(raw, |shards|, key)
    }

    method Get(key: Bytes) returns (r: Option<Bytes>)
      requires Valid() && shards[Home(key)].table.Probes(key)
      ensures r == if key in contents then Some(contents[key].value) else None
    {
      AtHome(key);
      r := shards[Home(key)].Get(key);
    }

    /** The entries of all shards but the key's own. */
    ghost function Foreign(key: Bytes): seq<Entry>
      requires |views| == |shards| > 0
      reads this
    {
      Others(EntriesOf(views), Home(key))
    }

    /** Every shard but `i` is as recorded. */
    ghost predicate ShowsBut(i: nat)
      reads *
    {
      |views| == |shards| && forall j :: 0 <= j < |shards| && j != i ==>
        views[j] == shards[j].View() && shards[j].entryCount == views[j].size
    }

    /** Bookkeeping of the proof: the key's shard has performed the operation, so the store has. */
    ghost method Commit(op: Op, i: nat, mem: Bytes)
      requires Separate(shards, arena, raw) && i == Home(op.key) && ShowsBut(i)
      requires ShardsOk(raw, views, mem, contents) && shards[i].entryCount == shards[i].table.size
      requires ShardStep(raw, views[i], mem, op, Foreign(op.key), shards[i].View(), arena.bytes)
      modifies this`views, this`contents
      ensures Valid() && contents == Apply(old(contents), op)
    {
      var v, mem' := shards[i].View(), arena.bytes;
      OpStep(raw, views, mem, contents, op, i, v, mem');
      views, contents := views[i := v], Apply(contents, op);
    }

    /** The key's shard is in order, apart from the others, and holds what the store holds at the key. */
    lemma AtHome(key: Bytes)
      requires Valid()
      ensures var s := shards[Home(key)];
              && s.Valid() && Apart(s.table.entries[..], Foreign(key)) && views[Home(key)] == s.View()
              && (key in s.table.contents <==> key in contents)
              && (key in contents ==> s.table.contents[key] == contents[key])
    {
      var i := Home(key);
      assert ViewOk(raw, views[i], arena.bytes) && Holds(raw, |views|, i, views[i], contents);
      assert views[i] == shards[i].View();
      ApartFromOthers(EntriesOf(views), i);
    }

    /** The key's shard has done its part of a removal. */
    method DeleteAtHome(key: Bytes, after: Bytes) returns (r: bool)
      requires Valid() && shards[Home(key)].table.Probes(key)
      requires SameElsewhere(views[Home(key)].es, shards[Home(key)].table.Freed(key), arena.bytes, after)
      requires SameElsewhere(Foreign(key), -1, arena.bytes, after)
      modifies shards[Home(key)], shards[Home(key)].table, arena, shards[Home(key)].table.entries
      ensures r <==> key in contents
      ensures ShowsBut(Home(key)) && shards[Home(key)].entryCount == shards[Home(key)].table.size
      ensures ShardStep(raw, views[Home(key)], old(arena.bytes), Remove(key), Foreign(key),
                        shards[Home(key)].View(), arena.bytes)
    {
      AtHome(key);
      r := shards[Home(key)].Delete(key, after, Foreign(key));
    }

    method Delete(key: Bytes, after: Bytes) returns (r: bool)
      requires Valid() && shards[Home(key)].table.Probes(key)
      requires SameElsewhere(views[Home(key)].es, shards[Home(key)].table.Freed(key), arena.bytes, after)
      requires SameElsewhere(Foreign(key), -1, arena.bytes, after)
      modifies this, shards[Home(key)], shards[Home(key)].table, arena, shards[Home(key)].table.entries
      ensures Valid() && contents == old(contents) - {key}
      ensures r <==> key in old(contents)
      ensures totalKeys == old(totalKeys) - if r then 1 else 0
    {
      r := DeleteAtHome(key, after);
      Commit(Remove(key), Home(key), old(arena.bytes));
      if r { Count(-1); }
    }

    /** The key's shard has done its part of a set. */
    method SetAtHome(key: Bytes, value: Bytes, g: Grant) returns (r: KvResult<()>)
      requires Valid() && shards[Home(key)].table.Probes(key)
      requires shards[Home(key)].table.GrantedFor(key, value, Foreign(key), g)
      modifies shards[Home(key)], shards[Home(key)].table, arena, shards[Home(key)].table.entries
      ensures r == Answer(InsertResult(contents, key, value, g.offset != 0))
      ensures if r == Err(OutOfMemory) && key in contents
              then Shows() && arena.bytes == g.bytes
              else
                && ShowsBut(Home(key)) && shards[Home(key)].entryCount == shards[Home(key)].table.size
                && ShardStep(raw, views[Home(key)], old(arena.bytes), Insert(key, value, g.offset != 0), Foreign(key),
                             shards[Home(key)].View(), arena.bytes)
    {
      var i := Home(key);
      AtHome(key);
      AnswersLocal(contents, shards[i].table.contents, key, 0, value, g.offset != 0);
      r := shards[i].Set(key, value, g, Foreign(key));
    }

    /** A growing write has lost the block of its record: nothing else changed,
        and the store stands exactly if the table of the key's shard does. */
    ghost predicate Lost(key: Bytes, before: Bytes, g: Grant)
      requires |views| == |shards| > 0
      reads *
    {
      && arena.bytes == g.bytes && Rep(raw, views[Home(key)].es, before, views[Home(key)].slot)
      && (Valid() <==> Survives(raw, views[Home(key)].es, before, views[Home(key)].slot, arena.bytes))
    }

    lemma LostAtHome(key: Bytes, before: Bytes, g: Grant)
      requires Separate(shards, arena, raw) && Shows() && ShardsOk(raw, views, before, contents)
      requires arena.bytes == g.bytes && SameElsewhere(Foreign(key), -1, before, g.bytes)
      ensures Lost(key, before, g)
    {
      assert ViewOk(raw, views[Home(key)], before);
      StoreStandsIff(raw, views, before, contents, Home(key), g.bytes);
    }

    method Count(change: int)
      requires Valid()
      modifies this`totalKeys
      ensures Valid() && totalKeys == old(totalKeys) + change
    {
      totalKeys := totalKeys + change;
    }

    method Set(key: Bytes, value: Bytes, g: Grant) returns (r: KvResult<()>)
      requires Valid() && shards[Home(key)].table.Probes(key)
      requires shards[Home(key)].table.GrantedFor(key, value, Foreign(key), g)
      modifies this, shards[Home(key)], shards[Home(key)].table, arena, shards[Home(key)].table.entries
      ensures r == Answer(InsertResult(old(contents), key, value, g.offset != 0))
      ensures totalKeys == old(totalKeys) + if r.Ok? then 1 else 0
      ensures r.Ok? ==> Stores(old(contents), contents, key, value)
      ensures r == Err(KeyTooLarge) <==> |key| > U32_MAX || |value| > U32_MAX
      ensures if r == Err(OutOfMemory) && key in old(contents)
              then views == old(views) && contents == old(contents) && |views| == |shards| > 0 && Lost(key, old(arena.bytes), g)
              else Valid() && contents == InsertMap(old(contents), key, value, g.offset != 0)
    {
      InsertStores(contents, key, value, g.offset != 0);
      r := SetAtHome(key, value, g);
      if r == Err(OutOfMemory) && key in contents {
        LostAtHome(key, old(arena.bytes), g);
      } else {
        Commit(Insert(key, value, g.offset != 0), Home(key), old(arena.bytes));
      }
      if r.Ok? { Count(1); }
    }

    /** The key's shard has done its part of a compare-and-swap. */
    method CasAtHome(key: Bytes, expected: nat, value: Bytes, g: Grant) returns (r: KvResult<nat>)
      requires Valid() && shards[Home(key)].table.Probes(key)
      requires shards[Home(key)].table.GrantedFor(key, value, Foreign(key), g)
      modifies shards[Home(key)], shards[Home(key)].table, arena, shards[Home(key)].table.entries
      ensures r == CasResult(contents, key, expected, value, g.offset != 0)
      ensures if r == Err(OutOfMemory)
              then Shows() && arena.bytes == g.bytes
              else
                && ShowsBut(Home(key)) && shards[Home(key)].entryCount == shards[Home(key)].table.size
                && ShardStep(raw, views[Home(key)], old(arena.bytes), Op.Cas(key, expected, value, g.offset != 0), Foreign(key),
                             shards[Home(key)].View(), arena.bytes)
    {
      var i := Home(key);
      AtHome(key);
      AnswersLocal(contents, shards[i].table.contents, key, expected, value, g.offset != 0);
      r := shards[i].Cas(key, expected, value, g, Foreign(key));
    }

    method Cas(key: Bytes, expected: nat, value: Bytes, g: Grant) returns (r: KvResult<nat>)
      requires Valid() && shards[Home(key)].table.Probes(key)
      requires shards[Home(key)].table.GrantedFor(key, value, Foreign(key), g)
      modifies this, shards[Home(key)], shards[Home(key)].table, arena, shards[Home(key)].table.entries
      ensures r == CasResult(old(contents), key, expected, value, g.offset != 0) && totalKeys == old(totalKeys)
      ensures r.Ok? ==> Stores(old(contents), contents, key, Truncated(value))
      ensures if r == Err(OutOfMemory)
              then views == old(views) && contents == old(contents) && |views| == |shards| > 0 && Lost(key, old(arena.bytes), g)
              else Valid() && contents == CasMap(old(contents), key, expected, value, g.offset != 0)
    {
      CasStores(contents, key, expected, value, g.offset != 0);
      r := CasAtHome(key, expected, value, g);
      if r == Err(OutOfMemory) {
        LostAtHome(key, old(arena.bytes), g);
      } else {
        Commit(Op.Cas(key, expected, value, g.offset != 0), Home(key), old(arena.bytes));
      }
    }

    /** `stats`: the entry counts of the shards add up to the number of keys. */
    method TotalEntries() returns (total: nat)
      requires Valid()
      ensures total == |contents|
    {
      ghost var sizes := SizesOf(views);
      total := 0;
      for i := 0 to |shards|
        invariant total == Sum(sizes[..i])
      {
        assert sizes[..i + 1][..i] == sizes[..i];
        total := total + shards[i].entryCount;
      }
      assert sizes[..|sizes|] == sizes;
      SizesAddUp(raw, views, arena.bytes, contents);
    }
  }
}
