/** Point-in-time recovery: replaying the write-ahead log over a restored snapshot, up to a target
    time.  Log files are sequences of what their reader yields; applying an operation is any
    function of the store that may fail and then leaves the store alone. */
module WalReplay {
  import opened Wrappers
  import opened Sorting

  /** One answer of the reader: an entry, or an error that ends the replay. */
  datatype Item<Op> = Entry(sequence: nat, timestamp: int, op: Op) | Unreadable

  function Joined<Op>(files: seq<seq<Item<Op>>>): (items: seq<Item<Op>>) {
    if files == [] then [] else Joined(files[..|files| - 1]) + files[|files| - 1]
  }

  lemma {:induction false} JoinedFrom<Op>(files: seq<seq<Item<Op>>>, k: nat)
    requires k <= |files|
    ensures Joined(files[..k]) <= Joined(files)
    ensures k < |files| ==> Joined(files[..k]) + files[k] == Joined(files[..k + 1]) <= Joined(files)
    decreases |files| - k
  {
    if k == |files| {
      assert files[..k] == files;
    } else {
      assert files[..k + 1][..k] == files[..k];
      JoinedFrom(files, k + 1);
    }
  }

  /** The operations of the entries, applied in order; nothing if one of them fails. */
  function Fold<S, Op>(apply: (S, Op) -> Option<S>, s: S, items: seq<Item<Op>>): (r: Option<S>) {
    if items == [] then Some(s)
    else
      var last := items[|items| - 1];
      match Fold(apply, s, items[..|items| - 1])
      case None => None
      case Some(t) => if last.Entry? then apply(t, last.op) else None
  }

  /** An entry that may be applied at all: not past the target, above the backup. */
  predicate InReach<Op>(e: Item<Op>, from: nat, target: int) {
    e.Entry? && e.timestamp <= target && e.sequence > from
  }

  predicate InOrder<Op>(a: Item<Op>, b: Item<Op>) {
    a.Entry? && b.Entry? && a.sequence < b.sequence && a.timestamp <= b.timestamp
  }

  /** The first n items are in reach, strictly increasing in sequence and never back in time. */
  ghost predicate GoodPrefix<Op>(items: seq<Item<Op>>, from: nat, target: int, n: int) {
    && 0 <= n <= |items|
    && (forall i :: 0 <= i < n ==> InReach(items[i], from, target))
    && (forall i, j :: 0 <= i < j < n ==> InOrder(items[i], items[j]))
  }

  predicate PastTarget<Op>(e: Item<Op>, target: int) {
    e.Entry? && e.timestamp > target
  }

  /** The outcome of a replay: the longest good prefix whose operations all succeed has been
      applied, and it is reported as success exactly when the log ends there or goes on with an
      entry past the target. */
  ghost predicate Replayed<S(!new), Op>(apply: (S, Op) -> Option<S>, s: S, items: seq<Item<Op>>,
      from: nat, target: int, n: int, ok: bool, s': S) {
    && GoodPrefix(items, from, target, n) && Fold(apply, s, items[..n]) == Some(s')
    && (n < |items| ==> !(GoodPrefix(items, from, target, n + 1) && Fold(apply, s, items[..n + 1]).Some?))
    && (ok <==> n == |items| || PastTarget(items[n], target))
  }

  /** There is one such outcome. */
  lemma ReplayIsDetermined<S(!new), Op>(apply: (S, Op) -> Option<S>, s: S, items: seq<Item<Op>>,
      from: nat, target: int, n: int, ok: bool, s': S, m: int, ok': bool, s'': S)
    requires Replayed(apply, s, items, from, target, n, ok, s')
    requires Replayed(apply, s, items, from, target, m, ok', s'')
    ensures n == m && ok == ok' && s' == s''
  {
    if n < m {
      assert items[..m][..n + 1] == items[..n + 1];
      FoldPrefix(apply, s, items[..m], n + 1);
    } else if m < n {
      assert items[..n][..m + 1] == items[..m + 1];
      FoldPrefix(apply, s, items[..n], m + 1);
    }
  }

  lemma {:induction false} FoldPrefix<S, Op>(apply: (S, Op) -> Option<S>, s: S, items: seq<Item<Op>>, k: nat)
    requires k <= |items| && Fold(apply, s, items).Some?
    ensures Fold(apply, s, items[..k]).Some?
  {
    if k < |items| {
      FoldPrefix(apply, s, items[..|items| - 1], k);
      assert items[..|items| - 1][..k] == items[..k];
    } else {
      assert items[..k] == items;
    }
  }

  // ---- The loop ----

  /** Where the monotonicity trackers stand after n entries. */
  ghost predicate Tracking<Op>(items: seq<Item<Op>>, from: nat, target: int, n: int,
      lastTimestamp: Option<int>, lastSequence: nat) {
    && GoodPrefix(items, from, target, n)
    && (n == 0 ==> lastTimestamp == None && lastSequence == from)
    && (n > 0 ==> lastTimestamp == Some(items[n - 1].timestamp) && lastSequence == items[n - 1].sequence)
  }

  /** The checks of the loop are exactly what the next entry needs to extend the good prefix. */
  lemma ChecksExtend<Op>(items: seq<Item<Op>>, from: nat, target: int, n: int,
      lastTimestamp: Option<int>, lastSequence: nat)
    requires Tracking(items, from, target, n, lastTimestamp, lastSequence)
    requires n < |items| && items[n].Entry?
    ensures GoodPrefix(items, from, target, n + 1) <==>
              && items[n].timestamp <= target
              && (lastTimestamp.Some? ==> items[n].timestamp >= lastTimestamp.value)
              && items[n].sequence > lastSequence
  {
  }

  /** Between two entries: n entries applied, trackers up to date. */
  ghost predicate Underway<S(!new), Op>(apply: (S, Op) -> Option<S>, s0: S, items: seq<Item<Op>>,
      from: nat, target: int, n: int, lastTimestamp: Option<int>, lastSequence: nat, s: S) {
    && Tracking(items, from, target, n, lastTimestamp, lastSequence)
    && Fold(apply, s0, items[..n]) == Some(s)
  }

  predicate PassesChecks<Op>(e: Item<Op>, target: int, lastTimestamp: Option<int>, lastSequence: nat) {
    && e.Entry? && e.timestamp <= target
    && (lastTimestamp.Some? ==> e.timestamp >= lastTimestamp.value)
    && e.sequence > lastSequence
  }

  lemma NextFold<S, Op>(apply: (S, Op) -> Option<S>, s0: S, items: seq<Item<Op>>, n: nat, s: S)
    requires n < |items| && Fold(apply, s0, items[..n]) == Some(s)
    ensures Fold(apply, s0, items[..n + 1]) == if items[n].Entry? then apply(s, items[n].op) else None
  {
    assert items[..n + 1][..n] == items[..n];
  }

  lemma StepApplies<S(!new), Op>(apply: (S, Op) -> Option<S>, s0: S, items: seq<Item<Op>>,
      from: nat, target: int, n: int, lastTimestamp: Option<int>, lastSequence: nat, s: S, s': S)
    requires Underway(apply, s0, items, from, target, n, lastTimestamp, lastSequence, s)
    requires n < |items| && PassesChecks(items[n], target, lastTimestamp, lastSequence)
    requires apply(s, items[n].op) == Some(s')
    ensures Underway(apply, s0, items, from, target, n + 1, Some(items[n].timestamp), items[n].sequence, s')
  {
    NextFold(apply, s0, items, n, s);
    ChecksExtend(items, from, target, n, lastTimestamp, lastSequence);
  }

  lemma StepStops<S(!new), Op>(apply: (S, Op) -> Option<S>, s0: S, items: seq<Item<Op>>,
      from: nat, target: int, n: int, lastTimestamp: Option<int>, lastSequence: nat, s: S)
    requires Underway(apply, s0, items, from, target, n, lastTimestamp, lastSequence, s)
    requires n < |items| && PassesChecks(items[n], target, lastTimestamp, lastSequence) ==> apply(s, items[n].op) == None
    ensures Replayed(apply, s0, items, from, target, n, n == |items| || PastTarget(items[n], target), s)
  {
    if n < |items| {
      NextFold(apply, s0, items, n, s);
      if items[n].Entry? {
        ChecksExtend(items, from, target, n, lastTimestamp, lastSequence);
      } else {
        assert !InReach(items[n], from, target);
      }
    }
  }

  class Recovery<S(!new), Op> {
    const apply: (S, Op) -> Option<S>
    var store: S

    constructor (apply: (S, Op) -> Option<S>, snapshot: S)
      ensures this.apply == apply && store == snapshot
    {
      this.apply, store := apply, snapshot;
    }

    method ReplayWalToTime(files: seq<seq<Item<Op>>>, from: nat, target: int) returns (ok: bool, applied: nat)
      modifies this`store
      ensures Replayed(apply, old(store), Joined(files), from, target, applied, ok, store)
    {
      ghost var items := Joined(files);
      applied := 0;
      var lastTimestamp: Option<int>, lastSequence := None, from;
      for f := 0 to |files|
        invariant applied == |Joined(files[..f])| <= |items|
        invariant Underway(apply, old(store), items, from, target, applied, lastTimestamp, lastSequence, store)
      {
        JoinedFrom(files, f);
        var file := files[f];
        for i := 0 to |file|
          invariant applied == |Joined(files[..f])| + i <= |items|
          invariant Underway(apply, old(store), items, from, target, applied, lastTimestamp, lastSequence, store)
        {
          var entry := file[i];
          assert entry == Joined(files[..f + 1])[applied] == items[applied];
          if !PassesChecks(entry, target, lastTimestamp, lastSequence) || apply(store, entry.op).None? {
            StepStops(apply, old(store), items, from, target, applied, lastTimestamp, lastSequence, store);
          }
          if entry.Unreadable? { return false, applied; }
          if entry.timestamp > target { return true, applied; }
          if lastTimestamp.Some? && entry.timestamp < lastTimestamp.value { return false, applied; }
          if entry.sequence <= lastSequence { return false, applied; }
          match apply(store, entry.op) {
            case None => return false, applied;
            case Some(s) =>
              StepApplies(apply, old(store), items, from, target, applied, lastTimestamp, lastSequence, store, s);
              lastTimestamp, lastSequence := Some(entry.timestamp), entry.sequence;
              store := s;
          }
          applied := applied + 1;
        }
      }
      assert files[..|files|] == files;
      StepStops(apply, old(store), items, from, target, applied, lastTimestamp, lastSequence, store);
      ok := true;
    }
  }

  // ---- Logs that are in order ----

  /** Readable throughout, strictly increasing in sequence, never back in time. */
  ghost predicate Monotone<Op>(items: seq<Item<Op>>) {
    && (forall i :: 0 <= i < |items| ==> items[i].Entry?)
    && (forall i, j :: 0 <= i < j < |items| ==> InOrder(items[i], items[j]))
  }

  function Reach<Op>(from: nat, target: int): (keep: Item<Op> -> bool) {
    (e: Item<Op>) => InReach(e, from, target)
  }

  /** The entries a recovery to the target should bring back. */
  function Reachable<Op>(items: seq<Item<Op>>, from: nat, target: int): (r: seq<Item<Op>>) {
    Keep(Reach(from, target), items)
  }

  ghost predicate AllReach<Op>(items: seq<Item<Op>>, from: nat, target: int, n: int)
    requires 0 <= n <= |items|
  {
    forall i :: 0 <= i < n ==> InReach(items[i], from, target)
  }

  ghost predicate NoneReach<Op>(items: seq<Item<Op>>, from: nat, target: int, n: int)
    requires 0 <= n <= |items|
  {
    forall i :: n <= i < |items| ==> !InReach(items[i], from, target)
  }

  /** The filter keeps a prefix it accepts, and nothing more exactly if it rejects all the rest. */
  lemma {:induction false} ReachableSplit<Op>(items: seq<Item<Op>>, from: nat, target: int, n: nat)
    requires n <= |items| && AllReach(items, from, target, n)
    ensures |Reachable(items, from, target)| >= n && Reachable(items, from, target)[..n] == items[..n]
    ensures Reachable(items, from, target) == items[..n] <==> NoneReach(items, from, target, n)
  {
    if items != [] {
      var head, rest := items[0], items[1..];
      var m := if n > 0 then n - 1 else 0;
      assert forall i :: m <= i < |rest| ==> rest[i] == items[i + 1];
      assert AllReach(rest, from, target, m);
      ReachableSplit(rest, from, target, m);
      if n > 0 {
        assert items[..n] == [head] + rest[..m];
        assert NoneReach(items, from, target, n) <==> NoneReach(rest, from, target, m);
      } else if !InReach(head, from, target) {
        assert NoneReach(items, from, target, n) <==> NoneReach(rest, from, target, m);
      }
    }
  }

  /** The position of the first entry past the target, or the end of the log. */
  function FirstPast<Op>(items: seq<Item<Op>>, target: int): (n: nat)
    ensures n <= |items| && (n == |items| || PastTarget(items[n], target))
    ensures forall i :: 0 <= i < n ==> !PastTarget(items[i], target)
  {
    if items == [] || PastTarget(items[0], target) then 0 else 1 + FirstPast(items[1..], target)
  }

  /** From the log alone: everything before the first entry past the target is readable, above the
      backup, in order in both senses, and applies. */
  ghost predicate Replayable<S(!new), Op>(apply: (S, Op) -> Option<S>, s: S, items: seq<Item<Op>>, from: nat, target: int) {
    var n := FirstPast(items, target);
    GoodPrefix(items, from, target, n) && Fold(apply, s, items[..n]).Some?
  }

  /** That is when replay succeeds, and it has then applied exactly those entries. */
  lemma ReplaySucceedsIff<S(!new), Op>(apply: (S, Op) -> Option<S>, s: S, items: seq<Item<Op>>,
      from: nat, target: int, n: int, ok: bool, s': S)
    requires Replayed(apply, s, items, from, target, n, ok, s')
    ensures ok <==> Replayable(apply, s, items, from, target)
    ensures ok ==> n == FirstPast(items, target)
  {
    var m := FirstPast(items, target);
    assert forall i :: 0 <= i < n ==> InReach(items[i], from, target);
    assert n <= m;
    if Replayable(apply, s, items, from, target) && n < m {
      assert items[..m][..n + 1] == items[..n + 1];
      FoldPrefix(apply, s, items[..m], n + 1);
    }
  }

  /** Replay succeeds and has applied every entry it should exactly when the log is replayable and
      none of those entries comes after the first one past the target: replay stops there without
      looking further. */
  lemma SuccessIsCompleteIff<S(!new), Op>(apply: (S, Op) -> Option<S>, s: S, items: seq<Item<Op>>,
      from: nat, target: int, n: int, ok: bool, s': S)
    requires Replayed(apply, s, items, from, target, n, ok, s')
    ensures ok && items[..n] == Reachable(items, from, target) <==>
              Replayable(apply, s, items, from, target) && NoneReach(items, from, target, FirstPast(items, target))
  {
    ReplaySucceedsIff(apply, s, items, from, target, n, ok, s');
    assert AllReach(items, from, target, n);
    ReachableSplit(items, from, target, n);
  }

  /** In a monotone log whatever follows an entry past the target is past it too. */
  lemma MonotoneRest<Op>(items: seq<Item<Op>>, from: nat, target: int, n: int)
    requires Monotone(items) && 0 <= n <= |items|
    requires n == |items| || PastTarget(items[n], target)
    ensures forall i :: n <= i < |items| ==> items[i].timestamp > target
    ensures NoneReach(items, from, target, n)
  {
  }

  /** Over a monotone log whose entries up to the target are all above the backup, replay succeeds
      and the store is the fold, over the snapshot, of the entries with timestamp at most the target. */
  lemma MonotoneReplay<S(!new), Op>(apply: (S, Op) -> Option<S>, s: S, items: seq<Item<Op>>,
      from: nat, target: int, n: int, ok: bool, s': S)
    requires Replayed(apply, s, items, from, target, n, ok, s')
    requires Monotone(items)
    requires forall i :: 0 <= i < |items| ==> items[i].timestamp <= target ==> items[i].sequence > from
    requires Fold(apply, s, Reachable(items, from, target)).Some?
    ensures ok && items[..n] == Reachable(items, from, target)
    ensures Fold(apply, s, Reachable(items, from, target)) == Some(s')
  {
    assert AllReach(items, from, target, n);
    ReachableSplit(items, from, target, n);
    if n < |items| && items[n].timestamp <= target {
      assert InReach(items[n], from, target);
      ReachableSplit(items, from, target, n + 1);
      FoldPrefix(apply, s, Reachable(items, from, target), n + 1);
      assert false;
    }
    MonotoneRest(items, from, target, n);
  }

  /** An entry in time but logged behind one past the target is dropped without complaint. */
  lemma LateEntryDropped<S(!new), Op>(apply: (S, Op) -> Option<S>, s: S, op: Op)
    ensures var items := [Entry(1, 20, op), Entry(2, 10, op)];
            Replayed(apply, s, items, 0, 15, 0, true, s) && Reachable(items, 0, 15) == [Entry(2, 10, op)]
  {
    var items := [Entry(1, 20, op), Entry(2, 10, op)];
    assert items[1..] == [items[1]] && items[1..][1..] == [];
    assert Reachable(items[1..][1..], 0, 15) == [];
    assert Reachable(items[1..], 0, 15) == [items[1]];
    assert !InReach(items[0], 0, 15);
    assert items[..0] == [];
  }
}
