/** Which log files recovery reads, in which order, and what that means for the recovered store.
    A directory is listed in any order; file names are distinct. */
module WalFiles {
  import opened Wrappers
  import opened Text
  import opened WalReplay
  import opened Sorting

  datatype WalFile<Op> = WalFile(stem: string, extension: string, items: seq<Item<Op>>)

  // ---- File numbers ----

  function NumberOf<Op>(f: WalFile<Op>): (r: Option<nat>) {
    if f.extension == "wal" && "wal-" <= f.stem then ParseU64(f.stem[4..]) else None
  }

  predicate Above<Op>(f: WalFile<Op>, sequence: int) {
    NumberOf(f).Some? && NumberOf(f).value > sequence
  }

  function AboveNumber<Op>(sequence: int): (keep: WalFile<Op> -> bool) {
    (f: WalFile<Op>) => Above(f, sequence)
  }

  // ---- Sorting by path ----

  function NameOf<Op>(f: WalFile<Op>): string {
    f.stem + "." + f.extension
  }

  function ByName<Op>(): (before: (WalFile<Op>, WalFile<Op>) -> bool) {
    (f: WalFile<Op>, g: WalFile<Op>) => LexLess(CharLess(), NameOf(f), NameOf(g))
  }

  method FindWalFilesAfter<Op>(dir: seq<WalFile<Op>>, sequence: nat) returns (found: seq<WalFile<Op>>)
    ensures found == SortBy(ByName(), Keep(AboveNumber(sequence), dir))
  {
    found := [];
    for i := 0 to |dir|
      invariant found == Keep(AboveNumber(sequence), dir[..i])
    {
      var f := dir[i];
      KeepJoins(AboveNumber(sequence), dir[..i], [f]);
      assert dir[..i + 1] == dir[..i] + [f];
      if f.extension == "wal" && "wal-" <= f.stem {
        match ParseU64(f.stem[4..]) {
          case Some(n) => if n > sequence { found := found + [f]; }
          case None =>
        }
      }
    }
    assert dir[..|dir|] == dir;
    found := SortBy(ByName(), found);
  }

  // ---- Name order against number order ----

  ghost predicate NumbersAscend<Op>(s: seq<WalFile<Op>>) {
    && (forall i :: 0 <= i < |s| ==> NumberOf(s[i]).Some?)
    && (forall i, j :: 0 <= i < j < |s| ==> NumberOf(s[i]).value <= NumberOf(s[j]).value)
  }

  lemma NamesAreOrdered<Op(!new)>()
    ensures WeakOrder(ByName<Op>())
  {
    forall f: WalFile<Op>, g: WalFile<Op> | ByName()(f, g) ensures !ByName()(g, f) {
      LexTotal(CharLess(), NameOf(f), NameOf(g));
    }
    forall f: WalFile<Op>, g: WalFile<Op>, h: WalFile<Op> | !ByName()(g, f) && !ByName()(h, g)
      ensures !ByName()(h, f)
    {
      NotBeforeChains(NameOf(f), NameOf(g), NameOf(h));
    }
  }

  lemma NotBeforeChains(a: string, b: string, c: string)
    requires !LexLess(CharLess(), b, a) && !LexLess(CharLess(), c, b)
    ensures !LexLess(CharLess(), c, a)
  {
    LexTotal(CharLess(), a, b);
    LexTotal(CharLess(), b, c);
    LexTotal(CharLess(), a, c);
    if a != b && b != c { LexTransitive(CharLess(), a, b, c); }
  }

  ghost predicate AllNumbered<Op>(s: seq<WalFile<Op>>) {
    forall i :: 0 <= i < |s| ==> NumberOf(s[i]).Some?
  }

  /** A smaller number has the earlier name. */
  predicate InStep<Op>(f: WalFile<Op>, g: WalFile<Op>)
    requires NumberOf(f).Some? && NumberOf(g).Some?
  {
    NumberOf(f).value < NumberOf(g).value ==> ByName()(f, g)
  }

  ghost predicate NamesInStep<Op>(s: seq<WalFile<Op>>)
    requires AllNumbered(s)
  {
    forall i, j :: 0 <= i < |s| && 0 <= j < |s| ==> InStep(s[i], s[j])
  }

  lemma DifferentNumbersDifferentNames<Op>(f: WalFile<Op>, g: WalFile<Op>)
    requires NumberOf(f).Some? && NumberOf(g).Some? && NameOf(f) == NameOf(g)
    ensures NumberOf(f) == NumberOf(g)
  {
    assert f.stem == NameOf(f)[..|NameOf(f)| - 4] && g.stem == NameOf(g)[..|NameOf(g)| - 4];
  }

  /** Two files in the order of their numbers and in the order of their names are in step. */
  lemma OrderedPairInStep<Op>(f: WalFile<Op>, g: WalFile<Op>)
    requires NumberOf(f).Some? && NumberOf(g).Some?
    requires NumberOf(f).value <= NumberOf(g).value && !ByName()(g, f)
    ensures InStep(f, g) && InStep(g, f)
  {
    LexTotal(CharLess(), NameOf(f), NameOf(g));
    if NameOf(f) == NameOf(g) { DifferentNumbersDifferentNames(f, g); }
  }

  lemma SameFiles<Op(!new)>(s: seq<WalFile<Op>>)
    ensures Ordered(ByName(), SortBy(ByName(), s)) && multiset(SortBy(ByName(), s)) == multiset(s)
  {
    NamesAreOrdered<Op>();
    SortsBy(ByName(), s);
  }

  lemma {:induction false} SortedInStep<Op>(s: seq<WalFile<Op>>, r: seq<WalFile<Op>>)
    requires multiset(s) == multiset(r) && AllNumbered(s) && NamesInStep(s) && Ordered(ByName(), r)
    ensures NumbersAscend(r)
  {
    forall i | 0 <= i < |r| ensures r[i] in s { assert r[i] in multiset(s); }
    forall i, j | 0 <= i < j < |r| ensures NumberOf(r[i]).value <= NumberOf(r[j]).value {
      var a :| 0 <= a < |s| && s[a] == r[i];
      var b :| 0 <= b < |s| && s[b] == r[j];
      assert InStep(s[b], s[a]) && !ByName()(r[j], r[i]);
    }
  }

  lemma {:induction false} AscendingInStep<Op>(s: seq<WalFile<Op>>, r: seq<WalFile<Op>>)
    requires multiset(s) == multiset(r) && AllNumbered(s) && NumbersAscend(r) && Ordered(ByName(), r)
    ensures NamesInStep(s)
  {
    forall i, j | 0 <= i < |s| && 0 <= j < |s| ensures InStep(s[i], s[j]) {
      assert s[i] in multiset(r) && s[j] in multiset(r);
      var a :| 0 <= a < |r| && r[a] == s[i];
      var b :| 0 <= b < |r| && r[b] == s[j];
      if a < b {
        OrderedPairInStep(r[a], r[b]);
      } else if b < a {
        OrderedPairInStep(r[b], r[a]);
      }
    }
  }

  /** Sorting numbered files by path sorts them by number exactly when of every two files the one
      with the smaller number has the earlier name. */
  lemma SortsByNumberIff<Op(!new)>(s: seq<WalFile<Op>>)
    requires AllNumbered(s)
    ensures NumbersAscend(SortBy(ByName(), s)) <==> NamesInStep(s)
  {
    SameFiles(s);
    if NamesInStep(s) { SortedInStep(s, SortBy(ByName(), s)); }
    if NumbersAscend(SortBy(ByName(), s)) { AscendingInStep(s, SortBy(ByName(), s)); }
  }

  // ---- On the numerals ----

  ghost predicate Plain<Op>(f: WalFile<Op>) {
    NumberOf(f).Some? && |f.stem| >= 4 && AllDigits(f.stem[4..])
  }

  lemma NumeralOf<Op>(f: WalFile<Op>)
    requires Plain(f)
    ensures Decimal(f.stem[4..]) == NumberOf(f)
    ensures NameOf(f) == "wal-" + (f.stem[4..] + ".wal")
  {
  }

  /** Without plus signs: two files with different numbers are in step exactly when their numerals,
      compared as far as both reach, are in the order of the numbers, or agree that far and the
      shorter belongs to the smaller number. */
  lemma InStepIff<Op>(f: WalFile<Op>, g: WalFile<Op>)
    requires Plain(f) && Plain(g) && NumberOf(f).value < NumberOf(g).value
    ensures InStep(f, g) <==> NumeralFirst(f.stem[4..], g.stem[4..])
  {
    NumeralOf(f);
    NumeralOf(g);
    LexSharedStart(CharLess(), "wal-", f.stem[4..] + ".wal", g.stem[4..] + ".wal");
    NumeralsByName(f.stem[4..], g.stem[4..], ".wal", ".wal");
  }

  /** Numerals of one length are always in step. */
  lemma PaddedNamesSortByNumber<Op(!new)>(s: seq<WalFile<Op>>)
    requires forall i :: 0 <= i < |s| ==> Plain(s[i])
    requires forall i, j :: 0 <= i < |s| && 0 <= j < |s| ==> |s[i].stem| == |s[j].stem|
    ensures NumbersAscend(SortBy(ByName(), s))
  {
    forall i, j | 0 <= i < |s| && 0 <= j < |s| ensures InStep(s[i], s[j]) {
      if NumberOf(s[i]).value < NumberOf(s[j]).value {
        InStepIff(s[i], s[j]);
        NumeralOf(s[i]);
        NumeralOf(s[j]);
        var a, b := s[i].stem[4..], s[j].stem[4..];
        assert a[..|a|] == a && b[..|b|] == b;
      }
    }
    SortsByNumberIff(s);
  }

  /** Numerals without padding need not be: file 10 is read before file 9. */
  lemma UnpaddedNamesMissort<Op>(log: seq<Item<Op>>)
    ensures var nine, ten := WalFile("wal-9", "wal", log), WalFile("wal-10", "wal", log);
            && NumberOf(nine) == Some(9) && NumberOf(ten) == Some(10)
            && SortBy(ByName(), [nine, ten]) == [ten, nine]
  {
    var nine, ten := WalFile("wal-9", "wal", log), WalFile("wal-10", "wal", log);
    assert "wal-9"[4..] == "9" && "wal-10"[4..] == "10" && "10"[..1] == "1" && "9"[..0] == "" && "1"[..0] == "";
    assert Decimal("9"[..0]) == Some(0) && Decimal("1"[..0]) == Some(0);
    assert Decimal("9") == Some(9) && Decimal("10"[..1]) == Some(1) && Decimal("10") == Some(10);
    LexSharedStart(CharLess(), "wal-", "10.wal", "9.wal");
    assert NameOf(ten) == "wal-" + "10.wal" && NameOf(nine) == "wal-" + "9.wal";
    assert [nine, ten][1..] == [ten] && [ten][1..] == [];
    assert SortBy(ByName(), [ten]) == [ten];
    assert ByName()(ten, nine);
    assert InsertInto(ByName(), nine, [ten]) == [ten] + InsertInto(ByName(), nine, [ten][1..]);
  }

  // ---- A whole recovery ----

  function LogsOf<Op>(files: seq<WalFile<Op>>): (logs: seq<seq<Item<Op>>>) {
    seq(|files|, i requires 0 <= i < |files| => files[i].items)
  }

  function Contents<Op>(files: seq<WalFile<Op>>): (items: seq<Item<Op>>) {
    Joined(LogsOf(files))
  }

  /** Restores the snapshot, which was taken at sequence `from`, and replays the directory over it. */
  method PointInTimeRecovery<S(!new), Op>(r: Recovery<S, Op>, snapshot: S, from: nat,
      dir: seq<WalFile<Op>>, target: int) returns (ok: bool, applied: nat)
    modifies r
    ensures Replayed(r.apply, snapshot, Contents(FilesRead(dir, from)), from, target, applied, ok, r.store)
  {
    r.store := snapshot;
    var files := FindWalFilesAfter(dir, from);
    ok, applied := r.ReplayWalToTime(LogsOf(files), from, target);
  }

  lemma {:induction false} ContentsJoin<Op>(a: seq<WalFile<Op>>, b: seq<WalFile<Op>>)
    ensures Contents(a + b) == Contents(a) + Contents(b)
  {
    if b == [] {
      assert a + b == a;
    } else {
      var n := |b| - 1;
      ContentsJoin(a, b[..n]);
      assert LogsOf(a + b)[..|a + b| - 1] == LogsOf(a + b[..n]);
      assert LogsOf(b)[..n] == LogsOf(b[..n]);
    }
  }

  /** Every numbered file of the directory, in the order recovery reads them. */
  function AllFiles<Op>(dir: seq<WalFile<Op>>): (r: seq<WalFile<Op>>) {
    SortBy(ByName(), Keep(AboveNumber(-1), dir))
  }

  /** The files recovery reads. */
  function FilesRead<Op>(dir: seq<WalFile<Op>>, from: nat): (r: seq<WalFile<Op>>) {
    SortBy(ByName(), Keep(AboveNumber(from), dir))
  }

  lemma {:induction false} KeepAboveTwice<Op>(s: seq<WalFile<Op>>, n: int, m: int)
    requires n <= m
    ensures Keep(AboveNumber(m), Keep(AboveNumber(n), s)) == Keep(AboveNumber(m), s)
  {
    if s != [] {
      KeepAboveTwice(s[1..], n, m);
      KeepJoins(AboveNumber(m), if Above(s[0], n) then [s[0]] else [], Keep(AboveNumber(n), s[1..]));
      assert Above(s[0], m) ==> Above(s[0], n);
    }
  }

  /** The files read are the files of the whole log, in its order, without those skipped. */
  lemma ReadsTheRest<Op(!new)>(dir: seq<WalFile<Op>>, from: nat)
    ensures FilesRead(dir, from) == Keep(AboveNumber(from), AllFiles(dir))
  {
    NamesAreOrdered<Op>();
    KeepAboveTwice(dir, -1, from);
    KeepSorted(ByName(), AboveNumber(from), Keep(AboveNumber(-1), dir));
  }

  /** No file that is skipped holds an entry that should be applied. */
  ghost predicate NothingSkipped<Op>(files: seq<WalFile<Op>>, from: nat, target: int) {
    forall i :: 0 <= i < |files| && !Above(files[i], from) ==> NoneReach(files[i].items, from, target, 0)
  }

  lemma NoneReachable<Op>(items: seq<Item<Op>>, from: nat, target: int)
    ensures Reachable(items, from, target) == [] <==> NoneReach(items, from, target, 0)
  {
    ReachableSplit(items, from, target, 0);
    assert items[..0] == [];
  }

  lemma ReachableCons<Op>(f: WalFile<Op>, files: seq<WalFile<Op>>, from: nat, target: int)
    ensures Reachable(Contents([f] + files), from, target) ==
            Reachable(f.items, from, target) + Reachable(Contents(files), from, target)
  {
    ContentsJoin([f], files);
    assert LogsOf([f]) == [f.items] && [f.items][..0] == [];
    assert Contents([f]) == Joined([f.items][..0]) + f.items == f.items;
    KeepJoins(Reach(from, target), f.items, Contents(files));
  }

  lemma NothingSkippedCons<Op>(f: WalFile<Op>, rest: seq<WalFile<Op>>, from: nat, target: int)
    ensures NothingSkipped([f] + rest, from, target) <==>
            NothingSkipped(rest, from, target) && (Above(f, from) || NoneReach(f.items, from, target, 0))
  {
    var files := [f] + rest;
    assert forall i :: 0 <= i < |rest| ==> rest[i] == files[i + 1];
    assert files[0] == f;
  }

  /** Skipping files loses entries exactly if one of them held some. */
  lemma {:induction false} SkippingLoses<Op>(files: seq<WalFile<Op>>, from: nat, target: int)
    ensures var all, read := Reachable(Contents(files), from, target),
                             Reachable(Contents(Keep(AboveNumber(from), files)), from, target);
            |all| >= |read| && (|all| == |read| ==> NothingSkipped(files, from, target))
            && (NothingSkipped(files, from, target) ==> all == read)
  {
    if files != [] {
      var f, rest := files[0], files[1..];
      assert files == [f] + rest;
      SkippingLoses(rest, from, target);
      ReachableCons(f, rest, from, target);
      NoneReachable(f.items, from, target);
      KeepCons(AboveNumber(from), f, rest);
      ReachableCons(f, Keep(AboveNumber(from), rest), from, target);
      NothingSkippedCons(f, rest, from, target);
    }
  }

  /** Recovery from any directory succeeds and applies every entry of the whole log that it should,
      in order, exactly when three things hold of the directory: what is read is replayable, no
      entry in time follows the first one past the target, and no file numbered at most the
      backup's sequence holds an entry that should be applied. */
  lemma RecoveryCompleteIff<S(!new), Op(!new)>(apply: (S, Op) -> Option<S>, snapshot: S,
      dir: seq<WalFile<Op>>, from: nat, target: int, n: int, ok: bool, s': S)
    requires Replayed(apply, snapshot, Contents(FilesRead(dir, from)), from, target, n, ok, s')
    ensures var read := Contents(FilesRead(dir, from));
            ok && read[..n] == Reachable(Contents(AllFiles(dir)), from, target) <==>
              && Replayable(apply, snapshot, read, from, target)
              && NoneReach(read, from, target, FirstPast(read, target))
              && NothingSkipped(AllFiles(dir), from, target)
  {
    var read := Contents(FilesRead(dir, from));
    ReadsTheRest(dir, from);
    SkippingLoses(AllFiles(dir), from, target);
    SuccessIsCompleteIff(apply, snapshot, read, from, target, n, ok, s');
    assert AllReach(read, from, target, n);
    ReachableSplit(read, from, target, n);
  }

  /** A directory of one file whose number is not above the sequence of the backup. */
  lemma OneFileSkipped<Op>(f: WalFile<Op>, from: nat)
    requires NumberOf(f).Some? && NumberOf(f).value <= from
    ensures FilesRead([f], from) == [] && AllFiles([f]) == [f] && Contents([f]) == f.items
  {
    assert [f] == [f] + [];
    KeepCons(AboveNumber(from), f, []);
    KeepCons(AboveNumber(-1), f, []);
    assert [f][1..] == [] && LogsOf([f]) == [f.items] && [f.items][..0] == [];
    assert Contents([f]) == Joined([f.items][..0]) + f.items;
  }

  /** File 1 holds entry 6, the backup was taken at sequence 5: recovery applies nothing, reports
      success, and the entry is lost. */
  lemma SkippedFileIsLost<S(!new), Op>(apply: (S, Op) -> Option<S>, snapshot: S, op: Op, n: int, ok: bool, s': S)
    requires var dir := [WalFile("wal-1", "wal", [Entry(6, 10, op)])];
             Replayed(apply, snapshot, Contents(FilesRead(dir, 5)), 5, 20, n, ok, s')
    ensures var dir := [WalFile("wal-1", "wal", [Entry(6, 10, op)])];
            ok && n == 0 && s' == snapshot && Reachable(Contents(AllFiles(dir)), 5, 20) == [Entry(6, 10, op)]
  {
    var f := WalFile("wal-1", "wal", [Entry(6, 10, op)]);
    assert "wal-1"[4..] == "1" && "1"[..0] == "";
    assert Decimal("1"[..0]) == Some(0) && Decimal("1") == Some(1);
    OneFileSkipped(f, 5);
    assert [Entry(6, 10, op)] == [Entry(6, 10, op)] + [];
    KeepCons(Reach(5, 20), Entry(6, 10, op), []);
  }

  lemma {:induction false} FoldTotal<S(!new), Op(!new)>(apply: (S, Op) -> Option<S>, s: S, items: seq<Item<Op>>)
    requires forall t, op :: apply(t, op).Some?
    requires forall i :: 0 <= i < |items| ==> items[i].Entry?
    ensures Fold(apply, s, items).Some?
  {
    if items != [] { FoldTotal(apply, s, items[..|items| - 1]); }
  }

  /** What is read, if it is in order and its operations cannot fail, meets the first two conditions
      exactly when none of its entries up to the target is as old as the backup. */
  lemma MonotoneReplayableIff<S(!new), Op(!new)>(apply: (S, Op) -> Option<S>, s: S, read: seq<Item<Op>>,
      from: nat, target: int)
    requires Monotone(read) && forall t, op :: apply(t, op).Some?
    ensures Replayable(apply, s, read, from, target) && NoneReach(read, from, target, FirstPast(read, target)) <==>
            forall i :: 0 <= i < |read| && read[i].timestamp <= target ==> read[i].sequence > from
  {
    var m := FirstPast(read, target);
    FoldTotal(apply, s, read[..m]);
    MonotoneRest(read, from, target, m);
    if Replayable(apply, s, read, from, target) {
      forall i | 0 <= i < |read| && read[i].timestamp <= target ensures read[i].sequence > from {
        assert i < m && InReach(read[i], from, target);
      }
    }
    forall i | 0 <= i < m ensures read[i].timestamp <= target {
      assert !PastTarget(read[i], target);
    }
  }

  /** The log's own writer names its files with another extension.  Recovery finds none of them,
      and its outcome is the bare snapshot, reported as success. */
  lemma WriterFilesAreNotFound<S(!new), Op>(apply: (S, Op) -> Option<S>, snapshot: S,
      dir: seq<WalFile<Op>>, from: nat, target: int, n: int, ok: bool, s': S)
    requires forall i :: 0 <= i < |dir| ==> dir[i].extension == "log"
    requires Replayed(apply, snapshot, Contents(FilesRead(dir, from)), from, target, n, ok, s')
    ensures FilesRead(dir, from) == [] && ok && n == 0 && s' == snapshot
  {
    NoLogIsKept(dir, from);
  }

  lemma {:induction false} NoLogIsKept<Op>(dir: seq<WalFile<Op>>, from: nat)
    requires forall i :: 0 <= i < |dir| ==> dir[i].extension == "log"
    ensures Keep(AboveNumber(from), dir) == []
  {
    if dir != [] {
      assert dir[0].extension != "wal" by { assert "log"[0] != "wal"[0]; }
      NoLogIsKept(dir[1..], from);
    }
  }
}
