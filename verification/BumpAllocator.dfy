/**
 The lock-free bump allocator under every interleaving of its threads.

 Each atomic access of `bump_allocate` is one step: the load of the bump
 pointer, the compare-exchange (which may fail spuriously), and the two
 counter updates. Arithmetic is on 64 bits, as in the source.
 */
module BumpAllocator {
  import opened Memory

  const U64: nat := 0x1_0000_0000_0000_0000

  /** `x & !m`, bit by bit. */
  function ClearBits(x: nat, m: nat): (r: nat)
    ensures r <= x <= r + m
  {
    if x == 0 then 0 else 2 * ClearBits(x / 2, m / 2) + if x % 2 == 1 && m % 2 == 0 then 1 else 0
  }

  predicate PowerOfTwo(n: nat) {
    n == 1 || (n > 0 && n % 2 == 0 && PowerOfTwo(n / 2))
  }

  /** Clearing the bits below a power of two leaves a multiple of it. */
  lemma {:induction false} MaskIsMultiple(x: nat, align: nat) returns (q: nat)
    requires PowerOfTwo(align)
    ensures ClearBits(x, align - 1) == q * align && ClearBits(x, align - 1) % align == 0
  {
    if align == 1 {
      q := x;
    } else {
      q := MaskIsMultiple(x / 2, align / 2);
      assert (align - 1) / 2 == align / 2 - 1;
      Doubled(q, align / 2);
      MultipleOf(q, align);
    }
  }

  lemma {:induction false} MaskGrows(x: nat, y: nat, align: nat)
    requires PowerOfTwo(align) && x <= y
    ensures ClearBits(x, align - 1) <= ClearBits(y, align - 1)
  {
    if align > 1 {
      assert (align - 1) / 2 == align / 2 - 1;
      MaskGrows(x / 2, y / 2, align / 2);
    }
  }

  lemma Doubled(q: nat, d: nat)
    ensures q * (2 * d) == 2 * (q * d)
  {
  }

  lemma {:induction false} MultipleOf(q: nat, d: nat)
    requires d > 0
    ensures (q * d) % d == 0
  {
    if q > 0 {
      MultipleOf(q - 1, d);
      assert q * d == d + (q - 1) * d;
      AddDivisor((q - 1) * d, d);
    }
  }

  /** What the mask leaves of `align` itself is its lowest bit. */
  lemma {:induction false} LowestBit(align: nat)
    requires align > 0
    ensures 0 < ClearBits(align, align - 1) && (ClearBits(align, align - 1) == align <==> PowerOfTwo(align))
  {
    if align % 2 == 0 {
      LowestBit(align / 2);
      assert (align - 1) / 2 == align / 2 - 1;
    } else {
      assert align / 2 == (align - 1) / 2;
      NothingLeft(align / 2);
    }
  }

  lemma {:induction false} NothingLeft(x: nat)
    ensures ClearBits(x, x) == 0
  {
    if x > 0 { NothingLeft(x / 2); }
  }

  /** The mask of the source. */
  function AlignDown(x: nat, align: nat): (r: nat)
    requires align > 0
    ensures r <= x < r + align
  {
    ClearBits(x, align - 1)
  }

  /** It aligns every offset exactly if the alignment is a power of two. */
  lemma MaskAlignsIff(align: nat)
    requires align > 0
    ensures (forall x: nat :: AlignDown(x, align) % align == 0) <==> PowerOfTwo(align)
  {
    if PowerOfTwo(align) {
      forall x: nat ensures AlignDown(x, align) % align == 0 { var _ := MaskIsMultiple(x, align); }
    } else {
      LowestBit(align);
      SmallRemainder(AlignDown(align, align), align);
    }
  }

  lemma SmallRemainder(x: nat, d: nat)
    requires x < d
    ensures x % d == x
  {
  }

  /** The aligned offset computed from the loaded bump pointer. */
  function Aligned(current: nat, align: nat): (r: nat)
    requires align > 0
    ensures current + align <= U64 ==> current <= r < current + align
  {
    AlignDown(Wrap64(current + align - 1), align)
  }

  lemma AlignedIs(current: nat, align: nat)
    requires align > 0 && current + align <= U64
    ensures Aligned(current, align) == AlignDown(current + align - 1, align)
  {
  }

  /** Where the bump pointer goes if the compare-exchange succeeds. */
  function NewOffset(current: nat, size: nat, align: nat): nat
    requires align > 0
  {
    Wrap64(Aligned(current, align) + size)
  }

  /** The space check of the source. */
  predicate Accepts(limit: nat, current: nat, size: nat, align: nat)
    requires align > 0
  {
    NewOffset(current, size, align) <= limit
  }

  /** The next multiple of the alignment. */
  function Ceil(n: nat, align: nat): (r: nat)
    requires align > 0
    ensures n <= r < n + align
  {
    AlignDown(n + align - 1, align)
  }

  /** No 64-bit sum of the request can wrap in an arena of this size. */
  predicate NoWrap(limit: nat, size: nat, align: nat)
    requires align > 0
  {
    limit + align <= U64 && Ceil(limit, align) + size < U64
  }

  /** The alignment is one, and no sum of the request can wrap. */
  predicate Sane(limit: nat, size: nat, align: nat) {
    0 < size && 0 < align && PowerOfTwo(align) && NoWrap(limit, size, align)
  }

  lemma SaneEnds(limit: nat, current: nat, size: nat, align: nat)
    requires Sane(limit, size, align) && current <= limit < U64
    ensures current <= Aligned(current, align) && Aligned(current, align) + size < U64
  {
    MaskGrows(current + align - 1, limit + align - 1, align);
    AlignedIs(current, align);
  }

  /** What a sane request gets is where it belongs. */
  lemma SaneFits(limit: nat, current: nat, size: nat, align: nat)
    requires Sane(limit, size, align) && current <= limit < U64
    ensures current <= Aligned(current, align)
    ensures NewOffset(current, size, align) == Aligned(current, align) + size
  {
    SaneEnds(limit, current, size, align);
  }

  /** An accepted request gets a block inside the arena exactly when the sum
      of the aligned offset and the size did not wrap. */
  lemma AcceptedFitsIff(limit: nat, current: nat, size: nat, align: nat)
    requires align > 0 && current <= limit < U64 && current + align <= U64 && size < U64
    requires Accepts(limit, current, size, align)
    ensures Aligned(current, align) + size <= limit <==> Aligned(current, align) + size < U64
  {
  }

  /** Every unaligned request that wraps is accepted, and moves the bump
      pointer back. */
  lemma WrapMovesBack(limit: nat, current: nat, size: nat)
    requires current <= limit < U64 && size < U64 <= current + size
    ensures Accepts(limit, current, size, 1) && NewOffset(current, size, 1) == current + size - U64 < current
  {
  }

  // ------------------------------------------------------------------- threads

  /** Where a thread is inside `bump_allocate`. */
  datatype Thread =
    | Idle
    | Looping(size: nat, align: nat)
    | Loaded(seen: nat, size: nat, align: nat)
    | Won(offset: nat, size: nat)
    | Counted(offset: nat, size: nat)

  /** A block handed to the winner of a compare-exchange. */
  datatype Claim = Claim(offset: nat, size: nat, align: nat)

  /** The shared words, the threads, and the history of successful claims. */
  datatype Bump = Bump(current: nat, count: nat, bytes: nat, threads: seq<Thread>, claims: seq<Claim>)

  datatype Step =
    | Call(t: nat, size: nat, align: nat)
    | Load(t: nat)
    | Refuse(t: nat)
    | Win(t: nat)
    | Lose(t: nat)
    | AddCount(t: nat)
    | AddBytes(t: nat)

  predicate Enabled(limit: nat, s: Bump, step: Step) {
    && step.t < |s.threads|
    && var th := s.threads[step.t];
    match step
    case Call(_, size, align) => th.Idle? && 0 < size < U64 && 0 < align < U64
    case Load(_) => th.Looping?
    case Refuse(_) => th.Loaded? && th.align > 0 && !Accepts(limit, th.seen, th.size, th.align)
    case Win(_) => th.Loaded? && th.align > 0 && Accepts(limit, th.seen, th.size, th.align) && s.current == th.seen
    case Lose(_) => th.Loaded? && th.align > 0 && Accepts(limit, th.seen, th.size, th.align)
    case AddCount(_) => th.Won?
    case AddBytes(_) => th.Counted?
  }

  function Take(limit: nat, s: Bump, step: Step): Bump
    requires Enabled(limit, s, step)
  {
    var t, th := step.t, s.threads[step.t];
    match step
    case Call(_, size, align) => s.(threads := s.threads[t := Looping(size, align)])
    case Load(_) => s.(threads := s.threads[t := Loaded(s.current, th.size, th.align)])
    case Refuse(_) => s.(threads := s.threads[t := Idle])
    case Win(_) =>
      var offset := Aligned(th.seen, th.align);
      s.(current := NewOffset(th.seen, th.size, th.align),
         threads := s.threads[t := Won(offset, th.size)],
         claims := s.claims + [Claim(offset, th.size, th.align)])
    case Lose(_) => s.(threads := s.threads[t := Looping(th.size, th.align)])
    case AddCount(_) => s.(count := s.count + 1, threads := s.threads[t := Counted(th.offset, th.size)])
    case AddBytes(_) => s.(bytes := s.bytes + th.size, threads := s.threads[t := Idle])
  }

  // ----------------------------------------------------------------- invariant

  /** The claims follow one another upwards between `start` and `current`. */
  ghost predicate ClaimsOk(start: nat, current: nat, claims: seq<Claim>) {
    && (forall i :: 0 <= i < |claims| ==>
          && claims[i].align > 0 && claims[i].offset % claims[i].align == 0
          && start <= claims[i].offset && claims[i].offset + claims[i].size <= current)
    && forall i, j :: 0 <= i < j < |claims| ==> claims[i].offset + claims[i].size <= claims[j].offset
  }

  ghost predicate ThreadOk(limit: nat, th: Thread) {
    match th
    case Looping(size, align) => Sane(limit, size, align)
    case Loaded(seen, size, align) => Sane(limit, size, align) && seen <= limit
    case _ => true
  }

  function ToCount(th: Thread): nat {
    if th.Won? then 1 else 0
  }

  function ToAdd(th: Thread): nat {
    if th.Won? || th.Counted? then th.size else 0
  }

  /** What the threads have still to add to the allocation counter. */
  function PendingCount(threads: seq<Thread>): nat {
    if threads == [] then 0 else PendingCount(threads[..|threads| - 1]) + ToCount(threads[|threads| - 1])
  }

  function PendingBytes(threads: seq<Thread>): nat {
    if threads == [] then 0 else PendingBytes(threads[..|threads| - 1]) + ToAdd(threads[|threads| - 1])
  }

  lemma {:induction false} PendingUpdate(threads: seq<Thread>, t: nat, th: Thread)
    requires t < |threads|
    ensures PendingCount(threads[t := th]) == PendingCount(threads) - ToCount(threads[t]) + ToCount(th)
    ensures PendingBytes(threads[t := th]) == PendingBytes(threads) - ToAdd(threads[t]) + ToAdd(th)
  {
    var n := |threads| - 1;
    if t < n {
      PendingUpdate(threads[..n], t, th);
      assert threads[t := th][..n] == threads[..n][t := th];
    } else {
      assert threads[t := th][..n] == threads[..n];
    }
  }

  lemma {:induction false} NothingPending(threads: seq<Thread>)
    requires forall t :: 0 <= t < |threads| ==> threads[t].Idle?
    ensures PendingCount(threads) == 0 && PendingBytes(threads) == 0
  {
    if threads != [] { NothingPending(threads[..|threads| - 1]); }
  }

  function TotalSize(claims: seq<Claim>): nat {
    if claims == [] then 0 else TotalSize(claims[..|claims| - 1]) + claims[|claims| - 1].size
  }

  ghost predicate Inv(start: nat, limit: nat, s: Bump) {
    && start <= s.current <= limit < U64
    && ClaimsOk(start, s.current, s.claims)
    && (forall t :: 0 <= t < |s.threads| ==> ThreadOk(limit, s.threads[t]))
    && s.count + PendingCount(s.threads) == |s.claims|
    && s.bytes + PendingBytes(s.threads) == TotalSize(s.claims)
  }

  ghost predicate Init(start: nat, limit: nat, s: Bump) {
    && start <= limit < U64
    && s.current == start && s.count == 0 && s.bytes == 0 && s.claims == []
    && forall t :: 0 <= t < |s.threads| ==> s.threads[t].Idle?
  }

  /** Every step of every thread keeps the invariant, and none moves the bump
      pointer down or forgets a claim. */
  lemma StepKeeps(start: nat, limit: nat, s: Bump, step: Step)
    requires Inv(start, limit, s) && Enabled(limit, s, step) && SaneCall(limit, step)
    ensures Inv(start, limit, Take(limit, s, step))
    ensures s.current <= Take(limit, s, step).current
    ensures s.claims <= Take(limit, s, step).claims
  {
    var s' := Take(limit, s, step);
    var th := s.threads[step.t];
    assert ThreadOk(limit, th);
    var th' := s'.threads[step.t];
    assert s'.threads == s.threads[step.t := th'] && ThreadOk(limit, th');
    PendingUpdate(s.threads, step.t, th');
    if step.Win? {
      WinKeepsClaims(start, limit, s, th);
    }
  }

  lemma WinKeepsClaims(start: nat, limit: nat, s: Bump, th: Thread)
    requires start <= s.current <= limit < U64 && ClaimsOk(start, s.current, s.claims)
    requires th.Loaded? && Sane(limit, th.size, th.align) && s.current == th.seen
    requires Accepts(limit, th.seen, th.size, th.align)
    ensures var offset := Aligned(th.seen, th.align);
            var claims := s.claims + [Claim(offset, th.size, th.align)];
            && s.current <= offset
            && NewOffset(th.seen, th.size, th.align) == offset + th.size <= limit
            && ClaimsOk(start, offset + th.size, claims)
            && TotalSize(claims) == TotalSize(s.claims) + th.size
  {
    var claims := s.claims + [Claim(Aligned(th.seen, th.align), th.size, th.align)];
    SaneFits(limit, th.seen, th.size, th.align);
    var _ := MaskIsMultiple(Wrap64(th.seen + th.align - 1), th.align);
    assert claims[..|claims| - 1] == s.claims;
  }

  ghost predicate IsRun(start: nat, limit: nat, steps: seq<Step>, states: seq<Bump>) {
    && |states| == |steps| + 1
    && Init(start, limit, states[0])
    && forall n :: 0 <= n < |steps| ==>
         Enabled(limit, states[n], steps[n]) && states[n + 1] == Take(limit, states[n], steps[n])
  }

  predicate SaneCall(limit: nat, step: Step) {
    step.Call? ==> Sane(limit, step.size, step.align)
  }

  ghost predicate SaneCalls(limit: nat, steps: seq<Step>) {
    forall n :: 0 <= n < |steps| ==> SaneCall(limit, steps[n])
  }

  lemma {:induction false} RunInv(start: nat, limit: nat, steps: seq<Step>, states: seq<Bump>, n: nat)
    requires IsRun(start, limit, steps, states) && SaneCalls(limit, steps) && n < |states|
    ensures Inv(start, limit, states[n])
  {
    if n == 0 {
      NothingPending(states[0].threads);
    } else {
      RunInv(start, limit, steps, states, n - 1);
      StepKeeps(start, limit, states[n - 1], steps[n - 1]);
    }
  }

  /** Blocks that are aligned, inside the arena and pairwise disjoint. */
  ghost predicate SafeClaims(start: nat, limit: nat, claims: seq<Claim>) {
    && (forall i :: 0 <= i < |claims| ==>
          && claims[i].align > 0 && claims[i].offset % claims[i].align == 0
          && start <= claims[i].offset && claims[i].offset + claims[i].size <= limit)
    && (forall i, j :: 0 <= i < j < |claims| ==>
          Disjoint(Block(claims[i].offset, claims[i].size), Block(claims[j].offset, claims[j].size)))
  }

  /** Under every interleaving the blocks handed out are safe. */
  lemma ClaimsAreSafe(start: nat, limit: nat, steps: seq<Step>, states: seq<Bump>, n: nat)
    requires IsRun(start, limit, steps, states) && SaneCalls(limit, steps) && n < |states|
    ensures SafeClaims(start, limit, states[n].claims)
  {
    RunInv(start, limit, steps, states, n);
  }

  /** Every call asks for at most `most` bytes with this alignment. */
  ghost predicate AsksAtMost(most: nat, align: nat, steps: seq<Step>) {
    forall n :: 0 <= n < |steps| && steps[n].Call? ==> steps[n].size <= most && steps[n].align == align
  }

  ghost predicate AllRunsSafe(limit: nat, most: nat, align: nat) {
    forall start: nat, steps: seq<Step>, states: seq<Bump>, n: nat ::
      IsRun(start, limit, steps, states) && AsksAtMost(most, align, steps) && n < |states| ==>
        SafeClaims(start, limit, states[n].claims)
  }

  /** One thread asks a full arena. */
  lemma OneClaim(limit: nat, size: nat, align: nat) returns (steps: seq<Step>, states: seq<Bump>)
    requires limit < U64 && 0 < size < U64 && 0 < align < U64 && Accepts(limit, limit, size, align)
    ensures IsRun(limit, limit, steps, states) && AsksAtMost(size, align, steps) && |states| == 4
    ensures states[3].claims == [Claim(Aligned(limit, align), size, align)]
  {
    var offset := Aligned(limit, align);
    var s0 := Bump(limit, 0, 0, [Idle], []);
    var s1 := s0.(threads := [Looping(size, align)]);
    var s2 := s0.(threads := [Loaded(limit, size, align)]);
    var s3 := Bump(NewOffset(limit, size, align), 0, 0, [Won(offset, size)], [Claim(offset, size, align)]);
    steps, states := [Call(0, size, align), Load(0), Win(0)], [s0, s1, s2, s3];
    assert Enabled(limit, s0, steps[0]) && s1 == Take(limit, s0, steps[0]);
    assert Enabled(limit, s1, steps[1]) && s2 == Take(limit, s1, steps[1]);
    assert Enabled(limit, s2, steps[2]) && s3 == Take(limit, s2, steps[2]);
  }

  lemma SmallMultiple(q: nat, d: nat)
    requires q * d < d
    ensures q == 0
  {
    if q > 0 { Scale(d, 1, q); }
  }

  /** A sum that wraps gives a block below the arena, or one that ends beyond it. */
  lemma WrapBreaks(limit: nat, most: nat, align: nat) returns (size: nat)
    requires limit < U64 && 0 < most < U64 && 0 < align < U64 && PowerOfTwo(align) && !NoWrap(limit, most, align)
    ensures 0 < size <= most && Accepts(limit, limit, size, align)
    ensures !SafeClaims(limit, limit, [Claim(Aligned(limit, align), size, align)])
  {
    var claims;
    if limit + align > U64 {
      size := 1;
      var x := limit + align - 1 - U64;
      assert Wrap64(limit + align - 1) == x;
      var q := MaskIsMultiple(x, align);
      SmallMultiple(q, align);
      claims := [Claim(0, size, align)];
      assert claims[0].offset < limit;
    } else {
      AlignedIs(limit, align);
      size := U64 - Ceil(limit, align);
      claims := [Claim(Ceil(limit, align), size, align)];
      assert claims[0].offset + claims[0].size > limit;
    }
  }

  /** Requests of up to `most` bytes with the given alignment are safe in every
      run of every arena with this limit exactly if the limit, rounded up to
      the alignment, and the request cannot overflow together. */
  lemma SafeIffNoWrap(limit: nat, most: nat, align: nat)
    requires limit < U64 && 0 < most < U64 && 0 < align < U64 && PowerOfTwo(align)
    ensures AllRunsSafe(limit, most, align) <==> limit + align <= U64 && Ceil(limit, align) + most < U64
  {
    if NoWrap(limit, most, align) {
      forall start: nat, steps: seq<Step>, states: seq<Bump>, n: nat |
        IsRun(start, limit, steps, states) && AsksAtMost(most, align, steps) && n < |states|
        ensures SafeClaims(start, limit, states[n].claims)
      {
        forall k | 0 <= k < |steps| ensures SaneCall(limit, steps[k]) {
          assert Enabled(limit, states[k], steps[k]);
        }
        ClaimsAreSafe(start, limit, steps, states, n);
      }
    } else {
      var size := WrapBreaks(limit, most, align);
      var steps, states := OneClaim(limit, size, align);
      assert IsRun(limit, limit, steps, states) && AsksAtMost(most, align, steps);
      assert !SafeClaims(limit, limit, states[3].claims);
    }
  }

  lemma OneStepGrows(start: nat, limit: nat, steps: seq<Step>, states: seq<Bump>, n: nat)
    requires IsRun(start, limit, steps, states) && SaneCalls(limit, steps) && n + 1 < |states|
    ensures states[n].current <= states[n + 1].current && states[n].claims <= states[n + 1].claims
  {
    RunInv(start, limit, steps, states, n);
    StepKeeps(start, limit, states[n], steps[n]);
  }

  lemma PrefixChains(a: seq<Claim>, b: seq<Claim>, c: seq<Claim>)
    requires a <= b <= c
    ensures a <= c
  {
  }

  /** The bump pointer never moves down and no claim is ever taken back. */
  lemma {:induction false} PointerOnlyGrows(start: nat, limit: nat, steps: seq<Step>, states: seq<Bump>, m: nat, n: nat)
    requires IsRun(start, limit, steps, states) && SaneCalls(limit, steps) && m <= n < |states|
    ensures states[m].current <= states[n].current && states[m].claims <= states[n].claims
    decreases n
  {
    if m < n {
      PointerOnlyGrows(start, limit, steps, states, m, n - 1);
      OneStepGrows(start, limit, steps, states, n - 1);
      PrefixChains(states[m].claims, states[n - 1].claims, states[n].claims);
    }
  }

  /** A thread has loaded no value that the pointer has not had. */
  lemma {:induction false} SeenNotAhead(start: nat, limit: nat, steps: seq<Step>, states: seq<Bump>, n: nat, t: nat)
    requires IsRun(start, limit, steps, states) && SaneCalls(limit, steps) && n < |states|
    requires t < |states[n].threads| && states[n].threads[t].Loaded?
    ensures states[n].threads[t].seen <= states[n].current
  {
    if n > 0 {
      OneStepGrows(start, limit, steps, states, n - 1);
      assert Enabled(limit, states[n - 1], steps[n - 1]) && states[n] == Take(limit, states[n - 1], steps[n - 1]);
      if steps[n - 1].t != t { SeenNotAhead(start, limit, steps, states, n - 1, t); }
    }
  }

  /** Below the next multiple of the alignment there is none. */
  lemma CeilIsLeast(n: nat, o: nat, align: nat)
    requires align > 0 && PowerOfTwo(align) && n <= o && o % align == 0
    ensures Ceil(n, align) <= o
  {
    MaskGrows(n + align - 1, o + align - 1, align);
    CeilOfMultiple(o, align);
  }

  lemma CeilOfMultiple(o: nat, align: nat)
    requires align > 0 && PowerOfTwo(align) && o % align == 0
    ensures Ceil(o, align) == o
  {
    var q := MaskIsMultiple(o + align - 1, align);
    var r := Ceil(o, align);
    assert o <= r < o + align && r == q * align;
    SameMultiple(q, align, o);
  }

  lemma SameMultiple(q: nat, d: nat, o: nat)
    requires d > 0 && o % d == 0 && o <= q * d < o + d
    ensures q * d == o
  {
    var k := o / d;
    assert o == k * d;
    if q > k { Scale(d, k + 1, q); }
  }

  /** A call is refused only if no aligned block of its size fits between the
      pointer it loaded and the end of the arena; nor will one ever fit again
      above the pointer. */
  lemma RefusedNeverFits(start: nat, limit: nat, steps: seq<Step>, states: seq<Bump>, n: nat, m: nat, o: nat)
    requires IsRun(start, limit, steps, states) && SaneCalls(limit, steps) && n < |steps| && steps[n].Refuse?
    requires n <= m < |states|
    ensures steps[n].t < |states[n].threads| && states[n].threads[steps[n].t].Loaded?
    ensures var th := states[n].threads[steps[n].t];
            && th.align > 0
            && (o % th.align == 0 && (th.seen <= o || states[m].current <= o) ==> o + th.size > limit)
  {
    assert Enabled(limit, states[n], steps[n]);
    var th := states[n].threads[steps[n].t];
    RunInv(start, limit, steps, states, n);
    assert ThreadOk(limit, th);
    SaneFits(limit, th.seen, th.size, th.align);
    AlignedIs(th.seen, th.align);
    SeenNotAhead(start, limit, steps, states, n, steps[n].t);
    PointerOnlyGrows(start, limit, steps, states, n, m);
    if o % th.align == 0 && th.seen <= o { CeilIsLeast(th.seen, o, th.align); }
  }

  /** When no thread is inside the allocator, the counters are exact. */
  lemma QuietCountersAreExact(start: nat, limit: nat, steps: seq<Step>, states: seq<Bump>, n: nat)
    requires IsRun(start, limit, steps, states) && SaneCalls(limit, steps) && n < |states|
    requires forall t :: 0 <= t < |states[n].threads| ==> states[n].threads[t].Idle?
    ensures states[n].count == |states[n].claims|
    ensures states[n].bytes == TotalSize(states[n].claims)
  {
    RunInv(start, limit, steps, states, n);
    NothingPending(states[n].threads);
  }
}
