/** A stable sort by a strict weak order, and how it meets filtering. */
module Sorting {

  /** `before` is asymmetric, and "not after" is transitive. */
  ghost predicate WeakOrder<T(!new)>(before: (T, T) -> bool) {
    && (forall a, b :: before(a, b) ==> !before(b, a))
    && (forall a, b, c :: !before(b, a) && !before(c, b) ==> !before(c, a))
  }

  function InsertInto<T>(before: (T, T) -> bool, x: T, s: seq<T>): (r: seq<T>)
    ensures |r| == |s| + 1
  {
    if s == [] || !before(s[0], x) then [x] + s
    else [s[0]] + InsertInto(before, x, s[1..])
  }

  function SortBy<T>(before: (T, T) -> bool, s: seq<T>): (r: seq<T>)
    ensures |r| == |s|
  {
    if s == [] then [] else InsertInto(before, s[0], SortBy(before, s[1..]))
  }

  ghost predicate Ordered<T>(before: (T, T) -> bool, s: seq<T>) {
    forall i, j :: 0 <= i < j < |s| ==> !before(s[j], s[i])
  }

  ghost predicate NoneBefore<T>(before: (T, T) -> bool, s: seq<T>, x: T) {
    forall i :: 0 <= i < |s| ==> !before(s[i], x)
  }

  lemma {:induction false} InsertElements<T>(before: (T, T) -> bool, x: T, s: seq<T>)
    ensures multiset(InsertInto(before, x, s)) == multiset(s) + multiset{x}
  {
    if s != [] {
      assert s == [s[0]] + s[1..];
      InsertElements(before, x, s[1..]);
    }
  }

  lemma ConsOrdered<T>(before: (T, T) -> bool, x: T, s: seq<T>)
    requires Ordered(before, s) && NoneBefore(before, s, x)
    ensures Ordered(before, [x] + s)
  {
  }

  lemma HeadFirst<T(!new)>(before: (T, T) -> bool, x: T, s: seq<T>)
    requires WeakOrder(before) && Ordered(before, s) && s != [] && !before(s[0], x)
    ensures NoneBefore(before, s, x)
  {
  }

  lemma {:induction false} InsertNoneBefore<T>(before: (T, T) -> bool, x: T, s: seq<T>, y: T)
    requires NoneBefore(before, s, y) && !before(x, y)
    ensures NoneBefore(before, InsertInto(before, x, s), y)
  {
    if s != [] && before(s[0], x) {
      InsertNoneBefore(before, x, s[1..], y);
    }
  }

  lemma {:induction false} InsertOrdered<T(!new)>(before: (T, T) -> bool, x: T, s: seq<T>)
    requires WeakOrder(before) && Ordered(before, s)
    ensures Ordered(before, InsertInto(before, x, s))
  {
    if s == [] {
    } else if before(s[0], x) {
      InsertOrdered(before, x, s[1..]);
      InsertNoneBefore(before, x, s[1..], s[0]);
      ConsOrdered(before, s[0], InsertInto(before, x, s[1..]));
    } else {
      HeadFirst(before, x, s);
      ConsOrdered(before, x, s);
    }
  }

  /** The sort permutes its input, and puts nothing behind something it should come before. */
  lemma {:induction false} SortsBy<T(!new)>(before: (T, T) -> bool, s: seq<T>)
    requires WeakOrder(before)
    ensures Ordered(before, SortBy(before, s)) && multiset(SortBy(before, s)) == multiset(s)
  {
    if s != [] {
      assert s == [s[0]] + s[1..];
      SortsBy(before, s[1..]);
      InsertOrdered(before, s[0], SortBy(before, s[1..]));
      InsertElements(before, s[0], SortBy(before, s[1..]));
    }
  }

  // ---- Filtering ----

  function Keep<T>(p: T -> bool, s: seq<T>): (r: seq<T>) {
    if s == [] then [] else (if p(s[0]) then [s[0]] else []) + Keep(p, s[1..])
  }

  lemma KeepCons<T>(p: T -> bool, x: T, s: seq<T>)
    ensures Keep(p, [x] + s) == (if p(x) then [x] + Keep(p, s) else Keep(p, s))
  {
  }

  lemma Regroup<T>(a: seq<T>, b: seq<T>, c: seq<T>)
    ensures a + b + c == a + (b + c)
  {
  }

  lemma {:induction false} KeepJoins<T>(p: T -> bool, s: seq<T>, t: seq<T>)
    ensures Keep(p, s + t) == Keep(p, s) + Keep(p, t)
  {
    if s == [] {
      assert s + t == t;
    } else {
      var h, rest := [s[0]], s[1..];
      assert s == h + rest;
      KeepJoins(p, rest, t);
      KeepCons(p, s[0], rest);
      calc {
        Keep(p, s + t);
        { Regroup(h, rest, t); }
        Keep(p, h + (rest + t));
        { KeepCons(p, s[0], rest + t); }
        (if p(s[0]) then h + (Keep(p, rest) + Keep(p, t)) else Keep(p, rest) + Keep(p, t));
        { Regroup(h, Keep(p, rest), Keep(p, t)); }
        Keep(p, s) + Keep(p, t);
      }
    }
  }

  lemma {:induction false} KeepNoneBefore<T>(before: (T, T) -> bool, p: T -> bool, s: seq<T>, x: T)
    requires NoneBefore(before, s, x)
    ensures NoneBefore(before, Keep(p, s), x)
  {
    if s != [] {
      KeepNoneBefore(before, p, s[1..], x);
    }
  }

  lemma SortCons<T>(before: (T, T) -> bool, x: T, s: seq<T>)
    ensures SortBy(before, [x] + s) == InsertInto(before, x, SortBy(before, s))
  {
  }

  lemma InsertBehind<T>(before: (T, T) -> bool, x: T, h: T, s: seq<T>)
    requires before(h, x)
    ensures InsertInto(before, x, [h] + s) == [h] + InsertInto(before, x, s)
  {
  }

  lemma {:induction false} KeepInserted<T(!new)>(before: (T, T) -> bool, p: T -> bool, x: T, s: seq<T>)
    requires WeakOrder(before) && Ordered(before, s)
    ensures Keep(p, InsertInto(before, x, s)) ==
            if p(x) then InsertInto(before, x, Keep(p, s)) else Keep(p, s)
  {
    if s == [] {
    } else if before(s[0], x) {
      var h, t := s[0], s[1..];
      assert s == [h] + t;
      KeepInserted(before, p, x, t);
      KeepCons(p, h, t);
      KeepCons(p, h, InsertInto(before, x, t));
      InsertBehind(before, x, h, t);
      InsertBehind(before, x, h, Keep(p, t));
    } else {
      HeadFirst(before, x, s);
      KeepNoneBefore(before, p, s, x);
      KeepCons(p, x, s);
    }
  }

  /** Filtering before the sort or after it comes to the same. */
  lemma {:induction false} KeepSorted<T(!new)>(before: (T, T) -> bool, p: T -> bool, s: seq<T>)
    requires WeakOrder(before)
    ensures SortBy(before, Keep(p, s)) == Keep(p, SortBy(before, s))
  {
    if s != [] {
      var h, t := s[0], s[1..];
      assert s == [h] + t;
      KeepSorted(before, p, t);
      SortsBy(before, t);
      KeepInserted(before, p, h, SortBy(before, t));
      KeepCons(p, h, t);
      SortCons(before, h, t);
      SortCons(before, h, Keep(p, t));
    }
  }

  /** The rest of a permutation without one shared element is a permutation of the other rest. */
  lemma PermutationWithout<T>(a: seq<T>, b: seq<T>) returns (i: nat)
    requires multiset(a) == multiset(b) && a != []
    ensures i < |b| && b[i] == a[|a| - 1]
    ensures multiset(a[..|a| - 1]) == multiset(b[..i] + b[i + 1..])
  {
    var n := |a| - 1;
    assert a[n] in multiset(b);
    i :| 0 <= i < |b| && b[i] == a[n];
    assert a == a[..n] + [a[n]];
    assert b == b[..i] + [b[i]] + b[i + 1..];
    assert multiset(a[..n]) == multiset(a) - multiset{a[n]};
    assert multiset(b[..i] + b[i + 1..]) == multiset(b) - multiset{b[i]};
  }
}
