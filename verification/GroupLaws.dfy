/** Laws of the $group stage: nothing is lost or counted twice, the average lies between the
    extremes, and the order of the input does not matter. */
module GroupLaws {
  import opened Wrappers
  import opened Sorting
  import opened Grouping

  // ---- What one group's state means ----

  /** The numbers the documents hold in a field; other values count as zero. */
  function Numbers(field: string, docs: seq<Doc>): (ns: seq<real>) {
    if docs == [] then []
    else Numbers(field, docs[..|docs| - 1]) +
         (if field !in docs[|docs| - 1] then []
          else match docs[|docs| - 1][field]
               case Number(n) => [n]
               case Other => [0.0])
  }

  function Total(ns: seq<real>): real {
    if ns == [] then 0.0 else Total(ns[..|ns| - 1]) + ns[|ns| - 1]
  }

  ghost predicate IsLeast(m: real, ns: seq<real>) {
    m in ns && forall i :: 0 <= i < |ns| ==> m <= ns[i]
  }

  ghost predicate IsGreatest(m: real, ns: seq<real>) {
    m in ns && forall i :: 0 <= i < |ns| ==> ns[i] <= m
  }

  /** Each accumulator reports what its name says about the numbers of its field. */
  ghost predicate Means(op: Op, docs: seq<Doc>, s: State) {
    match op
    case Sum(o) => s.sum == if SumField(o).Some? then Total(Numbers(SumField(o).value, docs)) else 0.0
    case Count => s.count == |docs|
    case Avg(f) => s.count == |Numbers(f, docs)| && s.sum == Total(Numbers(f, docs))
    case Min(f) => if Numbers(f, docs) == [] then s.min == None else s.min.Some? && IsLeast(s.min.value, Numbers(f, docs))
    case Max(f) => if Numbers(f, docs) == [] then s.max == None else s.max.Some? && IsGreatest(s.max.value, Numbers(f, docs))
  }

  lemma TotalSnoc(ns: seq<real>, n: real)
    ensures Total(ns + [n]) == Total(ns) + n
  {
  }

  lemma {:induction false} SumMeans(o: Option<string>, docs: seq<Doc>)
    ensures Means(Sum(o), docs, Accumulated(Sum(o), docs))
  {
    if docs != [] {
      var n, f := |docs| - 1, SumField(o);
      SumMeans(o, docs[..n]);
      if f.Some? && f.value in docs[n] {
        TotalSnoc(Numbers(f.value, docs[..n]), ToNumber(docs[n][f.value]));
        assert Numbers(f.value, docs) == Numbers(f.value, docs[..n]) + [ToNumber(docs[n][f.value])];
      } else if f.Some? {
        assert Numbers(f.value, docs) == Numbers(f.value, docs[..n]);
      }
    }
  }

  lemma {:induction false} CountMeans(docs: seq<Doc>)
    ensures Means(Count, docs, Accumulated(Count, docs))
  {
    if docs != [] { CountMeans(docs[..|docs| - 1]); }
  }

  lemma {:induction false} AvgMeans(f: string, docs: seq<Doc>)
    ensures Means(Avg(f), docs, Accumulated(Avg(f), docs))
  {
    if docs != [] {
      var n := |docs| - 1;
      AvgMeans(f, docs[..n]);
      if f in docs[n] {
        TotalSnoc(Numbers(f, docs[..n]), ToNumber(docs[n][f]));
        assert Numbers(f, docs) == Numbers(f, docs[..n]) + [ToNumber(docs[n][f])];
      } else {
        assert Numbers(f, docs) == Numbers(f, docs[..n]);
      }
    }
  }

  lemma LeastSnoc(m: Option<real>, ns: seq<real>, x: real)
    requires if ns == [] then m == None else m.Some? && IsLeast(m.value, ns)
    ensures Lesser(m, x).Some? && IsLeast(Lesser(m, x).value, ns + [x])
  {
  }

  lemma GreatestSnoc(m: Option<real>, ns: seq<real>, x: real)
    requires if ns == [] then m == None else m.Some? && IsGreatest(m.value, ns)
    ensures Greater(m, x).Some? && IsGreatest(Greater(m, x).value, ns + [x])
  {
  }

  lemma {:induction false} MinMeans(f: string, docs: seq<Doc>)
    ensures Means(Min(f), docs, Accumulated(Min(f), docs))
  {
    if docs != [] {
      var n := |docs| - 1;
      MinMeans(f, docs[..n]);
      if f in docs[n] {
        LeastSnoc(Accumulated(Min(f), docs[..n]).min, Numbers(f, docs[..n]), ToNumber(docs[n][f]));
        assert Numbers(f, docs) == Numbers(f, docs[..n]) + [ToNumber(docs[n][f])];
      }
    }
  }

  lemma {:induction false} MaxMeans(f: string, docs: seq<Doc>)
    ensures Means(Max(f), docs, Accumulated(Max(f), docs))
  {
    if docs != [] {
      var n := |docs| - 1;
      MaxMeans(f, docs[..n]);
      if f in docs[n] {
        GreatestSnoc(Accumulated(Max(f), docs[..n]).max, Numbers(f, docs[..n]), ToNumber(docs[n][f]));
        assert Numbers(f, docs) == Numbers(f, docs[..n]) + [ToNumber(docs[n][f])];
      }
    }
  }

  lemma AccumulatedMeans(op: Op, docs: seq<Doc>)
    ensures Means(op, docs, Accumulated(op, docs))
  {
    match op
    case Sum(o) => SumMeans(o, docs);
    case Count => CountMeans(docs);
    case Avg(f) => AvgMeans(f, docs);
    case Min(f) => MinMeans(f, docs);
    case Max(f) => MaxMeans(f, docs);
  }

  /** The figure an accumulator reports of a group's documents: the sum of the numbers of the field
      behind the dollar sign, the number of documents, the quotient of sum and number, the least, the
      greatest; zero where there is nothing to add, divide or compare. */
  ghost predicate Reports(op: Op, docs: seq<Doc>, r: real) {
    match op
    case Sum(o) =>
      && (forall f {:trigger Numbers(f, docs)} :: o == Some("$" + f) ==> r == Total(Numbers(f, docs)))
      && (o.None? || o.value == "" || o.value[0] != '$' ==> r == 0.0)
    case Count => r == |docs| as real
    case Avg(f) => if Numbers(f, docs) == [] then r == 0.0 else r * |Numbers(f, docs)| as real == Total(Numbers(f, docs))
    case Min(f) => if Numbers(f, docs) == [] then r == 0.0 else IsLeast(r, Numbers(f, docs))
    case Max(f) => if Numbers(f, docs) == [] then r == 0.0 else IsGreatest(r, Numbers(f, docs))
  }

  lemma ReportIsFigure(op: Op, docs: seq<Doc>)
    ensures Reports(op, docs, Report(Accumulated(op, docs)))
  {
    AccumulatedMeans(op, docs);
    match op
    case Sum(o) =>
      forall f | o == Some("$" + f) ensures Report(Accumulated(op, docs)) == Total(Numbers(f, docs)) {
        assert SumField(o) == Some(f) by { assert ("$" + f)[1..] == f; }
      }
    case Avg(f) =>
      var ns := Numbers(f, docs);
      if ns != [] { Quotient(Total(ns), |ns| as real); }
    case _ =>
  }

  lemma Quotient(total: real, n: real)
    requires n > 0.0
    ensures total / n * n == total
  {
  }

  lemma {:induction false} TotalBetween(ns: seq<real>, lo: real, hi: real)
    requires forall i :: 0 <= i < |ns| ==> lo <= ns[i] <= hi
    ensures lo * |ns| as real <= Total(ns) <= hi * |ns| as real
  {
    if ns != [] {
      TotalBetween(ns[..|ns| - 1], lo, hi);
      assert lo * |ns| as real == lo * (|ns| - 1) as real + lo;
      assert hi * |ns| as real == hi * (|ns| - 1) as real + hi;
    }
  }

  lemma QuotientBetween(lo: real, hi: real, n: real, total: real)
    requires n > 0.0 && lo * n <= total <= hi * n
    ensures lo <= total / n <= hi
  {
    var q := total / n;
    assert q * n == total;
    assert (q - lo) * n >= 0.0 && (hi - q) * n >= 0.0;
  }

  /** Where a field occurs in a group, its minimum is at most its average, and that at most its
      maximum. */
  lemma AverageBetween(f: string, docs: seq<Doc>)
    requires exists i :: 0 <= i < |docs| && f in docs[i]
    ensures Report(Accumulated(Min(f), docs)) <= Report(Accumulated(Avg(f), docs)) <= Report(Accumulated(Max(f), docs))
  {
    OccursIff(f, docs);
    MinMeans(f, docs);
    AvgMeans(f, docs);
    MaxMeans(f, docs);
    NumbersBetween(Numbers(f, docs), Accumulated(Min(f), docs).min.value, Accumulated(Max(f), docs).max.value);
  }

  lemma NumbersBetween(ns: seq<real>, lo: real, hi: real)
    requires ns != [] && IsLeast(lo, ns) && IsGreatest(hi, ns)
    ensures lo <= Total(ns) / |ns| as real <= hi
  {
    TotalBetween(ns, lo, hi);
    QuotientBetween(lo, hi, |ns| as real, Total(ns));
  }

  lemma {:induction false} OccursIff(f: string, docs: seq<Doc>)
    ensures Numbers(f, docs) != [] <==> exists i :: 0 <= i < |docs| && f in docs[i]
  {
    if docs != [] {
      var n := |docs| - 1;
      OccursIff(f, docs[..n]);
      if Numbers(f, docs[..n]) != [] {
        var i :| 0 <= i < n && f in docs[..n][i];
        assert f in docs[i];
      }
    }
  }

  // ---- The order of the input ----

  lemma AddCommutes(s: State, d: Doc, e: Doc)
    ensures Add(Add(s, d), e) == Add(Add(s, e), d)
  {
  }

  lemma AccumulatedSnoc(op: Op, docs: seq<Doc>, d: Doc)
    ensures Accumulated(op, docs + [d]) == Add(Accumulated(op, docs), d)
  {
  }

  /** A document may as well come last. */
  lemma {:induction false} AccumulatedLast(op: Op, a: seq<Doc>, d: Doc, b: seq<Doc>)
    ensures Accumulated(op, a + [d] + b) == Add(Accumulated(op, a + b), d)
  {
    if b == [] {
      assert a + [d] + b == a + [d] && a + b == a;
      AccumulatedSnoc(op, a, d);
    } else {
      var n := |b| - 1;
      AccumulatedLast(op, a, d, b[..n]);
      assert a + [d] + b == (a + [d] + b[..n]) + [b[n]];
      assert a + b == (a + b[..n]) + [b[n]];
      AccumulatedSnoc(op, a + [d] + b[..n], b[n]);
      AccumulatedSnoc(op, a + b[..n], b[n]);
      AddCommutes(Accumulated(op, a + b[..n]), b[n], d);
    }
  }

  lemma {:induction false} AccumulatedPermutes(op: Op, a: seq<Doc>, b: seq<Doc>)
    requires multiset(a) == multiset(b)
    ensures Accumulated(op, a) == Accumulated(op, b)
  {
    if a == [] {
      assert |b| == |multiset(b)| == 0;
    } else {
      var n := |a| - 1;
      var i := PermutationWithout(a, b);
      assert b == b[..i] + [b[i]] + b[i + 1..];
      AccumulatedPermutes(op, a[..n], b[..i] + b[i + 1..]);
      AccumulatedLast(op, b[..i], b[i], b[i + 1..]);
    }
  }

  lemma {:induction false} KeepCounts(p: Doc -> bool, s: seq<Doc>, x: Doc)
    ensures multiset(Keep(p, s))[x] == if p(x) then multiset(s)[x] else 0
  {
    if s != [] {
      KeepCounts(p, s[1..], x);
      assert s == [s[0]] + s[1..];
    }
  }

  lemma {:induction false} KeysAreMembers(keyOf: Doc -> string, docs: seq<Doc>, k: string)
    ensures k in KeysOf(keyOf, docs) <==> exists d :: d in multiset(docs) && keyOf(d) == k
  {
    if docs != [] {
      var n := |docs| - 1;
      KeysAreMembers(keyOf, docs[..n], k);
      assert docs == docs[..n] + [docs[n]];
    }
  }

  lemma GroupPermutes(keyOf: Doc -> string, a: seq<Doc>, b: seq<Doc>, k: string)
    requires multiset(a) == multiset(b)
    ensures multiset(GroupOf(keyOf, a, k)) == multiset(GroupOf(keyOf, b, k))
  {
    forall x ensures multiset(GroupOf(keyOf, a, k))[x] == multiset(GroupOf(keyOf, b, k))[x] {
      KeepCounts(HasKey(keyOf, k), a, x);
      KeepCounts(HasKey(keyOf, k), b, x);
    }
  }

  lemma GroupShuffled(ops: map<string, Op>, g: Group, a: seq<Doc>, b: seq<Doc>)
    requires multiset(a) == multiset(b) && GroupRight(ops, g, a)
    ensures GroupRight(ops, g, b)
  {
    forall f | f in ops ensures g[f] == Accumulated(ops[f], b) {
      AccumulatedPermutes(ops[f], a, b);
    }
  }

  /** Shuffling the input changes neither whether the stage fails nor any group. */
  lemma ShuffleChangesNothing(keyOf: Doc -> string, ops: map<string, Op>, a: seq<Doc>, b: seq<Doc>,
      groups: map<string, Group>)
    requires multiset(a) == multiset(b) && GroupsRight(keyOf, ops, a, groups)
    ensures KeysOf(keyOf, a) == KeysOf(keyOf, b)
    ensures GroupsRight(keyOf, ops, b, groups)
  {
    forall k ensures k in KeysOf(keyOf, a) <==> k in KeysOf(keyOf, b) {
      KeysAreMembers(keyOf, a, k);
      KeysAreMembers(keyOf, b, k);
    }
    forall k | k in groups ensures GroupRight(ops, groups[k], GroupOf(keyOf, b, k)) {
      GroupPermutes(keyOf, a, b, k);
      GroupShuffled(ops, groups[k], GroupOf(keyOf, a, k), GroupOf(keyOf, b, k));
    }
  }

  // ---- Conservation ----

  ghost function SumOver(keys: set<string>, f: string -> real): real {
    if keys == {} then 0.0
    else
      var k :| k in keys;
      f(k) + SumOver(keys - {k}, f)
  }

  lemma {:induction false} SumOverPick(keys: set<string>, f: string -> real, k: string)
    requires k in keys
    ensures SumOver(keys, f) == f(k) + SumOver(keys - {k}, f)
  {
    var c :| c in keys && SumOver(keys, f) == f(c) + SumOver(keys - {c}, f);
    if c != k {
      SumOverPick(keys - {c}, f, k);
      SumOverPick(keys - {k}, f, c);
      assert keys - {c} - {k} == keys - {k} - {c};
    }
  }

  lemma {:induction false} SumOverSame(keys: set<string>, f: string -> real, g: string -> real)
    requires forall k :: k in keys ==> f(k) == g(k)
    ensures SumOver(keys, f) == SumOver(keys, g)
  {
    if keys != {} {
      var k :| k in keys;
      SumOverSame(keys - {k}, f, g);
      SumOverPick(keys, f, k);
      SumOverPick(keys, g, k);
    }
  }

  /** One key's share grows by delta, the others stay: so does the sum, by delta. */
  lemma SumOverChange(keys: set<string>, f: string -> real, g: string -> real, k: string, delta: real)
    requires forall j :: j in keys && j != k ==> f(j) == g(j)
    requires g(k) == f(k) + delta && (k !in keys ==> f(k) == 0.0)
    ensures SumOver(keys + {k}, g) == SumOver(keys, f) + delta
  {
    SumOverPick(keys + {k}, g, k);
    assert keys + {k} - {k} == keys - {k};
    SumOverSame(keys - {k}, f, g);
    if k in keys {
      SumOverPick(keys, f, k);
    } else {
      assert keys - {k} == keys;
    }
  }

  /** The group's share of a quantity that documents add to one by one. */
  function SumShare(op: Op, keyOf: Doc -> string, docs: seq<Doc>): (share: string -> real) {
    (k: string) => Accumulated(op, GroupOf(keyOf, docs, k)).sum
  }

  function CountShare(op: Op, keyOf: Doc -> string, docs: seq<Doc>): (share: string -> real) {
    (k: string) => Accumulated(op, GroupOf(keyOf, docs, k)).count as real
  }

  lemma AddsTheSame(op: Op, s: State, t: State, d: Doc)
    requires s.op == t.op
    ensures Add(s, d).sum - s.sum == Add(t, d).sum - t.sum
    ensures Add(s, d).count - s.count == Add(t, d).count - t.count
  {
  }

  lemma ShareGrows(op: Op, keyOf: Doc -> string, docs: seq<Doc>, d: Doc, k: string)
    ensures Accumulated(op, GroupOf(keyOf, docs + [d], k)) ==
            if keyOf(d) == k then Add(Accumulated(op, GroupOf(keyOf, docs, k)), d)
            else Accumulated(op, GroupOf(keyOf, docs, k))
  {
    GroupGrows(keyOf, docs, d, k);
    if keyOf(d) == k {
      AccumulatedSnoc(op, GroupOf(keyOf, docs, k), d);
    } else {
      assert GroupOf(keyOf, docs + [d], k) == GroupOf(keyOf, docs, k);
    }
  }

  lemma SumsStep(op: Op, keyOf: Doc -> string, docs: seq<Doc>, d: Doc)
    ensures SumOver(KeysOf(keyOf, docs + [d]), SumShare(op, keyOf, docs + [d])) ==
            SumOver(KeysOf(keyOf, docs), SumShare(op, keyOf, docs)) + Add(Fresh(op), d).sum
  {
    var key, f, g := keyOf(d), SumShare(op, keyOf, docs), SumShare(op, keyOf, docs + [d]);
    KeysSnoc(keyOf, docs, d);
    forall k ensures g(k) == f(k) + if k == key then Add(Fresh(op), d).sum else 0.0 {
      ShareGrows(op, keyOf, docs, d, k);
      AddsTheSame(op, Accumulated(op, GroupOf(keyOf, docs, k)), Fresh(op), d);
    }
    if key !in KeysOf(keyOf, docs) { NoGroupYet(keyOf, docs, key); }
    SumOverChange(KeysOf(keyOf, docs), f, g, key, Add(Fresh(op), d).sum);
  }

  lemma CountsStep(op: Op, keyOf: Doc -> string, docs: seq<Doc>, d: Doc)
    ensures SumOver(KeysOf(keyOf, docs + [d]), CountShare(op, keyOf, docs + [d])) ==
            SumOver(KeysOf(keyOf, docs), CountShare(op, keyOf, docs)) + Add(Fresh(op), d).count as real
  {
    var key, f, g := keyOf(d), CountShare(op, keyOf, docs), CountShare(op, keyOf, docs + [d]);
    KeysSnoc(keyOf, docs, d);
    forall k ensures g(k) == f(k) + if k == key then Add(Fresh(op), d).count as real else 0.0 {
      ShareGrows(op, keyOf, docs, d, k);
      AddsTheSame(op, Accumulated(op, GroupOf(keyOf, docs, k)), Fresh(op), d);
    }
    if key !in KeysOf(keyOf, docs) { NoGroupYet(keyOf, docs, key); }
    SumOverChange(KeysOf(keyOf, docs), f, g, key, Add(Fresh(op), d).count as real);
  }

  /** The sums of the groups add up to the sum over all documents, and so do the counts: for the
      counting accumulator, to the number of documents. */
  lemma {:induction false} GroupsConserve(op: Op, keyOf: Doc -> string, docs: seq<Doc>)
    ensures SumOver(KeysOf(keyOf, docs), SumShare(op, keyOf, docs)) == Accumulated(op, docs).sum
    ensures SumOver(KeysOf(keyOf, docs), CountShare(op, keyOf, docs)) == Accumulated(op, docs).count as real
    ensures op == Count ==> SumOver(KeysOf(keyOf, docs), CountShare(op, keyOf, docs)) == |docs| as real
  {
    CountMeans(docs);
    if docs != [] {
      var rest, d := docs[..|docs| - 1], docs[|docs| - 1];
      assert docs == rest + [d];
      GroupsConserve(op, keyOf, rest);
      SumsStep(op, keyOf, rest, d);
      CountsStep(op, keyOf, rest, d);
      AddsTheSame(op, Accumulated(op, rest), Fresh(op), d);
    }
  }

  // ---- The output documents ----

  datatype Out = Key(text: string) | Figure(n: real)

  function ToDocument(key: string, g: Group): (d: map<string, Out>) {
    map f | f in {"_id"} + g.Keys :: if f in g then Figure(Report(g[f])) else Key(key)
  }

  lemma SameOutputIff(k: string, g: Group, l: string, h: Group)
    requires g.Keys == h.Keys
    ensures ToDocument(k, g) == ToDocument(l, h) <==>
            (k == l || "_id" in g) && forall f :: f in g ==> Report(g[f]) == Report(h[f])
  {
    var d, e := ToDocument(k, g), ToDocument(l, h);
    if d == e {
      forall f | f in g ensures Report(g[f]) == Report(h[f]) {
        assert d[f] == Figure(Report(g[f])) && e[f] == Figure(Report(h[f]));
      }
      assert "_id" !in g ==> d["_id"] == Key(k) && e["_id"] == Key(l);
    }
  }

  /** The documents that come out are named after their groups exactly when no accumulator is named
      _id (or nothing came in): one that is overwrites the group's key. Two groups then come out the
      same exactly if they agree in every figure; otherwise never. */
  lemma OutputNamesGroupIff(keyOf: Doc -> string, ops: map<string, Op>, docs: seq<Doc>, groups: map<string, Group>)
    requires GroupsRight(keyOf, ops, docs, groups)
    ensures (forall k :: k in groups ==> ToDocument(k, groups[k])["_id"] == Key(k)) <==> "_id" !in ops || docs == []
    ensures forall k, l :: k in groups && l in groups ==>
              (ToDocument(k, groups[k]) == ToDocument(l, groups[l]) <==>
                 k == l || ("_id" in ops && forall f :: f in ops ==> Report(groups[k][f]) == Report(groups[l][f])))
  {
    if docs != [] {
      var k := keyOf(docs[|docs| - 1]);
      assert k in groups && GroupRight(ops, groups[k], GroupOf(keyOf, docs, k));
    }
    forall k, l | k in groups && l in groups
      ensures ToDocument(k, groups[k]) == ToDocument(l, groups[l]) <==>
              k == l || ("_id" in ops && forall f :: f in ops ==> Report(groups[k][f]) == Report(groups[l][f]))
    {
      assert GroupRight(ops, groups[k], GroupOf(keyOf, docs, k)) && GroupRight(ops, groups[l], GroupOf(keyOf, docs, l));
      SameOutputIff(k, groups[k], l, groups[l]);
    }
  }

  /** And under its own name each accumulator puts the figure of its group. */
  lemma OutputFigures(keyOf: Doc -> string, ops: map<string, Op>, docs: seq<Doc>, groups: map<string, Group>,
                      k: string, f: string)
    requires GroupsRight(keyOf, ops, docs, groups) && k in groups && f in ops
    ensures var out := ToDocument(k, groups[k]);
            f in out && out[f].Figure? && Reports(ops[f], GroupOf(keyOf, docs, k), out[f].n)
  {
    assert GroupRight(ops, groups[k], GroupOf(keyOf, docs, k));
    ReportIsFigure(ops[f], GroupOf(keyOf, docs, k));
  }
}
