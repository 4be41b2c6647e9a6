/** Choosing an index for a query: candidates are collected while walking the filter, scored and
    sorted.  Scores are exact. */
module IndexSelector {
  import opened Wrappers
  import opened Sorting

  /** The kinds of single-field condition that selection tells apart. */
  datatype Kind = Equality | Existence | Regex | OtherTest

  datatype Filter = Empty | Test(kind: Kind, field: string) | And(fs: seq<Filter>) | Or(fs: seq<Filter>) | Not(f: Filter)

  datatype IndexType = Single(field: string) | Compound(fields: seq<string>) | Text(field: string)

  datatype Candidate = Candidate(name: string, kind: IndexType, unique: bool, sparse: bool, score: real)

  datatype Query = Query(filter: Filter, firstSortField: Option<string>)

  predicate CanUse(c: Candidate, field: string) {
    match c.kind
    case Single(f) => f == field
    case Compound(fs) => field in fs
    case Text(f) => f == field
  }

  /** The filter refers to the field: it is one of those `get_fields` lists. */
  predicate Mentions(filter: Filter, field: string) {
    match filter
    case Empty => false
    case Test(_, f) => f == field
    case And(fs) => exists i :: 0 <= i < |fs| && Mentions(fs[i], field)
    case Or(fs) => exists i :: 0 <= i < |fs| && Mentions(fs[i], field)
    case Not(f) => Mentions(f, field)
  }

  predicate Named(cands: seq<Candidate>, name: string) {
    exists i :: 0 <= i < |cands| && cands[i].name == name
  }

  /** An available index of that name serves a field. */
  ghost predicate Serves(avail: seq<Candidate>, field: string, name: string) {
    exists i :: 0 <= i < |avail| && avail[i].name == name && CanUse(avail[i], field)
  }

  ghost predicate ServesFilter(avail: seq<Candidate>, filter: Filter, name: string) {
    exists field :: Mentions(filter, field) && Serves(avail, field, name)
  }

  /** A candidate is an available index, with its own score or with the bonus of a text index. */
  ghost predicate Collected(avail: seq<Candidate>, c: Candidate) {
    exists i :: 0 <= i < |avail| &&
      (c == avail[i] || (avail[i].kind.Text? && c == avail[i].(score := avail[i].score + 5.0)))
  }

  /** Candidates have distinct names, and all of them were collected. */
  ghost predicate Proper(avail: seq<Candidate>, cands: seq<Candidate>) {
    && (forall i :: 0 <= i < |cands| ==> Collected(avail, cands[i]))
    && (forall i, j :: 0 <= i < j < |cands| ==> cands[i].name != cands[j].name)
  }

  lemma NamedSnoc(cands: seq<Candidate>, c: Candidate, name: string)
    ensures Named(cands + [c], name) <==> Named(cands, name) || c.name == name
  {
    if Named(cands, name) {
      var i :| 0 <= i < |cands| && cands[i].name == name;
      assert (cands + [c])[i].name == name;
    }
    if c.name == name { assert (cands + [c])[|cands|].name == name; }
  }

  lemma ProperSnoc(avail: seq<Candidate>, cands: seq<Candidate>, c: Candidate)
    requires Proper(avail, cands) && Collected(avail, c) && !Named(cands, c.name)
    ensures Proper(avail, cands + [c])
  {
  }

  /** The names afterwards: those before and those in `added`. */
  ghost predicate Grown(before: seq<Candidate>, after: seq<Candidate>, added: iset<string>) {
    before <= after && forall name :: Named(after, name) <==> Named(before, name) || name in added
  }

  ghost function ServedBy(avail: seq<Candidate>, field: string): iset<string> {
    iset name | Serves(avail, field, name)
  }

  ghost function ServedByFilter(avail: seq<Candidate>, filter: Filter): iset<string> {
    iset name | ServesFilter(avail, filter, name)
  }

  method FindIndexesForField(avail: seq<Candidate>, field: string, cands: seq<Candidate>) returns (out: seq<Candidate>)
    requires Proper(avail, cands)
    ensures Proper(avail, out) && Grown(cands, out, ServedBy(avail, field))
  {
    out := cands;
    for i := 0 to |avail|
      invariant Proper(avail, out) && Grown(cands, out, ServedBy(avail[..i], field))
    {
      var index := avail[i];
      ServedSnoc(avail, i, field);
      if CanUse(index, field) && !Named(out, index.name) {
        assert Collected(avail, index);
        ProperSnoc(avail, out, index);
        forall name ensures Named(out + [index], name) <==> Named(out, name) || index.name == name {
          NamedSnoc(out, index, name);
        }
        out := out + [index];
      }
    }
    assert avail[..|avail|] == avail;
  }

  lemma ServedSnoc(avail: seq<Candidate>, i: nat, field: string)
    requires i < |avail|
    ensures ServedBy(avail[..i + 1], field) ==
            ServedBy(avail[..i], field) + if CanUse(avail[i], field) then iset{avail[i].name} else iset{}
  {
  }

  method FindTextIndexesForField(avail: seq<Candidate>, field: string, cands: seq<Candidate>) returns (out: seq<Candidate>)
    requires Proper(avail, cands)
    ensures Proper(avail, out) && cands <= out
    ensures forall name :: Named(cands, name) ==> Named(out, name)
    ensures forall name :: Named(out, name) ==> Named(cands, name) || Serves(avail, field, name)
  {
    out := cands;
    for i := 0 to |avail|
      invariant Proper(avail, out) && cands <= out
      invariant forall name :: Named(cands, name) ==> Named(out, name)
      invariant forall name :: Named(out, name) ==> Named(cands, name) || Serves(avail, field, name)
    {
      var index := avail[i];
      if index.kind.Text? && CanUse(index, field) && !Named(out, index.name) {
        var candidate := index.(score := index.score + 5.0);
        assert Collected(avail, candidate);
        ProperSnoc(avail, out, candidate);
        forall name ensures Named(out + [candidate], name) <==> Named(out, name) || candidate.name == name {
          NamedSnoc(out, candidate, name);
        }
        assert Serves(avail, field, index.name);
        out := out + [candidate];
      }
    }
  }

  function TestedFields(fs: seq<Filter>): (fields: seq<string>)
    ensures forall field :: field in fields ==> exists i :: 0 <= i < |fs| && fs[i].Test? && fs[i].field == field
  {
    if fs == [] then []
    else
      var last := fs[|fs| - 1];
      TestedFields(fs[..|fs| - 1]) + if last.Test? then [last.field] else []
  }

  function CountIn(fields: seq<string>, indexFields: seq<string>): (n: nat)
    ensures n > 0 ==> exists i :: 0 <= i < |fields| && fields[i] in indexFields
  {
    if fields == [] then 0
    else CountIn(fields[..|fields| - 1], indexFields) + if fields[|fields| - 1] in indexFields then 1 else 0
  }

  /** Every index serving a condition that stands directly under the conjunction is a candidate. */
  ghost predicate TestsServed(avail: seq<Candidate>, fs: seq<Filter>, cands: seq<Candidate>) {
    forall i, name :: 0 <= i < |fs| && fs[i].Test? && Serves(avail, fs[i].field, name) ==> Named(cands, name)
  }

  /** The pass over compound indexes adds nothing once the conditions have been served. */
  method FindCompoundIndexes(avail: seq<Candidate>, fs: seq<Filter>, cands: seq<Candidate>) returns (out: seq<Candidate>)
    ensures cands <= out
    ensures TestsServed(avail, fs, cands) ==> out == cands
  {
    out := cands;
    var fields := TestedFields(fs);
    for k := 0 to |avail|
      invariant cands <= out
      invariant TestsServed(avail, fs, cands) ==> out == cands
    {
      var index := avail[k];
      if index.kind.Compound? {
        var covered := CountIn(fields, index.kind.fields);
        if covered > 1 {
          ghost var j :| 0 <= j < |fields| && fields[j] in index.kind.fields;
          assert fields[j] in fields;
          ghost var i :| 0 <= i < |fs| && fs[i].Test? && fs[i].field == fields[j];
          assert Serves(avail, fs[i].field, index.name);
          if !Named(out, index.name) {
            out := out + [index.(score := index.score + covered as real * 2.0)];
          }
        }
      }
    }
  }

  lemma ServedByParts(avail: seq<Candidate>, fs: seq<Filter>, i: nat)
    requires i < |fs|
    ensures ServedByFilter(avail, And(fs[..i + 1])) ==
            ServedByFilter(avail, And(fs[..i])) + ServedByFilter(avail, fs[i])
  {
  }

  lemma ServedByTest(avail: seq<Candidate>, k: Kind, field: string)
    ensures ServedByFilter(avail, Test(k, field)) == ServedBy(avail, field)
  {
  }

  lemma OrLikeAnd(avail: seq<Candidate>, fs: seq<Filter>)
    ensures ServedByFilter(avail, Or(fs)) == ServedByFilter(avail, And(fs))
  {
  }

  lemma TestsAreServed(avail: seq<Candidate>, fs: seq<Filter>, before: seq<Candidate>, cands: seq<Candidate>)
    requires Grown(before, cands, ServedByFilter(avail, And(fs)))
    ensures TestsServed(avail, fs, cands)
  {
    forall i, name | 0 <= i < |fs| && fs[i].Test? && Serves(avail, fs[i].field, name) ensures Named(cands, name) {
      assert Mentions(fs[i], fs[i].field);
      assert Mentions(And(fs), fs[i].field);
      assert name in ServedByFilter(avail, And(fs));
    }
  }

  /** Walking a filter collects exactly the indexes that serve a field it mentions; no candidate
      ever carries the bonus of the compound pass. */
  method AnalyzeFilter(avail: seq<Candidate>, filter: Filter, cands: seq<Candidate>) returns (out: seq<Candidate>)
    requires Proper(avail, cands)
    ensures Proper(avail, out) && Grown(cands, out, ServedByFilter(avail, filter))
    decreases filter
  {
    out := cands;
    match filter {
      case Empty =>
      case Test(kind, field) =>
        ServedByTest(avail, kind, field);
        if kind == Regex { out := FindTextIndexesForField(avail, field, out); }
        out := FindIndexesForField(avail, field, out);
      case And(fs) =>
        for i := 0 to |fs|
          invariant Proper(avail, out) && Grown(cands, out, ServedByFilter(avail, And(fs[..i])))
        {
          ServedByParts(avail, fs, i);
          out := AnalyzeFilter(avail, fs[i], out);
        }
        assert fs[..|fs|] == fs;
        TestsAreServed(avail, fs, cands, out);
        out := FindCompoundIndexes(avail, fs, out);
      case Or(fs) =>
        for i := 0 to |fs|
          invariant Proper(avail, out) && Grown(cands, out, ServedByFilter(avail, And(fs[..i])))
        {
          ServedByParts(avail, fs, i);
          out := AnalyzeFilter(avail, fs[i], out);
        }
        assert fs[..|fs|] == fs;
        OrLikeAnd(avail, fs);
      case Not(f) =>
        out := AnalyzeFilter(avail, f, out);
        assert forall field :: Mentions(filter, field) <==> Mentions(f, field);
    }
  }

  // ---- Scoring ----

  predicate Has(filter: Filter, kind: Kind) {
    match filter
    case Empty => false
    case Test(k, _) => k == kind
    case And(fs) => exists i :: 0 <= i < |fs| && Has(fs[i], kind)
    case Or(fs) => exists i :: 0 <= i < |fs| && Has(fs[i], kind)
    case Not(f) => Has(f, kind)
  }

  predicate HelpsSort(c: Candidate, first: string) {
    match c.kind
    case Single(f) => f == first
    case Compound(fs) => fs != [] && fs[0] == first
    case Text(_) => false
  }

  /** It does so if it is on that field, or a compound index that starts with it. */
  lemma HelpsSortIff(c: Candidate, first: string)
    ensures HelpsSort(c, first) <==>
            c.kind == Single(first) || (c.kind.Compound? && exists rest :: c.kind.fields == [first] + rest)
  {
    if c.kind.Compound? && c.kind.fields != [] { assert c.kind.fields == [c.kind.fields[0]] + c.kind.fields[1..]; }
  }

  /** All conditions of a filter, wherever they stand in it. */
  function Tests(filter: Filter): (r: seq<Filter>)
    ensures forall i :: 0 <= i < |r| ==> r[i].Test?
    decreases filter, 1
  {
    match filter
    case Empty => []
    case Test(_, _) => [filter]
    case And(fs) => TestsOf(fs)
    case Or(fs) => TestsOf(fs)
    case Not(f) => Tests(f)
  }

  function TestsOf(fs: seq<Filter>): (r: seq<Filter>)
    ensures forall i :: 0 <= i < |r| ==> r[i].Test?
  {
    if fs == [] then [] else TestsOf(fs[..|fs| - 1]) + Tests(fs[|fs| - 1])
  }

  lemma {:induction false} InTestsOf(fs: seq<Filter>, t: Filter)
    ensures t in TestsOf(fs) <==> exists i :: 0 <= i < |fs| && t in Tests(fs[i])
  {
    if fs != [] {
      var n := |fs| - 1;
      InTestsOf(fs[..n], t);
      assert forall i :: 0 <= i < n ==> fs[..n][i] == fs[i];
    }
  }

  /** Asking for a kind of condition, or for a field, is asking all of them. */
  lemma {:induction false} AsksAllTests(filter: Filter, kind: Kind, field: string)
    ensures Has(filter, kind) <==> exists f :: Test(kind, f) in Tests(filter)
    ensures Mentions(filter, field) <==> exists k :: Test(k, field) in Tests(filter)
    decreases filter, 1
  {
    match filter
    case Empty =>
    case Test(k, f) => assert filter in Tests(filter);
    case Not(f) => AsksAllTests(f, kind, field);
    case And(fs) => AsksParts(filter, fs, kind, field);
    case Or(fs) => AsksParts(filter, fs, kind, field);
  }

  lemma AsksParts(filter: Filter, fs: seq<Filter>, kind: Kind, field: string)
    requires filter == And(fs) || filter == Or(fs)
    ensures Has(filter, kind) <==> exists f :: Test(kind, f) in Tests(filter)
    ensures Mentions(filter, field) <==> exists k :: Test(k, field) in Tests(filter)
    decreases filter, 0
  {
    forall i | 0 <= i < |fs|
      ensures Has(fs[i], kind) <==> exists f :: Test(kind, f) in Tests(fs[i])
      ensures Mentions(fs[i], field) <==> exists k :: Test(k, field) in Tests(fs[i])
    {
      AsksAllTests(fs[i], kind, field);
    }
    forall t ensures t in Tests(filter) <==> exists i :: 0 <= i < |fs| && t in Tests(fs[i]) { InTestsOf(fs, t); }
  }

  function Score(c: Candidate, q: Query): real {
    c.score
    + (if c.unique && Has(q.filter, Equality) then 10.0 else 0.0)
    + (if q.firstSortField.Some? && HelpsSort(c, q.firstSortField.value) then 5.0 else 0.0)
    - (if c.sparse && !Has(q.filter, Existence) then 2.0 else 0.0)
  }

  predicate Sorts(c: Candidate, q: Query) {
    q.firstSortField.Some? && HelpsSort(c, q.firstSortField.value)
  }

  predicate Risky(c: Candidate, q: Query) {
    c.sparse && !Has(q.filter, Existence)
  }

  /** Uniqueness decides first, if the filter tests for equality; then the sort field; then the
      doubt about a sparse index when the filter does not test for existence. */
  predicate Beats(a: Candidate, b: Candidate, q: Query) {
    if Has(q.filter, Equality) && a.unique != b.unique then a.unique
    else if Sorts(a, q) != Sorts(b, q) then Sorts(a, q)
    else !Risky(a, q) && Risky(b, q)
  }

  /** Between indexes that start equal the scores say just that. */
  lemma BeatsIff(a: Candidate, b: Candidate, q: Query)
    requires a.score == b.score
    ensures Score(a, q) > Score(b, q) <==> Beats(a, b, q)
    ensures Score(a, q) == Score(b, q) <==> !Beats(a, b, q) && !Beats(b, a, q)
  {
  }

  function HigherScore(): (before: (Candidate, Candidate) -> bool) {
    (a: Candidate, b: Candidate) => a.score > b.score
  }

  function Scored(cands: seq<Candidate>, q: Query): (r: seq<Candidate>)
    ensures |r| == |cands|
    ensures forall i :: 0 <= i < |r| ==> r[i] == cands[i].(score := Score(cands[i], q))
  {
    seq(|cands|, i requires 0 <= i < |cands| => cands[i].(score := Score(cands[i], q)))
  }

  ghost predicate Best(cands: seq<Candidate>, q: Query, i: int) {
    0 <= i < |cands| && forall j :: 0 <= j < |cands| ==> Score(cands[j], q) <= Score(cands[i], q)
  }

  /** No candidate that started with the same score beats it. */
  ghost predicate Unbeaten(cands: seq<Candidate>, q: Query, i: int)
    requires 0 <= i < |cands|
  {
    forall j :: 0 <= j < |cands| && cands[j].score == cands[i].score ==> !Beats(cands[j], cands[i], q)
  }

  /** The first after sorting is one of the best. */
  lemma FirstIsBest(cands: seq<Candidate>, q: Query) returns (i: nat)
    requires cands != []
    ensures Best(cands, q, i) && SortBy(HigherScore(), Scored(cands, q))[0].name == cands[i].name
  {
    var scored := Scored(cands, q);
    var sorted := SortBy(HigherScore(), scored);
    SortsBy(HigherScore(), scored);
    assert sorted[0] in multiset(scored);
    i :| 0 <= i < |scored| && scored[i] == sorted[0];
    forall j | 0 <= j < |cands| ensures Score(cands[j], q) <= Score(cands[i], q) {
      assert scored[j] in multiset(sorted);
      var k :| 0 <= k < |sorted| && sorted[k] == scored[j];
      assert k > 0 ==> !HigherScore()(sorted[k], sorted[0]);
    }
  }

  /** An index is chosen exactly when an available one serves a field of the filter; the chosen one
      serves such a field, and no collected candidate scores higher. */
  method SelectIndex(avail: seq<Candidate>, q: Query) returns (r: Option<string>, ghost cands: seq<Candidate>)
    ensures r.Some? <==> exists name :: ServesFilter(avail, q.filter, name)
    ensures r.Some? ==> ServesFilter(avail, q.filter, r.value)
    ensures Proper(avail, cands) && forall name :: Named(cands, name) <==> ServesFilter(avail, q.filter, name)
    ensures r.Some? ==> exists i :: Best(cands, q, i) && cands[i].name == r.value && Unbeaten(cands, q, i)
  {
    if avail == [] { return None, []; }
    var found := AnalyzeFilter(avail, q.filter, []);
    cands := found;
    assert forall name :: Named(found, name) <==> ServesFilter(avail, q.filter, name) by {
      assert forall name :: name in ServedByFilter(avail, q.filter) <==> ServesFilter(avail, q.filter, name);
    }
    if found == [] {
      assert forall name :: ServesFilter(avail, q.filter, name) ==> Named(found, name);
      return None, cands;
    }
    ghost var i := FirstIsBest(found, q);
    assert Named(found, found[i].name);
    forall j | 0 <= j < |found| && found[j].score == found[i].score ensures !Beats(found[j], found[i], q) {
      BeatsIff(found[j], found[i], q);
    }
    r := Some(SortBy(HigherScore(), Scored(found, q))[0].name);
  }
}
