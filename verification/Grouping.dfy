/** The $group stage: documents are sorted into groups by a key and accumulated group by group.
    Numbers are exact.  The text of a group key is an arbitrary function of the document. */
module Grouping {
  import opened Wrappers
  import opened Sorting

  datatype GroupError = TooManyGroups

  datatype Value = Number(n: real) | Other
  type Doc = map<string, Value>

  /** The operand of a sum is a JSON value, here the string it is, if it is one. */
  datatype Op = Sum(operand: Option<string>) | Count | Avg(field: string) | Min(field: string) | Max(field: string)

  datatype State = State(op: Op, sum: real, count: nat, min: Option<real>, max: Option<real>)

  function Fresh(op: Op): State {
    State(op, 0.0, 0, None, None)
  }

  function ToNumber(v: Value): real {
    if v.Number? then v.n else 0.0
  }

  /** A string operand with a dollar sign names a field; any other adds nothing. */
  function SumField(operand: Option<string>): Option<string> {
    if operand.Some? && "$" <= operand.value then Some(operand.value[1..]) else None
  }

  function Lesser(a: Option<real>, b: real): Option<real> {
    if a.Some? && a.value < b then a else Some(b)
  }

  function Greater(a: Option<real>, b: real): Option<real> {
    if a.Some? && a.value > b then a else Some(b)
  }

  function Add(s: State, d: Doc): State {
    match s.op
    case Sum(o) =>
      var f := SumField(o);
      if f.Some? && f.value in d then s.(sum := s.sum + ToNumber(d[f.value])) else s
    case Count => s.(count := s.count + 1)
    case Avg(f) => if f in d then s.(sum := s.sum + ToNumber(d[f]), count := s.count + 1) else s
    case Min(f) => if f in d then s.(min := Lesser(s.min, ToNumber(d[f]))) else s
    case Max(f) => if f in d then s.(max := Greater(s.max, ToNumber(d[f]))) else s
  }

  /** The state after the documents of one group, in order. */
  function Accumulated(op: Op, docs: seq<Doc>): (s: State)
    ensures s.op == op
  {
    if docs == [] then Fresh(op) else Add(Accumulated(op, docs[..|docs| - 1]), docs[|docs| - 1])
  }

  function Report(s: State): real {
    match s.op
    case Sum(_) => s.sum
    case Count => s.count as real
    case Avg(_) => if s.count > 0 then s.sum / s.count as real else 0.0
    case Min(_) => if s.min.Some? then s.min.value else 0.0
    case Max(_) => if s.max.Some? then s.max.value else 0.0
  }

  // ---- Groups ----

  function HasKey(keyOf: Doc -> string, k: string): (p: Doc -> bool) {
    (d: Doc) => keyOf(d) == k
  }

  function GroupOf(keyOf: Doc -> string, docs: seq<Doc>, k: string): (g: seq<Doc>) {
    Keep(HasKey(keyOf, k), docs)
  }

  function KeysOf(keyOf: Doc -> string, docs: seq<Doc>): (r: set<string>) {
    if docs == [] then {} else KeysOf(keyOf, docs[..|docs| - 1]) + {keyOf(docs[|docs| - 1])}
  }

  lemma GroupGrows(keyOf: Doc -> string, docs: seq<Doc>, d: Doc, k: string)
    ensures GroupOf(keyOf, docs + [d], k) == GroupOf(keyOf, docs, k) + if keyOf(d) == k then [d] else []
  {
    KeepJoins(HasKey(keyOf, k), docs, [d]);
  }

  lemma KeysSnoc(keyOf: Doc -> string, docs: seq<Doc>, d: Doc)
    ensures KeysOf(keyOf, docs + [d]) == KeysOf(keyOf, docs) + {keyOf(d)}
  {
  }

  lemma {:induction false} KeysGrow(keyOf: Doc -> string, docs: seq<Doc>, i: nat)
    requires i <= |docs|
    ensures KeysOf(keyOf, docs[..i]) <= KeysOf(keyOf, docs)
    decreases |docs| - i
  {
    if i < |docs| {
      assert docs[..i + 1] == docs[..i] + [docs[i]];
      KeysSnoc(keyOf, docs[..i], docs[i]);
      KeysGrow(keyOf, docs, i + 1);
    } else {
      assert docs[..i] == docs;
    }
  }

  type Group = map<string, State>

  /** Each group holds, for each accumulator, the state its own documents lead to. */
  ghost predicate GroupRight(ops: map<string, Op>, g: Group, docs: seq<Doc>) {
    g.Keys == ops.Keys && forall f :: f in ops ==> g[f] == Accumulated(ops[f], docs)
  }

  ghost predicate GroupsRight(keyOf: Doc -> string, ops: map<string, Op>, docs: seq<Doc>, groups: map<string, Group>) {
    && groups.Keys == KeysOf(keyOf, docs)
    && forall k :: k in groups ==> GroupRight(ops, groups[k], GroupOf(keyOf, docs, k))
  }

  /** Adds one document to one group.  A new group starts without accumulators and gets each one
      fresh; the accumulators are visited in any order. */
  method Accumulate(ops: map<string, Op>, group: Option<Group>, d: Doc, ghost before: seq<Doc>) returns (g: Group)
    requires group.Some? ==> GroupRight(ops, group.value, before)
    requires group.None? ==> before == []
    ensures GroupRight(ops, g, before + [d])
  {
    g := if group.Some? then group.value else map[];
    assert (before + [d])[..|before|] == before;
    var left := ops.Keys;
    while left != {}
      invariant left <= ops.Keys && g.Keys <= ops.Keys && ops.Keys - left <= g.Keys
      invariant group.Some? ==> g.Keys == ops.Keys
      invariant group.None? ==> g.Keys == ops.Keys - left
      invariant forall f :: f in ops && f !in left ==> g[f] == Accumulated(ops[f], before + [d])
      invariant forall f :: f in left && f in g ==> g[f] == Accumulated(ops[f], before)
    {
      var f :| f in left;
      var s := if f in g then g[f] else Fresh(ops[f]);
      g := g[f := Add(s, d)];
      left := left - {f};
    }
  }

  method ApplyGroup(docs: seq<Doc>, keyOf: Doc -> string, ops: map<string, Op>) returns (r: Result<map<string, Group>, GroupError>)
    ensures r.Err? <==> |KeysOf(keyOf, docs)| > 100_000
    ensures r.Ok? ==> GroupsRight(keyOf, ops, docs, r.value)
  {
    var groups: map<string, Group> := map[];
    for i := 0 to |docs|
      invariant GroupsRight(keyOf, ops, docs[..i], groups) && |groups| <= 100_000
    {
      var d := docs[i];
      var key := keyOf(d);
      assert docs[..i + 1] == docs[..i] + [d];
      if key !in groups {
        if |groups| >= 100_000 {
          TooMany(groups.Keys, keyOf, docs, i);
          return Err(TooManyGroups);
        }
        NoGroupYet(keyOf, docs[..i], key);
      }
      var g := Accumulate(ops, if key in groups then Some(groups[key]) else None, d, GroupOf(keyOf, docs[..i], key));
      GroupsStep(keyOf, ops, docs[..i], d, groups, g);
      groups := groups[key := g];
    }
    assert docs[..|docs|] == docs;
    return Ok(groups);
  }

  lemma TooMany(keys: set<string>, keyOf: Doc -> string, docs: seq<Doc>, i: nat)
    requires i < |docs| && keys == KeysOf(keyOf, docs[..i]) && keyOf(docs[i]) !in keys
    ensures |KeysOf(keyOf, docs)| > |keys|
  {
    assert docs[..i + 1] == docs[..i] + [docs[i]];
    KeysSnoc(keyOf, docs[..i], docs[i]);
    KeysGrow(keyOf, docs, i + 1);
    SubsetIsSmaller(keys + {keyOf(docs[i])}, KeysOf(keyOf, docs));
  }

  lemma {:induction false} SubsetIsSmaller(a: set<string>, b: set<string>)
    requires a <= b
    ensures |a| <= |b|
  {
    if a != {} {
      var x :| x in a;
      SubsetIsSmaller(a - {x}, b - {x});
    }
  }

  lemma NoGroupYet(keyOf: Doc -> string, docs: seq<Doc>, k: string)
    requires k !in KeysOf(keyOf, docs)
    ensures GroupOf(keyOf, docs, k) == []
    decreases |docs|
  {
    if docs != [] {
      var n := |docs| - 1;
      NoGroupYet(keyOf, docs[..n], k);
      GroupGrows(keyOf, docs[..n], docs[n], k);
      KeysSnoc(keyOf, docs[..n], docs[n]);
      assert docs == docs[..n] + [docs[n]];
    }
  }

  lemma GroupsStep(keyOf: Doc -> string, ops: map<string, Op>, docs: seq<Doc>, d: Doc,
      groups: map<string, Group>, g: Group)
    requires GroupsRight(keyOf, ops, docs, groups)
    requires GroupRight(ops, g, GroupOf(keyOf, docs, keyOf(d)) + [d])
    ensures GroupsRight(keyOf, ops, docs + [d], groups[keyOf(d) := g])
  {
    var groups' := groups[keyOf(d) := g];
    KeysSnoc(keyOf, docs, d);
    assert groups'.Keys == groups.Keys + {keyOf(d)};
    forall k | k in groups' ensures GroupRight(ops, groups'[k], GroupOf(keyOf, docs + [d], k)) {
      GroupGrows(keyOf, docs, d, k);
      if k == keyOf(d) {
        assert groups'[k] == g;
      } else {
        assert GroupOf(keyOf, docs + [d], k) == GroupOf(keyOf, docs, k);
        assert GroupRight(ops, groups[k], GroupOf(keyOf, docs, k));
      }
    }
  }
}
