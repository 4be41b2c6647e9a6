/**
 Documents with nested values, and reading and writing them by path.
 */
module Documents {
  import opened Wrappers
  import opened Text
  import opened Memory

  /** 64-bit floats without NaN; finite values are exact. */
  datatype Float = NegInf | Finite(r: real) | PosInf

  datatype Value =
    | Null
    | Bool(b: bool)
    | Int32(i: int)
    | Int64(i: int)
    | Float64(f: Float)
    | String(s: string)
    | Binary(bytes: Bytes)
    | Array(items: seq<Value>)
    | Object(fields: Fields)
    | ObjectId(id: Bytes)
    | DateTime(seconds: int, nanos: nat)

  type Fields = map<string, Value>
  type Path = seq<string>

  // --------------------------------------------------------------------- paths

  /** `str::split` on dots; the empty string has one empty part. */
  function Split(path: string): (parts: Path)
    ensures |parts| > 0
  {
    if path == "" then [""]
    else
      var rest := Split(path[1..]);
      if path[0] == '.' then [""] + rest else [[path[0]] + rest[0]] + rest[1..]
  }

  function Join(parts: Path): (path: string)
    requires parts != []
  {
    if |parts| == 1 then parts[0] else parts[0] + "." + Join(parts[1..])
  }

  ghost predicate NoDots(parts: Path) {
    forall i :: 0 <= i < |parts| ==> '.' !in parts[i]
  }

  /** The parts hold no dots, and joined by dots they are the path. */
  lemma {:induction false} SplitJoins(path: string)
    ensures Join(Split(path)) == path && NoDots(Split(path))
  {
    if path != "" {
      var rest := Split(path[1..]);
      SplitJoins(path[1..]);
      assert path == [path[0]] + path[1..];
      if path[0] == '.' {
        assert ([""] + rest)[1..] == rest;
      } else {
        var parts := [[path[0]] + rest[0]] + rest[1..];
        assert parts[1..] == rest[1..];
        if |rest| > 1 { assert Join(parts) == [path[0]] + Join(rest); }
      }
    }
  }

  /** A dot separates the parts before it from those behind it. */
  lemma {:induction false} SplitAtDot(a: string, b: string)
    ensures Split(a + "." + b) == Split(a) + Split(b)
  {
    if a == "" {
      SplitCons('.', b);
      assert "" + "." + b == ['.'] + b;
    } else {
      var c, rest := a[0], a[1..];
      SplitAtDot(rest, b);
      assert a == [c] + rest && a + "." + b == [c] + (rest + "." + b);
      SplitLonger(c, rest, rest + "." + b, Split(b));
    }
  }

  lemma SplitLonger(c: char, rest: string, longer: string, q: Path)
    requires Split(longer) == Split(rest) + q
    ensures Split([c] + longer) == Split([c] + rest) + q
  {
    SplitCons(c, longer);
    SplitCons(c, rest);
    FirstLonger(c, Split(rest), q);
  }

  lemma FirstLonger(c: char, p: Path, q: Path)
    requires p != []
    ensures [""] + (p + q) == [""] + p + q
    ensures [[c] + (p + q)[0]] + (p + q)[1..] == [[c] + p[0]] + p[1..] + q
  {
  }

  lemma SplitCons(c: char, rest: string)
    ensures Split([c] + rest) == if c == '.' then [""] + Split(rest) else [[c] + Split(rest)[0]] + Split(rest)[1..]
  {
    assert ([c] + rest)[1..] == rest;
  }

  lemma {:induction false} SplitNoDot(part: string)
    requires '.' !in part
    ensures Split(part) == [part]
  {
    if part != "" {
      assert part == [part[0]] + part[1..];
      SplitNoDot(part[1..]);
    }
  }

  /** There is one way to do that. */
  lemma {:induction false} SplitIsUnique(parts: Path)
    requires parts != [] && NoDots(parts)
    ensures Split(Join(parts)) == parts
  {
    SplitNoDot(parts[0]);
    if |parts| > 1 {
      SplitIsUnique(parts[1..]);
      SplitAtDot(parts[0], Join(parts[1..]));
    }
  }

  lemma {:induction false} JoinAppends(p: Path, q: Path)
    requires p != [] && q != []
    ensures Join(p + q) == Join(p) + "." + Join(q)
  {
    if |p| > 1 {
      JoinAppends(p[1..], q);
      assert (p + q)[1..] == p[1..] + q;
    } else {
      assert (p + q)[1..] == q;
    }
  }

  /** One dotted path leads through another. */
  predicate Within(path: string, other: string) {
    other == path || path + "." <= other
  }

  lemma WithinIff(path: string, other: string)
    ensures Split(path) <= Split(other) <==> Within(path, other)
  {
    if Split(path) <= Split(other) { PrefixIsWithin(path, other); }
    if path + "." <= other {
      var rest := other[|path| + 1..];
      assert other == path + "." + rest;
      SplitAtDot(path, rest);
    }
  }

  lemma PrefixIsWithin(path: string, other: string)
    requires Split(path) <= Split(other)
    ensures Within(path, other)
  {
    var p, q := Split(path), Split(other);
    SplitJoins(path);
    SplitJoins(other);
    if p != q {
      var rest := q[|p|..];
      assert q == p + rest;
      JoinAppends(p, rest);
      assert other == path + "." + Join(rest);
    }
  }

  /** One step down from a value. */
  function Child(v: Value, part: string): Option<Value> {
    match v
    case Object(fields) => if part in fields then Some(fields[part]) else None
    case Array(items) =>
      (match ParseU64(part)
       case None => None
       case Some(i) => if i < |items| then Some(items[i]) else None)
    case _ => None
  }

  function Navigate(v: Value, path: Path): Option<Value> {
    if path == [] then Some(v)
    else
      match Child(v, path[0])
      case None => None
      case Some(c) => Navigate(c, path[1..])
  }

  /** The value a document holds at a path; the empty path holds nothing. */
  function Get(fields: Fields, path: Path): Option<Value> {
    if path == [] then None else Navigate(Object(fields), path)
  }

  /** What a document holds at a dotted path. */
  function Lookup(fields: Fields, path: string): Option<Value> {
    Get(fields, Split(path))
  }

  /** The field named by the first part, and then what it holds at the rest. */
  lemma LookupSteps(fields: Fields, head: string, rest: string)
    requires '.' !in head
    ensures Lookup(fields, head) == if head in fields then Some(fields[head]) else None
    ensures Lookup(fields, head + "." + rest) ==
            if head !in fields then None
            else if fields[head].Object? then Lookup(fields[head].fields, rest)
            else Navigate(fields[head], Split(rest))
  {
    SplitNoDot(head);
    SplitAtDot(head, rest);
    assert ([head] + Split(rest))[1..] == Split(rest);
    if head in fields { assert Navigate(fields[head], [head][1..]) == Some(fields[head]); }
  }

  /** A part that is a number picks the item of an array, counted from zero; no
      other part leads into one. */
  lemma LookupItem(fields: Fields, head: string, part: string)
    requires '.' !in head && '.' !in part && head in fields && fields[head].Array?
    ensures Lookup(fields, head + "." + part) ==
            if ParseU64(part).Some? && ParseU64(part).value < |fields[head].items|
            then Some(fields[head].items[ParseU64(part).value]) else None
  {
    LookupSteps(fields, head, part);
    SplitNoDot(part);
  }

  /** The loop of `get_by_path_parts`. */
  method GetByPathParts(fields: Fields, parts: Path) returns (r: Option<Value>)
    ensures r == Get(fields, parts)
  {
    if parts == [] {
      return None;
    }
    if parts[0] !in fields {
      return None;
    }
    var current := fields[parts[0]];
    for i := 1 to |parts|
      invariant Navigate(Object(fields), parts) == Navigate(current, parts[i..])
    {
      assert parts[i..][0] == parts[i] && parts[i..][1..] == parts[i + 1..];
      match current {
        case Object(obj) =>
          if parts[i] !in obj { return None; }
          current := obj[parts[i]];
        case Array(items) =>
          var index := ParseU64(parts[i]);
          if index.None? || index.value >= |items| { return None; }
          current := items[index.value];
        case _ =>
          return None;
      }
    }
    r := Some(current);
  }

  // ------------------------------------------------------------------- writing

  /** The field `part`, or the empty object created in its place. */
  function Parent(fields: Fields, part: string): Value {
    if part in fields then fields[part] else Object(map[])
  }

  /** `set_by_path_parts` with its effect on the fields, also when it fails:
      missing parents are created on the way down. */
  function SetIn(fields: Fields, path: Path, value: Value): (Fields, bool)
    decreases |path|
  {
    if path == [] then (fields, false)
    else if |path| == 1 then (fields[path[0] := value], true)
    else
      var parent := Parent(fields, path[0]);
      if !parent.Object? then (fields, false)
      else
        var (sub, ok) := SetIn(parent.fields, path[1..], value);
        (fields[path[0] := Object(sub)], ok)
  }

  ghost predicate ObjectOrMissing(fields: Fields, path: Path) {
    match Get(fields, path)
    case None => true
    case Some(v) => v.Object?
  }

  /** A write succeeds exactly when no proper prefix of the path holds
      anything but an object. */
  lemma {:induction false} SetSucceedsIff(fields: Fields, path: Path, value: Value)
    ensures SetIn(fields, path, value).1
       <==> path != [] && forall k :: 0 < k < |path| ==> ObjectOrMissing(fields, path[..k])
    decreases |path|
  {
    if |path| > 1 {
      var parent := Parent(fields, path[0]);
      FirstStep(fields, path);
      if parent.Object? {
        SetSucceedsIff(parent.fields, path[1..], value);
        forall k | 1 < k < |path|
          ensures ObjectOrMissing(fields, path[..k]) <==> ObjectOrMissing(parent.fields, path[1..][..k - 1])
        {
          LaterStep(fields, path, k);
        }
        if forall k :: 0 < k < |path| ==> ObjectOrMissing(fields, path[..k]) {
          forall k | 0 < k < |path[1..]|
            ensures ObjectOrMissing(parent.fields, path[1..][..k])
          {
            assert ObjectOrMissing(fields, path[..k + 1]);
          }
        }
      }
    }
  }

  lemma FirstStep(fields: Fields, path: Path)
    requires |path| > 1
    ensures ObjectOrMissing(fields, path[..1]) <==> Parent(fields, path[0]).Object?
  {
    assert path[..1] == [path[0]] && path[..1][1..] == [];
    if path[0] in fields { assert Navigate(fields[path[0]], []) == Some(fields[path[0]]); }
  }

  lemma LaterStep(fields: Fields, path: Path, k: nat)
    requires 1 < k < |path| && Parent(fields, path[0]).Object?
    ensures Get(fields, path[..k]) == Get(Parent(fields, path[0]).fields, path[1..][..k - 1])
  {
    assert path[..k][1..] == path[1..][..k - 1];
    if path[0] !in fields { NothingInEmpty(path[1..][..k - 1]); }
  }

  /** A write that fails leaves the fields as they were. */
  lemma {:induction false} FailedSetChangesNothing(fields: Fields, path: Path, value: Value)
    requires !SetIn(fields, path, value).1
    ensures SetIn(fields, path, value).0 == fields
    decreases |path|
  {
    if |path| > 1 {
      var parent := Parent(fields, path[0]);
      if parent.Object? {
        FailedSetChangesNothing(parent.fields, path[1..], value);
        if path[0] !in fields { EmptyObjectAccepts(path[1..], value); }
      }
    }
  }

  /** Below a parent that was just created, nothing can be in the way. */
  lemma {:induction false} EmptyObjectAccepts(path: Path, value: Value)
    requires path != []
    ensures SetIn(map[], path, value).1
  {
    if |path| > 1 { EmptyObjectAccepts(path[1..], value); }
  }

  /** After a successful write the path holds the value, and any extension of
      the path navigates into it. */
  lemma {:induction false} SetThenGet(fields: Fields, path: Path, value: Value, further: Path)
    requires SetIn(fields, path, value).1
    ensures Get(SetIn(fields, path, value).0, path + further) == Navigate(value, further)
    decreases |path|
  {
    var after := SetIn(fields, path, value).0;
    assert (path + further)[1..] == path[1..] + further;
    if |path| == 1 {
      assert path[1..] + further == further;
    } else {
      var parent := Parent(fields, path[0]);
      SetThenGet(parent.fields, path[1..], value, further);
    }
  }

  predicate Comparable(p: Path, q: Path) {
    p <= q || q <= p
  }

  /** Paths that are neither a prefix nor an extension read as before. */
  lemma {:induction false} SetKeepsOtherPaths(fields: Fields, path: Path, value: Value, other: Path)
    requires SetIn(fields, path, value).1 && !Comparable(path, other)
    ensures Get(SetIn(fields, path, value).0, other) == Get(fields, other)
    decreases |path|
  {
    var after := SetIn(fields, path, value).0;
    if |path| > 1 && other[0] == path[0] {
      var parent := Parent(fields, path[0]);
      assert path == [path[0]] + path[1..] && other == [other[0]] + other[1..];
      SetKeepsOtherPaths(parent.fields, path[1..], value, other[1..]);
      if path[0] !in fields { NothingInEmpty(other[1..]); }
    }
  }

  lemma NothingInEmpty(path: Path)
    requires path != []
    ensures Navigate(Object(map[]), path) == None
  {
  }

  /** Below a common first part, two writes go into the same object. */
  lemma SetTwiceUnder(fields: Fields, p: Path, v: Value, q: Path, w: Value)
    requires |p| > 1 && |q| > 1 && p[0] == q[0] && Parent(fields, p[0]).Object?
    ensures var sub := Parent(fields, p[0]).fields;
            var r := SetIn(SetIn(sub, p[1..], v).0, q[1..], w);
            SetIn(SetIn(fields, p, v).0, q, w) == (fields[p[0] := Object(r.0)], r.1)
  {
    var k, sub := p[0], Parent(fields, p[0]).fields;
    var a := SetIn(sub, p[1..], v).0;
    assert SetIn(fields, p, v).0 == fields[k := Object(a)];
    assert fields[k := Object(a)][k := Object(SetIn(a, q[1..], w).0)] == fields[k := Object(SetIn(a, q[1..], w).0)];
  }

  lemma SetsCommuteApart(fields: Fields, p: Path, v: Value, q: Path, w: Value)
    requires p != [] && q != [] && p[0] != q[0] && SetIn(fields, p, v).1 && SetIn(fields, q, w).1
    ensures SetIn(SetIn(fields, p, v).0, q, w) == SetIn(SetIn(fields, q, w).0, p, v)
    ensures SetIn(SetIn(fields, p, v).0, q, w).1
  {
    var a, b := SetIn(fields, p, v).0, SetIn(fields, q, w).0;
    SetLocal(fields, fields, p, v);
    SetLocal(fields, fields, q, w);
    SetLocal(fields, a, q, w);
    SetLocal(fields, b, p, v);
    assert a[q[0] := b[q[0]]] == b[p[0] := a[p[0]]];
  }

  /** Two writes at incomparable paths can be made in either order. */
  lemma {:induction false} SetsCommute(fields: Fields, p: Path, v: Value, q: Path, w: Value)
    requires SetIn(fields, p, v).1 && SetIn(fields, q, w).1 && !Comparable(p, q)
    ensures SetIn(SetIn(fields, p, v).0, q, w) == SetIn(SetIn(fields, q, w).0, p, v)
    ensures SetIn(SetIn(fields, p, v).0, q, w).1
    decreases |p|
  {
    if p[0] == q[0] {
      assert p == [p[0]] + p[1..] && q == [q[0]] + q[1..];
      assert !Comparable(p[1..], q[1..]);
      SetsCommute(Parent(fields, p[0]).fields, p[1..], v, q[1..], w);
      SetTwiceUnder(fields, p, v, q, w);
      SetTwiceUnder(fields, q, w, p, v);
    } else {
      SetsCommuteApart(fields, p, v, q, w);
    }
  }

  /** A write looks at, and changes, the first field of its path only. */
  lemma SetLocal(fields: Fields, others: Fields, path: Path, value: Value)
    requires path != [] && SetIn(fields, path, value).1
    requires path[0] in others <==> path[0] in fields
    requires path[0] in fields ==> others[path[0]] == fields[path[0]]
    ensures SetIn(others, path, value).1
    ensures path[0] in SetIn(fields, path, value).0
    ensures SetIn(fields, path, value).0 == fields[path[0] := SetIn(fields, path, value).0[path[0]]]
    ensures SetIn(others, path, value).0 == others[path[0] := SetIn(fields, path, value).0[path[0]]]
  {
  }

  /** After a successful write at a dotted path the path reads the value, longer
      paths read inside it, and paths apart from it read as before. */
  lemma SetAtDottedPath(fields: Fields, path: string, value: Value, other: string)
    requires SetIn(fields, Split(path), value).1
    ensures var after := SetIn(fields, Split(path), value).0;
            && Lookup(after, path) == Some(value)
            && Lookup(after, path + "." + other) == Navigate(value, Split(other))
            && (!Within(path, other) && !Within(other, path) ==> Lookup(after, other) == Lookup(fields, other))
  {
    var p, q := Split(path), Split(other);
    SetThenGet(fields, p, value, []);
    assert p + [] == p;
    SetThenGet(fields, p, value, q);
    SplitAtDot(path, other);
    WithinIff(path, other);
    WithinIff(other, path);
    if !Within(path, other) && !Within(other, path) { SetKeepsOtherPaths(fields, p, value, q); }
  }

  // --------------------------------------------------------------------- sizes

  /** Bytes of a string in UTF-8. */
  function Utf8Length(s: string): nat {
    if s == "" then 0
    else
      var c := s[|s| - 1] as int;
      Utf8Length(s[..|s| - 1]) + if c < 0x80 then 1 else if c < 0x800 then 2 else if c < 0x1_0000 then 3 else 4
  }

  /** A character takes one to four bytes, and strings add up. */
  lemma {:induction false} Utf8Adds(a: string, b: string)
    ensures Utf8Length(a + b) == Utf8Length(a) + Utf8Length(b)
  {
    if b == "" {
      assert a + b == a;
    } else {
      Utf8Adds(a, b[..|b| - 1]);
      assert (a + b)[..|a + b| - 1] == a + b[..|b| - 1];
    }
  }

  lemma Utf8OfCharacter(c: char)
    ensures Utf8Length([c]) ==
            if c < '\U{80}' then 1 else if c < '\U{800}' then 2 else if c < '\U{10000}' then 3 else 4
  {
    assert [c][..0] == "";
  }

  ghost function SizeOf(v: Value): nat
    decreases v, 1
  {
    match v
    case Null => 1
    case Bool(_) => 1
    case Int32(_) => 4
    case Int64(_) => 8
    case Float64(_) => 8
    case String(s) => Utf8Length(s)
    case Binary(bytes) => |bytes|
    case Array(items) => 8 + ItemsSize(items)
    case Object(fields) => 8 + KeysSize(v, fields.Keys)
    case ObjectId(_) => 12
    case DateTime(_, _) => 8
  }

  ghost function ItemsSize(items: seq<Value>): nat {
    if items == [] then 0 else ItemsSize(items[..|items| - 1]) + SizeOf(items[|items| - 1])
  }

  /** The share of some of an object's fields. */
  ghost function KeysSize(v: Value, keys: set<string>): nat
    requires v.Object? && keys <= v.fields.Keys
    decreases v, 0, keys
  {
    if keys == {} then 0
    else
      var k :| k in keys;
      Utf8Length(k) + SizeOf(v.fields[k]) + KeysSize(v, keys - {k})
  }

  /** What each kind of value weighs; arrays and objects weigh eight bytes and
      what is in them, objects also the names. */
  lemma SizesAre(v: Value)
    ensures v.Null? || v.Bool? ==> SizeOf(v) == 1
    ensures v.Int32? ==> SizeOf(v) == 4
    ensures v.Int64? || v.Float64? || v.DateTime? ==> SizeOf(v) == 8
    ensures v.ObjectId? ==> SizeOf(v) == 12
    ensures v.String? ==> SizeOf(v) == Utf8Length(v.s)
    ensures v.Binary? ==> SizeOf(v) == |v.bytes|
    ensures SizeOf(Array([])) == 8 && SizeOf(Object(map[])) == 8
    ensures forall items :: SizeOf(Array(items + [v])) == SizeOf(Array(items)) + SizeOf(v)
    ensures forall fields: Fields, k :: k !in fields ==>
              SizeOf(Object(fields[k := v])) == SizeOf(Object(fields)) + Utf8Length(k) + SizeOf(v)
  {
    forall items: seq<Value> ensures SizeOf(Array(items + [v])) == SizeOf(Array(items)) + SizeOf(v) {
      assert (items + [v])[..|items|] == items;
    }
    forall fields: Fields, k | k !in fields
      ensures SizeOf(Object(fields[k := v])) == SizeOf(Object(fields)) + Utf8Length(k) + SizeOf(v)
    {
      var w := Object(fields[k := v]);
      KeysSizePick(w, w.fields.Keys, k);
      assert w.fields.Keys - {k} == fields.Keys;
      KeysSizeSame(w, Object(fields), fields.Keys);
    }
  }

  lemma {:induction false} KeysSizePick(v: Value, keys: set<string>, k: string)
    requires v.Object? && keys <= v.fields.Keys && k in keys
    ensures KeysSize(v, keys) == Utf8Length(k) + SizeOf(v.fields[k]) + KeysSize(v, keys - {k})
    decreases keys
  {
    var c :| c in keys && KeysSize(v, keys) == Utf8Length(c) + SizeOf(v.fields[c]) + KeysSize(v, keys - {c});
    if c != k {
      KeysSizePick(v, keys - {c}, k);
      KeysSizePick(v, keys - {k}, c);
      assert keys - {c} - {k} == keys - {k} - {c};
    }
  }

  lemma {:induction false} KeysSizeSame(v: Value, w: Value, keys: set<string>)
    requires v.Object? && w.Object? && keys <= v.fields.Keys && keys <= w.fields.Keys
    requires forall k :: k in keys ==> v.fields[k] == w.fields[k]
    ensures KeysSize(v, keys) == KeysSize(w, keys)
  {
    if keys != {} {
      var k :| k in keys;
      KeysSizePick(v, keys, k);
      KeysSizePick(w, keys, k);
      KeysSizeSame(v, w, keys - {k});
    }
  }

  /** The size a document should report. */
  ghost function FieldsSize(fields: Fields): nat {
    KeysSize(Object(fields), fields.Keys)
  }

  /** Replacing one value changes the size by the difference of the two. */
  lemma FieldsSizeReplaced(fields: Fields, key: string, value: Value)
    requires key in fields
    ensures FieldsSize(fields[key := value]) == FieldsSize(fields) - SizeOf(fields[key]) + SizeOf(value)
  {
    var v, w := Object(fields), Object(fields[key := value]);
    assert w.fields.Keys == fields.Keys;
    KeysSizePick(v, fields.Keys, key);
    KeysSizePick(w, fields.Keys, key);
    KeysSizeSame(v, w, fields.Keys - {key});
  }

  /** Only empty strings and empty bytes weigh nothing. */
  lemma NoSizeIff(v: Value)
    ensures SizeOf(v) == 0 <==> v == String("") || v == Binary([])
  {
  }

  /** The documents that weigh nothing: the empty one, and two with a nameless field. */
  lemma WeightlessIff(fields: Fields)
    ensures FieldsSize(fields) == 0 <==>
            fields == map[] || fields == map["" := String("")] || fields == map["" := Binary([])]
  {
    if fields == map[] {
    } else if fields.Keys == {""} {
      var v := Object(fields);
      KeysSizePick(v, fields.Keys, "");
      assert fields.Keys - {""} == {} && fields == map["" := fields[""]];
      NoSizeIff(fields[""]);
    } else {
      var k := OtherKey(fields);
      KeysSizePick(Object(fields), fields.Keys, k);
    }
  }

  lemma OtherKey(fields: Fields) returns (k: string)
    requires fields != map[] && fields.Keys != {""}
    ensures k in fields && k != ""
  {
    k :| k in fields;
    if k == "" {
      var others := fields.Keys - {""};
      assert fields.Keys == others + {""};
      assert others != {};
      k :| k in others;
    }
  }

  /** `size_bytes`: the recursion over arrays and objects, in any order of an
      object's fields. */
  method SizeBytes(v: Value) returns (n: nat)
    ensures n == SizeOf(v)
    decreases v, 1
  {
    match v {
      case Null => n := 1;
      case Bool(_) => n := 1;
      case Int32(_) => n := 4;
      case Int64(_) => n := 8;
      case Float64(_) => n := 8;
      case String(s) => n := Utf8Length(s);
      case Binary(bytes) => n := |bytes|;
      case Array(items) =>
        n := 0;
        for i := 0 to |items|
          invariant n == ItemsSize(items[..i])
        {
          assert items[..i + 1][..i] == items[..i];
          var m := SizeBytes(items[i]);
          n := n + m;
        }
        assert items[..|items|] == items;
        n := n + 8;
      case Object(fields) =>
        n := FieldsBytes(v);
        n := n + 8;
      case ObjectId(_) => n := 12;
      case DateTime(_, _) => n := 8;
    }
  }

  method FieldsBytes(v: Value) returns (n: nat)
    requires v.Object?
    ensures n == KeysSize(v, v.fields.Keys)
    decreases v, 0
  {
    n := 0;
    var left := v.fields.Keys;
    while left != {}
      invariant left <= v.fields.Keys && n + KeysSize(v, left) == KeysSize(v, v.fields.Keys)
    {
      var k :| k in left;
      KeysSizePick(v, left, k);
      var m := SizeBytes(v.fields[k]);
      n := n + Utf8Length(k) + m;
      left := left - {k};
    }
  }

  // ------------------------------------------------------------------ document

  class Document {
    var fields: Fields
    var version: nat
    var sizeBytes: nat

    /** The reported size is the size. */
    ghost predicate Sized()
      reads this
    {
      sizeBytes == FieldsSize(fields)
    }

    constructor ()
      ensures fields == map[] && version == 1 && Sized()
    {
      fields, version, sizeBytes := map[], 1, 0;
    }

    /** A document read back: its metadata is not stored. It reports its size
        exactly if it is empty, or has just a nameless field with an empty
        string or empty bytes. */
    constructor Stored(fields: Fields)
      ensures this.fields == fields && version == 1 && sizeBytes == 0
      ensures Sized() <==> fields == map[] || fields == map["" := String("")] || fields == map["" := Binary([])]
    {
      this.fields, version, sizeBytes := fields, 1, 0;
      WeightlessIff(fields);
    }

    method UpdateMetadata()
      modifies this`version, this`sizeBytes
      ensures Sized() && version == old(version) + 1
    {
      sizeBytes := FieldsBytes(Object(fields));
      version := version + 1;
    }

    method GetByPath(path: string) returns (r: Option<Value>)
      ensures r == Lookup(fields, path)
    {
      r := GetByPathParts(fields, Split(path));
    }

    /** On success the metadata is updated; on failure nothing changes. */
    method SetByPath(path: string, value: Value) returns (ok: bool)
      modifies this
      ensures ok == SetIn(old(fields), Split(path), value).1
      ensures ok ==> fields == SetIn(old(fields), Split(path), value).0 && version == old(version) + 1 && Sized()
      ensures ok ==> Lookup(fields, path) == Some(value)
      ensures ok ==> forall other :: !Within(path, other) && !Within(other, path) ==>
                       Lookup(fields, other) == Lookup(old(fields), other)
      ensures !ok ==> fields == old(fields) && version == old(version) && sizeBytes == old(sizeBytes)
    {
      var (after, done) := SetIn(fields, Split(path), value);
      if !done { FailedSetChangesNothing(fields, Split(path), value); }
      fields := after;
      if !done {
        return false;
      }
      forall other
        ensures Lookup(after, path) == Some(value)
        ensures !Within(path, other) && !Within(other, path) ==> Lookup(after, other) == Lookup(old(fields), other)
      {
        SetAtDottedPath(old(fields), path, value, other);
      }
      UpdateMetadata();
      ok := true;
    }

    method Insert(key: string, value: Value) returns (previous: Option<Value>)
      modifies this
      ensures fields == old(fields)[key := value] && version == old(version) + 1 && Sized()
      ensures previous == if key in old(fields) then Some(old(fields)[key]) else None
    {
      previous := if key in fields then Some(fields[key]) else None;
      fields := fields[key := value];
      UpdateMetadata();
    }

    method Remove(key: string) returns (previous: Option<Value>)
      modifies this
      ensures fields == old(fields) - {key} && version == old(version) + 1 && Sized()
      ensures previous == if key in old(fields) then Some(old(fields)[key]) else None
    {
      previous := if key in fields then Some(fields[key]) else None;
      fields := fields - {key};
      UpdateMetadata();
    }

    /** A write through the reference that `get_mut` hands out bypasses the
        metadata: a right size stays right exactly if the new value has the
        size of the old one. */
    method WriteThroughGetMut(key: string, value: Value)
      requires key in fields
      modifies this`fields
      ensures fields == old(fields)[key := value]
      ensures old(Sized()) ==> (Sized() <==> SizeOf(value) == SizeOf(old(fields)[key]))
    {
      FieldsSizeReplaced(fields, key, value);
      fields := fields[key := value];
    }
  }
}
