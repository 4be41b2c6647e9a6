/**
 What index lookups answer, in terms of the documents alone: which values a
 range covers, in which order they come, and which documents are not listed.
 */
module IndexLaws {
  import opened Wrappers
  import opened Text
  import opened Memory
  import opened Documents
  import opened IndexKeys
  import opened BTreeIndex
  import opened IndexManager

  // ---------------------------------------------------------- keys of documents

  /** A field that is missing counts as null. */
  predicate IsNull(v: Option<Value>) {
    v == None || v == Some(Value.Null)
  }

  /** What a document must hold in a field for the key to have this value there. */
  predicate Shows(k: IndexValue, v: Option<Value>) {
    match k
    case Null => IsNull(v)
    case Bool(b) => v == Some(Value.Bool(b))
    case Int(i) => v == Some(Int32(i)) || v == Some(Int64(i))
    case Float(f) => v == Some(Float64(f))
    case String(s) => v == Some(Value.String(s))
    case Binary(bytes) => v == Some(Value.Binary(bytes))
    case ObjectId(id) => v == Some(Value.ObjectId(id))
    case DateTime(seconds) => v.Some? && v.value.DateTime? && v.value.seconds == seconds
  }

  predicate Compound(v: Option<Value>) {
    v.Some? && (v.value.Array? || v.value.Object?)
  }

  lemma ShowsIff(doc: Fields, field: string, k: IndexValue)
    ensures FromValue(FieldOf(doc, field)) == Some(k) <==> Shows(k, Lookup(doc, field))
    ensures FromValue(FieldOf(doc, field)) == None <==> Compound(Lookup(doc, field))
  {
  }

  ghost predicate ShowsAll(key: IndexKey, doc: Fields, fields: seq<string>) {
    |key| == |fields| && forall i :: 0 <= i < |fields| ==> Shows(key[i], Lookup(doc, fields[i]))
  }

  /** A document has a key exactly if none of the fields holds an array or an
      object, and the key has the value of each field in its place. */
  lemma {:induction false} KeyIff(doc: Fields, fields: seq<string>, key: IndexKey)
    ensures KeyFor(doc, fields) == Some(key) <==> ShowsAll(key, doc, fields)
    ensures KeyFor(doc, fields) == None <==> exists i :: 0 <= i < |fields| && Compound(Lookup(doc, fields[i]))
  {
    if fields != [] {
      var rest := if key == [] then [] else key[1..];
      KeyIff(doc, fields[1..], rest);
      var first := FromValue(FieldOf(doc, fields[0]));
      if first.Some? { ShowsIff(doc, fields[0], first.value); } else { ShowsIff(doc, fields[0], IndexValue.Null); }
      if key != [] {
        ShowsIff(doc, fields[0], key[0]);
        assert key == [key[0]] + rest;
      }
      assert forall i :: 0 <= i < |fields| - 1 ==> fields[1..][i] == fields[i + 1];
      if i :| 0 <= i < |fields| && Compound(Lookup(doc, fields[i])) {
        if i > 0 { assert Compound(Lookup(doc, fields[1..][i - 1])); }
      }
    }
  }

  /** Of the documents that have a key, a sparse index leaves out exactly those
      with a null or missing field; any other index leaves out none. */
  lemma LeftOutIff(ix: Index, doc: Fields)
    requires KeyFor(doc, ix.fields).Some?
    ensures Listed(ix, doc).None? <==> ix.sparse && exists i :: 0 <= i < |ix.fields| && IsNull(Lookup(doc, ix.fields[i]))
  {
    var key := KeyFor(doc, ix.fields).value;
    KeyIff(doc, ix.fields, key);
    if i :| 0 <= i < |ix.fields| && IsNull(Lookup(doc, ix.fields[i])) {
      assert Shows(key[i], Lookup(doc, ix.fields[i])) && key[i].Null?;
    }
  }

  // ---------------------------------------------------------------- exact lookup

  /** An exact lookup answers with the documents that hold the values of the
      key, except those a sparse index leaves out. */
  lemma ExactMeans(ix: Index, docs: Collection, key: IndexKey, id: Id)
    requires Agrees(ix, docs)
    ensures id in IdsAt(ix.tree, key) <==>
            id in docs && ShowsAll(key, docs[id], ix.fields) && !(ix.sparse && exists i :: 0 <= i < |key| && key[i] == IndexValue.Null)
  {
    FindExactIsScan(ix, docs, key);
    if id in docs { KeyIff(docs[id], ix.fields, key); }
  }

  // ---------------------------------------------------------------- range lookup

  lemma SoloLess(a: IndexValue, b: IndexValue)
    ensures KeyLess([a], [b]) <==> ValueLess(a, b)
  {
    assert !LexLess(ValueOrder(), [a][1..], [b][1..]);
    assert ValueOrder()(a, b) == ValueLess(a, b);
  }

  predicate Between(k: IndexValue, lo: IndexValue, hi: IndexValue, withLo: bool, withHi: bool) {
    (ValueLess(lo, k) || (withLo && k == lo)) && (ValueLess(k, hi) || (withHi && k == hi))
  }

  lemma SoloKey(ix: Index, doc: Fields, field: string, k: IndexValue)
    requires ix.fields == [field]
    ensures KeyFor(doc, ix.fields) == Some([k]) <==> Shows(k, Lookup(doc, field))
    ensures Listed(ix, doc).Some? ==> exists l :: Listed(ix, doc) == Some([l]) && Shows(l, Lookup(doc, field))
    ensures Listed(ix, doc) == Some([k]) <==> Shows(k, Lookup(doc, field)) && !(ix.sparse && k.Null?)
  {
    KeyIff(doc, ix.fields, [k]);
    if Listed(ix, doc).Some? {
      var key := Listed(ix, doc).value;
      KeyIff(doc, ix.fields, key);
      assert key == [key[0]];
    }
  }

  /** A document is in the answer exactly if its one value is in the range. */
  lemma SoloRange(ix: Index, docs: Collection, ids: seq<Id>, field: string,
                  lo: IndexValue, hi: IndexValue, withLo: bool, withHi: bool, id: Id)
    requires ix.fields == [field] && !lo.Null?
    requires ScanSelects(ix, docs, ids, Some([lo]), Some([hi]), withLo, withHi)
    ensures id in ids <==>
            id in docs && exists k :: Shows(k, Lookup(docs[id], field)) && Between(k, lo, hi, withLo, withHi)
  {
    if id in docs {
      if id in ids {
        SoloKey(ix, docs[id], field, lo);
        var k :| Listed(ix, docs[id]) == Some([k]) && Shows(k, Lookup(docs[id], field));
        SoloInRange(k, lo, hi, withLo, withHi);
      }
      if k :| Shows(k, Lookup(docs[id], field)) && Between(k, lo, hi, withLo, withHi) {
        SoloInRange(k, lo, hi, withLo, withHi);
        SoloKey(ix, docs[id], field, k);
      }
    }
  }

  lemma SoloInRange(k: IndexValue, lo: IndexValue, hi: IndexValue, withLo: bool, withHi: bool)
    ensures InRange([k], Some([lo]), Some([hi]), withLo, withHi) <==> Between(k, lo, hi, withLo, withHi)
  {
    InRangeMeans([k], Some([lo]), Some([hi]), withLo, withHi);
    SoloLess(lo, k);
    SoloLess(k, hi);
  }

  /** And earlier in the answer means no greater value. */
  lemma SoloOrder(ix: Index, docs: Collection, ids: seq<Id>, field: string, start: Option<IndexKey>, end: Option<IndexKey>,
                  withLo: bool, withHi: bool, i: nat, j: nat, k: IndexValue, l: IndexValue)
    requires ix.fields == [field] && ScanSelects(ix, docs, ids, start, end, withLo, withHi)
    requires i < j < |ids| && ids[i] in docs && ids[j] in docs
    requires Shows(k, Lookup(docs[ids[i]], field)) && Shows(l, Lookup(docs[ids[j]], field))
    ensures k == l || ValueLess(k, l)
  {
    assert ids[i] in ids && ids[j] in ids;
    SoloKey(ix, docs[ids[i]], field, k);
    SoloKey(ix, docs[ids[j]], field, l);
    SoloLess(k, l);
  }

  // --------------------------------------------------- the answer, kind by kind

  /** The answer to a range lookup on one field: the documents that hold a value
      of a kind between the bounds, none before one with a lesser value. */
  ghost predicate Answers<T(!new)>(docs: Collection, ids: seq<Id>, at: Fields -> Option<T>, less: (T, T) -> bool,
                                   lo: T, hi: T, withLo: bool, withHi: bool)
  {
    && (forall id :: id in ids <==>
          id in docs && at(docs[id]).Some? &&
          var v := at(docs[id]).value; (less(lo, v) || (withLo && v == lo)) && (less(v, hi) || (withHi && v == hi)))
    && forall i, j :: 0 <= i < j < |ids| && at(docs[ids[i]]).Some? && at(docs[ids[j]]).Some? ==>
         !less(at(docs[ids[j]]).value, at(docs[ids[i]]).value)
  }

  /** The values of one kind, as documents hold them and as keys order them. */
  ghost predicate IsKind<T(!new)>(field: string, wrap: T -> IndexValue, at: Fields -> Option<T>, less: (T, T) -> bool) {
    && (forall d, t :: at(d) == Some(t) <==> Shows(wrap(t), Lookup(d, field)))
    && (forall a, b :: less(a, b) <==> ValueLess(wrap(a), wrap(b)))
    && (forall a, b :: wrap(a) == wrap(b) ==> a == b)
    && (forall a, k :: Rank(wrap(a)) == Rank(k) ==> exists t :: k == wrap(t))
    && forall a :: !wrap(a).Null?
  }

  lemma BetweenIsKind(k: IndexValue, lo: IndexValue, hi: IndexValue, withLo: bool, withHi: bool)
    requires Between(k, lo, hi, withLo, withHi) && Rank(lo) == Rank(hi)
    ensures Rank(k) == Rank(lo)
  {
  }

  lemma KindSelects<T(!new)>(ix: Index, docs: Collection, ids: seq<Id>, field: string, wrap: T -> IndexValue,
                             at: Fields -> Option<T>, less: (T, T) -> bool, lo: T, hi: T, withLo: bool, withHi: bool, id: Id)
    requires ix.fields == [field] && IsKind(field, wrap, at, less) && Rank(wrap(lo)) == Rank(wrap(hi))
    requires ScanSelects(ix, docs, ids, Some([wrap(lo)]), Some([wrap(hi)]), withLo, withHi)
    ensures id in ids <==>
            id in docs && at(docs[id]).Some? &&
            var v := at(docs[id]).value; (less(lo, v) || (withLo && v == lo)) && (less(v, hi) || (withHi && v == hi))
  {
    SoloRange(ix, docs, ids, field, wrap(lo), wrap(hi), withLo, withHi, id);
    if id in docs {
      if at(docs[id]).Some? {
        var v := at(docs[id]).value;
        assert Shows(wrap(v), Lookup(docs[id], field));
        if id in ids {
          var k :| Shows(k, Lookup(docs[id], field)) && Between(k, wrap(lo), wrap(hi), withLo, withHi);
          SoloKey(ix, docs[id], field, k);
          SoloKey(ix, docs[id], field, wrap(v));
        }
      }
      if id in ids {
        var k :| Shows(k, Lookup(docs[id], field)) && Between(k, wrap(lo), wrap(hi), withLo, withHi);
        BetweenIsKind(k, wrap(lo), wrap(hi), withLo, withHi);
        var t :| k == wrap(t);
        assert at(docs[id]) == Some(t);
      }
    }
  }

  lemma KindAnswers<T(!new)>(ix: Index, docs: Collection, ids: seq<Id>, field: string, wrap: T -> IndexValue,
                             at: Fields -> Option<T>, less: (T, T) -> bool, lo: T, hi: T, withLo: bool, withHi: bool)
    requires ix.fields == [field] && IsKind(field, wrap, at, less) && Rank(wrap(lo)) == Rank(wrap(hi))
    requires ScanSelects(ix, docs, ids, Some([wrap(lo)]), Some([wrap(hi)]), withLo, withHi)
    ensures Answers(docs, ids, at, less, lo, hi, withLo, withHi)
  {
    forall id
      ensures id in ids <==>
              id in docs && at(docs[id]).Some? &&
              var v := at(docs[id]).value; (less(lo, v) || (withLo && v == lo)) && (less(v, hi) || (withHi && v == hi))
    {
      KindSelects(ix, docs, ids, field, wrap, at, less, lo, hi, withLo, withHi, id);
    }
    forall i, j | 0 <= i < j < |ids| && at(docs[ids[i]]).Some? && at(docs[ids[j]]).Some?
      ensures !less(at(docs[ids[j]]).value, at(docs[ids[i]]).value)
    {
      var k, l := wrap(at(docs[ids[i]]).value), wrap(at(docs[ids[j]]).value);
      assert ids[i] in ids && ids[j] in ids;
      SoloOrder(ix, docs, ids, field, Some([wrap(lo)]), Some([wrap(hi)]), withLo, withHi, i, j, k, l);
      ValueTotal(k, l);
    }
  }

  /** The integer a document holds in a field, of either width. */
  function IntAt(field: string): (at: Fields -> Option<int>) {
    (doc: Fields) =>
      match Lookup(doc, field)
      case Some(Int32(i)) => Some(i)
      case Some(Int64(i)) => Some(i)
      case _ => None
  }

  /** A range of integers, by number. */
  lemma IntRange(ix: Index, docs: Collection, ids: seq<Id>, field: string, lo: int, hi: int, withLo: bool, withHi: bool)
    requires ix.fields == [field]
    requires ScanSelects(ix, docs, ids, Some([Int(lo)]), Some([Int(hi)]), withLo, withHi)
    ensures Answers(docs, ids, IntAt(field), (a: int, b: int) => a < b, lo, hi, withLo, withHi)
  {
    var wrap, less := (i: int) => Int(i), (a: int, b: int) => a < b;
    assert forall k :: Rank(k) == Rank(Int(0)) ==> k == wrap(k.i);
    KindAnswers(ix, docs, ids, field, wrap, IntAt(field), less, lo, hi, withLo, withHi);
  }

  /** The time a document holds, in whole seconds. */
  function SecondsAt(field: string): (at: Fields -> Option<int>) {
    (doc: Fields) =>
      match Lookup(doc, field)
      case Some(DateTime(seconds, _)) => Some(seconds)
      case _ => None
  }

  /** A range of times, by the second. */
  lemma TimeRange(ix: Index, docs: Collection, ids: seq<Id>, field: string, lo: int, hi: int, withLo: bool, withHi: bool)
    requires ix.fields == [field]
    requires ScanSelects(ix, docs, ids, Some([IndexValue.DateTime(lo)]), Some([IndexValue.DateTime(hi)]), withLo, withHi)
    ensures Answers(docs, ids, SecondsAt(field), (a: int, b: int) => a < b, lo, hi, withLo, withHi)
  {
    var wrap, less := (i: int) => IndexValue.DateTime(i), (a: int, b: int) => a < b;
    assert forall k :: Rank(k) == Rank(IndexValue.DateTime(0)) ==> k == wrap(k.seconds);
    KindAnswers(ix, docs, ids, field, wrap, SecondsAt(field), less, lo, hi, withLo, withHi);
  }

  /** The floating-point number a document holds. */
  function FloatAt(field: string): (at: Fields -> Option<Documents.Float>) {
    (doc: Fields) =>
      match Lookup(doc, field)
      case Some(Float64(f)) => Some(f)
      case _ => None
  }

  /** Numbers by size, between the infinities. */
  function FloatOrder(): (less: (Documents.Float, Documents.Float) -> bool) {
    (a: Documents.Float, b: Documents.Float) =>
      if a.Finite? && b.Finite? then a.r < b.r else a != b && (a == NegInf || b == PosInf)
  }

  lemma FloatRange(ix: Index, docs: Collection, ids: seq<Id>, field: string, lo: Documents.Float, hi: Documents.Float,
                   withLo: bool, withHi: bool)
    requires ix.fields == [field]
    requires ScanSelects(ix, docs, ids, Some([IndexValue.Float(lo)]), Some([IndexValue.Float(hi)]), withLo, withHi)
    ensures Answers(docs, ids, FloatAt(field), FloatOrder(), lo, hi, withLo, withHi)
  {
    var wrap := (f: Documents.Float) => IndexValue.Float(f);
    assert forall k :: Rank(k) == Rank(IndexValue.Float(lo)) ==> k == wrap(k.f);
    KindAnswers(ix, docs, ids, field, wrap, FloatAt(field), FloatOrder(), lo, hi, withLo, withHi);
  }

  function TextAt(field: string): (at: Fields -> Option<string>) {
    (doc: Fields) =>
      match Lookup(doc, field)
      case Some(String(s)) => Some(s)
      case _ => None
  }

  /** By the first character that differs; a string before what it starts. */
  ghost predicate TextLess(a: string, b: string) {
    exists n :: 0 <= n <= |a| && n < |b| && a[..n] == b[..n] && (n < |a| ==> a[n] < b[n])
  }

  lemma TextLessIff(a: string, b: string)
    ensures ValueLess(IndexValue.String(a), IndexValue.String(b)) <==> TextLess(a, b)
  {
    LexLessIff(CharLess(), a, b);
    if n :| 0 <= n <= |a| && n < |b| && a[..n] == b[..n] && (n < |a| ==> a[n] < b[n]) {
      assert LessAt(CharLess(), a, b, n);
    }
    if n: nat :| LessAt(CharLess(), a, b, n) { assert a[..n] == b[..n]; }
  }

  /** A range of strings. */
  lemma TextRange(ix: Index, docs: Collection, ids: seq<Id>, field: string, lo: string, hi: string, withLo: bool, withHi: bool)
    requires ix.fields == [field]
    requires ScanSelects(ix, docs, ids, Some([IndexValue.String(lo)]), Some([IndexValue.String(hi)]), withLo, withHi)
    ensures Answers(docs, ids, TextAt(field), (a: string, b: string) => TextLess(a, b), lo, hi, withLo, withHi)
  {
    var wrap, less := (s: string) => IndexValue.String(s), (a: string, b: string) => TextLess(a, b);
    forall a: string, b: string ensures less(a, b) <==> ValueLess(wrap(a), wrap(b)) { TextLessIff(a, b); }
    assert forall k :: Rank(k) == Rank(IndexValue.String(lo)) ==> k == wrap(k.s);
    KindAnswers(ix, docs, ids, field, wrap, TextAt(field), less, lo, hi, withLo, withHi);
  }

  function BinaryAt(field: string): (at: Fields -> Option<Bytes>) {
    (doc: Fields) =>
      match Lookup(doc, field)
      case Some(Binary(bytes)) => Some(bytes)
      case _ => None
  }

  function ObjectIdAt(field: string): (at: Fields -> Option<Bytes>) {
    (doc: Fields) =>
      match Lookup(doc, field)
      case Some(ObjectId(id)) => Some(id)
      case _ => None
  }

  /** By the first byte that differs; bytes before what they start. */
  ghost predicate BytesLess(a: Bytes, b: Bytes) {
    exists n :: 0 <= n <= |a| && n < |b| && a[..n] == b[..n] && (n < |a| ==> a[n] < b[n])
  }

  lemma BytesLessIff(a: Bytes, b: Bytes)
    ensures LexLess(ByteLess(), a, b) <==> BytesLess(a, b)
  {
    LexLessIff(ByteLess(), a, b);
    if n :| 0 <= n <= |a| && n < |b| && a[..n] == b[..n] && (n < |a| ==> a[n] < b[n]) {
      assert LessAt(ByteLess(), a, b, n);
    }
    if n: nat :| LessAt(ByteLess(), a, b, n) { assert a[..n] == b[..n]; }
  }

  lemma BinaryRange(ix: Index, docs: Collection, ids: seq<Id>, field: string, lo: Bytes, hi: Bytes, withLo: bool, withHi: bool)
    requires ix.fields == [field]
    requires ScanSelects(ix, docs, ids, Some([IndexValue.Binary(lo)]), Some([IndexValue.Binary(hi)]), withLo, withHi)
    ensures Answers(docs, ids, BinaryAt(field), (a: Bytes, b: Bytes) => BytesLess(a, b), lo, hi, withLo, withHi)
  {
    var wrap, less := (s: Bytes) => IndexValue.Binary(s), (a: Bytes, b: Bytes) => BytesLess(a, b);
    forall a: Bytes, b: Bytes ensures less(a, b) <==> ValueLess(wrap(a), wrap(b)) { BytesLessIff(a, b); }
    assert forall k :: Rank(k) == Rank(IndexValue.Binary(lo)) ==> k == wrap(k.bytes);
    KindAnswers(ix, docs, ids, field, wrap, BinaryAt(field), less, lo, hi, withLo, withHi);
  }

  lemma ObjectIdRange(ix: Index, docs: Collection, ids: seq<Id>, field: string, lo: Bytes, hi: Bytes, withLo: bool, withHi: bool)
    requires ix.fields == [field]
    requires ScanSelects(ix, docs, ids, Some([IndexValue.ObjectId(lo)]), Some([IndexValue.ObjectId(hi)]), withLo, withHi)
    ensures Answers(docs, ids, ObjectIdAt(field), (a: Bytes, b: Bytes) => BytesLess(a, b), lo, hi, withLo, withHi)
  {
    var wrap, less := (s: Bytes) => IndexValue.ObjectId(s), (a: Bytes, b: Bytes) => BytesLess(a, b);
    forall a: Bytes, b: Bytes ensures less(a, b) <==> ValueLess(wrap(a), wrap(b)) { BytesLessIff(a, b); }
    assert forall k :: Rank(k) == Rank(IndexValue.ObjectId(lo)) ==> k == wrap(k.id);
    KindAnswers(ix, docs, ids, field, wrap, ObjectIdAt(field), less, lo, hi, withLo, withHi);
  }

  // ----------------------------------------------------------- all kinds together

  /** Null or missing, then truth values, integers, floats, strings, bytes,
      object ids, times. */
  function KindOf(v: Option<Value>): nat {
    match v
    case None => 0
    case Some(Null) => 0
    case Some(Bool(_)) => 1
    case Some(Int32(_)) => 2
    case Some(Int64(_)) => 2
    case Some(Float64(_)) => 3
    case Some(String(_)) => 4
    case Some(Binary(_)) => 5
    case Some(ObjectId(_)) => 6
    case Some(DateTime(_, _)) => 7
    case Some(Array(_)) => 8
    case Some(Object(_)) => 8
  }

  lemma KindIsRank(k: IndexValue, v: Option<Value>)
    requires Shows(k, v)
    ensures KindOf(v) == Rank(k)
  {
  }

  /** Whatever the bounds, the answer comes kind by kind, nulls first, and false
      before true. */
  lemma KindsInOrder(ix: Index, docs: Collection, ids: seq<Id>, field: string, start: Option<IndexKey>, end: Option<IndexKey>,
                     withLo: bool, withHi: bool, i: nat, j: nat)
    requires ix.fields == [field] && ScanSelects(ix, docs, ids, start, end, withLo, withHi) && i < j < |ids|
    ensures ids[i] in docs && ids[j] in docs
    ensures KindOf(Lookup(docs[ids[i]], field)) <= KindOf(Lookup(docs[ids[j]], field))
    ensures !(Lookup(docs[ids[i]], field) == Some(Value.Bool(true)) && Lookup(docs[ids[j]], field) == Some(Value.Bool(false)))
  {
    assert ids[i] in ids && ids[j] in ids;
    SoloKey(ix, docs[ids[i]], field, IndexValue.Null);
    SoloKey(ix, docs[ids[j]], field, IndexValue.Null);
    var k :| Listed(ix, docs[ids[i]]) == Some([k]) && Shows(k, Lookup(docs[ids[i]], field));
    var l :| Listed(ix, docs[ids[j]]) == Some([l]) && Shows(l, Lookup(docs[ids[j]], field));
    SoloOrder(ix, docs, ids, field, start, end, withLo, withHi, i, j, k, l);
    KindIsRank(k, Lookup(docs[ids[i]], field));
    KindIsRank(l, Lookup(docs[ids[j]], field));
  }

  // ------------------------------------------------------------- several fields

  /** The document holds these integers in the fields, in that order. */
  ghost predicate HoldsInts(doc: Fields, fields: seq<string>, xs: seq<int>) {
    |xs| == |fields| && forall n :: 0 <= n < |fields| ==> IntAt(fields[n])(doc) == Some(xs[n])
  }

  /** Documents with integers in all fields of the index come by the first
      field that differs. */
  lemma CompoundOrder(ix: Index, docs: Collection, ids: seq<Id>, start: Option<IndexKey>, end: Option<IndexKey>,
                      withLo: bool, withHi: bool, i: nat, j: nat, xs: seq<int>, ys: seq<int>)
    requires ScanSelects(ix, docs, ids, start, end, withLo, withHi) && i < j < |ids| && ids[i] in docs && ids[j] in docs
    requires HoldsInts(docs[ids[i]], ix.fields, xs) && HoldsInts(docs[ids[j]], ix.fields, ys)
    ensures xs == ys || exists n :: 0 <= n < |xs| && xs[..n] == ys[..n] && xs[n] < ys[n]
  {
    assert ids[i] in ids && ids[j] in ids;
    IntKeyShows(docs[ids[i]], ix.fields, xs);
    IntKeyShows(docs[ids[j]], ix.fields, ys);
    IntKeysInOrder(xs, ys);
  }

  lemma IntKeysInOrder(xs: seq<int>, ys: seq<int>)
    requires |xs| == |ys|
    ensures IntKey(xs) == IntKey(ys) ==> xs == ys
    ensures KeyLess(IntKey(xs), IntKey(ys)) ==> exists n :: 0 <= n < |xs| && xs[..n] == ys[..n] && xs[n] < ys[n]
  {
    var k, l := IntKey(xs), IntKey(ys);
    KeyTotal(k, l);
    if k == l {
      assert forall n :: 0 <= n < |xs| ==> Int(xs[n]) == k[n] == l[n] == Int(ys[n]);
    } else if KeyLess(k, l) {
      LexLessIff(ValueOrder(), k, l);
      var n: nat :| LessAt(ValueOrder(), k, l, n);
      assert forall m :: 0 <= m < n ==> k[m] == k[..n][m] == l[..n][m] == l[m];
      assert forall m :: 0 <= m < n ==> xs[m] == ys[m];
      assert xs[..n] == ys[..n] && k[n] == Int(xs[n]) && l[n] == Int(ys[n]);
    }
  }

  function IntKey(xs: seq<int>): (key: IndexKey)
    ensures |key| == |xs| && forall n :: 0 <= n < |xs| ==> key[n] == Int(xs[n])
  {
    seq(|xs|, n requires 0 <= n < |xs| => Int(xs[n]))
  }

  lemma IntKeyShows(doc: Fields, fields: seq<string>, xs: seq<int>)
    requires HoldsInts(doc, fields, xs)
    ensures KeyFor(doc, fields) == Some(IntKey(xs))
  {
    KeyIff(doc, fields, IntKey(xs));
    forall n | 0 <= n < |fields| ensures Shows(IntKey(xs)[n], Lookup(doc, fields[n])) {
      assert IntAt(fields[n])(doc) == Some(xs[n]);
    }
  }
}
