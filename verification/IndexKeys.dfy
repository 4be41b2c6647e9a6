/**
 Index keys: scalar values taken from documents, and the lexicographic order
 in which a B-tree keeps them.
 */
module IndexKeys {
  import opened Wrappers
  import opened Text
  import opened Memory
  import opened Documents

  datatype IndexValue =
    | Null
    | Bool(b: bool)
    | Int(i: int)
    | Float(f: Documents.Float)
    | String(s: string)
    | Binary(bytes: Bytes)
    | ObjectId(id: Bytes)
    | DateTime(seconds: int)

  type IndexKey = seq<IndexValue>

  /** Scalars can be indexed; both integer widths become one kind, and times
      lose their fraction of a second. */
  function FromValue(v: Value): Option<IndexValue> {
    match v
    case Null => Some(IndexValue.Null)
    case Bool(b) => Some(IndexValue.Bool(b))
    case Int32(i) => Some(Int(i))
    case Int64(i) => Some(Int(i))
    case Float64(f) => Some(Float(f))
    case String(s) => Some(IndexValue.String(s))
    case Binary(bs) => Some(IndexValue.Binary(bs))
    case ObjectId(id) => Some(IndexValue.ObjectId(id))
    case DateTime(seconds, _) => Some(IndexValue.DateTime(seconds))
    case Array(_) => None
    case Object(_) => None
  }

  /** The indexed field, or null where the document lacks it. */
  function FieldOf(doc: Fields, field: string): Value {
    match Get(doc, Split(field))
    case Some(v) => v
    case None => Value.Null
  }

  /** The key of a document, unless one of the fields cannot be indexed. */
  function KeyFor(doc: Fields, fields: seq<string>): Option<IndexKey> {
    if fields == [] then Some([])
    else
      match FromValue(FieldOf(doc, fields[0]))
      case None => None
      case Some(v) =>
        match KeyFor(doc, fields[1..])
        case None => None
        case Some(rest) => Some([v] + rest)
  }

  predicate HasNull(key: IndexKey) {
    exists i :: 0 <= i < |key| && key[i].Null?
  }

  // --------------------------------------------------------------------- order

  predicate FloatLess(a: Documents.Float, b: Documents.Float) {
    match (a, b)
    case (NegInf, NegInf) => false
    case (NegInf, _) => true
    case (Finite(x), Finite(y)) => x < y
    case (Finite(_), PosInf) => true
    case (_, _) => false
  }

  function ByteLess(): (less: (Byte, Byte) -> bool) {
    (a: Byte, b: Byte) => a < b
  }

  /** The position of a value's kind: null sorts lowest. */
  function Rank(v: IndexValue): nat {
    match v
    case Null => 0
    case Bool(_) => 1
    case Int(_) => 2
    case Float(_) => 3
    case String(_) => 4
    case Binary(_) => 5
    case ObjectId(_) => 6
    case DateTime(_) => 7
  }

  predicate ValueLess(a: IndexValue, b: IndexValue) {
    if Rank(a) != Rank(b) then Rank(a) < Rank(b)
    else
      match a
      case Null => false
      case Bool(x) => !x && b.b
      case Int(x) => x < b.i
      case Float(x) => FloatLess(x, b.f)
      case String(x) => LexLess(CharLess(), x, b.s)
      case Binary(x) => LexLess(ByteLess(), x, b.bytes)
      case ObjectId(x) => LexLess(ByteLess(), x, b.id)
      case DateTime(x) => x < b.seconds
  }

  lemma ValueTotal(a: IndexValue, b: IndexValue)
    ensures a == b || ValueLess(a, b) || ValueLess(b, a)
    ensures !(ValueLess(a, b) && ValueLess(b, a))
  {
    match (a, b)
    case (String(x), String(y)) => LexTotal(CharLess(), x, y);
    case (Binary(x), Binary(y)) => LexTotal(ByteLess(), x, y);
    case (ObjectId(x), ObjectId(y)) => LexTotal(ByteLess(), x, y);
    case _ =>
  }

  lemma ValueTransitive(a: IndexValue, b: IndexValue, c: IndexValue)
    requires ValueLess(a, b) && ValueLess(b, c)
    ensures ValueLess(a, c)
  {
    match (a, b, c)
    case (String(x), String(y), String(z)) => LexTransitive(CharLess(), x, y, z);
    case (Binary(x), Binary(y), Binary(z)) => LexTransitive(ByteLess(), x, y, z);
    case (ObjectId(x), ObjectId(y), ObjectId(z)) => LexTransitive(ByteLess(), x, y, z);
    case _ =>
  }

  function ValueOrder(): (less: (IndexValue, IndexValue) -> bool) {
    (a: IndexValue, b: IndexValue) => ValueLess(a, b)
  }

  lemma ValuesAreOrdered()
    ensures TotalOrder(ValueOrder())
  {
    forall a: IndexValue, b: IndexValue
      ensures a == b || ValueOrder()(a, b) || ValueOrder()(b, a)
      ensures ValueOrder()(a, b) ==> !ValueOrder()(b, a)
    {
      ValueTotal(a, b);
    }
    forall a: IndexValue, b: IndexValue, c: IndexValue | ValueOrder()(a, b) && ValueOrder()(b, c)
      ensures ValueOrder()(a, c)
    {
      ValueTransitive(a, b, c);
    }
  }

  /** Lexicographic order on compound keys. */
  predicate KeyLess(a: IndexKey, b: IndexKey) {
    LexLess(ValueOrder(), a, b)
  }

  /** The keys are strictly and totally ordered. */
  lemma KeyTotal(a: IndexKey, b: IndexKey)
    ensures a == b || KeyLess(a, b) || KeyLess(b, a)
    ensures !(KeyLess(a, b) && KeyLess(b, a))
    ensures a == b ==> !KeyLess(a, b)
  {
    ValuesAreOrdered();
    LexTotal(ValueOrder(), a, b);
  }

  lemma KeyTransitive(a: IndexKey, b: IndexKey, c: IndexKey)
    requires KeyLess(a, b) && KeyLess(b, c)
    ensures KeyLess(a, c)
  {
    ValuesAreOrdered();
    LexTransitive(ValueOrder(), a, b, c);
  }

  ghost predicate Ascending(ks: seq<IndexKey>) {
    forall i, j :: 0 <= i < j < |ks| ==> KeyLess(ks[i], ks[j])
  }

  ghost predicate IsLeast(k: IndexKey, keys: set<IndexKey>) {
    k in keys && forall l :: l in keys && l != k ==> KeyLess(k, l)
  }

  lemma {:induction false} LeastExists(keys: set<IndexKey>) returns (k: IndexKey)
    requires keys != {}
    ensures IsLeast(k, keys)
  {
    k :| k in keys;
    if keys != {k} {
      var l := LeastExists(keys - {k});
      KeyTotal(k, l);
      if KeyLess(k, l) {
        forall m | m in keys && m != k
          ensures KeyLess(k, m)
        {
          if m != l { KeyTransitive(k, l, m); }
        }
      } else {
        k := l;
      }
    }
  }

  /** The order in which a B-tree map yields its keys. */
  method InOrder(keys: set<IndexKey>) returns (ks: seq<IndexKey>)
    ensures Ascending(ks)
    ensures forall k :: k in ks <==> k in keys
  {
    ks := [];
    var rest := keys;
    while rest != {}
      invariant rest <= keys
      invariant forall k :: k in ks <==> k in keys - rest
      invariant Ascending(ks)
      invariant forall i, k :: 0 <= i < |ks| && k in rest ==> KeyLess(ks[i], k)
      decreases rest
    {
      ghost var least := LeastExists(rest);
      var k :| k in rest && forall l :: l in rest && l != k ==> KeyLess(k, l);
      ks := ks + [k];
      rest := rest - {k};
    }
  }
}
