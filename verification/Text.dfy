/** Strings and sequences: lexicographic order over any ordered elements, and parsing numbers. */
module Text {
  import opened Wrappers

  // ---- Lexicographic order ----

  /** Of two elements exactly one is less, unless they are equal; and less is transitive. */
  ghost predicate TotalOrder<T(!new)>(less: (T, T) -> bool) {
    && (forall a, b :: a == b || less(a, b) || less(b, a))
    && (forall a, b :: less(a, b) ==> !less(b, a))
    && (forall a, b, c :: less(a, b) && less(b, c) ==> less(a, c))
  }

  predicate LexLess<T(==)>(less: (T, T) -> bool, a: seq<T>, b: seq<T>) {
    b != [] && (a == [] || less(a[0], b[0]) || (a[0] == b[0] && LexLess(less, a[1..], b[1..])))
  }

  lemma {:induction false} LexTotal<T(!new)>(less: (T, T) -> bool, a: seq<T>, b: seq<T>)
    requires TotalOrder(less)
    ensures a == b || LexLess(less, a, b) || LexLess(less, b, a)
    ensures !(LexLess(less, a, b) && LexLess(less, b, a)) && (a == b ==> !LexLess(less, a, b))
  {
    if a != [] && b != [] {
      LexTotal(less, a[1..], b[1..]);
      if a[0] == b[0] && a[1..] == b[1..] {
        assert a == [a[0]] + a[1..] && b == [b[0]] + b[1..];
      }
    }
  }

  lemma {:induction false} LexTransitive<T(!new)>(less: (T, T) -> bool, a: seq<T>, b: seq<T>, c: seq<T>)
    requires TotalOrder(less) && LexLess(less, a, b) && LexLess(less, b, c)
    ensures LexLess(less, a, c)
  {
    if a != [] && a[0] == b[0] == c[0] { LexTransitive(less, a[1..], b[1..], c[1..]); }
  }

  lemma {:induction false} LexSharedStart<T>(less: (T, T) -> bool, p: seq<T>, a: seq<T>, b: seq<T>)
    requires forall x :: x in p ==> !less(x, x)
    ensures LexLess(less, p + a, p + b) == LexLess(less, a, b)
  {
    if p == [] {
      assert p + a == a && p + b == b;
    } else {
      assert (p + a)[1..] == p[1..] + a && (p + b)[1..] == p[1..] + b;
      LexSharedStart(less, p[1..], a, b);
    }
  }

  /** Where `b` goes on and `a` has ended or has a lesser element, after a common start. */
  ghost predicate LessAt<T(!new)>(less: (T, T) -> bool, a: seq<T>, b: seq<T>, n: nat) {
    n <= |a| && n < |b| && a[..n] == b[..n] && (n < |a| ==> less(a[n], b[n]))
  }

  lemma {:induction false} LexLessIff<T(!new)>(less: (T, T) -> bool, a: seq<T>, b: seq<T>)
    ensures LexLess(less, a, b) <==> exists n: nat :: LessAt(less, a, b, n)
  {
    if a == [] || b == [] {
      if b != [] { assert LessAt(less, a, b, 0); }
    } else {
      LexLessIff(less, a[1..], b[1..]);
      assert a == [a[0]] + a[1..] && b == [b[0]] + b[1..];
      if less(a[0], b[0]) {
        assert LessAt(less, a, b, 0);
      } else if LexLess(less, a, b) {
        var n: nat :| LessAt(less, a[1..], b[1..], n);
        assert a[..n + 1] == [a[0]] + a[1..][..n] && b[..n + 1] == [b[0]] + b[1..][..n];
        assert LessAt(less, a, b, n + 1);
      }
      if n: nat :| LessAt(less, a, b, n) {
        if n > 0 {
          assert a[..n][0] == b[..n][0];
          assert a[1..][..n - 1] == a[..n][1..] && b[1..][..n - 1] == b[..n][1..];
          assert LessAt(less, a[1..], b[1..], n - 1);
        }
      }
    }
  }

  function CharLess(): (less: (char, char) -> bool) {
    (a: char, b: char) => a < b
  }

  // ---- Numbers ----

  predicate IsDigit(c: char) {
    '0' <= c <= '9'
  }

  ghost predicate AllDigits(s: string) {
    forall i :: 0 <= i < |s| ==> IsDigit(s[i])
  }

  function Decimal(s: string): (r: Option<nat>)
    ensures r.Some? <==> AllDigits(s)
  {
    if s == [] then Some(0)
    else
      assert AllDigits(s) <==> AllDigits(s[..|s| - 1]) && IsDigit(s[|s| - 1]);
      match Decimal(s[..|s| - 1])
      case None => None
      case Some(n) =>
        if IsDigit(s[|s| - 1]) then Some(10 * n + (s[|s| - 1] as int - '0' as int)) else None
  }

  /** Parsing an unsigned 64-bit number: a plus sign is allowed, nothing and overflow are not. */
  function ParseU64(s: string): (r: Option<nat>) {
    var digits := if s != [] && s[0] == '+' then s[1..] else s;
    if digits == [] then None
    else match Decimal(digits)
      case None => None
      case Some(n) => if n < 0x1_0000_0000_0000_0000 then Some(n) else None
  }

  /** What parses: digits, after a plus sign or none, whose number fits in 64 bits. */
  lemma ParsesIff(s: string, digits: string)
    requires s == digits || s == "+" + digits
    requires digits != "" && AllDigits(digits)
    ensures ParseU64(s) == if Decimal(digits).value < 0x1_0000_0000_0000_0000 then Decimal(digits) else None
  {
    assert IsDigit(digits[0]);
    if s == "+" + digits { assert s[1..] == digits; }
  }

  lemma NothingElseParses(s: string)
    requires ParseU64(s).Some?
    ensures exists digits :: digits != "" && AllDigits(digits) && (s == digits || s == "+" + digits)
  {
    if s[0] == '+' { assert s == "+" + s[1..]; }
  }

  lemma {:induction false} DecimalInjective(a: string, b: string)
    requires |a| == |b| && AllDigits(a) && AllDigits(b) && Decimal(a) == Decimal(b)
    ensures a == b
  {
    if a != [] {
      var n := |a| - 1;
      assert a == a[..n] + [a[n]] && b == b[..n] + [b[n]];
      assert IsDigit(a[n]) && IsDigit(b[n]);
      DecimalInjective(a[..n], b[..n]);
    }
  }

  /** Numerals of one length: the smaller number has the earlier name, whatever follows. */
  lemma {:induction false} NumeralOrder(a: string, b: string, u: string, v: string)
    requires |a| == |b| && AllDigits(a) && AllDigits(b) && Decimal(a).value < Decimal(b).value
    ensures LexLess(CharLess(), a + u, b + v)
  {
    if a != [] {
      var n := |a| - 1;
      var a', b' := a[..n], b[..n];
      assert IsDigit(a[n]) && IsDigit(b[n]);
      assert a + u == a' + ([a[n]] + u) && b + v == b' + ([b[n]] + v);
      if Decimal(a').value < Decimal(b').value {
        NumeralOrder(a', b', [a[n]] + u, [b[n]] + v);
      } else {
        DecimalInjective(a', b');
        LexSharedStart(CharLess(), a', [a[n]] + u, [b[n]] + v);
      }
    }
  }

  /** Numerals of any length, each followed by a dot: compared as far as both reach; where they
      agree that far, the shorter comes first. */
  predicate NumeralFirst(a: string, b: string) {
    var m := if |a| < |b| then |a| else |b|;
    var x, y := Decimal(a[..m]), Decimal(b[..m]);
    x.Some? && y.Some? && (x.value < y.value || (x.value == y.value && |a| < |b|))
  }

  lemma NumeralsDiffer(a: string, b: string, u: string, v: string)
    requires |a| == |b| && AllDigits(a) && AllDigits(b) && Decimal(a) != Decimal(b)
    ensures LexLess(CharLess(), a + u, b + v) <==> Decimal(a).value < Decimal(b).value
  {
    LexTotal(CharLess(), a + u, b + v);
    if Decimal(a).value < Decimal(b).value {
      NumeralOrder(a, b, u, v);
    } else {
      NumeralOrder(b, a, v, u);
    }
  }

  /** Behind a common start the dot of the shorter meets a digit of the longer. */
  lemma DotFirst(p: string, x: string, u: string, v: string)
    requires x != [] && AllDigits(x) && |u| > 0 && u[0] == '.'
    ensures LexLess(CharLess(), p + u, p + (x + v)) && !LexLess(CharLess(), p + (x + v), p + u)
  {
    LexSharedStart(CharLess(), p, u, x + v);
    LexSharedStart(CharLess(), p, x + v, u);
    assert IsDigit(x[0]) && (x + v)[0] == x[0];
  }

  lemma SplitAt(a: string, m: nat, u: string)
    requires m <= |a|
    ensures a + u == a[..m] + (a[m..] + u)
  {
  }

  lemma StartsDiffer(a: string, b: string, m: nat, u: string, v: string)
    requires AllDigits(a) && AllDigits(b) && m <= |a| && m <= |b| && Decimal(a[..m]) != Decimal(b[..m])
    ensures LexLess(CharLess(), a + u, b + v) <==> Decimal(a[..m]).value < Decimal(b[..m]).value
  {
    SplitAt(a, m, u);
    SplitAt(b, m, v);
    NumeralsDiffer(a[..m], b[..m], a[m..] + u, b[m..] + v);
  }

  lemma ShorterFirst(a: string, b: string, u: string, v: string)
    requires AllDigits(a) && AllDigits(b) && |a| < |b| && |u| > 0 && u[0] == '.'
    requires Decimal(a) == Decimal(b[..|a|])
    ensures LexLess(CharLess(), a + u, b + v) && !LexLess(CharLess(), b + v, a + u)
  {
    DecimalInjective(a, b[..|a|]);
    SplitAt(b, |a|, v);
    DotFirst(a, b[|a|..], u, v);
  }

  lemma NumeralsByName(a: string, b: string, u: string, v: string)
    requires AllDigits(a) && AllDigits(b) && |u| > 0 && |v| > 0 && u[0] == v[0] == '.'
    requires Decimal(a) != Decimal(b)
    ensures LexLess(CharLess(), a + u, b + v) <==> NumeralFirst(a, b)
  {
    var m := if |a| < |b| then |a| else |b|;
    assert a[..|a|] == a && b[..|b|] == b;
    if Decimal(a[..m]) != Decimal(b[..m]) {
      StartsDiffer(a, b, m, u, v);
    } else if |a| < |b| {
      ShorterFirst(a, b, u, v);
    } else {
      ShorterFirst(b, a, v, u);
    }
  }
}
