/** The `sortMethods` comparator and a stable sort driven by it.

    The comparator reads three things from a method declaration: whether it is a
    constructor, its name and the simple names of its parameter types. Case folding
    is ASCII only. */
module MethodOrder {

  /** What the comparator reads from a method declaration. */
  datatype MethodSig = MethodSig(isConstructor: bool, name: string, paramTypes: seq<string>)

  function Lower(c: char): char {
    if 'A' <= c <= 'Z' then (c as int + 32) as char else c
  }

  /** A string with every letter in lower case. */
  function Fold(s: string): (r: string)
    ensures |r| == |s| && forall i :: 0 <= i < |s| ==> r[i] == Lower(s[i])
  {
    seq(|s|, i requires 0 <= i < |s| => Lower(s[i]))
  }

  /** Lexicographic order on strings by character code, a proper prefix first. */
  predicate LexLess(x: string, y: string) {
    if |x| == 0 then |y| > 0
    else if |y| == 0 then false
    else if x[0] != y[0] then x[0] < y[0]
    else LexLess(x[1..], y[1..])
  }

  lemma {:induction false} LexLessIrreflexive(x: string)
    ensures !LexLess(x, x)
    decreases |x|
  {
    if |x| > 0 {
      LexLessIrreflexive(x[1..]);
    }
  }

  /** Two different strings are ordered one way or the other, never both. */
  lemma {:induction false} LexLessTotal(x: string, y: string)
    ensures x != y <==> LexLess(x, y) || LexLess(y, x)
    ensures !(LexLess(x, y) && LexLess(y, x))
    decreases |x|
  {
    if |x| == 0 || |y| == 0 {
    } else if x[0] != y[0] {
    } else {
      LexLessTotal(x[1..], y[1..]);
      if x[1..] == y[1..] {
        assert x == [x[0]] + x[1..] && y == [y[0]] + y[1..];
      }
    }
  }

  lemma {:induction false} LexLessTransitive(x: string, y: string, z: string)
    requires LexLess(x, y) && LexLess(y, z)
    ensures LexLess(x, z)
    decreases |x|
  {
    if |x| > 0 && |y| > 0 && |z| > 0 && x[0] == y[0] && y[0] == z[0] {
      LexLessTransitive(x[1..], y[1..], z[1..]);
    }
  }

  /** `String.compareToIgnoreCase`: the difference of the first differing folded
      characters, or of the lengths when one string is a prefix of the other. */
  function CompareToIgnoreCase(a: string, b: string): (r: int)
    ensures r == 0 <==> Fold(a) == Fold(b)
    ensures r < 0 <==> LexLess(Fold(a), Fold(b))
    decreases |a|
  {
    if |a| == 0 || |b| == 0 then
      |a| - |b|
    else if Lower(a[0]) != Lower(b[0]) then
      Lower(a[0]) as int - Lower(b[0]) as int
    else
      var r := CompareToIgnoreCase(a[1..], b[1..]);
      assert Fold(a) == [Lower(a[0])] + Fold(a[1..]);
      assert Fold(b) == [Lower(b[0])] + Fold(b[1..]);
      r
  }

  /** Swapping the arguments negates the result. */
  lemma {:induction false} CompareToIgnoreCaseAntisymmetric(a: string, b: string)
    ensures CompareToIgnoreCase(a, b) == -CompareToIgnoreCase(b, a)
    decreases |a|
  {
    if |a| > 0 && |b| > 0 && Lower(a[0]) == Lower(b[0]) {
      CompareToIgnoreCaseAntisymmetric(a[1..], b[1..]);
    }
  }

  /** Every type name folded to lower case. */
  function FoldAll(ps: seq<string>): (r: seq<string>)
    ensures |r| == |ps| && forall i :: 0 <= i < |ps| ==> r[i] == Fold(ps[i])
  {
    seq(|ps|, i requires 0 <= i < |ps| => Fold(ps[i]))
  }

  /** Lexicographic order on lists of strings, a proper prefix first. */
  predicate SeqLexLess(p: seq<string>, q: seq<string>) {
    if |p| == 0 then |q| > 0
    else if |q| == 0 then false
    else if p[0] != q[0] then LexLess(p[0], q[0])
    else SeqLexLess(p[1..], q[1..])
  }

  /** No position shared by both lists holds two type names that differ only in case. */
  predicate ParamsCaseConsistent(p: seq<string>, q: seq<string>) {
    forall i :: 0 <= i < |p| && i < |q| ==> p[i] == q[i] || Fold(p[i]) != Fold(q[i])
  }

  /** Position `k` is the first, within both lists, whose type names differ as written. */
  predicate FirstDifferenceAt(p: seq<string>, q: seq<string>, k: int) {
    0 <= k < |p| && k < |q| && p[..k] == q[..k] && p[k] != q[k]
  }

  /** `p` is a prefix of `q`, compared as written. */
  predicate IsPrefix(p: seq<string>, q: seq<string>) {
    |p| <= |q| && p == q[..|p|]
  }

  /** The parameter loop of the comparator: the first position whose type names
      differ as written decides, case-insensitively (`ParamCompareFirstDifference`);
      when one list is a prefix of the other, the difference of the lengths decides
      (`ParamComparePrefix`). Lists equal up to case compare equal; when no shared
      position differs only in case, the result follows the lexicographic order of
      the folded lists. */
  function ParamCompare(p: seq<string>, q: seq<string>): (r: int)
    ensures FoldAll(p) == FoldAll(q) ==> r == 0
    ensures ParamsCaseConsistent(p, q) ==>
      && (r == 0 <==> FoldAll(p) == FoldAll(q))
      && (r < 0 <==> SeqLexLess(FoldAll(p), FoldAll(q)))
    decreases |p|
  {
    if |p| == 0 || |q| == 0 then
      |p| - |q|
    else if p[0] != q[0] then
      var r := CompareToIgnoreCase(p[0], q[0]);
      assert FoldAll(p)[0] == Fold(p[0]) && FoldAll(q)[0] == Fold(q[0]);
      r
    else
      var r := ParamCompare(p[1..], q[1..]);
      assert FoldAll(p) == [Fold(p[0])] + FoldAll(p[1..]);
      assert FoldAll(q) == [Fold(q[0])] + FoldAll(q[1..]);
      assert ParamsCaseConsistent(p, q) ==> ParamsCaseConsistent(p[1..], q[1..]) by {
        if ParamsCaseConsistent(p, q) {
          forall i | 0 <= i < |p[1..]| && i < |q[1..]|
            ensures p[1..][i] == q[1..][i] || Fold(p[1..][i]) != Fold(q[1..][i])
          {
            assert p[1..][i] == p[i + 1] && q[1..][i] == q[i + 1];
          }
        }
      }
      r
  }

  /** The comparator's view of a declaration once case is ignored: constructors rank
      first, then the folded name, then the folded parameter type names. */
  datatype SortKey = SortKey(rank: nat, name: string, params: seq<string>)

  function Key(m: MethodSig): SortKey {
    SortKey(if m.isConstructor then 0 else 1, Fold(m.name), FoldAll(m.paramTypes))
  }

  /** Lexicographic order on keys. */
  predicate KeyLess(a: SortKey, b: SortKey) {
    || a.rank < b.rank
    || (a.rank == b.rank && LexLess(a.name, b.name))
    || (a.rank == b.rank && a.name == b.name && SeqLexLess(a.params, b.params))
  }

  /** Two declarations whose names do not differ only in case, and, when the names
      are equal, whose parameter lists have no shared position holding two type
      names that differ only in case. */
  predicate CaseConsistent(m1: MethodSig, m2: MethodSig) {
    && (m1.name != m2.name ==> Fold(m1.name) != Fold(m2.name))
    && (m1.name == m2.name ==> ParamsCaseConsistent(m1.paramTypes, m2.paramTypes))
  }

  /** The `sortMethods` comparator. A constructor precedes a non-constructor; then
      names that differ compare case-insensitively; then parameters decide. It never
      separates declarations that agree up to case, and between case-consistent
      declarations it is exactly the key order. */
  function Compare(m1: MethodSig, m2: MethodSig): (r: int)
    ensures m1.isConstructor && !m2.isConstructor ==> r < 0
    ensures !m1.isConstructor && m2.isConstructor ==> r > 0
    ensures m1.isConstructor == m2.isConstructor && m1.name != m2.name ==>
      (r == 0 <==> Fold(m1.name) == Fold(m2.name)) && (r < 0 <==> LexLess(Fold(m1.name), Fold(m2.name)))
    ensures Key(m1) == Key(m2) ==> r == 0
    ensures CaseConsistent(m1, m2) ==> (r == 0 <==> Key(m1) == Key(m2)) && (r < 0 <==> KeyLess(Key(m1), Key(m2)))
  {
    if m1.isConstructor && !m2.isConstructor then
      -1
    else if !m1.isConstructor && m2.isConstructor then
      1
    else if m1.name != m2.name then
      LexLessTotal(Fold(m1.name), Fold(m2.name));
      CompareToIgnoreCase(m1.name, m2.name)
    else
      LexLessIrreflexive(Fold(m1.name));
      ParamCompare(m1.paramTypes, m2.paramTypes)
  }

  lemma {:induction false} ParamCompareAntisymmetric(p: seq<string>, q: seq<string>)
    ensures ParamCompare(p, q) == -ParamCompare(q, p)
    decreases |p|
  {
    if |p| == 0 || |q| == 0 {
    } else if p[0] != q[0] {
      CompareToIgnoreCaseAntisymmetric(p[0], q[0]);
    } else {
      ParamCompareAntisymmetric(p[1..], q[1..]);
    }
  }

  /** For all lists, the first position whose type names differ as written decides,
      by `compareToIgnoreCase`, even when those names differ only in case. */
  lemma {:induction false} ParamCompareFirstDifference(p: seq<string>, q: seq<string>, k: int)
    requires FirstDifferenceAt(p, q, k)
    ensures ParamCompare(p, q) == CompareToIgnoreCase(p[k], q[k])
    decreases k
  {
    if k > 0 {
      assert p[0] == p[..k][0] && q[0] == q[..k][0];
      assert p[1..][..k - 1] == p[..k][1..];
      assert q[1..][..k - 1] == q[..k][1..];
      ParamCompareFirstDifference(p[1..], q[1..], k - 1);
    }
  }

  /** When one list is a prefix of the other, the difference of the lengths decides. */
  lemma {:induction false} ParamComparePrefix(p: seq<string>, q: seq<string>)
    requires IsPrefix(p, q) || IsPrefix(q, p)
    ensures ParamCompare(p, q) == |p| - |q|
    decreases |p|
  {
    if |p| > 0 && |q| > 0 {
      assert p[0] == q[0];
      assert IsPrefix(p, q) ==> p[1..] == q[..|p|][1..];
      assert IsPrefix(q, p) ==> q[1..] == p[..|q|][1..];
      ParamComparePrefix(p[1..], q[1..]);
    }
  }

  /** Two methods of the same rank and name, as written, are ordered by their
      parameters: the first differing type name decides case-insensitively, and
      otherwise the shorter list comes first. */
  lemma CompareSameName(m1: MethodSig, m2: MethodSig)
    requires m1.isConstructor == m2.isConstructor && m1.name == m2.name
    ensures forall k :: FirstDifferenceAt(m1.paramTypes, m2.paramTypes, k) ==>
      Compare(m1, m2) == CompareToIgnoreCase(m1.paramTypes[k], m2.paramTypes[k])
    ensures IsPrefix(m1.paramTypes, m2.paramTypes) || IsPrefix(m2.paramTypes, m1.paramTypes) ==>
      Compare(m1, m2) == |m1.paramTypes| - |m2.paramTypes|
  {
    forall k | FirstDifferenceAt(m1.paramTypes, m2.paramTypes, k)
      ensures Compare(m1, m2) == CompareToIgnoreCase(m1.paramTypes[k], m2.paramTypes[k])
    {
      ParamCompareFirstDifference(m1.paramTypes, m2.paramTypes, k);
    }
    if IsPrefix(m1.paramTypes, m2.paramTypes) || IsPrefix(m2.paramTypes, m1.paramTypes) {
      ParamComparePrefix(m1.paramTypes, m2.paramTypes);
    }
  }

  /** Swapping the declarations flips the sign of the comparison. */
  lemma CompareAntisymmetric(m1: MethodSig, m2: MethodSig)
    ensures Compare(m1, m2) < 0 <==> Compare(m2, m1) > 0
    ensures Compare(m1, m2) == 0 <==> Compare(m2, m1) == 0
  {
    if m1.isConstructor == m2.isConstructor {
      if m1.name != m2.name {
        CompareToIgnoreCaseAntisymmetric(m1.name, m2.name);
      } else {
        ParamCompareAntisymmetric(m1.paramTypes, m2.paramTypes);
      }
    }
  }

  /** Names that differ only in case make the comparator's "equal" intransitive:
      `foo(String)` ties with `Foo(int)`, which ties with `foo(int)`, yet `foo(int)`
      sorts strictly before `foo(String)`. */
  lemma CompareNotTransitive()
    ensures
      var a := MethodSig(false, "foo", ["String"]);
      var b := MethodSig(false, "Foo", ["int"]);
      var c := MethodSig(false, "foo", ["int"]);
      Compare(a, b) == 0 && Compare(b, c) == 0 && Compare(c, a) < 0
  {
    assert Fold("foo") == Fold("Foo") == "foo";
    assert Fold("int")[0] == 'i' && Fold("String")[0] == 's';
    assert LexLess(Fold("int"), Fold("String"));
  }

  /** Equal names are not enough either: with one name, parameter type names that
      differ only in case also break transitivity of "compares equal". */
  lemma CompareNotTransitiveParams()
    ensures
      var a := MethodSig(false, "foo", ["Foo", "int"]);
      var b := MethodSig(false, "foo", ["foo", "String"]);
      var c := MethodSig(false, "foo", ["Foo", "long"]);
      && Compare(a, b) == 0 && Compare(b, c) == 0 && Compare(a, c) < 0
      && !AllCaseConsistent([a, b, c])
  {
    var a := MethodSig(false, "foo", ["Foo", "int"]);
    var b := MethodSig(false, "foo", ["foo", "String"]);
    var c := MethodSig(false, "foo", ["Foo", "long"]);
    assert Fold("Foo") == Fold("foo") == "foo";
    assert Compare(a, b) == 0 by {
      assert FirstDifferenceAt(a.paramTypes, b.paramTypes, 0);
      CompareSameName(a, b);
    }
    assert Compare(b, c) == 0 by {
      assert FirstDifferenceAt(b.paramTypes, c.paramTypes, 0);
      CompareSameName(b, c);
    }
    assert Compare(a, c) < 0 by {
      assert a.paramTypes[..1] == c.paramTypes[..1] == ["Foo"];
      assert FirstDifferenceAt(a.paramTypes, c.paramTypes, 1);
      assert Fold("int")[0] == 'i' && Fold("long")[0] == 'l';
      CompareSameName(a, c);
    }
    assert !CaseConsistent(a, b);
    assert [a, b, c][0] == a && [a, b, c][1] == b;
  }

  lemma {:induction false} SeqLexLessTransitive(p: seq<string>, q: seq<string>, u: seq<string>)
    requires SeqLexLess(p, q) && SeqLexLess(q, u)
    ensures SeqLexLess(p, u)
    decreases |p|
  {
    if |p| > 0 && |q| > 0 && |u| > 0 {
      if p[0] == q[0] && q[0] == u[0] {
        SeqLexLessTransitive(p[1..], q[1..], u[1..]);
      } else if p[0] != q[0] && q[0] != u[0] {
        LexLessTransitive(p[0], q[0], u[0]);
        LexLessIrreflexive(p[0]);
      }
    }
  }

  lemma {:induction false} SeqLexLessTotal(p: seq<string>, q: seq<string>)
    ensures p != q <==> SeqLexLess(p, q) || SeqLexLess(q, p)
    ensures !(SeqLexLess(p, q) && SeqLexLess(q, p))
    decreases |p|
  {
    if |p| == 0 || |q| == 0 {
    } else if p[0] != q[0] {
      LexLessTotal(p[0], q[0]);
    } else {
      SeqLexLessTotal(p[1..], q[1..]);
      if p[1..] == q[1..] {
        assert p == [p[0]] + p[1..] && q == [q[0]] + q[1..];
      }
    }
  }

  /** The key order is a strict total order. */
  lemma KeyLessTransitive(a: SortKey, b: SortKey, c: SortKey)
    requires KeyLess(a, b) && KeyLess(b, c)
    ensures KeyLess(a, c)
  {
    if a.rank == b.rank == c.rank {
      if LexLess(a.name, b.name) && LexLess(b.name, c.name) {
        LexLessTransitive(a.name, b.name, c.name);
      } else if a.name == b.name == c.name {
        SeqLexLessTransitive(a.params, b.params, c.params);
      }
    }
  }

  lemma KeyLessTotal(a: SortKey, b: SortKey)
    ensures a != b <==> KeyLess(a, b) || KeyLess(b, a)
    ensures !(KeyLess(a, b) && KeyLess(b, a))
  {
    LexLessTotal(a.name, b.name);
    SeqLexLessTotal(a.params, b.params);
  }

  /** Every neighbouring pair is in comparator order. */
  predicate AdjacentSorted(s: seq<MethodSig>) {
    forall i :: 0 <= i < |s| - 1 ==> Compare(s[i], s[i + 1]) <= 0
  }

  /** The declarations whose key is `k`, in their order in `s`. */
  function WithKey(s: seq<MethodSig>, k: SortKey): seq<MethodSig> {
    if |s| == 0 then []
    else WithKey(s[..|s| - 1], k) + (if Key(s[|s| - 1]) == k then [s[|s| - 1]] else [])
  }

  lemma {:induction false} WithKeyAppend(a: seq<MethodSig>, b: seq<MethodSig>, k: SortKey)
    ensures WithKey(a + b, k) == WithKey(a, k) + WithKey(b, k)
    decreases |b|
  {
    if |b| == 0 {
      assert a + b == a;
    } else {
      assert (a + b)[..|a + b| - 1] == a + b[..|b| - 1];
      WithKeyAppend(a, b[..|b| - 1], k);
    }
  }

  /** One insertion step: `x` goes after the last element that does not compare
      greater than it, so it lands behind every element it ties with. */
  function InsertSorted(s: seq<MethodSig>, x: MethodSig): (r: seq<MethodSig>)
    ensures multiset(r) == multiset(s) + multiset{x}
    ensures |r| == |s| + 1
    ensures r[|r| - 1] == x || (|s| > 0 && r[|r| - 1] == s[|s| - 1])
    decreases |s|
  {
    if |s| == 0 then
      [x]
    else if Compare(s[|s| - 1], x) > 0 then
      assert s == s[..|s| - 1] + [s[|s| - 1]];
      InsertSorted(s[..|s| - 1], x) + [s[|s| - 1]]
    else
      s + [x]
  }

  /** Insertion keeps neighbours in order. */
  lemma {:induction false} InsertSortedAdjacent(s: seq<MethodSig>, x: MethodSig)
    requires AdjacentSorted(s)
    ensures AdjacentSorted(InsertSorted(s, x))
    decreases |s|
  {
    if |s| > 0 && Compare(s[|s| - 1], x) > 0 {
      var last := s[|s| - 1];
      var init := s[..|s| - 1];
      assert AdjacentSorted(init) by {
        forall i | 0 <= i < |init| - 1
          ensures Compare(init[i], init[i + 1]) <= 0
        {
          assert init[i] == s[i] && init[i + 1] == s[i + 1];
        }
      }
      InsertSortedAdjacent(init, x);
      CompareAntisymmetric(last, x);
      var r' := InsertSorted(init, x);
      var r := r' + [last];
      assert r == InsertSorted(s, x);
      forall i | 0 <= i < |r| - 1
        ensures Compare(r[i], r[i + 1]) <= 0
      {
        if i < |r'| - 1 {
          assert r[i] == r'[i] && r[i + 1] == r'[i + 1];
        } else if r'[|r'| - 1] != x {
          assert Compare(s[|s| - 2], s[|s| - 1]) <= 0;
        }
      }
    }
  }

  lemma WithKeySingle(x: MethodSig, k: SortKey)
    ensures WithKey([x], k) == if Key(x) == k then [x] else []
  {
    assert [x][..0] == [];
  }

  /** Insertion never moves `x` ahead of an element with the same key. */
  lemma {:induction false} InsertSortedStable(s: seq<MethodSig>, x: MethodSig, k: SortKey)
    ensures WithKey(InsertSorted(s, x), k) == WithKey(s, k) + WithKey([x], k)
    decreases |s|
  {
    if |s| == 0 {
      assert InsertSorted(s, x) == [x];
      assert s + [x] == [x];
      WithKeyAppend(s, [x], k);
    } else if Compare(s[|s| - 1], x) > 0 {
      var last := s[|s| - 1];
      var init := s[..|s| - 1];
      var r' := InsertSorted(init, x);
      assert InsertSorted(s, x) == r' + [last];
      assert s == init + [last];
      assert Key(last) != Key(x);
      InsertSortedStable(init, x, k);
      WithKeySwap(init, r', last, x, k);
    } else {
      assert InsertSorted(s, x) == s + [x];
      WithKeyAppend(s, [x], k);
    }
  }

  /** Moving an element past one with a different key leaves every key's
      subsequence unchanged. */
  lemma WithKeySwap(init: seq<MethodSig>, r': seq<MethodSig>, last: MethodSig, x: MethodSig, k: SortKey)
    requires Key(last) != Key(x)
    requires WithKey(r', k) == WithKey(init, k) + WithKey([x], k)
    ensures WithKey(r' + [last], k) == WithKey(init + [last], k) + WithKey([x], k)
  {
    WithKeyAppend(r', [last], k);
    WithKeyAppend(init, [last], k);
    WithKeySingle(last, k);
    WithKeySingle(x, k);
  }

  /** `sortMethods`: inserts the declarations one by one, left to right. */
  function SortMethods(ms: seq<MethodSig>): (r: seq<MethodSig>)
    ensures multiset(r) == multiset(ms)
    decreases |ms|
  {
    if |ms| == 0 then
      []
    else
      assert ms == ms[..|ms| - 1] + [ms[|ms| - 1]];
      InsertSorted(SortMethods(ms[..|ms| - 1]), ms[|ms| - 1])
  }

  /** The sorted list has every neighbouring pair in comparator order. */
  lemma {:induction false} SortMethodsAdjacent(ms: seq<MethodSig>)
    ensures AdjacentSorted(SortMethods(ms))
    decreases |ms|
  {
    if |ms| > 0 {
      SortMethodsAdjacent(ms[..|ms| - 1]);
      InsertSortedAdjacent(SortMethods(ms[..|ms| - 1]), ms[|ms| - 1]);
    }
  }

  /** When every pair of declarations is case-consistent (see `CaseConsistent`), the
      sort is stable: declarations with equal keys keep their relative order. On such lists every stable sort gives
      this result, since the comparator is then a total preorder. */
  lemma {:induction false} SortMethodsStable(ms: seq<MethodSig>, k: SortKey)
    requires AllCaseConsistent(ms)
    ensures WithKey(SortMethods(ms), k) == WithKey(ms, k)
    decreases |ms|
  {
    if |ms| > 0 {
      var init := ms[..|ms| - 1];
      var x := ms[|ms| - 1];
      assert ms == init + [x];
      assert AllCaseConsistent(init) by {
        assert forall i :: 0 <= i < |init| ==> init[i] == ms[i];
      }
      var sorted := SortMethods(init);
      assert SortMethods(ms) == InsertSorted(sorted, x);
      SortMethodsStable(init, k);
      InsertSortedStable(sorted, x, k);
      WithKeyAppend(init, [x], k);
    }
  }

  predicate AllCaseConsistent(ms: seq<MethodSig>) {
    forall i, j :: 0 <= i < |ms| && 0 <= j < |ms| ==> CaseConsistent(ms[i], ms[j])
  }

  predicate KeyLeq(a: SortKey, b: SortKey) {
    KeyLess(a, b) || a == b
  }

  /** Neighbourwise key order is key order between any two positions. */
  lemma {:induction false} KeyChain(s: seq<MethodSig>, i: nat, j: nat)
    requires forall n :: 0 <= n < |s| - 1 ==> KeyLeq(Key(s[n]), Key(s[n + 1]))
    requires i <= j < |s|
    ensures KeyLeq(Key(s[i]), Key(s[j]))
    decreases j - i
  {
    if i < j {
      KeyChain(s, i + 1, j);
      if KeyLess(Key(s[i]), Key(s[i + 1])) && KeyLess(Key(s[i + 1]), Key(s[j])) {
        KeyLessTransitive(Key(s[i]), Key(s[i + 1]), Key(s[j]));
      }
    }
  }

  /** When every pair of declarations is case-consistent, the comparator is a total
      preorder and the sorted list is in order between any two positions, not just
      neighbours. */
  lemma SortMethodsSorted(ms: seq<MethodSig>)
    requires AllCaseConsistent(ms)
    ensures var r := SortMethods(ms);
      forall i, j :: 0 <= i < j < |r| ==> Compare(r[i], r[j]) <= 0
  {
    var r := SortMethods(ms);
    SortMethodsAdjacent(ms);
    assert forall x :: x in r ==> x in ms by {
      forall x | x in r
        ensures x in ms
      {
        assert x in multiset(r);
      }
    }
    assert AllCaseConsistent(r) by {
      forall i, j | 0 <= i < |r| && 0 <= j < |r|
        ensures CaseConsistent(r[i], r[j])
      {
        assert r[i] in ms && r[j] in ms;
        var a :| 0 <= a < |ms| && ms[a] == r[i];
        var b :| 0 <= b < |ms| && ms[b] == r[j];
      }
    }
    forall n | 0 <= n < |r| - 1
      ensures KeyLeq(Key(r[n]), Key(r[n + 1]))
    {
      assert Compare(r[n], r[n + 1]) <= 0;
      assert CaseConsistent(r[n], r[n + 1]);
    }
    forall i, j | 0 <= i < j < |r|
      ensures Compare(r[i], r[j]) <= 0
    {
      KeyChain(r, i, j);
      assert CaseConsistent(r[i], r[j]);
    }
  }
}
