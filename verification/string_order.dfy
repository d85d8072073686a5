/**
 * Python's ordering of `str` values (code point by code point, a proper prefix first)
 * and `sorted()` of a collection of distinct strings.
 */
module StringOrder {

  /** `a <= b` on Python strings. */
  predicate LessEq(a: string, b: string)
    decreases |a|
  {
    a == [] || (b != [] && (a[0] < b[0] || (a[0] == b[0] && LessEq(a[1..], b[1..]))))
  }

  predicate Less(a: string, b: string)
  {
    LessEq(a, b) && a != b
  }

  lemma {:induction false} LessEqReflexive(a: string)
    ensures LessEq(a, a)
    decreases |a|
  {
    if a != [] { LessEqReflexive(a[1..]); }
  }

  lemma {:induction false} LessEqAntisymmetric(a: string, b: string)
    requires LessEq(a, b) && LessEq(b, a)
    ensures a == b
    decreases |a|
  {
    if a != [] && b != [] {
      LessEqAntisymmetric(a[1..], b[1..]);
      assert a == [a[0]] + a[1..] && b == [b[0]] + b[1..];
    }
  }

  lemma {:induction false} LessEqTransitive(a: string, b: string, c: string)
    requires LessEq(a, b) && LessEq(b, c)
    ensures LessEq(a, c)
    decreases |a|
  {
    if a != [] && b != [] && c != [] && a[0] == b[0] && b[0] == c[0] {
      LessEqTransitive(a[1..], b[1..], c[1..]);
    }
  }

  lemma {:induction false} LessEqTotal(a: string, b: string)
    ensures LessEq(a, b) || LessEq(b, a)
    decreases |a|
  {
    if a != [] && b != [] && a[0] == b[0] {
      LessEqTotal(a[1..], b[1..]);
    }
  }

  lemma LessTransitive(a: string, b: string, c: string)
    requires Less(a, b) && Less(b, c)
    ensures Less(a, c)
  {
    LessEqTransitive(a, b, c);
    if a == c { LessEqAntisymmetric(a, b); }
  }

  predicate StrictlySorted(s: seq<string>)
  {
    forall i, j :: 0 <= i < j < |s| ==> Less(s[i], s[j])
  }

  /** Inserts `x` into a strictly sorted list unless it is already there. */
  function Insert(s: seq<string>, x: string): (r: seq<string>)
    requires StrictlySorted(s)
    ensures StrictlySorted(r)
    ensures forall y :: y in r <==> y in s || y == x
  {
    if s == [] then [x]
    else if x == s[0] then s
    else if LessEq(x, s[0]) then
      LessAllAfter(s, x);
      [x] + s
    else
      LessEqTotal(x, s[0]);
      var rest := Insert(s[1..], x);
      assert forall y :: y in rest ==> Less(s[0], y);
      [s[0]] + rest
  }

  lemma LessAllAfter(s: seq<string>, x: string)
    requires StrictlySorted(s) && s != [] && Less(x, s[0])
    ensures forall j :: 0 <= j < |s| ==> Less(x, s[j])
  {
    forall j | 0 < j < |s| ensures Less(x, s[j]) {
      LessTransitive(x, s[0], s[j]);
    }
  }

  /** `sorted(set(xs))`: the distinct elements of `xs` in ascending order. */
  function SortDistinct(xs: seq<string>): (r: seq<string>)
    ensures StrictlySorted(r)
    ensures forall y :: y in r <==> y in xs
    decreases |xs|
  {
    if xs == [] then [] else Insert(SortDistinct(xs[..|xs| - 1]), xs[|xs| - 1])
  }

  /** A strictly sorted list has no repeated element, so its length is the size of its element set. */
  lemma {:induction false} StrictlySortedCard(s: seq<string>)
    requires StrictlySorted(s)
    ensures |set y | y in s| == |s|
    decreases |s|
  {
    if s != [] {
      var t := s[1..];
      StrictlySortedCard(t);
      assert (set y | y in s) == (set y | y in t) + {s[0]};
      forall j | 0 <= j < |t| ensures t[j] != s[0] {
        assert Less(s[0], s[j + 1]);
      }
    }
  }

  /**
   * `sorted(list(invalid))[:10]` taken from a strictly sorted list: ascending, at most ten,
   * and exactly the smallest elements: everything left out is larger than everything kept.
   */
  lemma SmallestPrefix(s: seq<string>, m: nat)
    requires StrictlySorted(s) && m <= |s|
    ensures StrictlySorted(s[..m])
    ensures forall x :: x in s && x !in s[..m] ==> forall y :: y in s[..m] ==> Less(y, x)
  {
    forall x, y | x in s && x !in s[..m] && y in s[..m] ensures Less(y, x) {
      var k :| 0 <= k < |s| && s[k] == x;
      var i :| 0 <= i < m && s[..m][i] == y;
      assert k >= m;
    }
  }
}
