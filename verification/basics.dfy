/** Small sequence utilities shared by the parsers: an optional value, the last
    element, the last index satisfying a predicate, and occurrence counting. */
module Basics {

  /** The conventional Some/None datatype; stands for Python's `None` where a value
      may be missing. */
  datatype Option<T> = None | Some(value: T)

  /** The text the tables show for a missing value. */
  const NotAvailable: string := "N/A"

  /** Python's `xs[-1]`. */
  function Last<T>(s: seq<T>): T
    requires |s| > 0
  {
    s[|s| - 1]
  }

  /** The largest index whose element satisfies `p`, if there is one. */
  function LastIndexWhere<T>(s: seq<T>, p: T -> bool): (r: Option<nat>)
    ensures r.Some? ==> r.value < |s| && p(s[r.value])
    ensures r.Some? ==> forall j :: r.value < j < |s| ==> !p(s[j])
    ensures r.None? <==> forall j :: 0 <= j < |s| ==> !p(s[j])
    decreases |s|
  {
    if s == [] then None
    else if p(Last(s)) then Some(|s| - 1)
    else LastIndexWhere(s[..|s| - 1], p)
  }

  /** The last match is at `k` when `s[k]` matches and nothing after it does. */
  lemma LastIndexWhereIs<T>(s: seq<T>, p: T -> bool, k: nat)
    requires k < |s| && p(s[k])
    requires forall j :: k < j < |s| ==> !p(s[j])
    ensures LastIndexWhere(s, p) == Some(k)
  {
  }

  /** Elements put in front shift the last match without moving it. */
  lemma LastIndexWhereShift<T>(a: seq<T>, b: seq<T>, p: T -> bool, k: nat)
    requires LastIndexWhere(b, p) == Some(k)
    ensures LastIndexWhere(a + b, p) == Some(|a| + k)
  {
    var ab := a + b;
    assert ab[|a| + k] == b[k];
    forall j | |a| + k < j < |ab| ensures !p(ab[j]) {
      assert ab[j] == b[j - |a|];
    }
    LastIndexWhereIs(ab, p, |a| + k);
  }

  /** A suffix of `s` whose elements all fail `p` does not change where the last
      match is. */
  lemma {:induction false} LastIndexWhereAppend<T>(a: seq<T>, b: seq<T>, p: T -> bool)
    requires forall j :: 0 <= j < |b| ==> !p(b[j])
    ensures LastIndexWhere(a + b, p) == LastIndexWhere(a, p)
    decreases |b|
  {
    if b != [] {
      assert Last(a + b) == b[|b| - 1];
      assert (a + b)[..|a + b| - 1] == a + b[..|b| - 1];
      LastIndexWhereAppend(a, b[..|b| - 1], p);
    } else {
      assert a + b == a;
    }
  }

  /** Number of occurrences of `x` in `s`. */
  function Count<T(==)>(s: seq<T>, x: T): nat
    decreases |s|
  {
    if s == [] then 0 else (if s[0] == x then 1 else 0) + Count(s[1..], x)
  }

  lemma {:induction false} CountAppend<T>(a: seq<T>, b: seq<T>, x: T)
    ensures Count(a + b, x) == Count(a, x) + Count(b, x)
    decreases |a|
  {
    if a == [] {
      assert a + b == b;
    } else {
      assert (a + b)[1..] == a[1..] + b;
      CountAppend(a[1..], b, x);
    }
  }

  /** `x` occurs in `s` exactly when it is counted at least once. */
  lemma {:induction false} CountPositive<T>(s: seq<T>, x: T)
    ensures Count(s, x) > 0 <==> x in s
    decreases |s|
  {
    if s != [] {
      CountPositive(s[1..], x);
      assert s == [s[0]] + s[1..];
    }
  }
}
