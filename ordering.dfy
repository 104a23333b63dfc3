/**
 * Sorting a collection with a comparator and keeping its first `k` elements, as
 * `stream().sorted(cmp).limit(k)` and `list.sort(cmp)` followed by a prefix do. The
 * comparator is a strict order `less` that is total on the elements at hand, so the
 * result does not depend on the order in which a hash map yields them.
 */
module Ordering {

  /** `less` is irreflexive, transitive and total on `s`. */
  ghost predicate StrictTotalOn<T>(less: (T, T) -> bool, s: set<T>) {
    && (forall x :: x in s ==> !less(x, x))
    && (forall x, y, z :: x in s && y in s && z in s && less(x, y) && less(y, z) ==> less(x, z))
    && (forall x, y :: x in s && y in s && x != y ==> less(x, y) || less(y, x))
  }

  /** Each element of `xs` comes strictly before every later one. */
  ghost predicate SortedBy<T>(xs: seq<T>, less: (T, T) -> bool) {
    forall i, j :: 0 <= i < j < |xs| ==> less(xs[i], xs[j])
  }

  function Min(a: nat, b: nat): nat {
    if a < b then a else b
  }

  /** `xs` lists, in order, the first `min(k, |s|)` elements of `s` under `less`. */
  ghost predicate IsFirstK<T>(xs: seq<T>, s: set<T>, k: nat, less: (T, T) -> bool) {
    && |xs| == Min(k, |s|)
    && (forall i :: 0 <= i < |xs| ==> xs[i] in s)
    && SortedBy(xs, less)
    && (forall x, i :: x in s && x !in xs && 0 <= i < |xs| ==> less(xs[i], x))
  }

  /** The least element of a non-empty set, found by one pass over it. */
  method Least<T>(s: set<T>, less: (T, T) -> bool, ghost whole: set<T>) returns (m: T)
    requires s != {} && s <= whole && StrictTotalOn(less, whole)
    ensures m in s && forall y :: y in s && y != m ==> less(m, y)
  {
    m :| m in s;
    var todo := s - {m};
    while todo != {}
      invariant m in s && todo <= s
      invariant forall y :: y in s - todo && y != m ==> less(m, y)
      decreases todo
    {
      var y :| y in todo;
      if less(y, m) {
        m := y;
      }
      todo := todo - {y};
    }
  }

  /** Selects the first `k` elements of `s` in `less` order, the least first. */
  method FirstK<T>(s: set<T>, k: nat, less: (T, T) -> bool) returns (xs: seq<T>)
    requires StrictTotalOn(less, s)
    ensures IsFirstK(xs, s, k, less)
  {
    xs := [];
    var rest := s;
    while |xs| < k && rest != {}
      invariant rest <= s && |xs| + |rest| == |s| && |xs| <= k
      invariant forall i :: 0 <= i < |xs| ==> xs[i] in s && xs[i] !in rest
      invariant forall x :: x in s && x !in xs ==> x in rest
      invariant SortedBy(xs, less)
      invariant forall x, i :: x in rest && 0 <= i < |xs| ==> less(xs[i], x)
      decreases k - |xs|
    {
      var m := Least(rest, less, s);
      xs := xs + [m];
      rest := rest - {m};
    }
  }

  /** Under a strict total order there is only one list of the first `k` elements: the selection is deterministic. */
  lemma {:induction false} FirstKUnique<T>(xs: seq<T>, ys: seq<T>, s: set<T>, k: nat, less: (T, T) -> bool)
    requires StrictTotalOn(less, s)
    requires IsFirstK(xs, s, k, less) && IsFirstK(ys, s, k, less)
    ensures xs == ys
  {
    forall i | 0 <= i < |xs|
      ensures xs[i] == ys[i]
    {
      FirstKAt(xs, ys, s, k, less, i);
    }
  }

  /** Position `i` of two such lists holds the same element. */
  lemma {:induction false} FirstKAt<T>(xs: seq<T>, ys: seq<T>, s: set<T>, k: nat, less: (T, T) -> bool, i: nat)
    requires StrictTotalOn(less, s)
    requires IsFirstK(xs, s, k, less) && IsFirstK(ys, s, k, less)
    requires i < |xs|
    ensures xs[i] == ys[i]
    decreases i
  {
    forall j | 0 <= j < i
      ensures xs[j] == ys[j]
    {
      FirstKAt(xs, ys, s, k, less, j);
    }
    if xs[i] != ys[i] {
      // each of the two differing elements would have to sit in the other list, before or after `i`
      if xs[i] in ys {
        var j :| 0 <= j < |ys| && ys[j] == xs[i];
      }
      if ys[i] in xs {
        var j :| 0 <= j < |xs| && xs[j] == ys[i];
      }
    }
  }
}
