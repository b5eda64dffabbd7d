/**
 * The per-row sort by reading under Japanese collation
 * (app/page.js:62-64). The collation is a parameter `cmp` with the sign convention of
 * `localeCompare`; `Array.prototype.sort` is stable, and `SortByKana` is a stable insertion
 * sort, which `StableSortUnique` shows to be the only stable sort result.
 */
module Sorting {
  import opened Customers

  type Comparator = (string, string) -> int

  /** Any two keys are comparable one way or the other (so each key is "not after" itself). */
  ghost predicate Total(cmp: Comparator)
  {
    forall a, b :: cmp(a, b) <= 0 || cmp(b, a) <= 0
  }

  ghost predicate Transitive(cmp: Comparator)
  {
    forall a, b, c :: cmp(a, b) <= 0 && cmp(b, c) <= 0 ==> cmp(a, c) <= 0
  }

  /** What `sort` needs of a consistent comparator: "not after" is a total preorder. */
  ghost predicate TotalPreorder(cmp: Comparator)
  {
    Total(cmp) && Transitive(cmp)
  }

  /** Customer `a` may stand before customer `b`. */
  predicate NotAfter(cmp: Comparator, a: Customer, b: Customer)
  {
    cmp(SortKey(a), SortKey(b)) <= 0
  }

  predicate Equivalent(cmp: Comparator, a: Customer, b: Customer)
  {
    NotAfter(cmp, a, b) && NotAfter(cmp, b, a)
  }

  ghost predicate Sorted(cmp: Comparator, s: seq<Customer>)
  {
    forall i, j :: 0 <= i < j < |s| ==> NotAfter(cmp, s[i], s[j])
  }

  /** Puts `x` after the last element of `t` that may precede it. */
  function Insert(cmp: Comparator, t: seq<Customer>, x: Customer): (r: seq<Customer>)
    ensures |r| == |t| + 1
    ensures multiset(r) == multiset(t) + multiset{x}
    decreases |t|
  {
    if t == [] then [x]
    else if NotAfter(cmp, t[|t| - 1], x) then t + [x]
    else
      assert t == t[..|t| - 1] + [t[|t| - 1]];
      Insert(cmp, t[..|t| - 1], x) + [t[|t| - 1]]
  }

  /** Inserts the elements one by one, in input order. */
  function SortByKana(cmp: Comparator, s: seq<Customer>): (r: seq<Customer>)
    ensures |r| == |s|
    ensures multiset(r) == multiset(s)
    decreases |s|
  {
    if s == [] then []
    else
      assert s == s[..|s| - 1] + [s[|s| - 1]];
      Insert(cmp, SortByKana(cmp, s[..|s| - 1]), s[|s| - 1])
  }

  /** The elements of `s` equivalent to `e`, in their order in `s`. */
  function ClassOf(cmp: Comparator, s: seq<Customer>, e: Customer): seq<Customer>
    decreases |s|
  {
    if s == [] then []
    else ClassOf(cmp, s[..|s| - 1], e) + (if Equivalent(cmp, s[|s| - 1], e) then [s[|s| - 1]] else [])
  }

  /** A sort is stable when every class of equivalent elements keeps its input order. */
  ghost predicate KeepsClassOrder(cmp: Comparator, r: seq<Customer>, s: seq<Customer>)
  {
    forall e :: ClassOf(cmp, r, e) == ClassOf(cmp, s, e)
  }

  /** Every element of `s` may stand before `y`. */
  ghost predicate AllNotAfter(cmp: Comparator, s: seq<Customer>, y: Customer)
  {
    forall i :: 0 <= i < |s| ==> NotAfter(cmp, s[i], y)
  }

  lemma {:induction false} InsertBound(cmp: Comparator, t: seq<Customer>, x: Customer, y: Customer)
    requires AllNotAfter(cmp, t, y) && NotAfter(cmp, x, y)
    ensures AllNotAfter(cmp, Insert(cmp, t, x), y)
    decreases |t|
  {
    if t != [] && !NotAfter(cmp, t[|t| - 1], x) {
      InsertBound(cmp, t[..|t| - 1], x, y);
    }
  }

  lemma SortedSnoc(cmp: Comparator, u: seq<Customer>, y: Customer)
    requires Sorted(cmp, u) && AllNotAfter(cmp, u, y)
    ensures Sorted(cmp, u + [y])
  {
  }

  lemma {:induction false} InsertSorted(cmp: Comparator, t: seq<Customer>, x: Customer)
    requires TotalPreorder(cmp) && Sorted(cmp, t)
    ensures Sorted(cmp, Insert(cmp, t, x))
    decreases |t|
  {
    if t == [] {
    } else if NotAfter(cmp, t[|t| - 1], x) {
      forall i | 0 <= i < |t| - 1
        ensures NotAfter(cmp, t[i], x)
      {
        assert NotAfter(cmp, t[i], t[|t| - 1]);
      }
      assert AllNotAfter(cmp, t, x);
      SortedSnoc(cmp, t, x);
    } else {
      var init, last := t[..|t| - 1], t[|t| - 1];
      assert Sorted(cmp, init);
      assert AllNotAfter(cmp, init, last);
      assert NotAfter(cmp, x, last);
      InsertSorted(cmp, init, x);
      InsertBound(cmp, init, x, last);
      SortedSnoc(cmp, Insert(cmp, init, x), last);
    }
  }

  /** The result is ordered by the comparator on `kana || ''`. */
  lemma {:induction false} SortByKanaSorted(cmp: Comparator, s: seq<Customer>)
    requires TotalPreorder(cmp)
    ensures Sorted(cmp, SortByKana(cmp, s))
    decreases |s|
  {
    if s != [] {
      SortByKanaSorted(cmp, s[..|s| - 1]);
      InsertSorted(cmp, SortByKana(cmp, s[..|s| - 1]), s[|s| - 1]);
    }
  }

  lemma {:induction false} InsertClass(cmp: Comparator, t: seq<Customer>, x: Customer, e: Customer)
    requires TotalPreorder(cmp) && Sorted(cmp, t)
    ensures ClassOf(cmp, Insert(cmp, t, x), e)
         == ClassOf(cmp, t, e) + (if Equivalent(cmp, x, e) then [x] else [])
    decreases |t|
  {
    if t == [] {
      ClassOfSnoc(cmp, [], x, e);
    } else if NotAfter(cmp, t[|t| - 1], x) {
      ClassOfSnoc(cmp, t, x, e);
    } else {
      var init := t[..|t| - 1];
      var last := t[|t| - 1];
      assert Sorted(cmp, init);
      InsertClass(cmp, init, x, e);
      // `last` comes strictly after `x`, so the two are never in one class.
      NotBothEquivalent(cmp, x, last, e);
      assert t == init + [last];
      SwapLast(cmp, Insert(cmp, init, x), init, x, last, e);
    }
  }

  /** Appending one element extends its class, if any, by that element. */
  lemma ClassOfSnoc(cmp: Comparator, s: seq<Customer>, y: Customer, e: Customer)
    ensures ClassOf(cmp, s + [y], e) == ClassOf(cmp, s, e) + (if Equivalent(cmp, y, e) then [y] else [])
  {
    assert (s + [y])[..|s|] == s;
  }

  /** `x` inserted before `last`, when the two are never in one class, gives the same classes. */
  lemma SwapLast(cmp: Comparator, u: seq<Customer>, init: seq<Customer>, x: Customer, last: Customer, e: Customer)
    requires ClassOf(cmp, u, e) == ClassOf(cmp, init, e) + (if Equivalent(cmp, x, e) then [x] else [])
    requires !(Equivalent(cmp, x, e) && Equivalent(cmp, last, e))
    ensures ClassOf(cmp, u + [last], e)
         == ClassOf(cmp, init + [last], e) + (if Equivalent(cmp, x, e) then [x] else [])
  {
    ClassOfSnoc(cmp, u, last, e);
    ClassOfSnoc(cmp, init, last, e);
  }

  /** An element strictly after `x` is never in the class of `x`. */
  lemma NotBothEquivalent(cmp: Comparator, x: Customer, y: Customer, e: Customer)
    requires Transitive(cmp) && !NotAfter(cmp, y, x)
    ensures !(Equivalent(cmp, x, e) && Equivalent(cmp, y, e))
  {
  }

  /** Customers with equivalent keys keep their input order. */
  lemma {:induction false} SortByKanaStable(cmp: Comparator, s: seq<Customer>, e: Customer)
    requires TotalPreorder(cmp)
    ensures ClassOf(cmp, SortByKana(cmp, s), e) == ClassOf(cmp, s, e)
    decreases |s|
  {
    if s != [] {
      var init := s[..|s| - 1];
      SortByKanaStable(cmp, init, e);
      SortByKanaSorted(cmp, init);
      InsertClass(cmp, SortByKana(cmp, init), s[|s| - 1], e);
    }
  }

  lemma {:induction false} ClassOfLast(cmp: Comparator, s: seq<Customer>, e: Customer)
    requires |s| > 0 && Equivalent(cmp, s[|s| - 1], e)
    ensures |ClassOf(cmp, s, e)| > 0
    ensures ClassOf(cmp, s, e)[|ClassOf(cmp, s, e)| - 1] == s[|s| - 1]
    ensures ClassOf(cmp, s, e)[..|ClassOf(cmp, s, e)| - 1] == ClassOf(cmp, s[..|s| - 1], e)
  {
  }

  lemma {:induction false} ClassOfMember(cmp: Comparator, s: seq<Customer>, e: Customer, k: nat)
    requires k < |s| && Equivalent(cmp, s[k], e)
    ensures s[k] in ClassOf(cmp, s, e)
    decreases |s|
  {
    if k < |s| - 1 {
      ClassOfMember(cmp, s[..|s| - 1], e, k);
    }
  }

  lemma {:induction false} ClassOfElements(cmp: Comparator, s: seq<Customer>, e: Customer, y: Customer)
    requires y in ClassOf(cmp, s, e)
    ensures y in s && Equivalent(cmp, y, e)
    decreases |s|
  {
    if s != [] && y in ClassOf(cmp, s[..|s| - 1], e) {
      ClassOfElements(cmp, s[..|s| - 1], e, y);
    }
  }

  /**
   * Any sorted arrangement that keeps every class in input order is `SortByKana(s)`: the
   * insertion sort yields exactly what any stable sort yields.
   */
  lemma {:induction false} StableSortUnique(cmp: Comparator, r: seq<Customer>, s: seq<Customer>)
    requires TotalPreorder(cmp)
    requires Sorted(cmp, r) && KeepsClassOrder(cmp, r, s)
    ensures r == SortByKana(cmp, s)
  {
    var q := SortByKana(cmp, s);
    SortByKanaSorted(cmp, s);
    assert Total(cmp);
    forall e ensures ClassOf(cmp, r, e) == ClassOf(cmp, q, e) {
      SortByKanaStable(cmp, s, e);
    }
    SortedClassesDetermine(cmp, r, q);
  }

  /** Two sorted sequences whose classes agree end with the same element. */
  lemma LastsAgree(cmp: Comparator, r: seq<Customer>, q: seq<Customer>)
    requires Total(cmp) && Sorted(cmp, r) && Sorted(cmp, q) && |r| > 0 && |q| > 0
    requires ClassOf(cmp, r, r[|r| - 1]) == ClassOf(cmp, q, r[|r| - 1])
    requires ClassOf(cmp, r, q[|q| - 1]) == ClassOf(cmp, q, q[|q| - 1])
    ensures r[|r| - 1] == q[|q| - 1]
  {
    var x, y := r[|r| - 1], q[|q| - 1];
    // x is in its own class, hence in q, hence not after y; and symmetrically.
    ClassOfMember(cmp, r, x, |r| - 1);
    ClassOfElements(cmp, q, x, x);
    var k :| 0 <= k < |q| && q[k] == x;
    assert k == |q| - 1 || NotAfter(cmp, q[k], q[|q| - 1]);
    ClassOfMember(cmp, q, y, |q| - 1);
    ClassOfElements(cmp, r, y, y);
    var m :| 0 <= m < |r| && r[m] == y;
    assert m == |r| - 1 || NotAfter(cmp, r[m], r[|r| - 1]);
    assert Equivalent(cmp, y, x);
    ClassOfLast(cmp, r, x);
    ClassOfLast(cmp, q, x);
  }

  /** Two sorted sequences with the same classes are equal. */
  lemma {:induction false} SortedClassesDetermine(cmp: Comparator, r: seq<Customer>, q: seq<Customer>)
    requires Total(cmp)
    requires Sorted(cmp, r) && Sorted(cmp, q)
    requires forall e :: ClassOf(cmp, r, e) == ClassOf(cmp, q, e)
    ensures r == q
    decreases |r| + |q|
  {
    if r == [] && q == [] {
    } else if r == [] {
      assert false;
    } else if q == [] {
      ClassOfMember(cmp, r, r[0], 0);
      assert false;
    } else {
      var x := r[|r| - 1];
      assert ClassOf(cmp, r, x) == ClassOf(cmp, q, x);
      assert ClassOf(cmp, r, q[|q| - 1]) == ClassOf(cmp, q, q[|q| - 1]);
      LastsAgree(cmp, r, q);
      var r', q' := r[..|r| - 1], q[..|q| - 1];
      forall e ensures ClassOf(cmp, r', e) == ClassOf(cmp, q', e) {
        assert ClassOf(cmp, r, e) == ClassOf(cmp, q, e);
        if Equivalent(cmp, x, e) {
          ClassOfLast(cmp, r, e);
          ClassOfLast(cmp, q, e);
        } else {
          assert ClassOf(cmp, r, e) == ClassOf(cmp, r', e);
          assert q[|q| - 1] == x;
          assert ClassOf(cmp, q, e) == ClassOf(cmp, q', e);
        }
      }
      assert Sorted(cmp, r') && Sorted(cmp, q');
      SortedClassesDetermine(cmp, r', q');
      assert r == r' + [x] && q == q' + [x];
    }
  }
}
