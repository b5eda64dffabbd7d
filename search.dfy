/** The search box filter of the customer list (app/page.js:30-32). */
module Search {
  import opened Customers
  import opened Text

  /** The term occurs in the name, or in a present, non-empty reading. */
  predicate Matches(c: Customer, term: string)
  {
    Contains(c.name, term) || (HasKana(c) && Contains(c.kana.value, term))
  }

  /** The search: keeps the matching customers, in order. */
  function FilterCustomers(cs: seq<Customer>, term: string): (r: seq<Customer>)
    ensures |r| <= |cs|
    ensures forall j :: 0 <= j < |r| ==> Matches(r[j], term)
    ensures forall j :: 0 <= j < |r| ==> r[j] in cs
    decreases |cs|
  {
    if cs == [] then []
    else (if Matches(cs[0], term) then [cs[0]] else []) + FilterCustomers(cs[1..], term)
  }

  /** `idx` picks the elements of `r` out of `s` at strictly increasing positions. */
  ghost predicate SelectedBy(r: seq<Customer>, s: seq<Customer>, idx: seq<nat>)
  {
    && |idx| == |r|
    && (forall j :: 0 <= j < |idx| ==> idx[j] < |s| && s[idx[j]] == r[j])
    && (forall j, k :: 0 <= j < k < |idx| ==> idx[j] < idx[k])
  }

  /** Every position moved one place to the right. */
  function Shift(idx: seq<nat>): (r: seq<nat>)
    ensures |r| == |idx| && forall j :: 0 <= j < |idx| ==> r[j] == idx[j] + 1
  {
    seq(|idx|, j requires 0 <= j < |idx| => idx[j] + 1)
  }

  lemma ShiftMembership(idx: seq<nat>, p: nat)
    ensures p + 1 in Shift(idx) <==> p in idx
    ensures 0 !in Shift(idx)
  {
    var r := Shift(idx);
    if p + 1 in r {
      var j :| 0 <= j < |r| && r[j] == p + 1;
      assert idx[j] == p;
    }
    if p in idx {
      var j :| 0 <= j < |idx| && idx[j] == p;
      assert r[j] == p + 1;
    }
  }

  lemma SelectedByTail(r: seq<Customer>, s: seq<Customer>, idx: seq<nat>)
    requires |s| > 0 && SelectedBy(r, s[1..], idx)
    ensures SelectedBy(r, s, Shift(idx))
    ensures SelectedBy([s[0]] + r, s, [0] + Shift(idx))
  {
  }

  /**
   * The filter result is an order-preserving subsequence of the input, taken at exactly the
   * positions whose customer matches the term.
   */
  lemma {:induction false} FilterPositions(cs: seq<Customer>, term: string) returns (idx: seq<nat>)
    ensures SelectedBy(FilterCustomers(cs, term), cs, idx)
    ensures forall p :: 0 <= p < |cs| ==> (p in idx <==> Matches(cs[p], term))
    decreases |cs|
  {
    if cs == [] {
      idx := [];
    } else {
      var tailIdx := FilterPositions(cs[1..], term);
      var tail := FilterCustomers(cs[1..], term);
      SelectedByTail(tail, cs, tailIdx);
      if Matches(cs[0], term) {
        assert FilterCustomers(cs, term) == [cs[0]] + tail;
        idx := [0] + Shift(tailIdx);
      } else {
        assert FilterCustomers(cs, term) == tail;
        idx := Shift(tailIdx);
      }
      PositionsOfTail(cs, term, tailIdx, idx);
    }
  }

  /** Shifting the matching positions of the tail and adding 0 when the head matches gives the matching positions. */
  lemma PositionsOfTail(cs: seq<Customer>, term: string, tailIdx: seq<nat>, idx: seq<nat>)
    requires |cs| > 0
    requires forall p :: 0 <= p < |cs[1..]| ==> (p in tailIdx <==> Matches(cs[1..][p], term))
    requires idx == (if Matches(cs[0], term) then [0] else []) + Shift(tailIdx)
    ensures forall p :: 0 <= p < |cs| ==> (p in idx <==> Matches(cs[p], term))
  {
    forall p | 0 <= p < |cs|
      ensures p in idx <==> Matches(cs[p], term)
    {
      if p > 0 {
        ShiftMembership(tailIdx, p - 1);
        assert cs[p] == cs[1..][p - 1];
      } else {
        ShiftMembership(tailIdx, 0);
      }
    }
  }

  /** A customer occurs in the result as often as in the input if it matches, and not at all otherwise. */
  lemma {:induction false} FilterMultiplicity(cs: seq<Customer>, term: string, c: Customer)
    ensures multiset(FilterCustomers(cs, term))[c] == if Matches(c, term) then multiset(cs)[c] else 0
    decreases |cs|
  {
    if cs != [] {
      FilterMultiplicity(cs[1..], term, c);
      assert cs == [cs[0]] + cs[1..];
    }
  }

  /** Kept customers are exactly the input customers whose name or present kana contains the term. */
  lemma FilterMembership(cs: seq<Customer>, term: string, c: Customer)
    ensures c in FilterCustomers(cs, term) <==> c in cs && Matches(c, term)
  {
    FilterMultiplicity(cs, term, c);
    assert c in FilterCustomers(cs, term) <==> multiset(FilterCustomers(cs, term))[c] > 0;
  }

  /** An empty search box keeps every customer: every name includes the empty string. */
  lemma {:induction false} EmptyTermKeepsAll(cs: seq<Customer>)
    ensures FilterCustomers(cs, "") == cs
    decreases |cs|
  {
    if cs != [] {
      ContainsEmpty(cs[0].name);
      EmptyTermKeepsAll(cs[1..]);
    }
  }
}
