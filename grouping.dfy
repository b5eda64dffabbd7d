/**
 * Grouping of the filtered customers into the eleven phonetic rows (app/page.js:35-38,
 * 56-64) and the rendering pass that skips empty rows (app/page.js:122-123).
 */
module Grouping {
  import opened Customers
  import opened Rows
  import opened Sorting

  type Groups = map<string, seq<Customer>>

  /** The object literal `groupedCustomers`: every row key with an empty list. */
  const EmptyGroups: Groups := map[
    "あ行" := [], "か行" := [], "さ行" := [], "た行" := [], "な行" := [],
    "は行" := [], "ま行" := [], "や行" := [], "ら行" := [], "わ行" := [], "他" := []]

  /** The customers of `s` whose reading classifies into row `key`, in the order of `s`. */
  function BucketOf(s: seq<Customer>, key: string): seq<Customer>
    decreases |s|
  {
    if s == [] then []
    else BucketOf(s[..|s| - 1], key)
         + (if GetRow(s[|s| - 1].kana) == key then [s[|s| - 1]] else [])
  }

  /**
   * The `forEach` that pushes every filtered customer onto the list of its row. Because
   * `GetRow` always returns one of the declared keys, the push never misses a bucket.
   */
  method GroupByRow(filtered: seq<Customer>) returns (groups: Groups)
    ensures groups.Keys == RowKeySet
    ensures forall k :: k in groups ==> groups[k] == BucketOf(filtered, k)
  {
    groups := EmptyGroups;
    var i := 0;
    while i < |filtered|
      invariant 0 <= i <= |filtered|
      invariant groups.Keys == RowKeySet
      invariant forall k :: k in groups ==> groups[k] == BucketOf(filtered[..i], k)
    {
      var customer := filtered[i];
      var row := GetRow(customer.kana);
      groups := groups[row := groups[row] + [customer]];
      assert filtered[..i + 1][..i] == filtered[..i];
      i := i + 1;
    }
    assert filtered[..i] == filtered;
  }

  /** The groups after the sort pass: every bucket sorted by kana. */
  function SortedGroups(cmp: Comparator, groups: Groups): (r: Groups)
    ensures r.Keys == groups.Keys
  {
    map k | k in groups :: SortByKana(cmp, groups[k])
  }

  /** After sorting the buckets of the first `i` keys: those are sorted, the rest untouched. */
  ghost predicate SortedUpTo(cmp: Comparator, groups: Groups, sorted: Groups, keys: seq<string>, i: nat)
    requires i <= |keys|
  {
    && sorted.Keys == groups.Keys
    && forall k :: k in sorted ==>
         sorted[k] == if k in keys[..i] then SortByKana(cmp, groups[k]) else groups[k]
  }

  lemma SortStep(cmp: Comparator, groups: Groups, sorted: Groups, keys: seq<string>, i: nat)
    requires Distinct(keys) && i < |keys| && keys[i] in sorted
    requires SortedUpTo(cmp, groups, sorted, keys, i)
    ensures SortedUpTo(cmp, groups, sorted[keys[i] := SortByKana(cmp, sorted[keys[i]])], keys, i + 1)
  {
    KeyNotEarlier(keys, i);
    assert keys[..i + 1] == keys[..i] + [keys[i]];
  }

  lemma SortDone(cmp: Comparator, groups: Groups, sorted: Groups, keys: seq<string>)
    requires groups.Keys == set k | k in keys
    requires SortedUpTo(cmp, groups, sorted, keys, |keys|)
    ensures sorted == SortedGroups(cmp, groups)
  {
    assert keys[..|keys|] == keys;
  }

  /** The second `forEach`, over `Object.keys(groupedCustomers)`, sorting each bucket in turn. */
  method SortEachRow(cmp: Comparator, groups: Groups) returns (sorted: Groups)
    requires groups.Keys == RowKeySet
    ensures sorted == SortedGroups(cmp, groups)
  {
    RowKeysDistinct();
    sorted := groups;
    var i := 0;
    while i < |RowKeys|
      invariant 0 <= i <= |RowKeys|
      invariant sorted.Keys == RowKeySet
      invariant SortedUpTo(cmp, groups, sorted, RowKeys, i)
    {
      var key := RowKeys[i];
      SortStep(cmp, groups, sorted, RowKeys, i);
      sorted := sorted[key := SortByKana(cmp, sorted[key])];
      i := i + 1;
    }
    SortDone(cmp, groups, sorted, RowKeys);
  }

  /** `Object.entries(groupedCustomers)` in key order, with the empty rows skipped. */
  function Sections(groups: Groups, keys: seq<string>): seq<(string, seq<Customer>)>
    requires forall k :: k in keys ==> k in groups
    decreases |keys|
  {
    if keys == [] then []
    else
      (if |groups[keys[0]]| == 0 then [] else [(keys[0], groups[keys[0]])])
      + Sections(groups, keys[1..])
  }

  /** The sum of the bucket sizes over `keys`. */
  function TotalSize(groups: Groups, keys: seq<string>): nat
    requires forall k :: k in keys ==> k in groups
    decreases |keys|
  {
    if keys == [] then 0 else |groups[keys[0]]| + TotalSize(groups, keys[1..])
  }

  /** The sum of the section sizes. */
  function SectionsSize(sections: seq<(string, seq<Customer>)>): nat
    decreases |sections|
  {
    if sections == [] then 0 else |sections[0].1| + SectionsSize(sections[1..])
  }

  // ------------------------------------------------------------- partition

  /** A customer lands in a bucket as often as it is filtered, if the bucket is its row, else never. */
  lemma {:induction false} BucketMultiplicity(s: seq<Customer>, key: string, c: Customer)
    ensures multiset(BucketOf(s, key))[c]
         == if GetRow(c.kana) == key then multiset(s)[c] else 0
    decreases |s|
  {
    if s != [] {
      BucketMultiplicity(s[..|s| - 1], key, c);
      assert s == s[..|s| - 1] + [s[|s| - 1]];
    }
  }

  /** Every filtered customer is in the bucket of its row, and in no other bucket. */
  lemma ExactlyOneBucket(s: seq<Customer>, c: Customer, key: string)
    requires c in s && key in RowKeySet
    ensures c in BucketOf(s, key) <==> key == GetRow(c.kana)
  {
    BucketMultiplicity(s, key, c);
    assert c in BucketOf(s, key) <==> multiset(BucketOf(s, key))[c] > 0;
  }

  /** Nothing outside the filtered list reaches a bucket. */
  lemma NothingAdded(s: seq<Customer>, c: Customer, key: string)
    requires c !in s
    ensures c !in BucketOf(s, key)
  {
    BucketMultiplicity(s, key, c);
    assert c in BucketOf(s, key) <==> multiset(BucketOf(s, key))[c] > 0;
  }

  /** Sum over `keys` of the sizes of the buckets of `s`. */
  function BucketSizes(s: seq<Customer>, keys: seq<string>): nat
    decreases |keys|
  {
    if keys == [] then 0 else |BucketOf(s, keys[0])| + BucketSizes(s, keys[1..])
  }

  /** Appending one customer grows by one exactly the bucket named once among `keys`. */
  lemma {:induction false} BucketSizesSnoc(s: seq<Customer>, c: Customer, keys: seq<string>)
    ensures BucketSizes(s + [c], keys)
         == BucketSizes(s, keys) + multiset(keys)[GetRow(c.kana)]
    decreases |keys|
  {
    assert (s + [c])[..|s + [c]| - 1] == s;
    if keys != [] {
      BucketSizesSnoc(s, c, keys[1..]);
      assert keys == [keys[0]] + keys[1..];
    }
  }

  lemma KeyNotEarlier(keys: seq<string>, i: nat)
    requires Distinct(keys) && i < |keys|
    ensures keys[i] !in keys[..i]
  {
    forall j | 0 <= j < i
      ensures keys[..i][j] != keys[i]
    {
      assert keys[..i][j] == keys[j];
    }
  }

  /** A label listed once among distinct keys is counted once. */
  lemma {:induction false} DistinctOnce(keys: seq<string>, k: string)
    requires Distinct(keys) && k in keys
    ensures multiset(keys)[k] == 1
    decreases |keys|
  {
    assert keys == [keys[0]] + keys[1..];
    assert Distinct(keys[1..]);
    if keys[0] == k {
      assert k !in keys[1..];
    } else {
      DistinctOnce(keys[1..], k);
    }
  }

  lemma {:induction false} NoCustomersNoSizes(keys: seq<string>)
    ensures BucketSizes([], keys) == 0
    decreases |keys|
  {
    if keys != [] {
      NoCustomersNoSizes(keys[1..]);
    }
  }

  /** Over a key list naming every customer's row exactly once, the bucket sizes add up to `|s|`. */
  lemma {:induction false} BucketSizesSumOver(s: seq<Customer>, keys: seq<string>)
    requires forall j :: 0 <= j < |s| ==> multiset(keys)[GetRow(s[j].kana)] == 1
    ensures BucketSizes(s, keys) == |s|
    decreases |s|
  {
    if s == [] {
      NoCustomersNoSizes(keys);
    } else {
      var init, c := s[..|s| - 1], s[|s| - 1];
      BucketSizesSumOver(init, keys);
      BucketSizesSnoc(init, c, keys);
      assert init + [c] == s;
    }
  }

  /** The bucket sizes add up to the number of filtered customers. */
  lemma BucketSizesSum(s: seq<Customer>)
    ensures BucketSizes(s, RowKeys) == |s|
  {
    forall j | 0 <= j < |s|
      ensures multiset(RowKeys)[GetRow(s[j].kana)] == 1
    {
      RowKeysDistinct();
      DistinctOnce(RowKeys, GetRow(s[j].kana));
    }
    BucketSizesSumOver(s, RowKeys);
  }

  lemma {:induction false} TotalSizeOfBuckets(s: seq<Customer>, groups: Groups, keys: seq<string>)
    requires forall j :: 0 <= j < |keys| ==> keys[j] in groups && |groups[keys[j]]| == |BucketOf(s, keys[j])|
    ensures TotalSize(groups, keys) == BucketSizes(s, keys)
    decreases |keys|
  {
    if keys != [] {
      TotalSizeOfBuckets(s, groups, keys[1..]);
    }
  }

  lemma {:induction false} SectionsSizeIsTotal(groups: Groups, keys: seq<string>)
    requires forall k :: k in keys ==> k in groups
    ensures SectionsSize(Sections(groups, keys)) == TotalSize(groups, keys)
    decreases |keys|
  {
    if keys != [] {
      SectionsSizeIsTotal(groups, keys[1..]);
      var head := if |groups[keys[0]]| == 0 then [] else [(keys[0], groups[keys[0]])];
      SectionsSizeAppend(head, Sections(groups, keys[1..]));
    }
  }

  lemma {:induction false} SectionsSizeAppend(a: seq<(string, seq<Customer>)>, b: seq<(string, seq<Customer>)>)
    ensures SectionsSize(a + b) == SectionsSize(a) + SectionsSize(b)
    decreases |a|
  {
    if a != [] {
      assert (a + b)[1..] == a[1..] + b;
      SectionsSizeAppend(a[1..], b);
    } else {
      assert a + b == b;
    }
  }

  /** Every rendered section is a non-empty bucket shown under its own key. */
  lemma {:induction false} SectionsNonEmpty(groups: Groups, keys: seq<string>)
    requires forall k :: k in keys ==> k in groups
    ensures forall j :: 0 <= j < |Sections(groups, keys)| ==>
              Sections(groups, keys)[j].0 in keys
              && Sections(groups, keys)[j].1 == groups[Sections(groups, keys)[j].0]
              && |Sections(groups, keys)[j].1| > 0
    decreases |keys|
  {
    if keys != [] {
      SectionsNonEmpty(groups, keys[1..]);
      var rest := Sections(groups, keys[1..]);
      if |groups[keys[0]]| > 0 {
        assert Sections(groups, keys) == [(keys[0], groups[keys[0]])] + rest;
      }
    }
  }

  /** Every key whose bucket is non-empty gets a section. */
  lemma {:induction false} SectionsComplete(groups: Groups, keys: seq<string>, k: string)
    requires forall k :: k in keys ==> k in groups
    requires k in keys && |groups[k]| > 0
    ensures exists j :: 0 <= j < |Sections(groups, keys)| && Sections(groups, keys)[j].0 == k
    decreases |keys|
  {
    var all := Sections(groups, keys);
    var rest := Sections(groups, keys[1..]);
    if k == keys[0] {
      assert all[0].0 == k;
    } else {
      SectionsComplete(groups, keys[1..], k);
      var j :| 0 <= j < |rest| && rest[j].0 == k;
      if |groups[keys[0]]| > 0 {
        assert all == [(keys[0], groups[keys[0]])] + rest;
        assert all[j + 1].0 == k;
      } else {
        assert all == rest;
      }
    }
  }

  /** The section labels appear in the order of `keys`: at strictly increasing key positions. */
  lemma {:induction false} SectionsInKeyOrder(groups: Groups, keys: seq<string>) returns (pos: seq<nat>)
    requires forall k :: k in keys ==> k in groups
    ensures |pos| == |Sections(groups, keys)|
    ensures forall j :: 0 <= j < |pos| ==> pos[j] < |keys| && keys[pos[j]] == Sections(groups, keys)[j].0
    ensures forall i, j :: 0 <= i < j < |pos| ==> pos[i] < pos[j]
    decreases |keys|
  {
    if keys == [] {
      pos := [];
    } else {
      var restPos := SectionsInKeyOrder(groups, keys[1..]);
      var shifted := seq(|restPos|, j requires 0 <= j < |restPos| => restPos[j] + 1);
      var rest := Sections(groups, keys[1..]);
      if |groups[keys[0]]| > 0 {
        assert Sections(groups, keys) == [(keys[0], groups[keys[0]])] + rest;
        pos := [0] + shifted;
      } else {
        pos := shifted;
      }
    }
  }
}
