/**
 * The customer list of the home page (app/page.js) end to end: filter by the search term, push
 * every match onto the bucket of its row, sort each bucket by reading, and render the
 * non-empty buckets in key order.
 */
module ListPage {
  import opened Customers
  import opened Search
  import opened Rows
  import opened Sorting
  import opened Grouping

  /** The buckets `GroupByRow` builds from `filtered`. */
  function GroupsOf(filtered: seq<Customer>): (g: Groups)
    ensures g.Keys == RowKeySet
  {
    map k | k in RowKeySet :: BucketOf(filtered, k)
  }

  /** The sections the page renders for `customers` under `term`. */
  function View(cmp: Comparator, customers: seq<Customer>, term: string): seq<(string, seq<Customer>)>
  {
    Sections(SortedGroups(cmp, GroupsOf(FilterCustomers(customers, term))), RowKeys)
  }

  /** One render pass, step by step as the page component runs it. */
  method ListView(cmp: Comparator, customers: seq<Customer>, term: string)
    returns (sections: seq<(string, seq<Customer>)>)
    ensures sections == View(cmp, customers, term)
  {
    var filtered := FilterCustomers(customers, term);
    var groups := GroupByRow(filtered);
    assert groups == GroupsOf(filtered);
    var sorted := SortEachRow(cmp, groups);
    sections := Sections(sorted, RowKeys);
  }

  /** The sections together show exactly as many cards as the search keeps. */
  lemma ViewSize(cmp: Comparator, customers: seq<Customer>, term: string)
    ensures SectionsSize(View(cmp, customers, term)) == |FilterCustomers(customers, term)|
  {
    var filtered := FilterCustomers(customers, term);
    var sorted := SortedGroups(cmp, GroupsOf(filtered));
    forall j | 0 <= j < |RowKeys|
      ensures RowKeys[j] in sorted && |sorted[RowKeys[j]]| == |BucketOf(filtered, RowKeys[j])|
    {
      assert RowKeys[j] in RowKeySet;
    }
    SectionsSizeIsTotal(sorted, RowKeys);
    TotalSizeOfBuckets(filtered, sorted, RowKeys);
    BucketSizesSum(filtered);
  }

  /**
   * Every section is a non-empty row, sorted by reading, holding customers of that row that
   * match the term, each as often as it appears in the data.
   */
  lemma ViewSections(cmp: Comparator, customers: seq<Customer>, term: string, j: nat, c: Customer)
    requires Total(cmp) && Transitive(cmp)
    requires j < |View(cmp, customers, term)|
    ensures View(cmp, customers, term)[j].0 in RowKeys
    ensures |View(cmp, customers, term)[j].1| > 0
    ensures Sorted(cmp, View(cmp, customers, term)[j].1)
    ensures multiset(View(cmp, customers, term)[j].1)[c]
         == if GetRow(c.kana) == View(cmp, customers, term)[j].0 && Matches(c, term)
            then multiset(customers)[c] else 0
  {
    var filtered := FilterCustomers(customers, term);
    var sorted := SortedGroups(cmp, GroupsOf(filtered));
    var key := View(cmp, customers, term)[j].0;
    SectionsNonEmpty(sorted, RowKeys);
    assert key in RowKeySet;
    assert View(cmp, customers, term)[j].1 == SortByKana(cmp, BucketOf(filtered, key));
    SortByKanaSorted(cmp, BucketOf(filtered, key));
    BucketMultiplicity(filtered, key, c);
    FilterMultiplicity(customers, term, c);
  }

  /** Every customer the search keeps is shown in the section of its own row. */
  lemma ViewComplete(cmp: Comparator, customers: seq<Customer>, term: string, c: Customer)
    requires c in customers && Matches(c, term)
    ensures exists j :: 0 <= j < |View(cmp, customers, term)|
              && View(cmp, customers, term)[j].0 == GetRow(c.kana)
              && c in View(cmp, customers, term)[j].1
  {
    var filtered := FilterCustomers(customers, term);
    var sorted := SortedGroups(cmp, GroupsOf(filtered));
    var key := GetRow(c.kana);
    FilterMembership(customers, term, c);
    var bucket := BucketOf(filtered, key);
    ExactlyOneBucket(filtered, c, key);
    assert sorted[key] == SortByKana(cmp, bucket);
    assert c in multiset(sorted[key]);
    var j := SectionOf(sorted, RowKeys, key);
    assert View(cmp, customers, term) == Sections(sorted, RowKeys);
  }

  /** The position of the section of a non-empty bucket. */
  lemma SectionOf(groups: Groups, keys: seq<string>, k: string) returns (j: nat)
    requires forall k :: k in keys ==> k in groups
    requires k in keys && |groups[k]| > 0
    ensures j < |Sections(groups, keys)| && Sections(groups, keys)[j] == (k, groups[k])
  {
    SectionsComplete(groups, keys, k);
    j :| 0 <= j < |Sections(groups, keys)| && Sections(groups, keys)[j].0 == k;
    SectionsNonEmpty(groups, keys);
  }
}
