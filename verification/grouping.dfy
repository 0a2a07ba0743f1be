/**
 * Grouping a sample's analyses by category, as both table builders do: a
 * dictionary from category title to the analyses of that category, in
 * retrieval order, whose keys are then visited in sorted order.
 */
module Grouping {
  import opened Records
  import opened Strings

  /** Some analysis in `xs` belongs to category `c`. */
  ghost predicate HasCategory(xs: seq<Analysis>, c: string) {
    exists n :: 0 <= n < |xs| && xs[n].category == c
  }

  lemma HasCategoryCons(xs: seq<Analysis>, c: string)
    requires xs != []
    ensures HasCategory(xs, c) <==> xs[0].category == c || HasCategory(xs[1..], c)
  {
    if HasCategory(xs, c) && xs[0].category != c {
      var n :| 0 <= n < |xs| && xs[n].category == c;
      assert xs[1..][n - 1].category == c;
    }
    if HasCategory(xs[1..], c) {
      var n :| 0 <= n < |xs| - 1 && xs[1..][n].category == c;
      assert xs[n + 1].category == c;
    }
  }

  lemma HasCategorySnoc(xs: seq<Analysis>, i: nat, c: string)
    requires i < |xs|
    ensures HasCategory(xs[..i + 1], c) <==> HasCategory(xs[..i], c) || xs[i].category == c
  {
    if HasCategory(xs[..i + 1], c) && xs[i].category != c {
      var n :| 0 <= n < i + 1 && xs[..i + 1][n].category == c;
      assert xs[..i][n].category == c;
    }
    if HasCategory(xs[..i], c) {
      var n :| 0 <= n < i && xs[..i][n].category == c;
      assert xs[..i + 1][n].category == c;
    }
    assert xs[..i + 1][i] == xs[i];
  }

  /** The category titles of `xs`, each once. Their order is immaterial:
      only the sorted order of the categories is ever observed. */
  ghost function CategoryList(xs: seq<Analysis>): (cs: seq<string>)
    ensures Distinct(cs)
    ensures forall c :: c in cs <==> HasCategory(xs, c)
  {
    if xs == [] then
      []
    else
      var rest := CategoryList(xs[1..]);
      assert forall c :: HasCategory(xs, c) <==> xs[0].category == c || HasCategory(xs[1..], c) by {
        forall c { HasCategoryCons(xs, c); }
      }
      if xs[0].category in rest then rest else [xs[0].category] + rest
  }

  /** The set of category titles of `xs`. */
  ghost function CategorySet(xs: seq<Analysis>): set<string> {
    set a | a in xs :: a.category
  }

  /** The analyses of category `c`, in retrieval order. */
  function Filter(xs: seq<Analysis>, c: string): seq<Analysis> {
    if xs == [] then []
    else (if xs[0].category == c then [xs[0]] else []) + Filter(xs[1..], c)
  }

  /** The analyses whose category is one of `cs`, in retrieval order. */
  ghost function FilterIn(xs: seq<Analysis>, cs: seq<string>): seq<Analysis> {
    if xs == [] then []
    else (if xs[0].category in cs then [xs[0]] else []) + FilterIn(xs[1..], cs)
  }

  /** The groups of the categories `cs`, one after another. */
  ghost function ConcatGroups(xs: seq<Analysis>, cs: seq<string>): seq<Analysis> {
    if cs == [] then [] else Filter(xs, cs[0]) + ConcatGroups(xs, cs[1..])
  }

  /** `sorted(group_cats.keys())`: each category once, strictly ascending. */
  ghost function SortedCategories(xs: seq<Analysis>): seq<string> {
    SortStrings(CategoryList(xs))
  }

  lemma SortedCategoriesSpec(xs: seq<Analysis>)
    ensures Ascending(SortedCategories(xs))
    ensures forall c :: c in SortedCategories(xs) <==> HasCategory(xs, c)
  {
    SortDistinct(CategoryList(xs));
    SortStringsSpec(CategoryList(xs));
    assert forall c :: c in SortedCategories(xs) <==> c in multiset(CategoryList(xs));
  }

  /** The order in which a sample's analyses are written: categories
      ascending, retrieval order within each category. */
  ghost function Ordered(xs: seq<Analysis>): seq<Analysis> {
    ConcatGroups(xs, SortedCategories(xs))
  }

  /** A group holds exactly the analyses of its category. */
  lemma {:induction false} FilterMembers(xs: seq<Analysis>, c: string)
    ensures forall a :: a in Filter(xs, c) <==> a in xs && a.category == c
    decreases |xs|
  {
    if xs != [] {
      FilterMembers(xs[1..], c);
      assert xs == [xs[0]] + xs[1..];
    }
  }

  /** Grouping is stable: the analyses of `c` from an earlier part of the
      list come before those from a later part. */
  lemma {:induction false} FilterAppend(xs: seq<Analysis>, ys: seq<Analysis>, c: string)
    ensures Filter(xs + ys, c) == Filter(xs, c) + Filter(ys, c)
    decreases |xs|
  {
    if xs == [] {
      assert xs + ys == ys;
    } else {
      assert (xs + ys)[1..] == xs[1..] + ys;
      FilterAppend(xs[1..], ys, c);
    }
  }

  /** A category without analyses has an empty group. */
  lemma {:induction false} FilterAbsent(xs: seq<Analysis>, c: string)
    requires !HasCategory(xs, c)
    ensures Filter(xs, c) == []
    decreases |xs|
  {
    if xs != [] {
      HasCategoryCons(xs, c);
      FilterAbsent(xs[1..], c);
    }
  }

  /** What one more analysis does to the group of each category. */
  lemma FilterSnoc(xs: seq<Analysis>, i: nat, c: string)
    requires i < |xs|
    ensures Filter(xs[..i + 1], c) == Filter(xs[..i], c) + (if xs[i].category == c then [xs[i]] else [])
  {
    assert xs[..i + 1] == xs[..i] + [xs[i]];
    FilterAppend(xs[..i], [xs[i]], c);
    assert [xs[i]][1..] == [];
  }

  lemma {:induction false} FilterInAddCategory(xs: seq<Analysis>, c: string, cs: seq<string>)
    requires c !in cs
    ensures multiset(FilterIn(xs, [c] + cs)) == multiset(Filter(xs, c)) + multiset(FilterIn(xs, cs))
    decreases |xs|
  {
    if xs != [] {
      FilterInAddCategory(xs[1..], c, cs);
    }
  }

  lemma {:induction false} FilterInNone(xs: seq<Analysis>)
    ensures FilterIn(xs, []) == []
    decreases |xs|
  {
    if xs != [] {
      FilterInNone(xs[1..]);
    }
  }

  lemma {:induction false} FilterInAll(xs: seq<Analysis>, cs: seq<string>)
    requires forall n :: 0 <= n < |xs| ==> xs[n].category in cs
    ensures FilterIn(xs, cs) == xs
    decreases |xs|
  {
    if xs != [] {
      assert xs[0].category in cs;
      FilterInAll(xs[1..], cs);
      assert xs == [xs[0]] + xs[1..];
    }
  }

  lemma {:induction false} ConcatGroupsFilterIn(xs: seq<Analysis>, cs: seq<string>)
    requires Distinct(cs)
    ensures multiset(ConcatGroups(xs, cs)) == multiset(FilterIn(xs, cs))
    decreases |cs|
  {
    if cs == [] {
      FilterInNone(xs);
    } else {
      assert cs == [cs[0]] + cs[1..];
      ConcatGroupsFilterIn(xs, cs[1..]);
      FilterInAddCategory(xs, cs[0], cs[1..]);
    }
  }

  lemma {:induction false} ConcatGroupsAppend(xs: seq<Analysis>, cs: seq<string>, ds: seq<string>)
    ensures ConcatGroups(xs, cs + ds) == ConcatGroups(xs, cs) + ConcatGroups(xs, ds)
    decreases |cs|
  {
    if cs == [] {
      assert cs + ds == ds;
    } else {
      assert (cs + ds)[1..] == cs[1..] + ds;
      ConcatGroupsAppend(xs, cs[1..], ds);
    }
  }

  /** Visiting one more category appends its group. */
  lemma ConcatGroupsSnoc(xs: seq<Analysis>, cs: seq<string>, k: nat)
    requires k < |cs|
    ensures ConcatGroups(xs, cs[..k + 1]) == ConcatGroups(xs, cs[..k]) + Filter(xs, cs[k])
  {
    assert cs[..k + 1] == cs[..k] + [cs[k]];
    ConcatGroupsAppend(xs, cs[..k], [cs[k]]);
    assert [cs[k]][1..] == [];
  }

  /** Every analysis is written exactly once: the grouped order is a
      permutation of the retrieval order. */
  lemma OrderedPermutation(xs: seq<Analysis>)
    ensures multiset(Ordered(xs)) == multiset(xs)
    ensures |Ordered(xs)| == |xs|
  {
    var cs := SortedCategories(xs);
    SortedCategoriesSpec(xs);
    forall n | 0 <= n < |xs| ensures xs[n].category in cs {
      assert HasCategory(xs, xs[n].category);
    }
    ConcatGroupsFilterIn(xs, cs);
    FilterInAll(xs, cs);
    assert |Ordered(xs)| == |multiset(Ordered(xs))| == |multiset(xs)| == |xs|;
  }

  lemma {:induction false} DistinctCardinality(cs: seq<string>)
    requires Distinct(cs)
    ensures |set c | c in cs| == |cs|
    decreases |cs|
  {
    if cs != [] {
      DistinctCardinality(cs[1..]);
      assert (set c | c in cs) == {cs[0]} + (set c | c in cs[1..]);
    }
  }

  /** There are as many sorted category titles as distinct categories. */
  lemma SortedCategoriesCount(xs: seq<Analysis>)
    ensures |SortedCategories(xs)| == |CategorySet(xs)|
  {
    var cs := SortedCategories(xs);
    SortedCategoriesSpec(xs);
    DistinctCardinality(cs);
    forall c ensures c in CategorySet(xs) <==> c in cs {
      if c in CategorySet(xs) {
        var a :| a in xs && a.category == c;
        var n :| 0 <= n < |xs| && xs[n] == a;
        assert HasCategory(xs, c);
      }
    }
    assert (set c | c in cs) == CategorySet(xs);
  }

  lemma DistinctSameMembers(a: seq<string>, b: seq<string>)
    requires Distinct(a) && Distinct(b)
    requires forall c :: c in a <==> c in b
    ensures multiset(a) == multiset(b)
  {
    forall v ensures multiset(a)[v] == multiset(b)[v] {
      DistinctAtMostOnce(a, v);
      DistinctAtMostOnce(b, v);
      assert v in a <==> v in multiset(a);
      assert v in b <==> v in multiset(b);
    }
  }

  /** Sorting any repetition-free list of the categories gives the sorted
      categories: the order of the dictionary keys before sorting is never
      observable. */
  lemma SortedKeysAgree(cats: seq<string>, xs: seq<Analysis>)
    requires Distinct(cats)
    requires forall c :: c in cats <==> HasCategory(xs, c)
    ensures SortStrings(cats) == SortedCategories(xs)
  {
    DistinctSameMembers(cats, CategoryList(xs));
    SortedCategoriesSpec(xs);
    SortStringsSpec(cats);
    SortStringsSpec(CategoryList(xs));
    SortedUnique(SortStrings(cats), SortedCategories(xs));
  }

  /** The dictionary and its key list describe the grouping of `ys`. */
  ghost predicate GroupsOf(ys: seq<Analysis>, cats: seq<string>, groups: map<string, seq<Analysis>>) {
    && Distinct(cats)
    && (forall c :: c in cats <==> HasCategory(ys, c))
    && (forall c :: c in groups <==> c in cats)
    && (forall c :: c in groups ==> groups[c] == Filter(ys, c))
  }

  /** One turn of the grouping loop: create the key if it is new, then
      append the analysis to its group. */
  lemma GroupsStep(xs: seq<Analysis>, i: nat, cats: seq<string>, groups: map<string, seq<Analysis>>,
                   cats': seq<string>, groups': map<string, seq<Analysis>>)
    requires i < |xs| && GroupsOf(xs[..i], cats, groups)
    requires cats' == if xs[i].category in groups then cats else cats + [xs[i].category]
    requires xs[i].category in groups' && groups'[xs[i].category] == Filter(xs[..i], xs[i].category) + [xs[i]]
    requires forall d :: d != xs[i].category ==> (d in groups' <==> d in groups)
    requires forall d :: d != xs[i].category && d in groups ==> groups'[d] == groups[d]
    ensures GroupsOf(xs[..i + 1], cats', groups')
  {
    forall c ensures HasCategory(xs[..i + 1], c) <==> HasCategory(xs[..i], c) || xs[i].category == c {
      HasCategorySnoc(xs, i, c);
    }
    forall c ensures Filter(xs[..i + 1], c) == Filter(xs[..i], c) + (if xs[i].category == c then [xs[i]] else []) {
      FilterSnoc(xs, i, c);
    }
  }

  /** The grouping loop shared by both builders: fills the dictionary
      `group_cats` from category title to that category's analyses, in
      retrieval order, and lists its keys in order of creation. */
  method GroupByCategory(xs: seq<Analysis>) returns (cats: seq<string>, groups: map<string, seq<Analysis>>)
    ensures Distinct(cats)
    ensures forall c :: c in cats <==> HasCategory(xs, c)
    ensures forall c :: c in groups <==> c in cats
    ensures forall c :: c in groups ==> groups[c] == Filter(xs, c)
  {
    cats, groups := [], map[];
    var i := 0;
    while i < |xs|
      invariant 0 <= i <= |xs|
      invariant GroupsOf(xs[..i], cats, groups)
    {
      var a := xs[i];
      ghost var (cats0, groups0) := (cats, groups);
      if a.category !in groups {
        FilterAbsent(xs[..i], a.category);
        groups := groups[a.category := []];
        cats := cats + [a.category];
      }
      groups := groups[a.category := groups[a.category] + [a]];
      GroupsStep(xs, i, cats0, groups0, cats, groups);
      i := i + 1;
    }
    assert xs[..i] == xs;
  }

  /** Groups the analyses and sorts the category titles: the categories to
      visit, ascending, each with its group. */
  method SortedGroups(xs: seq<Analysis>) returns (sorted: seq<string>, groups: map<string, seq<Analysis>>)
    ensures sorted == SortedCategories(xs)
    ensures forall c :: c in sorted ==> c in groups && groups[c] == Filter(xs, c)
  {
    var cats;
    cats, groups := GroupByCategory(xs);
    sorted := SortStrings(cats);
    SortedKeysAgree(cats, xs);
    SortStringsSpec(cats);
    forall c | c in sorted ensures c in groups {
      assert c in multiset(cats);
    }
  }
}
