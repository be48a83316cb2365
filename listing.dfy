/**
 * The listing logic shared by the public pages: the `ORDER BY sortOrder`
 * query (a stable sort standing in for the store's ordering), the
 * `WHERE` filter, and the grouping `reduce` that collects items into one
 * list per category.
 */
module Listing {
  import opened Wrappers

  /** Ascending by `key`. */
  predicate SortedBy<T>(s: seq<T>, key: T -> int) {
    forall i, j :: 0 <= i < j < |s| ==> key(s[i]) <= key(s[j])
  }

  /** The rows a whole-table select returns: every stored row exactly once, in whatever order the store produces them. */
  ghost predicate IsScanOf<T(!new)>(rows: map<int, T>, scan: seq<T>) {
    && (forall i, j :: 0 <= i < j < |scan| ==> scan[i] != scan[j])
    && (forall x :: x in scan <==> x in rows.Values)
  }

  /** In a list without repeats every element occurs exactly once. */
  lemma {:induction false} DistinctOnce<T(!new)>(s: seq<T>)
    requires forall i, j :: 0 <= i < j < |s| ==> s[i] != s[j]
    ensures forall x :: multiset(s)[x] == if x in s then 1 else 0
  {
    if |s| > 0 {
      var init, last := s[..|s| - 1], s[|s| - 1];
      assert s == init + [last];
      assert forall i :: 0 <= i < |init| ==> init[i] == s[i];
      DistinctOnce(init);
      assert last !in init;
    }
  }

  /** Inserts `x` before the first element with a larger-or-equal key. */
  function Insert<T>(x: T, s: seq<T>, key: T -> int): (r: seq<T>)
    ensures multiset(r) == multiset(s) + multiset{x}
    ensures |r| == |s| + 1
    ensures |s| > 0 ==> r[0] == x || r[0] == s[0]
  {
    if |s| == 0 then [x]
    else if key(x) <= key(s[0]) then [x] + s
    else
      assert s == [s[0]] + s[1..];
      [s[0]] + Insert(x, s[1..], key)
  }

  /** Inserting into a sorted list keeps it sorted. */
  lemma {:induction false} InsertKeepsSorted<T>(x: T, s: seq<T>, key: T -> int)
    requires SortedBy(s, key)
    ensures SortedBy(Insert(x, s, key), key)
  {
    if |s| > 0 && key(x) > key(s[0]) {
      var tail := s[1..];
      assert SortedBy(tail, key) by {
        forall i, j | 0 <= i < j < |tail| ensures key(tail[i]) <= key(tail[j]) {
          assert tail[i] == s[i + 1] && tail[j] == s[j + 1];
        }
      }
      InsertKeepsSorted(x, tail, key);
      var rest := Insert(x, tail, key);
      assert key(s[0]) <= key(rest[0]);
      var r := [s[0]] + rest;
      assert Insert(x, s, key) == r;
      forall i, j | 0 <= i < j < |r| ensures key(r[i]) <= key(r[j]) {
        if i == 0 {
          assert key(rest[0]) <= key(rest[j - 1]);
        } else {
          assert r[i] == rest[i - 1] && r[j] == rest[j - 1];
        }
      }
    }
  }

  /** The rows ordered by ascending `key`; rows with equal keys keep their scan order. */
  function SortBy<T>(s: seq<T>, key: T -> int): (r: seq<T>)
    ensures multiset(r) == multiset(s)
    ensures |r| == |s|
    ensures SortedBy(r, key)
  {
    if |s| == 0 then []
    else
      assert s == [s[0]] + s[1..];
      InsertKeepsSorted(s[0], SortBy(s[1..], key), key);
      Insert(s[0], SortBy(s[1..], key), key)
  }

  /** Sorting neither adds nor drops a row. */
  lemma {:induction false} SortByKeepsRows<T(!new)>(s: seq<T>, key: T -> int)
    ensures forall x :: x in SortBy(s, key) <==> x in s
  {
    var r := SortBy(s, key);
    forall x ensures x in r <==> x in s {
      assert x in r <==> x in multiset(r);
      assert x in s <==> x in multiset(s);
    }
  }

  /** The rows the `WHERE` clause keeps, in order. */
  function Filter<T(!new)>(s: seq<T>, keep: T -> bool): (r: seq<T>)
    ensures |r| <= |s|
    ensures forall x :: x in r <==> x in s && keep(x)
  {
    if |s| == 0 then []
    else
      assert s == s[..|s| - 1] + [s[|s| - 1]];
      Filter(s[..|s| - 1], keep) + (if keep(s[|s| - 1]) then [s[|s| - 1]] else [])
  }

  /** The filter keeps every kept row as many times as it occurs, and no other row. */
  lemma {:induction false} FilterCounts<T(!new)>(s: seq<T>, keep: T -> bool)
    ensures forall x :: multiset(Filter(s, keep))[x] == if keep(x) then multiset(s)[x] else 0
  {
    if |s| > 0 {
      var init, last := s[..|s| - 1], s[|s| - 1];
      FilterCounts(init, keep);
      assert s == init + [last];
      assert multiset(s) == multiset(init) + multiset{last};
      assert Filter(s, keep) == Filter(init, keep) + (if keep(last) then [last] else []);
    }
  }

  // ----- grouping by category -----

  /** The items of category `c`, in input order. */
  function InCategory<T>(s: seq<T>, category: T -> string, c: string): seq<T> {
    if |s| == 0 then []
    else InCategory(s[..|s| - 1], category, c) + (if category(s[|s| - 1]) == c then [s[|s| - 1]] else [])
  }

  /** The categories that occur in `s`. */
  function Categories<T>(s: seq<T>, category: T -> string): set<string> {
    if |s| == 0 then {} else Categories(s[..|s| - 1], category) + {category(s[|s| - 1])}
  }

  /** The intended result of the grouping: for each category present, its items in input order. */
  function Grouped<T>(s: seq<T>, category: T -> string): map<string, seq<T>> {
    map c | c in Categories(s, category) :: InCategory(s, category, c)
  }

  /** A category occurs in the input exactly when its group is non-empty. */
  lemma {:induction false} CategoryOccursIffGroupNonEmpty<T>(s: seq<T>, category: T -> string, c: string)
    ensures c in Categories(s, category) <==> InCategory(s, category, c) != []
  {
    if |s| > 0 {
      CategoryOccursIffGroupNonEmpty(s[..|s| - 1], category, c);
    }
  }

  /** The category set is exactly the set of the items' categories. */
  lemma {:induction false} CategoriesOfItems<T>(s: seq<T>, category: T -> string)
    ensures forall c :: c in Categories(s, category) <==> exists i :: 0 <= i < |s| && category(s[i]) == c
  {
    if |s| > 0 {
      var init := s[..|s| - 1];
      CategoriesOfItems(init, category);
      forall c | c in Categories(s, category) ensures exists i :: 0 <= i < |s| && category(s[i]) == c {
        if c in Categories(init, category) {
          var i :| 0 <= i < |init| && category(init[i]) == c;
          assert s[i] == init[i];
        } else {
          assert category(s[|s| - 1]) == c;
        }
      }
      forall c | exists i :: 0 <= i < |s| && category(s[i]) == c ensures c in Categories(s, category) {
        var i :| 0 <= i < |s| && category(s[i]) == c;
        if i < |s| - 1 {
          assert init[i] == s[i];
        }
      }
    }
  }

  /** An item belongs to the group of its own category and to no other. */
  lemma {:induction false} GroupMembers<T>(s: seq<T>, category: T -> string, c: string)
    ensures forall x :: x in InCategory(s, category, c) <==> x in s && category(x) == c
  {
    if |s| > 0 {
      var init := s[..|s| - 1];
      GroupMembers(init, category, c);
      assert s == init + [s[|s| - 1]];
    }
  }

  /** The position of item `i` inside its group: how many items of its category precede it. */
  lemma {:induction false} GroupPosition<T>(s: seq<T>, category: T -> string, i: nat)
    requires i < |s|
    ensures |InCategory(s[..i], category, category(s[i]))| < |InCategory(s, category, category(s[i]))|
    ensures InCategory(s, category, category(s[i]))[|InCategory(s[..i], category, category(s[i]))|] == s[i]
  {
    var c := category(s[i]);
    if i == |s| - 1 {
      assert s[..|s| - 1] == s[..i];
    } else {
      var init := s[..|s| - 1];
      assert init[..i] == s[..i];
      assert init[i] == s[i];
      GroupPosition(init, category, i);
    }
  }

  /** Later items of a category never have fewer predecessors in it. */
  lemma {:induction false} GroupCountMonotone<T>(s: seq<T>, category: T -> string, c: string, i: nat, j: nat)
    requires i <= j <= |s|
    ensures |InCategory(s[..i], category, c)| <= |InCategory(s[..j], category, c)|
    decreases j - i
  {
    if i < j {
      GroupCountMonotone(s, category, c, i, j - 1);
      assert s[..j][..j - 1] == s[..j - 1];
    }
  }

  /** Within a group, items keep their relative order from the input. */
  lemma GroupKeepsOrder<T>(s: seq<T>, category: T -> string, i: nat, j: nat)
    requires i < j < |s| && category(s[i]) == category(s[j])
    ensures exists p, q ::
              && 0 <= p < q < |InCategory(s, category, category(s[i]))|
              && InCategory(s, category, category(s[i]))[p] == s[i]
              && InCategory(s, category, category(s[i]))[q] == s[j]
  {
    var c := category(s[i]);
    GroupPosition(s, category, i);
    GroupPosition(s, category, j);
    var p := |InCategory(s[..i], category, c)|;
    var q := |InCategory(s[..j], category, c)|;
    GroupCountMonotone(s, category, c, i + 1, j);
    assert s[..i + 1][..i] == s[..i];
    assert |InCategory(s[..i + 1], category, c)| == p + 1;
  }

  /** One more item: the grouping of `s[..i+1]` is that of `s[..i]` with `s[i]` appended to its group. */
  lemma GroupedStep<T>(s: seq<T>, category: T -> string, i: nat)
    requires i < |s|
    ensures var g := Grouped(s[..i], category);
            var c := category(s[i]);
            Grouped(s[..i + 1], category) == g[c := (if c in g then g[c] else []) + [s[i]]]
  {
    var g := Grouped(s[..i], category);
    var c := category(s[i]);
    var h := g[c := (if c in g then g[c] else []) + [s[i]]];
    var t := s[..i + 1];
    assert t[..|t| - 1] == s[..i] && t[|t| - 1] == s[i];
    assert Categories(t, category) == Categories(s[..i], category) + {c};
    if c !in g {
      CategoryOccursIffGroupNonEmpty(s[..i], category, c);
    }
    forall d | d in h ensures d in Grouped(t, category) && Grouped(t, category)[d] == h[d] {
      assert InCategory(t, category, d)
        == InCategory(s[..i], category, d) + (if c == d then [s[i]] else []);
    }
    assert h.Keys == Grouped(t, category).Keys;
  }

  /**
   * The grouping `reduce`: for each item, create its category's list if
   * missing, then append the item to it.
   */
  method GroupByCategory<T>(items: seq<T>, category: T -> string) returns (groups: map<string, seq<T>>)
    ensures groups == Grouped(items, category)
  {
    groups := map[];
    for i := 0 to |items|
      invariant groups == Grouped(items[..i], category)
    {
      var c := category(items[i]);
      if c !in groups {
        groups := groups[c := []];
      }
      groups := groups[c := groups[c] + [items[i]]];
      GroupedStep(items, category, i);
    }
    assert items[..|items|] == items;
  }

  /** No group is empty. */
  lemma GroupsNonEmpty<T>(s: seq<T>, category: T -> string)
    ensures forall c :: c in Grouped(s, category) ==> |Grouped(s, category)[c]| > 0
  {
    forall c | c in Grouped(s, category) ensures |Grouped(s, category)[c]| > 0 {
      CategoryOccursIffGroupNonEmpty(s, category, c);
    }
  }

  /** No items, no groups; any item, at least one group. */
  lemma NoGroupsIffNoItems<T>(s: seq<T>, category: T -> string)
    ensures |Grouped(s, category)| == 0 <==> |s| == 0
  {
    if |s| > 0 {
      var c := category(s[|s| - 1]);
      assert c in Grouped(s, category);
    } else {
      assert Grouped(s, category) == map[];
    }
  }

  /** The total size of the groups named in `cats`. */
  function SizeOfGroups<T>(s: seq<T>, category: T -> string, cats: seq<string>): nat {
    if |cats| == 0 then 0 else |InCategory(s, category, cats[0])| + SizeOfGroups(s, category, cats[1..])
  }

  function Occurrences(cats: seq<string>, c: string): nat {
    if |cats| == 0 then 0 else (if cats[0] == c then 1 else 0) + Occurrences(cats[1..], c)
  }

  lemma {:induction false} OccurrencesOfDistinct(cats: seq<string>, c: string)
    requires forall i, j :: 0 <= i < j < |cats| ==> cats[i] != cats[j]
    ensures Occurrences(cats, c) == if c in cats then 1 else 0
  {
    if |cats| > 0 {
      OccurrencesOfDistinct(cats[1..], c);
      if cats[0] == c {
        assert c !in cats[1..] by {
          forall k | 0 <= k < |cats[1..]| ensures cats[1..][k] != c { assert cats[k + 1] == cats[1..][k]; }
        }
      } else {
        assert c in cats <==> c in cats[1..] by {
          assert cats == [cats[0]] + cats[1..];
        }
      }
    }
  }

  lemma {:induction false} SizeOfGroupsEmpty<T>(category: T -> string, cats: seq<string>)
    ensures SizeOfGroups([], category, cats) == 0
  {
    if |cats| > 0 {
      SizeOfGroupsEmpty(category, cats[1..]);
    }
  }

  /** Appending an item adds one to every listed group of its category. */
  lemma {:induction false} SizeOfGroupsSnoc<T>(s: seq<T>, category: T -> string, cats: seq<string>)
    requires |s| > 0
    ensures SizeOfGroups(s, category, cats)
      == SizeOfGroups(s[..|s| - 1], category, cats) + Occurrences(cats, category(s[|s| - 1]))
  {
    if |cats| > 0 {
      SizeOfGroupsSnoc(s, category, cats[1..]);
    }
  }

  /** Summed over the categories present, each counted once, the group sizes add up to the number of items. */
  lemma {:induction false} GroupSizesSum<T>(s: seq<T>, category: T -> string, cats: seq<string>)
    requires forall i, j :: 0 <= i < j < |cats| ==> cats[i] != cats[j]
    requires forall c :: c in Categories(s, category) ==> c in cats
    ensures SizeOfGroups(s, category, cats) == |s|
  {
    if |s| == 0 {
      SizeOfGroupsEmpty(category, cats);
    } else {
      var init := s[..|s| - 1];
      GroupSizesSum(init, category, cats);
      SizeOfGroupsSnoc(s, category, cats);
      OccurrencesOfDistinct(cats, category(s[|s| - 1]));
    }
  }

  /** Within a sorted list, every group is sorted too. */
  lemma {:induction false} GroupSorted<T(!new)>(s: seq<T>, category: T -> string, key: T -> int, c: string)
    requires SortedBy(s, key)
    ensures SortedBy(InCategory(s, category, c), key)
  {
    if |s| > 0 {
      var init := s[..|s| - 1];
      assert SortedBy(init, key);
      GroupSorted(init, category, key, c);
      GroupMembers(init, category, c);
      assert forall k :: 0 <= k < |init| ==> key(init[k]) <= key(s[|s| - 1]);
      var g := InCategory(init, category, c);
      var last := s[|s| - 1];
      if category(last) == c {
        var h := g + [last];
        forall i, j | 0 <= i < j < |h| ensures key(h[i]) <= key(h[j]) {
          assert h[i] == g[i] && g[i] in g;
          if j < |h| - 1 {
            assert h[j] == g[j];
          } else {
            assert g[i] in init && h[j] == last;
          }
        }
      }
    }
  }

  /**
   * The category pages over a scan of the stored rows: every row sits in
   * the group of its category and nowhere else.
   */
  lemma ScanGroups<T(!new)>(rows: map<int, T>, scan: seq<T>, key: T -> int, category: T -> string)
    requires IsScanOf(rows, scan)
    ensures forall x :: x in rows.Values ==>
      && category(x) in Grouped(SortBy(scan, key), category)
      && x in Grouped(SortBy(scan, key), category)[category(x)]
    ensures forall c, x :: c in Grouped(SortBy(scan, key), category) && x in Grouped(SortBy(scan, key), category)[c] ==>
      x in rows.Values && category(x) == c
  {
    var sorted := SortBy(scan, key);
    SortByKeepsRows(scan, key);
    StoredRowsGrouped(rows, sorted, category);
  }

  /** When `s` holds exactly the stored rows, its grouping places each of them in its category's group and nowhere else. */
  lemma StoredRowsGrouped<T(!new)>(rows: map<int, T>, s: seq<T>, category: T -> string)
    requires forall x :: x in s <==> x in rows.Values
    ensures forall x :: x in rows.Values ==> category(x) in Grouped(s, category) && x in Grouped(s, category)[category(x)]
    ensures forall c, x :: c in Grouped(s, category) && x in Grouped(s, category)[c] ==> x in rows.Values && category(x) == c
  {
    var groups := Grouped(s, category);
    forall x | x in rows.Values
      ensures category(x) in groups && x in groups[category(x)]
    {
      GroupMembers(s, category, category(x));
      CategoryOccursIffGroupNonEmpty(s, category, category(x));
      assert x in InCategory(s, category, category(x));
    }
    forall c, x | c in groups && x in groups[c]
      ensures x in rows.Values && category(x) == c
    {
      assert groups[c] == InCategory(s, category, c);
      GroupMembers(s, category, c);
    }
  }

  /** On the category pages every group is non-empty and in ascending `key` order. */
  lemma SortedGroups<T(!new)>(scan: seq<T>, key: T -> int, category: T -> string)
    ensures forall c :: c in Grouped(SortBy(scan, key), category) ==>
      |Grouped(SortBy(scan, key), category)[c]| > 0 && SortedBy(Grouped(SortBy(scan, key), category)[c], key)
  {
    var sorted := SortBy(scan, key);
    forall c | c in Grouped(sorted, category)
      ensures |Grouped(sorted, category)[c]| > 0 && SortedBy(Grouped(sorted, category)[c], key)
    {
      CategoryOccursIffGroupNonEmpty(sorted, category, c);
      GroupSorted(sorted, category, key, c);
    }
  }

  // ----- the grouping as written, into a plain object -----

  /**
   * The names an empty object literal already answers through its
   * prototype. Looking one of them up yields an inherited function, which
   * is truthy and has no `push`.
   */
  const InheritedKeys: set<string> := {
    "constructor", "__proto__", "hasOwnProperty", "isPrototypeOf", "propertyIsEnumerable",
    "toLocaleString", "toString", "valueOf",
    "__defineGetter__", "__defineSetter__", "__lookupGetter__", "__lookupSetter__"
  }

  /** The item categories for which the object-literal `reduce` throws. */
  predicate ReduceThrows<T>(items: seq<T>, category: T -> string) {
    exists i :: 0 <= i < |items| && category(items[i]) in InheritedKeys
  }

  /**
   * The `reduce` as written, over `{}`: an item whose category names an
   * inherited member skips the "create the list" step and then calls `push`
   * on that member, which throws a TypeError.
   */
  method GroupByCategoryAsWritten<T>(items: seq<T>, category: T -> string)
    returns (r: Result<map<string, seq<T>>, string>)
    ensures r.Failure? <==> ReduceThrows(items, category)
    ensures r.Success? ==> r.value == Grouped(items, category)
  {
    var groups := map[];
    for i := 0 to |items|
      invariant groups == Grouped(items[..i], category)
      invariant forall k :: 0 <= k < i ==> category(items[k]) !in InheritedKeys
    {
      var c := category(items[i]);
      if c in InheritedKeys {
        return Failure("TypeError: push is not a function");
      }
      if c !in groups {
        groups := groups[c := []];
      }
      groups := groups[c := groups[c] + [items[i]]];
      GroupedStep(items, category, i);
    }
    assert items[..|items|] == items;
    return Success(groups);
  }

  /** One item in category "constructor": the intended grouping has one group, the written one throws. */
  lemma InheritedCategoryThrows<T>(x: T, category: T -> string)
    requires category(x) == "constructor"
    ensures ReduceThrows([x], category)
    ensures Grouped([x], category) == map["constructor" := [x]]
  {
    var s := [x];
    assert s[..0] == [] && s[0] == x && |s| == 1;
    assert Categories(s, category) == {"constructor"};
    assert InCategory(s, category, "constructor") == [x];
    assert 0 <= 0 < |s| && category(s[0]) in InheritedKeys;
  }

  /** The grouping as the pages show it: the empty-state message, or the groups. */
  datatype CategoryView<T> = NothingYet | ByCategory(groups: map<string, seq<T>>)
}
