/** `useCategories` (categorize.jsx:27-46): groups the (shuffled) items into one bucket per
    declared category name. */
module Bucketizer {
  import opened Wrappers
  import opened Quiz
  import Shuffler

  /** The `TypeError` that `obj[item.category].push(item)` throws when no bucket carries the
      item's category name (`obj[item.category]` is `undefined`). */
  datatype BucketError = UndeclaredCategory(item: Item)

  /** The items filed under category `name`, in input order: the reference definition of a
      bucket's contents. */
  function InCategory(items: seq<Item>, name: string): (r: seq<Item>)
    ensures |r| <= |items|
  {
    if items == [] then []
    else (if items[0].category == name then [items[0]] else []) + InCategory(items[1..], name)
  }

  /** Every item names a declared category, so no `push` meets `undefined`. */
  predicate AllDeclared(items: seq<Item>, names: set<string>) {
    forall k :: 0 <= k < |items| ==> items[k].category in names
  }

  /** `useCategories`' first loop: every declared category name gets an empty list (a name
      declared twice is reset to an empty list again). */
  method EmptyBuckets(categories: seq<Category>) returns (obj: map<string, seq<Item>>)
    ensures obj.Keys == Names(categories)
    ensures forall name :: name in obj ==> obj[name] == []
  {
    obj := map[];
    for c := 0 to |categories|
      invariant obj.Keys == Names(categories[..c])
      invariant forall name :: name in obj ==> obj[name] == []
    {
      NamesSnoc(categories[..c], categories[c]);
      assert categories[..c + 1] == categories[..c] + [categories[c]];
      obj := obj[categories[c].name := []];
    }
    assert categories[..|categories|] == categories;
  }

  /** The effect of `useCategories`: an empty list for every declared category, then each item
      appended to the list named by its category, in input order. The first item whose
      category is not declared aborts the effect with a `TypeError`. */
  method Bucketize(items: seq<Item>, categories: seq<Category>) returns (r: Result<map<string, seq<Item>>, BucketError>)
    ensures r.Success? <==> AllDeclared(items, Names(categories))
    ensures r.Failure? ==> exists k :: 0 <= k < |items| && r.error == UndeclaredCategory(items[k])
                                 && items[k].category !in Names(categories)
                                 && AllDeclared(items[..k], Names(categories))
    ensures r.Success? ==> r.value.Keys == Names(categories)
    ensures r.Success? ==> forall name :: name in r.value ==> r.value[name] == InCategory(items, name)
  {
    ghost var names := Names(categories);
    var obj := EmptyBuckets(categories);
    for k := 0 to |items|
      invariant obj.Keys == names
      invariant AllDeclared(items[..k], names)
      invariant forall name :: name in obj ==> obj[name] == InCategory(items[..k], name)
    {
      var item := items[k];
      if item.category !in obj {
        assert !AllDeclared(items, names) by {
          assert items[k].category !in names;
        }
        return Failure(UndeclaredCategory(item));
      }
      ghost var old_obj := obj;
      obj := obj[item.category := obj[item.category] + [item]];
      forall name | name in obj
        ensures obj[name] == InCategory(items[..k + 1], name)
      {
        InCategorySnoc(items[..k], item, name);
        assert items[..k + 1] == items[..k] + [item];
      }
      assert AllDeclared(items[..k + 1], names) by {
        assert items[..k + 1] == items[..k] + [item];
      }
    }
    assert items[..|items|] == items;
    return Success(obj);
  }

  /** Appending one item extends at most the bucket its category names. */
  lemma InCategorySnoc(items: seq<Item>, x: Item, name: string)
    ensures InCategory(items + [x], name) == InCategory(items, name) + (if x.category == name then [x] else [])
  {
    InCategoryConcat(items, [x], name);
    assert InCategory([x], name) == (if x.category == name then [x] else []) + InCategory([], name);
  }

  lemma NamesSnoc(categories: seq<Category>, c: Category)
    ensures Names(categories + [c]) == Names(categories) + {c.name}
  {
    assert forall x :: x in categories + [c] <==> x in categories || x == c;
  }

  /** Buckets follow input order: the items of an earlier stretch of the input come before
      those of a later one. */
  lemma {:induction false} InCategoryConcat(a: seq<Item>, b: seq<Item>, name: string)
    ensures InCategory(a + b, name) == InCategory(a, name) + InCategory(b, name)
  {
    if a == [] {
      assert a + b == b;
    } else {
      var head := if a[0].category == name then [a[0]] else [];
      assert (a + b)[0] == a[0];
      assert (a + b)[1..] == a[1..] + b;
      calc {
        InCategory(a + b, name);
        head + InCategory(a[1..] + b, name);
        { InCategoryConcat(a[1..], b, name); }
        head + (InCategory(a[1..], name) + InCategory(b, name));
        (head + InCategory(a[1..], name)) + InCategory(b, name);
        InCategory(a, name) + InCategory(b, name);
      }
    }
  }

  /** Each item lands in exactly the bucket its category names, as often as it occurs in the
      input: none is lost, duplicated or filed elsewhere. */
  lemma {:induction false} InCategoryCount(items: seq<Item>, name: string, x: Item)
    ensures multiset(InCategory(items, name))[x] == if x.category == name then multiset(items)[x] else 0
  {
    if items != [] {
      InCategoryCount(items[1..], name, x);
      assert items == [items[0]] + items[1..];
    }
  }

  /** A declared category that no item names keeps its initial empty list. */
  lemma {:induction false} UnusedCategoryIsEmpty(items: seq<Item>, name: string)
    requires forall k :: 0 <= k < |items| ==> items[k].category != name
    ensures InCategory(items, name) == []
  {
    if items != [] {
      UnusedCategoryIsEmpty(items[1..], name);
    }
  }

  /** Bucket membership does not depend on the presentation order. */
  lemma BucketsIgnoreOrder(s: seq<Item>, t: seq<Item>, name: string)
    requires multiset(s) == multiset(t)
    ensures multiset(InCategory(s, name)) == multiset(InCategory(t, name))
  {
    forall x | true
      ensures multiset(InCategory(s, name))[x] == multiset(InCategory(t, name))[x]
    {
      InCategoryCount(s, name, x);
      InCategoryCount(t, name, x);
    }
  }

  /** Bucketizing the shuffled order (as the exercise view does) fails exactly when
      bucketizing the document's order would, and otherwise fills every bucket with the same
      items; only their order within a bucket follows the shuffle. */
  lemma ShuffledBucketsHoldSameItems(items: seq<Item>, draws: seq<nat>, categories: seq<Category>, name: string)
    requires Shuffler.ValidDraws(draws, |items|)
    ensures AllDeclared(Shuffler.Shuffled(items, draws), Names(categories)) <==> AllDeclared(items, Names(categories))
    ensures multiset(InCategory(Shuffler.Shuffled(items, draws), name)) == multiset(InCategory(items, name))
  {
    var s := Shuffler.Shuffled(items, draws);
    Shuffler.ShuffledIsPermutation(items, draws);
    BucketsIgnoreOrder(s, items, name);
    forall k | 0 <= k < |s|
      ensures s[k] in multiset(items)
    {
      assert s[k] in multiset(s);
    }
    forall k | 0 <= k < |items|
      ensures items[k] in multiset(s)
    {
      assert items[k] in multiset(items);
    }
  }

  /** The sum of the sizes of the buckets named in `names`. */
  function TotalSize(items: seq<Item>, names: seq<string>): (n: nat)
    ensures names == [] ==> n == 0
  {
    if names == [] then 0 else |InCategory(items, names[0])| + TotalSize(items, names[1..])
  }

  /** How often `name` occurs in `names`. */
  function Occurrences(names: seq<string>, name: string): (n: nat)
    ensures n <= |names|
  {
    if names == [] then 0 else (if names[0] == name then 1 else 0) + Occurrences(names[1..], name)
  }

  predicate Distinct(names: seq<string>) {
    forall a, b :: 0 <= a < b < |names| ==> names[a] != names[b]
  }

  /** When every item's category is declared, the buckets together hold as many entries as
      there are items. */
  lemma {:induction false} BucketSizesSum(items: seq<Item>, names: seq<string>)
    requires Distinct(names)
    requires forall k :: 0 <= k < |items| ==> items[k].category in names
    ensures TotalSize(items, names) == |items|
  {
    if items == [] {
      NoItemsNoEntries(names);
    } else {
      BucketSizesSum(items[1..], names);
      TotalSizeFirst(items, names);
      DistinctOnce(names, items[0].category);
    }
  }

  lemma {:induction false} NoItemsNoEntries(names: seq<string>)
    ensures TotalSize([], names) == 0
  {
    if names != [] {
      NoItemsNoEntries(names[1..]);
    }
  }

  /** Taking off the first item shrinks exactly the buckets its category names. */
  lemma {:induction false} TotalSizeFirst(items: seq<Item>, names: seq<string>)
    requires items != []
    ensures TotalSize(items, names) == TotalSize(items[1..], names) + Occurrences(names, items[0].category)
  {
    if names != [] {
      TotalSizeFirst(items, names[1..]);
      assert |InCategory(items, names[0])| == |InCategory(items[1..], names[0])| + if items[0].category == names[0] then 1 else 0;
    }
  }

  /** A name of a duplicate-free list occurs in it once. */
  lemma {:induction false} DistinctOnce(names: seq<string>, name: string)
    requires Distinct(names) && name in names
    ensures Occurrences(names, name) == 1
  {
    if names[0] == name {
      NotInNone(names[1..], name);
    } else {
      DistinctOnce(names[1..], name);
    }
  }

  lemma {:induction false} NotInNone(names: seq<string>, name: string)
    requires name !in names
    ensures Occurrences(names, name) == 0
  {
    if names != [] {
      NotInNone(names[1..], name);
    }
  }

  /** The sorting scenario: a cat and an oak under "Animal" and "Plant"; after the store
      confirms moving the cat to "Plant", "Animal" is empty and "Plant" holds both. */
  lemma SortingScenario()
    ensures var cat, oak := Item("1", "Cat", "Animal"), Item("2", "Oak", "Plant");
            InCategory([cat, oak], "Animal") == [cat] && InCategory([cat, oak], "Plant") == [oak]
    ensures var cat, oak := Item("1", "Cat", "Plant"), Item("2", "Oak", "Plant");
            InCategory([cat, oak], "Animal") == [] && InCategory([cat, oak], "Plant") == [cat, oak]
  {
  }
}
