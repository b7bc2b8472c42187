/** The earlier subset of the operators in P1.LInq: filter, map, stable
    ordering, counting, grouping and flattening. Enumerating a result is
    reading the returned sequence. */
module LinqLikeExtension {
  import opened Sequences
  import opened Ordering
  import opened Grouping

  /** A key fixed at construction and an append-only list of members;
      the enumerator walks `items` in insertion order. */
  class MyGrouping<K, E> {
    const Key: K
    var items: seq<E>

    constructor (key: K)
      ensures Key == key && items == []
    {
      Key := key;
      items := [];
    }

    method Add(item: E)
      modifies this
      ensures items == old(items) + [item]
    {
      items := items + [item];
    }
  }

  method MyWhere<T>(source: seq<T>, pred: T -> bool) returns (r: seq<T>)
    ensures r == Where(source, pred)
  {
    r := [];
    for i := 0 to |source|
      invariant r == Where(source[..i], pred)
    {
      PrefixStep(source, i);
      if pred(source[i]) {
        r := r + [source[i]];
      }
    }
    assert source[..|source|] == source;
  }

  method MySelect<T, U>(source: seq<T>, selector: T -> U) returns (r: seq<U>)
    ensures r == Select(source, selector)
  {
    r := [];
    for i := 0 to |source|
      invariant r == Select(source[..i], selector)
    {
      PrefixStep(source, i);
      r := r + [selector(source[i])];
    }
    assert source[..|source|] == source;
  }

  /** Enumerable.OrderBy with an integer key: a stable sort. */
  function MyOrder<T>(source: seq<T>, keySelector: T -> int): (r: seq<T>)
    ensures multiset(r) == multiset(source)
    ensures SortedBy(r, keySelector)
    ensures forall k :: Where(r, HasKey(keySelector, k)) == Where(source, HasKey(keySelector, k))
  {
    StableSortByKeepsEveryClass(source, keySelector);
    StableSortBy(source, keySelector)
  }

  /** Counts by enumerating; the cheap-count branch for collections returns the
      same number. */
  method MyCount<T>(source: seq<T>) returns (count: int)
    ensures count == |source|
  {
    count := 0;
    var e := 0;  // enumerator position
    while e < |source|
      invariant e <= |source|
      invariant count == e
    {
      count := count + 1;
      e := e + 1;
    }
  }

  method MyCountWhere<T>(source: seq<T>, pred: T -> bool) returns (count: int)
    ensures count == |Where(source, pred)|
  {
    var filteredItems := MyWhere(source, pred);
    count := MyCount(filteredItems);
  }

  /** `dict` maps each key to its grouping and `values` lists the groupings in
      insertion order; keys are constant, so this reads no mutable state. */
  ghost predicate Indexes<K, E>(dict: map<K, MyGrouping<K, E>>, values: seq<MyGrouping<K, E>>)
  {
    && (forall k :: k in dict ==> exists j :: 0 <= j < |values| && values[j].Key == k)
    && (forall j :: 0 <= j < |values| ==> values[j].Key in dict && dict[values[j].Key] == values[j])
  }

  /** The groupings in `values` hold what `spec` says. */
  ghost predicate Holds<K, E>(values: seq<MyGrouping<K, E>>, spec: seq<Group<K, E>>)
    reads values
  {
    && |values| == |spec|
    && (forall j :: 0 <= j < |values| ==> values[j].Key == spec[j].key && values[j].items == spec[j].items)
  }

  ghost predicate DictionaryHolds<K, E>(dict: map<K, MyGrouping<K, E>>, values: seq<MyGrouping<K, E>>,
                                        spec: seq<Group<K, E>>)
    reads values
  {
    Indexes(dict, values) && Holds(values, spec)
  }

  /** TryGetValue, and on a miss a new empty grouping added under the key. */
  method GetOrCreateGrouping<E, K(==)>(dict: map<K, MyGrouping<K, E>>, values: seq<MyGrouping<K, E>>,
                                       ghost spec: seq<Group<K, E>>, key: K)
    returns (dict': map<K, MyGrouping<K, E>>, values': seq<MyGrouping<K, E>>, group: MyGrouping<K, E>, ghost j: nat)
    requires DictionaryHolds(dict, values, spec)
    ensures key in Keys(spec) ==> dict' == dict && values' == values
    ensures key !in Keys(spec) ==> values' == values + [group] && fresh(group) && group.items == [] && j == |values|
    ensures DictionaryHolds(dict', values', WithGroupFor(spec, key))
    ensures j < |values'| && values'[j] == group && group.Key == key
  {
    if key !in dict {
      assert key !in Keys(spec);
      group := new MyGrouping(key);
      dict', values' := dict[key := group], values + [group];
      j := |values|;
      forall k | k in dict'
        ensures exists j :: 0 <= j < |values'| && values'[j].Key == k
      {
        if k == key {
          assert values'[|values|].Key == k;
        } else {
          var i :| 0 <= i < |values| && values[i].Key == k;
          assert values'[i].Key == k;
        }
      }
    } else {
      j :| 0 <= j < |values| && values[j].Key == key;
      assert Keys(spec)[j] == key;
      group := dict[key];
      dict', values' := dict, values;
    }
  }

  /** The body of MyGroupBy's loop for one item. */
  method AddToDictionary<E, K(==)>(dict: map<K, MyGrouping<K, E>>, values: seq<MyGrouping<K, E>>,
                                   ghost spec: seq<Group<K, E>>, item: E, key: K)
    returns (dict': map<K, MyGrouping<K, E>>, values': seq<MyGrouping<K, E>>)
    requires DictionaryHolds(dict, values, spec) && NoDuplicates(Keys(spec))
    modifies values
    ensures DictionaryHolds(dict', values', AddToGroups(spec, key, item))
    ensures |values| <= |values'| <= |values| + 1
    ensures forall j :: 0 <= j < |values| ==> values'[j] == values[j]
    ensures forall j :: |values| <= j < |values'| ==> fresh(values'[j])
  {
    var group: MyGrouping<K, E>;
    ghost var j: nat;
    dict', values', group, j := GetOrCreateGrouping(dict, values, spec, key);
    OpenThenAppend(spec, key, item, j);
    AppendAt(values', group, j, item, WithGroupFor(spec, key));
  }

  /** `group.Add(item)` on the j-th group: only that group changes, and the
      groups then hold `spec` with `item` appended to group j. */
  method AppendAt<K, E>(values: seq<MyGrouping<K, E>>, group: MyGrouping<K, E>, ghost j: nat, item: E,
                        ghost spec: seq<Group<K, E>>)
    requires Holds(values, spec)
    requires j < |values| && values[j] == group
    requires forall i :: 0 <= i < |spec| && i != j ==> spec[i].key != spec[j].key
    modifies group
    ensures Holds(values, spec[j := Group(spec[j].key, spec[j].items + [item])])
  {
    group.Add(item);
    forall i | 0 <= i < |values| && i != j
      ensures values[i].items == spec[i].items
    {
      assert values[i].Key != values[j].Key;
    }
  }

  /** One pass filling a dictionary of groupings, which are then yielded in the
      order their keys were added. */
  method MyGroupBy<E, K(==)>(source: seq<E>, keySelector: E -> K) returns (groups: seq<MyGrouping<K, E>>)
    ensures |groups| == |GroupBy(source, keySelector)|
    ensures forall j :: 0 <= j < |groups| ==>
              groups[j].Key == GroupBy(source, keySelector)[j].key &&
              groups[j].items == GroupBy(source, keySelector)[j].items
    ensures forall j :: 0 <= j < |groups| ==> fresh(groups[j])
    ensures forall j, j' :: 0 <= j < j' < |groups| ==> groups[j] != groups[j']
  {
    var dict: map<K, MyGrouping<K, E>> := map[];
    var values: seq<MyGrouping<K, E>> := [];
    ghost var spec: seq<Group<K, E>> := [];
    for i := 0 to |source|
      invariant spec == GroupBy(source[..i], keySelector)
      invariant DictionaryHolds(dict, values, spec)
      invariant forall j :: 0 <= j < |values| ==> fresh(values[j])
    {
      PrefixStep(source, i);
      GroupByKeysDistinct(source[..i], keySelector);
      dict, values := AddToDictionary(dict, values, spec, source[i], keySelector(source[i]));
      spec := AddToGroups(spec, keySelector(source[i]), source[i]);
    }
    assert source[..|source|] == source;
    GroupByKeysDistinct(source, keySelector);
    assert forall j, j' :: 0 <= j < j' < |values| ==> Keys(spec)[j] != Keys(spec)[j'];
    groups := values;
  }

  /** Flattens: the outer loop walks the source, the inner loop the collection
      the selector returns for it. */
  method MySelectMany<T, U>(source: seq<T>, selector: T -> seq<U>) returns (r: seq<U>)
    ensures r == SelectMany(source, selector)
  {
    r := [];
    for i := 0 to |source|
      invariant r == SelectMany(source[..i], selector)
    {
      var innerCollection := selector(source[i]);
      for j := 0 to |innerCollection|
        invariant r == SelectMany(source[..i], selector) + innerCollection[..j]
      {
        r := r + [innerCollection[j]];
      }
      PrefixStep(source, i);
      assert innerCollection[..|innerCollection|] == innerCollection;
    }
    assert source[..|source|] == source;
  }

  function IsEven(n: int): bool { n % 2 == 0 }

  function IsOdd(n: int): bool { n % 2 != 0 }

  function Square(n: int): int { n * n }

  function Negate(n: int): int { -n }

  /** The odd numbers of the demonstration list, in order. */
  lemma DemoOdds()
    ensures Where([1, 2, 7, 3, 4, 5], IsOdd) == [1, 7, 3, 5]
  {
    assert DropLast([1, 2, 7, 3, 4, 5]) == [1, 2, 7, 3, 4];
    assert DropLast([1, 2, 7, 3, 4]) == [1, 2, 7, 3];
    assert DropLast([1, 2, 7, 3]) == [1, 2, 7];
    assert DropLast([1, 2, 7]) == [1, 2];
    assert DropLast([1, 2]) == [1];
  }

  /** The even numbers of the demonstration list, in order. */
  lemma DemoEvens()
    ensures Where([1, 2, 7, 3, 4, 5], IsEven) == [2, 4]
  {
    assert DropLast([1, 2, 7, 3, 4, 5]) == [1, 2, 7, 3, 4];
    assert DropLast([1, 2, 7, 3, 4]) == [1, 2, 7, 3];
    assert DropLast([1, 2, 7, 3]) == [1, 2, 7];
    assert DropLast([1, 2, 7]) == [1, 2];
    assert DropLast([1, 2]) == [1];
  }

  lemma DemoOrderPair()
    ensures StableSortBy([1, 49], Negate) == [49, 1]
  {
    assert DropLast([1, 49]) == [1] && Last([1, 49]) == 49;
    assert DropLast([1]) == [] && Last([1]) == 1;
    assert StableSortBy([1], Negate) == [1];
  }

  lemma DemoInsertMiddle()
    ensures InsertByKey(9, [49, 1], Negate) == [49, 9, 1]
  {
    assert [49, 1][1..] == [1];
    assert InsertByKey(9, [1], Negate) == [9, 1];
  }

  lemma DemoOrderPrefix()
    ensures StableSortBy([1, 49, 9], Negate) == [49, 9, 1]
  {
    assert DropLast([1, 49, 9]) == [1, 49] && Last([1, 49, 9]) == 9;
    DemoOrderPair();
    DemoInsertMiddle();
  }

  lemma DemoInsertLast()
    ensures InsertByKey(25, [49, 9, 1], Negate) == [49, 25, 9, 1]
  {
    assert [49, 9, 1][1..] == [9, 1];
    assert [9, 1][1..] == [1];
    assert InsertByKey(25, [1], Negate) == [25, 1];
    assert InsertByKey(25, [9, 1], Negate) == [25, 9, 1];
  }

  lemma DemoSort()
    ensures StableSortBy([1, 49, 9, 25], Negate) == [49, 25, 9, 1]
  {
    var s := [1, 49, 9, 25];
    assert DropLast(s) == [1, 49, 9] && Last(s) == 25;
    DemoOrderPrefix();
    DemoInsertLast();
  }

  /** Ordering by the negated value sorts descending. */
  lemma DemoOrder()
    ensures MyOrder([1, 49, 9, 25], Negate) == [49, 25, 9, 1]
  {
    DemoSort();
  }

  /** The demonstration pipeline: the odd numbers of [1, 2, 7, 3, 4, 5],
      squared and ordered by descending value. */
  lemma DemoPipeline()
    ensures MyOrder(Select(Where([1, 2, 7, 3, 4, 5], IsOdd), Square), Negate) == [49, 25, 9, 1]
  {
    DemoOdds();
    assert Select([1, 7, 3, 5], Square) == [1, 49, 9, 25];
    DemoOrder();
  }

  function Identity(l: seq<int>): seq<int> { l }

  /** Flattening the list of lists concatenates the inner lists in order. */
  lemma DemoFlatten()
    ensures SelectMany([[1, 2, 3], [4, 5, 6], [7, 8], [9, 10]], Identity) == [1, 2, 3, 4, 5, 6, 7, 8, 9, 10]
  {
    var s := [[1, 2, 3], [4, 5, 6], [7, 8], [9, 10]];
    assert DropLast(s) == [[1, 2, 3], [4, 5, 6], [7, 8]];
    assert DropLast(DropLast(s)) == [[1, 2, 3], [4, 5, 6]];
    assert DropLast(DropLast(DropLast(s))) == [[1, 2, 3]];
    assert DropLast([[1, 2, 3]]) == [];
  }
}
