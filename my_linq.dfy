/** The query operators of MyHelper.MyLinq, each as a method over a whole
    sequence, proved equal to (or to satisfy) its reference definition.
    Overloads get distinct names: MyCountWhere, MyFirstWhere, MyMinBy and
    TryGetFirstWhere are the overloads taking a predicate or a selector. */
module MyLinq {
  import opened LinqResults
  import opened Sequences
  import opened Ordering
  import opened Grouping

  /** A key fixed at construction and an append-only list of members.
      Enumerating a group yields `items`. */
  class MyGroup<K, E> {
    const Key: K
    var items: seq<E>

    constructor (key: K)
      ensures Key == key && items == []
    {
      Key := key;
      items := [];
    }

    method Add(item: E)
      modifies this
      ensures items == old(items) + [item]
    {
      items := items + [item];
    }
  }

  method MyWhere<T>(source: seq<T>, pred: T -> bool) returns (r: seq<T>)
    ensures r == Where(source, pred)
  {
    r := [];
    for i := 0 to |source|
      invariant r == Where(source[..i], pred)
    {
      PrefixStep(source, i);
      if pred(source[i]) {
        r := r + [source[i]];
      }
    }
    assert source[..|source|] == source;
  }

  /** Counts by enumerating; the cheap-count branch for collections returns the
      same number. */
  method MyCount<T>(source: seq<T>) returns (count: int)
    ensures count == |source|
  {
    count := 0;
    var e := 0;  // enumerator position
    while e < |source|
      invariant e <= |source|
      invariant count == e
    {
      count := count + 1;
      e := e + 1;
    }
  }

  method MyCountWhere<T>(source: seq<T>, pred: T -> bool) returns (count: int)
    ensures count == |Where(source, pred)|
  {
    var filteredItems := MyWhere(source, pred);
    count := MyCount(filteredItems);
  }

  method MyAny<T>(source: seq<T>, pred: T -> bool) returns (b: bool)
    ensures b <==> exists i :: 0 <= i < |source| && pred(source[i])
  {
    for i := 0 to |source|
      invariant forall j :: 0 <= j < i ==> !pred(source[j])
    {
      if pred(source[i]) {
        return true;
      }
    }
    return false;
  }

  /** The private helper: the first element, if the enumerator yields one. */
  method TryGetFirst<T>(source: seq<T>) returns (r: Option<T>)
    ensures r.None? <==> source == []
    ensures r.Some? ==> r.value == source[0]
  {
    if |source| > 0 {
      return Some(source[0]);
    }
    return None;
  }

  /** The private helper: the first element satisfying the predicate. */
  method TryGetFirstWhere<T>(source: seq<T>, pred: T -> bool) returns (r: Option<T>)
    ensures r == FirstWhere(source, pred)
  {
    var e := 0;  // enumerator position
    while e < |source|
      invariant e <= |source|
      invariant forall j :: 0 <= j < e ==> !pred(source[j])
    {
      if pred(source[e]) {
        return Some(source[e]);
      }
      e := e + 1;
    }
    return None;
  }

  method MyFirst<T>(source: seq<T>) returns (r: Result<T>)
    ensures r.Failure? <==> source == []
    ensures r.Failure? ==> r.error == NotFound
    ensures r.Success? ==> r.value == source[0]
  {
    var first := TryGetFirst(source);
    if first.None? {
      return Failure(NotFound);
    }
    return Success(first.value);
  }

  method MyFirstWhere<T>(source: seq<T>, pred: T -> bool) returns (r: Result<T>)
    ensures r.Failure? <==> FirstWhere(source, pred).None?
    ensures r.Failure? ==> r.error == NotFound
    ensures r.Success? ==> FirstWhere(source, pred) == Some(r.value)
  {
    var first := TryGetFirstWhere(source, pred);
    if first.None? {
      return Failure(NotFound);
    }
    return Success(first.value);
  }

  /** One seen-set across the pass; an element is yielded when not yet seen. */
  method MyDistinct<T(==)>(source: seq<T>) returns (r: seq<T>)
    ensures r == Distinct(source)
  {
    var hs: set<T> := {};
    r := [];
    for i := 0 to |source|
      invariant r == Distinct(source[..i])
      invariant forall x :: x in hs <==> x in source[..i]
    {
      var item := source[i];
      PrefixStep(source, i);
      DistinctMembers(source[..i]);
      if item !in hs {
        r := r + [item];
      }
      hs := hs + {item};
    }
    assert source[..|source|] == source;
  }

  method MySelectMany<T, U>(source: seq<T>, selector: T -> seq<U>) returns (r: seq<U>)
    ensures r == SelectMany(source, selector)
  {
    r := [];
    for i := 0 to |source|
      invariant r == SelectMany(source[..i], selector)
    {
      var innerCollection := selector(source[i]);
      for j := 0 to |innerCollection|
        invariant r == SelectMany(source[..i], selector) + innerCollection[..j]
      {
        r := r + [innerCollection[j]];
      }
      PrefixStep(source, i);
      assert innerCollection[..|innerCollection|] == innerCollection;
    }
    assert source[..|source|] == source;
  }

  /** Checks the count against the full size, then yields by position. */
  method MyTake<T>(source: seq<T>, count: int) returns (r: Result<seq<T>>)
    requires count >= 0
    ensures r == Take(source, count)
  {
    var size := |source|;
    if count > size {
      return Failure(IndexOutOfBound);
    }
    var items := [];
    for i := 0 to count
      invariant items == source[..i]
    {
      items := items + [source[i]];
    }
    return Success(items);
  }

  method MySkip<T>(source: seq<T>, count: int) returns (r: Result<seq<T>>)
    requires count >= 0
    ensures r == Skip(source, count)
  {
    var size := |source|;
    if count > size {
      return Failure(IndexOutOfBound);
    }
    var items := [];
    for i := count to size
      invariant items == source[count..i]
    {
      items := items + [source[i]];
    }
    assert source[count..size] == source[count..];
    return Success(items);
  }

  /** Both inputs are scanned against one shared seen-set. */
  method MyUnion<T(==)>(first: seq<T>, second: seq<T>) returns (r: seq<T>)
    ensures r == Distinct(first + second)
  {
    var seen: set<T> := {};
    r := [];
    for i := 0 to |first|
      invariant r == Distinct(first[..i])
      invariant forall x :: x in seen <==> x in first[..i]
    {
      var item := first[i];
      PrefixStep(first, i);
      DistinctMembers(first[..i]);
      if item !in seen {
        seen := seen + {item};
        r := r + [item];
      }
    }
    assert first[..|first|] == first;
    assert first + second[..0] == first;
    for j := 0 to |second|
      invariant r == Distinct(first + second[..j])
      invariant forall x :: x in seen <==> x in first + second[..j]
    {
      var item := second[j];
      ghost var before := first + second[..j];
      assert first + second[..j + 1] == before + [item];
      assert DropLast(before + [item]) == before;
      DistinctMembers(before);
      if item !in seen {
        seen := seen + {item};
        r := r + [item];
      }
    }
    assert second[..|second|] == second;
  }

  method Swap<T>(a: array<T>, i: nat, j: nat)
    requires i < j < a.Length
    modifies a
    ensures a[i] == old(a[j]) && a[j] == old(a[i])
    ensures forall m :: 0 <= m < a.Length && m != i && m != j ==> a[m] == old(a[m])
    ensures multiset(a[..]) == old(multiset(a[..]))
  {
    a[i], a[j] := a[j], a[i];
  }

  /** Moves a[i] left past the larger keys, so that a[..i + 1] is sorted when
      a[..i] was. */
  method InsertIntoSorted<T>(a: array<T>, i: nat, key: T -> int)
    requires i < a.Length
    requires forall m, n :: 0 <= m < n < i ==> key(a[m]) <= key(a[n])
    modifies a
    ensures forall m, n :: 0 <= m < n <= i ==> key(a[m]) <= key(a[n])
    ensures multiset(a[..]) == old(multiset(a[..]))
    ensures a[i + 1..] == old(a[i + 1..])
  {
    var j := i;
    while j > 0 && key(a[j - 1]) > key(a[j])
      invariant 0 <= j <= i
      invariant forall m, n :: 0 <= m < n <= i && m != j && n != j ==> key(a[m]) <= key(a[n])
      invariant forall n :: j < n <= i ==> key(a[j]) < key(a[n])
      invariant multiset(a[..]) == old(multiset(a[..]))
      invariant a[i + 1..] == old(a[i + 1..])
    {
      Swap(a, j - 1, j);
      j := j - 1;
    }
    forall m | 0 <= m < j - 1
      ensures key(a[m]) <= key(a[j])
    {
      assert key(a[m]) <= key(a[j - 1]);
    }
  }

  /** List<T>.Sort with the key comparison, in place. The library sort is not
      stable; only its outcome (sorted, same elements) is relied on. */
  method SortInPlace<T>(a: array<T>, key: T -> int)
    modifies a
    ensures SortedBy(a[..], key)
    ensures multiset(a[..]) == old(multiset(a[..]))
  {
    for i := 0 to a.Length
      invariant forall m, n :: 0 <= m < n < i ==> key(a[m]) <= key(a[n])
      invariant multiset(a[..]) == old(multiset(a[..]))
    {
      InsertIntoSorted(a, i, key);
    }
  }

  /** Copies the source into a list and sorts the list by key. */
  method MyOrderBy<T>(source: seq<T>, keySelector: T -> int) returns (r: seq<T>)
    ensures multiset(r) == multiset(source)
    ensures SortedBy(r, keySelector)
  {
    var list := new T[|source|](i requires 0 <= i < |source| => source[i]);
    assert list[..] == source;
    SortInPlace(list, keySelector);
    r := list[..];
  }

  /** The least selected value; ties keep the value already held. */
  method MyMinBy<T>(source: seq<T>, selector: T -> int) returns (r: Result<int>)
    ensures r.Failure? <==> source == []
    ensures r.Failure? ==> r.error == NoElements
    ensures r.Success? ==> exists i :: 0 <= i < |source| && r.value == selector(source[i])
    ensures r.Success? ==> forall i :: 0 <= i < |source| ==> r.value <= selector(source[i])
  {
    if |source| == 0 {
      return Failure(NoElements);
    }
    var value := selector(source[0]);
    ghost var at := 0;
    var e := 1;  // enumerator position
    while e < |source|
      invariant 1 <= e <= |source|
      invariant 0 <= at < e && value == selector(source[at])
      invariant forall j :: 0 <= j < e ==> value <= selector(source[j])
    {
      var x := selector(source[e]);
      if x < value {
        value, at := x, e;
      }
      e := e + 1;
    }
    return Success(value);
  }

  /** The least element under the element order, given as a rank; the strict
      comparison keeps the first of several least elements. */
  method MyMin<T>(source: seq<T>, rank: T -> int) returns (r: Result<T>)
    ensures r.Failure? <==> source == []
    ensures r.Failure? ==> r.error == NoElements
    ensures r.Success? ==> exists i :: IsFirstMinimum(source, rank, i) && r.value == source[i]
  {
    if |source| == 0 {
      return Failure(NoElements);
    }
    var value := source[0];
    ghost var at := 0;
    var e := 1;  // enumerator position
    while e < |source|
      invariant 1 <= e <= |source|
      invariant 0 <= at < e && value == source[at]
      invariant forall j :: 0 <= j < e ==> rank(value) <= rank(source[j])
      invariant forall j :: 0 <= j < at ==> rank(value) < rank(source[j])
    {
      if rank(source[e]) < rank(value) {
        value, at := source[e], e;
      }
      e := e + 1;
    }
    assert IsFirstMinimum(source, rank, at);
    return Success(value);
  }

  /** `dict` maps each key to its group, and `values` lists the groups in
      insertion order. Keys are constant, so this reads no mutable state. */
  ghost predicate Indexes<K, E>(dict: map<K, MyGroup<K, E>>, values: seq<MyGroup<K, E>>)
  {
    && (forall k :: k in dict ==> exists j :: 0 <= j < |values| && values[j].Key == k)
    && (forall j :: 0 <= j < |values| ==> values[j].Key in dict && dict[values[j].Key] == values[j])
  }

  /** The groups in `values` hold what `spec` says. */
  ghost predicate Holds<K, E>(values: seq<MyGroup<K, E>>, spec: seq<Group<K, E>>)
    reads values
  {
    && |values| == |spec|
    && (forall j :: 0 <= j < |values| ==> values[j].Key == spec[j].key && values[j].items == spec[j].items)
  }

  ghost predicate DictionaryHolds<K, E>(dict: map<K, MyGroup<K, E>>, values: seq<MyGroup<K, E>>,
                                        spec: seq<Group<K, E>>)
    reads values
  {
    Indexes(dict, values) && Holds(values, spec)
  }

  /** The lookup half of a step: the key's group, created empty and added to
      the dictionary when the key is new. */
  method GetOrCreateGroup<E, K(==)>(dict: map<K, MyGroup<K, E>>, values: seq<MyGroup<K, E>>,
                                    ghost spec: seq<Group<K, E>>, key: K)
    returns (dict': map<K, MyGroup<K, E>>, values': seq<MyGroup<K, E>>, group: MyGroup<K, E>, ghost j: nat)
    requires DictionaryHolds(dict, values, spec)
    ensures key in Keys(spec) ==> dict' == dict && values' == values
    ensures key !in Keys(spec) ==> values' == values + [group] && fresh(group) && group.items == [] && j == |values|
    ensures DictionaryHolds(dict', values', WithGroupFor(spec, key))
    ensures j < |values'| && values'[j] == group && group.Key == key
  {
    if key !in dict {
      assert key !in Keys(spec);
      group := new MyGroup(key);
      dict', values' := dict[key := group], values + [group];
      j := |values|;
      forall k | k in dict'
        ensures exists j :: 0 <= j < |values'| && values'[j].Key == k
      {
        if k == key {
          assert values'[|values|].Key == k;
        } else {
          var i :| 0 <= i < |values| && values[i].Key == k;
          assert values'[i].Key == k;
        }
      }
    } else {
      j :| 0 <= j < |values| && values[j].Key == key;
      assert Keys(spec)[j] == key;
      group := dict[key];
      dict', values' := dict, values;
    }
  }

  /** One step of MyGroupBy's pass: find or open the key's group, then append
      the item to it. */
  method AddToDictionary<E, K(==)>(dict: map<K, MyGroup<K, E>>, values: seq<MyGroup<K, E>>,
                                   ghost spec: seq<Group<K, E>>, item: E, key: K)
    returns (dict': map<K, MyGroup<K, E>>, values': seq<MyGroup<K, E>>)
    requires DictionaryHolds(dict, values, spec) && NoDuplicates(Keys(spec))
    modifies values
    ensures DictionaryHolds(dict', values', AddToGroups(spec, key, item))
    ensures |values| <= |values'| <= |values| + 1
    ensures forall j :: 0 <= j < |values| ==> values'[j] == values[j]
    ensures forall j :: |values| <= j < |values'| ==> fresh(values'[j])
  {
    var group: MyGroup<K, E>;
    ghost var j: nat;
    dict', values', group, j := GetOrCreateGroup(dict, values, spec, key);
    OpenThenAppend(spec, key, item, j);
    AppendAt(values', group, j, item, WithGroupFor(spec, key));
  }

  /** `group.Add(item)` on the j-th group: only that group changes, and the
      groups then hold `spec` with `item` appended to group j. */
  method AppendAt<K, E>(values: seq<MyGroup<K, E>>, group: MyGroup<K, E>, ghost j: nat, item: E,
                        ghost spec: seq<Group<K, E>>)
    requires Holds(values, spec)
    requires j < |values| && values[j] == group
    requires forall i :: 0 <= i < |spec| && i != j ==> spec[i].key != spec[j].key
    modifies group
    ensures Holds(values, spec[j := Group(spec[j].key, spec[j].items + [item])])
  {
    group.Add(item);
    forall i | 0 <= i < |values| && i != j
      ensures values[i].items == spec[i].items
    {
      assert values[i].Key != values[j].Key;
    }
  }

  /** One pass filling a dictionary of groups; the groups are then yielded in
      the order their keys were added (`values` is that order). */
  method MyGroupBy<E, K(==)>(source: seq<E>, keySelector: E -> K) returns (groups: seq<MyGroup<K, E>>)
    ensures |groups| == |GroupBy(source, keySelector)|
    ensures forall j :: 0 <= j < |groups| ==>
              groups[j].Key == GroupBy(source, keySelector)[j].key &&
              groups[j].items == GroupBy(source, keySelector)[j].items
    ensures forall j :: 0 <= j < |groups| ==> fresh(groups[j])
    ensures forall j, j' :: 0 <= j < j' < |groups| ==> groups[j] != groups[j']
  {
    var dict: map<K, MyGroup<K, E>> := map[];
    var values: seq<MyGroup<K, E>> := [];
    ghost var spec: seq<Group<K, E>> := [];
    for i := 0 to |source|
      invariant spec == GroupBy(source[..i], keySelector)
      invariant DictionaryHolds(dict, values, spec)
      invariant forall j :: 0 <= j < |values| ==> fresh(values[j])
    {
      PrefixStep(source, i);
      GroupByKeysDistinct(source[..i], keySelector);
      dict, values := AddToDictionary(dict, values, spec, source[i], keySelector(source[i]));
      spec := AddToGroups(spec, keySelector(source[i]), source[i]);
    }
    assert source[..|source|] == source;
    GroupByKeysDistinct(source, keySelector);
    assert forall j, j' :: 0 <= j < j' < |values| ==> Keys(spec)[j] != Keys(spec)[j'];
    groups := values;
  }

  /** The union of [1, 2, 3] and [3, 4, 2]: shared values appear once, at
      their first occurrence. */
  lemma DemoUnion()
    ensures Distinct([1, 2, 3] + [3, 4, 2]) == [1, 2, 3, 4]
  {
    var s := [1, 2, 3] + [3, 4, 2];
    assert s == [1, 2, 3, 3, 4, 2];
    assert DropLast([1, 2, 3, 3, 4, 2]) == [1, 2, 3, 3, 4];
    assert DropLast([1, 2, 3, 3, 4]) == [1, 2, 3, 3];
    assert DropLast([1, 2, 3, 3]) == [1, 2, 3];
    assert DropLast([1, 2, 3]) == [1, 2];
    assert DropLast([1, 2]) == [1];
    assert DropLast([1]) == [];
  }
}
