# LINQ operator reimplementation, modelled in Dafny

The repository reimplements LINQ's sequence operators by hand, in two copies:

- the static class `MyLinq` in `MyHelper/MyLinq/MyLinq.cs`, with the `MyGroup` container;
- an earlier subset in `P1-LanguageMastery/LinqLikeExtension.cs`, with the `MyGrouping` container.

Most operators walk their source once. Along the way they keep a counter, a seen-set, a running
minimum, or a dictionary of groups. `MyTake` and `MySkip` instead call `Count()` and then read
positions with `ElementAt(i)`. `MyOrderBy` copies the source into a list and sorts it with
`List<T>.Sort`.

The model keeps that form:

- Each looping operator is a Dafny `method` with the same loop. The method is proved equal to
  a reference definition on `seq`, or proved to satisfy the operator's promise directly.
- `MyOrder` of `LinqLikeExtension.cs` has no loop of its own; it delegates to
  `Enumerable.OrderBy` and is a `function`.
- `MyTake` and `MySkip` are loops over positions `0 .. count - 1` (or `count .. Count() - 1`),
  after the same bound check as the source.
- The group containers are classes with a constant `Key` and an append-only `items` field.
- `List<T>.Sort` in `MyOrderBy` is replaced by an in-place insertion sort of an `array`, proved
  sorted and a permutation.
- Three of the exceptions the library throws are `Failure` values of a `Result` (the
  `ArgumentNullException` checks are left out, see below):
  - "Not Found";
  - "Index out of bound.";
  - "Sequence contains no elements".

The reference definitions and their laws live in four modules:

- `LinqResults` (`results.dfy`): `Option`, `Result` and the failure kinds with their messages.
- `Sequences` (`sequences.dfy`): the reference definitions and their laws.
  - `Where`, `Select`, `SelectMany`, `Distinct`, `FirstWhere`, `Take` and `Skip`.
  - `Where`, `Select`, `SelectMany` and `Distinct` are defined by recursion on the last element
    of their input. That way, a loop invariant `r == F(source[..i])` steps forward directly.
  - `FirstWhere` also recurses on the last element. `Take` and `Skip` are slices behind a bound
    check. `IndexOf` and the `Grouping` helpers `Keys`, `Lookup`, `TotalSize` and `AddToGroups`
    recurse on the head.
- `Ordering` (`ordering.dfy`): sortedness by an integer key, and a stable insertion sort
  `StableSortBy` with its stability law.
- `Grouping` (`grouping.dfy`): grouping as a value, where `GroupBy` is a list of
  `Group(key, items)` in first-seen key order, with its laws.

Two modules follow the two source files:

- `MyLinq` (`my_linq.dfy`) models `MyHelper/MyLinq/MyLinq.cs`.
- `LinqLikeExtension` (`linq_like_extension.dfy`) models the `MyLinq` class and `MyGrouping` of
  `P1-LanguageMastery/LinqLikeExtension.cs`.

Overloads get distinct names. `MyCountWhere`, `MyFirstWhere`, `MyMinBy` and `TryGetFirstWhere`
are the overloads that take a predicate or a selector.

Keys that are compared are modelled as `int`:

- the `TKey` of `MyOrderBy` and `MyOrder`;
- the `TResult` of `MyMin(selector)`;
- the elements of `MyMin()`, through a ranking function `rank: T -> int`.

Keys that are only tested for equality, as in `MyGroupBy`, are any type with equality.

`MyGroupBy` holds two parts:

- the dictionary, as a `map` from key to group;
- `groups.Values`, as a sequence of the groups in the order their keys were added.

A ghost invariant ties the two to the reference `GroupBy` after every item.

## Model

| member | source | states |
|---|---|---|
| `MyLinq.MyGroup.constructor` | MyHelper/MyLinq/MyLinq.cs:279-285 | a new group has the given key and no items |
| `MyLinq.MyGroup.Add` | MyHelper/MyLinq/MyLinq.cs:288-291 | appends exactly one item at the end; earlier items and the key are unchanged |
| `MyLinq.MyWhere` | MyHelper/MyLinq/MyLinq.cs:11-20 | the output is `Where(source, pred)`: the elements satisfying the predicate, in source order |
| `Sequences.Where` | MyHelper/MyLinq/MyLinq.cs:11-20 | the output is never longer than the source (exact contents by `Sequences.WhereMembers` and `Sequences.WhereIsSubsequence`) |
| `Sequences.WhereIsSubsequence` | MyHelper/MyLinq/MyLinq.cs:11-20 | `Where`'s output is the source read at a strictly increasing list of positions, and those are exactly the positions whose element satisfies the predicate |
| `Sequences.MatchingIndices` | MyHelper/MyLinq/MyLinq.cs:13-18 | every listed position is in range and its element satisfies the predicate; positions strictly increase; every satisfying position is listed |
| `Sequences.WhereMembers` | MyHelper/MyLinq/MyLinq.cs:11-20 | x is in `Where(s, p)` if and only if x is in s and p(x) holds |
| `Sequences.WhereAppend` | MyHelper/MyLinq/MyLinq.cs:13-19 | filtering a concatenation is concatenating the filtered parts |
| `Sequences.WhereNone` | MyHelper/MyLinq/MyLinq.cs:13-19 | when no element satisfies the predicate, nothing is yielded |
| `Sequences.WherePartition` | MyHelper/MyLinq/MyLinq.cs:11-20 | the elements kept by p and those kept by its negation number `|s|` together |
| `Sequences.WhereKeepsAll` | MyHelper/MyLinq/MyLinq.cs:11-20 | the filter returns the whole source if and only if every element satisfies the predicate |
| `MyLinq.MyCount` | MyHelper/MyLinq/MyLinq.cs:22-38 | the counter loop ends with the number of elements, `|source|` |
| `MyLinq.MyCountWhere` | MyHelper/MyLinq/MyLinq.cs:40-44 | the count with a predicate is the length of `Where(source, pred)` |
| `MyLinq.MyAny` | MyHelper/MyLinq/MyLinq.cs:46-54 | true if and only if some element satisfies the predicate (so false on an empty source) |
| `MyLinq.TryGetFirst` | MyHelper/MyLinq/MyLinq.cs:237-253 | nothing is found exactly when the source is empty; otherwise the result is `source[0]` |
| `MyLinq.TryGetFirstWhere` | MyHelper/MyLinq/MyLinq.cs:255-272 | the result is `FirstWhere(source, pred)` |
| `Sequences.FirstWhere` | MyHelper/MyLinq/MyLinq.cs:255-272 | none exactly when no element satisfies p; otherwise the value is the element at the lowest satisfying position |
| `Sequences.FirstWhereIsHeadOfWhere` | MyHelper/MyLinq/MyLinq.cs:68-78 | the first match is the head of `Where`'s output, and there is none when that output is empty |
| `MyLinq.MyFirst` | MyHelper/MyLinq/MyLinq.cs:56-66 | fails with NotFound if and only if the source is empty; otherwise returns `source[0]` |
| `MyLinq.MyFirstWhere` | MyHelper/MyLinq/MyLinq.cs:68-78 | fails with NotFound exactly when no element satisfies the predicate; otherwise returns the first matching element |
| `MyLinq.MyDistinct` | MyHelper/MyLinq/MyLinq.cs:80-93 | the output is `Distinct(source)`: first occurrences, in source order |
| `Sequences.Distinct` | MyHelper/MyLinq/MyLinq.cs:80-93 | the output is no longer than the source and holds only source values |
| `Sequences.DistinctMembers` | MyHelper/MyLinq/MyLinq.cs:80-93 | the output holds exactly the values of the source |
| `Sequences.DistinctNoDuplicates` | MyHelper/MyLinq/MyLinq.cs:80-93 | no value is yielded twice |
| `Sequences.DistinctFirstOccurrenceOrder` | MyHelper/MyLinq/MyLinq.cs:85-91 | output values appear in the order of their first occurrence in the source |
| `Sequences.IndexOf` | MyHelper/MyLinq/MyLinq.cs:85-91 | the position of the first occurrence of a value that occurs |
| `Sequences.IndexOfAppend` | MyHelper/MyLinq/MyLinq.cs:85-91 | appending an element does not move an earlier first occurrence |
| `Sequences.DistinctOfNoDuplicates` | MyHelper/MyLinq/MyLinq.cs:80-93 | a source without repeats passes through unchanged |
| `Sequences.DistinctIdempotent` | MyHelper/MyLinq/MyLinq.cs:80-93 | applying it twice equals applying it once |
| `Sequences.DistinctExtends` | MyHelper/MyLinq/MyLinq.cs:133-151 | the distinct values of `a` are a prefix of the distinct values of `a + b` |
| `MyLinq.MySelectMany` | MyHelper/MyLinq/MyLinq.cs:95-105 | the output is `SelectMany(source, selector)`: the inner sequences concatenated in source order |
| `Sequences.SelectMany` | MyHelper/MyLinq/MyLinq.cs:95-105 | every output element belongs to the inner sequence of some source element |
| `Sequences.SelectManyAppend` | MyHelper/MyLinq/MyLinq.cs:95-105 | flattening a concatenation concatenates the flattened parts |
| `Sequences.SelectManyLength` | MyHelper/MyLinq/MyLinq.cs:95-105 | the output length is the sum of the inner lengths |
| `MyLinq.MyTake` | MyHelper/MyLinq/MyLinq.cs:107-118 | the result is `Take(source, count)` |
| `Sequences.Take` | MyHelper/MyLinq/MyLinq.cs:107-118 | fails with IndexOutOfBound if and only if n exceeds the length; otherwise the first n elements, in order |
| `MyLinq.MySkip` | MyHelper/MyLinq/MyLinq.cs:120-131 | the result is `Skip(source, count)` |
| `Sequences.Skip` | MyHelper/MyLinq/MyLinq.cs:120-131 | fails with IndexOutOfBound if and only if n exceeds the length; otherwise the elements from position n on, in order |
| `Sequences.TakeSkipPartition` | MyHelper/MyLinq/MyLinq.cs:107-131 | for n within the length both succeed, and take followed by skip is the source |
| `MyLinq.MyUnion` | MyHelper/MyLinq/MyLinq.cs:133-151 | one seen-set across both loops: the output is `Distinct(first + second)` |
| `MyLinq.DemoUnion` | MyHelper/MyLinq/MyLinq.cs:133-151 | the union of [1, 2, 3] and [3, 4, 2] is [1, 2, 3, 4] |
| `MyLinq.InsertIntoSorted` | MyHelper/MyLinq/MyLinq.cs:159 | one step of the in-place sort: a sorted prefix grows by one, the positions after it are unchanged, and the array's contents stay a permutation |
| `MyLinq.SortInPlace` | MyHelper/MyLinq/MyLinq.cs:159 | after the sort the array is non-decreasing by key and a permutation of what it held |
| `MyLinq.MyOrderBy` | MyHelper/MyLinq/MyLinq.cs:153-162 | the result is a permutation of the source with non-decreasing keys |
| `MyLinq.MyMinBy` | MyHelper/MyLinq/MyLinq.cs:164-189 | fails with NoElements if and only if the source is empty; otherwise the result is one of the selected values and no greater than any of them |
| `MyLinq.MyMin` | MyHelper/MyLinq/MyLinq.cs:191-210 | fails with NoElements if and only if the source is empty; otherwise returns the element at the first position of least rank |
| `MyLinq.GetOrCreateGroup` | MyHelper/MyLinq/MyLinq.cs:222-226 | a known key keeps the dictionary unchanged; a new key adds a fresh empty group at the end; either way the dictionary holds the groups with a group for the key |
| `MyLinq.AppendAt` | MyHelper/MyLinq/MyLinq.cs:227 | appending to one group changes that group's items only |
| `MyLinq.AddToDictionary` | MyHelper/MyLinq/MyLinq.cs:220-227 | one loop step moves the dictionary from holding `spec` to holding `AddToGroups(spec, key, item)`; old groups stay, new ones are fresh |
| `MyLinq.MyGroupBy` | MyHelper/MyLinq/MyLinq.cs:212-234 | each yielded group has the key and items of the matching group of `GroupBy(source, keySelector)`; the groups are distinct fresh objects |
| `Grouping.AddToGroups` | MyHelper/MyLinq/MyLinq.cs:220-227 | the result is non-empty and has at most one more group than the input, never fewer (which keys it keeps is `Grouping.AddToGroupsKeys`) |
| `Grouping.GroupBy` | MyHelper/MyLinq/MyLinq.cs:212-234 | there are at most as many groups as source elements, and none exactly when the source is empty |
| `Grouping.Lookup` | MyHelper/MyLinq/MyLinq.cs:222 | a non-empty result is the member list of a group with the asked key |
| `Grouping.TotalSize` | MyHelper/MyLinq/MyLinq.cs:212-234 | the total is at least the size of each group |
| `Grouping.Keys` | MyHelper/MyLinq/MyLinq.cs:230-233 | one key per group, position by position |
| `Grouping.AddToGroupsKeys` | MyHelper/MyLinq/MyLinq.cs:222-226 | adding under a known key keeps the key list; under a new key, that key is appended |
| `Grouping.AddToGroupsLookup` | MyHelper/MyLinq/MyLinq.cs:220-227 | adding x under k appends x to k's members and changes no other key's members |
| `Grouping.AddToGroupsSize` | MyHelper/MyLinq/MyLinq.cs:227 | every step adds exactly one member overall |
| `Grouping.AddToExistingGroup` | MyHelper/MyLinq/MyLinq.cs:222-227 | under a known key (keys distinct), only that group changes, by one appended item |
| `Grouping.AddToNewGroup` | MyHelper/MyLinq/MyLinq.cs:222-227 | under a new key, a one-item group is appended at the end |
| `Grouping.OpenThenAppend` | MyHelper/MyLinq/MyLinq.cs:222-227 | a step is "open an empty group if the key is new, then append to the key's group", and no other group has that key |
| `Grouping.GroupByKeys` | MyHelper/MyLinq/MyLinq.cs:212-234 | the group keys are the distinct keys of the source, in first-seen order |
| `Grouping.GroupByKeysDistinct` | MyHelper/MyLinq/MyLinq.cs:212-234 | no two groups share a key |
| `Grouping.GroupByLookup` | MyHelper/MyLinq/MyLinq.cs:212-234 | under each key, the group holds exactly the source elements with that key, in source order (none if no group) |
| `Grouping.GroupBySize` | MyHelper/MyLinq/MyLinq.cs:212-234 | the group sizes sum to `|source|` |
| `Grouping.LookupAt` | MyHelper/MyLinq/MyLinq.cs:222 | with distinct keys, looking up a group's key finds that group |
| `Grouping.GroupByGroups` | MyHelper/MyLinq/MyLinq.cs:212-234 | every group is non-empty and equals the source filtered by its key |
| `Grouping.GroupMemberHasKey` | MyHelper/MyLinq/MyLinq.cs:218-228 | every member of a group comes from the source and maps to the group's key |
| `Ordering.InsertByKey` | P1-LanguageMastery/LinqLikeExtension.cs:62-65 | one insertion step: one longer, starts with x or with the old head, same elements plus x |
| `Ordering.InsertByKeySorted` | P1-LanguageMastery/LinqLikeExtension.cs:62-65 | inserting into a sorted sequence keeps it sorted |
| `Ordering.StableSortBy` | P1-LanguageMastery/LinqLikeExtension.cs:62-65 | a permutation of the input with non-decreasing keys |
| `Ordering.InsertByKeyKeepsClasses` | P1-LanguageMastery/LinqLikeExtension.cs:62-65 | insertion puts x last among the elements of its key and leaves every other key's elements as they were |
| `Ordering.StableSortByIsStable` | P1-LanguageMastery/LinqLikeExtension.cs:62-65 | the elements with any one key keep their source order |
| `Ordering.StableSortByKeepsEveryClass` | P1-LanguageMastery/LinqLikeExtension.cs:62-65 | stability, for all keys at once |
| `LinqLikeExtension.MyGrouping.constructor` | P1-LanguageMastery/LinqLikeExtension.cs:21-24 | a new grouping has the given key and no items |
| `LinqLikeExtension.MyGrouping.Add` | P1-LanguageMastery/LinqLikeExtension.cs:26-29 | appends exactly one item at the end; earlier items and the key are unchanged |
| `LinqLikeExtension.MyWhere` | P1-LanguageMastery/LinqLikeExtension.cs:45-52 | the output is `Where(source, pred)`, a subsequence of the source (see `Sequences.WhereIsSubsequence`) |
| `LinqLikeExtension.MySelect` | P1-LanguageMastery/LinqLikeExtension.cs:54-60 | the output is `Select(source, selector)`: same length as the source, position i holding `selector(source[i])` |
| `Sequences.Select` | P1-LanguageMastery/LinqLikeExtension.cs:54-60 | same length as the input, and position i holds `f(s[i])` |
| `LinqLikeExtension.MyOrder` | P1-LanguageMastery/LinqLikeExtension.cs:62-65 | a permutation of the source, non-decreasing by key, and stable: within each key, source order |
| `LinqLikeExtension.MyCount` | P1-LanguageMastery/LinqLikeExtension.cs:67-83 | the counter loop ends with `|source|` |
| `LinqLikeExtension.MyCountWhere` | P1-LanguageMastery/LinqLikeExtension.cs:85-90 | the count with a predicate is the length of `Where(source, pred)` |
| `LinqLikeExtension.GetOrCreateGrouping` | P1-LanguageMastery/LinqLikeExtension.cs:103-107 | a known key keeps the dictionary unchanged; a new key adds a fresh empty grouping at the end |
| `LinqLikeExtension.AppendAt` | P1-LanguageMastery/LinqLikeExtension.cs:109 | appending to one grouping changes that grouping's items only |
| `LinqLikeExtension.AddToDictionary` | P1-LanguageMastery/LinqLikeExtension.cs:101-109 | one loop step moves the dictionary from holding `spec` to holding `AddToGroups(spec, key, item)` |
| `LinqLikeExtension.MyGroupBy` | P1-LanguageMastery/LinqLikeExtension.cs:92-116 | each yielded grouping has the key and items of the matching group of `GroupBy(source, keySelector)` (distinct keys, first-seen order, members in source order, sizes summing to `|source|` by the `Grouping` lemmas) |
| `LinqLikeExtension.MySelectMany` | P1-LanguageMastery/LinqLikeExtension.cs:118-135 | the output is `SelectMany(source, selector)`; its length is the sum of the inner lengths by `Sequences.SelectManyLength` |
| `LinqLikeExtension.DemoEvens` | P1-LanguageMastery/LinqLikeExtension.cs:145-146 | the even numbers of [1, 2, 7, 3, 4, 5] are [2, 4] |
| `LinqLikeExtension.DemoOdds` | P1-LanguageMastery/LinqLikeExtension.cs:147 | the odd numbers of [1, 2, 7, 3, 4, 5] are [1, 7, 3, 5] |
| `LinqLikeExtension.DemoOrder` | P1-LanguageMastery/LinqLikeExtension.cs:147 | [1, 49, 9, 25] ordered by the negated value is [49, 25, 9, 1] |
| `LinqLikeExtension.DemoPipeline` | P1-LanguageMastery/LinqLikeExtension.cs:145-147 | the odd numbers, squared and ordered by descending value, are [49, 25, 9, 1] |
| `LinqLikeExtension.DemoFlatten` | P1-LanguageMastery/LinqLikeExtension.cs:179-180 | flattening [[1, 2, 3], [4, 5, 6], [7, 8], [9, 10]] gives 1 to 10 in order |
| `LinqResults.Message` | MyHelper/MyLinq/MyLinq.cs:56-78 | every failure kind carries a non-empty message: "Not Found" (lines 62, 74), "Index out of bound." (112, 125), "Sequence contains no elements" (173, 197) |
| `LinqResults.MessagesDistinct` | MyHelper/MyLinq/MyLinq.cs:107-131 | different failure kinds have different messages |

## Left out

- Deferred execution (`yield return`). Each operator is a method over a whole, finite sequence.
  - When an exception fires is not modelled. `MyTake` and `MySkip` check the bound on first
    enumeration, not when they are called.
  - Re-enumerating the source through `ElementAt` in `MyTake` and `MySkip` is modelled as
    indexing.
- The `ICollection<T>` fast path of `MyCount`, in both files. It returns the same number as the
  counting loop, so only the loop is modelled.
- `MyCount`, `MyCountWhere`: the C# counter is a 32-bit `int`. Wrap-around past 2^31 - 1
  elements is not modelled, because counts are unbounded integers here.
- The null-argument checks (`ArgumentNullException`) in `MyUnion`, `MyOrderBy`, `MyMin`,
  `MyMinBy`, `TryGetFirst` and `TryGetFirstWhere`. Dafny sequences and functions are never
  null.
- `MyTake`, `MySkip`: these require `count >= 0`. For a negative count, the C# `MyTake` yields
  nothing, and `MySkip` fails inside `ElementAt` with an argument-range exception.
- `MyOrderBy`, `SortInPlace`, `InsertIntoSorted`: `List<T>.Sort` is an introspective sort that
  is not stable. Its algorithm is replaced by an insertion sort, and only its outcome is claimed:
  sorted by key, and a permutation. The sort's own element order for equal keys is not modelled.
- `MyOrderBy`, `MyOrder`, `MyMinBy`: keys are `int`. `Comparer<TKey>.Default` on arbitrary
  `IComparable` types, including culture-sensitive string ordering, is left out.
- `MyMin`: `IComparable<T>.CompareTo` is modelled as comparing an integer rank.
- `MyDistinct`, `MyUnion`, `MyGroupBy`: `HashSet` and `Dictionary` hashing is Dafny equality.
- `MyGroupBy` in both files: the order of `Dictionary.Values` is modelled as key insertion
  order. This holds for .NET's dictionary when nothing is removed, but .NET does not promise
  it.
- `MyGroup.GetEnumerator` and `MyGrouping.GetEnumerator`: enumerating a group is reading its
  `items` field. They have no separate member.
- `PrintAll`, and the `LInqLikeExtension` constructor, which is a console demo. Its integer
  computations are stated as lemmas: `evens` (line 146) as `DemoEvens`, `squared` (line 147) as
  `DemoOdds`, `DemoOrder` and `DemoPipeline`, and the flattened `list` (line 180) as
  `DemoFlatten`. Its product grouping and product counts (lines 150-174) are left out, because
  the `Product` records with decimal prices are not modelled.
- The demo driver `P1-LanguageMastery/LinqLikeExtensionPractice.cs` and the records in
  `Data/Models.cs` (decimal prices). These files are not part of this model.
- `MyOrderBy`: stability is not claimed. The code delegates to `List<T>.Sort`, which is not
  stable. Only `MyOrder` (in `P1-LanguageMastery/LinqLikeExtension.cs`, through
  `Enumerable.OrderBy`) is proved stable.
- `MyGroupBy`, in both files: a null key makes `Dictionary.TryGetValue` throw
  `ArgumentNullException` (`MyHelper/MyLinq/MyLinq.cs:222`,
  `P1-LanguageMastery/LinqLikeExtension.cs:103`). Keys here are Dafny values, which are never
  null, so the model always yields a group for every key.
- `MyMin`: a null element after the first makes `e.Current.CompareTo(value)` throw
  `NullReferenceException` (`MyHelper/MyLinq/MyLinq.cs:203`). Elements here are never null;
  every element is ranked.
