/** Partitioning a sequence by key, as a value: the groups in the order their
    keys are first seen, each group's members in source order. */
module Grouping {
  import opened Sequences

  /** A key together with the elements collected under it. */
  datatype Group<K, E> = Group(key: K, items: seq<E>)

  function Keys<K, E>(gs: seq<Group<K, E>>): (ks: seq<K>)
    ensures |ks| == |gs|
    ensures forall i :: 0 <= i < |gs| ==> ks[i] == gs[i].key
  {
    if gs == [] then [] else [gs[0].key] + Keys(gs[1..])
  }

  /** The members of the first group with key k; none if there is no such group. */
  function Lookup<K(==), E>(gs: seq<Group<K, E>>, k: K): (r: seq<E>)
    ensures r != [] ==> exists i :: 0 <= i < |gs| && gs[i].key == k && gs[i].items == r
  {
    if gs == [] then []
    else if gs[0].key == k then gs[0].items
    else Lookup(gs[1..], k)
  }

  /** The number of members over all groups. */
  function TotalSize<K, E>(gs: seq<Group<K, E>>): (n: nat)
    ensures forall i :: 0 <= i < |gs| ==> |gs[i].items| <= n
  {
    if gs == [] then 0 else |gs[0].items| + TotalSize(gs[1..])
  }

  /** Append x to the group with key k, opening a new last group when k is new. */
  function AddToGroups<K(==), E>(gs: seq<Group<K, E>>, k: K, x: E): (r: seq<Group<K, E>>)
    ensures r != [] && |gs| <= |r| <= |gs| + 1
  {
    if gs == [] then [Group(k, [x])]
    else if gs[0].key == k then [Group(k, gs[0].items + [x])] + gs[1..]
    else [gs[0]] + AddToGroups(gs[1..], k, x)
  }

  /** The groups of s under key, built by one left-to-right pass. */
  function GroupBy<E, K(==)>(s: seq<E>, key: E -> K): (gs: seq<Group<K, E>>)
    ensures |gs| <= |s|
    ensures s != [] <==> gs != []
  {
    if s == [] then []
    else AddToGroups(GroupBy(DropLast(s), key), key(Last(s)), Last(s))
  }

  lemma {:induction false} AddToGroupsKeys<K, E>(gs: seq<Group<K, E>>, k: K, x: E)
    ensures Keys(AddToGroups(gs, k, x)) == if k in Keys(gs) then Keys(gs) else Keys(gs) + [k]
  {
    if gs != [] && gs[0].key != k {
      AddToGroupsKeys(gs[1..], k, x);
      assert Keys(gs) == [gs[0].key] + Keys(gs[1..]);
    }
  }

  lemma {:induction false} AddToGroupsLookup<K, E>(gs: seq<Group<K, E>>, k: K, x: E, k': K)
    ensures Lookup(AddToGroups(gs, k, x), k') == Lookup(gs, k') + (if k == k' then [x] else [])
  {
    if gs != [] && gs[0].key != k {
      AddToGroupsLookup(gs[1..], k, x, k');
    }
  }

  lemma {:induction false} AddToGroupsSize<K, E>(gs: seq<Group<K, E>>, k: K, x: E)
    ensures TotalSize(AddToGroups(gs, k, x)) == TotalSize(gs) + 1
  {
    if gs != [] && gs[0].key != k {
      AddToGroupsSize(gs[1..], k, x);
    }
  }

  /** Adding under a key that has a group extends that group and nothing else. */
  lemma {:induction false} AddToExistingGroup<K, E>(gs: seq<Group<K, E>>, k: K, x: E, j: nat)
    requires NoDuplicates(Keys(gs))
    requires j < |gs| && gs[j].key == k
    ensures AddToGroups(gs, k, x) == gs[j := Group(k, gs[j].items + [x])]
  {
    var g := Group(k, gs[j].items + [x]);
    if j == 0 {
      assert AddToGroups(gs, k, x) == [g] + gs[1..];
      UpdateHead(gs, g);
    } else {
      var t := gs[1..];
      assert gs[0].key != k by {
        assert Keys(gs)[0] != Keys(gs)[j];
      }
      assert NoDuplicates(Keys(t)) by {
        assert Keys(t) == Keys(gs)[1..];
      }
      AddToExistingGroup(t, k, x, j - 1);
      assert AddToGroups(gs, k, x) == [gs[0]] + t[j - 1 := g];
      UpdateTail(gs, j, g);
    }
  }

  lemma UpdateHead<T>(s: seq<T>, v: T)
    requires s != []
    ensures [v] + s[1..] == s[0 := v]
  {
  }

  lemma UpdateTail<T>(s: seq<T>, j: nat, v: T)
    requires 0 < j < |s|
    ensures [s[0]] + s[1..][j - 1 := v] == s[j := v]
  {
  }

  /** Adding under a new key appends a one-element group. */
  lemma {:induction false} AddToNewGroup<K, E>(gs: seq<Group<K, E>>, k: K, x: E)
    requires k !in Keys(gs)
    ensures AddToGroups(gs, k, x) == gs + [Group(k, [x])]
  {
    if gs != [] {
      assert Keys(gs)[0] == gs[0].key;
      assert Keys(gs[1..]) == Keys(gs)[1..];
      AddToNewGroup(gs[1..], k, x);
    }
  }

  /** The groups with an empty group for k opened at the end when k is new. */
  function WithGroupFor<K(==), E>(gs: seq<Group<K, E>>, k: K): seq<Group<K, E>>
  {
    if k in Keys(gs) then gs else gs + [Group(k, [])]
  }

  /** Adding x under k is: open an empty group for k if k is new, then append
      x to k's group at position j; no other group has key k. */
  lemma OpenThenAppend<K, E>(gs: seq<Group<K, E>>, k: K, x: E, j: nat)
    requires NoDuplicates(Keys(gs))
    requires j < |WithGroupFor(gs, k)| && WithGroupFor(gs, k)[j].key == k
    ensures AddToGroups(gs, k, x) == WithGroupFor(gs, k)[j := Group(k, WithGroupFor(gs, k)[j].items + [x])]
    ensures forall i :: 0 <= i < |WithGroupFor(gs, k)| && i != j ==> WithGroupFor(gs, k)[i].key != k
  {
    var w := WithGroupFor(gs, k);
    if k in Keys(gs) {
      AddToExistingGroup(gs, k, x, j);
      assert Keys(gs)[j] == k;
    } else {
      AddToNewGroup(gs, k, x);
      assert w[j].items + [x] == [x];
      forall i | 0 <= i < |w| && i != j
        ensures w[i].key != k
      {
        assert Keys(gs)[i] == w[i].key;
      }
    }
  }

  /** The keys of the groups are the distinct keys of s, in first-seen order. */
  lemma {:induction false} GroupByKeys<E, K>(s: seq<E>, key: E -> K)
    ensures Keys(GroupBy(s, key)) == Distinct(Select(s, key))
  {
    if s != [] {
      GroupByKeys(DropLast(s), key);
      AddToGroupsKeys(GroupBy(DropLast(s), key), key(Last(s)), Last(s));
      var ks := Select(s, key);
      assert DropLast(ks) == Select(DropLast(s), key);
    }
  }

  lemma GroupByKeysDistinct<E, K>(s: seq<E>, key: E -> K)
    ensures NoDuplicates(Keys(GroupBy(s, key)))
  {
    GroupByKeys(s, key);
    DistinctNoDuplicates(Select(s, key));
  }

  /** Under every key, the group holds exactly the elements of s with that key,
      in source order (and no group means no such element). */
  lemma {:induction false} GroupByLookup<E, K>(s: seq<E>, key: E -> K, k: K)
    ensures Lookup(GroupBy(s, key), k) == Where(s, HasKey(key, k))
  {
    if s != [] {
      GroupByLookup(DropLast(s), key, k);
      AddToGroupsLookup(GroupBy(DropLast(s), key), key(Last(s)), Last(s), k);
    }
  }

  /** The groups together hold every element exactly once: sizes sum to |s|. */
  lemma {:induction false} GroupBySize<E, K>(s: seq<E>, key: E -> K)
    ensures TotalSize(GroupBy(s, key)) == |s|
  {
    if s != [] {
      GroupBySize(DropLast(s), key);
      AddToGroupsSize(GroupBy(DropLast(s), key), key(Last(s)), Last(s));
    }
  }

  lemma {:induction false} LookupAt<K, E>(gs: seq<Group<K, E>>, i: nat)
    requires NoDuplicates(Keys(gs))
    requires i < |gs|
    ensures Lookup(gs, gs[i].key) == gs[i].items
  {
    if i > 0 {
      assert gs[0].key == Keys(gs)[0] != Keys(gs)[i] == gs[i].key;
      assert Keys(gs[1..]) == Keys(gs)[1..];
      LookupAt(gs[1..], i - 1);
    }
  }

  /** Each group is non-empty and holds exactly the elements of s that map to
      its key, in source order. */
  lemma GroupByGroups<E, K>(s: seq<E>, key: E -> K, i: nat)
    requires i < |GroupBy(s, key)|
    ensures GroupBy(s, key)[i].items == Where(s, HasKey(key, GroupBy(s, key)[i].key))
    ensures GroupBy(s, key)[i].items != []
  {
    var gs := GroupBy(s, key);
    var k := gs[i].key;
    GroupByKeysDistinct(s, key);
    LookupAt(gs, i);
    GroupByLookup(s, key, k);
    GroupByKeys(s, key);
    DistinctMembers(Select(s, key));
    assert k in Distinct(Select(s, key)) by {
      assert Keys(gs)[i] == k;
    }
    var j :| 0 <= j < |s| && Select(s, key)[j] == k;
    WhereMembers(s, HasKey(key, k));
    assert s[j] in Where(s, HasKey(key, k));
  }

  /** Every member of a group comes from the source and maps to the group's key. */
  lemma GroupMemberHasKey<E, K>(s: seq<E>, key: E -> K, i: nat, x: E)
    requires i < |GroupBy(s, key)|
    requires x in GroupBy(s, key)[i].items
    ensures x in s && key(x) == GroupBy(s, key)[i].key
  {
    var k := GroupBy(s, key)[i].key;
    GroupByGroups(s, key, i);
    assert x in Where(s, HasKey(key, k));
    WhereMembers(s, HasKey(key, k));
  }
}
