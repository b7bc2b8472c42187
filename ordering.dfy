/** Ordering by an integer key: the sortedness predicate, and the stable sort
    that the standard OrderBy operator performs. */
module Ordering {
  import opened Sequences

  /** Keys never decrease from left to right. */
  ghost predicate SortedBy<T>(s: seq<T>, key: T -> int)
  {
    forall i, j :: 0 <= i < j < |s| ==> key(s[i]) <= key(s[j])
  }

  /** One insertion step: x goes in front of the first element whose key is
      above key(x). When s is sorted by key, that places x after every element
      whose key is not above its own (see InsertByKeySorted). */
  function InsertByKey<T>(x: T, s: seq<T>, key: T -> int): (r: seq<T>)
    ensures |r| == |s| + 1
    ensures r[0] == x || (s != [] && r[0] == s[0])
    ensures multiset(r) == multiset(s) + multiset{x}
  {
    if s == [] then [x]
    else if key(x) < key(s[0]) then [x] + s
    else
      assert s == [s[0]] + s[1..];
      [s[0]] + InsertByKey(x, s[1..], key)
  }

  lemma {:induction false} InsertByKeySorted<T>(x: T, s: seq<T>, key: T -> int)
    requires SortedBy(s, key)
    ensures SortedBy(InsertByKey(x, s, key), key)
  {
    if s != [] && key(x) >= key(s[0]) {
      var rest := InsertByKey(x, s[1..], key);
      InsertByKeySorted(x, s[1..], key);
      assert key(s[0]) <= key(rest[0]);
      assert InsertByKey(x, s, key) == [s[0]] + rest;
    }
  }

  /** Insertion sort from the left end: a stable sort by key. */
  function StableSortBy<T>(s: seq<T>, key: T -> int): (r: seq<T>)
    ensures multiset(r) == multiset(s)
    ensures SortedBy(r, key)
  {
    if s == [] then []
    else
      SplitLast(s);
      InsertByKeySorted(Last(s), StableSortBy(DropLast(s), key), key);
      InsertByKey(Last(s), StableSortBy(DropLast(s), key), key)
  }

  /** Inserting x adds x at the end of its own key class and leaves every
      other key class as it was. */
  lemma {:induction false} InsertByKeyKeepsClasses<T>(x: T, s: seq<T>, key: T -> int, k: int)
    requires SortedBy(s, key)
    ensures Where(InsertByKey(x, s, key), HasKey(key, k)) ==
            Where(s, HasKey(key, k)) + (if key(x) == k then [x] else [])
  {
    var p := HasKey(key, k);
    if s == [] {
      WhereSingleton(x, p);
    } else if key(x) < key(s[0]) {
      InsertAtFrontKeepsClasses(x, s, key, k);
    } else {
      InsertByKeyKeepsClasses(x, s[1..], key, k);
      InsertAfterHeadKeepsClasses(x, s, key, k);
    }
  }

  /** The case where x goes past the head: the head's contribution is
      the same on both sides, and the tail carries the rest. */
  lemma InsertAfterHeadKeepsClasses<T>(x: T, s: seq<T>, key: T -> int, k: int)
    requires s != [] && key(s[0]) <= key(x)
    requires Where(InsertByKey(x, s[1..], key), HasKey(key, k)) ==
             Where(s[1..], HasKey(key, k)) + (if key(x) == k then [x] else [])
    ensures Where(InsertByKey(x, s, key), HasKey(key, k)) ==
            Where(s, HasKey(key, k)) + (if key(x) == k then [x] else [])
  {
    var p, rest, extra := HasKey(key, k), InsertByKey(x, s[1..], key), if key(x) == k then [x] else [];
    calc {
      Where(InsertByKey(x, s, key), p);
      { assert InsertByKey(x, s, key) == [s[0]] + rest; }
      Where([s[0]] + rest, p);
      { WhereSameHead(s[0], rest, s[1..], p, extra); }
      Where([s[0]] + s[1..], p) + extra;
      { HeadTail(s); }
      Where(s, p) + extra;
    }
  }

  lemma HeadTail<T>(s: seq<T>)
    requires s != []
    ensures [s[0]] + s[1..] == s
  {
  }

  /** Putting the same element in front of two sequences keeps the relation
      between what Where keeps of them. */
  lemma WhereSameHead<T>(h: T, r: seq<T>, t: seq<T>, p: T -> bool, extra: seq<T>)
    requires Where(r, p) == Where(t, p) + extra
    ensures Where([h] + r, p) == Where([h] + t, p) + extra
  {
    var head := Where([h], p);
    calc {
      Where([h] + r, p);
      { WhereAppend([h], r, p); }
      head + Where(r, p);
      head + (Where(t, p) + extra);
      (head + Where(t, p)) + extra;
      { WhereAppend([h], t, p); }
      Where([h] + t, p) + extra;
    }
  }

  /** The case where x goes first: its key is below every key of s, so its
      class in s is empty. */
  lemma InsertAtFrontKeepsClasses<T>(x: T, s: seq<T>, key: T -> int, k: int)
    requires SortedBy(s, key) && s != [] && key(x) < key(s[0])
    ensures Where(InsertByKey(x, s, key), HasKey(key, k)) ==
            Where(s, HasKey(key, k)) + (if key(x) == k then [x] else [])
  {
    var p := HasKey(key, k);
    assert InsertByKey(x, s, key) == [x] + s;
    WhereSingleton(x, p);
    WhereAppend([x], s, p);
    if key(x) == k {
      WhereNone(s, p);
    }
  }

  /** Stability: within each key class the sorted output keeps source order. */
  lemma {:induction false} StableSortByIsStable<T>(s: seq<T>, key: T -> int, k: int)
    ensures Where(StableSortBy(s, key), HasKey(key, k)) == Where(s, HasKey(key, k))
  {
    if s != [] {
      StableSortByIsStable(DropLast(s), key, k);
      InsertByKeyKeepsClasses(Last(s), StableSortBy(DropLast(s), key), key, k);
    }
  }

  /** Stability, for every key class at once. */
  lemma StableSortByKeepsEveryClass<T>(s: seq<T>, key: T -> int)
    ensures forall k :: Where(StableSortBy(s, key), HasKey(key, k)) == Where(s, HasKey(key, k))
  {
    forall k
      ensures Where(StableSortBy(s, key), HasKey(key, k)) == Where(s, HasKey(key, k))
    {
      StableSortByIsStable(s, key, k);
    }
  }
}
