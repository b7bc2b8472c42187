/** Reference definitions of the sequence operators, on whole sequences.
    Where, Select, SelectMany, Distinct and FirstWhere are defined on a
    sequence by its last element, so that a loop that has consumed the prefix
    s[..i] holds exactly F(s[..i]). IndexOf recurses on the head; Take and
    Skip are slices. */
module Sequences {
  import opened LinqResults

  function DropLast<T>(s: seq<T>): seq<T>
    requires s != []
  {
    s[..|s| - 1]
  }

  function Last<T>(s: seq<T>): T
    requires s != []
  {
    s[|s| - 1]
  }

  /** One more step of a left-to-right scan. */
  lemma PrefixStep<T>(s: seq<T>, i: nat)
    requires i < |s|
    ensures s[..i + 1] != [] && DropLast(s[..i + 1]) == s[..i] && Last(s[..i + 1]) == s[i]
  {
  }

  lemma SplitLast<T>(s: seq<T>)
    requires s != []
    ensures DropLast(s) + [Last(s)] == s
  {
  }

  // ---------------------------------------------------------------- Where

  /** The elements of s that satisfy p, in source order. */
  function Where<T>(s: seq<T>, p: T -> bool): (r: seq<T>)
    ensures |r| <= |s|
  {
    if s == [] then []
    else Where(DropLast(s), p) + (if p(Last(s)) then [Last(s)] else [])
  }

  /** The positions of s whose element satisfies p, in increasing order. */
  function MatchingIndices<T>(s: seq<T>, p: T -> bool): (idx: seq<nat>)
    ensures forall k :: 0 <= k < |idx| ==> idx[k] < |s| && p(s[idx[k]])
    ensures forall k, l :: 0 <= k < l < |idx| ==> idx[k] < idx[l]
    ensures forall i :: 0 <= i < |s| && p(s[i]) ==> i in idx
  {
    if s == [] then []
    else MatchingIndices(DropLast(s), p) + (if p(Last(s)) then [|s| - 1] else [])
  }

  /** Where(s, p) is the subsequence of s taken at exactly the positions whose
      element satisfies p, in increasing order of position. */
  lemma {:induction false} WhereIsSubsequence<T>(s: seq<T>, p: T -> bool)
    ensures |Where(s, p)| == |MatchingIndices(s, p)|
    ensures forall k :: 0 <= k < |Where(s, p)| ==> Where(s, p)[k] == s[MatchingIndices(s, p)[k]]
  {
    if s != [] {
      WhereIsSubsequence(DropLast(s), p);
    }
  }

  lemma {:induction false} WhereMembers<T>(s: seq<T>, p: T -> bool)
    ensures forall x :: x in Where(s, p) <==> x in s && p(x)
  {
    if s != [] {
      WhereMembers(DropLast(s), p);
      SplitLast(s);
    }
  }

  lemma {:induction false} WhereAppend<T>(a: seq<T>, b: seq<T>, p: T -> bool)
    ensures Where(a + b, p) == Where(a, p) + Where(b, p)
  {
    if b == [] {
      assert a + b == a;
    } else {
      assert DropLast(a + b) == a + DropLast(b);
      assert Last(a + b) == Last(b);
      WhereAppend(a, DropLast(b), p);
    }
  }

  lemma WhereSingleton<T>(x: T, p: T -> bool)
    ensures Where([x], p) == if p(x) then [x] else []
  {
    assert DropLast([x]) == [];
  }

  function Not<T>(p: T -> bool): T -> bool
  {
    x => !p(x)
  }

  /** The test "has key k": what grouping and stability filter by. */
  function HasKey<T, K(==)>(key: T -> K, k: K): T -> bool
  {
    x => key(x) == k
  }

  lemma {:induction false} WhereNone<T>(s: seq<T>, p: T -> bool)
    requires forall i :: 0 <= i < |s| ==> !p(s[i])
    ensures Where(s, p) == []
  {
    if s != [] {
      WhereNone(DropLast(s), p);
    }
  }

  /** Every element is counted either by p or by its negation. */
  lemma {:induction false} WherePartition<T>(s: seq<T>, p: T -> bool)
    ensures |Where(s, p)| + |Where(s, Not(p))| == |s|
  {
    if s != [] {
      WherePartition(DropLast(s), p);
    }
  }

  /** Where keeps everything exactly when every element satisfies p. */
  lemma {:induction false} WhereKeepsAll<T>(s: seq<T>, p: T -> bool)
    ensures Where(s, p) == s <==> forall i :: 0 <= i < |s| ==> p(s[i])
  {
    if s != [] {
      var t := DropLast(s);
      WhereKeepsAll(t, p);
      SplitLast(s);
      if Where(s, p) == s {
        assert |Where(t, p)| <= |t|;
        assert p(Last(s));
        assert Where(t, p) == DropLast(Where(s, p));
      }
    }
  }

  // --------------------------------------------------------------- Select

  /** The selector applied to each element, position by position. */
  function Select<T, U>(s: seq<T>, f: T -> U): (r: seq<U>)
    ensures |r| == |s|
    ensures forall i :: 0 <= i < |s| ==> r[i] == f(s[i])
  {
    if s == [] then [] else Select(DropLast(s), f) + [f(Last(s))]
  }

  // ----------------------------------------------------------- SelectMany

  /** The inner sequences of the elements, concatenated in source order. */
  function SelectMany<T, U>(s: seq<T>, f: T -> seq<U>): (r: seq<U>)
    ensures forall x :: x in r ==> exists i :: 0 <= i < |s| && x in f(s[i])
  {
    if s == [] then [] else SelectMany(DropLast(s), f) + f(Last(s))
  }

  function Sum(xs: seq<int>): int
  {
    if xs == [] then 0 else Sum(DropLast(xs)) + Last(xs)
  }

  function InnerLength<T, U>(f: T -> seq<U>): T -> int
  {
    x => |f(x)|
  }

  lemma {:induction false} SelectManyAppend<T, U>(a: seq<T>, b: seq<T>, f: T -> seq<U>)
    ensures SelectMany(a + b, f) == SelectMany(a, f) + SelectMany(b, f)
  {
    if b == [] {
      assert a + b == a;
    } else {
      var b', x := DropLast(b), Last(b);
      assert DropLast(a + b) == a + b' && Last(a + b) == x;
      SelectManyAppend(a, b', f);
      calc {
        SelectMany(a + b, f);
        SelectMany(a + b', f) + f(x);
        (SelectMany(a, f) + SelectMany(b', f)) + f(x);
        SelectMany(a, f) + (SelectMany(b', f) + f(x));
        SelectMany(a, f) + SelectMany(b, f);
      }
    }
  }

  /** Flattening one element yields its inner sequence, and flattening a
      concatenation concatenates: together these fix SelectMany. */
  lemma SelectManySingleton<T, U>(x: T, f: T -> seq<U>)
    ensures SelectMany([x], f) == f(x)
  {
    assert DropLast([x]) == [];
  }

  /** The length of the flattening is the sum of the inner lengths. */
  lemma {:induction false} SelectManyLength<T, U>(s: seq<T>, f: T -> seq<U>)
    ensures |SelectMany(s, f)| == Sum(Select(s, InnerLength(f)))
  {
    if s != [] {
      SelectManyLength(DropLast(s), f);
      var l := Select(s, InnerLength(f));
      assert DropLast(l) == Select(DropLast(s), InnerLength(f));
    }
  }

  // ------------------------------------------------------------- Distinct

  /** Each value of s once, at the place of its first occurrence. */
  function Distinct<T(==)>(s: seq<T>): (r: seq<T>)
    ensures |r| <= |s|
    ensures forall x :: x in r ==> x in s
  {
    if s == [] then []
    else
      var d := Distinct(DropLast(s));
      if Last(s) in d then d else d + [Last(s)]
  }

  predicate NoDuplicates<T(==)>(s: seq<T>)
  {
    forall i, j :: 0 <= i < j < |s| ==> s[i] != s[j]
  }

  /** The position of the first occurrence of x in s. */
  function IndexOf<T(==)>(s: seq<T>, x: T): (i: nat)
    requires x in s
    ensures i < |s| && s[i] == x && x !in s[..i]
  {
    if s[0] == x then 0
    else
      var j := IndexOf(s[1..], x);
      assert s[..j + 1] == [s[0]] + s[1..][..j];
      1 + j
  }

  lemma IndexOfUnique<T>(s: seq<T>, x: T, i: nat)
    requires i < |s| && s[i] == x && x !in s[..i]
    ensures IndexOf(s, x) == i
  {
  }

  /** Appending does not move the first occurrence of a value already present. */
  lemma IndexOfAppend<T>(s: seq<T>, y: T, x: T)
    requires x in s
    ensures IndexOf(s + [y], x) == IndexOf(s, x)
  {
    var i := IndexOf(s, x);
    assert (s + [y])[..i] == s[..i];
    IndexOfUnique(s + [y], x, i);
  }

  lemma {:induction false} DistinctMembers<T>(s: seq<T>)
    ensures forall x :: x in Distinct(s) <==> x in s
  {
    if s != [] {
      DistinctMembers(DropLast(s));
      SplitLast(s);
    }
  }

  lemma {:induction false} DistinctNoDuplicates<T>(s: seq<T>)
    ensures NoDuplicates(Distinct(s))
  {
    if s != [] {
      DistinctNoDuplicates(DropLast(s));
    }
  }

  /** The values appear in the order of their first occurrences in s. */
  lemma {:induction false} DistinctFirstOccurrenceOrder<T>(s: seq<T>)
    ensures forall i, j :: 0 <= i < j < |Distinct(s)| ==>
              IndexOf(s, Distinct(s)[i]) < IndexOf(s, Distinct(s)[j])
  {
    if s != [] {
      var t, y := DropLast(s), Last(s);
      var d := Distinct(t);
      SplitLast(s);
      DistinctFirstOccurrenceOrder(t);
      DistinctMembers(t);
      forall x | x in t
        ensures IndexOf(s, x) == IndexOf(t, x) < |t|
      {
        IndexOfAppend(t, y, x);
      }
      if y !in d {
        assert s[..|t|] == t;
        IndexOfUnique(s, y, |t|);
      }
    }
  }

  /** A sequence without duplicates is its own Distinct. */
  lemma {:induction false} DistinctOfNoDuplicates<T>(s: seq<T>)
    requires NoDuplicates(s)
    ensures Distinct(s) == s
  {
    if s != [] {
      var t := DropLast(s);
      assert NoDuplicates(t);
      DistinctOfNoDuplicates(t);
      DistinctMembers(t);
      SplitLast(s);
    }
  }

  lemma DistinctIdempotent<T>(s: seq<T>)
    ensures Distinct(Distinct(s)) == Distinct(s)
  {
    DistinctNoDuplicates(s);
    DistinctOfNoDuplicates(Distinct(s));
  }

  /** Appending more input only appends to Distinct's output: the values of a
      keep their places when b is scanned afterwards with the same seen-set. */
  lemma {:induction false} DistinctExtends<T>(a: seq<T>, b: seq<T>)
    ensures |Distinct(a)| <= |Distinct(a + b)|
    ensures Distinct(a + b)[..|Distinct(a)|] == Distinct(a)
  {
    if b == [] {
      assert a + b == a;
    } else {
      assert DropLast(a + b) == a + DropLast(b);
      DistinctExtends(a, DropLast(b));
    }
  }

  // ---------------------------------------------------------- FirstWhere

  /** The lowest-positioned element satisfying p, if there is one. */
  function FirstWhere<T>(s: seq<T>, p: T -> bool): (r: Option<T>)
    ensures r.None? <==> forall i :: 0 <= i < |s| ==> !p(s[i])
    ensures r.Some? ==>
              exists i :: 0 <= i < |s| && s[i] == r.value && p(s[i]) &&
                          forall j :: 0 <= j < i ==> !p(s[j])
  {
    if s == [] then None
    else
      match FirstWhere(DropLast(s), p)
      case Some(x) => Some(x)
      case None => if p(Last(s)) then Some(Last(s)) else None
  }

  /** The first match is the head of the filtered sequence. */
  lemma {:induction false} FirstWhereIsHeadOfWhere<T>(s: seq<T>, p: T -> bool)
    ensures FirstWhere(s, p) == if Where(s, p) == [] then None else Some(Where(s, p)[0])
  {
    if s != [] {
      FirstWhereIsHeadOfWhere(DropLast(s), p);
    }
  }

  // ------------------------------------------------------------ Take/Skip

  /** The first n elements; a count beyond the length is an error. */
  function Take<T>(s: seq<T>, n: nat): (r: Result<seq<T>>)
    ensures r.Failure? <==> n > |s|
    ensures r.Failure? ==> r.error == IndexOutOfBound
    ensures r.Success? ==> |r.value| == n && forall i :: 0 <= i < n ==> r.value[i] == s[i]
  {
    if n > |s| then Failure(IndexOutOfBound) else Success(s[..n])
  }

  /** All but the first n elements; a count beyond the length is an error. */
  function Skip<T>(s: seq<T>, n: nat): (r: Result<seq<T>>)
    ensures r.Failure? <==> n > |s|
    ensures r.Failure? ==> r.error == IndexOutOfBound
    ensures r.Success? ==> |r.value| == |s| - n && forall i :: 0 <= i < |s| - n ==> r.value[i] == s[n + i]
  {
    if n > |s| then Failure(IndexOutOfBound) else Success(s[n..])
  }

  lemma TakeSkipPartition<T>(s: seq<T>, n: nat)
    requires n <= |s|
    ensures Take(s, n).Success? && Skip(s, n).Success?
    ensures Take(s, n).value + Skip(s, n).value == s
  {
  }

  // ------------------------------------------------------------------ Min

  /** Position i holds a least-ranked element, and no earlier one is as small. */
  ghost predicate IsFirstMinimum<T>(s: seq<T>, rank: T -> int, i: int)
  {
    && 0 <= i < |s|
    && (forall j :: 0 <= j < |s| ==> rank(s[i]) <= rank(s[j]))
    && (forall j :: 0 <= j < i ==> rank(s[i]) < rank(s[j]))
  }
}
