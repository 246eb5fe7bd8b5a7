/** Sequence operations that stand for JavaScript array methods on plain lists. */
module Seqs {

  /** The list without its element at index `i`. */
  function RemoveAt<T>(s: seq<T>, i: nat): (r: seq<T>)
    requires i < |s|
    ensures |r| == |s| - 1
    ensures forall j :: 0 <= j < i ==> r[j] == s[j]
    ensures forall j :: i <= j < |r| ==> r[j] == s[j + 1]
    ensures multiset(r) + multiset{s[i]} == multiset(s)
  {
    assert s == s[..i] + [s[i]] + s[i + 1..];
    s[..i] + s[i + 1..]
  }

  /** The elements satisfying `p`, in their original order. */
  function Filter<T>(p: T -> bool, s: seq<T>): (r: seq<T>)
    ensures |r| <= |s|
    ensures forall x :: x in r ==> p(x) && x in s
    ensures forall x :: x in s && p(x) ==> x in r
    ensures multiset(r) <= multiset(s)
  {
    if s == [] then []
    else
      assert s == [s[0]] + s[1..];
      if p(s[0]) then [s[0]] + Filter(p, s[1..])
      else Filter(p, s[1..])
  }

  /** Filtering distributes over concatenation. */
  lemma {:induction false} FilterConcat<T>(p: T -> bool, a: seq<T>, b: seq<T>)
    ensures Filter(p, a + b) == Filter(p, a) + Filter(p, b)
  {
    if a != [] {
      var t := a[1..];
      TailOfConcat(a, b);
      FilterConcat(p, t, b);
      if p(a[0]) {
        ConcatAssoc([a[0]], Filter(p, t), Filter(p, b));
      }
    } else {
      EmptyConcat(b);
    }
  }

  /** `a` occurs in `b` in order, possibly with other elements between. */
  predicate IsSubsequence<T(==)>(a: seq<T>, b: seq<T>)
    decreases |b|
  {
    if a == [] then true
    else if b == [] then false
    else if a[0] == b[0] then IsSubsequence(a[1..], b[1..])
    else IsSubsequence(a, b[1..])
  }

  /** Filtering keeps the surviving elements in their original relative order. */
  lemma {:induction false} FilterIsSubsequence<T>(p: T -> bool, s: seq<T>)
    ensures IsSubsequence(Filter(p, s), s)
  {
    if s != [] {
      FilterIsSubsequence(p, s[1..]);
      if !p(s[0]) {
        SubsequenceOfTail(Filter(p, s[1..]), s);
      }
    }
  }

  /** A subsequence of the tail of `b` is a subsequence of `b`. */
  lemma {:induction false} SubsequenceOfTail<T>(a: seq<T>, b: seq<T>)
    requires b != []
    requires IsSubsequence(a, b[1..])
    ensures IsSubsequence(a, b)
    decreases |b|, 0
  {
    if a != [] && a[0] == b[0] {
      SubsequenceDropHead(a, b[1..]);
    }
  }

  /** Dropping the first element of an embedded sequence keeps it embedded. */
  lemma {:induction false} SubsequenceDropHead<T>(a: seq<T>, b: seq<T>)
    requires a != []
    requires IsSubsequence(a, b)
    ensures IsSubsequence(a[1..], b)
    decreases |b|, 1
  {
    if a[0] == b[0] {
      if a[1..] != [] {
        SubsequenceOfTail(a[1..], b);
      }
    } else {
      SubsequenceDropHead(a, b[1..]);
      if a[1..] != [] {
        SubsequenceOfTail(a[1..], b);
      }
    }
  }

  /** The list in reverse order. */
  function Reverse<T>(s: seq<T>): (r: seq<T>)
    ensures |r| == |s|
    ensures forall k :: 0 <= k < |s| ==> r[k] == s[|s| - 1 - k]
  {
    if s == [] then [] else Reverse(s[1..]) + [s[0]]
  }

  /** A filter every element passes keeps the whole list. */
  lemma {:induction false} FilterKeepsAll<T>(p: T -> bool, s: seq<T>)
    requires forall k :: 0 <= k < |s| ==> p(s[k])
    ensures Filter(p, s) == s
  {
    if s != [] {
      FilterKeepsAll(p, s[1..]);
    }
  }

  /** A filter no element passes keeps nothing. */
  lemma {:induction false} FilterDropsAll<T>(p: T -> bool, s: seq<T>)
    requires forall k :: 0 <= k < |s| ==> !p(s[k])
    ensures Filter(p, s) == []
  {
    if s != [] {
      FilterDropsAll(p, s[1..]);
    }
  }

  /** Filtering by `q` after a weaker `p` is filtering by `q` alone. */
  lemma {:induction false} FilterAfterWeaker<T>(q: T -> bool, p: T -> bool, s: seq<T>)
    requires forall k :: 0 <= k < |s| && q(s[k]) ==> p(s[k])
    ensures Filter(q, Filter(p, s)) == Filter(q, s)
  {
    if s != [] {
      FilterAfterWeaker(q, p, s[1..]);
    }
  }

  /** The first element passing the filter heads the filtered list. */
  lemma {:induction false} FilterHead<T>(p: T -> bool, s: seq<T>, k: nat)
    requires k < |s| && p(s[k])
    requires forall j :: 0 <= j < k ==> !p(s[j])
    ensures Filter(p, s) != [] && Filter(p, s)[0] == s[k]
  {
    if k > 0 {
      FilterHead(p, s[1..], k - 1);
    }
  }

  /** No element of a list with distinct elements repeats. */
  predicate Distinct<T(==)>(s: seq<T>) {
    forall i, j :: 0 <= i < j < |s| ==> s[i] != s[j]
  }

  /** A list has distinct elements exactly when each occurs at most once in its multiset. */
  lemma {:induction false} DistinctMultiset<T>(s: seq<T>)
    ensures Distinct(s) <==> forall x :: multiset(s)[x] <= 1
  {
    if s != [] {
      DistinctMultiset(s[1..]);
      assert s == [s[0]] + s[1..];
      assert multiset(s) == multiset{s[0]} + multiset(s[1..]);
      if Distinct(s) {
        assert Distinct(s[1..]);
        assert s[0] !in s[1..];
      } else {
        var i, j :| 0 <= i < j < |s| && s[i] == s[j];
        if i == 0 {
          assert s[j] in s[1..];
          assert multiset(s)[s[0]] >= 2;
        } else {
          assert !Distinct(s[1..]) by { assert s[1..][i - 1] == s[1..][j - 1]; }
          var x :| multiset(s[1..])[x] > 1;
          assert multiset(s)[x] > 1;
        }
      }
    }
  }

  /** A permutation of a list with distinct elements has distinct elements. */
  lemma PermutationDistinct<T>(a: seq<T>, b: seq<T>)
    requires multiset(a) <= multiset(b) && Distinct(b)
    ensures Distinct(a)
  {
    DistinctMultiset(a);
    DistinctMultiset(b);
    forall x ensures multiset(a)[x] <= 1 {
      assert multiset(a)[x] <= multiset(b)[x];
    }
  }

  /** The first position of `x`. */
  function IndexIn<T(==)>(s: seq<T>, x: T): (k: nat)
    requires x in s
    ensures k < |s| && s[k] == x
    ensures forall j :: 0 <= j < k ==> s[j] != x
  {
    if s[0] == x then 0 else 1 + IndexIn(s[1..], x)
  }

  /** Removing a position past the head works on the tail. */
  lemma RemoveAtCons<T>(s: seq<T>, i: nat)
    requires 0 < i < |s|
    ensures RemoveAt(s, i) == [s[0]] + RemoveAt(s[1..], i - 1)
  {
    assert s[..i] == [s[0]] + s[1..][..i - 1];
    assert s[i + 1..] == s[1..][i..];
  }

  /** The list with `x` inserted at position `j`. */
  function InsertAt<T>(s: seq<T>, j: nat, x: T): (r: seq<T>)
    requires j <= |s|
    ensures |r| == |s| + 1
    ensures r[j] == x
    ensures forall k :: 0 <= k < j ==> r[k] == s[k]
    ensures forall k :: j < k < |r| ==> r[k] == s[k - 1]
    ensures multiset(r) == multiset(s) + multiset{x}
  {
    assert s == s[..j] + s[j..];
    s[..j] + [x] + s[j..]
  }

  /**
   * In a list with distinct elements, the head of the filtered list is the first
   * element of the list that passes the filter.
   */
  lemma {:induction false} FilterHeadIsFirst<T>(p: T -> bool, s: seq<T>, k: nat)
    requires Distinct(s) && k < |s|
    requires Filter(p, s) != [] && Filter(p, s)[0] == s[k]
    ensures forall b :: 0 <= b < |s| && p(s[b]) ==> k <= b
  {
    if !p(s[0]) {
      assert p(s[k]);
      assert k > 0;
      assert Distinct(s[1..]);
      FilterHeadIsFirst(p, s[1..], k - 1);
      forall b | 0 < b < |s| && p(s[b]) ensures k <= b {
        assert s[1..][b - 1] == s[b];
      }
    }
  }

  /** Where element `a` of `s` lands when element `ip` is taken out and put back at `j`. */
  function Shift(a: nat, ip: nat, j: nat): nat
    requires a != ip
  {
    var a' := if a < ip then a else a - 1;
    if a' < j then a' else a' + 1
  }

  /** Taking one element out and putting it back elsewhere keeps the others in order. */
  lemma Reinsert<T>(s: seq<T>, ip: nat, j: nat)
    requires Distinct(s) && ip < |s| && j < |s|
    ensures var r := InsertAt(RemoveAt(s, ip), j, s[ip]);
            && Distinct(r) && multiset(r) == multiset(s) && r[j] == s[ip]
            && forall a :: 0 <= a < |s| && a != ip ==> Shift(a, ip, j) < |r| && r[Shift(a, ip, j)] == s[a]
  {
    var t := RemoveAt(s, ip);
    var r := InsertAt(t, j, s[ip]);
    assert multiset(r) == multiset(s);
    PermutationDistinct(r, s);
  }

  predicate SortedBy<T>(key: T -> int, s: seq<T>) {
    forall a, b :: 0 <= a < b < |s| ==> key(s[a]) <= key(s[b])
  }

  /** Two lists with the same multiset hold the same elements. */
  lemma SameMembers<T>(a: seq<T>, b: seq<T>)
    requires multiset(a) == multiset(b)
    ensures forall x :: x in a <==> x in b
  {
    forall x ensures x in a <==> x in b {
      assert x in a <==> x in multiset(a);
      assert x in b <==> x in multiset(b);
    }
  }

  /** In a sorted list, an element with a smaller key stands earlier. */
  lemma SortedKeyOrder<T>(key: T -> int, s: seq<T>, a: nat, b: nat)
    requires SortedBy(key, s) && a < |s| && b < |s| && key(s[a]) < key(s[b])
    ensures a < b
  {
  }

  /** The members of a list with a given head. */
  lemma InCons<T>(x: T, p: T, d: seq<T>)
    ensures x in [p] + d <==> x == p || x in d
  {
    if x in [p] + d && x != p {
      var k :| 0 <= k < |[p] + d| && ([p] + d)[k] == x;
      assert d[k - 1] == x;
    }
  }

  /** A list around its element at `i`. */
  lemma SplitAround<T>(s: seq<T>, i: nat)
    requires i < |s|
    ensures s[..i + 1] == s[..i] + [s[i]]
    ensures s[i..] == [s[i]] + s[i + 1..]
    ensures s == s[..i] + [s[i]] + s[i + 1..]
  {
  }

  /** Rotating a list permutes it. */
  lemma RotatePermutes<T>(a: seq<T>, b: seq<T>)
    ensures multiset(b + a) == multiset(a + b)
  {
  }

  /** A suffix is its first element followed by the rest. */
  lemma SuffixCons<T>(s: seq<T>, i: nat)
    requires 0 < i <= |s|
    ensures s[i - 1..] == [s[i - 1]] + s[i..]
  {
  }

  /** Position `m` of `s` lies in the suffix starting at `i`. */
  lemma InSuffix<T>(s: seq<T>, i: nat, m: nat)
    requires i <= m < |s|
    ensures s[m] in s[i..]
  {
    assert s[i..][m - i] == s[m];
  }

  /** Inserts `x` before the first element whose key is not smaller. */
  function InsertSorted<T>(key: T -> int, x: T, s: seq<T>): (r: seq<T>)
    ensures multiset(r) == multiset(s) + multiset{x}
    ensures |r| == |s| + 1
    ensures r[0] == x || (s != [] && r[0] == s[0])
  {
    if s == [] || key(x) <= key(s[0]) then [x] + s
    else
      assert s == [s[0]] + s[1..];
      [s[0]] + InsertSorted(key, x, s[1..])
  }

  /** Inserting into a list in key order keeps it in key order. */
  lemma {:induction false} InsertSortedKeepsOrder<T>(key: T -> int, x: T, s: seq<T>)
    requires SortedBy(key, s)
    ensures SortedBy(key, InsertSorted(key, x, s))
  {
    if s != [] && key(x) > key(s[0]) {
      assert SortedBy(key, s[1..]);
      InsertSortedKeepsOrder(key, x, s[1..]);
      var rest := InsertSorted(key, x, s[1..]);
      var r := InsertSorted(key, x, s);
      assert r == [s[0]] + rest;
      assert key(s[0]) <= key(rest[0]);
      forall a, b | 0 <= a < b < |r|
        ensures key(r[a]) <= key(r[b])
      {
        if a == 0 && b > 1 {
          assert key(rest[0]) <= key(rest[b - 1]);
        }
      }
    }
  }

  /**
   * A stable sort by an integer key, here an insertion sort; each element goes before
   * the later ones with an equal key (see SortByStable).
   */
  function SortBy<T>(key: T -> int, s: seq<T>): (r: seq<T>)
    ensures multiset(r) == multiset(s)
    ensures SortedBy(key, r)
  {
    if s == [] then []
    else
      assert s == [s[0]] + s[1..];
      var t := SortBy(key, s[1..]);
      InsertSortedKeepsOrder(key, s[0], t);
      InsertSorted(key, s[0], t)
  }

  /** Sorting a list that is already in key order leaves it as it is: the sort is stable. */
  lemma {:induction false} SortSorted<T>(key: T -> int, s: seq<T>)
    requires SortedBy(key, s)
    ensures SortBy(key, s) == s
  {
    if s != [] {
      assert SortedBy(key, s[1..]);
      SortSorted(key, s[1..]);
      if |s| > 1 {
        assert key(s[0]) <= key(s[1]);
      }
    }
  }

  /** The elements whose key is `v`. */
  function HasKey<T>(key: T -> int, v: int): T -> bool {
    x => key(x) == v
  }

  /** Inserting `x` puts it ahead of every element with the same key. */
  lemma {:induction false} InsertSortedFilterKey<T>(key: T -> int, x: T, s: seq<T>, v: int)
    ensures Filter(HasKey(key, v), InsertSorted(key, x, s)) ==
              if key(x) == v then [x] + Filter(HasKey(key, v), s) else Filter(HasKey(key, v), s)
  {
    var p := HasKey(key, v);
    if s == [] || key(x) <= key(s[0]) {
      FilterCons(p, x, s);
    } else {
      var rest := InsertSorted(key, x, s[1..]);
      assert InsertSorted(key, x, s) == [s[0]] + rest;
      InsertSortedFilterKey(key, x, s[1..], v);
      FilterCons(p, s[0], rest);
    }
  }

  /**
   * The sort is stable: for every key, the elements with that key appear in the result
   * in the order they had in the input.
   */
  lemma {:induction false} SortByStable<T>(key: T -> int, s: seq<T>, v: int)
    ensures Filter(HasKey(key, v), SortBy(key, s)) == Filter(HasKey(key, v), s)
  {
    if s != [] {
      SortByStable(key, s[1..], v);
      InsertSortedFilterKey(key, s[0], SortBy(key, s[1..]), v);
    }
  }

  /** In a list with distinct elements, the position of `s[m]` is `m`. */
  lemma IndexInDistinct<T>(s: seq<T>, m: nat)
    requires Distinct(s) && m < |s|
    ensures IndexIn(s, s[m]) == m
  {
  }

  /**
   * After one element is taken out and put back at `j`, it sits at `j` and every other
   * element `x` sits at `Shift` of its old position.
   */
  lemma MovedIndex<T>(s: seq<T>, ip: nat, j: nat)
    requires Distinct(s) && ip < |s| && j < |s|
    ensures var r := InsertAt(RemoveAt(s, ip), j, s[ip]);
            && Distinct(r) && multiset(r) == multiset(s) && IndexIn(r, s[ip]) == j
            && forall x :: x in s && x != s[ip] ==>
                 x in r && IndexIn(s, x) != ip && IndexIn(r, x) == Shift(IndexIn(s, x), ip, j)
  {
    var r := InsertAt(RemoveAt(s, ip), j, s[ip]);
    Reinsert(s, ip, j);
    IndexInDistinct(r, j);
    forall x | x in s && x != s[ip]
      ensures x in r && IndexIn(s, x) != ip && IndexIn(r, x) == Shift(IndexIn(s, x), ip, j)
    {
      var a := IndexIn(s, x);
      IndexInDistinct(r, Shift(a, ip, j));
    }
  }

  /** An element that fails the filter contributes nothing, wherever it stands. */
  lemma FilterSkip<T>(p: T -> bool, a: seq<T>, x: T, b: seq<T>)
    requires !p(x)
    ensures Filter(p, a + [x] + b) == Filter(p, a + b)
  {
    assert a + [x] + b == a + ([x] + b);
    FilterConcat(p, a, [x] + b);
    FilterCons(p, x, b);
    FilterConcat(p, a, b);
  }

  /** Taking out an element that fails the filter leaves the filtered list as it was. */
  lemma FilterRemoveAt<T>(p: T -> bool, s: seq<T>, i: nat)
    requires i < |s| && !p(s[i])
    ensures Filter(p, RemoveAt(s, i)) == Filter(p, s)
  {
    var a, b := s[..i], s[i + 1..];
    assert RemoveAt(s, i) == a + b;
    assert s == a + [s[i]] + b;
    FilterSkip(p, a, s[i], b);
  }

  /** Taking out the last element leaves the elements before it. */
  lemma RemoveAtLast<T>(u: seq<T>, x: T)
    ensures RemoveAt(u + [x], |u|) == u
  {
    assert (u + [x])[..|u|] == u;
  }

  /** Inserting at position 0 puts the element in front. */
  lemma InsertAtFront<T>(s: seq<T>, x: T)
    ensures InsertAt(s, 0, x) == [x] + s
  {
    assert s[..0] == [] && s[0..] == s;
  }

  /** Nothing followed by `b` is `b`. */
  lemma EmptyConcat<T>(b: seq<T>)
    ensures [] + b == b
  {
  }

  /** The head and tail of a concatenation with a non-empty first part. */
  lemma TailOfConcat<T>(a: seq<T>, b: seq<T>)
    requires a != []
    ensures (a + b)[0] == a[0] && (a + b)[1..] == a[1..] + b
  {
  }

  /** A list is its prefix followed by the rest. */
  lemma TakeDrop<T>(s: seq<T>, j: nat)
    requires j <= |s|
    ensures s[..j] + s[j..] == s
  {
  }

  /** Inserting an element that fails the filter leaves the filtered list as it was. */
  lemma FilterInsertAt<T>(p: T -> bool, s: seq<T>, j: nat, x: T)
    requires j <= |s| && !p(x)
    ensures Filter(p, InsertAt(s, j, x)) == Filter(p, s)
  {
    FilterSkip(p, s[..j], x, s[j..]);
    TakeDrop(s, j);
  }

  /** Two filters that agree on every element of the list select the same elements. */
  lemma {:induction false} FilterCongruent<T>(p: T -> bool, q: T -> bool, s: seq<T>)
    requires forall k :: 0 <= k < |s| ==> p(s[k]) == q(s[k])
    ensures Filter(p, s) == Filter(q, s)
  {
    if s != [] {
      FilterCongruent(p, q, s[1..]);
    }
  }

  /** Putting an element back where it was taken out gives the original list. */
  lemma MoveInPlace<T>(s: seq<T>, ip: nat)
    requires ip < |s|
    ensures InsertAt(RemoveAt(s, ip), ip, s[ip]) == s
  {
  }

  /** A DOM insert-before on a list of children: `node` taken out and put back before `ref`. */
  function MoveBefore<T(==)>(s: seq<T>, node: T, ref: T): (r: seq<T>)
    requires node in s && ref in s && node != ref
    ensures multiset(r) == multiset(s)
  {
    var t := RemoveAt(s, IndexIn(s, node));
    assert ref in t by {
      var k := IndexIn(s, ref);
      var ip := IndexIn(s, node);
      if k < ip { assert t[k] == ref; } else { assert t[k - 1] == ref; }
    }
    InsertAt(t, IndexIn(t, ref), node)
  }

  /** `node` taken out and put back at the front. */
  function MoveToFront<T(==)>(s: seq<T>, node: T): (r: seq<T>)
    requires node in s
    ensures multiset(r) == multiset(s)
  {
    InsertAt(RemoveAt(s, IndexIn(s, node)), 0, node)
  }

  /** `Shift` keeps the order of the positions it moves. */
  lemma ShiftMonotone(a: nat, b: nat, ip: nat, j: nat)
    requires a != ip && b != ip && a < b
    ensures Shift(a, ip, j) < Shift(b, ip, j)
  {
  }

  /** Where `ref` ends up once `node` is taken out: one place earlier if it stood after `node`. */
  lemma IndexAfterRemove<T>(s: seq<T>, ip: nat, ref: T)
    requires Distinct(s) && ip < |s| && ref in s && ref != s[ip]
    ensures var t := RemoveAt(s, ip);
            ref in t && IndexIn(t, ref) == (if IndexIn(s, ref) < ip then IndexIn(s, ref) else IndexIn(s, ref) - 1)
  {
    var t := RemoveAt(s, ip);
    var k := IndexIn(s, ref);
    assert multiset(t) <= multiset(s);
    PermutationDistinct(t, s);
    if k < ip {
      assert t[k] == ref;
      IndexInDistinct(t, k);
    } else {
      assert t[k - 1] == ref;
      IndexInDistinct(t, k - 1);
    }
  }

  /**
   * Moving `node` before `ref` in a list of distinct elements puts it right before `ref`
   * and keeps every other pair in order.
   */
  lemma MoveBeforeOrder<T>(s: seq<T>, node: T, ref: T)
    requires Distinct(s) && node in s && ref in s && node != ref
    ensures var r := MoveBefore(s, node, ref);
            && Distinct(r) && IndexIn(r, node) + 1 == IndexIn(r, ref)
            && (forall x :: x in s && x != node ==> x in r && IndexIn(s, x) != IndexIn(s, node))
            && (forall x, y :: x in s && y in s && x != node && y != node && IndexIn(s, x) < IndexIn(s, y) ==>
                  IndexIn(r, x) < IndexIn(r, y))
  {
    var ip := IndexIn(s, node);
    IndexAfterRemove(s, ip, ref);
    var j := IndexIn(RemoveAt(s, ip), ref);
    MovedIndex(s, ip, j);
    forall x, y | x in s && y in s && x != node && y != node && IndexIn(s, x) < IndexIn(s, y)
      ensures IndexIn(MoveBefore(s, node, ref), x) < IndexIn(MoveBefore(s, node, ref), y)
    {
      ShiftMonotone(IndexIn(s, x), IndexIn(s, y), ip, j);
    }
  }

  /** Moving `node` to the front keeps every other pair in order. */
  lemma MoveToFrontOrder<T>(s: seq<T>, node: T)
    requires Distinct(s) && node in s
    ensures var r := MoveToFront(s, node);
            && Distinct(r) && IndexIn(r, node) == 0
            && (forall x :: x in s && x != node ==> x in r)
            && (forall x, y :: x in s && y in s && x != node && y != node && IndexIn(s, x) < IndexIn(s, y) ==>
                  IndexIn(r, x) < IndexIn(r, y))
  {
    var ip := IndexIn(s, node);
    MovedIndex(s, ip, 0);
    forall x, y | x in s && y in s && x != node && y != node && IndexIn(s, x) < IndexIn(s, y)
      ensures IndexIn(MoveToFront(s, node), x) < IndexIn(MoveToFront(s, node), y)
    {
      ShiftMonotone(IndexIn(s, x), IndexIn(s, y), ip, 0);
    }
  }

  /** Moving an element that fails the filter does not change the filtered list. */
  lemma FilterMoveBefore<T>(p: T -> bool, s: seq<T>, node: T, ref: T)
    requires node in s && ref in s && node != ref && !p(node)
    ensures Filter(p, MoveBefore(s, node, ref)) == Filter(p, s)
  {
    var ip := IndexIn(s, node);
    var t := RemoveAt(s, ip);
    FilterRemoveAt(p, s, ip);
    FilterInsertAt(p, t, IndexIn(t, ref), node);
  }

  /** Moving an element that fails the filter to the front does not change the filtered list. */
  lemma FilterMoveToFront<T>(p: T -> bool, s: seq<T>, node: T)
    requires node in s && !p(node)
    ensures Filter(p, MoveToFront(s, node)) == Filter(p, s)
  {
    var ip := IndexIn(s, node);
    FilterRemoveAt(p, s, ip);
    FilterInsertAt(p, RemoveAt(s, ip), 0, node);
  }

  /** Moving the last element before the first puts it at the front. */
  lemma MoveLastBeforeFirst<T>(a: seq<T>, b: seq<T>, x: T)
    requires a != [] && Distinct(a + b + [x])
    ensures x in a + b + [x] && a[0] in a + b + [x] && x != a[0]
    ensures MoveBefore(a + b + [x], x, a[0]) == [x] + a + b
  {
    var cur := a + b + [x];
    assert cur[|cur| - 1] == x && cur[0] == a[0];
    IndexInDistinct(cur, |cur| - 1);
    RemoveAtLast(a + b, x);
    assert IndexIn(a + b, a[0]) == 0;
    InsertAtFront(a + b, x);
    ConcatAssoc([x], a, b);
  }

  /** The filter `q` that also drops `x`. */
  function Without<T(==)>(q: T -> bool, x: T): T -> bool {
    y => q(y) && y != x
  }

  /** The filter that keeps what is not in `d`. */
  function NotIn<T(==)>(d: seq<T>): T -> bool {
    y => y !in d
  }

  /** The list without the first occurrence of `x`. */
  function RemoveFirst<T(==)>(s: seq<T>, x: T): (r: seq<T>)
    requires x in s
    ensures multiset(r) + multiset{x} == multiset(s)
  {
    assert s == [s[0]] + s[1..];
    if s[0] == x then s[1..] else [s[0]] + RemoveFirst(s[1..], x)
  }

  /** Splicing out the first position of `x` is removing the first `x`. */
  lemma {:induction false} RemoveAtIndexIn<T>(s: seq<T>, x: T)
    requires x in s
    ensures RemoveAt(s, IndexIn(s, x)) == RemoveFirst(s, x)
  {
    if s[0] != x {
      var j := IndexIn(s[1..], x);
      assert IndexIn(s, x) == 1 + j;
      assert RemoveFirst(s, x) == [s[0]] + RemoveFirst(s[1..], x);
      RemoveAtIndexIn(s[1..], x);
      RemoveAtCons(s, 1 + j);
    } else {
      assert RemoveAt(s, 0) == s[1..];
    }
  }

  /** Moving `x` to the front is putting it before the list without it. */
  lemma MoveToFrontRemoveFirst<T>(s: seq<T>, x: T)
    requires x in s
    ensures MoveToFront(s, x) == [x] + RemoveFirst(s, x)
  {
    RemoveAtIndexIn(s, x);
    var t := RemoveAt(s, IndexIn(s, x));
    assert InsertAt(t, 0, x) == [x] + t;
  }

  /** Removing an `x` that only the second part holds leaves the first part alone. */
  lemma {:induction false} RemoveFirstFromBack<T>(a: seq<T>, b: seq<T>, x: T)
    requires x !in a && x in b
    ensures x in a + b && RemoveFirst(a + b, x) == a + RemoveFirst(b, x)
  {
    if a != [] {
      TailOfConcat(a, b);
      RemoveFirstFromBack(a[1..], b, x);
    } else {
      assert a + b == b;
    }
  }

  /** In a list with distinct elements, removing `x` from a filtered list filters it out. */
  lemma {:induction false} FilterRemoveOne<T>(q: T -> bool, s: seq<T>, x: T)
    requires Distinct(s) && x in s && q(x)
    ensures x in Filter(q, s)
    ensures RemoveFirst(Filter(q, s), x) == Filter(Without(q, x), s)
  {
    assert s == [s[0]] + s[1..];
    assert Distinct(s[1..]);
    if s[0] == x {
      assert x !in s[1..];
      FilterCongruent(q, Without(q, x), s[1..]);
    } else {
      FilterRemoveOne(q, s[1..], x);
    }
  }

  /** Moves `order[|order| - 1]`, then the one before, down to `order[i]`, to the front. */
  function MoveAllToFront<T(==)>(s: seq<T>, order: seq<T>, i: nat): (r: seq<T>)
    requires i <= |order|
    requires forall m :: 0 <= m < |order| ==> order[m] in s
    ensures multiset(r) == multiset(s)
    decreases |order| - i
  {
    if i == |order| then s
    else
      var cur := MoveAllToFront(s, order, i + 1);
      assert order[i] in multiset(cur);
      MoveToFront(cur, order[i])
  }

  /** The moved elements lead in their given order, the rest follow in theirs. */
  lemma {:induction false} MoveAllToFrontShape<T>(s: seq<T>, order: seq<T>, i: nat)
    requires Distinct(s) && Distinct(order) && i <= |order|
    requires forall m :: 0 <= m < |order| ==> order[m] in s
    ensures MoveAllToFront(s, order, i) == order[i..] + Filter(NotIn(order[i..]), s)
    decreases |order| - i
  {
    if i == |order| {
      FilterKeepsAll(NotIn(order[i..]), s);
    } else {
      var d := order[i + 1..];
      assert order[i..] == [order[i]] + d;
      MoveAllToFrontShape(s, order, i + 1);
      MoveAllToFrontStep(s, order[i], d);
    }
  }

  /** One move of `MoveAllToFrontShape`: `p` joins the leading elements `d`. */
  lemma MoveAllToFrontStep<T>(s: seq<T>, p: T, d: seq<T>)
    requires Distinct(s) && p in s && p !in d
    ensures p in d + Filter(NotIn(d), s)
    ensures MoveToFront(d + Filter(NotIn(d), s), p) == [p] + d + Filter(NotIn([p] + d), s)
  {
    var rest := Filter(NotIn(d), s);
    assert p in rest by { assert s[IndexIn(s, p)] == p; }
    var x := Filter(Without(NotIn(d), p), s);
    assert p in d + rest;
    var y := RemoveFirst(rest, p);
    assert y == x by { FilterRemoveOne(NotIn(d), s, p); }
    assert RemoveFirst(d + rest, p) == d + y by { RemoveFirstFromBack(d, rest, p); }
    assert MoveToFront(d + rest, p) == [p] + (d + y) by { MoveToFrontRemoveFirst(d + rest, p); }
    NotInCons(s, p, d);
    ConcatAssoc([p], d, x);
  }

  lemma ConcatAssoc<T>(a: seq<T>, b: seq<T>, c: seq<T>)
    ensures a + (b + c) == a + b + c
  {
  }

  /** Dropping `p` and what is in `d` is dropping what is in `[p] + d`. */
  lemma NotInCons<T>(s: seq<T>, p: T, d: seq<T>)
    ensures Filter(Without(NotIn(d), p), s) == Filter(NotIn([p] + d), s)
  {
    forall k | 0 <= k < |s| ensures Without(NotIn(d), p)(s[k]) == NotIn([p] + d)(s[k]) {
      assert s[k] in [p] + d <==> s[k] == p || s[k] in d;
    }
    FilterCongruent(Without(NotIn(d), p), NotIn([p] + d), s);
  }

  /** `MoveBefore` on distinct elements, by the positions of `node` and `ref`. */
  lemma MoveBeforeAt<T>(s: seq<T>, ip: nat, k: nat)
    requires Distinct(s) && ip < |s| && k < |s| && ip != k
    ensures s[ip] in s && s[k] in s && s[ip] != s[k]
    ensures MoveBefore(s, s[ip], s[k]) == InsertAt(RemoveAt(s, ip), if k < ip then k else k - 1, s[ip])
  {
    IndexInDistinct(s, ip);
    IndexAfterRemove(s, ip, s[k]);
    IndexInDistinct(s, k);
  }

  /** One step of `Filter` on a list with a known head. */
  lemma FilterCons<T>(p: T -> bool, x: T, s: seq<T>)
    ensures Filter(p, [x] + s) == if p(x) then [x] + Filter(p, s) else Filter(p, s)
  {
    assert ([x] + s)[1..] == s;
  }

  /** `x` as a one-element list when it passes `p`, else nothing. */
  function Keep<T>(p: T -> bool, x: T): (r: seq<T>)
    ensures r == Filter(p, [x])
  {
    if p(x) then [x] else []
  }

  /** A five-element list as nested one-element concatenations. */
  lemma Cons5<T>(a: T, b: T, c: T, d: T, e: T)
    ensures [a, b, c, d, e] == [a] + ([b] + ([c] + ([d] + [e])))
  {
  }

  /** `Filter` on a five-element list, element by element. */
  lemma Filter5<T>(p: T -> bool, a: T, b: T, c: T, d: T, e: T)
    ensures Filter(p, [a, b, c, d, e]) == Keep(p, a) + (Keep(p, b) + (Keep(p, c) + (Keep(p, d) + Keep(p, e))))
  {
    Cons5(a, b, c, d, e);
    FilterConcat(p, [a], [b] + ([c] + ([d] + [e])));
    FilterConcat(p, [b], [c] + ([d] + [e]));
    FilterConcat(p, [c], [d] + [e]);
    FilterConcat(p, [d], [e]);
  }

  /** Removing the element just after a prefix `u`. */
  lemma RemoveAtSplit<T>(u: seq<T>, x: T, rest: seq<T>)
    ensures |u| < |u + [x] + rest|
    ensures RemoveAt(u + [x] + rest, |u|) == u + rest
  {
    var s := u + [x] + rest;
    assert s[..|u|] == u;
    assert s[|u| + 1..] == rest;
  }

  /** Inserting just after a prefix `u`. */
  lemma InsertAtSplit<T>(u: seq<T>, x: T, rest: seq<T>)
    ensures InsertAt(u + rest, |u|, x) == u + [x] + rest
  {
    var s := u + rest;
    assert s[..|u|] == u;
    assert s[|u|..] == rest;
  }

  /** Moving `x` back before `r` when `x` comes earlier: `x` lands just before `r`. */
  lemma MoveBeforeForward<T>(u: seq<T>, x: T, v: seq<T>, r: T, w: seq<T>)
    requires Distinct(u + [x] + v + [r] + w)
    ensures x in u + [x] + v + [r] + w && r in u + [x] + v + [r] + w && x != r
    ensures MoveBefore(u + [x] + v + [r] + w, x, r) == u + v + [x] + [r] + w
  {
    var s := u + [x] + v + [r] + w;
    var ip, k := |u|, |u| + 1 + |v|;
    assert s[ip] == x && s[k] == r;
    MoveBeforeAt(s, ip, k);
    var rest := v + [r] + w;
    assert s == u + [x] + rest by {
      ConcatAssoc(u + [x], v + [r], w);
      ConcatAssoc(u + [x], v, [r]);
    }
    RemoveAtSplit(u, x, rest);
    assert u + rest == (u + v) + ([r] + w) by {
      ConcatAssoc(u, v + [r], w);
      ConcatAssoc(u, v, [r]);
      ConcatAssoc(u + v, [r], w);
    }
    InsertAtSplit(u + v, x, [r] + w);
    ConcatAssoc(u + v + [x], [r], w);
  }

  /** Moving `x` forward before `r` when `r` comes earlier: `x` lands just before `r`. */
  lemma MoveBeforeBackward<T>(u: seq<T>, r: T, v: seq<T>, x: T, w: seq<T>)
    requires Distinct(u + [r] + v + [x] + w)
    ensures x in u + [r] + v + [x] + w && r in u + [r] + v + [x] + w && x != r
    ensures MoveBefore(u + [r] + v + [x] + w, x, r) == u + [x] + [r] + v + w
  {
    var s := u + [r] + v + [x] + w;
    var k, ip := |u|, |u| + 1 + |v|;
    assert s[ip] == x && s[k] == r;
    MoveBeforeAt(s, ip, k);
    var pre := u + [r] + v;
    assert s == pre + [x] + w;
    RemoveAtSplit(pre, x, w);
    assert |pre| == ip;
    assert RemoveAt(s, ip) == pre + w;
    assert pre + w == u + ([r] + v + w) by {
      ConcatAssoc(u, [r] + v, w);
      ConcatAssoc(u, [r], v);
    }
    InsertAtSplit(u, x, [r] + v + w);
    assert u + [x] + ([r] + v + w) == u + [x] + [r] + v + w by {
      ConcatAssoc(u + [x], [r] + v, w);
      ConcatAssoc(u + [x], [r], v);
    }
  }

  /** Two elements with different keys sort into key order from either order. */
  lemma SortPair<T>(key: T -> int, x: T, y: T)
    requires key(x) < key(y)
    ensures SortBy(key, [x, y]) == [x, y]
    ensures SortBy(key, [y, x]) == [x, y]
  {
    assert [x, y][1..] == [y] && [y, x][1..] == [x];
    assert [y][1..] == [] && [x][1..] == [];
    assert SortBy(key, [y]) == [y] && SortBy(key, [x]) == [x];
    assert InsertSorted(key, y, []) == [y];
    assert InsertSorted(key, x, []) == [x];
    assert InsertSorted(key, y, [x]) == [x] + [y];
  }

  /** A DOM append of a node already in `s`: take it out, put it last. */
  function MoveToBack<T(==)>(s: seq<T>, node: T): (r: seq<T>)
    requires node in s
    ensures multiset(r) == multiset(s)
  {
    RemoveAt(s, IndexIn(s, node)) + [node]
  }

  /** `y` directly follows `x` somewhere in `s`. */
  predicate Adjacent<T(==)>(s: seq<T>, x: T, y: T) {
    exists j :: 0 <= j < |s| - 1 && s[j] == x && s[j + 1] == y
  }

  /** Moving `node` before the successor of `s[k]` puts it directly after `s[k]`. */
  lemma MoveBeforeSuccessor<T>(s: seq<T>, node: T, k: nat)
    requires Distinct(s) && node in s && k + 1 < |s| && s[k] != node && s[k + 1] != node
    ensures s[k + 1] in s
    ensures Adjacent(MoveBefore(s, node, s[k + 1]), s[k], node)
  {
    var ip := IndexIn(s, node);
    MoveBeforeAt(s, ip, k + 1);
    var t := RemoveAt(s, ip);
    var r := MoveBefore(s, node, s[k + 1]);
    if k + 1 < ip {
      assert r == InsertAt(t, k + 1, node);
      assert r[k] == t[k] == s[k];
      assert r[k + 1] == node;
    } else {
      assert k > ip;
      assert r == InsertAt(t, k, node);
      assert r[k - 1] == t[k - 1] == s[k];
      assert r[k] == node;
    }
  }

  /** Moving `node` to the back puts it directly after the old last element. */
  lemma MoveToBackAfterLast<T>(s: seq<T>, node: T)
    requires Distinct(s) && node in s && s[|s| - 1] != node
    ensures Adjacent(MoveToBack(s, node), s[|s| - 1], node)
  {
    var ip := IndexIn(s, node);
    var t := RemoveAt(s, ip);
    assert t[|t| - 1] == s[|s| - 1];
    var r := MoveToBack(s, node);
    assert r[|t| - 1] == s[|s| - 1] && r[|t|] == node;
  }

  /** Moving an element that fails the filter to the back does not change the filtered list. */
  lemma FilterMoveToBack<T>(p: T -> bool, s: seq<T>, node: T)
    requires node in s && !p(node)
    ensures Filter(p, MoveToBack(s, node)) == Filter(p, s)
  {
    var ip := IndexIn(s, node);
    var t := RemoveAt(s, ip);
    FilterRemoveAt(p, s, ip);
    FilterConcat(p, t, [node]);
    assert Keep(p, node) == [];
  }

  /** In a list in key order, no element has a larger key than the last one. */
  lemma SortedLastIsMax<T>(key: T -> int, s: seq<T>, x: T)
    requires SortedBy(key, s) && x in s
    ensures key(x) <= key(s[|s| - 1])
  {
    var m :| 0 <= m < |s| && s[m] == x;
    if m < |s| - 1 {
      assert key(s[m]) <= key(s[|s| - 1]);
    }
  }
}
