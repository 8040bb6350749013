/**
 * The two library calls the group analysis is built on: Python's
 * `sorted(numbers)` and `itertools.combinations(sorted_numbers, g)`, with
 * the facts about them the counting relies on.
 */
module Combinatorics {

  /** A group of winning numbers: a tuple as Python builds it. */
  type Group = seq<int>

  predicate Sorted(s: seq<int>) {
    forall i, j :: 0 <= i < j < |s| ==> s[i] <= s[j]
  }

  predicate StrictlySorted(s: seq<int>) {
    forall i, j :: 0 <= i < j < |s| ==> s[i] < s[j]
  }

  /** No number occurs twice. */
  predicate NoDuplicates(s: seq<int>) {
    forall i, j :: 0 <= i < j < |s| ==> s[i] != s[j]
  }

  /** `x` inserted into a sorted sequence at its place. */
  function InsertSorted(x: int, s: seq<int>): (r: seq<int>)
    requires Sorted(s)
    ensures Sorted(r) && multiset(r) == multiset(s) + multiset{x}
  {
    if s == [] || x <= s[0] then
      InsertFront(x, s);
      [x] + s
    else
      var t := InsertSorted(x, s[1..]);
      InsertBehind(x, s, t);
      [s[0]] + t
  }

  /** `x` at the front of the sorted `s` when it is no larger than its head. */
  lemma InsertFront(x: int, s: seq<int>)
    requires Sorted(s) && (s == [] || x <= s[0])
    ensures Sorted([x] + s) && multiset([x] + s) == multiset(s) + multiset{x}
  {
    forall j | 0 <= j < |s| ensures x <= s[j] {
      assert s[0] <= s[j];
    }
    ConsSortedLemma(x, s);
  }

  /** The head of `s` in front of `x` inserted into the rest, when `x` is larger than that head. */
  lemma InsertBehind(x: int, s: seq<int>, t: seq<int>)
    requires Sorted(s) && s != [] && s[0] < x
    requires Sorted(t) && multiset(t) == multiset(s[1..]) + multiset{x}
    ensures Sorted([s[0]] + t) && multiset([s[0]] + t) == multiset(s) + multiset{x}
  {
    assert s == [s[0]] + s[1..];
    forall j | 0 <= j < |t| ensures s[0] <= t[j] {
      assert t[j] in multiset(t);
      if t[j] != x {
        assert t[j] in multiset(s[1..]);
        var m :| 0 <= m < |s[1..]| && s[1..][m] == t[j];
        assert s[m + 1] == t[j];
      }
    }
    ConsSortedLemma(s[0], t);
  }

  /** Python's `sorted(numbers)`: ascending, and a permutation of the input. */
  function SortInts(s: seq<int>): (r: seq<int>)
    ensures Sorted(r) && multiset(r) == multiset(s)
  {
    if s == [] then []
    else
      assert s == [s[0]] + s[1..];
      InsertSorted(s[0], SortInts(s[1..]))
  }

  lemma SortedHeadIsLeast(a: seq<int>, x: int)
    requires Sorted(a) && x in multiset(a)
    ensures a[0] <= x
  {
    var i :| 0 <= i < |a| && a[i] == x;
  }

  lemma SortedTail(a: seq<int>)
    requires Sorted(a) && a != []
    ensures Sorted(a[1..])
  {
    forall i, j | 0 <= i < j < |a| - 1 ensures a[1..][i] <= a[1..][j] {
      assert a[1..][i] == a[i + 1] && a[1..][j] == a[j + 1];
    }
  }

  /** Two ascending sequences with the same elements are the same sequence. */
  lemma {:induction false} SortedUnique(a: seq<int>, b: seq<int>)
    requires Sorted(a) && Sorted(b) && multiset(a) == multiset(b)
    ensures a == b
  {
    if a != [] {
      assert a[0] in multiset(a);
      assert b != [];
      assert b[0] in multiset(b);
      SortedHeadIsLeast(b, a[0]);
      SortedHeadIsLeast(a, b[0]);
      assert a[0] == b[0];
      assert a == [a[0]] + a[1..] && b == [b[0]] + b[1..];
      assert multiset(a) == multiset{a[0]} + multiset(a[1..]);
      assert multiset(b) == multiset{b[0]} + multiset(b[1..]);
      SortedTail(a);
      SortedTail(b);
      assert multiset(a[1..]) == multiset(a) - multiset{a[0]};
      assert multiset(b[1..]) == multiset(b) - multiset{b[0]};
      SortedUnique(a[1..], b[1..]);
    }
  }

  /** `sorted` sends two draws to the same tuple exactly when they hold the same numbers. */
  lemma {:induction false} SortIntsKey(p: seq<int>, q: seq<int>)
    ensures SortInts(p) == SortInts(q) <==> multiset(p) == multiset(q)
  {
    if multiset(p) == multiset(q) {
      SortedUnique(SortInts(p), SortInts(q));
    }
  }

  lemma {:induction false} NoDuplicatesCount(s: seq<int>, x: int)
    requires NoDuplicates(s)
    ensures multiset(s)[x] == if x in s then 1 else 0
  {
    if s != [] {
      assert s == [s[0]] + s[1..];
      assert s[0] !in s[1..];
      NoDuplicatesCount(s[1..], x);
    }
  }

  /** A non-empty sequence holds its first element and the elements after it. */
  lemma MultisetFirst<T>(s: seq<T>)
    requires s != []
    ensures multiset(s) == multiset{s[0]} + multiset(s[1..])
  {
    assert s == [s[0]] + s[1..];
  }

  /** An element found at two positions occurs at least twice. */
  lemma CountTwo<T>(s: seq<T>, i: int, j: int)
    requires 0 <= i < j < |s| && s[i] == s[j]
    ensures multiset(s)[s[i]] >= 2
  {
    assert s == s[..j] + s[j..];
    assert s[i] in s[..j] && s[j] in s[j..];
  }

  /** Freedom from duplicates depends only on the multiset of numbers. */
  lemma NoDuplicatesPermutation(a: seq<int>, b: seq<int>)
    requires multiset(a) == multiset(b) && NoDuplicates(b)
    ensures NoDuplicates(a)
  {
    forall i, j | 0 <= i < j < |a| ensures a[i] != a[j] {
      if a[i] == a[j] {
        CountTwo(a, i, j);
        NoDuplicatesCount(b, a[i]);
        assert false;
      }
    }
  }

  /** Sorting a duplicate-free draw gives a strictly ascending tuple of the same numbers. */
  lemma {:induction false} SortDistinct(s: seq<int>)
    requires NoDuplicates(s)
    ensures StrictlySorted(SortInts(s))
    ensures forall x :: x in SortInts(s) <==> x in s
  {
    var r := SortInts(s);
    NoDuplicatesPermutation(r, s);
    assert forall x :: x in r <==> x in multiset(r);
  }

  /** The binomial coefficient C(n, k), by Pascal's rule. */
  function Binom(n: nat, k: nat): nat {
    if k == 0 then 1
    else if n == 0 then 0
    else Binom(n - 1, k - 1) + Binom(n - 1, k)
  }

  lemma {:induction false} BinomTooLarge(n: nat, k: nat)
    requires k > n
    ensures Binom(n, k) == 0
  {
    if n > 0 {
      BinomTooLarge(n - 1, k - 1);
      BinomTooLarge(n - 1, k);
    }
  }

  /** `[x] + c` for each `c` of `cs`, in order. */
  function Prepend(x: int, cs: seq<Group>): seq<Group>
  {
    seq(|cs|, i requires 0 <= i < |cs| => [x] + cs[i])
  }

  /**
   * `itertools.combinations(s, k)`: the k-element selections of `s` by
   * position, in lexicographic order of positions. With `k` larger than
   * `|s|` there are none; with `k == 0` there is the empty tuple.
   */
  function Combos(s: seq<int>, k: nat): seq<Group>
    decreases |s|
  {
    if k == 0 then [[]]
    else if s == [] then []
    else Prepend(s[0], Combos(s[1..], k - 1)) + Combos(s[1..], k)
  }

  /** A sequence of length n has C(n, k) k-combinations. */
  lemma {:induction false} CombosCount(s: seq<int>, k: nat)
    ensures |Combos(s, k)| == Binom(|s|, k)
    decreases |s|
  {
    if k > 0 && s != [] {
      CombosCount(s[1..], k - 1);
      CombosCount(s[1..], k);
    }
  }

  /**
   * A combination of `k > 0` numbers of `s` either starts with `s[0]`,
   * followed by a combination of the rest, or is a combination of the rest.
   */
  lemma CombosSplit(s: seq<int>, k: nat, c: Group) returns (first: bool, t: Group)
    requires k > 0 && c in Combos(s, k)
    ensures s != []
    ensures first ==> t in Combos(s[1..], k - 1) && c == [s[0]] + t
    ensures !first ==> c in Combos(s[1..], k)
  {
    var p := Prepend(s[0], Combos(s[1..], k - 1));
    first := c in p;
    if first {
      var i :| 0 <= i < |p| && p[i] == c;
      t := Combos(s[1..], k - 1)[i];
    } else {
      t := c;
    }
  }

  /** Every combination has k numbers and is a sub-multiset of `s`. */
  lemma {:induction false} CombosShape(s: seq<int>, k: nat, c: Group)
    requires c in Combos(s, k)
    ensures |c| == k
    ensures multiset(c) <= multiset(s)
    decreases |s|
  {
    if k > 0 {
      var first, t := CombosSplit(s, k, c);
      assert s == [s[0]] + s[1..];
      assert multiset(s) == multiset{s[0]} + multiset(s[1..]);
      if first {
        CombosShape(s[1..], k - 1, t);
        assert multiset(c) == multiset{s[0]} + multiset(t);
      } else {
        CombosShape(s[1..], k, c);
      }
    }
  }

  lemma ConsSortedLemma(x: int, t: seq<int>)
    requires Sorted(t) && forall j :: 0 <= j < |t| ==> x <= t[j]
    ensures Sorted([x] + t)
  {
    var c := [x] + t;
    forall i, j | 0 <= i < j < |c| ensures c[i] <= c[j] {
      assert c[j] == t[j - 1];
      if i > 0 { assert c[i] == t[i - 1]; }
    }
  }

  lemma ConsStrictLemma(x: int, t: seq<int>)
    requires StrictlySorted(t) && forall j :: 0 <= j < |t| ==> x < t[j]
    ensures StrictlySorted([x] + t)
  {
    var c := [x] + t;
    forall i, j | 0 <= i < j < |c| ensures c[i] < c[j] {
      assert c[j] == t[j - 1];
      if i > 0 { assert c[i] == t[i - 1]; }
    }
  }

  /** Every number of a combination drawn from `s` is a number of `s`. */
  lemma {:induction false} CombosElements(s: seq<int>, k: nat, c: Group)
    requires c in Combos(s, k)
    ensures forall x :: x in c ==> x in s
  {
    CombosShape(s, k, c);
    forall x | x in c ensures x in s {
      assert x in multiset(c);
    }
  }

  /** The first number of an ascending `s` is at most every number drawn from the rest. */
  lemma HeadBelowTail(s: seq<int>, t: seq<int>)
    requires Sorted(s) && s != [] && forall x :: x in t ==> x in s[1..]
    ensures forall j :: 0 <= j < |t| ==> s[0] <= t[j]
  {
    forall j | 0 <= j < |t| ensures s[0] <= t[j] {
      assert t[j] in t;
      var m :| 0 <= m < |s[1..]| && s[1..][m] == t[j];
      assert s[m + 1] == t[j];
    }
  }

  /** The first number of a strictly ascending `s` is below every number drawn from the rest. */
  lemma HeadBelowTailStrict(s: seq<int>, t: seq<int>)
    requires StrictlySorted(s) && s != [] && forall x :: x in t ==> x in s[1..]
    ensures forall j :: 0 <= j < |t| ==> s[0] < t[j]
  {
    forall j | 0 <= j < |t| ensures s[0] < t[j] {
      assert t[j] in t;
      var m :| 0 <= m < |s[1..]| && s[1..][m] == t[j];
      assert s[m + 1] == t[j];
    }
  }

  lemma StrictTail(a: seq<int>)
    requires StrictlySorted(a) && a != []
    ensures StrictlySorted(a[1..])
  {
    forall i, j | 0 <= i < j < |a| - 1 ensures a[1..][i] < a[1..][j] {
      assert a[1..][i] == a[i + 1] && a[1..][j] == a[j + 1];
    }
  }

  /** Taken from an ascending `s`, every combination is ascending. */
  lemma {:induction false} CombosSorted(s: seq<int>, k: nat, c: Group)
    requires Sorted(s) && c in Combos(s, k)
    ensures Sorted(c)
    decreases |s|
  {
    if k > 0 {
      var first, t := CombosSplit(s, k, c);
      SortedTail(s);
      if first {
        CombosSorted(s[1..], k - 1, t);
        CombosElements(s[1..], k - 1, t);
        HeadBelowTail(s, t);
        ConsSortedLemma(s[0], t);
      } else {
        CombosSorted(s[1..], k, c);
      }
    }
  }

  /** Taken from a strictly ascending `s`, every combination is strictly ascending. */
  lemma {:induction false} CombosStrict(s: seq<int>, k: nat, c: Group)
    requires StrictlySorted(s) && c in Combos(s, k)
    ensures StrictlySorted(c)
    decreases |s|
  {
    if k > 0 {
      var first, t := CombosSplit(s, k, c);
      StrictTail(s);
      if first {
        CombosStrict(s[1..], k - 1, t);
        CombosElements(s[1..], k - 1, t);
        HeadBelowTailStrict(s, t);
        ConsStrictLemma(s[0], t);
      } else {
        CombosStrict(s[1..], k, c);
      }
    }
  }

  /** Every combination is ascending and made of numbers of `s`. */
  lemma {:induction false} CombosSubset(s: seq<int>, k: nat, c: Group)
    requires c in Combos(s, k)
    ensures Sorted(s) ==> Sorted(c)
    ensures forall x :: x in c ==> x in s
  {
    if Sorted(s) { CombosSorted(s, k, c); }
    CombosElements(s, k, c);
  }

  /**
   * A strictly ascending k-tuple of numbers of a strictly ascending `s` is
   * one of its k-combinations.
   */
  lemma {:induction false} CombosComplete(s: seq<int>, k: nat, c: Group)
    requires StrictlySorted(s)
    requires |c| == k && StrictlySorted(c) && forall x :: x in c ==> x in s
    ensures c in Combos(s, k)
    decreases |s|
  {
    if k > 0 {
      assert c[0] in c;
      assert s != [];
      assert s == [s[0]] + s[1..];
      var t := c[1..];
      assert c == [c[0]] + t;
      if c[0] == s[0] {
        forall x | x in t ensures x in s[1..] {
          assert x in c && x > c[0];
        }
        CombosComplete(s[1..], k - 1, t);
        var cs := Combos(s[1..], k - 1);
        var i :| 0 <= i < |cs| && cs[i] == t;
        assert Prepend(s[0], cs)[i] == c;
      } else {
        forall x | x in c ensures x in s[1..] {
          assert x in s && x >= c[0];
          var m :| 0 <= m < |s| && s[m] == c[0];
        }
        CombosComplete(s[1..], k, c);
      }
    }
  }

  /**
   * From a strictly ascending `s`, the k-combinations are exactly the
   * strictly ascending k-tuples of numbers of `s`.
   */
  lemma {:induction false} CombosMembership(s: seq<int>, k: nat, c: Group)
    requires StrictlySorted(s)
    ensures c in Combos(s, k) <==>
      |c| == k && StrictlySorted(c) && forall x :: x in c ==> x in s
  {
    if c in Combos(s, k) {
      CombosShape(s, k, c);
      CombosStrict(s, k, c);
      CombosElements(s, k, c);
    } else if |c| == k && StrictlySorted(c) && forall x :: x in c ==> x in s {
      CombosComplete(s, k, c);
    }
  }

  /** No group is listed twice. */
  predicate DistinctGroups(cs: seq<Group>) {
    forall i, j :: 0 <= i < j < |cs| ==> cs[i] != cs[j]
  }

  lemma {:induction false} CombosDistinct(s: seq<int>, k: nat)
    requires StrictlySorted(s)
    ensures DistinctGroups(Combos(s, k))
    decreases |s|
  {
    if k > 0 && s != [] {
      var a := Combos(s[1..], k - 1);
      var b := Combos(s[1..], k);
      CombosDistinct(s[1..], k - 1);
      CombosDistinct(s[1..], k);
      var p := Prepend(s[0], a);
      forall i, j | 0 <= i < j < |p| ensures p[i] != p[j] {
        assert p[i][1..] == a[i] && p[j][1..] == a[j];
      }
      forall c | c in b ensures c !in p {
        CombosSubset(s[1..], k, c);
        CombosShape(s[1..], k, c);
        assert c[0] in c;
        assert c[0] in s[1..];
        assert c[0] != s[0];
        forall i | 0 <= i < |p| ensures p[i] != c {
          assert p[i][0] == s[0];
        }
      }
      var r := p + b;
      forall i, j | 0 <= i < j < |r| ensures r[i] != r[j] {
        if i < |p| && j >= |p| {
          assert r[j] in b;
        }
      }
    }
  }

  lemma {:induction false} DistinctGroupsCount(cs: seq<Group>, c: Group)
    requires DistinctGroups(cs)
    ensures multiset(cs)[c] == if c in cs then 1 else 0
  {
    if cs != [] {
      assert cs == [cs[0]] + cs[1..];
      assert cs[0] !in cs[1..];
      DistinctGroupsCount(cs[1..], c);
    }
  }

  /**
   * Taken from the sorted numbers of a duplicate-free draw, a group occurs
   * once if it is a strictly ascending k-tuple of the draw's numbers, and
   * not at all otherwise.
   */
  lemma {:induction false} DrawGroupCount(numbers: seq<int>, k: nat, c: Group)
    requires NoDuplicates(numbers)
    ensures multiset(Combos(SortInts(numbers), k))[c] ==
      if |c| == k && StrictlySorted(c) && (forall x :: x in c ==> x in numbers) then 1 else 0
  {
    var s := SortInts(numbers);
    SortDistinct(numbers);
    CombosDistinct(s, k);
    DistinctGroupsCount(Combos(s, k), c);
    CombosMembership(s, k, c);
  }

  /** Choosing all the numbers gives the whole tuple, once. */
  lemma {:induction false} CombosAll(s: seq<int>)
    ensures Combos(s, |s|) == [s]
    decreases |s|
  {
    if s != [] {
      CombosAll(s[1..]);
      BinomTooLarge(|s| - 1, |s|);
      CombosCount(s[1..], |s|);
      assert [s[0]] + s[1..] == s;
      assert Prepend(s[0], [s[1..]]) == [s];
    }
  }

  /** Choosing one number gives each number of `s` as a one-tuple, in order. */
  lemma {:induction false} CombosSingles(s: seq<int>)
    ensures Combos(s, 1) == seq(|s|, i requires 0 <= i < |s| => [s[i]])
    decreases |s|
  {
    if s != [] {
      CombosSingles(s[1..]);
      assert Combos(s[1..], 0) == [[]];
      assert [s[0]] + [] == [s[0]];
      assert Prepend(s[0], [[]]) == [[s[0]]];
    }
  }

  /** Lexicographic order on tuples, as Python compares them. */
  predicate LexLe(a: Group, b: Group)
    decreases |a|
  {
    a == [] || (b != [] && (a[0] < b[0] || (a[0] == b[0] && LexLe(a[1..], b[1..]))))
  }

  lemma {:induction false} LexLeTotal(a: Group, b: Group)
    ensures LexLe(a, b) || LexLe(b, a)
    decreases |a|
  {
    if a != [] && b != [] && a[0] == b[0] {
      LexLeTotal(a[1..], b[1..]);
    }
  }

  lemma {:induction false} LexLeAntisymmetric(a: Group, b: Group)
    requires LexLe(a, b) && LexLe(b, a)
    ensures a == b
    decreases |a|
  {
    if a != [] {
      LexLeAntisymmetric(a[1..], b[1..]);
      assert a == [a[0]] + a[1..] && b == [b[0]] + b[1..];
    }
  }

  lemma {:induction false} LexLeTransitive(a: Group, b: Group, c: Group)
    requires LexLe(a, b) && LexLe(b, c)
    ensures LexLe(a, c)
    decreases |a|
  {
    if a != [] && a[0] == b[0] && b[0] == c[0] {
      LexLeTransitive(a[1..], b[1..], c[1..]);
    }
  }

  /** On one-tuples the order is the order of the numbers. */
  lemma LexLeSingles(x: int, y: int)
    ensures LexLe([x], [y]) <==> x <= y
  {
    assert [x][1..] == [];
  }
}
