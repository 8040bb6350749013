/**
 * `Series.value_counts()` followed by `head(n)`, as the three analysis
 * commands use them: a count per distinct group, ranked by count, cut to
 * the first rows.
 *
 * `value_counts` sorts by count, highest first, and leaves the order of
 * equal counts unspecified. This model settles ties by ascending group,
 * compared as Python compares tuples. That tie order is a choice of the
 * model, not a promise of the code.
 */
module Ranking {
  import opened Combinatorics

  /** One row of a counts table: a group and its number of occurrences. */
  datatype Row = Row(key: Group, count: nat)

  /** The group column of a table. */
  function Keys(rows: seq<Row>): seq<Group>
  {
    seq(|rows|, i requires 0 <= i < |rows| => rows[i].key)
  }

  /** No group has two rows. */
  predicate DistinctKeys(rows: seq<Row>) {
    forall i, j :: 0 <= i < j < |rows| ==> rows[i].key != rows[j].key
  }

  /** The sum of the counts of a table. */
  function Total(rows: seq<Row>): nat {
    if rows == [] then 0 else rows[0].count + Total(rows[1..])
  }

  /** One more occurrence of `k`: its row's count goes up, or a new row `(k, 1)` is added last. */
  function Bump(rows: seq<Row>, k: Group): (r: seq<Row>)
  {
    if rows == [] then [Row(k, 1)]
    else if rows[0].key == k then [Row(k, rows[0].count + 1)] + rows[1..]
    else [rows[0]] + Bump(rows[1..], k)
  }

  /**
   * The counts of `keys`, one row per distinct group, in order of first
   * occurrence (the order in which a Python dict would hold them).
   */
  function Tally(keys: seq<Group>): seq<Row>
  {
    if keys == [] then [] else Bump(Tally(keys[..|keys| - 1]), keys[|keys| - 1])
  }

  lemma DistinctKeysTail(rows: seq<Row>)
    requires DistinctKeys(rows) && rows != []
    ensures DistinctKeys(rows[1..])
    ensures rows[0].key !in Keys(rows[1..])
    ensures Keys(rows) == [rows[0].key] + Keys(rows[1..])
  {
    var rest := rows[1..];
    forall i, j | 0 <= i < j < |rest| ensures rest[i].key != rest[j].key {
      assert rest[i] == rows[i + 1] && rest[j] == rows[j + 1];
    }
    forall i | 0 <= i < |rest| ensures Keys(rest)[i] != rows[0].key {
      assert rest[i] == rows[i + 1];
    }
  }

  /** Counting one more key keeps one row per group and adds `k` to the groups. */
  lemma {:induction false} BumpKeys(rows: seq<Row>, k: Group)
    requires DistinctKeys(rows)
    ensures DistinctKeys(Bump(rows, k))
    ensures forall g :: g in Keys(Bump(rows, k)) <==> g in Keys(rows) || g == k
    ensures Total(Bump(rows, k)) == Total(rows) + 1
  {
    if rows != [] {
      var rest := rows[1..];
      DistinctKeysTail(rows);
      var b := Bump(rows, k);
      if rows[0].key != k {
        BumpKeys(rest, k);
        assert b == [rows[0]] + Bump(rest, k);
        DistinctKeysCons(rows[0], Bump(rest, k));
        KeysCons(rows[0], Bump(rest, k));
      } else {
        assert b == [Row(k, rows[0].count + 1)] + rest;
        DistinctKeysCons(Row(k, rows[0].count + 1), rest);
        KeysCons(Row(k, rows[0].count + 1), rest);
      }
    } else {
      assert Keys(Bump(rows, k)) == [k];
    }
  }

  lemma {:induction false} DistinctKeysCons(x: Row, rows: seq<Row>)
    requires DistinctKeys(rows) && x.key !in Keys(rows)
    ensures DistinctKeys([x] + rows)
  {
    var r := [x] + rows;
    forall i, j | 0 <= i < j < |r| ensures r[i].key != r[j].key {
      KeyAfterHead(x, rows, i, j);
    }
  }

  lemma {:induction false} KeyAfterHead(x: Row, rows: seq<Row>, i: nat, j: nat)
    requires DistinctKeys(rows) && x.key !in Keys(rows)
    requires i < j < |rows| + 1
    ensures ([x] + rows)[i].key != ([x] + rows)[j].key
  {
    var r := [x] + rows;
    assert r[j] == rows[j - 1];
    if i > 0 {
      assert r[i] == rows[i - 1];
    } else {
      assert Keys(rows)[j - 1] == rows[j - 1].key;
    }
  }

  lemma {:induction false} KeysCons(x: Row, rows: seq<Row>)
    ensures Keys([x] + rows) == [x.key] + Keys(rows)
    ensures Total([x] + rows) == x.count + Total(rows)
  {
    assert ([x] + rows)[1..] == rows;
  }

  /** Rows of other groups are untouched by counting `k`. */
  lemma {:induction false} BumpOthers(rows: seq<Row>, k: Group)
    ensures forall r :: r in rows && r.key != k ==> r in Bump(rows, k)
    ensures forall r :: r in Bump(rows, k) && r.key != k ==> r in rows
  {
    if rows != [] {
      var rest := rows[1..];
      assert rows == [rows[0]] + rest;
      if rows[0].key != k {
        BumpOthers(rest, k);
        assert Bump(rows, k) == [rows[0]] + Bump(rest, k);
      }
    }
  }

  /** After counting `k`, the row of `k` holds one more than before. */
  lemma {:induction false} BumpCount(rows: seq<Row>, k: Group)
    requires DistinctKeys(rows)
    ensures forall r :: r in Bump(rows, k) && r.key == k ==>
      r.count == 1 + (if k in Keys(rows) then CountOf(rows, k) else 0)
  {
    if rows != [] {
      var rest := rows[1..];
      DistinctKeysTail(rows);
      if rows[0].key != k {
        BumpCount(rest, k);
        var b := Bump(rest, k);
        assert Bump(rows, k) == [rows[0]] + b;
        assert k in Keys(rows) <==> k in Keys(rest);
        forall r | r in [rows[0]] + b && r.key == k ensures r in b {
        }
      } else {
        var b := [Row(k, rows[0].count + 1)] + rest;
        assert Bump(rows, k) == b;
        forall r | r in b && r.key == k ensures r == b[0] {
          RowOfAbsentKey(rest, r);
        }
      }
    }
  }

  lemma RowOfAbsentKey(rows: seq<Row>, r: Row)
    requires r.key !in Keys(rows)
    ensures r !in rows
  {
    forall i | 0 <= i < |rows| ensures rows[i] != r {
      assert Keys(rows)[i] == rows[i].key;
    }
  }

  /** The count of the first row with key `k`. */
  function CountOf(rows: seq<Row>, k: Group): nat
    requires k in Keys(rows)
  {
    if rows[0].key == k then rows[0].count
    else
      assert Keys(rows) == [rows[0].key] + Keys(rows[1..]);
      CountOf(rows[1..], k)
  }

  lemma {:induction false} CountOfRow(rows: seq<Row>, r: Row)
    requires DistinctKeys(rows) && r in rows
    ensures r.key in Keys(rows) && CountOf(rows, r.key) == r.count
  {
    var i :| 0 <= i < |rows| && rows[i] == r;
    assert Keys(rows)[i] == r.key;
    if i > 0 {
      var rest := rows[1..];
      assert rest[i - 1] == r;
      assert rows[0].key != r.key;
      assert DistinctKeys(rest) by {
        forall a, b | 0 <= a < b < |rest| ensures rest[a].key != rest[b].key {
          assert rest[a] == rows[a + 1] && rest[b] == rows[b + 1];
        }
      }
      CountOfRow(rest, r);
      assert Keys(rows) == [rows[0].key] + Keys(rest);
    }
  }

  /**
   * What `value_counts` computes: one row per distinct group of `keys`,
   * whose count is the number of times that group occurs, never zero, and
   * the counts add up to the number of keys.
   */
  lemma {:induction false} TallyCounts(keys: seq<Group>)
    ensures DistinctKeys(Tally(keys))
    ensures forall g :: g in Keys(Tally(keys)) <==> g in keys
    ensures forall r :: r in Tally(keys) ==> r.count == multiset(keys)[r.key] && r.count >= 1
    ensures Total(Tally(keys)) == |keys|
  {
    if keys != [] {
      var init, k := keys[..|keys| - 1], keys[|keys| - 1];
      assert keys == init + [k];
      TallyCounts(init);
      var t := Tally(init);
      BumpKeys(t, k);
      BumpOthers(t, k);
      BumpCount(t, k);
      forall r | r in Bump(t, k) ensures r.count == multiset(keys)[r.key] && r.count >= 1 {
        if r.key == k {
          if k in Keys(t) {
            var i :| 0 <= i < |t| && Keys(t)[i] == k;
            CountOfRow(t, t[i]);
          }
        }
      }
    }
  }

  /**
   * The counting loop over a dict: an index from each group seen so far to
   * its row, and the table in order of first occurrence.
   */
  method CountOccurrences(keys: seq<Group>) returns (rows: seq<Row>)
    ensures rows == Tally(keys)
  {
    rows := [];
    var index: map<Group, nat> := map[];
    for n := 0 to |keys|
      invariant rows == Tally(keys[..n])
      invariant DistinctKeys(rows)
      invariant forall g :: g in index <==> g in Keys(rows)
      invariant forall g :: g in index ==> index[g] < |rows| && rows[index[g]].key == g
    {
      var k := keys[n];
      TallySnoc(keys, n);
      BumpKeys(rows, k);
      if k in index {
        var i := index[k];
        BumpAt(rows, i, k);
        rows := rows[i := Row(k, rows[i].count + 1)];
      } else {
        BumpNew(rows, k);
        index := index[k := |rows|];
        rows := rows + [Row(k, 1)];
      }
    }
    assert keys[..|keys|] == keys;
  }

  /** Counting one more key is bumping its row. */
  lemma TallySnoc(keys: seq<Group>, n: nat)
    requires n < |keys|
    ensures Tally(keys[..n + 1]) == Bump(Tally(keys[..n]), keys[n])
  {
    assert keys[..n + 1][..n] == keys[..n];
  }

  lemma {:induction false} BumpAt(rows: seq<Row>, i: nat, k: Group)
    requires DistinctKeys(rows) && i < |rows| && rows[i].key == k
    ensures Bump(rows, k) == rows[i := Row(k, rows[i].count + 1)]
  {
    if i > 0 {
      assert rows[0].key != k;
      var rest := rows[1..];
      assert DistinctKeys(rest) by {
        forall a, b | 0 <= a < b < |rest| ensures rest[a].key != rest[b].key {
          assert rest[a] == rows[a + 1] && rest[b] == rows[b + 1];
        }
      }
      BumpAt(rest, i - 1, k);
      assert rows[i := Row(k, rows[i].count + 1)] == [rows[0]] + rest[i - 1 := Row(k, rows[i].count + 1)];
    }
  }

  lemma {:induction false} BumpNew(rows: seq<Row>, k: Group)
    requires k !in Keys(rows)
    ensures Bump(rows, k) == rows + [Row(k, 1)]
  {
    if rows != [] {
      assert Keys(rows) == [rows[0].key] + Keys(rows[1..]);
      BumpNew(rows[1..], k);
      assert rows == [rows[0]] + rows[1..];
    }
  }

  /** `a` may stand before `b`: a higher count, or an equal count and a group not greater. */
  predicate RanksBefore(a: Row, b: Row) {
    a.count > b.count || (a.count == b.count && LexLe(a.key, b.key))
  }

  /** Counts never increase along the table, and equal counts are in ascending group order. */
  predicate Ranked(rows: seq<Row>) {
    forall i :: 0 <= i < |rows| - 1 ==> RanksBefore(rows[i], rows[i + 1])
  }

  function InsertRow(x: Row, rows: seq<Row>): (r: seq<Row>)
    requires Ranked(rows)
    ensures Ranked(r)
    ensures multiset(r) == multiset(rows) + multiset{x}
    ensures |r| == |rows| + 1
    ensures r[0] == x || (rows != [] && r[0] == rows[0])
    ensures Total(r) == Total(rows) + x.count
  {
    if rows == [] || RanksBefore(x, rows[0]) then [x] + rows
    else
      LexLeTotal(x.key, rows[0].key);
      var t := InsertRow(x, rows[1..]);
      assert rows == [rows[0]] + rows[1..];
      [rows[0]] + t
  }

  /**
   * The table as `value_counts` orders it: by count, highest first, with
   * ties by ascending group. A permutation of its input.
   */
  function Rank(rows: seq<Row>): (r: seq<Row>)
    ensures Ranked(r)
    ensures multiset(r) == multiset(rows)
    ensures |r| == |rows|
    ensures Total(r) == Total(rows)
  {
    if rows == [] then []
    else
      assert rows == [rows[0]] + rows[1..];
      InsertRow(rows[0], Rank(rows[1..]))
  }

  /** In a ranked table counts are non-increasing between any two rows. */
  lemma {:induction false} RankedCounts(rows: seq<Row>, i: nat, j: nat)
    requires Ranked(rows) && i <= j < |rows|
    ensures rows[i].count >= rows[j].count
    decreases j - i
  {
    if i < j {
      RankedCounts(rows, i + 1, j);
    }
  }

  /**
   * With one row per group, a ranked table has no inversion: each row has
   * a higher count than the next, or the same count and a smaller group.
   */
  lemma RankedStrict(rows: seq<Row>, i: nat)
    requires Ranked(rows) && DistinctKeys(rows) && i + 1 < |rows|
    ensures rows[i].count > rows[i + 1].count ||
      (rows[i].count == rows[i + 1].count && LexLe(rows[i].key, rows[i + 1].key) && rows[i].key != rows[i + 1].key)
  {
  }

  /** Ranking keeps one row per group. */
  lemma {:induction false} RankDistinct(rows: seq<Row>)
    requires DistinctKeys(rows)
    ensures DistinctKeys(Rank(rows))
  {
    var r := Rank(rows);
    forall i, j | 0 <= i < j < |r| ensures r[i].key != r[j].key {
      assert r[i] in multiset(rows) && r[j] in multiset(rows);
      CountOneRow(rows, r[i]);
      NoRepeatedRow(r, i, j);
      KeysOfDistinctRows(rows, r[i], r[j]);
    }
  }

  lemma NoRepeatedRow(s: seq<Row>, i: int, j: int)
    requires 0 <= i < j < |s| && multiset(s)[s[i]] <= 1
    ensures s[i] != s[j]
  {
    if s[i] == s[j] {
      CountTwo(s, i, j);
    }
  }

  lemma KeysOfDistinctRows(rows: seq<Row>, x: Row, y: Row)
    requires DistinctKeys(rows) && x in rows && y in rows && x != y
    ensures x.key != y.key
  {
    var a :| 0 <= a < |rows| && rows[a] == x;
    var b :| 0 <= b < |rows| && rows[b] == y;
  }

  lemma {:induction false} CountOneRow(s: seq<Row>, x: Row)
    requires DistinctKeys(s)
    ensures multiset(s)[x] <= 1
  {
    if s != [] {
      var rest := s[1..];
      assert s == [s[0]] + rest;
      assert DistinctKeys(rest) by {
        forall a, b | 0 <= a < b < |rest| ensures rest[a].key != rest[b].key {
          assert rest[a] == s[a + 1] && rest[b] == s[b + 1];
        }
      }
      assert s[0] !in rest by {
        forall a | 0 <= a < |rest| ensures rest[a] != s[0] {
          assert rest[a] == s[a + 1];
        }
      }
      CountOneRow(rest, x);
    }
  }

  /**
   * Two ranked tables that hold the same rows, one per group, are the
   * same table: the ranking is fully determined by the counts.
   */
  lemma {:induction false} RankedUnique(a: seq<Row>, b: seq<Row>)
    requires Ranked(a) && Ranked(b) && DistinctKeys(a) && DistinctKeys(b)
    requires multiset(a) == multiset(b)
    ensures a == b
  {
    if a != [] {
      RankedHeads(a, b);
      TailsPermutation(a, b);
      RankedTail(a);
      RankedTail(b);
      RankedUnique(a[1..], b[1..]);
      assert a == [a[0]] + a[1..] && b == [b[0]] + b[1..];
    }
  }

  /** Two ranked tables with the same rows start with the same row. */
  lemma RankedHeads(a: seq<Row>, b: seq<Row>)
    requires Ranked(a) && Ranked(b) && a != [] && multiset(a) == multiset(b)
    ensures b != [] && a[0] == b[0]
  {
    assert a[0] in multiset(b);
    assert b != [];
    assert b[0] in multiset(a);
    RankedHeadFirst(a, b[0]);
    RankedHeadFirst(b, a[0]);
    RanksBeforeAntisymmetric(a[0], b[0]);
  }

  /** With equal first rows, the rest of two permuted tables are permutations too. */
  lemma TailsPermutation(a: seq<Row>, b: seq<Row>)
    requires a != [] && b != [] && a[0] == b[0] && multiset(a) == multiset(b)
    ensures multiset(a[1..]) == multiset(b[1..])
  {
    assert a == [a[0]] + a[1..] && b == [b[0]] + b[1..];
    assert multiset(a[1..]) == multiset(a) - multiset{a[0]};
    assert multiset(b[1..]) == multiset(b) - multiset{b[0]};
  }

  lemma RanksBeforeAntisymmetric(x: Row, y: Row)
    requires RanksBefore(x, y) && RanksBefore(y, x)
    ensures x == y
  {
    LexLeAntisymmetric(x.key, y.key);
  }

  lemma RankedTail(a: seq<Row>)
    requires Ranked(a) && DistinctKeys(a) && a != []
    ensures Ranked(a[1..]) && DistinctKeys(a[1..])
  {
    var t := a[1..];
    forall i | 0 <= i < |t| - 1 ensures RanksBefore(t[i], t[i + 1]) {
      assert t[i] == a[i + 1] && t[i + 1] == a[i + 2];
    }
    forall i, j | 0 <= i < j < |t| ensures t[i].key != t[j].key {
      assert t[i] == a[i + 1] && t[j] == a[j + 1];
    }
  }

  /** The first row of a ranked table may stand before every row of it. */
  lemma {:induction false} RankedHeadFirst(a: seq<Row>, x: Row)
    requires Ranked(a) && x in multiset(a)
    ensures RanksBefore(a[0], x)
  {
    var i :| 0 <= i < |a| && a[i] == x;
    RankedPrefix(a, i);
  }

  lemma {:induction false} RankedPrefix(a: seq<Row>, i: nat)
    requires Ranked(a) && i < |a|
    ensures RanksBefore(a[0], a[i])
  {
    if i == 0 {
      LexLeTotal(a[0].key, a[0].key);
    } else {
      RankedPrefix(a, i - 1);
      var x, y, z := a[0], a[i - 1], a[i];
      if x.count == y.count && y.count == z.count {
        LexLeTransitive(x.key, y.key, z.key);
      }
    }
  }

  /**
   * `Series.value_counts()`: one row per distinct group with its number of
   * occurrences, most frequent first, ties in ascending group order.
   */
  function ValueCounts(keys: seq<Group>): (t: seq<Row>)
    ensures Ranked(t) && DistinctKeys(t)
    ensures forall r :: r in t ==> r.count == multiset(keys)[r.key] && r.count >= 1
    ensures forall g :: g in keys ==> Row(g, multiset(keys)[g]) in t
    ensures forall g :: g in Keys(t) <==> g in keys
    ensures Total(t) == |keys|
  {
    RankTallyFacts(keys);
    Rank(Tally(keys))
  }

  lemma {:induction false} RankTallyFacts(keys: seq<Group>)
    ensures Ranked(Rank(Tally(keys))) && DistinctKeys(Rank(Tally(keys)))
    ensures forall r :: r in Rank(Tally(keys)) ==> r.count == multiset(keys)[r.key] && r.count >= 1
    ensures forall g :: g in keys ==> Row(g, multiset(keys)[g]) in Rank(Tally(keys))
    ensures forall g :: g in Keys(Rank(Tally(keys))) <==> g in keys
    ensures Total(Rank(Tally(keys))) == |keys|
  {
    var tally := Tally(keys);
    var t := Rank(tally);
    TallyCounts(keys);
    RankDistinct(tally);
    KeysOfPermutation(t, tally);
    forall r | r in t ensures r.count == multiset(keys)[r.key] && r.count >= 1 {
      assert r in multiset(tally);
    }
    forall g | g in keys ensures Row(g, multiset(keys)[g]) in t {
      var i := RowOfKey(tally, g);
      assert tally[i] in tally;
      assert tally[i] == Row(g, multiset(keys)[g]);
      assert tally[i] in multiset(t);
    }
  }

  /** Two tables holding the same rows hold the same groups. */
  lemma KeysOfPermutation(a: seq<Row>, b: seq<Row>)
    requires multiset(a) == multiset(b)
    ensures forall g :: g in Keys(a) <==> g in Keys(b)
  {
    forall g | g in Keys(a) ensures g in Keys(b) {
      var i :| 0 <= i < |a| && Keys(a)[i] == g;
      assert a[i] in multiset(b);
      var j :| 0 <= j < |b| && b[j] == a[i];
      assert Keys(b)[j] == g;
    }
    forall g | g in Keys(b) ensures g in Keys(a) {
      var j :| 0 <= j < |b| && Keys(b)[j] == g;
      assert b[j] in multiset(a);
      var i :| 0 <= i < |a| && a[i] == b[j];
      assert Keys(a)[i] == g;
    }
  }

  /** The position of a group's row. */
  lemma RowOfKey(rows: seq<Row>, g: Group) returns (i: nat)
    requires g in Keys(rows)
    ensures i < |rows| && rows[i].key == g
  {
    i :| 0 <= i < |Keys(rows)| && Keys(rows)[i] == g;
  }

  /** The counts depend only on how often each group occurs, not on the order of the input. */
  lemma ValueCountsPermutation(a: seq<Group>, b: seq<Group>)
    requires multiset(a) == multiset(b)
    ensures ValueCounts(a) == ValueCounts(b)
  {
    var ta, tb := ValueCounts(a), ValueCounts(b);
    forall r ensures multiset(ta)[r] == multiset(tb)[r] {
      CountOneRow(ta, r);
      CountOneRow(tb, r);
      assert r.key in a <==> r.key in b by {
        assert r.key in a <==> r.key in multiset(a);
        assert r.key in b <==> r.key in multiset(b);
      }
    }
    assert multiset(ta) == multiset(tb);
    RankedUnique(ta, tb);
  }

  /**
   * `DataFrame.head(n)`: the first `n` rows, all of them when there are
   * fewer; a negative `n` drops the last `-n` rows instead.
   */
  function Head<T>(rows: seq<T>, n: int): (r: seq<T>)
    ensures n >= 0 ==> |r| == if n < |rows| then n else |rows|
    ensures n < 0 ==> |r| == if |rows| + n > 0 then |rows| + n else 0
    ensures r == rows[..|r|]
  {
    if n >= 0 then (if n < |rows| then rows[..n] else rows)
    else if |rows| + n > 0 then rows[..|rows| + n]
    else []
  }

  /**
   * `rows` is what `head(n)` keeps of the ranked `table`: its first rows, as
   * many as `n` asks for (all but the last `-n` when `n` is negative), and
   * no row left out has a higher count than one kept.
   */
  predicate TopRows(rows: seq<Row>, table: seq<Row>, n: int) {
    && |rows| <= |table| && rows == table[..|rows|]
    && (n >= 0 ==> |rows| == if n < |table| then n else |table|)
    && (n < 0 ==> |rows| == if |table| + n > 0 then |table| + n else 0)
    && (forall i, j :: 0 <= i < |rows| <= j < |table| ==> table[j].count <= rows[i].count)
  }

  /** The first rows of a ranked table are its most frequent ones. */
  lemma HeadTopRows(rows: seq<Row>, n: int)
    requires Ranked(rows)
    ensures TopRows(Head(rows, n), rows, n)
  {
    var h := Head(rows, n);
    forall i, j | 0 <= i < |h| <= j < |rows| ensures rows[j].count <= h[i].count {
      assert h[i] == rows[i];
      RankedCounts(rows, i, j);
    }
  }

  /** A prefix of a ranked table is ranked, with one row per group when the table has that. */
  lemma HeadRanked(rows: seq<Row>, n: int)
    requires Ranked(rows)
    ensures Ranked(Head(rows, n))
    ensures DistinctKeys(rows) ==> DistinctKeys(Head(rows, n))
    ensures forall r :: r in Head(rows, n) ==> r in rows
  {
    var h := Head(rows, n);
    forall r | r in h ensures r in rows {
      var i :| 0 <= i < |h| && h[i] == r;
      assert rows[i] == r;
    }
    forall i | 0 <= i < |h| - 1 ensures RanksBefore(h[i], h[i + 1]) {
      assert h[i] == rows[i] && h[i + 1] == rows[i + 1];
    }
    if DistinctKeys(rows) {
      forall i, j | 0 <= i < j < |h| ensures h[i].key != h[j].key {
        assert h[i] == rows[i] && h[j] == rows[j];
      }
    }
  }
}
