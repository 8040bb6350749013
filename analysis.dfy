/**
 * The analysis commands of toto_cli/src/toto_cli/cli.py: `topnum` (how often
 * each number was drawn, optionally within a date range), `combination` (how
 * often each exact set of winning numbers was drawn) and `groupfreq` (how
 * often each group of two to six numbers was drawn together).
 *
 * The draws are what the commands load from the archive collection; the
 * outcome is what they print, as data.
 */
module Analysis {
  import opened Wrappers
  import opened Text
  import opened Calendar
  import opened DateRange
  import opened Combinatorics
  import opened Ranking

  /**
   * One draw as the commands see it: its date after
   * `pd.to_datetime(errors='coerce')` (`None` is `NaT`) and its winning numbers.
   */
  datatype Draw = Draw(date: Option<Instant>, numbers: seq<int>)

  /** What a command ends with. */
  datatype Outcome<R> =
    | UsageError(message: string)  // click refuses an option before the command runs
    | NoData                       // the collection is empty
    | NoMatch                      // no draw is left after the date filter
    | Failed                       // an exception, caught and reported by the command
    | Shown(rows: seq<R>)          // the table printed

  /** One printed line of a group table: the numbers joined by ", " and the count. */
  datatype TableLine = TableLine(numbers: string, occurrences: nat)

  // ---------------------------------------------------------------------
  // Filtering by date (`topnum --range`)
  // ---------------------------------------------------------------------

  /** The elements of `s` that satisfy `p`, in order: a boolean-mask selection. */
  function Filter(s: seq<Draw>, p: Draw -> bool): (r: seq<Draw>)
    ensures |r| <= |s|
    ensures forall x :: x in r <==> x in s && p(x)
  {
    if s == [] then [] else (if p(s[0]) then [s[0]] else []) + Filter(s[1..], p)
  }

  /** The first draw is selected or not, and the rest are selected from the others. */
  lemma {:induction false} FilterFirst(s: seq<Draw>, p: Draw -> bool)
    requires s != []
    ensures |Filter(s, p)| == (if p(s[0]) then 1 else 0) + |Filter(s[1..], p)|
  {
  }

  /** Selecting from two parts is selecting from each, in order. */
  lemma {:induction false} FilterAppend(a: seq<Draw>, b: seq<Draw>, p: Draw -> bool)
    ensures Filter(a + b, p) == Filter(a, p) + Filter(b, p)
  {
    if a == [] {
      assert a + b == b;
    } else {
      var ab := a + b;
      assert ab[0] == a[0] && ab[1..] == a[1..] + b;
      FilterAppend(a[1..], b, p);
      var h := if p(a[0]) then [a[0]] else [];
      assert Filter(ab, p) == h + Filter(ab[1..], p);
      assert Filter(a, p) == h + Filter(a[1..], p);
    }
  }

  /** Two masks that agree everywhere select the same rows. */
  lemma {:induction false} FilterSame(s: seq<Draw>, p: Draw -> bool, q: Draw -> bool)
    requires forall x :: p(x) == q(x)
    ensures Filter(s, p) == Filter(s, q)
  {
    if s != [] {
      FilterSame(s[1..], p, q);
    }
  }

  /** Selecting by `p` and then by `q` is selecting by both at once. */
  lemma {:induction false} FilterFilter(s: seq<Draw>, p: Draw -> bool, q: Draw -> bool, pq: Draw -> bool)
    requires forall x :: pq(x) == (p(x) && q(x))
    ensures Filter(Filter(s, p), q) == Filter(s, pq)
  {
    if s != [] {
      FilterFilter(s[1..], p, q, pq);
      var head := if p(s[0]) then [s[0]] else [];
      FilterAppend(head, Filter(s[1..], p), q);
      if p(s[0]) {
        assert Filter(head, q) == (if q(s[0]) then [s[0]] else []) + Filter([], q);
      }
    }
  }

  /** Nothing is selected exactly when no row satisfies the mask. */
  lemma {:induction false} FilterEmpty(s: seq<Draw>, p: Draw -> bool)
    ensures Filter(s, p) == [] <==> forall d :: d in s ==> !p(d)
  {
    if Filter(s, p) != [] {
      assert Filter(s, p)[0] in Filter(s, p);
    }
  }

  /** A mask that every row satisfies selects everything. */
  lemma {:induction false} FilterKeepsAll(s: seq<Draw>, p: Draw -> bool)
    requires forall x :: x in s ==> p(x)
    ensures Filter(s, p) == s
  {
    if s != [] {
      FilterKeepsAll(s[1..], p);
      assert [s[0]] + s[1..] == s;
    }
  }

  /** The time of day of the end bound: `replace(hour=23, minute=59)`, that is 23:59:00.000000. */
  const EndOfDay: int := (23 * 60 + 59) * 60 * 1_000_000

  /** The instant the end date is compared against. */
  function EndBound(end: Date): Instant {
    Instant(end, EndOfDay)
  }

  /** `df['date'] >= pd.Timestamp(start)`; `NaT` compares false. */
  predicate OnOrAfter(start: Date, d: Draw) {
    d.date.Some? && InstantLe(Midnight(start), d.date.value)
  }

  /** `df['date'] <= pd.Timestamp(end).replace(hour=23, minute=59)`; `NaT` compares false. */
  predicate OnOrBefore(end: Date, d: Draw) {
    d.date.Some? && InstantLe(d.date.value, EndBound(end))
  }

  /** A draw survives the filter of `range`: each bound that is given holds. */
  predicate InRange(range: Range, d: Draw) {
    && (range.start.None? || OnOrAfter(range.start.value, d))
    && (range.end.None? || OnOrBefore(range.end.value, d))
  }

  function From(start: Date): Draw -> bool {
    (d: Draw) => OnOrAfter(start, d)
  }

  function Through(end: Date): Draw -> bool {
    (d: Draw) => OnOrBefore(end, d)
  }

  function Within(range: Range): Draw -> bool {
    (d: Draw) => InRange(range, d)
  }

  /**
   * The filter step of `topnum`: the lower bound is applied, then the upper
   * bound, each only when it is given.
   */
  method FilterByRange(draws: seq<Draw>, range: Range) returns (kept: seq<Draw>)
    ensures kept == Filter(draws, Within(range))
  {
    kept := draws;
    if range.start.Some? || range.end.Some? {
      if range.start.Some? {
        kept := Filter(kept, From(range.start.value));
      }
      if range.end.Some? {
        kept := Filter(kept, Through(range.end.value));
      }
    }
    if range.start.Some? && range.end.Some? {
      FilterFilter(draws, From(range.start.value), Through(range.end.value), Within(range));
    } else if range.start.Some? {
      FilterSame(draws, From(range.start.value), Within(range));
    } else if range.end.Some? {
      FilterSame(draws, Through(range.end.value), Within(range));
    } else {
      FilterKeepsAll(draws, Within(range));
    }
  }

  /** Without a range every draw is kept, including those whose date is `NaT`. */
  lemma {:induction false} UnboundedKeepsAll(draws: seq<Draw>)
    ensures Filter(draws, Within(Unbounded)) == draws
  {
    FilterKeepsAll(draws, Within(Unbounded));
  }

  /** A draw whose date is `NaT` is dropped as soon as either bound is given. */
  lemma NaTOnlyWithoutBounds(range: Range, numbers: seq<int>)
    ensures InRange(range, Draw(None, numbers)) <==> range == Unbounded
  {
  }

  /** The start bound is inclusive from midnight of the start day on. */
  lemma StartBound(start: Date, t: Instant, numbers: seq<int>)
    requires 0 <= t.micros < MicrosPerDay
    ensures OnOrAfter(start, Draw(Some(t), numbers)) <==> t.date == start || DateBefore(start, t.date)
  {
  }

  /**
   * The end bound is inclusive up to 23:59:00 of the end day, and no later:
   * a draw stamped during the last minute of the end day is dropped.
   */
  lemma EndBoundInclusive(end: Date, t: Instant, numbers: seq<int>)
    requires ValidDate(end) && 0 <= t.micros < MicrosPerDay
    ensures t.date == end ==> (OnOrBefore(end, Draw(Some(t), numbers)) <==> t.micros <= EndOfDay)
    ensures t.date == NextDay(end) ==> !OnOrBefore(end, Draw(Some(t), numbers))
    ensures DateBefore(end, t.date) ==> !OnOrBefore(end, Draw(Some(t), numbers))
    ensures OnOrBefore(end, Draw(Some(Midnight(end)), numbers))
    ensures !OnOrBefore(end, Draw(Some(Instant(end, EndOfDay + 30_000_000)), numbers))
  {
    var n := NextDay(end);
    if t.date == n {
      assert DateBefore(end, n);
    }
  }

  // ---------------------------------------------------------------------
  // Counting numbers (`topnum`)
  // ---------------------------------------------------------------------

  /** The numbers of a draw as one-number groups, in order. */
  function Singles(numbers: seq<int>): seq<Group>
  {
    seq(|numbers|, i requires 0 <= i < |numbers| => [numbers[i]])
  }

  /** `df.explode('winning_numbers')`: every number of every draw, draw after draw. */
  function Explode(draws: seq<Draw>): seq<Group> {
    if draws == [] then [] else Explode(draws[..|draws| - 1]) + Singles(draws[|draws| - 1].numbers)
  }

  /** How many times `x` was drawn, over all the draws. */
  function Occurrences(draws: seq<Draw>, x: int): nat {
    if draws == [] then 0
    else Occurrences(draws[..|draws| - 1], x) + multiset(draws[|draws| - 1].numbers)[x]
  }

  /** How many numbers the draws hold together. */
  function NumberCount(draws: seq<Draw>): nat {
    if draws == [] then 0 else NumberCount(draws[..|draws| - 1]) + |draws[|draws| - 1].numbers|
  }

  /** A one-number group occurs in the singles as often as its number. */
  lemma {:induction false} SinglesCount(numbers: seq<int>, c: Group)
    ensures multiset(Singles(numbers))[c] == if |c| == 1 then multiset(numbers)[c[0]] else 0
  {
    if numbers != [] {
      var init := numbers[..|numbers| - 1];
      var last := numbers[|numbers| - 1];
      SinglesCount(init, c);
      assert Singles(numbers) == Singles(init) + [[last]];
      assert numbers == init + [last];
      assert multiset(numbers) == multiset(init) + multiset{last};
      assert multiset(Singles(numbers)) == multiset(Singles(init)) + multiset{[last]};
      if |c| == 1 {
        assert [last] == c <==> last == c[0];
      }
    }
  }

  /** Each number shows up in the exploded column once per time it was drawn, and nothing else does. */
  lemma {:induction false} ExplodeCount(draws: seq<Draw>, c: Group)
    ensures multiset(Explode(draws))[c] == if |c| == 1 then Occurrences(draws, c[0]) else 0
    ensures |Explode(draws)| == NumberCount(draws)
  {
    if draws != [] {
      ExplodeCount(draws[..|draws| - 1], c);
      SinglesCount(draws[|draws| - 1].numbers, c);
    }
  }

  /**
   * `value_counts()` of the exploded numbers: each number drawn, as a
   * one-number group, with how often it was drawn.
   */
  function NumberTable(draws: seq<Draw>): (t: seq<Row>)
    ensures Ranked(t) && DistinctKeys(t)
    ensures forall r :: r in t ==> |r.key| == 1 && r.count == Occurrences(draws, r.key[0]) && r.count >= 1
    ensures forall x :: Occurrences(draws, x) > 0 ==> Row([x], Occurrences(draws, x)) in t
    ensures Total(t) == NumberCount(draws)
  {
    NumberTableFacts(draws);
    ValueCounts(Explode(draws))
  }

  lemma {:induction false} NumberTableFacts(draws: seq<Draw>)
    ensures forall r :: r in ValueCounts(Explode(draws)) ==>
      |r.key| == 1 && r.count == Occurrences(draws, r.key[0])
    ensures forall x :: Occurrences(draws, x) > 0 ==> Row([x], Occurrences(draws, x)) in ValueCounts(Explode(draws))
    ensures |Explode(draws)| == NumberCount(draws)
  {
    var exploded := Explode(draws);
    forall r | r in ValueCounts(exploded)
      ensures |r.key| == 1 && r.count == Occurrences(draws, r.key[0])
    {
      ExplodeCount(draws, r.key);
    }
    forall x | Occurrences(draws, x) > 0 ensures Row([x], Occurrences(draws, x)) in ValueCounts(exploded) {
      ExplodeCount(draws, [x]);
      assert [x] in multiset(exploded);
    }
    ExplodeCount(draws, []);
  }

  /**
   * `topnum --num num --range rangeText`: the `num` most frequent numbers
   * among the draws the range keeps.
   */
  function TopNum(draws: seq<Draw>, rangeText: Option<string>, num: int): (o: Outcome<Row>)
    ensures o.UsageError? <==> ParseDateRange(rangeText).Err?
    ensures o.UsageError? ==> o.message == FormatMessage
    ensures o.NoData? <==> ParseDateRange(rangeText).Ok? && draws == []
    ensures o.NoMatch? <==> (ParseDateRange(rangeText).Ok? && draws != [] &&
      forall d :: d in draws ==> !InRange(ParseDateRange(rangeText).value, d))
    ensures !o.Failed?
  {
    match ParseDateRange(rangeText)
    case Err(e) => UsageError(e.message)
    case Ok(range) =>
      if draws == [] then NoData
      else
        var kept := Filter(draws, Within(range));
        FilterEmpty(draws, Within(range));
        if kept == [] then NoMatch
        else Shown(Head(NumberTable(kept), num))
  }

  /**
   * The table `topnum` prints is the first `num` rows of the ranked number
   * table (all of it when it is shorter): each number once, with the number
   * of times it was drawn within the range, and no number left out drawn
   * more often than one shown.
   */
  lemma {:induction false} TopNumRows(draws: seq<Draw>, rangeText: Option<string>, num: int)
    requires TopNum(draws, rangeText, num).Shown?
    ensures var rows := TopNum(draws, rangeText, num).rows;
      var kept := Filter(draws, Within(ParseDateRange(rangeText).value));
      var table := NumberTable(kept);
      && TopRows(rows, table, num)
      && Ranked(rows) && DistinctKeys(rows)
      && (forall r :: r in rows ==> |r.key| == 1 && r.count >= 1 && r.count == Occurrences(kept, r.key[0]))
  {
    var kept := Filter(draws, Within(ParseDateRange(rangeText).value));
    var table := NumberTable(kept);
    var rows := Head(table, num);
    assert TopNum(draws, rangeText, num).rows == rows;
    HeadRanked(table, num);
    HeadTopRows(table, num);
  }

  /** With enough rows asked for, `topnum` lists every number drawn in the range, and nothing is lost. */
  lemma {:induction false} TopNumComplete(draws: seq<Draw>, rangeText: Option<string>, num: int, x: int)
    requires TopNum(draws, rangeText, num).Shown?
    requires num >= |NumberTable(Filter(draws, Within(ParseDateRange(rangeText).value)))|
    ensures var kept := Filter(draws, Within(ParseDateRange(rangeText).value));
      && Total(TopNum(draws, rangeText, num).rows) == NumberCount(kept)
      && (Occurrences(kept, x) > 0 ==> Row([x], Occurrences(kept, x)) in TopNum(draws, rangeText, num).rows)
  {
  }

  // ---------------------------------------------------------------------
  // Counting groups (`groupfreq`) and exact combinations (`combination`)
  // ---------------------------------------------------------------------

  /**
   * The inner loops of `groupfreq`: every `g`-group of every draw, taken
   * from the draw's sorted numbers, draw after draw.
   */
  function AllCombos(draws: seq<Draw>, g: nat): seq<Group> {
    if draws == [] then []
    else AllCombos(draws[..|draws| - 1], g) + Combos(SortInts(draws[|draws| - 1].numbers), g)
  }

  /** The nested loops that fill `all_combos`. */
  method CollectCombos(draws: seq<Draw>, g: nat) returns (all: seq<Group>)
    ensures all == AllCombos(draws, g)
  {
    all := [];
    for i := 0 to |draws|
      invariant all == AllCombos(draws[..i], g)
    {
      var combos := Combos(SortInts(draws[i].numbers), g);
      ghost var before := all;
      for j := 0 to |combos|
        invariant all == before + combos[..j]
      {
        AppendOne(before, combos, j);
        all := all + [combos[j]];
      }
      assert combos[..|combos|] == combos;
      AllCombosSnoc(draws, i, g);
    }
    assert draws[..|draws|] == draws;
  }

  /** Appending the next group extends the copied prefix by one. */
  lemma AppendOne(before: seq<Group>, combos: seq<Group>, j: nat)
    requires j < |combos|
    ensures before + combos[..j + 1] == before + combos[..j] + [combos[j]]
  {
    assert combos[..j + 1] == combos[..j] + [combos[j]];
  }

  lemma {:induction false} AllCombosSnoc(draws: seq<Draw>, i: nat, g: nat)
    requires i < |draws|
    ensures AllCombos(draws[..i + 1], g) == AllCombos(draws[..i], g) + Combos(SortInts(draws[i].numbers), g)
  {
    var p := draws[..i + 1];
    assert p[..|p| - 1] == draws[..i];
    assert p[|p| - 1] == draws[i];
  }

  /** The number of `g`-subsets of each draw, summed over the draws. */
  function SumBinom(draws: seq<Draw>, g: nat): nat {
    if draws == [] then 0 else SumBinom(draws[..|draws| - 1], g) + Binom(|draws[|draws| - 1].numbers|, g)
  }

  /** A draw of `n` numbers yields `Binom(n, g)` groups, so none at all when `g > n`. */
  lemma {:induction false} AllCombosCount(draws: seq<Draw>, g: nat)
    ensures |AllCombos(draws, g)| == SumBinom(draws, g)
  {
    if draws != [] {
      var numbers := draws[|draws| - 1].numbers;
      AllCombosCount(draws[..|draws| - 1], g);
      CombosCount(SortInts(numbers), g);
      assert |SortInts(numbers)| == |numbers| by {
        assert |multiset(SortInts(numbers))| == |multiset(numbers)|;
      }
    }
  }

  /** Every collected group has `g` numbers, in ascending order, all from one draw. */
  lemma {:induction false} AllCombosShape(draws: seq<Draw>, g: nat, c: Group)
    requires c in AllCombos(draws, g)
    ensures |c| == g && Sorted(c)
    ensures exists d :: d in draws && multiset(c) <= multiset(d.numbers)
  {
    var init := draws[..|draws| - 1];
    var last := draws[|draws| - 1];
    var s := SortInts(last.numbers);
    if c in AllCombos(init, g) {
      AllCombosShape(init, g, c);
      var d :| d in init && multiset(c) <= multiset(d.numbers);
      assert d in draws;
    } else {
      CombosShape(s, g, c);
      CombosSorted(s, g, c);
      assert last in draws;
    }
  }

  /** The draws holding every number of `c`. */
  function Containing(c: Group): Draw -> bool {
    (d: Draw) => forall x :: x in c ==> x in d.numbers
  }

  /** No draw repeats a number: what the archive's draws are. */
  predicate DuplicateFree(draws: seq<Draw>) {
    forall i :: 0 <= i < |draws| ==> NoDuplicates(draws[i].numbers)
  }

  /**
   * For draws without repeated numbers, an ascending `g`-group is collected
   * once for every draw that contains all its numbers; any other group, never.
   */
  lemma {:induction false} GroupOccurrences(draws: seq<Draw>, g: nat, c: Group)
    requires DuplicateFree(draws)
    ensures multiset(AllCombos(draws, g))[c] ==
      if |c| == g && StrictlySorted(c) then |Filter(draws, Containing(c))| else 0
  {
    if draws != [] {
      var init := draws[..|draws| - 1];
      var last := draws[|draws| - 1];
      assert DuplicateFree(init) by {
        forall i | 0 <= i < |init| ensures NoDuplicates(init[i].numbers) {
          assert init[i] == draws[i];
        }
      }
      GroupOccurrences(init, g, c);
      assert NoDuplicates(last.numbers);
      DrawGroupCount(last.numbers, g, c);
      assert AllCombos(draws, g) == AllCombos(init, g) + Combos(SortInts(last.numbers), g);
      assert multiset(AllCombos(draws, g))[c] ==
        multiset(AllCombos(init, g))[c] + multiset(Combos(SortInts(last.numbers), g))[c];
      FilterLast(draws, Containing(c));
      assert Containing(c)(last) == forall x :: x in c ==> x in last.numbers;
    }
  }

  /** Selecting from a non-empty sequence: the selection of all but the last row, and the last row if it qualifies. */
  lemma {:induction false} FilterLast(s: seq<Draw>, p: Draw -> bool)
    requires s != []
    ensures |Filter(s, p)| == |Filter(s[..|s| - 1], p)| + if p(s[|s| - 1]) then 1 else 0
  {
    var init, last := s[..|s| - 1], s[|s| - 1];
    assert s == init + [last];
    FilterAppend(init, [last], p);
    FilterOne(last, p);
  }

  /** A single row is kept exactly when it qualifies. */
  lemma FilterOne(x: Draw, p: Draw -> bool)
    ensures |Filter([x], p)| == if p(x) then 1 else 0
  {
    assert [x][1..] == [];
  }

  /** `value_counts()` of the collected groups. */
  function GroupTable(draws: seq<Draw>, g: nat): (t: seq<Row>)
    ensures Ranked(t) && DistinctKeys(t)
    ensures forall r :: r in t ==> |r.key| == g && Sorted(r.key) && r.count >= 1
    ensures Total(t) == SumBinom(draws, g)
    ensures DuplicateFree(draws) ==>
      forall r :: r in t ==> StrictlySorted(r.key) && r.count == |Filter(draws, Containing(r.key))|
  {
    GroupTableFacts(draws, g);
    ValueCounts(AllCombos(draws, g))
  }

  lemma {:induction false} GroupTableFacts(draws: seq<Draw>, g: nat)
    ensures forall r :: r in ValueCounts(AllCombos(draws, g)) ==> |r.key| == g && Sorted(r.key)
    ensures |AllCombos(draws, g)| == SumBinom(draws, g)
    ensures DuplicateFree(draws) ==> forall r :: r in ValueCounts(AllCombos(draws, g)) ==>
      StrictlySorted(r.key) && r.count == |Filter(draws, Containing(r.key))|
  {
    var all := AllCombos(draws, g);
    AllCombosCount(draws, g);
    forall r | r in ValueCounts(all) ensures |r.key| == g && Sorted(r.key) {
      assert r.key in multiset(all);
      AllCombosShape(draws, g, r.key);
    }
    if DuplicateFree(draws) {
      forall r | r in ValueCounts(all)
        ensures StrictlySorted(r.key) && r.count == |Filter(draws, Containing(r.key))|
      {
        GroupOccurrences(draws, g, r.key);
      }
    }
  }

  /** `", ".join(str(n) for n in c)`. */
  function FormatGroup(c: Group): string {
    Join(seq(|c|, i requires 0 <= i < |c| => IntToString(c[i])), ", ")
  }

  /** The table as printed: each group as its text, beside its count. */
  function FormatRows(rows: seq<Row>): seq<TableLine>
  {
    seq(|rows|, i requires 0 <= i < |rows| => TableLine(FormatGroup(rows[i].key), rows[i].count))
  }

  /** The lowest and highest group size `--group-size` accepts. */
  const MinGroupSize: int := 2
  const MaxGroupSize: int := 6

  /** `groupfreq --group-size g --top top`. */
  function GroupFreq(draws: seq<Draw>, g: int, top: int): (o: Outcome<TableLine>)
    ensures o.UsageError? <==> g < MinGroupSize || g > MaxGroupSize
    ensures o.NoData? <==> MinGroupSize <= g <= MaxGroupSize && draws == []
    ensures !o.Failed? && !o.NoMatch?
  {
    if g < MinGroupSize || g > MaxGroupSize then
      UsageError(IntToString(g) + " is not in the range 2<=x<=6.")
    else if draws == [] then NoData
    else Shown(Head(FormatRows(GroupTable(draws, g)), top))
  }

  /** Formatting the first rows is taking the first formatted rows. */
  lemma HeadFormat(rows: seq<Row>, n: int)
    ensures Head(FormatRows(rows), n) == FormatRows(Head(rows, n))
  {
  }

  /**
   * The lines `groupfreq` prints are the first `top` ranked groups of size
   * `g` (all of them when there are fewer), each once, each with how many
   * draws hold it, and no group left out more frequent than one shown.
   */
  lemma GroupFreqRows(draws: seq<Draw>, g: int, top: int) returns (rows: seq<Row>)
    requires GroupFreq(draws, g, top).Shown?
    ensures FormatRows(rows) == GroupFreq(draws, g, top).rows
    ensures Ranked(rows) && DistinctKeys(rows)
    ensures forall r :: r in rows ==> |r.key| == g && Sorted(r.key) && r.count >= 1
    ensures DuplicateFree(draws) ==> forall r :: r in rows ==>
      StrictlySorted(r.key) && r.count == |Filter(draws, Containing(r.key))|
    ensures TopRows(rows, GroupTable(draws, g), top)
  {
    var table := GroupTable(draws, g);
    rows := Head(table, top);
    HeadFormat(table, top);
    HeadRanked(table, top);
    HeadTopRows(table, top);
  }

  /**
   * Single numbers are the groups of size one: counted as groups they give
   * exactly the table `topnum` shows.
   */
  lemma SinglesAreGroupsOfOne(draws: seq<Draw>)
    ensures GroupTable(draws, 1) == NumberTable(draws)
  {
    forall c ensures multiset(AllCombos(draws, 1))[c] == multiset(Explode(draws))[c] {
      GroupsOfOneCount(draws, c);
      ExplodeCount(draws, c);
    }
    assert multiset(AllCombos(draws, 1)) == multiset(Explode(draws));
    ValueCountsPermutation(AllCombos(draws, 1), Explode(draws));
  }

  lemma {:induction false} GroupsOfOneCount(draws: seq<Draw>, c: Group)
    ensures multiset(AllCombos(draws, 1))[c] == if |c| == 1 then Occurrences(draws, c[0]) else 0
  {
    if draws != [] {
      var numbers := draws[|draws| - 1].numbers;
      GroupsOfOneCount(draws[..|draws| - 1], c);
      CombosSingles(SortInts(numbers));
      SinglesCount(SortInts(numbers), c);
      assert Combos(SortInts(numbers), 1) == Singles(SortInts(numbers));
    }
  }

  /** `tuple(sorted(nums))` of every draw, in order: the keys `combination` counts. */
  function SortedKeys(draws: seq<Draw>): (ks: seq<Group>)
    ensures |ks| == |draws|
    ensures forall i {:trigger ks[i]} :: 0 <= i < |draws| ==> Sorted(ks[i]) && multiset(ks[i]) == multiset(draws[i].numbers)
  {
    seq(|draws|, i requires 0 <= i < |draws| => SortInts(draws[i].numbers))
  }

  /** The draws with the same numbers as `p`, in whatever order they were stored. */
  function SameNumbers(p: seq<int>): Draw -> bool {
    (d: Draw) => multiset(d.numbers) == multiset(p)
  }

  /** The key of `p` is counted once for every draw holding the same numbers as `p`. */
  lemma {:induction false} SortedKeyCount(draws: seq<Draw>, p: seq<int>)
    ensures multiset(SortedKeys(draws))[SortInts(p)] == |Filter(draws, SameNumbers(p))|
  {
    if draws != [] {
      SortedKeyCount(draws[1..], p);
      SortedKeyAt(draws, 0);
      SortedKeysTail(draws);
      MultisetFirst(SortedKeys(draws));
      SortIntsKey(draws[0].numbers, p);
      FilterFirst(draws, SameNumbers(p));
    }
  }

  /** The keys after the first are the keys of the draws after the first. */
  lemma SortedKeysTail(draws: seq<Draw>)
    requires draws != []
    ensures SortedKeys(draws)[1..] == SortedKeys(draws[1..])
  {
    var lhs, rhs := SortedKeys(draws)[1..], SortedKeys(draws[1..]);
    forall j | 0 <= j < |lhs| ensures lhs[j] == rhs[j] {
      SortedKeysTailAt(draws, j + 1);
    }
  }

  lemma SortedKeysTailAt(draws: seq<Draw>, i: int)
    requires 0 < i < |draws|
    ensures SortedKeys(draws)[i] == SortedKeys(draws[1..])[i - 1]
  {
    var tail := draws[1..];
    SortedKeyAt(draws, i);
    SortedKeyAt(tail, i - 1);
    assert tail[i - 1] == draws[i];
  }

  /** The key of a draw is its sorted numbers. */
  lemma SortedKeyAt(draws: seq<Draw>, i: int)
    requires 0 <= i < |draws|
    ensures SortedKeys(draws)[i] == SortInts(draws[i].numbers)
  {
  }

  /** `value_counts()` of the sorted number tuples. */
  function CombinationTable(draws: seq<Draw>): (t: seq<Row>)
    ensures Ranked(t) && DistinctKeys(t)
    ensures forall r :: r in t ==> (Sorted(r.key) && r.count >= 1 &&
      r.count == |Filter(draws, SameNumbers(r.key))|)
    ensures forall i :: 0 <= i < |draws| ==> SortInts(draws[i].numbers) in Keys(t)
    ensures Total(t) == |draws|
  {
    CombinationTableFacts(draws);
    ValueCounts(SortedKeys(draws))
  }

  lemma {:induction false} CombinationTableFacts(draws: seq<Draw>)
    ensures forall r :: r in ValueCounts(SortedKeys(draws)) ==>
      Sorted(r.key) && r.count == |Filter(draws, SameNumbers(r.key))|
    ensures forall i :: 0 <= i < |draws| ==> SortInts(draws[i].numbers) in Keys(ValueCounts(SortedKeys(draws)))
  {
    var keys := SortedKeys(draws);
    forall r | r in ValueCounts(keys)
      ensures Sorted(r.key) && r.count == |Filter(draws, SameNumbers(r.key))|
    {
      assert r.key in keys;
      var i :| 0 <= i < |keys| && keys[i] == r.key;
      var p := draws[i].numbers;
      SortedKeyCount(draws, p);
      FilterSame(draws, SameNumbers(p), SameNumbers(r.key));
    }
    forall i | 0 <= i < |draws| ensures SortInts(draws[i].numbers) in Keys(ValueCounts(keys)) {
      assert keys[i] in keys;
    }
  }

  /** `combination`: the three most frequent exact combinations. */
  function Combination(draws: seq<Draw>): (o: Outcome<TableLine>)
    ensures o.Failed? <==> draws == []
    ensures o.Shown? <==> draws != []
  {
    // An empty result has no "winning_numbers" column: the KeyError is caught.
    if draws == [] then Failed
    else Shown(Head(FormatRows(CombinationTable(draws)), 3))
  }

  /**
   * `combination` prints the first three rows of the ranked table of exact
   * combinations (all of them when there are fewer, and at least one): each
   * once, each with the number of draws that hold exactly its numbers, and
   * no combination left out more frequent than one shown.
   */
  lemma CombinationRows(draws: seq<Draw>) returns (rows: seq<Row>)
    requires draws != []
    ensures FormatRows(rows) == Combination(draws).rows
    ensures 1 <= |rows| <= 3
    ensures Ranked(rows) && DistinctKeys(rows)
    ensures forall r :: r in rows ==> Sorted(r.key) && r.count == |Filter(draws, SameNumbers(r.key))|
    ensures TopRows(rows, CombinationTable(draws), 3)
  {
    var table := CombinationTable(draws);
    rows := Head(table, 3);
    HeadFormat(table, 3);
    HeadRanked(table, 3);
    HeadTopRows(table, 3);
    assert |table| > 0 by {
      assert SortInts(draws[0].numbers) in Keys(table);
    }
  }

  /**
   * When every draw has exactly `k` numbers, the groups of size `k` are the
   * exact combinations: `groupfreq -g 6` and `combination` count the same
   * thing for six-number draws.
   */
  lemma {:induction false} WholeDrawGroups(draws: seq<Draw>, k: nat)
    requires forall i :: 0 <= i < |draws| ==> |draws[i].numbers| == k
    ensures AllCombos(draws, k) == SortedKeys(draws)
  {
    if draws != [] {
      var init := draws[..|draws| - 1];
      var numbers := draws[|draws| - 1].numbers;
      assert forall i :: 0 <= i < |init| ==> |init[i].numbers| == k by {
        forall i | 0 <= i < |init| ensures |init[i].numbers| == k {
          assert init[i] == draws[i];
        }
      }
      WholeDrawGroups(init, k);
      var sorted := SortInts(numbers);
      assert |sorted| == k by {
        assert |multiset(sorted)| == |multiset(numbers)|;
      }
      CombosAll(sorted);
      assert Combos(sorted, k) == [sorted];
      assert AllCombos(draws, k) == SortedKeys(init) + [sorted];
      SortedKeysSnoc(draws);
    }
  }

  lemma SortedKeysSnoc(draws: seq<Draw>)
    requires draws != []
    ensures SortedKeys(draws) == SortedKeys(draws[..|draws| - 1]) + [SortInts(draws[|draws| - 1].numbers)]
  {
    var init := draws[..|draws| - 1];
    var lhs, rhs := SortedKeys(draws), SortedKeys(init) + [SortInts(draws[|draws| - 1].numbers)];
    assert |lhs| == |rhs|;
    forall i | 0 <= i < |lhs| ensures lhs[i] == rhs[i] {
      if i < |init| {
        assert init[i] == draws[i];
      }
    }
  }

  lemma GroupsOfAllAreCombinations(draws: seq<Draw>, k: nat)
    requires forall i :: 0 <= i < |draws| ==> |draws[i].numbers| == k
    ensures GroupTable(draws, k) == CombinationTable(draws)
  {
    WholeDrawGroups(draws, k);
  }
}
