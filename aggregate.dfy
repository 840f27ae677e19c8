/**
 * The summary tables of job_analyzer.py:157-182: value counts with their
 * top-10 heads, the per-skill mention counts and the per-day posting counts.
 */
module Aggregate {
  import opened Wrappers
  import opened Text

  /** How many entries of `xs` equal `x`. */
  function CountOf<T(==,!new)>(xs: seq<T>, x: T): (n: nat)
    ensures n <= |xs|
    ensures n > 0 <==> x in xs
  {
    if xs == [] then 0
    else
      var front := xs[..|xs| - 1];
      assert xs == front + [xs[|xs| - 1]];
      CountOf(front, x) + (if xs[|xs| - 1] == x then 1 else 0)
  }

  /** The distinct values of `xs`, in order of first occurrence. */
  function Distinct<T(==,!new)>(xs: seq<T>): (d: seq<T>)
    ensures forall x :: x in d <==> x in xs
    ensures forall i, j :: 0 <= i < j < |d| ==> d[i] != d[j]
  {
    if xs == [] then []
    else
      var front := xs[..|xs| - 1];
      var d := Distinct(front);
      assert xs == front + [xs[|xs| - 1]];
      if xs[|xs| - 1] in d then d else d + [xs[|xs| - 1]]
  }

  /** Counts never go up along the table. */
  predicate NonIncreasing<T>(t: seq<(T, nat)>)
  {
    forall i, j :: 0 <= i < j < |t| ==> t[i].1 >= t[j].1
  }

  /** No key appears twice in the table. */
  predicate DistinctKeys<T(==,!new)>(t: seq<(T, nat)>)
  {
    forall i, j :: 0 <= i < j < |t| ==> t[i].0 != t[j].0
  }

  /** Inserts `e` before the first entry whose count is not above `e`'s. */
  function InsertByCount<T(==,!new)>(e: (T, nat), sorted: seq<(T, nat)>): (r: seq<(T, nat)>)
    ensures multiset(r) == multiset(sorted) + multiset{e}
    ensures |r| == |sorted| + 1
  {
    if sorted == [] || e.1 >= sorted[0].1 then
      [e] + sorted
    else
      assert sorted == [sorted[0]] + sorted[1..];
      [sorted[0]] + InsertByCount(e, sorted[1..])
  }

  /** Every entry after an insertion is the inserted one or an old one. */
  lemma InsertByCountMembers<T(!new)>(e: (T, nat), sorted: seq<(T, nat)>)
    ensures forall i :: 0 <= i < |sorted| + 1 ==> InsertByCount(e, sorted)[i] in sorted + [e]
  {
    var r := InsertByCount(e, sorted);
    forall i | 0 <= i < |r|
      ensures r[i] in sorted + [e]
    {
      assert r[i] in multiset(r);
    }
  }

  /** Inserting into a table ordered by count keeps it ordered. */
  lemma {:induction false} InsertByCountOrdered<T(!new)>(e: (T, nat), sorted: seq<(T, nat)>)
    requires NonIncreasing(sorted)
    ensures NonIncreasing(InsertByCount(e, sorted))
  {
    if sorted != [] && e.1 < sorted[0].1 {
      var head, tail := sorted[0], sorted[1..];
      var rest := InsertByCount(e, tail);
      InsertByCountOrdered(e, tail);
      forall x | x in rest
        ensures x.1 <= head.1
      {
        assert x in multiset(tail) + multiset{e};
        if x != e {
          var j :| 0 <= j < |tail| && tail[j] == x;
          assert sorted[j + 1] == x;
        }
      }
      ConsOrdered(head, rest);
    }
  }

  lemma ConsOrdered<T>(head: (T, nat), rest: seq<(T, nat)>)
    requires NonIncreasing(rest) && forall x :: x in rest ==> x.1 <= head.1
    ensures NonIncreasing([head] + rest)
  {
    var r := [head] + rest;
    forall i, j | 0 <= i < j < |r|
      ensures r[i].1 >= r[j].1
    {
      assert r[j] == rest[j - 1];
      if i > 0 {
        assert r[i] == rest[i - 1];
      }
    }
  }

  lemma {:induction false} InsertByCountKeys<T(!new)>(e: (T, nat), sorted: seq<(T, nat)>)
    requires DistinctKeys(sorted) && forall x :: x in sorted ==> x.0 != e.0
    ensures DistinctKeys(InsertByCount(e, sorted))
  {
    if sorted != [] && e.1 < sorted[0].1 {
      InsertByCountKeys(e, sorted[1..]);
      var rest := InsertByCount(e, sorted[1..]);
      InsertByCountMembers(e, sorted[1..]);
      var r := [sorted[0]] + rest;
      forall i, j | 0 <= i < j < |r|
        ensures r[i].0 != r[j].0
      {
        assert r[j] == rest[j - 1];
        if i > 0 {
          assert r[i] == rest[i - 1];
        }
      }
    }
  }

  /** Orders a table by count, largest first. */
  function SortByCount<T(==,!new)>(es: seq<(T, nat)>): (r: seq<(T, nat)>)
    ensures multiset(r) == multiset(es)
    ensures NonIncreasing(r)
  {
    if es == [] then []
    else
      var rest := SortByCount(es[1..]);
      assert multiset(es) == multiset(es[1..]) + multiset{es[0]} by {
        assert es == [es[0]] + es[1..];
      }
      InsertByCountOrdered(es[0], rest);
      InsertByCount(es[0], rest)
  }

  lemma SameMembers<T>(a: seq<T>, b: seq<T>)
    requires multiset(a) == multiset(b)
    ensures forall x :: x in a <==> x in b
  {
    forall x
      ensures x in a <==> x in b
    {
      assert x in a <==> x in multiset(a);
      assert x in b <==> x in multiset(b);
    }
  }

  /** Sorting keeps the keys distinct. */
  lemma {:induction false} SortByCountKeys<T(!new)>(es: seq<(T, nat)>)
    requires DistinctKeys(es)
    ensures DistinctKeys(SortByCount(es))
  {
    if es != [] {
      assert DistinctKeys(es[1..]) && forall x :: x in es[1..] ==> x.0 != es[0].0;
      SortByCountKeys(es[1..]);
      SameMembers(SortByCount(es[1..]), es[1..]);
      InsertByCountKeys(es[0], SortByCount(es[1..]));
    }
  }

  /** Each key paired with its number of occurrences in `xs`. */
  function Tally<T(==,!new)>(keys: seq<T>, xs: seq<T>): seq<(T, nat)>
  {
    seq(|keys|, i requires 0 <= i < |keys| => (keys[i], CountOf(xs, keys[i])))
  }

  /** `Series.value_counts()`: each distinct value with its count, largest first. */
  function ValueCounts<T(==,!new)>(xs: seq<T>): seq<(T, nat)>
  {
    SortByCount(Tally(Distinct(xs), xs))
  }

  /** `value_counts().head(n)`. */
  function TopCounts<T(==,!new)>(xs: seq<T>, n: nat): seq<(T, nat)>
  {
    var vc := ValueCounts(xs);
    if |vc| <= n then vc else vc[..n]
  }

  /**
   * A top-n table of `xs`: at most n entries, one per value, each with its
   * true count (at least 1), largest first; every value left out occurs no
   * more often than any value shown; with fewer than n entries every value is shown.
   */
  ghost predicate TopTable<T(!new)>(t: seq<(T, nat)>, xs: seq<T>, n: nat)
  {
    && |t| <= n
    && DistinctKeys(t) && NonIncreasing(t)
    && (forall i :: 0 <= i < |t| ==> t[i].0 in xs && t[i].1 == CountOf(xs, t[i].0) && t[i].1 >= 1)
    && (forall x :: x in xs && (forall i :: 0 <= i < |t| ==> t[i].0 != x) ==>
          |t| == n && forall i :: 0 <= i < |t| ==> CountOf(xs, x) <= t[i].1)
  }

  /** Each entry of `value_counts()` is a distinct value of `xs` with its count, largest first. */
  lemma ValueCountsEntries<T(!new)>(xs: seq<T>)
    ensures |ValueCounts(xs)| == |Distinct(xs)|
    ensures DistinctKeys(ValueCounts(xs)) && NonIncreasing(ValueCounts(xs))
    ensures forall i :: 0 <= i < |ValueCounts(xs)| ==>
              ValueCounts(xs)[i].0 in xs && ValueCounts(xs)[i].1 == CountOf(xs, ValueCounts(xs)[i].0)
  {
    var tally := Tally(Distinct(xs), xs);
    var vc := ValueCounts(xs);
    assert DistinctKeys(tally);
    SortByCountKeys(tally);
    SameMembers(vc, tally);
    assert |vc| == |multiset(vc)| == |tally|;
    forall i | 0 <= i < |vc|
      ensures vc[i].0 in xs && vc[i].1 == CountOf(xs, vc[i].0)
    {
      assert vc[i] in tally;
    }
  }

  /** Every value of `xs` has an entry in `value_counts()`. */
  lemma ValueCountsIndex<T(!new)>(xs: seq<T>, x: T) returns (k: nat)
    requires x in xs
    ensures k < |ValueCounts(xs)| && ValueCounts(xs)[k].0 == x
  {
    var d := Distinct(xs);
    var tally := Tally(d, xs);
    var vc := ValueCounts(xs);
    SameMembers(vc, tally);
    var j :| 0 <= j < |d| && d[j] == x;
    assert tally[j] in vc;
    k :| 0 <= k < |vc| && vc[k] == tally[j];
  }

  /** `TopCounts` builds a top-n table with min(n, number of distinct values) entries. */
  lemma TopCountsSpec<T(!new)>(xs: seq<T>, n: nat)
    ensures |TopCounts(xs, n)| == (if |Distinct(xs)| <= n then |Distinct(xs)| else n)
    ensures TopTable(TopCounts(xs, n), xs, n)
  {
    var vc := ValueCounts(xs);
    var t := TopCounts(xs, n);
    ValueCountsEntries(xs);
    assert forall i :: 0 <= i < |t| ==> t[i] == vc[i];
    forall x | x in xs && (forall i :: 0 <= i < |t| ==> t[i].0 != x)
      ensures |t| == n && forall i :: 0 <= i < |t| ==> CountOf(xs, x) <= t[i].1
    {
      var k := ValueCountsIndex(xs, x);
      assert k >= |t|;
    }
  }

  // ---------------------------------------------------------------------
  // Skills
  // ---------------------------------------------------------------------

  const CommonSkills: seq<string> :=
    ["python", "java", "sql", "aws", "azure", "javascript",
     "react", "node", "docker", "kubernetes", "agile", "scrum"]

  /** Rows whose description mentions `skill`, ignoring case; a missing description never does. */
  function SkillMentions(descriptions: seq<Option<string>>, skill: string): (n: nat)
    ensures n <= |descriptions|
  {
    if descriptions == [] then 0
    else
      var last := descriptions[|descriptions| - 1];
      SkillMentions(descriptions[..|descriptions| - 1], skill)
      + (if last.Some? && ContainsFolded(last.value, skill) then 1 else 0)
  }

  /** The skill table before sorting: every skill of the vocabulary, in vocabulary order. */
  function SkillTally(descriptions: seq<Option<string>>): (t: seq<(string, nat)>)
    ensures DistinctKeys(t)
    ensures forall i :: 0 <= i < |t| ==> t[i].0 in CommonSkills && t[i].1 == SkillMentions(descriptions, t[i].0)
    ensures forall i :: 0 <= i < |t| ==> t[i].1 <= |descriptions|
    ensures forall skill :: skill in CommonSkills ==> exists i :: 0 <= i < |t| && t[i].0 == skill
  {
    var t := seq(|CommonSkills|, i requires 0 <= i < |CommonSkills| =>
      (CommonSkills[i], SkillMentions(descriptions, CommonSkills[i])));
    assert forall i :: 0 <= i < |t| ==> t[i].0 == CommonSkills[i];
    t
  }

  // ---------------------------------------------------------------------
  // Posting trends
  // ---------------------------------------------------------------------

  predicate StrictlyIncreasing(s: seq<int>)
  {
    forall i, j :: 0 <= i < j < |s| ==> s[i] < s[j]
  }

  /** Adds `d` to a strictly increasing list unless it is already there. */
  function InsertDay(sorted: seq<int>, d: int): (r: seq<int>)
    requires StrictlyIncreasing(sorted)
    ensures StrictlyIncreasing(r)
    ensures forall x :: x in r <==> x in sorted || x == d
  {
    if sorted == [] then [d]
    else if d < sorted[0] then [d] + sorted
    else if d == sorted[0] then sorted
    else
      var rest := InsertDay(sorted[1..], d);
      assert sorted == [sorted[0]] + sorted[1..];
      assert forall i :: 0 <= i < |rest| ==> rest[i] in rest && sorted[0] < rest[i];
      [sorted[0]] + rest
  }

  /** The distinct days of `days`, ascending. */
  function SortedDays(days: seq<int>): (r: seq<int>)
    ensures StrictlyIncreasing(r)
    ensures forall x :: x in r <==> x in days
  {
    if days == [] then []
    else
      var front := days[..|days| - 1];
      assert days == front + [days[|days| - 1]];
      InsertDay(SortedDays(front), days[|days| - 1])
  }

  /**
   * `value_counts().sort_index()` over calendar days: one entry per day that
   * has postings, days ascending, each with its number of postings.
   */
  function PostingTrends(days: seq<int>): (t: seq<(int, nat)>)
    ensures forall i, j :: 0 <= i < j < |t| ==> t[i].0 < t[j].0
    ensures forall i :: 0 <= i < |t| ==> t[i].0 in days && t[i].1 == CountOf(days, t[i].0) && t[i].1 >= 1
    ensures forall d :: d in days ==> exists i :: 0 <= i < |t| && t[i].0 == d
  {
    var keys := SortedDays(days);
    var t := Tally(keys, days);
    assert forall i :: 0 <= i < |keys| ==> t[i].0 == keys[i];
    assert forall d :: d in days ==> exists i :: 0 <= i < |keys| && keys[i] == d;
    t
  }

  /** The sum of the counts of a table. */
  function TotalCount<T>(t: seq<(T, nat)>): nat
  {
    if t == [] then 0 else t[0].1 + TotalCount(t[1..])
  }

  lemma {:induction false} TallyStep<T(!new)>(keys: seq<T>, xs: seq<T>, x: T)
    requires forall i, j :: 0 <= i < j < |keys| ==> keys[i] != keys[j]
    ensures TotalCount(Tally(keys, xs + [x])) == TotalCount(Tally(keys, xs)) + (if x in keys then 1 else 0)
  {
    if keys != [] {
      TallyStep(keys[1..], xs, x);
      assert Tally(keys, xs + [x])[1..] == Tally(keys[1..], xs + [x]);
      assert Tally(keys, xs)[1..] == Tally(keys[1..], xs);
      assert (xs + [x])[..|xs + [x]| - 1] == xs;
      assert x in keys <==> x == keys[0] || x in keys[1..];
      assert x == keys[0] ==> x !in keys[1..];
    }
  }

  lemma {:induction false} TallyTotal<T(!new)>(keys: seq<T>, xs: seq<T>)
    requires forall i, j :: 0 <= i < j < |keys| ==> keys[i] != keys[j]
    requires forall x :: x in xs ==> x in keys
    ensures TotalCount(Tally(keys, xs)) == |xs|
  {
    if xs == [] {
      if keys != [] {
        TallyTotal(keys[1..], xs);
        assert Tally(keys, xs)[1..] == Tally(keys[1..], xs);
      }
    } else {
      var front := xs[..|xs| - 1];
      assert xs == front + [xs[|xs| - 1]];
      TallyTotal(keys, front);
      TallyStep(keys, front, xs[|xs| - 1]);
    }
  }

  /** Every posting is counted on exactly one day: the day counts add up to the number of postings. */
  lemma PostingTrendsTotal(days: seq<int>)
    ensures TotalCount(PostingTrends(days)) == |days|
  {
    var keys := SortedDays(days);
    TallyTotal(keys, days);
  }
}
