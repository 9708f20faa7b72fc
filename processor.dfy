/**
 * The interval engine: merging a collection into its normal form, subtracting
 * one collection from another, and the composition of the two.
 *
 * Each of `MergeIntervals` and `SubtractIntervals` is a method with the
 * loops of the original, proved equal to a recursive specification function
 * (`Merged`, `Subtracted`); what the engine promises (coverage, normal form,
 * idempotence, canonicity) is proved about those functions.
 */
module Processor {
  import opened Intervals

  // ---------------------------------------------------------------------------
  // Sorting by start point
  // ---------------------------------------------------------------------------

  /** Puts `x` in front of the first element that does not start before it. */
  function InsertByStart(x: Interval, s: seq<Interval>): (r: seq<Interval>)
    ensures |r| == |s| + 1
  {
    if s == [] || x.start <= s[0].start then [x] + s
    else [s[0]] + InsertByStart(x, s[1..])
  }

  /** The comparator sort by start point; elements with equal starts keep their
      relative order, as the engine's stable sort keeps them. */
  function SortByStart(s: seq<Interval>): (r: seq<Interval>)
    ensures |r| == |s|
  {
    if s == [] then [] else InsertByStart(s[0], SortByStart(s[1..]))
  }

  lemma {:induction false} InsertStartsFrom(x: Interval, s: seq<Interval>, lo: int)
    requires StartsFrom(s, lo) && lo <= x.start
    ensures StartsFrom(InsertByStart(x, s), lo)
  {
    if s != [] && x.start > s[0].start {
      InsertStartsFrom(x, s[1..], lo);
    }
  }

  lemma {:induction false} InsertSorted(x: Interval, s: seq<Interval>)
    requires SortedByStart(s)
    ensures SortedByStart(InsertByStart(x, s))
  {
    if s != [] && x.start > s[0].start {
      InsertSorted(x, s[1..]);
      InsertStartsFrom(x, s[1..], s[0].start);
      ConsSorted(s[0], InsertByStart(x, s[1..]));
    } else {
      ConsSorted(x, s);
    }
  }

  lemma {:induction false} InsertMultiset(x: Interval, s: seq<Interval>)
    ensures multiset(InsertByStart(x, s)) == multiset(s) + multiset{x}
  {
    if s != [] && x.start > s[0].start {
      InsertMultiset(x, s[1..]);
      assert s == [s[0]] + s[1..];
    }
  }

  /** Sortedness of a collection with a given head. */
  lemma ConsSorted(a: Interval, t: seq<Interval>)
    ensures SortedByStart([a] + t) <==> StartsFrom(t, a.start) && SortedByStart(t)
  {
    var s := [a] + t;
    assert forall k :: 0 <= k < |t| ==> t[k] == s[k + 1];
    if StartsFrom(t, a.start) && SortedByStart(t) {
      forall i, j | 0 <= i < j < |s|
        ensures s[i].start <= s[j].start
      {
        if i > 0 {
          assert s[i] == t[i - 1] && s[j] == t[j - 1];
        }
      }
    }
    if SortedByStart(s) {
      forall k | 0 <= k < |t|
        ensures a.start <= t[k].start
      {
        assert s[0] == a;
      }
      forall i, j | 0 <= i < j < |t|
        ensures t[i].start <= t[j].start
      {
        assert s[i + 1] == t[i];
      }
    }
  }

  /** The sort returns a permutation of its input, ordered by start point. */
  lemma {:induction false} SortSpec(s: seq<Interval>)
    ensures SortedByStart(SortByStart(s))
    ensures multiset(SortByStart(s)) == multiset(s)
  {
    if s != [] {
      SortSpec(s[1..]);
      InsertSorted(s[0], SortByStart(s[1..]));
      InsertMultiset(s[0], SortByStart(s[1..]));
      assert s == [s[0]] + s[1..];
    }
  }

  /** Sorting a sorted collection changes nothing. */
  lemma {:induction false} SortOfSorted(s: seq<Interval>)
    requires SortedByStart(s)
    ensures SortByStart(s) == s
  {
    if s != [] {
      SortOfSorted(s[1..]);
      assert s == [s[0]] + s[1..];
    }
  }

  lemma SameElementsSameCoverage(a: seq<Interval>, b: seq<Interval>, x: int)
    requires multiset(a) == multiset(b)
    ensures Covers(a, x) <==> Covers(b, x)
  {
    if Covers(a, x) {
      var iv :| iv in a && Contains(iv, x);
      assert iv in multiset(b);
    }
    if Covers(b, x) {
      var iv :| iv in b && Contains(iv, x);
      assert iv in multiset(a);
    }
  }

  // ---------------------------------------------------------------------------
  // Merging
  // ---------------------------------------------------------------------------

  /** The sweep of the merge loop: `c` is the interval being grown and `rest`
      the sorted intervals not yet looked at. An interval that overlaps `c` or
      starts right after it extends `c`; any other one closes `c`. */
  function Sweep(c: Interval, rest: seq<Interval>): seq<Interval>
    decreases |rest|
  {
    if rest == [] then [c]
    else if rest[0].start <= c.end + 1 then Sweep(Interval(c.start, Max(c.end, rest[0].end)), rest[1..])
    else [c] + Sweep(rest[0], rest[1..])
  }

  /** What the merge returns: a copy of a collection of at most one interval,
      otherwise the sweep of the sorted collection. */
  function Merged(s: seq<Interval>): seq<Interval>
  {
    if |s| <= 1 then s
    else
      var sorted := SortByStart(s);
      Sweep(sorted[0], sorted[1..])
  }

  method MergeIntervals(intervals: seq<Interval>) returns (merged: seq<Interval>)
    ensures merged == Merged(intervals)
    ensures |intervals| <= 1 ==> merged == intervals
    ensures IsMerged(merged)
    ensures forall x :: Covers(merged, x) <==> Covers(intervals, x)
    ensures AllWellFormed(intervals) ==> AllWellFormed(merged)
    ensures |merged| <= |intervals|
  {
    MergedSpec(intervals);
    if |intervals| <= 1 {
      return intervals;
    }
    var sorted := SortByStart(intervals);
    merged := [];
    var current := sorted[0];
    for i := 1 to |sorted|
      invariant merged + Sweep(current, sorted[i..]) == Sweep(sorted[0], sorted[1..])
    {
      var next := sorted[i];
      assert sorted[i..] == [next] + sorted[i + 1..];
      if next.start <= current.end + 1 {
        current := Interval(current.start, Max(current.end, next.end));
      } else {
        merged := merged + [current];
        current := next;
      }
    }
    merged := merged + [current];
  }

  /** Every start in `s` is at least `lo`. */
  predicate StartsFrom(s: seq<Interval>, lo: int)
  {
    forall k :: 0 <= k < |s| ==> lo <= s[k].start
  }

  /** The sweep's first interval starts where `c` starts, and none starts earlier. */
  lemma {:induction false} SweepShape(c: Interval, rest: seq<Interval>)
    requires SortedByStart(rest) && StartsFrom(rest, c.start)
    ensures |Sweep(c, rest)| > 0 && Sweep(c, rest)[0].start == c.start
    ensures StartsFrom(Sweep(c, rest), c.start)
    ensures |Sweep(c, rest)| <= |rest| + 1
    decreases |rest|
  {
    if rest == [] {
    } else if rest[0].start <= c.end + 1 {
      SweepShape(Interval(c.start, Max(c.end, rest[0].end)), rest[1..]);
    } else {
      SweepShape(rest[0], rest[1..]);
    }
  }

  /** The sweep's output is sorted and every pair is apart by a gap. */
  lemma {:induction false} SweepMerged(c: Interval, rest: seq<Interval>)
    requires SortedByStart(rest) && StartsFrom(rest, c.start)
    ensures IsMerged(Sweep(c, rest))
    decreases |rest|
  {
    if rest == [] {
    } else if rest[0].start <= c.end + 1 {
      SweepMerged(Interval(c.start, Max(c.end, rest[0].end)), rest[1..]);
    } else {
      SweepMerged(rest[0], rest[1..]);
      SweepShape(rest[0], rest[1..]);
      var t := Sweep(rest[0], rest[1..]);
      assert forall k :: 0 <= k < |t| ==> c.end + 1 < t[k].start;
    }
  }

  /** The sweep covers exactly what `c` and `rest` cover. */
  lemma {:induction false} SweepCovers(c: Interval, rest: seq<Interval>, x: int)
    requires SortedByStart(rest) && StartsFrom(rest, c.start)
    ensures Covers(Sweep(c, rest), x) <==> Contains(c, x) || Covers(rest, x)
    decreases |rest|
  {
    assert Covers([c], x) <==> Contains(c, x) by {
      assert c in [c];
    }
    if rest == [] {
      assert Covers(rest, x) == false;
    } else {
      assert rest == [rest[0]] + rest[1..];
      CoversAppend([rest[0]], rest[1..], x);
      assert Covers([rest[0]], x) <==> Contains(rest[0], x) by {
        assert rest[0] in [rest[0]];
      }
      if rest[0].start <= c.end + 1 {
        SweepCovers(Interval(c.start, Max(c.end, rest[0].end)), rest[1..], x);
      } else {
        SweepCovers(rest[0], rest[1..], x);
        CoversAppend([c], Sweep(rest[0], rest[1..]), x);
      }
    }
  }

  lemma {:induction false} SweepWellFormed(c: Interval, rest: seq<Interval>)
    requires WellFormed(c) && AllWellFormed(rest)
    ensures AllWellFormed(Sweep(c, rest))
    decreases |rest|
  {
    if rest == [] {
    } else if rest[0].start <= c.end + 1 {
      SweepWellFormed(Interval(c.start, Max(c.end, rest[0].end)), rest[1..]);
    } else {
      SweepWellFormed(rest[0], rest[1..]);
    }
  }

  /** A sweep that meets no overlap or touching pair keeps every interval. */
  lemma {:induction false} SweepOfMerged(c: Interval, rest: seq<Interval>)
    requires IsMerged([c] + rest)
    ensures Sweep(c, rest) == [c] + rest
    decreases |rest|
  {
    if rest != [] {
      MergedTail(c, rest);
      assert rest == [rest[0]] + rest[1..];
      SweepOfMerged(rest[0], rest[1..]);
    }
  }

  lemma MergedTail(c: Interval, rest: seq<Interval>)
    requires IsMerged([c] + rest)
    ensures IsMerged(rest)
    ensures rest != [] ==> c.end + 1 < rest[0].start
  {
    var s := [c] + rest;
    assert forall k :: 0 <= k < |rest| ==> rest[k] == s[k + 1];
    if rest != [] {
      assert s[0] == c && s[1] == rest[0];
    }
  }

  /** The merge, for every input: its output is in normal form, covers exactly
      the integers the input covers, has no more intervals than the input, and
      is made of well-formed intervals when the input is. */
  lemma MergedSpec(s: seq<Interval>)
    ensures IsMerged(Merged(s))
    ensures forall x :: Covers(Merged(s), x) <==> Covers(s, x)
    ensures AllWellFormed(s) ==> AllWellFormed(Merged(s))
    ensures |Merged(s)| <= |s|
  {
    if |s| > 1 {
      var sorted := SortByStart(s);
      SortSpec(s);
      var rest := sorted[1..];
      assert SortedByStart(rest);
      assert StartsFrom(rest, sorted[0].start) by {
        assert forall k :: 0 <= k < |rest| ==> rest[k] == sorted[k + 1];
      }
      SweepMerged(sorted[0], rest);
      SweepShape(sorted[0], rest);
      forall x
        ensures Covers(Merged(s), x) <==> Covers(s, x)
      {
        SweepCovers(sorted[0], rest, x);
        assert sorted == [sorted[0]] + rest;
        CoversAppend([sorted[0]], rest, x);
        assert Covers([sorted[0]], x) <==> Contains(sorted[0], x) by {
          assert sorted[0] in [sorted[0]];
        }
        SameElementsSameCoverage(sorted, s, x);
      }
      if AllWellFormed(s) {
        assert forall k :: 0 <= k < |sorted| ==> sorted[k] in multiset(s);
        assert AllWellFormed(rest) by {
          assert forall k :: 0 <= k < |rest| ==> rest[k] == sorted[k + 1];
        }
        SweepWellFormed(sorted[0], rest);
      }
    }
  }

  /** A collection already in normal form is its own merge. */
  lemma MergedOfMerged(s: seq<Interval>)
    requires IsMerged(s)
    ensures Merged(s) == s
  {
    if |s| > 1 {
      SortOfSorted(s);
      assert s == [s[0]] + s[1..];
      SweepOfMerged(s[0], s[1..]);
    }
  }

  /** Merging twice is merging once. */
  lemma MergeIdempotent(s: seq<Interval>)
    ensures Merged(Merged(s)) == Merged(s)
  {
    MergedSpec(s);
    MergedOfMerged(Merged(s));
  }

  /** The merge of well-formed intervals is the only normal-form collection of
      well-formed intervals that covers the same integers. */
  lemma MergedCanonical(s: seq<Interval>, m: seq<Interval>)
    requires AllWellFormed(s)
    requires IsMerged(m) && AllWellFormed(m)
    requires forall x :: Covers(m, x) <==> Covers(s, x)
    ensures m == Merged(s)
  {
    MergedSpec(s);
    MergedUnique(m, Merged(s));
  }

  /** For well-formed intervals, the merge depends only on which intervals are
      given, not on their order. */
  lemma MergeOrderIndependent(s: seq<Interval>, t: seq<Interval>)
    requires AllWellFormed(s) && multiset(s) == multiset(t)
    ensures Merged(s) == Merged(t)
  {
    assert AllWellFormed(t) by {
      assert forall k :: 0 <= k < |t| ==> t[k] in multiset(s);
    }
    MergedSpec(s);
    MergedSpec(t);
    forall x
      ensures Covers(Merged(s), x) <==> Covers(Merged(t), x)
    {
      SameElementsSameCoverage(s, t, x);
    }
    MergedUnique(Merged(s), Merged(t));
  }

  // ---------------------------------------------------------------------------
  // Subtraction
  // ---------------------------------------------------------------------------

  /** The skip loop: from index `k`, passes over the excludes that end before `cs`. */
  function Skip(excludes: seq<Interval>, k: nat, cs: int): (r: nat)
    requires k <= |excludes|
    ensures k <= r <= |excludes|
    decreases |excludes| - k
  {
    if k < |excludes| && excludes[k].end < cs then Skip(excludes, k + 1, cs) else k
  }

  /** The inner loop and the tail push for one include: `cs` is the current
      start, `e` the include's end and `t` the next exclude to look at. Returns
      the pieces pushed. */
  function Cut(cs: int, e: int, excludes: seq<Interval>, t: nat): seq<Interval>
    requires t <= |excludes|
    decreases |excludes| - t
  {
    if t < |excludes| && excludes[t].start <= e then
      var next := Max(cs, excludes[t].end + 1);
      if next > e then Gap(cs, e, excludes[t]) else Gap(cs, e, excludes[t]) + Cut(next, e, excludes, t + 1)
    else if cs <= e then [Interval(cs, e)]
    else []
  }

  /** The piece pushed before exclude `ex` when it starts after the current start. */
  function Gap(cs: int, e: int, ex: Interval): seq<Interval>
  {
    if ex.start > cs then [Interval(cs, Min(ex.start - 1, e))] else []
  }

  /** The outer loop over the includes, with the exclude cursor at `k`. */
  function SubtractFrom(includes: seq<Interval>, excludes: seq<Interval>, k: nat): seq<Interval>
    requires k <= |excludes|
    decreases |includes|
  {
    if includes == [] then []
    else
      var k' := Skip(excludes, k, includes[0].start);
      Cut(includes[0].start, includes[0].end, excludes, k') + SubtractFrom(includes[1..], excludes, k')
  }

  /** What the subtraction returns, with the two early returns of the original. */
  function Subtracted(includes: seq<Interval>, excludes: seq<Interval>): seq<Interval>
  {
    if |includes| == 0 then []
    else if |excludes| == 0 then includes
    else SubtractFrom(includes, excludes, 0)
  }

  method SubtractIntervals(includes: seq<Interval>, excludes: seq<Interval>) returns (result: seq<Interval>)
    ensures result == Subtracted(includes, excludes)
    ensures SortedByStart(includes) && SortedByStart(excludes) ==>
              forall x :: Covers(result, x) <==> Covers(includes, x) && !Covers(excludes, x)
    ensures AllWellFormed(includes) ==> AllWellFormed(result)
    ensures IsMerged(includes) && SortedByStart(excludes) && AllWellFormed(excludes) ==> IsMerged(result)
  {
    if |includes| == 0 {
      SubtractedSpec(includes, excludes);
      return [];
    }
    if |excludes| == 0 {
      SubtractedSpec(includes, excludes);
      return includes;
    }
    result := [];
    var excludeIndex := 0;
    for i := 0 to |includes|
      invariant excludeIndex <= |excludes|
      invariant result + SubtractFrom(includes[i..], excludes, excludeIndex) == SubtractFrom(includes, excludes, 0)
    {
      var inc := includes[i];
      var currentStart := inc.start;
      var includeEnd := inc.end;
      ghost var k0 := excludeIndex;
      ghost var before := result;

      while excludeIndex < |excludes| && excludes[excludeIndex].end < currentStart
        invariant k0 <= excludeIndex <= |excludes|
        invariant Skip(excludes, excludeIndex, currentStart) == Skip(excludes, k0, currentStart)
        decreases |excludes| - excludeIndex
      {
        excludeIndex := excludeIndex + 1;
      }
      assert excludeIndex == Skip(excludes, k0, inc.start);
      SubtractFromStep(includes, i, excludes, k0);

      var tempExcludeIndex := excludeIndex;
      while tempExcludeIndex < |excludes| && excludes[tempExcludeIndex].start <= includeEnd
        invariant excludeIndex <= tempExcludeIndex <= |excludes|
        invariant result + Cut(currentStart, includeEnd, excludes, tempExcludeIndex)
                  == before + Cut(inc.start, includeEnd, excludes, excludeIndex)
        decreases |excludes| - tempExcludeIndex
      {
        var exclude := excludes[tempExcludeIndex];
        CutStep(currentStart, includeEnd, excludes, tempExcludeIndex);
        GapAppend(result, currentStart, includeEnd, exclude);
        ghost var pending := Cut(Max(currentStart, exclude.end + 1), includeEnd, excludes, tempExcludeIndex + 1);
        AppendAssoc(result, Gap(currentStart, includeEnd, exclude), pending);
        if exclude.start > currentStart {
          result := result + [Interval(currentStart, Min(exclude.start - 1, includeEnd))];
        }
        currentStart := Max(currentStart, exclude.end + 1);
        if currentStart > includeEnd {
          break;
        }
        tempExcludeIndex := tempExcludeIndex + 1;
      }

      if currentStart <= includeEnd {
        result := result + [Interval(currentStart, includeEnd)];
      }
      assert result == before + Cut(inc.start, includeEnd, excludes, excludeIndex);
      AppendAssoc(before, Cut(inc.start, includeEnd, excludes, excludeIndex),
                  SubtractFrom(includes[i + 1..], excludes, excludeIndex));
    }
    SubtractedSpec(includes, excludes);
  }

  lemma AppendAssoc(a: seq<Interval>, b: seq<Interval>, c: seq<Interval>)
    ensures (a + b) + c == a + (b + c)
  {
  }

  lemma GapAppend(r: seq<Interval>, cs: int, e: int, ex: Interval)
    ensures ex.start > cs ==> r + Gap(cs, e, ex) == r + [Interval(cs, Min(ex.start - 1, e))]
    ensures ex.start <= cs ==> r + Gap(cs, e, ex) == r
  {
  }

  /** One turn of the inner loop, at an exclude that starts inside the include. */
  lemma CutStep(cs: int, e: int, excludes: seq<Interval>, t: nat)
    requires t < |excludes| && excludes[t].start <= e
    ensures Max(cs, excludes[t].end + 1) > e ==> Cut(cs, e, excludes, t) == Gap(cs, e, excludes[t])
    ensures Max(cs, excludes[t].end + 1) <= e ==>
              Cut(cs, e, excludes, t) == Gap(cs, e, excludes[t]) + Cut(Max(cs, excludes[t].end + 1), e, excludes, t + 1)
  {
  }

  /** One turn of the outer loop: the include at `i` contributes its cut, and the
      cursor moves to where the skip loop stops. */
  lemma SubtractFromStep(includes: seq<Interval>, i: nat, excludes: seq<Interval>, k: nat)
    requires i < |includes| && k <= |excludes|
    ensures SubtractFrom(includes[i..], excludes, k)
            == Cut(includes[i].start, includes[i].end, excludes, Skip(excludes, k, includes[i].start))
               + SubtractFrom(includes[i + 1..], excludes, Skip(excludes, k, includes[i].start))
  {
    assert includes[i..][1..] == includes[i + 1..];
  }

  /** Every piece lies between `lo` and `hi`. */
  predicate Within(s: seq<Interval>, lo: int, hi: int)
  {
    forall k :: 0 <= k < |s| ==> lo <= s[k].start && s[k].end <= hi
  }

  /** The excludes the skip loop passes over end before `cs`, and it stops at one
      that does not. */
  lemma {:induction false} SkipSpec(excludes: seq<Interval>, k: nat, cs: int)
    requires k <= |excludes|
    ensures forall j :: k <= j < Skip(excludes, k, cs) ==> excludes[j].end < cs
    ensures Skip(excludes, k, cs) < |excludes| ==> excludes[Skip(excludes, k, cs)].end >= cs
    decreases |excludes| - k
  {
    if k < |excludes| && excludes[k].end < cs {
      SkipSpec(excludes, k + 1, cs);
    }
  }

  /** Skipping loses nothing that matters from `cs` on. */
  lemma SkipCovers(excludes: seq<Interval>, k: nat, cs: int, x: int)
    requires k <= |excludes| && cs <= x
    ensures Covers(excludes[Skip(excludes, k, cs)..], x) <==> Covers(excludes[k..], x)
  {
    var r := Skip(excludes, k, cs);
    SkipSpec(excludes, k, cs);
    assert excludes[k..] == excludes[k..r] + excludes[r..];
    CoversAppend(excludes[k..r], excludes[r..], x);
  }

  /** The excludes from `t` on cover nothing below the start of the first of them. */
  lemma SortedCoversFrom(excludes: seq<Interval>, t: nat, x: int)
    requires SortedByStart(excludes) && t < |excludes| && x < excludes[t].start
    ensures !Covers(excludes[t..], x)
  {
  }

  lemma CoversFromStep(excludes: seq<Interval>, t: nat, x: int)
    requires t < |excludes|
    ensures Covers(excludes[t..], x) <==> Contains(excludes[t], x) || Covers(excludes[t + 1..], x)
  {
    assert excludes[t..] == [excludes[t]] + excludes[t + 1..];
    CoversAppend([excludes[t]], excludes[t + 1..], x);
    assert excludes[t] in [excludes[t]];
  }

  lemma SingleCovers(iv: Interval, x: int)
    ensures Covers([iv], x) <==> Contains(iv, x)
  {
    assert iv in [iv];
  }

  /** One include cut by the sorted excludes from `t` on: the pieces cover the
      integers from `cs` to `e` that no such exclude covers. */
  lemma {:induction false} CutCovers(cs: int, e: int, excludes: seq<Interval>, t: nat, x: int)
    requires t <= |excludes| && SortedByStart(excludes)
    ensures Covers(Cut(cs, e, excludes, t), x) <==> cs <= x <= e && !Covers(excludes[t..], x)
    decreases |excludes| - t
  {
    if t < |excludes| && excludes[t].start <= e {
      var ex := excludes[t];
      var gap := Gap(cs, e, ex);
      var next := Max(cs, ex.end + 1);
      CoversFromStep(excludes, t, x);
      if x < ex.start {
        SortedCoversFrom(excludes, t, x);
      }
      assert Covers(gap, x) <==> cs <= x < ex.start by {
        if ex.start > cs {
          SingleCovers(Interval(cs, Min(ex.start - 1, e)), x);
        }
      }
      if next <= e {
        CutCovers(next, e, excludes, t + 1, x);
        CoversAppend(gap, Cut(next, e, excludes, t + 1), x);
        if ex.start <= x && t + 1 < |excludes| && x < excludes[t + 1].start {
          SortedCoversFrom(excludes, t + 1, x);
        }
      }
    } else {
      if t < |excludes| && x <= e {
        SortedCoversFrom(excludes, t, x);
      }
      if cs <= e {
        SingleCovers(Interval(cs, e), x);
      }
    }
  }

  /** Every piece of one cut is well formed and lies inside the include. */
  lemma {:induction false} CutWithin(cs: int, e: int, excludes: seq<Interval>, t: nat)
    requires t <= |excludes|
    ensures AllWellFormed(Cut(cs, e, excludes, t))
    ensures Within(Cut(cs, e, excludes, t), cs, e)
    decreases |excludes| - t
  {
    if t < |excludes| && excludes[t].start <= e {
      var next := Max(cs, excludes[t].end + 1);
      if next <= e {
        CutWithin(next, e, excludes, t + 1);
      }
    }
  }

  /** Two normal-form collections, the first entirely below `m` and the second
      entirely above `m + 1`, concatenate into a normal-form collection. */
  lemma MergedConcat(a: seq<Interval>, b: seq<Interval>, m: int)
    requires IsMerged(a) && IsMerged(b)
    requires forall i :: 0 <= i < |a| ==> a[i].start <= m && a[i].end <= m
    requires forall j :: 0 <= j < |b| ==> m + 1 < b[j].start
    ensures IsMerged(a + b)
  {
    var s := a + b;
    forall i, j | 0 <= i < j < |s|
      ensures s[i].start <= s[j].start && s[i].end + 1 < s[j].start
    {
      if j < |a| {
        assert s[i] == a[i] && s[j] == a[j];
      } else if i >= |a| {
        assert s[i] == b[i - |a|] && s[j] == b[j - |a|];
      } else {
        assert s[i] == a[i] && s[j] == b[j - |a|];
      }
    }
  }

  /** The pieces of one cut are in normal form when the excludes are well formed. */
  lemma {:induction false} CutMerged(cs: int, e: int, excludes: seq<Interval>, t: nat)
    requires t <= |excludes|
    requires forall j :: t <= j < |excludes| ==> WellFormed(excludes[j])
    ensures IsMerged(Cut(cs, e, excludes, t))
    decreases |excludes| - t
  {
    if t < |excludes| && excludes[t].start <= e {
      var ex := excludes[t];
      var gap := Gap(cs, e, ex);
      var next := Max(cs, ex.end + 1);
      if next <= e {
        CutMerged(next, e, excludes, t + 1);
        CutWithin(next, e, excludes, t + 1);
        MergedConcat(gap, Cut(next, e, excludes, t + 1), ex.start - 1);
      }
    }
  }

  lemma {:induction false} SubtractFromCovers(includes: seq<Interval>, excludes: seq<Interval>, k: nat, x: int)
    requires k <= |excludes| && SortedByStart(includes) && SortedByStart(excludes)
    ensures Covers(SubtractFrom(includes, excludes, k), x) <==> Covers(includes, x) && !Covers(excludes[k..], x)
    decreases |includes|
  {
    if includes != [] {
      var iv := includes[0];
      var k' := Skip(excludes, k, iv.start);
      assert includes == [iv] + includes[1..];
      CoversAppend([iv], includes[1..], x);
      SingleCovers(iv, x);
      CutCovers(iv.start, iv.end, excludes, k', x);
      SubtractFromCovers(includes[1..], excludes, k', x);
      CoversAppend(Cut(iv.start, iv.end, excludes, k'), SubtractFrom(includes[1..], excludes, k'), x);
      if iv.start <= x {
        SkipCovers(excludes, k, iv.start, x);
      }
      if Covers(includes[1..], x) {
        var w :| w in includes[1..] && Contains(w, x);
        var j :| 0 <= j < |includes[1..]| && includes[1..][j] == w;
        assert includes[j + 1] == w;
        SkipCovers(excludes, k, iv.start, x);
      }
    }
  }

  lemma {:induction false} SubtractFromWellFormed(includes: seq<Interval>, excludes: seq<Interval>, k: nat)
    requires k <= |excludes|
    ensures AllWellFormed(SubtractFrom(includes, excludes, k))
    decreases |includes|
  {
    if includes != [] {
      var k' := Skip(excludes, k, includes[0].start);
      CutWithin(includes[0].start, includes[0].end, excludes, k');
      SubtractFromWellFormed(includes[1..], excludes, k');
    }
  }

  lemma {:induction false} SubtractFromStarts(includes: seq<Interval>, excludes: seq<Interval>, k: nat, lo: int)
    requires k <= |excludes| && StartsFrom(includes, lo)
    ensures StartsFrom(SubtractFrom(includes, excludes, k), lo)
    decreases |includes|
  {
    if includes != [] {
      var k' := Skip(excludes, k, includes[0].start);
      CutWithin(includes[0].start, includes[0].end, excludes, k');
      SubtractFromStarts(includes[1..], excludes, k', lo);
    }
  }

  lemma {:induction false} SubtractFromMerged(includes: seq<Interval>, excludes: seq<Interval>, k: nat)
    requires k <= |excludes| && IsMerged(includes) && AllWellFormed(excludes)
    ensures IsMerged(SubtractFrom(includes, excludes, k))
    decreases |includes|
  {
    if includes != [] {
      var iv := includes[0];
      var k' := Skip(excludes, k, iv.start);
      assert includes == [iv] + includes[1..];
      MergedTail(iv, includes[1..]);
      SubtractFromMerged(includes[1..], excludes, k');
      CutMerged(iv.start, iv.end, excludes, k');
      CutWithin(iv.start, iv.end, excludes, k');
      assert StartsFrom(includes[1..], iv.end + 2) by {
        assert forall j :: 0 <= j < |includes[1..]| ==> includes[1..][j] == includes[j + 1];
      }
      SubtractFromStarts(includes[1..], excludes, k', iv.end + 2);
      MergedConcat(Cut(iv.start, iv.end, excludes, k'), SubtractFrom(includes[1..], excludes, k'), iv.end);
    }
  }

  /**
   * The subtraction. With both inputs sorted by start, the result covers exactly
   * the integers some include covers and no exclude covers. Its intervals are
   * well formed when the includes are, and the result is in normal form when the
   * includes are and the excludes are sorted and well formed.
   */
  lemma SubtractedSpec(includes: seq<Interval>, excludes: seq<Interval>)
    ensures SortedByStart(includes) && SortedByStart(excludes) ==>
              forall x :: Covers(Subtracted(includes, excludes), x) <==> Covers(includes, x) && !Covers(excludes, x)
    ensures AllWellFormed(includes) ==> AllWellFormed(Subtracted(includes, excludes))
    ensures IsMerged(includes) && SortedByStart(excludes) && AllWellFormed(excludes) ==>
              IsMerged(Subtracted(includes, excludes))
  {
    if |includes| > 0 && |excludes| > 0 {
      assert excludes[0..] == excludes;
      if SortedByStart(includes) && SortedByStart(excludes) {
        forall x
          ensures Covers(Subtracted(includes, excludes), x) <==> Covers(includes, x) && !Covers(excludes, x)
        {
          SubtractFromCovers(includes, excludes, 0, x);
        }
      }
      SubtractFromWellFormed(includes, excludes, 0);
      if IsMerged(includes) && AllWellFormed(excludes) {
        SubtractFromMerged(includes, excludes, 0);
      }
    } else if |includes| > 0 {
      assert forall x :: !Covers(excludes, x);
    }
  }

  /** The two early returns: nothing to subtract from, and nothing to subtract.
      The latter is their merge exactly when the includes are in normal form. */
  lemma SubtractedEdgeCases(includes: seq<Interval>, excludes: seq<Interval>)
    ensures Subtracted([], excludes) == []
    ensures Subtracted(includes, []) == includes
    ensures Subtracted(includes, []) == Merged(includes) <==> IsMerged(includes)
  {
    MergedSpec(includes);
    if IsMerged(includes) {
      MergedOfMerged(includes);
    }
  }

  /** `p` lies inside `iv`. */
  predicate Inside(p: Interval, iv: Interval)
  {
    iv.start <= p.start && p.end <= iv.end
  }

  lemma {:induction false} SubtractFromInside(includes: seq<Interval>, excludes: seq<Interval>, k: nat)
    requires k <= |excludes|
    ensures forall p :: p in SubtractFrom(includes, excludes, k) ==> exists iv :: iv in includes && Inside(p, iv)
    decreases |includes|
  {
    if includes != [] {
      var k' := Skip(excludes, k, includes[0].start);
      var c := Cut(includes[0].start, includes[0].end, excludes, k');
      var rest := SubtractFrom(includes[1..], excludes, k');
      CutWithin(includes[0].start, includes[0].end, excludes, k');
      SubtractFromInside(includes[1..], excludes, k');
      forall p | p in c + rest
        ensures exists iv :: iv in includes && Inside(p, iv)
      {
        if p in c {
          var j :| 0 <= j < |c| && c[j] == p;
          assert includes[0] in includes && Inside(p, includes[0]);
        } else {
          var iv :| iv in includes[1..] && Inside(p, iv);
          assert iv in includes;
        }
      }
    }
  }

  /** Every piece of the subtraction lies inside one of the includes. */
  lemma SubtractedInsideIncludes(includes: seq<Interval>, excludes: seq<Interval>)
    ensures forall p :: p in Subtracted(includes, excludes) ==> exists iv :: iv in includes && Inside(p, iv)
  {
    if |includes| > 0 && |excludes| > 0 {
      SubtractFromInside(includes, excludes, 0);
    } else {
      forall p | p in Subtracted(includes, excludes)
        ensures exists iv :: iv in includes && Inside(p, iv)
      {
        assert Inside(p, p);
      }
    }
  }

  /** With both sides sorted by start, no piece of the subtraction shares an
      integer with any exclude. */
  lemma SubtractedAvoidsExcludes(includes: seq<Interval>, excludes: seq<Interval>)
    requires SortedByStart(includes) && SortedByStart(excludes)
    ensures forall p, ex, x :: p in Subtracted(includes, excludes) && ex in excludes && Contains(p, x) ==> !Contains(ex, x)
  {
    SubtractedSpec(includes, excludes);
    forall p, ex, x | p in Subtracted(includes, excludes) && ex in excludes && Contains(p, x)
      ensures !Contains(ex, x)
    {
      assert Covers(Subtracted(includes, excludes), x);
    }
  }

  // ---------------------------------------------------------------------------
  // Processing: merge both sides, then subtract
  // ---------------------------------------------------------------------------

  /** The result of processing: the merged includes minus the merged excludes. */
  function Processed(includes: seq<Interval>, excludes: seq<Interval>): seq<Interval>
  {
    Subtracted(Merged(includes), Merged(excludes))
  }

  /** Merges both lists, then subtracts, computing `Processed`; the properties of
      processing are proved about that function below. */
  method ProcessIntervals(includes: seq<Interval>, excludes: seq<Interval>) returns (result: seq<Interval>)
    ensures result == Processed(includes, excludes)
    ensures forall x :: Covers(result, x) <==> Covers(includes, x) && !Covers(excludes, x)
    ensures AllWellFormed(includes) ==> AllWellFormed(result)
    ensures AllWellFormed(excludes) ==> IsMerged(result)
  {
    var mergedIncludes := MergeIntervals(includes);
    var mergedExcludes := MergeIntervals(excludes);
    result := SubtractIntervals(mergedIncludes, mergedExcludes);
  }

  /**
   * Processing, for every input: the result covers exactly the integers some
   * include covers and no exclude covers; it is made of well-formed intervals
   * when the includes are, and is in normal form when the excludes are well formed.
   */
  lemma ProcessedSpec(includes: seq<Interval>, excludes: seq<Interval>)
    ensures forall x :: Covers(Processed(includes, excludes), x) <==> Covers(includes, x) && !Covers(excludes, x)
    ensures AllWellFormed(includes) ==> AllWellFormed(Processed(includes, excludes))
    ensures AllWellFormed(excludes) ==> IsMerged(Processed(includes, excludes))
  {
    MergedSpec(includes);
    MergedSpec(excludes);
    SubtractedSpec(Merged(includes), Merged(excludes));
  }

  /** For well-formed input, the result is the one normal-form collection of
      well-formed intervals covering the includes minus the excludes. */
  lemma ProcessedCanonical(includes: seq<Interval>, excludes: seq<Interval>, m: seq<Interval>)
    requires AllWellFormed(includes) && AllWellFormed(excludes)
    requires IsMerged(m) && AllWellFormed(m)
    requires forall x :: Covers(m, x) <==> Covers(includes, x) && !Covers(excludes, x)
    ensures m == Processed(includes, excludes)
  {
    ProcessedSpec(includes, excludes);
    MergedUnique(m, Processed(includes, excludes));
  }

  /** For well-formed input, the order in which the intervals are listed does not
      change the result. */
  lemma ProcessedOrderIndependent(i1: seq<Interval>, e1: seq<Interval>, i2: seq<Interval>, e2: seq<Interval>)
    requires AllWellFormed(i1) && AllWellFormed(e1)
    requires multiset(i1) == multiset(i2) && multiset(e1) == multiset(e2)
    ensures Processed(i1, e1) == Processed(i2, e2)
  {
    MergeOrderIndependent(i1, i2);
    MergeOrderIndependent(e1, e2);
  }

  /** The worked examples: a hole in the middle, merging without excludes, and
      an exclude that straddles two includes. */
  lemma ProcessedExamples()
    ensures Processed([Interval(10, 100)], [Interval(20, 30)]) == [Interval(10, 19), Interval(31, 100)]
    ensures Processed([Interval(50, 5000), Interval(10, 100)], []) == [Interval(10, 5000)]
    ensures Processed([Interval(200, 300), Interval(50, 150)], [Interval(95, 205)])
            == [Interval(50, 94), Interval(206, 300)]
  {
  }

  /** The worked example with three includes and three overlapping excludes. */
  lemma ProcessedLargerExample()
    ensures Processed([Interval(200, 300), Interval(10, 100), Interval(400, 500)],
                      [Interval(410, 420), Interval(95, 205), Interval(100, 150)])
            == [Interval(10, 94), Interval(206, 300), Interval(400, 409), Interval(421, 500)]
  {
  }
}
