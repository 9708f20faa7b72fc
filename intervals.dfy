/**
 * The interval record and the vocabulary shared by the parser, the merger and
 * the subtractor: which integers a collection covers, and what a merged
 * (sorted, disjoint, non-adjacent) collection is.
 */
module Intervals {

  /** A closed range of integers: both `start` and `end` are included. */
  datatype Interval = Interval(start: int, end: int)

  function Min(a: int, b: int): (m: int)
    ensures m <= a && m <= b && (m == a || m == b)
  {
    if a <= b then a else b
  }

  function Max(a: int, b: int): (m: int)
    ensures m >= a && m >= b && (m == a || m == b)
  {
    if a >= b then a else b
  }

  /** The normalisation the parser applies: the smaller bound first. */
  function Normalize(iv: Interval): Interval
  {
    Interval(Min(iv.start, iv.end), Max(iv.start, iv.end))
  }

  predicate WellFormed(iv: Interval)
  {
    iv.start <= iv.end
  }

  predicate AllWellFormed(s: seq<Interval>)
  {
    forall i :: 0 <= i < |s| ==> WellFormed(s[i])
  }

  predicate Contains(iv: Interval, x: int)
  {
    iv.start <= x <= iv.end
  }

  /** The integer `x` lies in some interval of `s`. */
  predicate Covers(s: seq<Interval>, x: int)
  {
    exists iv :: iv in s && Contains(iv, x)
  }

  predicate SortedByStart(s: seq<Interval>)
  {
    forall i, j :: 0 <= i < j < |s| ==> s[i].start <= s[j].start
  }

  /** Every later interval starts at least two past the end of every earlier one:
      no overlap and no touching pair. */
  predicate Separated(s: seq<Interval>)
  {
    forall i, j :: 0 <= i < j < |s| ==> s[i].end + 1 < s[j].start
  }

  /** The normal form the merger produces. */
  predicate IsMerged(s: seq<Interval>)
  {
    SortedByStart(s) && Separated(s)
  }

  lemma CoversAppend(a: seq<Interval>, b: seq<Interval>, x: int)
    ensures Covers(a + b, x) <==> Covers(a, x) || Covers(b, x)
  {
    if Covers(a + b, x) {
      var iv :| iv in a + b && Contains(iv, x);
      assert iv in a || iv in b;
    }
    if Covers(a, x) {
      var iv :| iv in a && Contains(iv, x);
      assert iv in a + b;
    }
    if Covers(b, x) {
      var iv :| iv in b && Contains(iv, x);
      assert iv in a + b;
    }
  }

  /** What the head of a merged collection says about the integers it covers. */
  lemma MergedHead(a: seq<Interval>, x: int)
    requires IsMerged(a) && |a| > 0
    ensures Covers(a, x) ==> a[0].start <= x
    ensures Covers(a, x) ==> Contains(a[0], x) || a[0].end + 1 < x
    ensures Covers(a[1..], x) <==> Covers(a, x) && a[0].end < x
  {
    if Covers(a, x) {
      var iv :| iv in a && Contains(iv, x);
      var k :| 0 <= k < |a| && a[k] == iv;
      if k > 0 {
        assert a[0].end + 1 < a[k].start;
        assert iv in a[1..];
      }
    }
    if Covers(a[1..], x) {
      var iv :| iv in a[1..] && Contains(iv, x);
      var k :| 1 <= k < |a| && a[k] == iv;
      assert a[0].end + 1 < a[k].start;
    }
  }

  lemma HeadCovered(s: seq<Interval>)
    ensures |s| > 0 && WellFormed(s[0]) ==> Covers(s, s[0].start)
  {
    if |s| > 0 {
      assert s[0] in s;
    }
  }

  /**
   * A merged collection of well-formed intervals is determined by the set of
   * integers it covers: the merger's output is a canonical form.
   */
  lemma {:induction false} MergedUnique(a: seq<Interval>, b: seq<Interval>)
    requires IsMerged(a) && AllWellFormed(a)
    requires IsMerged(b) && AllWellFormed(b)
    requires forall x :: Covers(a, x) <==> Covers(b, x)
    ensures a == b
  {
    HeadCovered(a);
    HeadCovered(b);
    if a != [] && b != [] {
      assert a[0] in a && Contains(a[0], a[0].start);
      assert b[0] in b && Contains(b[0], b[0].start);
      MergedHead(a, b[0].start);
      MergedHead(b, a[0].start);
      assert a[0].start == b[0].start;
      if a[0].end < b[0].end {
        var x := a[0].end + 1;
        assert Contains(b[0], x);
        MergedHead(a, x);
        assert false;
      }
      if b[0].end < a[0].end {
        var x := b[0].end + 1;
        assert Contains(a[0], x);
        MergedHead(b, x);
        assert false;
      }
      forall x
        ensures Covers(a[1..], x) <==> Covers(b[1..], x)
      {
        MergedHead(a, x);
        MergedHead(b, x);
      }
      MergedUnique(a[1..], b[1..]);
      assert a == [a[0]] + a[1..];
      assert b == [b[0]] + b[1..];
    }
  }
}
