/** Entities extracted from a tweet and `removeOverlappingEntities`, which sorts them by
    start offset and drops every entity that starts before the previously kept one ends. */
module Entities {
  import Php

  /** An extracted entity: its text and its byte offsets `indices[0]`, `indices[1]`. */
  datatype Entity =
    | Url(url: Php.Bytes, start: int, end: int)
    | Hashtag(hashtag: Php.Bytes, start: int, end: int)

  predicate SortedByStart(s: seq<Entity>) {
    forall i, j :: 0 <= i < j < |s| ==> s[i].start <= s[j].start
  }

  /** Puts e after every entity of the sorted s whose start is not greater than its own. */
  function Insert(s: seq<Entity>, e: Entity): (r: seq<Entity>)
    ensures multiset(r) == multiset(s) + multiset{e}
  {
    if s == [] || s[|s| - 1].start <= e.start then s + [e]
    else
      var r := Insert(s[..|s| - 1], e) + [s[|s| - 1]];
      assert s == s[..|s| - 1] + [s[|s| - 1]];
      r
  }

  lemma {:induction false} InsertSorted(s: seq<Entity>, e: Entity)
    requires SortedByStart(s)
    ensures SortedByStart(Insert(s, e))
  {
    if s != [] && s[|s| - 1].start > e.start {
      var pre := s[..|s| - 1];
      var last := s[|s| - 1];
      InsertSorted(pre, e);
      var q := Insert(pre, e);
      forall x | x in q ensures x.start <= last.start {
        assert x in multiset(q);
        if x != e {
          assert x in multiset(pre);
          var k :| 0 <= k < |pre| && pre[k] == x;
        }
      }
      assert Insert(s, e) == q + [last];
    }
  }

  /** `usort` with the comparator `$a['indices'][0] - $b['indices'][0]`; PHP's sort is
      stable from PHP 8 on, so entities with equal starts keep their order. */
  function SortByStart(s: seq<Entity>): (r: seq<Entity>)
    ensures SortedByStart(r)
    ensures multiset(r) == multiset(s)
  {
    if s == [] then []
    else
      var sortedPrefix := SortByStart(s[..|s| - 1]);
      InsertSorted(sortedPrefix, s[|s| - 1]);
      assert s == s[..|s| - 1] + [s[|s| - 1]];
      Insert(sortedPrefix, s[|s| - 1])
  }

  /** The entities of s that start at offset k, in their order in s. */
  function StartingAt(s: seq<Entity>, k: int): seq<Entity>
    decreases |s|
  {
    if s == [] then []
    else StartingAt(s[..|s| - 1], k) + (if s[|s| - 1].start == k then [s[|s| - 1]] else [])
  }

  lemma StartingAtSnoc(s: seq<Entity>, x: Entity, k: int)
    ensures StartingAt(s + [x], k) == StartingAt(s, k) + (if x.start == k then [x] else [])
  {
    assert (s + [x])[..|s|] == s;
  }

  /** Inserting e leaves every other start's entities as they were and puts e after
      those that share its start. */
  lemma {:induction false} InsertStable(s: seq<Entity>, e: Entity, k: int)
    ensures StartingAt(Insert(s, e), k) == StartingAt(s, k) + (if e.start == k then [e] else [])
    decreases |s|
  {
    if s == [] || s[|s| - 1].start <= e.start {
      StartingAtSnoc(s, e, k);
    } else {
      var pre, last := s[..|s| - 1], s[|s| - 1];
      var q := Insert(pre, e);
      assert Insert(s, e) == q + [last];
      StartingAtSnoc(q, last, k);
      InsertStable(pre, e, k);
      if e.start == k {
        assert StartingAt(s, k) == StartingAt(pre, k);
      } else {
        assert StartingAt(q, k) == StartingAt(pre, k);
      }
    }
  }

  /** `usort` is stable (PHP 8 and later): entities with equal starts keep the order
      they had in the input. */
  lemma {:induction false} SortByStartStable(s: seq<Entity>, k: int)
    ensures StartingAt(SortByStart(s), k) == StartingAt(s, k)
    decreases |s|
  {
    if s != [] {
      var pre := s[..|s| - 1];
      SortByStartStable(pre, k);
      InsertStable(SortByStart(pre), s[|s| - 1], k);
    }
  }

  /** The entities of t that survive after prev: one that starts before the last kept
      one ends is dropped, any other is kept and becomes the new last. */
  function KeepAfter(prev: Entity, t: seq<Entity>): seq<Entity>
    decreases |t|
  {
    if t == [] then []
    else if prev.end > t[0].start then KeepAfter(prev, t[1..])
    else [t[0]] + KeepAfter(t[0], t[1..])
  }

  /** What the splice loop leaves of the sorted array: the first entity is always kept. */
  function KeepNonOverlapping(s: seq<Entity>): seq<Entity> {
    if s == [] then [] else [s[0]] + KeepAfter(s[0], s[1..])
  }

  /** `removeOverlappingEntities(&$entities)`: sort, then walk with `$prev`; an overlapping
      entity is spliced out and the index stays put (`$i--` undoing the loop's `$i++`). */
  method RemoveOverlappingEntities(entities: seq<Entity>) returns (r: seq<Entity>)
    ensures r == KeepNonOverlapping(SortByStart(entities))
  {
    r := SortByStart(entities);
    ghost var sorted := r;
    if |r| == 0 {
      return;
    }
    var prev := r[0];
    var i := 1;
    while i < |r|
      invariant 1 <= i <= |r|
      invariant prev == r[i - 1]
      invariant r[..i] + KeepAfter(prev, r[i..]) == KeepNonOverlapping(sorted)
      decreases |r| - i
    {
      if prev.end > r[i].start {
        ghost var before := r;
        assert r[i..][1..] == r[i + 1..];
        r := r[..i] + r[i + 1..];
        assert r[..i] == before[..i] && r[i..] == before[i + 1..];
      } else {
        assert r[i..][1..] == r[i + 1..];
        assert r[..i + 1] == r[..i] + [r[i]];
        prev := r[i];
        i := i + 1;
      }
    }
    assert r[i..] == [];
    assert r[..i] == r;
  }

  /** a is b with some elements removed and none edited or reordered. */
  predicate Subsequence(a: seq<Entity>, b: seq<Entity>)
    decreases |b|
  {
    if a == [] then true
    else if b == [] then false
    else (a[0] == b[0] && Subsequence(a[1..], b[1..])) || Subsequence(a, b[1..])
  }

  /** Every kept entity starts at or after the end of the one kept before it. */
  predicate Chained(r: seq<Entity>) {
    forall k :: 0 <= k < |r| - 1 ==> r[k].end <= r[k + 1].start
  }

  lemma {:induction false} SubsequenceMembers(a: seq<Entity>, b: seq<Entity>)
    requires Subsequence(a, b)
    ensures multiset(a) <= multiset(b)
    decreases |b|
  {
    if a != [] {
      if a[0] == b[0] && Subsequence(a[1..], b[1..]) {
        SubsequenceMembers(a[1..], b[1..]);
        assert a == [a[0]] + a[1..];
        assert b == [b[0]] + b[1..];
      } else {
        SubsequenceMembers(a, b[1..]);
        assert b == [b[0]] + b[1..];
      }
    }
  }

  lemma {:induction false} SubsequenceSorted(a: seq<Entity>, b: seq<Entity>)
    requires Subsequence(a, b) && SortedByStart(b)
    ensures SortedByStart(a)
    decreases |b|
  {
    if a != [] {
      if a[0] == b[0] && Subsequence(a[1..], b[1..]) {
        SubsequenceSorted(a[1..], b[1..]);
        SubsequenceMembers(a[1..], b[1..]);
        forall j | 1 <= j < |a| ensures a[0].start <= a[j].start {
          assert a[j] == a[1..][j - 1];
          assert a[j] in multiset(b[1..]);
          var k :| 0 <= k < |b[1..]| && b[1..][k] == a[j];
          assert b[k + 1] == a[j];
        }
      } else {
        SubsequenceSorted(a, b[1..]);
      }
    }
  }

  lemma {:induction false} KeepAfterSubsequence(prev: Entity, t: seq<Entity>)
    ensures Subsequence(KeepAfter(prev, t), t)
    decreases |t|
  {
    if t != [] {
      KeepAfterSubsequence(prev, t[1..]);
      KeepAfterSubsequence(t[0], t[1..]);
    }
  }

  lemma {:induction false} KeepAfterChained(prev: Entity, t: seq<Entity>)
    ensures var r := KeepAfter(prev, t); Chained(r) && (r != [] ==> prev.end <= r[0].start)
    decreases |t|
  {
    if t != [] {
      KeepAfterChained(prev, t[1..]);
      KeepAfterChained(t[0], t[1..]);
    }
  }

  /** Nothing is dropped without cause: an entity of t that is not kept starts inside
      prev or inside a kept entity that starts no later than it does. */
  lemma {:induction false} KeepAfterCovers(prev: Entity, t: seq<Entity>)
    requires SortedByStart(t)
    requires forall k :: 0 <= k < |t| ==> prev.start <= t[k].start
    ensures forall x :: x in t ==>
              x in KeepAfter(prev, t) || prev.start <= x.start < prev.end ||
              exists y :: y in KeepAfter(prev, t) && y.start <= x.start < y.end
    decreases |t|
  {
    if t != [] {
      var rest := t[1..];
      assert forall k :: 0 <= k < |rest| ==> rest[k] == t[k + 1];
      KeepAfterCovers(prev, rest);
      KeepAfterCovers(t[0], rest);
      assert forall x :: x in t ==> x == t[0] || x in rest;
    }
  }

  /** The first entity after sorting is always kept. */
  lemma KeepFirst(entities: seq<Entity>)
    requires entities != []
    ensures var sorted := SortByStart(entities);
            var r := KeepNonOverlapping(sorted);
            r != [] && r[0] == sorted[0] && sorted[0] in multiset(entities)
  {
    var sorted := SortByStart(entities);
    assert |sorted| == |multiset(entities)|;
    assert sorted[0] in multiset(sorted);
  }

  /** The splice loop only removes entities: what is left is a subsequence of its input
      (nothing edited or reordered), so a sorted input stays sorted. */
  lemma KeepIsSubsequence(s: seq<Entity>)
    ensures Subsequence(KeepNonOverlapping(s), s)
    ensures multiset(KeepNonOverlapping(s)) <= multiset(s)
    ensures SortedByStart(s) ==> SortedByStart(KeepNonOverlapping(s))
  {
    if s != [] {
      KeepAfterSubsequence(s[0], s[1..]);
      SubsequenceMembers(KeepNonOverlapping(s), s);
      if SortedByStart(s) {
        SubsequenceSorted(KeepNonOverlapping(s), s);
      }
    }
  }

  /** Each kept entity starts at or after the end of the previously kept one. */
  lemma KeepIsChained(s: seq<Entity>)
    ensures Chained(KeepNonOverlapping(s))
  {
    if s != [] {
      var r := KeepNonOverlapping(s);
      KeepAfterChained(s[0], s[1..]);
      assert r[1..] == KeepAfter(s[0], s[1..]);
      forall k | 0 <= k < |r| - 1 ensures r[k].end <= r[k + 1].start {
        if k > 0 {
          assert r[k] == r[1..][k - 1] && r[k + 1] == r[1..][k];
        }
      }
    }
  }

  /** Only overlapping entities are removed: each entity of the sorted input that is not
      kept starts inside a kept entity that starts no later than it does. */
  lemma KeepCovers(s: seq<Entity>)
    requires SortedByStart(s)
    ensures forall x :: x in s ==>
              (x in KeepNonOverlapping(s) || exists y :: y in KeepNonOverlapping(s) && y.start <= x.start < y.end)
  {
    if s != [] {
      var rest := s[1..];
      assert forall k :: 0 <= k < |rest| ==> s[0].start <= rest[k].start;
      KeepAfterCovers(s[0], rest);
      assert forall x :: x in s ==> x == s[0] || x in rest;
    }
  }

  /** With well-formed offsets (start <= end) the kept entities are pairwise disjoint. */
  lemma {:induction false} ChainedDisjoint(r: seq<Entity>)
    requires Chained(r)
    requires forall k :: 0 <= k < |r| ==> r[k].start <= r[k].end
    ensures forall i, j :: 0 <= i < j < |r| ==> r[i].end <= r[j].start
  {
    if |r| > 1 {
      var rest := r[1..];
      ChainedDisjoint(rest);
      forall i, j | 0 <= i < j < |r| ensures r[i].end <= r[j].start {
        if i > 0 {
          assert r[i] == rest[i - 1] && r[j] == rest[j - 1];
        } else if j > 1 {
          assert rest[0] == r[1] && rest[j - 1] == r[j];
        }
      }
    }
  }

  /** Pairwise disjoint offsets: each entity ends at or before every later one starts. */
  predicate Disjoint(r: seq<Entity>) {
    forall i, j :: 0 <= i < j < |r| ==> r[i].end <= r[j].start
  }

  lemma {:induction false} SubsequenceDisjoint(a: seq<Entity>, b: seq<Entity>)
    requires Subsequence(a, b) && Disjoint(b)
    ensures Disjoint(a)
    decreases |b|
  {
    if a != [] {
      if a[0] == b[0] && Subsequence(a[1..], b[1..]) {
        SubsequenceDisjoint(a[1..], b[1..]);
        SubsequenceMembers(a[1..], b[1..]);
        forall j | 1 <= j < |a| ensures a[0].end <= a[j].start {
          assert a[j] == a[1..][j - 1];
          assert a[j] in multiset(b[1..]);
          var k :| 0 <= k < |b[1..]| && b[1..][k] == a[j];
          assert b[k + 1] == a[j];
        }
      } else {
        SubsequenceDisjoint(a, b[1..]);
      }
    }
  }

  /** Appending the same entity to both sides keeps a subsequence, and so does
      appending it to the longer side only. */
  lemma {:induction false} SubsequenceSnoc(a: seq<Entity>, b: seq<Entity>, x: Entity)
    requires Subsequence(a, b)
    ensures Subsequence(a + [x], b + [x]) && Subsequence(a, b + [x])
    decreases |b|
  {
    if b == [] {
      assert a == [];
      assert (a + [x])[1..] == [] && (b + [x])[1..] == [];
    } else {
      assert (b + [x])[0] == b[0] && (b + [x])[1..] == b[1..] + [x];
      if a == [] {
        SubsequenceSnoc(a, b[1..], x);
        assert a + [x] == [x];
      } else {
        assert (a + [x])[0] == a[0] && (a + [x])[1..] == a[1..] + [x];
        if a[0] == b[0] && Subsequence(a[1..], b[1..]) {
          SubsequenceSnoc(a[1..], b[1..], x);
        } else {
          SubsequenceSnoc(a, b[1..], x);
        }
      }
    }
  }
}
