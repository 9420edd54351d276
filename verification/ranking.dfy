/** Choosing the maps to play: count the traps of every map, stably sort the
    maps by that count and keep the first k map indices. */
module Ranking {

  function Min(a: nat, b: nat): nat {
    if a <= b then a else b
  }

  /** Number of trap characters 'x' in one row, counted left to right. */
  function RowTraps(s: string): (n: nat)
    ensures n == multiset(s)['x']
  {
    if |s| == 0 then 0
    else
      assert s == s[..|s| - 1] + [s[|s| - 1]];
      RowTraps(s[..|s| - 1]) + (if s[|s| - 1] == 'x' then 1 else 0)
  }

  /** All rows of a map joined into one string, in order. */
  function Flatten(rows: seq<string>): string {
    if |rows| == 0 then [] else Flatten(rows[..|rows| - 1]) + rows[|rows| - 1]
  }

  /** Number of trap characters over all rows of a map, accumulated row by row. */
  function CountTrap(rows: seq<string>): (n: nat)
    ensures n == multiset(Flatten(rows))['x']
  {
    if |rows| == 0 then 0
    else CountTrap(rows[..|rows| - 1]) + RowTraps(rows[|rows| - 1])
  }

  lemma {:induction false} FlattenAppend(a: seq<string>, b: seq<string>)
    ensures Flatten(a + b) == Flatten(a) + Flatten(b)
    decreases |b|
  {
    if |b| == 0 {
      assert a + b == a;
    } else {
      var front, last := b[..|b| - 1], b[|b| - 1];
      assert (a + b)[..|a + b| - 1] == a + front;
      assert (a + b)[|a + b| - 1] == last;
      FlattenAppend(a, front);
      calc {
        Flatten(a + b);
        Flatten(a + front) + last;
        (Flatten(a) + Flatten(front)) + last;
        Flatten(a) + (Flatten(front) + last);
        Flatten(a) + Flatten(b);
      }
    }
  }

  /** The trap count of a map split into two blocks of rows is the sum of the
      trap counts of the blocks. */
  lemma CountTrapAdditive(a: seq<string>, b: seq<string>)
    ensures CountTrap(a + b) == CountTrap(a) + CountTrap(b)
  {
    FlattenAppend(a, b);
  }

  /** A map index paired with its trap count. */
  datatype Ranked = Ranked(index: nat, traps: nat)

  /** Fewer traps first; equal trap counts keep the smaller index first. */
  predicate Precedes(a: Ranked, b: Ranked) {
    a.traps < b.traps || (a.traps == b.traps && a.index < b.index)
  }

  predicate SortedByTraps(s: seq<Ranked>) {
    forall i, j :: 0 <= i < j < |s| ==> Precedes(s[i], s[j])
  }

  predicate IndicesIncreasing(s: seq<Ranked>) {
    forall i, j :: 0 <= i < j < |s| ==> s[i].index < s[j].index
  }

  /** Inserts `e` after every element whose trap count is at most its own:
      the step of a stable sort that takes `e` after everything in `s`. */
  function Insert(e: Ranked, s: seq<Ranked>): (r: seq<Ranked>)
    ensures |r| == |s| + 1
    ensures multiset(r) == multiset(s) + multiset{e}
  {
    if |s| == 0 then [e]
    else if s[0].traps <= e.traps then
      assert s == [s[0]] + s[1..];
      [s[0]] + Insert(e, s[1..])
    else
      [e] + s
  }

  /** Inserting an element whose index exceeds every index of a sorted
      sequence keeps it sorted by trap count, then index. */
  lemma {:induction false} InsertKeepsSorted(e: Ranked, s: seq<Ranked>)
    requires SortedByTraps(s)
    requires forall x :: x in s ==> x.index < e.index
    ensures SortedByTraps(Insert(e, s))
  {
    if |s| == 0 {
    } else if s[0].traps <= e.traps {
      var rest := Insert(e, s[1..]);
      InsertKeepsSorted(e, s[1..]);
      forall k | 0 <= k < |rest|
        ensures Precedes(s[0], rest[k])
      {
        assert rest[k] in multiset(rest);
        if rest[k] != e {
          assert rest[k] in multiset(s[1..]);
          var q :| 0 <= q < |s[1..]| && s[1..][q] == rest[k];
          assert s[q + 1] == rest[k];
        }
      }
      ConsSorted(s[0], rest);
    } else {
      forall k | 0 <= k < |s|
        ensures Precedes(e, s[k])
      {
        if k > 0 {
          assert Precedes(s[0], s[k]);
        }
      }
      ConsSorted(e, s);
    }
  }

  /** An element that precedes every element of a sorted sequence can be put
      in front of it. */
  lemma ConsSorted(h: Ranked, s: seq<Ranked>)
    requires SortedByTraps(s)
    requires forall k :: 0 <= k < |s| ==> Precedes(h, s[k])
    ensures SortedByTraps([h] + s)
  {
    var r := [h] + s;
    forall i, j | 0 <= i < j < |r|
      ensures Precedes(r[i], r[j])
    {
      if i > 0 {
        assert r[i] == s[i - 1];
      }
      assert r[j] == s[j - 1];
    }
  }

  /** Stable sort by trap count, one insertion at a time in input order. */
  function StableSortByTraps(rs: seq<Ranked>): (r: seq<Ranked>)
    ensures |r| == |rs|
    ensures multiset(r) == multiset(rs)
  {
    if |rs| == 0 then []
    else
      var prefix := rs[..|rs| - 1];
      assert rs == prefix + [rs[|rs| - 1]];
      Insert(rs[|rs| - 1], StableSortByTraps(prefix))
  }

  /** For input listed by increasing index, the stable sort orders by trap
      count and, within equal counts, by index. */
  lemma {:induction false} StableSortIsSorted(rs: seq<Ranked>)
    requires IndicesIncreasing(rs)
    ensures SortedByTraps(StableSortByTraps(rs))
  {
    if |rs| > 0 {
      var prefix := rs[..|rs| - 1];
      var last := rs[|rs| - 1];
      var sorted := StableSortByTraps(prefix);
      StableSortIsSorted(prefix);
      forall x | x in sorted
        ensures x.index < last.index
      {
        assert x in multiset(prefix);
        var q :| 0 <= q < |prefix| && prefix[q] == x;
        assert rs[q] == x;
      }
      InsertKeepsSorted(last, sorted);
    }
  }

  /** Every map index with its trap count, in index order. */
  function IndexedCounts(counts: seq<nat>): (rs: seq<Ranked>)
    ensures |rs| == |counts|
    ensures forall i :: 0 <= i < |rs| ==> rs[i] == Ranked(i, counts[i])
  {
    seq(|counts|, i requires 0 <= i < |counts| => Ranked(i, counts[i]))
  }

  function Indices(rs: seq<Ranked>): (ix: seq<nat>)
    ensures |ix| == |rs|
    ensures forall i :: 0 <= i < |rs| ==> ix[i] == rs[i].index
  {
    seq(|rs|, i requires 0 <= i < |rs| => rs[i].index)
  }

  /** An element of a rearrangement of the ranking is some map's own entry. */
  lemma RankedEntryIsGenuine(counts: seq<nat>, sorted: seq<Ranked>, e: Ranked)
    requires multiset(sorted) == multiset(IndexedCounts(counts))
    requires e in sorted
    ensures e.index < |counts| && e.traps == counts[e.index]
  {
    assert e in multiset(sorted);
    assert e in IndexedCounts(counts);
  }

  /** Every map's own entry occurs in any rearrangement of the ranking. */
  lemma RankingEntryIsPresent(counts: seq<nat>, sorted: seq<Ranked>, j: nat)
    requires multiset(sorted) == multiset(IndexedCounts(counts))
    requires j < |counts|
    ensures Ranked(j, counts[j]) in sorted
  {
    assert IndexedCounts(counts)[j] == Ranked(j, counts[j]);
    assert Ranked(j, counts[j]) in multiset(IndexedCounts(counts));
  }

  /** The map indices chosen by trap count: the first `k` (or all, when there
      are fewer) after a stable sort by count. */
  function SelectByTraps(counts: seq<nat>, k: nat): (sel: seq<nat>)
    ensures |sel| == Min(k, |counts|)
    ensures forall i :: 0 <= i < |sel| ==> sel[i] < |counts|
    ensures forall i, j :: 0 <= i < j < |sel| ==> sel[i] != sel[j]
    ensures forall i, j :: 0 <= i < j < |sel| ==>
              counts[sel[i]] < counts[sel[j]] || (counts[sel[i]] == counts[sel[j]] && sel[i] < sel[j])
    ensures forall i, j :: 0 <= i < |sel| && 0 <= j < |counts| && j !in sel ==>
              counts[sel[i]] < counts[j] || (counts[sel[i]] == counts[j] && sel[i] < j)
  {
    var sorted := StableSortByTraps(IndexedCounts(counts));
    StableSortIsSorted(IndexedCounts(counts));
    SelectionFacts(counts, sorted, k);
    Indices(sorted[..Min(k, |sorted|)])
  }

  lemma SelectionFacts(counts: seq<nat>, sorted: seq<Ranked>, k: nat)
    requires multiset(sorted) == multiset(IndexedCounts(counts))
    requires SortedByTraps(sorted)
    ensures |sorted| == |counts|
    ensures var sel := Indices(sorted[..Min(k, |sorted|)]);
            && (forall i :: 0 <= i < |sel| ==> sel[i] < |counts| && counts[sel[i]] == sorted[i].traps)
            && (forall i, j :: 0 <= i < j < |sel| ==>
                  counts[sel[i]] < counts[sel[j]] || (counts[sel[i]] == counts[sel[j]] && sel[i] < sel[j]))
            && (forall i, j :: 0 <= i < |sel| && 0 <= j < |counts| && j !in sel ==>
                  counts[sel[i]] < counts[j] || (counts[sel[i]] == counts[j] && sel[i] < j))
  {
    assert |sorted| == |multiset(sorted)| == |multiset(IndexedCounts(counts))| == |counts|;
    var sel := Indices(sorted[..Min(k, |sorted|)]);
    forall i | 0 <= i < |sorted|
      ensures sorted[i].index < |counts| && counts[sorted[i].index] == sorted[i].traps
    {
      RankedEntryIsGenuine(counts, sorted, sorted[i]);
    }
    assert forall i :: 0 <= i < |sel| ==> sel[i] == sorted[i].index;
    forall i, j | 0 <= i < j < |sel|
      ensures counts[sel[i]] < counts[sel[j]] || (counts[sel[i]] == counts[sel[j]] && sel[i] < sel[j])
    {
      assert Precedes(sorted[i], sorted[j]);
    }
    forall i, j | 0 <= i < |sel| && 0 <= j < |counts| && j !in sel
      ensures counts[sel[i]] < counts[j] || (counts[sel[i]] == counts[j] && sel[i] < j)
    {
      RankingEntryIsPresent(counts, sorted, j);
      var p :| 0 <= p < |sorted| && sorted[p] == Ranked(j, counts[j]);
      assert p >= |sel|;
      assert Precedes(sorted[i], sorted[p]);
    }
  }

  /** The maps selected for play: indices of the `k` maps with fewest traps,
      ties going to the earlier map. */
  function SelectMaps(maps: seq<seq<string>>, k: nat): (sel: seq<nat>)
    ensures |sel| == Min(k, |maps|)
    ensures forall i :: 0 <= i < |sel| ==> sel[i] < |maps|
    ensures forall i, j :: 0 <= i < j < |sel| ==> sel[i] != sel[j]
    ensures forall i, j :: 0 <= i < j < |sel| ==>
              || CountTrap(maps[sel[i]]) < CountTrap(maps[sel[j]])
              || (CountTrap(maps[sel[i]]) == CountTrap(maps[sel[j]]) && sel[i] < sel[j])
    ensures forall i, j :: 0 <= i < |sel| && 0 <= j < |maps| && j !in sel ==>
              || CountTrap(maps[sel[i]]) < CountTrap(maps[j])
              || (CountTrap(maps[sel[i]]) == CountTrap(maps[j]) && sel[i] < j)
  {
    SelectByTraps(TrapCounts(maps), k)
  }

  /** The trap count of every map, in map order. */
  function TrapCounts(maps: seq<seq<string>>): (counts: seq<nat>)
    ensures |counts| == |maps|
    ensures forall i :: 0 <= i < |maps| ==> counts[i] == CountTrap(maps[i])
  {
    seq(|maps|, i requires 0 <= i < |maps| => CountTrap(maps[i]))
  }

  /** Three maps with 5, 0 and 2 traps, two to choose: maps 1 and 2 are chosen,
      in that order. The contract of SelectByTraps alone fixes this answer. */
  lemma SelectionExample(counts: seq<nat>)
    requires |counts| == 3 && counts[0] == 5 && counts[1] == 0 && counts[2] == 2
    ensures SelectByTraps(counts, 2) == [1, 2]
  {
    var sel := SelectByTraps(counts, 2);
    var a, b := sel[0], sel[1];
    assert sel == [a, b] && a < 3 && b < 3 && a != b;
    // Two distinct indices below 3 leave exactly one map out, and no
    // selected map may have more traps than it.
    var u := 3 - a - b;
    assert u != a && u != b && 0 <= u < 3;
    assert counts[a] <= counts[u] && counts[b] <= counts[u];
    // Only map 0, with 5 traps, has at least as many traps as another map.
    assert u == 0;
    assert counts[a] <= counts[b];
  }
}
