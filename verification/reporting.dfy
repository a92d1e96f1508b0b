/**
 * The content of the report `writeInfoToFile` writes: the merged groups
 * sorted by size (largest first) and numbered from 1, then one group per row
 * that produced no group id, in row order, and the closing total. The text
 * layout, the timing and the memory figure are not modelled.
 */
module Reporting {

  /** One "Group #number" block: its number and the indices of the rows it lists. */
  datatype Entry = Entry(number: nat, members: set<nat>)

  /** The header count of multi-row groups, the blocks in output order, and the closing "All N groups" figure. */
  datatype Report = Report(multiCount: nat, entries: seq<Entry>, total: nat)

  /** `order` lists every element of `keys` exactly once: the iteration order of a hash map. */
  predicate IsEnumeration(order: seq<nat>, keys: set<nat>)
  {
    && (forall k :: 0 <= k < |order| ==> order[k] in keys)
    && (forall x :: x in keys ==> x in order)
    && (forall a, b :: 0 <= a < b < |order| ==> order[a] != order[b])
  }

  lemma {:induction false} EnumerationSize(order: seq<nat>, keys: set<nat>)
    requires IsEnumeration(order, keys)
    ensures |order| == |keys|
    decreases |order|
  {
    if order != [] {
      var rest := keys - {order[0]};
      assert IsEnumeration(order[1..], rest) by {
        forall x | x in rest ensures x in order[1..] {
          var k :| 0 <= k < |order| && order[k] == x;
          assert k != 0;
          assert order[1..][k - 1] == x;
        }
      }
      EnumerationSize(order[1..], rest);
    } else {
      assert forall x :: x !in keys;
    }
  }

  // ---------------------------------------------------------------------------
  // Sorting by group size
  // ---------------------------------------------------------------------------

  /** Every element is at least as large as the next one. */
  predicate OrderedBy<T>(xs: seq<T>, size: T -> nat)
  {
    forall a :: 0 < a < |xs| ==> size(xs[a - 1]) >= size(xs[a])
  }

  /** Inserts `x` after every element at least as large, so equal-sized elements keep their arrival order. */
  function InsertBy<T>(x: T, sorted: seq<T>, size: T -> nat): (r: seq<T>)
    ensures multiset(r) == multiset(sorted) + multiset{x}
  {
    if sorted == [] then [x]
    else if size(sorted[0]) >= size(x) then
      assert sorted == [sorted[0]] + sorted[1..];
      [sorted[0]] + InsertBy(x, sorted[1..], size)
    else [x] + sorted
  }

  /** Insertion keeps an ordered sequence ordered. */
  lemma {:induction false} InsertKeepsOrder<T>(x: T, sorted: seq<T>, size: T -> nat)
    requires OrderedBy(sorted, size)
    ensures OrderedBy(InsertBy(x, sorted, size), size)
    ensures InsertBy(x, sorted, size)[0] == (if sorted != [] && size(sorted[0]) >= size(x) then sorted[0] else x)
  {
    if sorted != [] && size(sorted[0]) >= size(x) {
      var rest := InsertBy(x, sorted[1..], size);
      InsertKeepsOrder(x, sorted[1..], size);
      var r := [sorted[0]] + rest;
      forall a | 0 < a < |r| ensures size(r[a - 1]) >= size(r[a]) {
        assert r[a] == rest[a - 1];
        if a > 1 {
          assert r[a - 1] == rest[a - 2];
        }
      }
    }
  }

  /** An ordered sequence is ordered between any two positions, not just neighbours. */
  lemma {:induction false} OrderedByAllPairs<T>(xs: seq<T>, size: T -> nat, a: nat, b: nat)
    requires OrderedBy(xs, size) && a <= b < |xs|
    ensures size(xs[a]) >= size(xs[b])
    decreases b - a
  {
    if a < b {
      OrderedByAllPairs(xs, size, a + 1, b);
    }
  }

  /** A stable insertion sort by decreasing `size`. In the source, the order among equal sizes is the hash order of the entry stream. */
  function SortBy<T>(xs: seq<T>, size: T -> nat): (r: seq<T>)
    ensures OrderedBy(r, size)
    ensures multiset(r) == multiset(xs)
  {
    if xs == [] then []
    else
      var init := SortBy(xs[..|xs| - 1], size);
      assert xs == xs[..|xs| - 1] + [xs[|xs| - 1]];
      InsertKeepsOrder(xs[|xs| - 1], init, size);
      InsertBy(xs[|xs| - 1], init, size)
  }

  function Card(g: set<nat>): nat
  {
    |g|
  }

  /** Groups listed largest first. */
  predicate NonIncreasing(xs: seq<set<nat>>)
  {
    forall a, b :: 0 <= a < b < |xs| ==> |xs[a]| >= |xs[b]|
  }

  /** The sort by decreasing size that the report applies to the merged groups. */
  function SortBySize(xs: seq<set<nat>>): (r: seq<set<nat>>)
    ensures NonIncreasing(r)
    ensures multiset(r) == multiset(xs)
  {
    var r := SortBy(xs, Card);
    assert forall a, b :: 0 <= a < b < |r| ==> Card(r[a]) >= Card(r[b]) by {
      forall a, b | 0 <= a < b < |r| ensures Card(r[a]) >= Card(r[b]) {
        OrderedByAllPairs(r, Card, a, b);
      }
    }
    r
  }

  // ---------------------------------------------------------------------------
  // Counting the groups that hold a row
  // ---------------------------------------------------------------------------

  /** How many of the groups `xs` hold row `j`. */
  function CountHolding(xs: seq<set<nat>>, j: nat): nat
  {
    if xs == [] then 0 else (if j in xs[0] then 1 else 0) + CountHolding(xs[1..], j)
  }

  lemma {:induction false} CountHoldingPositive(xs: seq<set<nat>>, j: nat)
    ensures CountHolding(xs, j) > 0 <==> exists k :: 0 <= k < |xs| && j in xs[k]
  {
    if xs != [] {
      CountHoldingPositive(xs[1..], j);
      if exists k :: 0 <= k < |xs| && j in xs[k] {
        var k :| 0 <= k < |xs| && j in xs[k];
        if k > 0 {
          assert j in xs[1..][k - 1];
        }
      }
      if exists k :: 0 <= k < |xs[1..]| && j in xs[1..][k] {
        var k :| 0 <= k < |xs[1..]| && j in xs[1..][k];
        assert j in xs[k + 1];
      }
    }
  }

  lemma {:induction false} CountHoldingTwo(xs: seq<set<nat>>, j: nat, k1: nat, k2: nat)
    requires k1 < k2 < |xs| && j in xs[k1] && j in xs[k2]
    ensures CountHolding(xs, j) >= 2
  {
    if k1 == 0 {
      assert j in xs[1..][k2 - 1];
      CountHoldingPositive(xs[1..], j);
    } else {
      assert j in xs[1..][k1 - 1] && j in xs[1..][k2 - 1];
      CountHoldingTwo(xs[1..], j, k1 - 1, k2 - 1);
    }
  }

  lemma {:induction false} CountHoldingAtMostOne(xs: seq<set<nat>>, j: nat)
    requires forall a, b :: 0 <= a < |xs| && 0 <= b < |xs| && j in xs[a] && j in xs[b] ==> a == b
    ensures CountHolding(xs, j) <= 1
  {
    if xs != [] {
      assert forall a, b :: 0 <= a < |xs[1..]| && 0 <= b < |xs[1..]| && j in xs[1..][a] && j in xs[1..][b] ==> a == b by {
        forall a, b | 0 <= a < |xs[1..]| && 0 <= b < |xs[1..]| && j in xs[1..][a] && j in xs[1..][b]
          ensures a == b
        {
          assert j in xs[a + 1] && j in xs[b + 1];
        }
      }
      CountHoldingAtMostOne(xs[1..], j);
      if j in xs[0] {
        forall k | 0 <= k < |xs[1..]| ensures j !in xs[1..][k] {
          assert xs[1..][k] == xs[k + 1];
        }
        CountHoldingPositive(xs[1..], j);
      }
    }
  }

  /** Dropping the element at `i` drops its contribution. */
  lemma {:induction false} CountHoldingRemove(xs: seq<set<nat>>, i: nat, j: nat)
    requires i < |xs|
    ensures CountHolding(xs, j) == CountHolding(xs[..i] + xs[i + 1..], j) + (if j in xs[i] then 1 else 0)
  {
    if i == 0 {
      assert xs[..0] + xs[1..] == xs[1..];
    } else {
      var ys := xs[..i] + xs[i + 1..];
      assert ys[0] == xs[0];
      assert ys[1..] == xs[1..][..i - 1] + xs[1..][i..];
      CountHoldingRemove(xs[1..], i - 1, j);
    }
  }

  /** Reordering the groups does not change how many hold a row. */
  lemma {:induction false} CountHoldingPermutation(xs: seq<set<nat>>, ys: seq<set<nat>>, j: nat)
    requires multiset(xs) == multiset(ys)
    ensures CountHolding(xs, j) == CountHolding(ys, j)
    decreases |xs|
  {
    if xs == [] {
      assert |ys| == |multiset(ys)| == 0;
    } else {
      var x := xs[0];
      assert x in multiset(ys);
      var i :| 0 <= i < |ys| && ys[i] == x;
      var ys' := ys[..i] + ys[i + 1..];
      assert ys == ys[..i] + [ys[i]] + ys[i + 1..];
      assert xs == [x] + xs[1..];
      assert multiset(xs[1..]) == multiset(xs) - multiset{x};
      assert multiset(ys') == multiset(ys) - multiset{x} by {
        assert multiset(ys) == multiset(ys[..i]) + multiset{x} + multiset(ys[i + 1..]);
      }
      CountHoldingPermutation(xs[1..], ys', j);
      CountHoldingRemove(ys, i, j);
    }
  }

  // ---------------------------------------------------------------------------
  // The report
  // ---------------------------------------------------------------------------

  /** The rows below `n` that are not listed, in increasing order: the single-row groups. */
  function Unlisted(listed: set<nat>, n: nat): seq<nat>
  {
    if n == 0 then [] else Unlisted(listed, n - 1) + (if n - 1 in listed then [] else [n - 1])
  }

  /** `Unlisted` holds exactly the unlisted rows below `n`, each once and in increasing order. */
  lemma {:induction false} UnlistedSpec(listed: set<nat>, n: nat)
    ensures forall i: nat :: i in Unlisted(listed, n) <==> i < n && i !in listed
    ensures forall a, b :: 0 <= a < b < |Unlisted(listed, n)| ==> Unlisted(listed, n)[a] < Unlisted(listed, n)[b]
  {
    if n > 0 {
      var prev := Unlisted(listed, n - 1);
      UnlistedSpec(listed, n - 1);
      forall a | 0 <= a < |prev| ensures prev[a] < n - 1 {
        assert prev[a] in prev;
      }
    }
  }

  /** The merged groups in the iteration order `order` of their keys. */
  function ValuesInOrder(groups: map<nat, set<nat>>, order: seq<nat>): seq<set<nat>>
    requires forall k :: 0 <= k < |order| ==> order[k] in groups
  {
    seq(|order|, k requires 0 <= k < |order| => groups[order[k]])
  }

  /** The member sets of the first `count` blocks. */
  function LeadingMembers(es: seq<Entry>, count: nat): seq<set<nat>>
    requires count <= |es|
  {
    seq(count, k requires 0 <= k < count => es[k].members)
  }

  /**
   * `rep` is the report for the merged `groups` (iterated in `order`), the
   * rows `listed` in the row-to-ids map, and `n` stored rows: the header
   * counts the merged groups; the blocks are numbered 1, 2, ...; the first
   * blocks are the merged groups, largest first; the rest are the unlisted
   * rows one by one in row order; the total counts every block.
   */
  ghost predicate IsReportOf(groups: map<nat, set<nat>>, order: seq<nat>, listed: set<nat>, n: nat, rep: Report)
    requires IsEnumeration(order, groups.Keys)
  {
    var singles := Unlisted(listed, n);
    && rep.multiCount == |groups|
    && |rep.entries| == rep.multiCount + |singles|
    && (forall k :: 0 <= k < |rep.entries| ==> rep.entries[k].number == k + 1)
    && multiset(LeadingMembers(rep.entries, rep.multiCount)) == multiset(ValuesInOrder(groups, order))
    && NonIncreasing(LeadingMembers(rep.entries, rep.multiCount))
    && (forall k :: 0 <= k < |singles| ==> rep.entries[rep.multiCount + k].members == {singles[k]})
    && rep.total == |rep.entries|
  }

  /** A block per row of `us`, holding just that row, numbered from `first`. */
  function SingleBlocks(us: seq<nat>, first: nat): seq<Entry>
  {
    seq(|us|, k requires 0 <= k < |us| => Entry(first + k, {us[k]}))
  }

  lemma SingleBlocksAppend(us: seq<nat>, first: nat, x: nat)
    ensures SingleBlocks(us + [x], first) == SingleBlocks(us, first) + [Entry(first + |us|, {x})]
  {
  }

  /** Numbered blocks followed by single-row blocks numbered on from them. */
  lemma SinglesAfter(entries: seq<Entry>, us: seq<nat>, out: seq<Entry>)
    requires forall p :: 0 <= p < |entries| ==> entries[p].number == p + 1
    requires out == entries + SingleBlocks(us, |entries| + 1)
    ensures |out| == |entries| + |us|
    ensures out[..|entries|] == entries
    ensures forall p :: 0 <= p < |out| ==> out[p].number == p + 1
    ensures forall k :: 0 <= k < |us| ==> out[|entries| + k].members == {us[k]}
  {
    assert out[..|entries|] == entries;
  }

  /** The second loop of `writeInfoToFile`: a numbered single-row block for each unlisted row, in row order. */
  method AppendSingles(entries: seq<Entry>, listed: set<nat>, n: nat) returns (out: seq<Entry>)
    requires forall p :: 0 <= p < |entries| ==> entries[p].number == p + 1
    ensures |out| == |entries| + |Unlisted(listed, n)|
    ensures out[..|entries|] == entries
    ensures forall p :: 0 <= p < |out| ==> out[p].number == p + 1
    ensures forall k :: 0 <= k < |Unlisted(listed, n)| ==> out[|entries| + k].members == {Unlisted(listed, n)[k]}
  {
    out := entries;
    var number := |entries| + 1;
    ghost var singles: seq<nat> := [];
    for i := 0 to n
      invariant singles == Unlisted(listed, i)
      invariant out == entries + SingleBlocks(singles, |entries| + 1)
      invariant number == |out| + 1
    {
      if i !in listed {
        SingleBlocksAppend(singles, |entries| + 1, i);
        out := out + [Entry(number, {i})];
        singles := singles + [i];
        number := number + 1;
      }
    }
    SinglesAfter(entries, singles, out);
  }

  /** The first loop of `writeInfoToFile`: the sorted groups become blocks numbered from 1. */
  method NumberGroups(sorted: seq<set<nat>>) returns (entries: seq<Entry>)
    ensures |entries| == |sorted|
    ensures forall p :: 0 <= p < |entries| ==> entries[p].number == p + 1
    ensures LeadingMembers(entries, |sorted|) == sorted
  {
    entries := [];
    for k := 0 to |sorted|
      invariant |entries| == k
      invariant forall p :: 0 <= p < k ==> entries[p] == Entry(p + 1, sorted[p])
    {
      entries := entries + [Entry(k + 1, sorted[k])];
    }
  }

  /** Blocks appended after the first `count` leave those blocks' members alone. */
  lemma LeadingMembersPrefix(es: seq<Entry>, out: seq<Entry>, count: nat)
    requires count <= |es| <= |out| && out[..|es|] == es
    ensures LeadingMembers(out, count) == LeadingMembers(es, count)
  {
    forall p | 0 <= p < count ensures out[p].members == es[p].members {
      assert out[p] == out[..|es|][p];
    }
  }

  /**
   * `writeInfoToFile` without the writer: sort the merged groups by size,
   * number them, then number a single-row group for every stored row the
   * row-to-ids map does not list.
   */
  method BuildReport(groups: map<nat, set<nat>>, order: seq<nat>, listed: set<nat>, n: nat) returns (rep: Report)
    requires IsEnumeration(order, groups.Keys)
    ensures IsReportOf(groups, order, listed, n, rep)
  {
    var sorted := SortBySize(ValuesInOrder(groups, order));
    var entries := NumberGroups(sorted);
    var all := AppendSingles(entries, listed, n);
    assert |sorted| == |multiset(sorted)| == |ValuesInOrder(groups, order)|;
    EnumerationSize(order, groups.Keys);
    LeadingMembersPrefix(entries, all, |sorted|);
    rep := Report(|sorted|, all, |all|);
  }

  /** Pairwise disjoint groups that hold exactly the listed rows, all of them below `n`. */
  ghost predicate PartitionBelow(groups: map<nat, set<nat>>, listed: set<nat>, n: nat)
  {
    && (forall r1, r2 :: r1 in groups && r2 in groups && r1 != r2 ==> groups[r1] !! groups[r2])
    && (forall x :: x in listed <==> exists r :: r in groups && x in groups[r])
    && (forall x :: x in listed ==> x < n)
  }

  /** A row is held by as many merged groups as it is listed: once or never. */
  lemma ValuesHoldListedOnce(groups: map<nat, set<nat>>, order: seq<nat>, listed: set<nat>, n: nat, j: nat)
    requires IsEnumeration(order, groups.Keys)
    requires PartitionBelow(groups, listed, n)
    ensures CountHolding(ValuesInOrder(groups, order), j) == (if j in listed then 1 else 0)
  {
    var vs := ValuesInOrder(groups, order);
    CountHoldingPositive(vs, j);
    forall a, b | 0 <= a < |vs| && 0 <= b < |vs| && j in vs[a] && j in vs[b]
      ensures a == b
    {
    }
    CountHoldingAtMostOne(vs, j);
    if j in listed {
      var r :| r in groups && j in groups[r];
      var k :| 0 <= k < |order| && order[k] == r;
      assert j in vs[k];
    }
  }

  /** A block holding a stored row is a merged group exactly when the row is listed; a single-row block holds its own row. */
  lemma BlockSide(groups: map<nat, set<nat>>, order: seq<nat>, listed: set<nat>, n: nat, rep: Report, j: nat, k: nat)
    requires IsEnumeration(order, groups.Keys)
    requires PartitionBelow(groups, listed, n)
    requires IsReportOf(groups, order, listed, n, rep)
    requires k < |rep.entries| && j in rep.entries[k].members
    ensures k < rep.multiCount ==> j in listed && j in LeadingMembers(rep.entries, rep.multiCount)[k]
    ensures k >= rep.multiCount ==> j !in listed && j < n && Unlisted(listed, n)[k - rep.multiCount] == j
  {
    if k < rep.multiCount {
      MergedBlockSide(groups, order, listed, n, rep, j, k);
    } else {
      var u := Unlisted(listed, n);
      UnlistedSpec(listed, n);
      assert rep.entries[rep.multiCount + (k - rep.multiCount)].members == {u[k - rep.multiCount]};
      assert u[k - rep.multiCount] in u;
    }
  }

  /** A row in one of the merged-group blocks is a listed row. */
  lemma MergedBlockSide(groups: map<nat, set<nat>>, order: seq<nat>, listed: set<nat>, n: nat, rep: Report, j: nat, k: nat)
    requires IsEnumeration(order, groups.Keys)
    requires PartitionBelow(groups, listed, n)
    requires IsReportOf(groups, order, listed, n, rep)
    requires k < rep.multiCount && j in rep.entries[k].members
    ensures j in listed && j in LeadingMembers(rep.entries, rep.multiCount)[k]
  {
    var head := LeadingMembers(rep.entries, rep.multiCount);
    assert j in head[k];
    ValuesHoldListedOnce(groups, order, listed, n, j);
    CountHoldingPermutation(head, ValuesInOrder(groups, order), j);
    CountHoldingPositive(head, j);
  }

  /** Every stored row appears in some block. */
  lemma ReportListsEveryRow(groups: map<nat, set<nat>>, order: seq<nat>, listed: set<nat>, n: nat, rep: Report, j: nat)
    requires IsEnumeration(order, groups.Keys)
    requires PartitionBelow(groups, listed, n)
    requires IsReportOf(groups, order, listed, n, rep)
    requires j < n
    ensures exists k :: 0 <= k < |rep.entries| && j in rep.entries[k].members
  {
    var c := rep.multiCount;
    var head := LeadingMembers(rep.entries, c);
    if j in listed {
      ValuesHoldListedOnce(groups, order, listed, n, j);
      CountHoldingPermutation(head, ValuesInOrder(groups, order), j);
      CountHoldingPositive(head, j);
      var k :| 0 <= k < |head| && j in head[k];
      assert j in rep.entries[k].members;
    } else {
      var u := Unlisted(listed, n);
      UnlistedSpec(listed, n);
      assert j in u;
      var k :| 0 <= k < |u| && u[k] == j;
      assert j in rep.entries[c + k].members;
    }
  }

  /** No row appears in two blocks. */
  lemma ReportListsRowOnce(groups: map<nat, set<nat>>, order: seq<nat>, listed: set<nat>, n: nat, rep: Report, j: nat,
                           k1: nat, k2: nat)
    requires IsEnumeration(order, groups.Keys)
    requires PartitionBelow(groups, listed, n)
    requires IsReportOf(groups, order, listed, n, rep)
    requires k1 < k2 < |rep.entries|
    ensures !(j in rep.entries[k1].members && j in rep.entries[k2].members)
  {
    UnlistedSpec(listed, n);
    if j in rep.entries[k1].members && j in rep.entries[k2].members {
      BlockSide(groups, order, listed, n, rep, j, k1);
      BlockSide(groups, order, listed, n, rep, j, k2);
      var head := LeadingMembers(rep.entries, rep.multiCount);
      ValuesHoldListedOnce(groups, order, listed, n, j);
      CountHoldingPermutation(head, ValuesInOrder(groups, order), j);
      if k2 < rep.multiCount {
        CountHoldingTwo(head, j, k1, k2);
      }
    }
  }

  /** No block lists a row that was not stored. */
  lemma ReportListsOnlyStoredRows(groups: map<nat, set<nat>>, order: seq<nat>, listed: set<nat>, n: nat, rep: Report, j: nat, k: nat)
    requires IsEnumeration(order, groups.Keys)
    requires PartitionBelow(groups, listed, n)
    requires IsReportOf(groups, order, listed, n, rep)
    requires k < |rep.entries| && j in rep.entries[k].members
    ensures j < n
  {
    BlockSide(groups, order, listed, n, rep, j, k);
  }
}
