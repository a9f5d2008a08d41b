/** The dual-copy allocation table as values: the three sentinels, first-fit
    search, the chain-freeing walk of removal, the chain listing of `info`,
    and the scan for BAD entries. */
module Fat {
  import opened Outcomes
  import opened Search

  /** Sentinels. FREE is the literal -1 that the free-cluster scan tests and
      main.go's FAT_FREE; END is main.go's FAT_EOF; BAD is not defined in any
      of the source files, so a third negative value is chosen. Nothing below
      depends on the numbers except that the three differ and that none is a
      cluster index. */
  const FREE: int := -1
  const END: int := -2
  const BAD: int := -3

  predicate IsFree(x: int) {
    x == FREE
  }

  /** ReadFatEntry: copy 1 at index `c`. */
  function ReadEntry(t: seq<int>, c: int): Result<int> {
    if 0 <= c < |t| then Ok(t[c]) else Err(VolumeIoError)
  }

  /** The lowest index whose entry is FREE, counting from 0. */
  function FirstFree(t: seq<int>): (r: Option<nat>)
    ensures r.Some? ==> r.value < |t| && t[r.value] == FREE
    ensures r.Some? ==> forall j :: 0 <= j < r.value ==> t[j] != FREE
    ensures r.None? <==> forall j :: 0 <= j < |t| ==> t[j] != FREE
  {
    FirstWhere(t, IsFree)
  }

  /** Number of entries that are not FREE. */
  function NonFree(t: seq<int>): nat {
    if |t| == 0 then 0 else (if t[0] != FREE then 1 else 0) + NonFree(t[1..])
  }

  lemma {:induction false} NonFreeUpdate(t: seq<int>, c: int, v: int)
    requires 0 <= c < |t|
    ensures NonFree(t[c := v]) + (if t[c] != FREE then 1 else 0)
         == NonFree(t) + (if v != FREE then 1 else 0)
  {
    if c == 0 {
      assert t[c := v][1..] == t[1..];
    } else {
      assert t[c := v][1..] == t[1..][c - 1 := v];
      NonFreeUpdate(t[1..], c - 1, v);
    }
  }

  /** Result of the chain-freeing walk: both tables afterwards, the clusters
      it visited (and freed) in order, and whether it stopped at END (true)
      or at an index outside the table (false). */
  datatype Freed = Freed(t1: seq<int>, t2: seq<int>, visited: seq<int>, ok: bool)

  /** The removal loop: from `c`, until END, read the next index from copy 1,
      set the current cluster FREE in both copies, and move on. The walk ends
      without a step bound because every step frees a cluster; if a cycle
      brings it back to a freed cluster, the FREE it reads there is not an
      index and the walk stops. */
  function FreeWalk(t1: seq<int>, t2: seq<int>, c: int): (r: Freed)
    requires |t1| == |t2|
    ensures |r.t1| == |t1| && |r.t2| == |t2|
    // every visited cluster is FREE in both copies afterwards
    ensures forall k :: 0 <= k < |r.visited| ==>
      0 <= r.visited[k] < |t1| && r.t1[r.visited[k]] == FREE && r.t2[r.visited[k]] == FREE
    // every other entry is unchanged
    ensures forall i :: 0 <= i < |t1| && i !in r.visited ==> r.t1[i] == t1[i] && r.t2[i] == t2[i]
    ensures |r.visited| > 0 ==> r.visited[0] == c
    decreases NonFree(t1) + (if 0 <= c < |t1| then 1 else 0)
  {
    if c == END then Freed(t1, t2, [], true)
    else if !(0 <= c < |t1|) then Freed(t1, t2, [], false)
    else
      var next := t1[c];
      NonFreeUpdate(t1, c, FREE);
      var r := FreeWalk(t1[c := FREE], t2[c := FREE], next);
      Freed(r.t1, r.t2, [c] + r.visited, r.ok)
  }

  /** A removal walk that reaches a cluster linked to FREE or BAD frees that
      cluster and stops there as failed: a sentinel is not a table index. */
  lemma FreeWalkStopsAtSentinel(t1: seq<int>, t2: seq<int>, c: int)
    requires |t1| == |t2| && 0 <= c < |t1| && (t1[c] == FREE || t1[c] == BAD)
    ensures FreeWalk(t1, t2, c) == Freed(t1[c := FREE], t2[c := FREE], [c], false)
  {
    NonFreeUpdate(t1, c, FREE);
    assert FreeWalk(t1[c := FREE], t2[c := FREE], t1[c]) == Freed(t1[c := FREE], t2[c := FREE], [], false);
  }

  lemma {:induction false} FreeWalkKeepsMirror(t1: seq<int>, t2: seq<int>, c: int)
    requires |t1| == |t2|
    ensures t1 == t2 ==> FreeWalk(t1, t2, c).t1 == FreeWalk(t1, t2, c).t2
    decreases NonFree(t1) + (if 0 <= c < |t1| then 1 else 0)
  {
    if c != END && 0 <= c < |t1| {
      NonFreeUpdate(t1, c, FREE);
      FreeWalkKeepsMirror(t1[c := FREE], t2[c := FREE], t1[c]);
    }
  }

  /** `l` is a well-formed chain in `t`: distinct clusters of the table, each
      entry naming the next, the last entry END. */
  ghost predicate IsChain(t: seq<int>, l: seq<int>) {
    && |l| > 0
    && (forall k :: 0 <= k < |l| ==> 0 <= l[k] < |t|)
    && (forall j, k :: 0 <= j < k < |l| ==> l[j] != l[k])
    && (forall k :: 0 <= k < |l| - 1 ==> t[l[k]] == l[k + 1])
    && t[l[|l| - 1]] == END
  }

  /** Removing a file whose clusters form a well-formed chain frees exactly
      that chain, in both copies, and ends normally. */
  lemma {:induction false} FreeWalkFreesChain(t1: seq<int>, t2: seq<int>, l: seq<int>)
    requires |t1| == |t2|
    requires IsChain(t1, l)
    ensures FreeWalk(t1, t2, l[0]).ok && FreeWalk(t1, t2, l[0]).visited == l
    decreases |l|
  {
    var c := l[0];
    NonFreeUpdate(t1, c, FREE);
    if |l| == 1 {
      assert t1[c] == END;
    } else {
      var u1 := t1[c := FREE];
      assert u1[l[1..][|l| - 2]] == END;
      assert IsChain(u1, l[1..]);
      FreeWalkFreesChain(u1, t2[c := FREE], l[1..]);
    }
  }

  /** How a chain walk stopped. */
  datatype Stop = AtEnd | Stray(at: int) | OutOfFuel

  /** The clusters of a chain walk, in order, and how it stopped. */
  datatype Walk = Walk(clusters: seq<int>, stop: Stop)

  /** The chain listed from `c`: follow copy 1 until END, at most `fuel`
      clusters. A value that is neither END nor an index of the table stops
      the walk as `Stray`. */
  function ChainFrom(t: seq<int>, c: int, fuel: nat): (w: Walk)
    ensures |w.clusters| <= fuel
    ensures forall k :: 0 <= k < |w.clusters| ==> 0 <= w.clusters[k] < |t|
    ensures |w.clusters| > 0 ==> w.clusters[0] == c
    ensures forall k :: 0 <= k < |w.clusters| - 1 ==> t[w.clusters[k]] == w.clusters[k + 1]
    ensures END !in w.clusters
    ensures w.stop == AtEnd ==>
      if |w.clusters| == 0 then c == END else t[w.clusters[|w.clusters| - 1]] == END
    ensures w.stop.Stray? ==>
      && w.stop.at != END && !(0 <= w.stop.at < |t|)
      && (if |w.clusters| == 0 then c == w.stop.at else t[w.clusters[|w.clusters| - 1]] == w.stop.at)
    decreases fuel
  {
    if c == END then Walk([], AtEnd)
    else if !(0 <= c < |t|) then Walk([], Stray(c))
    else if fuel == 0 then Walk([], OutOfFuel)
    else
      var w := ChainFrom(t, t[c], fuel - 1);
      Walk([c] + w.clusters, w.stop)
  }

  /** A chain walk that reaches a cluster linked to FREE or BAD lists that
      cluster and stops there as `Stray`. */
  lemma ChainFromStopsAtSentinel(t: seq<int>, c: int, fuel: nat)
    requires 0 <= c < |t| && fuel > 0 && (t[c] == FREE || t[c] == BAD)
    ensures ChainFrom(t, c, fuel) == Walk([c], Stray(t[c]))
  {
    assert ChainFrom(t, t[c], fuel - 1) == Walk([], Stray(t[c]));
  }

  /** One step of a chain walk with an accumulated listing `acc`. */
  lemma ChainStep(t: seq<int>, acc: seq<int>, c: int, fuel: nat)
    requires 0 <= c < |t| && fuel > 0
    ensures var w := ChainFrom(t, c, fuel); var u := ChainFrom(t, t[c], fuel - 1);
      Walk(acc + w.clusters, w.stop) == Walk((acc + [c]) + u.clusters, u.stop)
  {
    var u := ChainFrom(t, t[c], fuel - 1);
    assert acc + ([c] + u.clusters) == (acc + [c]) + u.clusters;
  }

  /** The state of a loop that follows a chain from `first`: it has visited
      `listed`, stands at `cur` with `fuel` steps left, and what is left of
      the walk from `cur` completes the walk from `first`. */
  ghost predicate Walking(t: seq<int>, first: int, listed: seq<int>, cur: int, fuel: nat) {
    && fuel <= |t|
    && var w := ChainFrom(t, cur, fuel);
       ChainFrom(t, first, |t|) == Walk(listed + w.clusters, w.stop)
  }

  lemma WalkingStarts(t: seq<int>, first: int)
    ensures Walking(t, first, [], first, |t|)
  {
    assert [] + ChainFrom(t, first, |t|).clusters == ChainFrom(t, first, |t|).clusters;
  }

  /** Visiting an in-range cluster keeps `Walking`. */
  lemma WalkingStep(t: seq<int>, first: int, listed: seq<int>, cur: int, fuel: nat)
    requires Walking(t, first, listed, cur, fuel)
    requires 0 <= cur < |t| && fuel > 0
    ensures Walking(t, first, listed + [cur], t[cur], fuel - 1)
  {
    ChainStep(t, listed, cur, fuel);
  }

  /** Where the loop stops, the walk from `first` is `listed` and the reason
      the loop stopped. */
  lemma WalkingStops(t: seq<int>, first: int, listed: seq<int>, cur: int, fuel: nat)
    requires Walking(t, first, listed, cur, fuel)
    ensures cur == END ==> ChainFrom(t, first, |t|) == Walk(listed, AtEnd)
    ensures cur != END && !(0 <= cur < |t|) ==> ChainFrom(t, first, |t|) == Walk(listed, Stray(cur))
    ensures cur != END && 0 <= cur < |t| && fuel == 0 ==> ChainFrom(t, first, |t|) == Walk(listed, OutOfFuel)
  {
    assert listed + [] == listed;
  }

  /** A well-formed chain is listed in full by a walk with enough fuel. */
  lemma {:induction false} ChainFromListsChain(t: seq<int>, l: seq<int>, fuel: nat)
    requires IsChain(t, l) && |l| <= fuel
    ensures ChainFrom(t, l[0], fuel) == Walk(l, AtEnd)
    decreases |l|
  {
    if |l| == 1 {
      assert t[l[0]] == END;
    } else {
      assert t[l[1..][|l| - 2]] == END;
      assert IsChain(t, l[1..]);
      ChainFromListsChain(t, l[1..], fuel - 1);
      assert [l[0]] + l[1..] == l;
    }
  }

  /** A set of distinct indices below `n` has at most `n` members. */
  lemma {:induction false} DistinctBelow(l: seq<int>, n: nat)
    requires forall k :: 0 <= k < |l| ==> 0 <= l[k] < n
    requires forall j, k :: 0 <= j < k < |l| ==> l[j] != l[k]
    ensures |l| <= n
    decreases n
  {
    if |l| > 0 {
      assert 0 <= l[0] < n;
      // drop the element n - 1 if it is present, and everything is below n - 1
      if exists k :: 0 <= k < |l| && l[k] == n - 1 {
        var k :| 0 <= k < |l| && l[k] == n - 1;
        var rest := l[..k] + l[k + 1..];
        assert forall i :: 0 <= i < |rest| ==> rest[i] == (if i < k then l[i] else l[i + 1]);
        DistinctBelow(rest, n - 1);
      } else {
        DistinctBelow(l, n - 1);
      }
    }
  }

  /** The cluster count is enough fuel for any well-formed chain: the bounded
      walk of `info` then lists exactly the chain. */
  lemma ClusterCountIsEnoughFuel(t: seq<int>, l: seq<int>)
    requires IsChain(t, l)
    ensures ChainFrom(t, l[0], |t|) == Walk(l, AtEnd)
  {
    DistinctBelow(l, |t|);
    ChainFromListsChain(t, l, |t|);
  }

  predicate IsBadAt(t1: seq<int>, t2: seq<int>, i: int)
    requires 0 <= i < |t1| && |t1| <= |t2|
  {
    t1[i] == BAD || t2[i] == BAD
  }

  /** The indices below `n` where either copy holds BAD, in ascending order:
      what the scan has reported after its first `n` steps. */
  function BadBelow(t1: seq<int>, t2: seq<int>, n: nat): (r: seq<int>)
    requires n <= |t1| <= |t2|
    ensures forall k :: 0 <= k < |r| ==> 0 <= r[k] < n && IsBadAt(t1, t2, r[k])
    ensures forall j, k :: 0 <= j < k < |r| ==> r[j] < r[k]
  {
    if n == 0 then []
    else BadBelow(t1, t2, n - 1) + (if IsBadAt(t1, t2, n - 1) then [n - 1] else [])
  }

  /** Every index below `n` where either copy holds BAD is reported. */
  lemma {:induction false} BadBelowComplete(t1: seq<int>, t2: seq<int>, n: nat, i: nat)
    requires n <= |t1| <= |t2| && i < n && IsBadAt(t1, t2, i)
    ensures i in BadBelow(t1, t2, n)
    decreases n
  {
    var p := BadBelow(t1, t2, n - 1);
    var last := if IsBadAt(t1, t2, n - 1) then [n - 1] else [];
    assert BadBelow(t1, t2, n) == p + last;
    if i == n - 1 {
      assert i in last;
    } else {
      BadBelowComplete(t1, t2, n - 1, i);
      assert i in p;
    }
  }

  /** The report of the bad-cluster scan. */
  function BadClusters(t1: seq<int>, t2: seq<int>): seq<int>
    requires |t1| <= |t2|
  {
    BadBelow(t1, t2, |t1|)
  }

  /** The report holds every index where either copy holds BAD. */
  lemma BadClustersComplete(t1: seq<int>, t2: seq<int>)
    requires |t1| <= |t2|
    ensures forall i :: 0 <= i < |t1| && IsBadAt(t1, t2, i) ==> i in BadClusters(t1, t2)
  {
    forall i | 0 <= i < |t1| && IsBadAt(t1, t2, i)
      ensures i in BadClusters(t1, t2)
    {
      BadBelowComplete(t1, t2, |t1|, i);
    }
  }

  /** After a cluster is marked BAD in both copies, the scan reports it, and
      exactly once. */
  lemma MarkedClusterReportedOnce(t1: seq<int>, t2: seq<int>, c: int)
    requires |t1| == |t2| && 0 <= c < |t1|
    ensures var r := BadClusters(t1[c := BAD], t2[c := BAD]);
      exists k :: 0 <= k < |r| && r[k] == c && forall j :: 0 <= j < |r| && j != k ==> r[j] != c
  {
    var u1, u2 := t1[c := BAD], t2[c := BAD];
    var r := BadClusters(u1, u2);
    assert IsBadAt(u1, u2, c);
    BadBelowComplete(u1, u2, |u1|, c);
    var k :| 0 <= k < |r| && r[k] == c;
    forall j | 0 <= j < |r| && j != k
      ensures r[j] != c
    {
      if j < k { assert r[j] < r[k]; } else { assert r[k] < r[j]; }
    }
  }
}
