/** The file allocation table as a flat table of next-cluster values, the
    chains that live in it, and the three walks the driver makes over it.
    The table may hold anything unless a lemma says otherwise: the walks are
    proved on corrupted and circular tables too. */
module Fat {
  import opened Results
  import opened Arith

  const CLU_FREE: nat := 0
  const VALID_CLU: nat := 2
  const CLU_TAIL: nat := 0xFFFF_FFFF
  const MAX_CLUSTERS: nat := 0x0FFF_FFF7

  type Table = t: seq<nat> | VALID_CLU <= |t| <= MAX_CLUSTERS witness [0, 0]

  predicate ValidClu(t: Table, c: nat) {
    VALID_CLU <= c < |t|
  }

  // A value rfs_fat_read and rfs_fat_write let through.
  predicate ValidContent(t: Table, v: nat) {
    v == CLU_FREE || v == CLU_TAIL || ValidClu(t, v)
  }

  // The clusters below n that are in use.
  function UsedBelow(t: Table, n: nat): set<nat> {
    set c: nat | VALID_CLU <= c < n && c < |t| && t[c] != CLU_FREE
  }

  lemma UsedNext(t: Table, n: nat)
    requires ValidClu(t, n)
    ensures |UsedBelow(t, n + 1)| == |UsedBelow(t, n)| + if t[n] != CLU_FREE then 1 else 0
  {
    if t[n] != CLU_FREE {
      assert UsedBelow(t, n + 1) == UsedBelow(t, n) + {n};
    } else {
      assert UsedBelow(t, n + 1) == UsedBelow(t, n);
    }
  }

  function FreeBelow(t: Table, n: nat): set<nat> {
    set c: nat | VALID_CLU <= c < n && c < |t| && t[c] == CLU_FREE
  }

  // How many clusters can still be allocated.
  function FreeClusters(t: Table): nat {
    |FreeBelow(t, |t|)|
  }

  function FatRead(t: Table, c: nat): Result<nat> {
    if !ValidClu(t, c) then Err(EINVAL)
    else if !ValidContent(t, t[c]) then Err(EIO)
    else Ok(t[c])
  }

  /** Every cluster of `p` is valid and points at the next one. */
  ghost predicate Path(t: Table, p: seq<nat>) {
    && (forall i :: 0 <= i < |p| ==> ValidClu(t, p[i]))
    && (forall i :: 0 <= i < |p| - 1 ==> t[p[i]] == p[i + 1])
  }

  /** A file: a non-empty path whose last cluster carries the end mark. */
  ghost predicate Chain(t: Table, p: seq<nat>) {
    p != [] && Path(t, p) && t[p[|p| - 1]] == CLU_TAIL
  }

  ghost predicate Distinct(p: seq<nat>) {
    forall i, j :: 0 <= i < j < |p| ==> p[i] != p[j]
  }

  // A cluster seen twice on a chain would make the rest of the chain repeat for ever.
  lemma {:induction false} ChainNoRepeat(t: Table, p: seq<nat>, i: nat, j: nat)
    requires Chain(t, p) && i < j < |p|
    ensures p[i] != p[j]
    decreases |p| - j
  {
    assert t[p[i]] == p[i + 1] && ValidClu(t, p[i + 1]);
    if j < |p| - 1 {
      assert t[p[j]] == p[j + 1];
      ChainNoRepeat(t, p, i + 1, j + 1);
    }
  }

  lemma ChainIsDistinct(t: Table, p: seq<nat>)
    requires Chain(t, p)
    ensures Distinct(p)
  {
    forall i, j | 0 <= i < j < |p| ensures p[i] != p[j] {
      ChainNoRepeat(t, p, i, j);
    }
  }

  function Elements(p: seq<nat>): set<nat> {
    set i | 0 <= i < |p| :: p[i]
  }

  lemma {:induction false} DistinctCount(p: seq<nat>)
    requires Distinct(p)
    ensures |Elements(p)| == |p|
  {
    if p == [] {
      assert Elements(p) == {};
    } else {
      var q := p[..|p| - 1];
      DistinctCount(q);
      assert Elements(p) == Elements(q) + {p[|p| - 1]};
      assert p[|p| - 1] !in Elements(q);
    }
  }

  ghost function Between(lo: nat, hi: nat): (s: set<nat>)
    requires lo <= hi
    ensures forall c: nat :: c in s <==> lo <= c < hi
    ensures |s| == hi - lo
    decreases hi - lo
  {
    if lo == hi then {} else {lo} + Between(lo + 1, hi)
  }

  // A cluster is free or in use.
  lemma FreeAndUsed(t: Table)
    ensures FreeClusters(t) + |UsedBelow(t, |t|)| == |t| - VALID_CLU
  {
    assert FreeBelow(t, |t|) + UsedBelow(t, |t|) == Between(VALID_CLU, |t|);
    assert FreeBelow(t, |t|) !! UsedBelow(t, |t|);
  }

  lemma {:induction false} SubsetCount(a: set<nat>, b: set<nat>)
    requires a <= b
    ensures |a| <= |b|
    decreases |a|
  {
    if a != {} {
      var x :| x in a;
      SubsetCount(a - {x}, b - {x});
    }
  }

  /** Pigeonhole: a list of different clusters is no longer than the volume has clusters. */
  lemma DistinctFits(t: Table, p: seq<nat>)
    requires Distinct(p) && forall i :: 0 <= i < |p| ==> ValidClu(t, p[i])
    ensures |p| <= |t| - VALID_CLU
  {
    DistinctCount(p);
    assert Elements(p) <= Between(VALID_CLU, |t|);
    SubsetCount(Elements(p), Between(VALID_CLU, |t|));
  }

  /** A walk from the start of a chain can only follow the chain. */
  lemma {:induction false} PathFollowsChain(t: Table, p: seq<nat>, q: seq<nat>, k: nat)
    requires Chain(t, p) && Path(t, q) && q != [] && q[0] == p[0] && k < |q|
    ensures k < |p| && q[k] == p[k]
  {
    if k > 0 {
      PathFollowsChain(t, p, q, k - 1);
      assert t[q[k - 1]] == q[k];
      assert k - 1 < |p| - 1 by {
        assert ValidClu(t, q[k]);
      }
      assert t[p[k - 1]] == p[k];
    }
  }

  lemma ChainIsUnique(t: Table, p: seq<nat>, q: seq<nat>)
    requires Chain(t, p) && Chain(t, q) && p[0] == q[0]
    ensures p == q
  {
    PathFollowsChain(t, p, q, |q| - 1);
    PathFollowsChain(t, q, p, |p| - 1);
    forall k | 0 <= k < |q| ensures q[k] == p[k] {
      PathFollowsChain(t, p, q, k);
    }
  }

  datatype Last = Last(count: nat, last: nat, fpoints: seq<nat>)

  // n is a multiple of the interval m; an interval of 1 masks nothing and takes no point. The source tests
  // n & (m - 1), which says the same of the powers of two, and its callers pass no other interval.
  predicate OnPoint(n: nat, m: nat) {
    if m <= 1 then false
    else if n < m then n == 0
    else OnPoint(n - m, m)
  }

  /** Fast-seek points of a chain: every interval-th cluster. An interval of 1 gives none. */
  ghost function Points(p: seq<nat>, interval: nat): seq<nat> {
    if p == [] then []
    else
      var rest := p[..|p| - 1];
      if OnPoint(|rest|, interval) then Points(rest, interval) + [p[|p| - 1]] else Points(rest, interval)
  }

  ghost predicate ChainFrom(t: Table, start: nat, p: seq<nat>) {
    Chain(t, p) && p[0] == start
  }

  lemma {:induction false} OnPointAt(n: nat, k: nat, m: nat)
    requires m > 1 && n <= k * m < n + m
    ensures OnPoint(n, m) <==> n == k * m
    decreases n
  {
    if n >= m {
      assert (k - 1) * m == k * m - m;
      OnPointAt(n - m, k - 1, m);
    } else if k >= 1 {
      MulAtMost(1, k, m);
    }
  }

  lemma PointsSnoc(q: seq<nat>, c: nat, m: nat)
    ensures Points(q + [c], m) == if OnPoint(|q|, m) then Points(q, m) + [c] else Points(q, m)
  {
    assert (q + [c])[..|q|] == q;
  }

  // The number of points of n clusters: the multiples of m below n.
  lemma {:induction false} PointCount(p: seq<nat>, m: nat)
    requires m > 1
    ensures |p| <= |Points(p, m)| * m < |p| + m
  {
    if p != [] {
      var q := p[..|p| - 1];
      PointCount(q, m);
      var n := |Points(q, m)|;
      OnPointAt(|q|, n, m);
      assert (n + 1) * m == n * m + m;
    }
  }

  /** The points as an array: entry k is the cluster k * interval hops from the start. */
  lemma {:induction false} PointAt(p: seq<nat>, m: nat, k: nat)
    requires m > 1 && k < |Points(p, m)|
    ensures k * m < |p| && Points(p, m)[k] == p[k * m]
  {
    var q := p[..|p| - 1];
    var n := |Points(q, m)|;
    if k < n {
      PointAt(q, m, k);
    } else {
      PointCount(q, m);
      OnPointAt(|q|, n, m);
    }
  }

  lemma {:induction false} NoPoints(p: seq<nat>, m: nat)
    requires m <= 1
    ensures Points(p, m) == []
  {
    if p != [] {
      NoPoints(p[..|p| - 1], m);
    }
  }

  lemma {:induction false} PointsPrefix(p: seq<nat>, m: nat, n: nat)
    requires n <= |p|
    ensures |Points(p[..n], m)| <= |Points(p, m)|
    decreases |p|
  {
    if n < |p| {
      var q := p[..|p| - 1];
      PointsPrefix(q, m, n);
      assert q[..n] == p[..n];
    } else {
      assert p[..n] == p;
    }
  }

  ghost function WalkResult(p: seq<nat>, interval: nat, numPoints: nat): Result<Last>
    requires p != []
  {
    if interval != 0 && |Points(p, interval)| != numPoints then Err(EIO)
    else Ok(Last(|p|, p[|p| - 1], Points(p, interval)))
  }

  // A walk has passed the clusters of q and stands at prev.
  ghost predicate Walked(t: Table, start: nat, q: seq<nat>, prev: nat) {
    && Path(t, q)
    && if q == [] then prev == start
       else q[0] == start && t[q[|q| - 1]] == prev && prev != CLU_TAIL
  }

  lemma WalkStaysOnChain(t: Table, start: nat, p: seq<nat>, q: seq<nat>, prev: nat)
    requires ChainFrom(t, start, p) && Walked(t, start, q, prev)
    ensures |q| < |p| && p[|q|] == prev && forall k :: 0 <= k < |q| ==> q[k] == p[k]
    ensures FatRead(t, prev) == Ok(if |q| + 1 < |p| then p[|q| + 1] else CLU_TAIL)
  {
    if q != [] {
      forall k | 0 <= k < |q| ensures k < |p| && q[k] == p[k] {
        PathFollowsChain(t, p, q, k);
      }
      assert t[p[|q| - 1]] == prev;
    }
    if |q| < |p| - 1 {
      assert t[p[|q|]] == p[|q| + 1];
    }
  }

  lemma NotOnChain(t: Table, start: nat, q: seq<nat>, prev: nat)
    requires Walked(t, start, q, prev)
    requires FatRead(t, prev).Err? || FatRead(t, prev).value < VALID_CLU
    ensures forall p :: !ChainFrom(t, start, p)
  {
    forall p | ChainFrom(t, start, p) ensures false {
      WalkStaysOnChain(t, start, p, q, prev);
    }
  }

  lemma WalkOn(t: Table, start: nat, q: seq<nat>, prev: nat)
    requires Walked(t, start, q, prev) && ValidClu(t, prev)
    ensures Path(t, q + [prev]) && (q + [prev])[0] == start
  {
  }

  lemma WalkNone(t: Table, start: nat, m: nat)
    ensures Walked(t, start, [], start) && Points([], m) == []
  {
  }

  lemma WalkEnds(t: Table, start: nat, q: seq<nat>)
    requires Path(t, q) && q != [] && q[0] == start && t[q[|q| - 1]] == CLU_TAIL
    ensures ChainFrom(t, start, q)
    ensures forall p :: ChainFrom(t, start, p) ==> p == q
  {
    forall p | ChainFrom(t, start, p) ensures p == q {
      ChainIsUnique(t, p, q);
    }
  }

  lemma TooManyPoints(t: Table, start: nat, q: seq<nat>, prev: nat, m: nat, k: nat)
    requires Walked(t, start, q, prev) && OnPoint(|q|, m) && |Points(q, m)| >= k
    ensures m != 0 && forall p :: ChainFrom(t, start, p) ==> |Points(p, m)| != k
  {
    forall p | ChainFrom(t, start, p) ensures |Points(p, m)| != k {
      WalkStaysOnChain(t, start, p, q, prev);
      assert p[..|q|] == q;
      assert p[..|q| + 1][..|q|] == q;
      PointsPrefix(p, m, |q| + 1);
    }
  }

  lemma WalkTooLong(t: Table, start: nat, q: seq<nat>, prev: nat)
    requires Walked(t, start, q, prev) && |q| == |t| - VALID_CLU
    ensures forall p :: !ChainFrom(t, start, p)
  {
    forall p | ChainFrom(t, start, p) ensures false {
      WalkStaysOnChain(t, start, p, q, prev);
      ChainIsDistinct(t, p);
      DistinctFits(t, p);
    }
  }

  /** Walks to the last cluster of the chain, counting it and picking the
      fast-seek points. It succeeds exactly when a chain starts here and has the
      expected number of points; a circular or broken table is reported. */
  method FindLastCluster(t: Table, start: nat, interval: nat, numPoints: nat)
    returns (r: Result<Last>)
    ensures start == CLU_TAIL ==> r == Ok(Last(0, CLU_TAIL, []))
    ensures start != CLU_TAIL ==> forall p :: ChainFrom(t, start, p) ==> r == WalkResult(p, interval, numPoints)
    ensures start != CLU_TAIL && r.Ok? ==> exists p :: ChainFrom(t, start, p)
    ensures r.Err? ==> r.error == EIO
  {
    hide ChainFrom, Path, Points, OnPoint;
    if start == CLU_TAIL {
      return Ok(Last(0, CLU_TAIL, []));
    }
    var prev: nat := start;
    var count := 0;
    var fpoints: seq<nat> := [];
    var loop := VALID_CLU;
    ghost var q: seq<nat> := [];
    WalkNone(t, start, interval);
    while loop < |t|
      invariant loop == VALID_CLU + count <= |t| && |q| == count
      invariant Walked(t, start, q, prev)
      invariant fpoints == Points(q, interval)
    {
      var next := FatRead(t, prev);
      if next.Err? || next.value < VALID_CLU {
        NotOnChain(t, start, q, prev);
        return Err(EIO);
      }
      ghost var q' := q + [prev];
      PointsSnoc(q, prev, interval);
      if OnPoint(count, interval) {
        if |fpoints| >= numPoints {
          TooManyPoints(t, start, q, prev, interval, numPoints);
          return Err(EIO);
        }
        fpoints := fpoints + [prev];
      }
      WalkOn(t, start, q, prev);
      q := q';
      count := count + 1;
      if next.value == CLU_TAIL {
        WalkEnds(t, start, q);
        assert q[|q| - 1] == prev;
        if interval != 0 && |fpoints| != numPoints {
          return Err(EIO);
        }
        return Ok(Last(count, prev, fpoints));
      }
      prev := next.value;
      loop := loop + 1;
    }
    WalkTooLong(t, start, q, prev);
    return Err(EIO);
  }

  ghost function Hop(p: seq<nat>, off: nat): Result<(nat, nat)> {
    if off >= |p| then Err(EFAULT)
    else Ok((p[off], if off + 1 < |p| then p[off + 1] else CLU_TAIL))
  }

  // A path that is long enough to hop along, and does not end at a free cluster there.
  /** Following the table so many times, whatever it holds: a free entry on the way or an invalid
      one is an error, and so is an end mark before the last step. */
  function Hops(t: Table, c: nat, off: nat, inReplay: bool): Result<(nat, nat)>
    decreases off
  {
    var next := FatRead(t, c);
    if next.Err? then Err(next.error)
    else if next.value < VALID_CLU then Err(if inReplay then EFAULT else EIO)
    else if off == 0 then Ok((c, next.value))
    else if next.value == CLU_TAIL then Err(EFAULT)
    else Hops(t, next.value, off - 1, inReplay)
  }

  ghost predicate Reaches(t: Table, p: seq<nat>, start: nat, off: nat) {
    && Path(t, p) && off < |p| && p[0] == start
    && FatRead(t, p[off]).Ok? && FatRead(t, p[off]).value >= VALID_CLU
  }

  /** Hops `off` clusters along a chain, or along a path that is part of something longer. */
  method FindCluster(t: Table, start: nat, off: nat, inReplay: bool) returns (r: Result<(nat, nat)>)
    ensures forall p :: ChainFrom(t, start, p) ==> r == Hop(p, off)
    ensures forall p :: Reaches(t, p, start, off) ==> r == Ok((p[off], t[p[off]]))
    ensures r.Ok? ==> ValidClu(t, start) && ValidClu(t, r.value.0) && t[r.value.0] == r.value.1
    ensures r == Hops(t, start, off, inReplay)
  {
    var prev: nat := start;
    var i := 0;
    ghost var q: seq<nat> := [];
    while true
      invariant 0 <= i <= off && |q| == i && Walked(t, start, q, prev)
      invariant forall p :: Reaches(t, p, start, off) ==> p[i] == prev
      invariant Hops(t, start, off, inReplay) == Hops(t, prev, off - i, inReplay)
      decreases off - i
    {
      forall p | ChainFrom(t, start, p)
        ensures i < |p| && p[i] == prev && FatRead(t, prev) == Ok(if i + 1 < |p| then p[i + 1] else CLU_TAIL)
      {
        WalkStaysOnChain(t, start, p, q, prev);
      }
      forall p | Reaches(t, p, start, off)
        ensures FatRead(t, prev) == Ok(if i < off then p[i + 1] else t[p[off]])
        ensures i < off ==> ValidClu(t, p[i + 1])
      {
        assert i < off ==> t[p[i]] == p[i + 1];
      }
      var next := FatRead(t, prev);
      if next.Err? {
        return Err(next.error);
      }
      if next.value < VALID_CLU {
        return Err(if inReplay then EFAULT else EIO);
      }
      if i == off {
        return Ok((prev, next.value));
      }
      if next.value == CLU_TAIL {
        return Err(EFAULT);
      }
      WalkOn(t, start, q, prev);
      q := q + [prev];
      prev := next.value;
      i := i + 1;
    }
  }
}
