/** The two short cuts into a file's chain, the last place looked up and the
    fast-seek points, and the block lookup that uses them. Whatever the short
    cuts hold, a lookup gives the cluster the plain walk from the start gives. */
module Lookup {
  import opened Results
  import opened Arith
  import opened Fat

  const DEFAULT_INTERVAL: nat := 4

  predicate PowerOfTwo(m: nat) {
    m == 1 || (m > 1 && m % 2 == 0 && PowerOfTwo(m / 2))
  }

  // The largest power of two that divides n.
  function LowBit(n: nat): (m: nat)
    requires n > 0
    ensures 1 <= m <= n
    ensures m == 1 <==> n % 2 == 1
    ensures PowerOfTwo(m)
  {
    if n % 2 == 1 then 1 else 2 * LowBit(n / 2)
  }

  /** It divides n, and what is left is odd. */
  lemma {:induction false} LowBitDivides(n: nat)
    requires n > 0
    ensures n % LowBit(n) == 0 && n / LowBit(n) % 2 == 1
  {
    if n % 2 == 0 {
      var h, m := n / 2, LowBit(n / 2);
      LowBitDivides(h);
      var q := h / m;
      assert h == q * m;
      assert n == q * (2 * m);
      DivIs(n, 2 * m, q, 0);
    }
  }

  datatype FastSeek = FastSeek(interval: nat, fpoints: seq<nat>)

  /** What an inode remembers of its chain: the cluster at one offset, if the offset
      is not 0, and every so many clusters a point. */
  datatype ShortCuts = ShortCuts(hintClu: nat, hintOff: nat, fastSeek: Option<FastSeek>)

  const NO_CUTS := ShortCuts(0, 0, None)

  ghost predicate SeekOk(f: FastSeek, chain: seq<nat>) {
    f.interval > 1 && forall k :: 0 <= k < |f.fpoints| ==> k * f.interval < |chain| && f.fpoints[k] == chain[k * f.interval]
  }

  /** The remembered cluster is where it was remembered to be, and so are the points. */
  ghost predicate CutsOk(s: ShortCuts, chain: seq<nat>) {
    && (s.hintOff > 0 && s.hintClu >= VALID_CLU ==> s.hintOff < |chain| && chain[s.hintOff] == s.hintClu)
    && (s.fastSeek.Some? ==> SeekOk(s.fastSeek.value, chain))
  }

  /** A chain may grow at its end: neither short cut has to change. */
  lemma {:induction false} CutsGrow(s: ShortCuts, chain: seq<nat>, n: nat)
    requires CutsOk(s, chain)
    ensures CutsOk(s, chain + [n])
  {
    if s.fastSeek.Some? {
      var f := s.fastSeek.value;
      forall k | 0 <= k < |f.fpoints|
        ensures k * f.interval < |chain + [n]| && f.fpoints[k] == (chain + [n])[k * f.interval]
      {
        assert k * f.interval < |chain|;
      }
    }
  }

  lemma PointsAreSeek(chain: seq<nat>, m: nat)
    requires m > 1
    ensures SeekOk(FastSeek(m, Points(chain, m)), chain)
  {
    forall k | 0 <= k < |Points(chain, m)| ensures k * m < |chain| && Points(chain, m)[k] == chain[k * m] {
      PointAt(chain, m, k);
    }
  }

  // A chain of n clusters has as many points as intervals cover n.
  lemma PointsCover(chain: seq<nat>, m: nat)
    requires m > 1
    ensures |Points(chain, m)| == Cover(|chain|, m)
  {
    PointCount(chain, m);
    CoverIs(|chain|, |Points(chain, m)|, m);
  }

  // A block before the end of the file lies in one of the clusters that cover the file.
  lemma BlockInside(index: nat, size: nat, block: nat, bpc: nat)
    requires block > 0 && bpc > 0 && index < Cover(size, block)
    ensures index / bpc < Cover(size, bpc * block)
  {
    var last, c := Cover(size, block), index / bpc;
    assert size + block - 1 == last * block + (size + block - 1) % block;
    MulStep(index, last, block);
    assert index * block < size;
    var d := bpc * block;
    assert index == c * bpc + index % bpc;
    MulAtMost(c * bpc, index, block);
    assert c * bpc * block == c * d;
    var n := Cover(size, d);
    assert size + d - 1 == n * d + (size + d - 1) % d;
    if n <= c {
      MulAtMost(n, c, d);
    }
  }

  lemma SuffixReaches(t: Table, chain: seq<nat>, at: nat, hops: nat)
    requires Walkable(t, chain) && at + hops < |chain|
    ensures Reaches(t, chain[at..], chain[at], hops) && chain[at..][hops] == chain[at + hops]
  {
    var p := chain[at..];
    forall i | 0 <= i < |p| - 1 ensures t[p[i]] == p[i + 1] {
      assert t[chain[at + i]] == chain[at + i + 1];
    }
    if at + hops < |chain| - 1 {
      assert t[chain[at + hops]] == chain[at + hops + 1];
    }
  }

  /** The chain of an open file. It may hang in the middle of the orphans, so its last
      cluster points at anything but a free cluster. */
  ghost predicate Walkable(t: Table, chain: seq<nat>) {
    Path(t, chain) && (chain != [] ==> var v := t[chain[|chain| - 1]]; ValidContent(t, v) && v >= VALID_CLU)
  }

  // The clusters of the file cover its size; a cluster has bpc blocks.
  predicate CoveredBy(size: nat, block: nat, bpc: nat, clusters: nat) {
    block > 0 && bpc > 0 && Cover(size, bpc * block) <= clusters
  }

  /** The block with that index lies in the cluster that many steps from the start; past
      the end of the file there is none. */
  ghost predicate BlockIs(chain: seq<nat>, index: nat, size: nat, block: nat, bpc: nat, r: Result<(nat, nat)>)
    requires block > 0 && bpc > 0
  {
    if index < Cover(size, block) then index / bpc < |chain| && r == Ok((chain[index / bpc], index % bpc))
    else r == Err(EFAULT)
  }

  // Whether the cluster remembered may be walked on from.
  predicate Hinted(s: ShortCuts, cluster: nat) {
    0 < s.hintOff <= cluster && s.hintClu >= VALID_CLU
  }

  // Whether a point was collected for the stretch the cluster lies in.
  predicate Pointed(s: ShortCuts, cluster: nat) {
    s.fastSeek.Some? && s.fastSeek.value.interval > 0 && cluster / s.fastSeek.value.interval < |s.fastSeek.value.fpoints|
  }

  /** This cluster of the chain is remembered; the first one never is. */
  predicate Remembers(s: ShortCuts, cluster: nat, offset: nat) {
    if cluster >= VALID_CLU && offset > 0 then s.hintClu == cluster && s.hintOff == offset else s.hintClu == s.hintOff == 0
  }

  // The cluster of the block found is remembered.
  predicate RemembersBlock(s: ShortCuts, index: nat, bpc: nat, r: Result<(nat, nat)>) {
    bpc > 0 && (r.Ok? ==> Remembers(s, r.value.0, index / bpc))
  }

  // Where to start walking from, and how far. `at` is the place of that cluster on the chain.
  // No more hops are left than from the cluster remembered, nor than an interval where there are points.
  method LookupHint(start: nat, s: ShortCuts, cluster: nat, ghost chain: seq<nat>) returns (r: Result<(nat, nat)>, ghost at: nat)
    requires CutsOk(s, chain) && (if chain == [] then start == CLU_TAIL else start == chain[0] != CLU_TAIL)
    ensures r.Err? <==> chain == []
    ensures r.Err? ==> r.error == EFAULT
    ensures r.Ok? ==> at < |chain| && chain[at] == r.value.0 && at + r.value.1 == cluster
    ensures r.Ok? && Hinted(s, cluster) ==> r.value.1 <= cluster - s.hintOff
    ensures r.Ok? && Pointed(s, cluster) ==> r.value.1 <= s.fastSeek.value.interval
  {
    var clus := cluster;
    at := 0;
    if start == CLU_TAIL {
      return Err(EFAULT), at;
    }
    var from := start;
    if clus > 0 && s.hintOff > 0 && s.hintClu >= VALID_CLU && clus >= s.hintOff {
      from, at := s.hintClu, s.hintOff;
      clus := clus - s.hintOff;
    }
    if s.fastSeek.Some? && clus > s.fastSeek.value.interval {
      var f := s.fastSeek.value;
      var index := cluster / f.interval;
      if index < |f.fpoints| {
        clus := cluster % f.interval;
        from, at := f.fpoints[index], index * f.interval;
      }
    }
    return Ok((from, clus)), at;
  }

  /** Remembers a cluster of the chain for the next lookup: what is remembered stays right. */
  method UpdateHint(s: ShortCuts, cluster: nat, offset: nat, ghost chain: seq<nat>) returns (u: ShortCuts)
    requires CutsOk(s, chain) && offset < |chain| && chain[offset] == cluster
    ensures CutsOk(u, chain) && u.fastSeek == s.fastSeek
    ensures Remembers(u, cluster, offset)
  {
    if cluster < VALID_CLU || offset == 0 {
      u := InvalidHint(s);
    } else {
      u := s.(hintClu := cluster, hintOff := offset);
    }
  }

  function InvalidHint(s: ShortCuts): ShortCuts {
    s.(hintClu := 0, hintOff := 0)
  }

  /** The cluster that holds a block of the file, and the block's place in it. */
  method FindBlock(t: Table, start: nat, s: ShortCuts, index: nat, size: nat, block: nat, bpc: nat, ghost chain: seq<nat>)
    returns (r: Result<(nat, nat)>, u: ShortCuts)
    requires CoveredBy(size, block, bpc, |chain|)
    requires CutsOk(s, chain) && Walkable(t, chain) && (if chain == [] then start == CLU_TAIL else start == chain[0] != CLU_TAIL)
    ensures CutsOk(u, chain) && u.fastSeek == s.fastSeek
    ensures BlockIs(chain, index, size, block, bpc, r)
    ensures RemembersBlock(u, index, bpc, r) && (r.Err? ==> u == s)
  {
    u := s;
    var cluster, offset := index / bpc, index % bpc;
    var hint, at := LookupHint(start, s, cluster, chain);
    if index < Cover(size, block) {
      BlockInside(index, size, block, bpc);
    }
    if hint.Err? {
      return Err(hint.error), u;
    }
    if index >= (size + (block - 1)) / block {
      return Err(EFAULT), u;
    }
    SuffixReaches(t, chain, at, hint.value.1);
    var found := FindCluster(t, hint.value.0, hint.value.1, false);
    if found.Err? {
      return Err(EIO), u;
    }
    u := UpdateHint(s, found.value.0, cluster, chain);
    return Ok((found.value.0, offset)), u;
  }

  // The interval a call is made with: the default if it asks for none, cut down to a power of two.
  function IntervalFor(asked: nat): (m: nat)
    ensures 1 <= m
  {
    LowBit(if asked < 2 then DEFAULT_INTERVAL else asked)
  }

  /** Who asks for less than 2 gets 4; the interval divides any other, an odd number of times. */
  lemma IntervalIs(asked: nat)
    ensures var m := IntervalFor(asked); PowerOfTwo(m) && if asked < 2 then m == 4 else asked % m == 0 && asked / m % 2 == 1
  {
    if asked < 2 {
      assert LowBit(1) == 1 && LowBit(2) == 2;
    } else {
      LowBitDivides(asked);
    }
  }

  /** Collects the fast-seek points of a linked file. An odd interval is cut down to 1, for which no
      point is ever collected: the call then fails exactly when the file has more than one cluster. */
  method FindPoints(t: Table, start: nat, s: ShortCuts, asked: nat, size: nat, clusterSize: nat, unlinked: bool,
                    ghost chain: seq<nat>)
    returns (r: Result<()>, u: ShortCuts)
    requires clusterSize > 0 && Cover(size, clusterSize) <= |chain| && CutsOk(s, chain)
    requires !unlinked && chain != [] ==> ChainFrom(t, start, chain)
    requires chain != [] ==> start != CLU_TAIL
    ensures CutsOk(u, chain) && u.(fastSeek := None) == s.(fastSeek := None)
    ensures var interval, clusters := IntervalFor(asked), Cover(size, clusterSize);
            if unlinked || size == 0 || interval >= clusters then r == Ok(()) && u == s
            else if interval > 1 && Cover(|chain|, interval) == Cover(clusters, interval) then
              r == Ok(()) && u.fastSeek == Some(FastSeek(interval, Points(chain, interval)))
            else r == Err(EIO) && u == s
  {
    hide SeekOk, Points, LowBit, IntervalFor;
    u := s;
    var interval := IntervalFor(asked);
    if unlinked || size == 0 {
      return Ok(()), u;
    }
    var clusters := (size + clusterSize - 1) / clusterSize;
    if interval >= clusters {
      return Ok(()), u;
    }
    var points := (clusters + interval - 1) / interval;
    SomePoints(clusters, interval);
    var found := FindLastCluster(t, start, interval, points);
    assert found == WalkResult(chain, interval, points);
    if interval > 1 {
      PointsCover(chain, interval);
      PointsAreSeek(chain, interval);
    } else {
      NoPoints(chain, interval);
    }
    if found.Err? {
      return Err(found.error), u;
    }
    u := s.(fastSeek := Some(FastSeek(interval, found.value.fpoints)));
    return Ok(()), u;
  }

  lemma SomePoints(n: nat, m: nat)
    requires 0 < m < n
    ensures Cover(n, m) > 0
  {
  }

  /** On a file of two clusters, an interval of 3 makes the call fail, and one of 2 does not. */
  method OddIntervalFails()
    returns (odd: Result<()>, even: Result<()>)
    ensures odd == Err(EIO) && even == Ok(())
  {
    var t: Table := [0, 0, 3, CLU_TAIL];
    ghost var chain := [2, 3];
    assert ChainFrom(t, 2, chain);
    var u;
    odd, u := FindPoints(t, 2, NO_CUTS, 3, 1024, 512, false, chain);
    even, u := FindPoints(t, 2, NO_CUTS, 2, 1024, 512, false, chain);
  }
}
