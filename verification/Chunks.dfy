/** The chunk list: the clusters to free, in runs of consecutive clusters, built
    by one bounded walk along the chain. */
module Chunks {
  import opened Results
  import opened Fat
  import opened Records
  import opened Batch

  const CHUNK_LIMIT: nat := MAX_RECORDS * MAX_CHUNKS

  /** A walk from `start` that comes to `last` for the first time at its end. */
  ghost predicate Ends(t: Table, s: seq<nat>, start: nat, last: nat) {
    && s != [] && s[0] == start && s[|s| - 1] == last && Path(t, s)
    && VALID_CLU <= t[last] && ValidContent(t, t[last])
    && forall i :: 0 <= i < |s| - 1 ==> s[i] != last
  }

  // The clusters listed so far and those of the chunk that is still open.
  function Taken(chunks: seq<Chunk>, start: nat, count: nat): seq<nat> {
    Expand(chunks) + Run(start, count)
  }

  lemma TakeOne(chunks: seq<Chunk>, start: nat, count: nat)
    ensures Taken(chunks, start, count + 1) == Taken(chunks, start, count) + [start + count]
  {
    assert Run(start, count + 1) == Run(start, count) + [start + count];
  }

  lemma CloseChunk(chunks: seq<Chunk>, start: nat, count: nat, next: nat)
    ensures Taken(chunks + [Chunk(start, count)], next, 0) == Taken(chunks, start, count)
    ensures Expand(chunks + [Chunk(start, count)]) == Taken(chunks, start, count)
  {
    ExpandSplit(chunks, [Chunk(start, count)]);
    assert Expand([Chunk(start, count)]) == Run(start, count) + Expand([]);
    assert Taken(chunks + [Chunk(start, count)], next, 0) == Expand(chunks + [Chunk(start, count)]);
  }

  // No chunk is empty, and none goes on where the one before it ends.
  ghost predicate Maximal(chunks: seq<Chunk>) {
    && (forall i :: 0 <= i < |chunks| ==> chunks[i].count > 0)
    && forall i :: 0 <= i < |chunks| - 1 ==> chunks[i].start + chunks[i].count != chunks[i + 1].start
  }

  // The chunks closed so far, and the start of the one that is open.
  ghost predicate Ended(chunks: seq<Chunk>, start: nat) {
    && Maximal(chunks)
    && (chunks != [] ==> var c := chunks[|chunks| - 1]; c.start + c.count != start)
  }

  lemma CloseMaximal(chunks: seq<Chunk>, start: nat, count: nat, next: nat)
    requires Ended(chunks, start) && count > 0
    ensures Maximal(chunks + [Chunk(start, count)])
    ensures next != start + count ==> Ended(chunks + [Chunk(start, count)], next)
  {
    var c := chunks + [Chunk(start, count)];
    forall i | 0 <= i < |c| - 1 ensures c[i].start + c[i].count != c[i + 1].start {
      if i < |chunks| - 1 {
        assert c[i] == chunks[i] && c[i + 1] == chunks[i + 1];
      }
    }
  }

  datatype Built = Built(chunks: seq<Chunk>, next: nat, count: nat, full: bool)

  /** What a walk must return: the chunks of the clusters from `start` on, up to
      `last` or until the list holds as many as fit in one batch, every run in one chunk,
      and where the next batch starts. */
  ghost predicate BuiltFrom(b: Built, s: seq<nat>) {
    && 0 < b.count <= |s| && Expand(b.chunks) == s[..b.count] && 0 < |b.chunks| <= CHUNK_LIMIT
    && b.next == (if b.count == |s| then CLU_TAIL else s[b.count])
    && (b.full <==> b.count < |s|) && Maximal(b.chunks)
    && (b.full ==> |b.chunks| == CHUNK_LIMIT && Ended(b.chunks, b.next))
  }

  // The walk stands at prev after the clusters of q.
  ghost predicate Before(t: Table, s: seq<nat>, start: nat, last: nat, q: seq<nat>, prev: nat) {
    && Path(t, q) && last !in q && (q == [] ==> prev == start) && (q != [] ==> q[0] == start && t[q[|q| - 1]] == prev)
    && (Ends(t, s, start, last) ==> |q| < |s| && q == s[..|q|] && prev == s[|q|])
  }

  lemma BeforeNext(t: Table, s: seq<nat>, start: nat, last: nat, q: seq<nat>, prev: nat)
    requires Before(t, s, start, last, q, prev) && ValidClu(t, prev) && prev != last
    ensures Before(t, s, start, last, q + [prev], t[prev])
  {
    if Ends(t, s, start, last) {
      assert t[s[|q|]] == s[|q| + 1];
      assert q + [prev] == s[..|q| + 1];
    }
  }

  lemma WalkReads(t: Table, s: seq<nat>, start: nat, last: nat, q: seq<nat>, prev: nat)
    requires Before(t, s, start, last, q, prev) && Ends(t, s, start, last)
    ensures FatRead(t, prev).Ok? && VALID_CLU <= FatRead(t, prev).value
    ensures prev != last ==> FatRead(t, prev).value != CLU_TAIL
  {
    assert ValidClu(t, s[|q|]);
    if |q| < |s| - 1 {
      assert t[s[|q|]] == s[|q| + 1] && ValidClu(t, s[|q| + 1]);
    }
  }

  // A walk from `start` that goes on at next, and has not come to `last`.
  ghost predicate Passes(t: Table, q: seq<nat>, start: nat, last: nat, next: nat) {
    Path(t, q) && q != [] && q[0] == start && last !in q && t[q[|q| - 1]] == next && VALID_CLU <= next < CLU_TAIL
  }

  // The list is that of a walk that comes to `last` at its end, in whole runs, or stops before that at the limit.
  ghost predicate Found(t: Table, start: nat, last: nat, b: Built) {
    && Maximal(b.chunks) && |Expand(b.chunks)| == b.count
    && if b.full
       then |b.chunks| == CHUNK_LIMIT && Ended(b.chunks, b.next) && Passes(t, Expand(b.chunks), start, last, b.next)
       else b.next == CLU_TAIL && Ends(t, Expand(b.chunks), start, last)
  }

  lemma WalkDone(t: Table, s: seq<nat>, start: nat, last: nat, q: seq<nat>, prev: nat, b: Built)
    requires Before(t, s, start, last, q, prev) && ValidClu(t, prev) && prev == last
    requires VALID_CLU <= t[prev] && ValidContent(t, t[prev])
    requires Expand(b.chunks) == q + [prev] && b.count == |q| + 1 && b.next == CLU_TAIL && !b.full
    requires 0 < |b.chunks| <= CHUNK_LIMIT && Maximal(b.chunks)
    ensures Found(t, start, last, b) && (Ends(t, s, start, last) ==> BuiltFrom(b, s))
  {
    assert Path(t, q + [prev]) && (q + [prev])[0] == start;
    if Ends(t, s, start, last) {
      assert s[|q|] == last;
      assert s[..|q| + 1] == q + [prev];
    }
  }

  lemma WalkFull(t: Table, s: seq<nat>, start: nat, last: nat, q: seq<nat>, prev: nat, b: Built)
    requires Before(t, s, start, last, q, prev) && q != [] && VALID_CLU <= prev < CLU_TAIL
    requires Expand(b.chunks) == q && b.count == |q| && b.next == prev
    requires b.full && |b.chunks| == CHUNK_LIMIT && Ended(b.chunks, b.next)
    ensures Found(t, start, last, b) && (Ends(t, s, start, last) ==> BuiltFrom(b, s))
  {
  }

  lemma WalkStarts(t: Table, s: seq<nat>, start: nat, last: nat)
    ensures Before(t, s, start, last, [], start) && Taken([], start, 0) == []
  {
  }

  lemma NoChunks(start: nat)
    ensures Ended([], start)
  {
  }

  /** Builds the chunk list. It stops on any table, even a circular one: every
      step that adds no chunk goes up by one cluster. */
  method BuildChunkList(t: Table, start: nat, last: nat, ghost s: seq<nat>) returns (r: Result<Built>)
    ensures Ends(t, s, start, last) ==> r.Ok? && BuiltFrom(r.value, s)
    ensures r.Ok? ==> Found(t, start, last, r.value)
    ensures r.Err? ==> r.error == if ValidClu(t, start) then EIO else EINVAL
  {
    hide Ends, Before, Taken, BuiltFrom, Found, Expand, Path, Maximal, Ended;
    var prev: nat, chunkStart: nat := start, start;
    var total, count := 0, 0;
    var chunks: seq<Chunk> := [];
    ghost var q: seq<nat> := [];
    WalkStarts(t, s, start, last);
    assert Ended(chunks, chunkStart) by { NoChunks(start); }
    while true
      invariant q == Taken(chunks, chunkStart, count) && |q| == total && chunkStart + count == prev
      invariant if total == 0 then prev == start else ValidClu(t, start) && ValidClu(t, prev)
      invariant Before(t, s, start, last, q, prev) && |chunks| < CHUNK_LIMIT && Ended(chunks, chunkStart)
      decreases CHUNK_LIMIT - |chunks|, if prev < |t| then |t| - prev else 0
    {
      if Ends(t, s, start, last) {
        WalkReads(t, s, start, last, q, prev);
      }
      var value := FatRead(t, prev);
      if value.Err? {
        return Err(value.error);
      }
      var next := value.value;
      if next < VALID_CLU {
        return Err(EIO);
      }
      TakeOne(chunks, chunkStart, count);
      total := total + 1;
      count := count + 1;
      CloseChunk(chunks, chunkStart, count, next);
      CloseMaximal(chunks, chunkStart, count, next);
      if next != prev + 1 {
        chunks := chunks + [Chunk(chunkStart, count)];
        chunkStart, count := next, 0;
      }
      if prev == last {
        if next == prev + 1 {
          chunks := chunks + [Chunk(chunkStart, count)];
        }
        WalkDone(t, s, start, last, q, prev, Built(chunks, CLU_TAIL, total, false));
        return Ok(Built(chunks, CLU_TAIL, total, false));
      }
      if next == CLU_TAIL {
        return Err(EIO);
      }
      BeforeNext(t, s, start, last, q, prev);
      q := q + [prev];
      prev := next;
      if |chunks| == CHUNK_LIMIT {
        WalkFull(t, s, start, last, q, prev, Built(chunks, chunkStart, total, true));
        return Ok(Built(chunks, chunkStart, total, true));
      }
    }
  }
}
