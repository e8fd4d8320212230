/** A chunk list is logged as a batch of records, 19 chunks to a record, that
    carry a common count and signature. This module says what a batch is and
    proves it can be told apart from a batch that was only partly written. */
module Batch {
  import opened Records

  const WORD: nat := 0x1_0000_0000

  function Min(a: nat, b: nat): nat {
    if a < b then a else b
  }

  // The clusters of a chunk list, in order.
  function Run(start: nat, count: nat): (r: seq<nat>)
    ensures |r| == count
  {
    seq(count, i requires 0 <= i => start + i)
  }

  function Expand(chunks: seq<Chunk>): seq<nat> {
    if chunks == [] then []
    else Run(chunks[0].start, chunks[0].count) + Expand(chunks[1..])
  }

  lemma {:induction false} ExpandSplit(a: seq<Chunk>, b: seq<Chunk>)
    ensures Expand(a + b) == Expand(a) + Expand(b)
  {
    if a == [] {
      assert a + b == b;
    } else {
      assert (a + b)[1..] == a[1..] + b;
      ExpandSplit(a[1..], b);
      assert Expand(a + b) == Run(a[0].start, a[0].count) + (Expand(a[1..]) + Expand(b));
    }
  }

  // The number of records for n chunks.
  function RecordCount(n: nat): (r: nat)
    ensures n <= r * MAX_CHUNKS < n + MAX_CHUNKS
  {
    if n == 0 then 0
    else if n <= MAX_CHUNKS then 1
    else 1 + RecordCount(n - MAX_CHUNKS)
  }

  // The chunks of record i.
  function Group(chunks: seq<Chunk>, i: nat): seq<Chunk>
    requires i * MAX_CHUNKS <= |chunks|
  {
    chunks[i * MAX_CHUNKS..Min((i + 1) * MAX_CHUNKS, |chunks|)]
  }

  lemma GroupBounds(chunks: seq<Chunk>, i: nat)
    requires i < RecordCount(|chunks|)
    ensures var p := Min(i * MAX_CHUNKS, |chunks|);
            && p == i * MAX_CHUNKS < |chunks|
            && chunks[p..Min(p + MAX_CHUNKS, |chunks|)] == Group(chunks, i)
            && p + |Group(chunks, i)| == Min((i + 1) * MAX_CHUNKS, |chunks|)
  {
  }

  lemma RecordsFit(n: nat)
    requires 0 < n <= MAX_RECORDS * MAX_CHUNKS
    ensures 0 < RecordCount(n) == (n + MAX_CHUNKS - 1) / MAX_CHUNKS <= MAX_RECORDS
  {
  }

  // The sum of the first cluster of each of the first n records, as a 32-bit word.
  function Signature(chunks: seq<Chunk>, n: nat): nat
    requires n <= RecordCount(|chunks|)
  {
    if n == 0 then 0
    else (Signature(chunks, n - 1) + chunks[(n - 1) * MAX_CHUNKS].start) % WORD
  }

  /** Each record adds the first cluster of its own first chunk, and nothing else, as 32-bit words add. */
  lemma SignatureAdds(chunks: seq<Chunk>, n: nat)
    requires n < RecordCount(|chunks|)
    ensures Signature(chunks, 0) == 0
    ensures 19 * n < |chunks|
    ensures Signature(chunks, n + 1) < 0x1_0000_0000
    ensures (Signature(chunks, n) + chunks[19 * n].start - Signature(chunks, n + 1)) % 0x1_0000_0000 == 0
  {
    GroupBounds(chunks, n);
  }

  /** The records a chunk list is logged as. */
  function BatchOf(info: DeallocInfo, chunks: seq<Chunk>): (b: seq<Rec>)
    ensures |b| == RecordCount(|chunks|)
  {
    var n := RecordCount(|chunks|);
    seq(n, i requires 0 <= i < n => Dealloc(info, Group(chunks, i), n, Signature(chunks, n)))
  }

  // The chunks a run of records lists, record by record.
  function Listed(recs: seq<Rec>): seq<Chunk>
    requires forall i :: 0 <= i < |recs| ==> recs[i].Dealloc?
  {
    if recs == [] then [] else recs[0].chunks + Listed(recs[1..])
  }

  lemma {:induction false} ListedFrom(info: DeallocInfo, chunks: seq<Chunk>, i: nat)
    requires i <= RecordCount(|chunks|)
    ensures Listed(BatchOf(info, chunks)[i..]) == chunks[Min(i * MAX_CHUNKS, |chunks|)..]
    decreases RecordCount(|chunks|) - i
  {
    var b := BatchOf(info, chunks);
    if i < |b| {
      ListedFrom(info, chunks, i + 1);
      assert b[i..][1..] == b[i + 1..];
      assert b[i..][0].chunks == Group(chunks, i);
    }
  }

  /** Nothing is lost or reordered by cutting the list into records. */
  lemma BatchLists(info: DeallocInfo, chunks: seq<Chunk>)
    ensures Listed(BatchOf(info, chunks)) == chunks
  {
    ListedFrom(info, chunks, 0);
    assert BatchOf(info, chunks)[0..] == BatchOf(info, chunks);
  }

  // The type word of a record.
  function SubType(r: Rec): nat {
    match r
    case Commit => 0x0
    case Abort => 0x1
    case Start => 0x2
    case AllocChain(_, _, _, _, _, _, _, _) => 0x3
    case BuildEntry(_, _, _) => 0x5
    case RemoveEntry(_, _, _) => 0x6
    case MoveChain(_, _, _, _, _, _) => 0xB
    case Dealloc(_, _, _, _) => 0xD
    case Mrc(_) => 0xE
  }

  /** The number stored for the kind of a record tells the kinds apart. */
  lemma SubTypeTells(a: Rec, b: Rec)
    ensures SubType(a) == SubType(b) <==>
              && a.Commit? == b.Commit? && a.Abort? == b.Abort? && a.AllocChain? == b.AllocChain?
              && a.BuildEntry? == b.BuildEntry? && a.RemoveEntry? == b.RemoveEntry? && a.MoveChain? == b.MoveChain?
              && a.Dealloc? == b.Dealloc? && a.Mrc? == b.Mrc? && a.Start? == b.Start?
  {
  }

  predicate SameType(a: LogRecord, b: LogRecord) {
    a.trType == b.trType && SubType(a.rec) == SubType(b.rec)
  }

  function FirstStart(r: Rec): nat {
    if r.Dealloc? && r.chunks != [] then r.chunks[0].start else 0
  }

  // The signature recomputed from records k.. of a list.
  function Recomputed(recs: seq<LogRecord>, k: nat): nat
    requires k <= |recs|
    decreases |recs| - k
  {
    if k == |recs| then 0 else (Recomputed(recs, k + 1) + FirstStart(recs[k].rec)) % WORD
  }

  function SumFrom(chunks: seq<Chunk>, k: nat, n: nat): nat
    requires k <= n <= RecordCount(|chunks|)
    decreases n - k
  {
    if k == n then 0 else chunks[k * MAX_CHUNKS].start + SumFrom(chunks, k + 1, n)
  }

  lemma {:induction false} SumSnoc(chunks: seq<Chunk>, k: nat, n: nat)
    requires k <= n < RecordCount(|chunks|)
    ensures SumFrom(chunks, k, n + 1) == SumFrom(chunks, k, n) + chunks[n * MAX_CHUNKS].start
    decreases n - k
  {
    if k < n {
      SumSnoc(chunks, k + 1, n);
    }
  }

  lemma ModAdd(a: nat, b: nat)
    ensures (a % WORD + b) % WORD == (a + b) % WORD
  {
  }

  lemma {:induction false} SignatureIsSum(chunks: seq<Chunk>, n: nat)
    requires n <= RecordCount(|chunks|)
    ensures Signature(chunks, n) == SumFrom(chunks, 0, n) % WORD
  {
    if n > 0 {
      SignatureIsSum(chunks, n - 1);
      SumSnoc(chunks, 0, n - 1);
      ModAdd(SumFrom(chunks, 0, n - 1), chunks[(n - 1) * MAX_CHUNKS].start);
    }
  }

  // The records of a batch as they stand in the log.
  ghost predicate IsBatch(recs: seq<LogRecord>, trType: TrType, info: DeallocInfo, chunks: seq<Chunk>) {
    && |recs| == RecordCount(|chunks|)
    && forall i :: 0 <= i < |recs| ==>
         recs[i].trType == trType && recs[i].rec == BatchOf(info, chunks)[i] && recs[i].magic
  }

  lemma {:induction false} RecomputedIsSum(recs: seq<LogRecord>, trType: TrType, info: DeallocInfo,
                                           chunks: seq<Chunk>, k: nat)
    requires IsBatch(recs, trType, info, chunks) && k <= |recs|
    ensures Recomputed(recs, k) == SumFrom(chunks, k, |recs|) % WORD
    decreases |recs| - k
  {
    if k < |recs| {
      RecomputedIsSum(recs, trType, info, chunks, k + 1);
      ModAdd(SumFrom(chunks, k + 1, |recs|), chunks[k * MAX_CHUNKS].start);
      assert FirstStart(recs[k].rec) == chunks[k * MAX_CHUNKS].start by {
        assert Group(chunks, k)[0] == chunks[k * MAX_CHUNKS];
      }
    }
  }

  /** The check at replay recomputes the very signature the writer stored. */
  lemma SignatureAgrees(recs: seq<LogRecord>, trType: TrType, info: DeallocInfo, chunks: seq<Chunk>)
    requires IsBatch(recs, trType, info, chunks)
    ensures Recomputed(recs, 0) == Signature(chunks, |recs|)
  {
    SignatureIsSum(chunks, |recs|);
    RecomputedIsSum(recs, trType, info, chunks, 0);
  }
}
