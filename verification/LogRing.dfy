/** The log file: a ring of 256 sectors that records are written to in turn,
    numbered from 1. The ring is proved to be the window on the newest 256
    records of the whole history, and the search made at mount to find the newest. */
module LogRing {
  import opened Results
  import opened Records
  import opened Batch
  import opened Fat

  const SEQ_LIMIT: nat := 0x1_0000_0000_0000_0000

  type Slots = s: seq<LogRecord> | |s| == LOG_MAX_COUNT witness seq(LOG_MAX_COUNT, i => BLANK)

  // Record number k of a history carries sequence number k + 1.
  ghost predicate Numbered(h: seq<LogRecord>) {
    forall k :: 0 <= k < |h| ==> h[k].seqno == k + 1
  }

  /** The ring after the records of `h` were written one after the other. */
  ghost function RingOf(h: seq<LogRecord>): (s: Slots) {
    if h == [] then seq(LOG_MAX_COUNT, i => BLANK)
    else
      var k := |h| - 1;
      RingOf(h[..k])[k % LOG_MAX_COUNT := h[k]]
  }

  /** Sequence number s sits in slot (s - 1) mod 256 until it is overwritten. */
  lemma {:induction false} RingHolds(h: seq<LogRecord>, k: nat)
    requires k < |h| <= k + LOG_MAX_COUNT
    ensures RingOf(h)[k % LOG_MAX_COUNT] == h[k]
    decreases |h|
  {
    var n := |h| - 1;
    if k < n {
      RingHolds(h[..n], k);
      assert k % LOG_MAX_COUNT != n % LOG_MAX_COUNT;
    }
  }

  lemma {:induction false} RingBlank(h: seq<LogRecord>, i: nat)
    requires |h| <= i < LOG_MAX_COUNT
    ensures RingOf(h)[i] == BLANK
    decreases |h|
  {
    if h != [] {
      RingBlank(h[..|h| - 1], i);
    }
  }

  lemma RingSnoc(h: seq<LogRecord>, r: LogRecord)
    ensures RingOf(h + [r]) == RingOf(h)[|h| % LOG_MAX_COUNT := r]
  {
    assert (h + [r])[..|h|] == h;
  }

  // The sequence number in slot i, given how many records were ever written.
  function SeqAt(n: nat, i: nat): nat
    requires i < LOG_MAX_COUNT
  {
    if n == 0 then 0
    else
      var last := (n - 1) % LOG_MAX_COUNT;
      if i <= last then n - last + i
      else if n <= LOG_MAX_COUNT then 0
      else n - last + i - LOG_MAX_COUNT
  }

  // The newest history index that lives in slot i.
  lemma NewestIn(n: nat, i: nat) returns (k: nat)
    requires i < LOG_MAX_COUNT && i < n
    ensures k < n <= k + LOG_MAX_COUNT && k % LOG_MAX_COUNT == i && SeqAt(n, i) == k + 1
  {
    var last := (n - 1) % LOG_MAX_COUNT;
    if i <= last {
      k := n - 1 - last + i;
    } else {
      k := n - 1 - last + i - LOG_MAX_COUNT;
    }
  }

  lemma SeqBeyond(n: nat, i: nat)
    requires n <= i < LOG_MAX_COUNT
    ensures SeqAt(n, i) == 0
  {
  }

  lemma SeqInRing(h: seq<LogRecord>, i: nat)
    requires Numbered(h) && i < LOG_MAX_COUNT
    ensures RingOf(h)[i].seqno == SeqAt(|h|, i)
    ensures SeqAt(|h|, i) == 0 ==> RingOf(h)[i] == BLANK
  {
    var ring := RingOf(h);
    if |h| <= i {
      RingBlank(h, i);
      SeqBeyond(|h|, i);
    } else {
      var k := NewestIn(|h|, i);
      RingHolds(h, k);
      assert ring[i] == h[k];
    }
  }

  ghost predicate Reads(s: Slots, n: nat) {
    && (forall i :: 0 <= i < LOG_MAX_COUNT ==> s[i].seqno == SeqAt(n, i))
    && (n == 0 ==> s[0] == BLANK)
  }

  lemma RingReads(h: seq<LogRecord>)
    requires Numbered(h)
    ensures Reads(RingOf(h), |h|)
  {
    forall i | 0 <= i < LOG_MAX_COUNT ensures RingOf(h)[i].seqno == SeqAt(|h|, i) {
      SeqInRing(h, i);
    }
    if h == [] {
      SeqInRing(h, 0);
    }
  }

  // Going up the ring the numbers run on, break once after the newest, and run on again.
  lemma SeqNext(n: nat, i: nat)
    requires n >= 1 && 1 <= i < LOG_MAX_COUNT
    ensures var last := (n - 1) % LOG_MAX_COUNT;
            && SeqAt(n, last) == n
            && (i <= last ==> SeqAt(n, i) == SeqAt(n, i - 1) + 1 && SeqAt(n, i - 1) >= 1)
            && (i == last + 1 ==> SeqAt(n, i) == 0 || SeqAt(n, i - 1) == SeqAt(n, i) + LOG_MAX_COUNT - 1)
            && (i > last + 1 ==> if SeqAt(n, i - 1) == 0 then SeqAt(n, i) == 0
                                 else SeqAt(n, i) == SeqAt(n, i - 1) + 1)
            && SeqAt(n, i) <= n
  {
  }

  /** What the search must report for a log that n records were written to. */
  function Newest(n: nat): Result<nat> {
    if n == 0 then Err(ENOENT)
    else if n == SEQ_LIMIT - 1 then Err(EILSEQ)
    else Ok((n - 1) % LOG_MAX_COUNT)
  }

  // i records of a chunk list were written after h.
  ghost predicate Follows(h: seq<LogRecord>, h': seq<LogRecord>, info: DeallocInfo, chunks: seq<Chunk>,
                          n: nat, sig: nat, trType: TrType, i: nat)
    requires i <= RecordCount(|chunks|)
  {
    && |h'| == |h| + i
    && (forall k :: 0 <= k < |h| ==> h'[k] == h[k])
    && (forall k :: 0 <= k < i ==>
          h'[|h| + k] == LogRecord(|h| + 1 + k, trType, Dealloc(info, Group(chunks, k), n, sig), true))
  }

  lemma {:induction false} FollowsIsLogged(h: seq<LogRecord>, h': seq<LogRecord>, info: DeallocInfo,
                                           chunks: seq<Chunk>, trType: TrType, i: nat)
    requires i <= RecordCount(|chunks|)
    requires var n := RecordCount(|chunks|);
             Follows(h, h', info, chunks, n, Signature(chunks, n), trType, i)
    ensures h' == Logged(h, BatchOf(info, chunks), trType, i)
  {
    if i > 0 {
      var r := h'[|h| + (i - 1)];
      FollowsIsLogged(h, h'[..|h| + i - 1], info, chunks, trType, i - 1);
    } else {
      assert h' == h;
    }
  }

  lemma FollowsNone(h: seq<LogRecord>, info: DeallocInfo, chunks: seq<Chunk>, n: nat, sig: nat, trType: TrType)
    ensures Follows(h, h, info, chunks, n, sig, trType, 0)
  {
  }

  lemma FollowsSnoc(h: seq<LogRecord>, h': seq<LogRecord>, info: DeallocInfo, chunks: seq<Chunk>,
                    n: nat, sig: nat, trType: TrType, i: nat)
    requires i < RecordCount(|chunks|) && Follows(h, h', info, chunks, n, sig, trType, i)
    ensures Follows(h, h' + [LogRecord(|h| + 1 + i, trType, Dealloc(info, Group(chunks, i), n, sig), true)],
                    info, chunks, n, sig, trType, i + 1)
  {
  }

  function NextSlot(i: nat): nat {
    if i == LOG_MAX_COUNT - 1 then 0 else i + 1
  }

  lemma NextSlotOf(n: nat)
    ensures NextSlot(n % LOG_MAX_COUNT) == (n + 1) % LOG_MAX_COUNT
  {
  }

  lemma SlotAfter(n: nat, i: nat)
    ensures (n % LOG_MAX_COUNT + i) % LOG_MAX_COUNT == (n + i) % LOG_MAX_COUNT
  {
  }

  lemma NumberedSnoc(h: seq<LogRecord>, r: LogRecord)
    requires Numbered(h) && r.seqno == |h| + 1
    ensures Numbered(h + [r])
  {
  }

  /** The history after the first i records of `b` were added to `h`. */
  ghost function Logged(h: seq<LogRecord>, b: seq<Rec>, trType: TrType, i: nat): (r: seq<LogRecord>)
    requires i <= |b|
    ensures |r| == |h| + i
  {
    if i == 0 then h
    else Logged(h, b, trType, i - 1) + [LogRecord(|h| + i, trType, b[i - 1], true)]
  }

  lemma {:induction false} LoggedAt(h: seq<LogRecord>, b: seq<Rec>, trType: TrType, i: nat)
    requires i <= |b|
    ensures Logged(h, b, trType, i)[..|h|] == h
    ensures forall k :: 0 <= k < i ==>
              Logged(h, b, trType, i)[|h| + k] == LogRecord(|h| + 1 + k, trType, b[k], true)
  {
    if i > 0 {
      LoggedAt(h, b, trType, i - 1);
    }
  }

  predicate RunsOn(s: Slots, start: nat, i: nat)
    requires 0 < i < LOG_MAX_COUNT
  {
    s[i].seqno == if start == 0 then 0 else (s[i - 1].seqno + 1) % SEQ_LIMIT
  }

  lemma RestRunsOn(s: Slots, n: nat, from: nat)
    requires Reads(s, n) && 1 <= n < SEQ_LIMIT && 1 <= from < LOG_MAX_COUNT && from == (n - 1) % LOG_MAX_COUNT + 1
    ensures forall i :: from < i < LOG_MAX_COUNT ==> RunsOn(s, s[from].seqno, i)
  {
    forall i | from < i < LOG_MAX_COUNT ensures RunsOn(s, s[from].seqno, i) {
      SeqNext(n, i);
      RestBlank(n, from, i);
    }
  }

  lemma RestBlank(n: nat, from: nat, i: nat)
    requires 1 <= n && from == (n - 1) % LOG_MAX_COUNT + 1 && from <= i < LOG_MAX_COUNT
    ensures SeqAt(n, i) == 0 <==> SeqAt(n, from) == 0
  {
  }

  // ----- any ring whatever

  // The numbers count on from sector to sector up to `last`.
  ghost predicate CountsUp(s: Slots, last: nat)
    requires last < LOG_MAX_COUNT
  {
    forall j :: 0 < j <= last ==> s[j].seqno == s[j - 1].seqno + 1
  }

  // An unwritten sector, or the oldest record right behind the newest.
  predicate StartsOver(prev: nat, sq: nat) {
    sq == 0 || prev == (sq + LOG_MAX_COUNT - 1) % SEQ_LIMIT
  }

  // Behind it come the oldest records, counting on, or nothing but blank sectors.
  ghost predicate OldBehind(s: Slots, last: nat)
    requires last < LOG_MAX_COUNT
  {
    last + 1 < LOG_MAX_COUNT ==>
      var f := s[last + 1].seqno;
      && StartsOver(s[last].seqno, f)
      && forall j :: last + 1 < j < LOG_MAX_COUNT ==> RunsOn(s, f, j)
  }

  /** The search takes the record in sector `last` for the newest. */
  ghost predicate NewestAt(s: Slots, last: nat) {
    last < LOG_MAX_COUNT && CountsUp(s, last) && OldBehind(s, last)
  }

  predicate EmptyLog(s: Slots) {
    s[0].seqno == 0 && s[0].trType == NONE && s[0].rec == Commit
  }

  /** A log that cannot be opened again: the volume is not mounted any more. */
  ghost predicate Unreadable(s: Slots) {
    !EmptyLog(s) && forall last: nat :: !NewestAt(s, last)
  }

  lemma {:induction false} CountsFrom(s: Slots, last: nat, j: nat)
    requires last < LOG_MAX_COUNT && CountsUp(s, last) && j <= last
    ensures s[j].seqno == s[0].seqno + j
  {
    if j > 0 {
      CountsFrom(s, last, j - 1);
    }
  }

  lemma {:induction false} RunsFrom(s: Slots, last: nat, j: nat)
    requires last < j < LOG_MAX_COUNT && NewestAt(s, last) && forall i :: 0 <= i < LOG_MAX_COUNT ==> s[i].seqno < SEQ_LIMIT - LOG_MAX_COUNT
    ensures var f := s[last + 1].seqno;
            && (f == 0 || s[last].seqno == f + LOG_MAX_COUNT - 1)
            && s[j].seqno == if f == 0 then 0 else f + (j - last - 1)
  {
    if j > last + 1 {
      RunsFrom(s, last, j - 1);
      assert RunsOn(s, s[last + 1].seqno, j);
    }
  }

  // Sequence numbers are words of 64 bits.
  ghost predicate Words(s: Slots) {
    forall i :: 0 <= i < LOG_MAX_COUNT ==> s[i].seqno < SEQ_LIMIT
  }

  lemma StartsAnew(s: Slots, i: nat)
    requires 0 < i < LOG_MAX_COUNT && Words(s) && StartsOver(s[i - 1].seqno, s[i].seqno)
    ensures s[i].seqno != s[i - 1].seqno + 1
  {
  }

  lemma NotBoth(s: Slots, a: nat, b: nat)
    requires NewestAt(s, a) && a < b < LOG_MAX_COUNT && Words(s)
    ensures !CountsUp(s, b)
  {
    StartsAnew(s, a + 1);
  }

  // There is one such sector at most.
  lemma OnlyOne(s: Slots, a: nat)
    requires NewestAt(s, a) && Words(s)
    ensures forall b: nat :: NewestAt(s, b) ==> b == a
  {
    forall b: nat | NewestAt(s, b) ensures b == a {
      if a < b {
        NotBoth(s, a, b);
      } else if b < a {
        NotBoth(s, b, a);
      }
    }
  }

  // Where the numbers stop counting on, none further up is the newest.
  lemma NotFurther(s: Slots, i: nat)
    requires 0 < i < LOG_MAX_COUNT && Words(s)
    requires StartsOver(s[i - 1].seqno, s[i].seqno)
    ensures forall last: nat :: NewestAt(s, last) ==> last < i
  {
    StartsAnew(s, i);
  }

  // Where they do not stop, the sector before is not the newest.
  lemma NotHere(s: Slots, i: nat)
    requires 0 < i < LOG_MAX_COUNT && !StartsOver(s[i - 1].seqno, s[i].seqno)
    ensures !NewestAt(s, i - 1)
  {
  }

  lemma NothingRunsOn(s: Slots, i: nat)
    requires 0 < i < LOG_MAX_COUNT && StartsOver(s[i - 1].seqno, s[i].seqno)
    requires exists j :: i < j < LOG_MAX_COUNT && !RunsOn(s, s[i].seqno, j)
    ensures !NewestAt(s, i - 1)
  {
  }

  lemma FoundNewest(s: Slots, i: nat)
    requires 0 < i <= LOG_MAX_COUNT && CountsUp(s, i - 1)
    requires i < LOG_MAX_COUNT ==>
               && StartsOver(s[i - 1].seqno, s[i].seqno)
               && forall j :: i < j < LOG_MAX_COUNT ==> RunsOn(s, s[i].seqno, j)
    ensures NewestAt(s, i - 1)
  {
  }

  lemma CountsMore(s: Slots, i: nat)
    requires 0 < i < LOG_MAX_COUNT && CountsUp(s, i - 1) && s[i].seqno == s[i - 1].seqno + 1
    ensures CountsUp(s, i)
  {
  }

  lemma IsReadable(s: Slots, last: nat)
    requires NewestAt(s, last)
    ensures !Unreadable(s)
  {
  }

  lemma WrittenNow(prev: nat, sq: nat)
    requires !StartsOver(prev, sq)
    ensures sq > 0
  {
  }

  lemma EmptyIsReadable(s: Slots)
    ensures EmptyLog(s) ==> !Unreadable(s)
  {
  }

  lemma CountsNone(s: Slots)
    ensures CountsUp(s, 0) && forall last: nat :: NewestAt(s, last) ==> last < LOG_MAX_COUNT
  {
  }

  lemma StopsBefore(s: Slots, i: nat)
    requires 0 < i < LOG_MAX_COUNT && s[i - 1].seqno + 1 != s[i].seqno
    ensures forall last: nat :: NewestAt(s, last) ==> last < i
  {
  }

  lemma WholeWords(h: seq<LogRecord>)
    requires Numbered(h) && |h| < SEQ_LIMIT
    ensures Words(RingOf(h))
  {
    forall i | 0 <= i < LOG_MAX_COUNT ensures RingOf(h)[i].seqno < SEQ_LIMIT {
      SeqInRing(h, i);
    }
  }

  // The ring of a whole history counts up to its newest record.
  lemma RingCounts(s: Slots, n: nat)
    requires Reads(s, n) && 1 <= n < SEQ_LIMIT
    ensures !EmptyLog(s) && NewestAt(s, (n - 1) % LOG_MAX_COUNT) && s[(n - 1) % LOG_MAX_COUNT].seqno == n
  {
    var last := (n - 1) % LOG_MAX_COUNT;
    forall j | 0 < j <= last ensures s[j].seqno == s[j - 1].seqno + 1 {
      SeqNext(n, j);
    }
    if last + 1 < LOG_MAX_COUNT {
      SeqNext(n, last + 1);
      RestRunsOn(s, n, last + 1);
    } else {
      SeqNext(n, last);
    }
    assert s[0].seqno == SeqAt(n, 0);
  }

  // ----- a burst of records of which only some reached the disk

  // The slot's place in a burst that is written from position n on.
  function PlaceIn(n: nat, i: nat): (k: nat)
    ensures k < LOG_MAX_COUNT
  {
    (i - n) % LOG_MAX_COUNT
  }

  lemma PlaceOf(n: nat, k: nat)
    requires k < LOG_MAX_COUNT
    ensures PlaceIn(n, (n + k) % LOG_MAX_COUNT) == k
  {
  }

  /** The ring after a burst of which the records in `s` are durable and the others are not. */
  ghost function Burst(h: seq<LogRecord>, recs: seq<LogRecord>, s: set<nat>): Slots {
    seq(LOG_MAX_COUNT, i requires 0 <= i < LOG_MAX_COUNT =>
      var k := PlaceIn(|h|, i);
      if k < |recs| && k in s then recs[k] else RingOf(h)[i])
  }

  ghost predicate IsBurst(h: seq<LogRecord>, recs: seq<LogRecord>) {
    && Numbered(h + recs) && |recs| < LOG_MAX_COUNT && |h| + |recs| < SEQ_LIMIT - LOG_MAX_COUNT
  }

  // The first p records are durable and no other.
  ghost predicate FirstOnly(s: set<nat>, n: nat, p: nat) {
    p <= n && forall k: nat :: k < n ==> (k in s <==> k < p)
  }

  lemma BurstSlot(h: seq<LogRecord>, recs: seq<LogRecord>, s: set<nat>, i: nat)
    requires IsBurst(h, recs) && i < LOG_MAX_COUNT
    ensures var k := PlaceIn(|h|, i);
            Burst(h, recs, s)[i].seqno == if k < |recs| && k in s then |h| + k + 1 else SeqAt(|h|, i)
    ensures Burst(h, recs, s)[i].seqno == 0 ==> Burst(h, recs, s)[i] == BLANK
    ensures SeqAt(|h|, i) <= |h|
  {
    var k := PlaceIn(|h|, i);
    assert forall j :: 0 <= j < |h| ==> (h + recs)[j] == h[j];
    SeqInRing(h, i);
    if k < |recs| {
      assert (h + recs)[|h| + k] == recs[k];
    }
  }

  // What the slot of record k held before the burst.
  lemma OldSeq(n: nat, k: nat)
    requires k < LOG_MAX_COUNT
    ensures SeqAt(n, (n + k) % LOG_MAX_COUNT) == if n + k >= LOG_MAX_COUNT then n + k + 1 - LOG_MAX_COUNT else 0
  {
  }

  lemma {:induction false} FirstWritten(h: seq<LogRecord>, recs: seq<LogRecord>, s: set<nat>, p: nat)
    requires IsBurst(h, recs) && FirstOnly(s, |recs|, p)
    ensures Burst(h, recs, s) == RingOf(h + recs[..p])
    decreases p
  {
    if p == 0 {
      assert h + recs[..0] == h;
      assert forall i :: 0 <= i < LOG_MAX_COUNT ==> Burst(h, recs, s)[i] == RingOf(h)[i];
    } else {
      var t := s - {p - 1};
      FirstWritten(h, recs, t, p - 1);
      assert h + recs[..p] == (h + recs[..p - 1]) + [recs[p - 1]];
      RingSnoc(h + recs[..p - 1], recs[p - 1]);
      var at := (|h| + p - 1) % LOG_MAX_COUNT;
      PlaceOf(|h|, p - 1);
      forall i | 0 <= i < LOG_MAX_COUNT ensures Burst(h, recs, s)[i] == RingOf(h + recs[..p])[i] {
        if i != at {
          OtherPlace(|h|, p - 1, i);
        }
      }
    }
  }

  lemma OtherPlace(n: nat, k: nat, i: nat)
    requires k < LOG_MAX_COUNT && i < LOG_MAX_COUNT && i != (n + k) % LOG_MAX_COUNT
    ensures PlaceIn(n, i) != k
  {
  }

  // Without a gap the durable records are the first ones.
  lemma {:induction false} FindGap(s: set<nat>, n: nat) returns (p: nat, k: nat)
    ensures FirstOnly(s, n, p) || (k + 1 < n && k !in s && k + 1 in s)
  {
    if n == 0 {
      return 0, 0;
    }
    p, k := FindGap(s, n - 1);
    if FirstOnly(s, n - 1, p) {
      if n - 1 !in s {
        return p, k;
      }
      if p == n - 1 {
        return n, k;
      }
      return p, n - 2;
    }
  }

  lemma FirstLess(s: set<nat>, n: nat, p: nat, q: nat)
    requires FirstOnly(s, n, p) && q < p
    ensures !FirstOnly(s, n, q)
  {
    assert q in s;
  }

  lemma FirstIsOne(s: set<nat>, n: nat, p: nat)
    requires FirstOnly(s, n, p)
    ensures p <= n && forall q: nat :: FirstOnly(s, n, q) ==> q == p
  {
    forall q: nat | FirstOnly(s, n, q) ensures q == p {
      if q < p {
        FirstLess(s, n, p, q);
      } else if p < q {
        FirstLess(s, n, q, p);
      }
    }
  }

  lemma SamePlace(n: nat, i: nat)
    ensures PlaceIn(n % LOG_MAX_COUNT, i) == PlaceIn(n, i)
  {
  }

  lemma BurstWritten(h: seq<LogRecord>, recs: seq<LogRecord>, s: set<nat>, slots: Slots, isec: nat)
    requires slots == RingOf(h) && isec == |h| % LOG_MAX_COUNT
    ensures Burst(h, recs, s) == seq(LOG_MAX_COUNT, i requires 0 <= i < LOG_MAX_COUNT =>
              var k := PlaceIn(isec, i);
              if k < |recs| && k in s then recs[k] else slots[i])
  {
    hide PlaceIn;
    forall i: nat | i < LOG_MAX_COUNT ensures PlaceIn(isec, i) == PlaceIn(|h|, i) {
      SamePlace(|h|, i);
    }
  }

  lemma GapSays(s: set<nat>, n: nat, p: nat, k: nat)
    requires k + 1 < n && k !in s && k + 1 in s
    ensures !FirstOnly(s, n, p)
  {
  }

  // Two neighbouring sectors between which the numbers neither count on nor start over.
  lemma PairBreaks(s: Slots, a: nat, last: nat)
    requires a + 1 < LOG_MAX_COUNT && s[a + 1].seqno != 0 && s[a + 1].seqno != s[a].seqno + 1
    requires s[a].seqno < s[a + 1].seqno < SEQ_LIMIT - LOG_MAX_COUNT
    ensures !NewestAt(s, last)
  {
    if last < LOG_MAX_COUNT && a + 1 > last + 1 {
      assert !RunsOn(s, s[last + 1].seqno, a + 1);
    }
  }

  // What slot i holds when record k + 1 is the one that belongs into the first slot.
  lemma WrapSlot(h: seq<LogRecord>, recs: seq<LogRecord>, s: set<nat>, k: nat, i: nat)
    requires IsBurst(h, recs) && k + 1 < LOG_MAX_COUNT && i < LOG_MAX_COUNT && (|h| + k) % LOG_MAX_COUNT == LOG_MAX_COUNT - 1
    ensures var at: nat := if k + 1 + i < LOG_MAX_COUNT then k + 1 + i else k + 1 + i - LOG_MAX_COUNT;
            Burst(h, recs, s)[i].seqno == if at < |recs| && at in s then |h| + at + 1
                                          else if |h| + at >= LOG_MAX_COUNT then |h| + at + 1 - LOG_MAX_COUNT else 0
  {
    hide Burst, SeqAt;
    var at: nat := if k + 1 + i < LOG_MAX_COUNT then k + 1 + i else k + 1 + i - LOG_MAX_COUNT;
    assert (|h| + at) % LOG_MAX_COUNT == i;
    PlaceOf(|h|, at);
    OldSeq(|h|, at);
    BurstSlot(h, recs, s, i);
  }

  // The gap lies between the last sector and the first one.
  lemma WrapBreaks(h: seq<LogRecord>, recs: seq<LogRecord>, s: set<nat>, k: nat, last: nat)
    requires IsBurst(h, recs) && k + 1 < |recs| && k !in s && k + 1 in s && (|h| + k) % LOG_MAX_COUNT == LOG_MAX_COUNT - 1
    requires |recs| <= MAX_RECORDS
    ensures !NewestAt(Burst(h, recs, s), last)
  {
    hide Burst, SeqAt, PlaceIn, CountsUp, OldBehind, IsBurst;
    var w := Burst(h, recs, s);
    if NewestAt(w, last) {
      BurstWords(h, recs, s);
      NewestIsLow(w, last);
      CountsFrom(w, last, last);
      WrapSlot(h, recs, s, k, 0);
      WrapSlot(h, recs, s, k, last);
      WrapSlot(h, recs, s, k, LOG_MAX_COUNT - 1);
      if last + 1 < LOG_MAX_COUNT {
        RunsFrom(w, last, LOG_MAX_COUNT - 1);
        WrapSlot(h, recs, s, k, last + 1);
      }
      assert false;
    }
  }

  lemma NewestIsLow(s: Slots, last: nat)
    requires NewestAt(s, last)
    ensures last < LOG_MAX_COUNT && CountsUp(s, last)
  {
  }

  lemma BurstWords(h: seq<LogRecord>, recs: seq<LogRecord>, s: set<nat>)
    requires IsBurst(h, recs)
    ensures forall i :: 0 <= i < LOG_MAX_COUNT ==> Burst(h, recs, s)[i].seqno < SEQ_LIMIT - LOG_MAX_COUNT
  {
    forall i | 0 <= i < LOG_MAX_COUNT ensures Burst(h, recs, s)[i].seqno < SEQ_LIMIT - LOG_MAX_COUNT {
      BurstSlot(h, recs, s, i);
    }
  }

  lemma GapBreaks(h: seq<LogRecord>, recs: seq<LogRecord>, s: set<nat>, k: nat, last: nat)
    requires IsBurst(h, recs) && |recs| <= MAX_RECORDS && k + 1 < |recs| && k !in s && k + 1 in s
    ensures !NewestAt(Burst(h, recs, s), last)
  {
    var a := (|h| + k) % LOG_MAX_COUNT;
    if a == LOG_MAX_COUNT - 1 {
      WrapBreaks(h, recs, s, k, last);
    } else {
      NextSlotOf(|h| + k);
      PlaceOf(|h|, k);
      PlaceOf(|h|, k + 1);
      OldSeq(|h|, k);
      BurstSlot(h, recs, s, a);
      BurstSlot(h, recs, s, a + 1);
      PairBreaks(Burst(h, recs, s), a, last);
    }
  }

  /** A burst is not written in order: any of its records may be durable without the others.
      The log can be opened again if and only if those that are durable are the first ones.
      In a log that nothing was ever written to, the first record decides whether it still
      counts as empty. */
  lemma BurstReadable(h: seq<LogRecord>, recs: seq<LogRecord>, s: set<nat>)
    requires IsBurst(h, recs) && |recs| <= MAX_RECORDS
    ensures var w := Burst(h, recs, s);
            && Words(w)
            && (EmptyLog(w) <==> h == [] && (recs == [] || 0 !in s))
            && (!EmptyLog(w) ==> (Unreadable(w) <==> forall p: nat :: !FirstOnly(s, |recs|, p)))
            && (forall p: nat :: FirstOnly(s, |recs|, p) ==> w == RingOf(h + recs[..p]) && Reads(w, |h| + p))
  {
    hide Burst, SeqAt, PlaceIn, CountsUp, OldBehind, IsBurst, Reads, RingOf, NewestAt, FirstOnly, EmptyLog;
    var w := Burst(h, recs, s);
    BurstWords(h, recs, s);
    BurstEmpty(h, recs, s);
    forall p: nat | FirstOnly(s, |recs|, p)
      ensures p <= |recs| && w == RingOf(h + recs[..p]) && Reads(w, |h| + p)
      ensures !EmptyLog(w) ==> NewestAt(w, (|h| + p - 1) % LOG_MAX_COUNT)
    {
      FirstReads(h, recs, s, p);
    }
    var p, k := FindGap(s, |recs|);
    if !FirstOnly(s, |recs|, p) {
      forall last: nat ensures !NewestAt(w, last) {
        GapBreaks(h, recs, s, k, last);
      }
    }
  }

  lemma BurstEmpty(h: seq<LogRecord>, recs: seq<LogRecord>, s: set<nat>)
    requires IsBurst(h, recs)
    ensures EmptyLog(Burst(h, recs, s)) <==> h == [] && (recs == [] || 0 !in s)
  {
    BurstSlot(h, recs, s, 0);
    if |h| > 0 {
      SeqNext(|h|, 1);
    }
  }

  lemma FirstReads(h: seq<LogRecord>, recs: seq<LogRecord>, s: set<nat>, p: nat)
    requires IsBurst(h, recs) && FirstOnly(s, |recs|, p)
    ensures var w := Burst(h, recs, s);
            && p <= |recs| && w == RingOf(h + recs[..p]) && Reads(w, |h| + p)
            && (!EmptyLog(w) ==> |h| + p > 0 && NewestAt(w, (|h| + p - 1) % LOG_MAX_COUNT))
  {
    hide Burst, SeqAt, RingOf, NewestAt, Numbered, Reads, EmptyLog;
    FirstWritten(h, recs, s, p);
    FirstNumbered(h, recs, p);
    RingReads(h + recs[..p]);
    if |h| + p > 0 {
      RingCounts(Burst(h, recs, s), |h| + p);
    } else {
      ReadsEmpty(Burst(h, recs, s));
    }
  }

  lemma FirstNumbered(h: seq<LogRecord>, recs: seq<LogRecord>, p: nat)
    requires Numbered(h + recs) && p <= |recs|
    ensures Numbered(h + recs[..p]) && |h + recs[..p]| == |h| + p
  {
    assert forall j :: 0 <= j < |h| + p ==> (h + recs[..p])[j] == (h + recs)[j];
  }

  lemma ReadsEmpty(s: Slots)
    requires Reads(s, 0)
    ensures EmptyLog(s)
  {
  }

  // The sectors a batch of records is written as.
  function Sectors(sq: nat, trType: TrType, b: seq<Rec>): (recs: seq<LogRecord>)
    ensures |recs| == |b|
  {
    seq(|b|, i requires 0 <= i < |b| => LogRecord(sq + i, trType, b[i], true))
  }

  lemma {:induction false} SectorsLogged(h: seq<LogRecord>, trType: TrType, b: seq<Rec>, p: nat)
    requires p <= |b|
    ensures h + Sectors(|h| + 1, trType, b)[..p] == Logged(h, b, trType, p)
  {
    var recs := Sectors(|h| + 1, trType, b);
    if p > 0 {
      SectorsLogged(h, trType, b, p - 1);
      assert h + recs[..p] == (h + recs[..p - 1]) + [recs[p - 1]];
    } else {
      assert h + recs[..0] == h;
    }
  }

  lemma SectorsBurst(h: seq<LogRecord>, trType: TrType, b: seq<Rec>)
    requires Numbered(h) && |b| < LOG_MAX_COUNT && |h| + |b| < SEQ_LIMIT - LOG_MAX_COUNT
    ensures IsBurst(h, Sectors(|h| + 1, trType, b))
  {
    var all := h + Sectors(|h| + 1, trType, b);
    forall k | 0 <= k < |all| ensures all[k].seqno == k + 1 {
    }
  }

  class LogFile {
    var slots: Slots
    var isec: nat
    var sequence: nat
    ghost var hist: seq<LogRecord>

    ghost predicate Holds()
      reads this`slots, this`hist
    {
      Numbered(hist) && slots == RingOf(hist)
    }

    ghost predicate Valid()
      reads this
    {
      Holds() && isec == |hist| % LOG_MAX_COUNT && sequence == |hist| + 1
    }

    /** A log file right after it was made and cleared. */
    constructor ()
      ensures Valid() && hist == []
    {
      slots := seq(LOG_MAX_COUNT, i => BLANK);
      isec, sequence := 0, 1;
      hist := [];
    }

    /** The log file of a volume that was in use. */
    ghost predicate Opens()
      reads this`slots, this`hist
    {
      Holds() && |hist| < SEQ_LIMIT - 1
    }

    /** A burst was cut off so that the log cannot be opened again. */
    ghost predicate Ruined()
      reads this`slots
    {
      Words(slots) && Unreadable(slots)
    }

    lemma OpensOrNot()
      requires Opens() || Ruined()
      ensures Words(slots) && (Opens() ==> !Ruined())
    {
      if Opens() {
        WholeWords(hist);
        RingFound();
      }
    }

    // Reading a sector moves the write position to the next one.
    method Read(i: nat) returns (r: LogRecord)
      requires i < LOG_MAX_COUNT
      modifies this`isec
      ensures r == slots[i] && isec == NextSlot(i)
    {
      r := slots[i];
      isec := NextSlot(i);
    }

    method Write(trType: TrType, rec: Rec)
      requires Valid()
      modifies this
      ensures Valid() && hist == old(hist) + [LogRecord(|old(hist)| + 1, trType, rec, true)]
    {
      var at := isec;
      var sector := Read(at);
      sector := LogRecord(sequence, trType, rec, true);
      RingSnoc(hist, sector);
      NextSlotOf(|hist|);
      NumberedSnoc(hist, sector);
      slots := slots[at := sector];
      hist := hist + [sector];
      sequence := sequence + 1;
    }

    /** The sectors past the newest record must go on counting, or all be blank. */
    method SanityCheckSequence(from: nat, start: nat) returns (ok: bool)
      requires from < LOG_MAX_COUNT && start == slots[from].seqno
      modifies this`isec
      ensures ok <==> forall i :: from < i < LOG_MAX_COUNT ==> RunsOn(slots, start, i)
    {
      var prev := start;
      var i := from + 1;
      while i < LOG_MAX_COUNT
        invariant from < i <= LOG_MAX_COUNT
        invariant start != 0 ==> prev == slots[i - 1].seqno
        invariant forall k :: from < k < i ==> RunsOn(slots, start, k)
      {
        var sector := Read(i);
        var sq := sector.seqno;
        if start != 0 {
          if (prev + 1) % SEQ_LIMIT != sq {
            assert !RunsOn(slots, start, i);
            return false;
          }
          prev := sq;
        } else if sq != 0 {
          assert !RunsOn(slots, start, i);
          return false;
        }
        i := i + 1;
      }
      ok := true;
    }

    /** Finds the newest record by one pass up the ring, whatever the sectors hold: it is an
        error when the numbers do not count up to one sector and on behind it. */
    method SequentialSearchMax() returns (r: Result<nat>)
      requires Words(slots)
      modifies this`isec
      ensures EmptyLog(slots) ==> r == Err(ENOENT)
      ensures Unreadable(slots) ==> r == Err(EIO)
      ensures !EmptyLog(slots) ==> forall last: nat :: NewestAt(slots, last) ==>
                r == if slots[last].seqno == SEQ_LIMIT - 1 then Err(EILSEQ) else Ok(last)
      ensures Holds() && |hist| < SEQ_LIMIT ==> r == Newest(|hist|)
    {
      hide Numbered, RingOf, SeqAt, CountsUp, NewestAt, RunsOn, StartsOver, OldBehind, Words, Unreadable;
      RingFound();
      CountsNone(slots);
      EmptyIsReadable(slots);
      var lastIndex := 0;
      var sector := Read(0);
      var maxSeq := sector.seqno;
      var prev := maxSeq;
      if maxSeq == 0 && sector.trType == NONE && sector.rec == Commit {
        return Err(ENOENT);
      }
      var i := 1;
      while i < LOG_MAX_COUNT
        invariant 1 <= i <= LOG_MAX_COUNT && lastIndex == i - 1 && prev == maxSeq == slots[i - 1].seqno
        invariant CountsUp(slots, i - 1) && !EmptyLog(slots)
        invariant forall last: nat :: NewestAt(slots, last) ==> last >= i - 1
      {
        sector := Read(i);
        var sq := sector.seqno;
        if StartsOver(prev, sq) {
          NotFurther(slots, i);
          var ok := SanityCheckSequence(i, sq);
          if !ok {
            NothingRunsOn(slots, i);
            return Err(EIO);
          }
          break;
        }
        NotHere(slots, i);
        WrittenNow(prev, sq);
        if prev != sq - 1 {
          StopsBefore(slots, i);
          return Err(EIO);
        }
        CountsMore(slots, i);
        if maxSeq < sq {
          maxSeq := sq;
          lastIndex := i;
        }
        prev := sq;
        i := i + 1;
      }
      FoundNewest(slots, i);
      IsReadable(slots, i - 1);
      OnlyOne(slots, lastIndex);
      if maxSeq == SEQ_LIMIT - 1 {
        return Err(EILSEQ);
      }
      return Ok(lastIndex);
    }

    lemma RingFound()
      ensures Holds() && 1 <= |hist| < SEQ_LIMIT ==>
                var last := (|hist| - 1) % LOG_MAX_COUNT;
                !EmptyLog(slots) && NewestAt(slots, last) && slots[last].seqno == |hist|
      ensures Holds() && |hist| == 0 ==> EmptyLog(slots)
    {
      if Holds() && |hist| < SEQ_LIMIT {
        RingReads(hist);
        if |hist| > 0 {
          RingCounts(slots, |hist|);
        }
      }
    }

    /** Opening the log again, in a new mount: the write position and the next
        sequence number are recovered from the sectors alone. */
    method Reopen() returns (r: Result<nat>)
      requires Opens() || Ruined()
      modifies this`isec, this`sequence
      ensures old(Opens()) ==> Valid() && r == Newest(|hist|)
      ensures old(Ruined()) ==> r == Err(EIO)
    {
      isec, sequence := 0, 1;
      OpensOrNot();
      r := SequentialSearchMax();
      if r.Ok? {
        var sector := Read(r.value);
        RingHolds(hist, |hist| - 1);
        NextSlotOf(|hist| - 1);
        sequence := sector.seqno + 1;
      } else {
        isec := 0;
      }
    }

    // Record i of a batch; the write position moves when the batch is complete.
    method WriteRecord(trType: TrType, info: DeallocInfo, chunks: seq<Chunk>, n: nat, sig: nat,
                       i: nat, p: nat, sq: nat, ghost h0: seq<LogRecord>) returns (p': nat)
      requires Holds() && sq == |hist| + 1 && isec == |h0| % LOG_MAX_COUNT
      requires i < RecordCount(|chunks|) && p == Min(i * MAX_CHUNKS, |chunks|)
      requires Follows(h0, hist, info, chunks, n, sig, trType, i)
      modifies this`slots, this`hist
      ensures Holds() && p' == Min((i + 1) * MAX_CHUNKS, |chunks|)
      ensures Follows(h0, hist, info, chunks, n, sig, trType, i + 1)
    {
      hide RingOf, Numbered, RecordCount;
      GroupBounds(chunks, i);
      SlotAfter(|h0|, i);
      FollowsSnoc(h0, hist, info, chunks, n, sig, trType, i);
      var group := chunks[p..Min(p + MAX_CHUNKS, |chunks|)];
      var sector := LogRecord(sq, trType, Dealloc(info, group, n, sig), true);
      RingSnoc(hist, sector);
      NumberedSnoc(hist, sector);
      slots := slots[(isec + i) % LOG_MAX_COUNT := sector];
      hist := hist + [sector];
      p' := p + |group|;
    }

    // One pass down the chunk list, adding the head of every 19th chunk.
    method GenerateSignature(chunks: seq<Chunk>, nrRecord: nat) returns (sig: nat)
      requires chunks != [] && nrRecord == RecordCount(|chunks|)
      ensures sig == Signature(chunks, nrRecord)
    {
      sig := 0;
      var p := 0;
      var i := 0;
      while i < nrRecord
        invariant 0 <= i <= nrRecord && p == i * MAX_CHUNKS && (i < nrRecord ==> p < |chunks|)
        invariant sig == Signature(chunks, i)
      {
        var k := 0;
        while k < MAX_CHUNKS
          invariant 0 <= k <= MAX_CHUNKS && p == i * MAX_CHUNKS + k
          invariant k < MAX_CHUNKS ==> p < |chunks|
          invariant p >= |chunks| ==> i + 1 == nrRecord
          invariant sig == Signature(chunks, if k == 0 then i else i + 1)
        {
          if k == 0 {
            sig := (sig + chunks[p].start) % WORD;
          }
          if p + 1 == |chunks| {
            return;
          }
          p := p + 1;
          k := k + 1;
        }
        i := i + 1;
      }
    }

    /** Power fails while the sectors of a burst are on their way: those in `s` are written
        and the others are not. If they are the first ones, the history has grown by them. */
    method CutOff(recs: seq<LogRecord>, s: set<nat>)
      requires Valid() && IsBurst(hist, recs) && |recs| <= MAX_RECORDS && hist != []
      modifies this`slots, this`hist
      ensures slots == Burst(old(hist), recs, s)
      ensures forall p: nat :: FirstOnly(s, |recs|, p) ==> Holds() && hist == old(hist) + recs[..p]
      ensures (forall p: nat :: !FirstOnly(s, |recs|, p)) ==> Ruined()
    {
      hide Burst, RingOf, FirstOnly, Unreadable, Words;
      BurstReadable(hist, recs, s);
      var was, from := slots, isec;
      BurstWritten(hist, recs, s, was, from);
      slots := seq(LOG_MAX_COUNT, i requires 0 <= i < LOG_MAX_COUNT =>
        var k := PlaceIn(from, i);
        if k < |recs| && k in s then recs[k] else was[i]);
      if p: nat :| FirstOnly(s, |recs|, p) {
        FirstIsOne(s, |recs|, p);
        FirstNumbered(hist, recs, p);
        hist := hist + recs[..p];
      }
    }

    // All records of the batch are written: position and sequence number move on behind them.
    method EndBatch(n: nat)
      requires Holds() && n <= |hist| && isec == (|hist| - n) % LOG_MAX_COUNT && sequence + n == |hist| + 1
      modifies this`isec, this`sequence
      ensures Valid()
    {
      SlotAfter(|hist| - n, n);
      sequence := sequence + n;
      isec := (isec + n) % LOG_MAX_COUNT;
    }
  }

  /** A commit in the first sector, a batch of two behind it, and of the batch only the
      second record on the disk: the log cannot be opened any more. */
  method SecondOnly() returns (log: LogFile, r: Result<nat>)
    ensures fresh(log) && r == Err(EIO)
    ensures exists h, recs :: |h| == 1 && |recs| == 2 && IsBurst(h, recs) && log.slots == Burst(h, recs, {1})
  {
    log := new LogFile();
    log.Write(UNLINK, Commit);
    ghost var h := log.hist;
    var info := DeallocInfo(2, 0, 0, 3, CLU_TAIL, CLU_TAIL);
    var recs := [LogRecord(2, DEL_INODE, Dealloc(info, [Chunk(5, 1)], 2, 5), true),
                 LogRecord(3, DEL_INODE, Dealloc(info, [Chunk(7, 1)], 2, 5), true)];
    log.slots := log.slots[2 := recs[1]];
    OnlySecond(h, recs, log.slots);
    BurstReadable(h, recs, {1});
    r := log.SequentialSearchMax();
  }

  lemma OnlySecond(h: seq<LogRecord>, recs: seq<LogRecord>, w: Slots)
    requires |h| == 1 && |recs| == 2 && w == RingOf(h)[2 := recs[1]] && h[0].seqno == 1 && recs[0].seqno == 2 && recs[1].seqno == 3
    ensures IsBurst(h, recs) && w == Burst(h, recs, {1}) && forall p: nat :: !FirstOnly({1}, 2, p)
  {
    forall p: nat ensures !FirstOnly({1}, 2, p) {
      GapSays({1}, 2, p, 0);
    }
    forall i | 0 <= i < LOG_MAX_COUNT ensures w[i] == Burst(h, recs, {1})[i] {
      assert PlaceIn(1, i) == 1 <==> i == 2;
    }
  }
}
