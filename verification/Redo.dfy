/** What replay makes of a log: redo of a batch of frees, undo of everything
    else, newest record first. `Recover` is the meaning of the log that the
    replay loop is proved against. */
module Redo {
  import opened Results
  import opened Fat
  import opened Records
  import opened Batch
  import opened Undo
  import opened LogRing

  /** Puts the freed chain's file and the log file's chain right: the file ends
      where the truncation left it, and what is still to be freed hangs behind
      `lPrev` of the log file. */
  function RedoSource(m: Meta, trType: TrType, info: DeallocInfo): Result<Meta> {
    var l := Loc(info.pdir, info.entry);
    var next := if info.next != CLU_TAIL then info.next else info.lNext;
    if trType == TRUNCATE_B && l !in m.dir then Err(EIO)
    else if trType == TRUNCATE_B && info.fLast != CLU_TAIL && FatWrite(m.fat, info.fLast, CLU_TAIL).Err? then Err(EIO)
    else
      var d := if trType == TRUNCATE_B && info.fLast == CLU_TAIL then m.dir[l := m.dir[l].(start := 0)] else m.dir;
      var t := if trType == TRUNCATE_B && info.fLast != CLU_TAIL then m.fat[info.fLast := CLU_TAIL] else m.fat;
      if FatWrite(t, info.lPrev, next).Err? then Err(EIO) else Ok(Meta(t[info.lPrev := next], d))
  }

  function RedoChain(m: Meta, trType: TrType, info: DeallocInfo, chunks: seq<Chunk>): Result<Meta> {
    var s := RedoSource(m, trType, info);
    if s.Err? then Err(EIO)
    else
      var t := FreeFrom(s.value.fat, Expand(chunks), 0);
      if t.Err? then Err(EIO) else Ok(s.value.(fat := t.value))
  }

  predicate EndsReplay(r: Rec) {
    r.Commit? || r.Abort? || r.Start?
  }

  // Sub types that carry no signature word from older versions.
  predicate NeedsMagic(r: Rec) {
    !r.Commit? && !r.Mrc? && !r.Abort?
  }

  /** When putting the freed file and the pool right fails: for a truncation the slot is not there or
      the file's last cluster is not in the table; for both the end of the pool is not, or what it
      should lead to is not. */
  lemma SourceFails(m: Meta, trType: TrType, info: DeallocInfo)
    ensures var next := if info.next != CLU_TAIL then info.next else info.lNext;
            RedoSource(m, trType, info).Err? <==>
              || (trType == TRUNCATE_B && Loc(info.pdir, info.entry) !in m.dir)
              || (trType == TRUNCATE_B && info.fLast != CLU_TAIL && !ValidClu(m.fat, info.fLast))
              || !ValidClu(m.fat, info.lPrev) || !ValidContent(m.fat, next)
    ensures RedoSource(m, trType, info).Err? ==> RedoSource(m, trType, info).error == EIO
  {
  }

  // How many of the records k, k-1, ... (at most n) are of the type of r.
  ghost function TypeRun(h: seq<LogRecord>, k: int, r: LogRecord, n: nat): (c: nat)
    requires k < |h|
    ensures c <= n && (c <= k + 1 || c == 0)
    decreases n
  {
    if n == 0 || k < 0 || !SameType(h[k], r) then 0 else 1 + TypeRun(h, k - 1, r, n - 1)
  }

  // A run of records of one batch: every stored signature is the recomputed one.
  ghost predicate SignedBy(recs: seq<LogRecord>) {
    forall i :: 0 <= i < |recs| ==> recs[i].rec.Dealloc? && recs[i].rec.signature == Recomputed(recs, 0)
  }

  ghost function ListedIn(recs: seq<LogRecord>): seq<Chunk> {
    if recs == [] then []
    else (if recs[0].rec.Dealloc? then recs[0].rec.chunks else []) + ListedIn(recs[1..])
  }

  /** The volume after replaying the records of `h` up to index k. */
  ghost function Recover(h: seq<LogRecord>, k: int, m: Meta): Result<Meta>
    requires k < |h|
    decreases k + 1
  {
    if k < 0 then Ok(m)
    else
      var r := h[k];
      if NeedsMagic(r.rec) && !r.magic then Err(EIO)
      else if EndsReplay(r.rec) then Ok(m)
      else if r.rec.Mrc? then RedoSource(m, r.trType, r.rec.info)
      else if r.rec.Dealloc? then RecoverDealloc(h, k, m)
      else
        var u := UndoOne(m, r.rec);
        if u.Err? then u else Recover(h, k - 1, u.value)
  }

  ghost function RecoverDealloc(h: seq<LogRecord>, k: int, m: Meta): Result<Meta>
    requires 0 <= k < |h| && h[k].rec.Dealloc?
    decreases k + 1, 0
  {
    var r := h[k];
    var n := r.rec.recordCount;
    if n == 0 then Err(EIO)
    else if r.trType != DEL_INODE && r.trType != TRUNCATE_B then Recover(h, k - n, m)
    else
      var run := TypeRun(h, k, r, n);
      if run < n then Recover(h, k - run, m)
      else
        var b := h[k - n + 1..k + 1];
        if !SignedBy(b) then Err(EIO) else RedoChain(m, r.trType, b[0].rec.info, ListedIn(b))
  }

  // ----- what the log means, by what was logged last

  // The records of the log after index s are `recs`.
  ghost predicate HoldsAfter(h: seq<LogRecord>, s: int, recs: seq<Rec>) {
    && -1 <= s && s + |recs| < |h|
    && forall i :: 0 <= i < |recs| ==> h[s + 1 + i].rec == recs[i] && h[s + 1 + i].magic
  }

  /** An unfinished transaction of undoable records is undone, record by record. */
  lemma {:induction false} RecoverUndoes(h: seq<LogRecord>, s: int, recs: seq<Rec>, m: Meta)
    requires HoldsAfter(h, s, recs) && Undoable(recs)
    requires s >= 0 ==> h[s].rec.Commit? || h[s].rec.Abort?
    ensures Recover(h, s + |recs|, m) == UndoAll(m, recs)
    decreases |recs|
  {
    hide RecoverDealloc, RedoSource, UndoOne, HoldsAfter;
    HoldsPrefix(h, s, recs);
    if recs != [] {
      var k := |recs| - 1;
      var u := UndoOne(m, recs[k]);
      if u.Ok? {
        RecoverUndoes(h, s, recs[..k], u.value);
      }
    }
  }

  lemma HoldsPrefix(h: seq<LogRecord>, s: int, recs: seq<Rec>)
    requires HoldsAfter(h, s, recs)
    ensures -1 <= s && s + |recs| < |h|
    ensures recs != [] ==>
              && h[s + |recs|].rec == recs[|recs| - 1] && h[s + |recs|].magic
              && HoldsAfter(h, s, recs[..|recs| - 1])
  {
    if recs != [] {
      var rest := recs[..|recs| - 1];
      assert h[s + 1 + (|recs| - 1)].rec == recs[|recs| - 1];
      forall i | 0 <= i < |rest| ensures h[s + 1 + i].rec == rest[i] && h[s + 1 + i].magic {
        assert rest[i] == recs[i];
      }
      assert HoldsAfter(h, s, rest);
    }
  }

  lemma {:induction false} TypeRunPrefix(h: seq<LogRecord>, g: seq<LogRecord>, k: int, r: LogRecord, n: nat)
    requires k < |g| <= |h| && g == h[..|g|]
    ensures TypeRun(h, k, r, n) == TypeRun(g, k, r, n)
    decreases n
  {
    if n > 0 && k >= 0 && SameType(h[k], r) {
      TypeRunPrefix(h, g, k - 1, r, n - 1);
    }
  }

  lemma TypeRunStarts(h: seq<LogRecord>, k: nat, n: nat)
    requires k < |h| && n > 0
    ensures TypeRun(h, k, h[k], n) >= 1
  {
  }

  lemma SameSlice(h: seq<LogRecord>, g: seq<LogRecord>, i: nat, j: nat)
    requires i <= j <= |g| <= |h| && g == h[..|g|]
    ensures h[i..j] == g[i..j]
  {
    forall k | i <= k < j ensures h[k] == g[k] {
    }
  }

  lemma {:induction false} RecoverPrefix(h: seq<LogRecord>, g: seq<LogRecord>, k: int, m: Meta)
    requires k < |g| <= |h| && g == h[..|g|]
    ensures Recover(h, k, m) == Recover(g, k, m)
    decreases k + 1
  {
    hide RedoChain, RedoSource, UndoOne, SignedBy, ListedIn, RecoverDealloc;
    if k >= 0 {
      var r := h[k];
      assert g[k] == r;
      if r.rec.Dealloc? {
        RecoverDeallocPrefix(h, g, k, m);
      } else if IsUndoable(r.rec) {
        var u := UndoOne(m, r.rec);
        if u.Ok? {
          RecoverPrefix(h, g, k - 1, u.value);
        }
      }
    }
  }

  lemma {:induction false} RecoverDeallocPrefix(h: seq<LogRecord>, g: seq<LogRecord>, k: nat, m: Meta)
    requires k < |g| <= |h| && g == h[..|g|] && h[k].rec.Dealloc?
    ensures g[k].rec.Dealloc? && RecoverDealloc(h, k, m) == RecoverDealloc(g, k, m)
    decreases k + 1, 0
  {
    hide RedoChain, RedoSource, UndoOne, SignedBy, ListedIn, Recover, TypeRun;
    var r := h[k];
    assert g[k] == r;
    var n := r.rec.recordCount;
    if n > 0 {
      TypeRunPrefix(h, g, k, r, n);
      TypeRunStarts(h, k, n);
      RecoverPrefix(h, g, k - n, m);
      RecoverPrefix(h, g, k - TypeRun(h, k, r, n), m);
      if TypeRun(h, k, r, n) == n {
        SameSlice(h, g, k - n + 1, k + 1);
      }
    }
  }

  // Going back over p records of one type, and then over one of another type or the start of the log.
  lemma {:induction false} RunLength(h: seq<LogRecord>, k: int, r: LogRecord, p: nat, n: nat)
    requires k < |h| && p <= n && p <= k + 1
    requires forall i :: k - p < i <= k ==> SameType(h[i], r)
    requires p == n || k - p < 0 || !SameType(h[k - p], r)
    ensures TypeRun(h, k, r, n) == p
    decreases p
  {
    if p > 0 {
      RunLength(h, k - 1, r, p - 1, n - 1);
    }
  }

  /** A record without the magic word ends replay with an error, unless it is of one of the kinds
      that older versions wrote without it. */
  lemma Unsigned(h: seq<LogRecord>, k: nat, m: Meta)
    requires k < |h| && !h[k].magic
    ensures var r := h[k].rec;
            if r.Commit? || r.Abort? then Recover(h, k, m) == Ok(m)
            else if r.Mrc? then Recover(h, k, m) == RedoSource(m, h[k].trType, r.info)
            else Recover(h, k, m) == Err(EIO)
  {
  }

  predicate Replayed(trType: TrType) {
    trType == DEL_INODE || trType == TRUNCATE_B
  }

  /** A whole batch of a type that replay does not redo is passed over as one. */
  lemma RecoverOther(h: seq<LogRecord>, info: DeallocInfo, chunks: seq<Chunk>, trType: TrType, m: Meta)
    requires chunks != [] && trType != DEL_INODE && trType != TRUNCATE_B
    ensures var g := Logged(h, BatchOf(info, chunks), trType, RecordCount(|chunks|));
            Recover(g, |g| - 1, m) == Recover(h, |h| - 1, m)
  {
    hide BatchOf, RedoChain, RedoSource;
    var n := RecordCount(|chunks|);
    var g := Logged(h, BatchOf(info, chunks), trType, n);
    LoggedRecords(h, info, chunks, trType, n);
    assert g[|h| + (n - 1)].rec.Dealloc?;
    RecoverAtDealloc(g, |g| - 1, m);
    RecoverPrefix(g, h, |h| - 1, m);
  }

  lemma LoggedRecords(h: seq<LogRecord>, info: DeallocInfo, chunks: seq<Chunk>, trType: TrType, p: nat)
    requires p <= RecordCount(|chunks|)
    ensures var g := Logged(h, BatchOf(info, chunks), trType, p);
            && g[..|h|] == h
            && forall i :: |h| <= i < |h| + p ==>
                 && g[i] == LogRecord(i + 1, trType, BatchOf(info, chunks)[i - |h|], true)
                 && g[i].rec.Dealloc? && g[i].rec.recordCount == RecordCount(|chunks|)
  {
    var b := BatchOf(info, chunks);
    LoggedAt(h, b, trType, p);
    var g := Logged(h, b, trType, p);
    forall i | |h| <= i < |h| + p
      ensures g[i] == LogRecord(i + 1, trType, b[i - |h|], true)
    {
      assert g[|h| + (i - |h|)] == LogRecord(|h| + 1 + (i - |h|), trType, b[i - |h|], true);
    }
  }

  /** A batch only part of which reached the log is passed over, and replay goes
      on at the record before it, provided that one is of another type. */
  lemma RecoverTorn(h: seq<LogRecord>, info: DeallocInfo, chunks: seq<Chunk>, trType: TrType, p: nat, m: Meta)
    requires 0 < p < RecordCount(|chunks|) && Replayed(trType)
    requires h == [] || h[|h| - 1].trType != trType || !h[|h| - 1].rec.Dealloc?
    ensures var g := Logged(h, BatchOf(info, chunks), trType, p);
            Recover(g, |g| - 1, m) == Recover(h, |h| - 1, m)
  {
    hide Recover, RecoverDealloc, RedoChain, BatchOf, RecordCount;
    var g := Logged(h, BatchOf(info, chunks), trType, p);
    LoggedRecords(h, info, chunks, trType, p);
    var k := |g| - 1;
    assert g[k] == g[|h| + (p - 1)];
    RecoverAtDealloc(g, k, m);
    RunLength(g, k, g[k], p, RecordCount(|chunks|));
    PassedBack(g, k, p, m);
    RecoverPrefix(g, h, |h| - 1, m);
  }

  // The log after a whole batch and the first p records of a second one of the same type.
  ghost function TwoBatches(before: seq<LogRecord>, i1: DeallocInfo, c1: seq<Chunk>, i2: DeallocInfo, c2: seq<Chunk>,
                            trType: TrType, p: nat): seq<LogRecord>
    requires p <= RecordCount(|c2|)
  {
    Logged(Logged(before, BatchOf(i1, c1), trType, RecordCount(|c1|)), BatchOf(i2, c2), trType, p)
  }

  lemma TwoBatchesAre(before: seq<LogRecord>, i1: DeallocInfo, c1: seq<Chunk>, i2: DeallocInfo, c2: seq<Chunk>,
                      trType: TrType, p: nat)
    requires p <= RecordCount(|c2|)
    ensures var g, n1 := TwoBatches(before, i1, c1, i2, c2, trType, p), RecordCount(|c1|);
            && |g| == |before| + n1 + p && g[..|before|] == before
            && (forall i :: |before| <= i < |g| ==> g[i].trType == trType && g[i].magic && g[i].rec.Dealloc?)
            && (forall i :: |before| <= i < |before| + n1 ==> g[i].rec.signature == Signature(c1, n1) && g[i].rec.info == i1)
            && (forall i :: |before| + n1 <= i < |g| ==>
                  g[i].rec.signature == Signature(c2, RecordCount(|c2|)) && g[i].rec.recordCount == RecordCount(|c2|))
  {
    var n1 := RecordCount(|c1|);
    var h := Logged(before, BatchOf(i1, c1), trType, n1);
    LoggedRecords(before, i1, c1, trType, n1);
    LoggedRecords(h, i2, c2, trType, p);
    var g := TwoBatches(before, i1, c1, i2, c2, trType, p);
    LoggedAt(before, BatchOf(i1, c1), trType, n1);
    LoggedAt(h, BatchOf(i2, c2), trType, p);
    forall i | |before| <= i < |before| + n1 ensures g[i] == h[i] {
      assert g[..|h|][i] == h[i];
    }
  }

  // The records replay takes for the second batch: the newest ones, as many as it says it has.
  ghost function TakenFor(g: seq<LogRecord>, n2: nat): seq<LogRecord>
    requires n2 <= |g|
  {
    g[|g| - n2..]
  }

  /** A second batch of the same type behind a whole one, as when the inode of an unlinked
      directory goes with the last file in it, of which only p records reached the log.
      Fewer records together than the second one says it has: replay passes over both, as
      if neither had been begun. Otherwise it takes the newest so many for one batch; it
      goes on with that only if both sums and the sum over those records agree, and
      reports an error if not. */
  lemma RecoverTornBehind(before: seq<LogRecord>, i1: DeallocInfo, c1: seq<Chunk>, i2: DeallocInfo, c2: seq<Chunk>,
                          trType: TrType, p: nat, m: Meta)
    requires Replayed(trType) && c1 != [] && 0 < p < RecordCount(|c2|)
    requires before == [] || before[|before| - 1].trType != trType || !before[|before| - 1].rec.Dealloc?
    ensures var g, n1, n2 := TwoBatches(before, i1, c1, i2, c2, trType, p), RecordCount(|c1|), RecordCount(|c2|);
            && |g| == |before| + n1 + p
            && if n1 + p < n2 then Recover(g, |g| - 1, m) == Recover(before, |before| - 1, m)
               else
                 var taken := TakenFor(g, n2);
                 Recover(g, |g| - 1, m) ==
                   if Signature(c1, n1) == Signature(c2, n2) == Recomputed(taken, 0) then RedoChain(m, trType, i1, ListedIn(taken))
                   else Err(EIO)
  {
    hide Recover, RecoverDealloc, RedoChain, TwoBatches, Signature, RecordCount, BatchOf, Logged, SignedBy, ListedIn;
    var g, n1, n2 := TwoBatches(before, i1, c1, i2, c2, trType, p), RecordCount(|c1|), RecordCount(|c2|);
    TwoBatchesAre(before, i1, c1, i2, c2, trType, p);
    var k := |g| - 1;
    RecoverAtDealloc(g, k, m);
    if n1 + p < n2 {
      RunLength(g, k, g[k], n1 + p, n2);
      PassedBack(g, k, n1 + p, m);
      assert before == g[..|before|];
      RecoverPrefix(g, before, |before| - 1, m);
    } else {
      RunLength(g, k, g[k], n2, n2);
      TakenWhole(g, k, m);
      TakenSigned(TakenFor(g, n2), n2 - p, Signature(c1, n1), Signature(c2, n2));
    }
  }

  lemma PassedBack(g: seq<LogRecord>, k: nat, run: nat, m: Meta)
    requires k < |g| && g[k].rec.Dealloc? && Replayed(g[k].trType) && TypeRun(g, k, g[k], g[k].rec.recordCount) == run
    requires 0 < run < g[k].rec.recordCount
    ensures RecoverDealloc(g, k, m) == Recover(g, k - run, m)
  {
  }

  lemma TakenWhole(g: seq<LogRecord>, k: nat, m: Meta)
    requires k == |g| - 1 && g[k].rec.Dealloc? && Replayed(g[k].trType)
    requires var n := g[k].rec.recordCount; TypeRun(g, k, g[k], n) == n > 0 && n <= |g| && g[|g| - n].rec.Dealloc?
    ensures var taken := TakenFor(g, g[k].rec.recordCount);
            RecoverDealloc(g, k, m) == if SignedBy(taken) then RedoChain(m, g[k].trType, taken[0].rec.info, ListedIn(taken))
                                       else Err(EIO)
  {
    var n := g[k].rec.recordCount;
    assert g[k - n + 1..k + 1] == TakenFor(g, n);
  }

  // Records of two batches are signed as one exactly when all sums are the same.
  lemma TakenSigned(taken: seq<LogRecord>, q: nat, s1: nat, s2: nat)
    requires 0 < q < |taken| && forall i :: 0 <= i < |taken| ==> taken[i].rec.Dealloc?
    requires forall i :: 0 <= i < |taken| ==> taken[i].rec.signature == if i < q then s1 else s2
    ensures SignedBy(taken) <==> s1 == s2 == Recomputed(taken, 0)
  {
    assert SignedBy(taken) ==> taken[0].rec.signature == Recomputed(taken, 0) == taken[q].rec.signature;
  }

  function TwentyRuns(): seq<Chunk> {
    seq(20, i requires 0 <= i < 20 => Chunk(7 + 2 * i, 1))
  }

  /** One cluster freed, a directory of twenty runs behind it, and one of its two records
      in the log: the volume cannot be mounted. */
  lemma TornBehindFails(m: Meta)
    ensures var c1, c2 := [Chunk(5, 1)], TwentyRuns();
            var info := DeallocInfo(2, 0, 0, 3, CLU_TAIL, CLU_TAIL);
            RecordCount(|c2|) == 2
            && var g := TwoBatches([], info, c1, info, c2, DEL_INODE, 1);
               g != [] && Recover(g, |g| - 1, m) == Err(EIO)
  {
    var c1, c2 := [Chunk(5, 1)], TwentyRuns();
    var info := DeallocInfo(2, 0, 0, 3, CLU_TAIL, CLU_TAIL);
    assert RecordCount(1) == 1 && RecordCount(20) == 2;
    assert Signature(c1, 1) == 5;
    assert Signature(c2, 1) == 7 && Signature(c2, 2) == 7 + 45;
    RecoverTornBehind([], info, c1, info, c2, DEL_INODE, 1, m);
  }

  lemma {:induction false} ListedInIs(recs: seq<LogRecord>, b: seq<Rec>)
    requires |recs| == |b| && forall i :: 0 <= i < |b| ==> recs[i].rec == b[i] && b[i].Dealloc?
    ensures ListedIn(recs) == Listed(b)
    decreases |b|
  {
    if b != [] {
      ListedInIs(recs[1..], b[1..]);
    }
  }

  lemma BatchIsSigned(recs: seq<LogRecord>, info: DeallocInfo, chunks: seq<Chunk>, trType: TrType)
    requires chunks != [] && IsBatch(recs, trType, info, chunks)
    ensures SignedBy(recs) && ListedIn(recs) == chunks && recs != [] && recs[0].rec.info == info
  {
    var b := BatchOf(info, chunks);
    assert forall i :: 0 <= i < |b| ==> recs[i].rec == b[i] && b[i].Dealloc?;
    SignatureAgrees(recs, trType, info, chunks);
    ListedInIs(recs, b);
    BatchLists(info, chunks);
  }

  lemma RecoverAtDealloc(g: seq<LogRecord>, k: nat, m: Meta)
    requires k < |g| && g[k].rec.Dealloc? && g[k].magic
    ensures Recover(g, k, m) == RecoverDealloc(g, k, m)
  {
  }

  ghost predicate WholeBatch(recs: seq<LogRecord>, trType: TrType, info: DeallocInfo, chunks: seq<Chunk>) {
    && recs != [] && SignedBy(recs) && ListedIn(recs) == chunks && recs[0].rec.info == info
    && (forall i :: 0 <= i < |recs| ==> InBatch(recs[i], trType, |recs|))
  }

  predicate InBatch(r: LogRecord, trType: TrType, n: nat) {
    r.trType == trType && r.magic && r.rec.Dealloc? && r.rec.recordCount == n
  }

  lemma RunOfBatch(h: seq<LogRecord>, recs: seq<LogRecord>, trType: TrType)
    requires recs != [] && forall i :: 0 <= i < |recs| ==> InBatch(recs[i], trType, |recs|)
    ensures var g := h + recs;
            && TypeRun(g, |g| - 1, g[|g| - 1], |recs|) == |recs|
            && g[|g| - 1 - |recs| + 1..|g| - 1 + 1] == recs
            && InBatch(g[|g| - 1], trType, |recs|)
  {
    var g := h + recs;
    forall i | |h| <= i < |g| ensures SameType(g[i], g[|g| - 1]) {
      assert g[i] == recs[i - |h|];
    }
    RunLength(g, |g| - 1, g[|g| - 1], |recs|, |recs|);
  }

  lemma RecoverWhole(h: seq<LogRecord>, recs: seq<LogRecord>, info: DeallocInfo, chunks: seq<Chunk>,
                     trType: TrType, m: Meta)
    requires WholeBatch(recs, trType, info, chunks) && Replayed(trType)
    ensures var g := h + recs;
            RecoverDealloc(g, |g| - 1, m) == RedoChain(m, trType, info, chunks)
  {
    RunOfBatch(h, recs, trType);
  }

  /** A batch that was written whole is found from its last record, passes the
      signature check, and frees exactly the clusters it was made from. */
  lemma RecoverBatch(h: seq<LogRecord>, info: DeallocInfo, chunks: seq<Chunk>, trType: TrType, m: Meta)
    requires chunks != [] && Replayed(trType)
    ensures var g := Logged(h, BatchOf(info, chunks), trType, RecordCount(|chunks|));
            Recover(g, |g| - 1, m) == RedoChain(m, trType, info, chunks)
  {
    var recs := LoggedBatch(h, info, chunks, trType);
    var g := h + recs;
    RecoverWhole(h, recs, info, chunks, trType, m);
    RunOfBatch(h, recs, trType);
    RecoverAtDealloc(g, |g| - 1, m);
  }

  lemma LoggedBatch(h: seq<LogRecord>, info: DeallocInfo, chunks: seq<Chunk>, trType: TrType)
    returns (recs: seq<LogRecord>)
    requires chunks != []
    ensures Logged(h, BatchOf(info, chunks), trType, RecordCount(|chunks|)) == h + recs
    ensures WholeBatch(recs, trType, info, chunks)
  {
    var n := RecordCount(|chunks|);
    var g := Logged(h, BatchOf(info, chunks), trType, n);
    LoggedRecords(h, info, chunks, trType, n);
    recs := g[|h|..];
    forall i | 0 <= i < n
      ensures recs[i] == LogRecord(|h| + i + 1, trType, BatchOf(info, chunks)[i], true)
    {
      assert recs[i] == g[|h| + i];
    }
    BatchIsSigned(recs, info, chunks, trType);
  }
}
