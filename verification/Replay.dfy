/** Replay at mount, step by step: the newest record is found in the ring and the
    records are undone or redone from there, in place. The loop is proved to give
    the meaning `Recover` has for the history the ring is a window on. */
module Replay {
  import opened Results
  import opened Fat
  import opened Records
  import opened Marks
  import opened Batch
  import opened Undo
  import opened LogRing
  import opened Redo

  // ----- freeing lists one after the other

  lemma {:induction false} FreeFromTail(t: Table, a: seq<nat>, b: seq<nat>, i: nat)
    requires i <= |b|
    ensures FreeFrom(t, a + b, |a| + i) == FreeFrom(t, b, i)
    decreases |b| - i
  {
    if i < |b| {
      assert (a + b)[|a| + i] == b[i];
      if FatWrite(t, b[i], CLU_FREE).Ok? {
        FreeFromTail(t[b[i] := CLU_FREE], a, b, i + 1);
      }
    }
  }

  lemma {:induction false} FreeFromSplit(t: Table, a: seq<nat>, b: seq<nat>, i: nat)
    requires i <= |a|
    ensures var x := FreeFrom(t, a, i);
            FreeFrom(t, a + b, i) == if x.Err? then Err(EIO) else FreeFrom(x.value, b, 0)
    decreases |a| - i
  {
    if i == |a| {
      FreeFromTail(t, a, b, 0);
    } else {
      assert (a + b)[i] == a[i];
      if FatWrite(t, a[i], CLU_FREE).Ok? {
        FreeFromSplit(t[a[i] := CLU_FREE], a, b, i + 1);
      }
    }
  }

  // ----- the ring as a window on the history

  function RecAt(h: seq<LogRecord>, j: int): LogRecord
    requires j < |h|
  {
    if j < 0 then BLANK else h[j]
  }

  lemma SlotOf(j: int)
    requires 0 <= j + LOG_MAX_COUNT
    ensures 0 <= j < LOG_MAX_COUNT ==> j % LOG_MAX_COUNT == j
    ensures j < 0 ==> j % LOG_MAX_COUNT == j + LOG_MAX_COUNT
  {
  }

  lemma RingAt(h: seq<LogRecord>, j: int)
    requires |h| - LOG_MAX_COUNT <= j < |h|
    ensures RingOf(h)[j % LOG_MAX_COUNT] == RecAt(h, j)
  {
    var ring := RingOf(h);
    if j >= 0 {
      RingHolds(h, j);
    } else {
      SlotOf(j);
      RingBlank(h, j + LOG_MAX_COUNT);
    }
  }

  /** Replay of `h` from index k stays inside the newest 256 records. */
  ghost predicate InWindow(h: seq<LogRecord>, k: int)
    requires k < |h|
    decreases k + 1
  {
    if k < 0 then true
    else
      && |h| - LOG_MAX_COUNT <= k
      && var r := h[k].rec;
         if EndsReplay(r) || r.Mrc? then true
         else if !r.Dealloc? then |h| - LOG_MAX_COUNT <= k - 1 && InWindow(h, k - 1)
         else
           var n := r.recordCount;
           && 1 <= n <= MAX_RECORDS && |h| - LOG_MAX_COUNT <= k - n
           && (if !Replayed(h[k].trType) then InWindow(h, k - n)
               else var run := TypeRun(h, k, h[k], n);
                    run < n ==> 0 < run && InWindow(h, k - run))
  }

  // ----- where a replay writes

  /** The entries a replay may write, and of a slot the mark, the start word and the
      three words that an attribute chain borrows. */
  datatype Reach = Reach(fat: iset<nat>, marks: iset<Loc>, starts: iset<Loc>, xattrs: iset<Loc>)

  ghost predicate SlotWithin(w: Reach, l: Loc, s: Slot, t: Slot) {
    && (l in w.marks || t.mark == s.mark)
    && (l in w.starts || t.start == s.start)
    && (l in w.xattrs || (t.xflag == s.xflag && t.ctime == s.ctime && t.cdate == s.cdate))
    && t.body == s.body
  }

  /** n differs from m only where a replay may write. */
  ghost predicate Within(w: Reach, m: Meta, n: Meta) {
    && |m.fat| == |n.fat| && m.dir.Keys == n.dir.Keys
    && (forall c :: 0 <= c < |m.fat| && c !in w.fat ==> n.fat[c] == m.fat[c])
    && (forall l :: l in m.dir ==> SlotWithin(w, l, m.dir[l], n.dir[l]))
  }

  ghost predicate RecIn(w: Reach, r: Rec) {
    && (forall c: nat :: TouchesFat(r, c) ==> c in w.fat)
    && (forall l :: TouchesMark(r, l) ==> l in w.marks)
    && (forall l :: TouchesStart(r, l) ==> l in w.starts)
    && (forall l :: TouchesXattr(r, l) ==> l in w.xattrs)
  }

  ghost predicate SourceIn(w: Reach, trType: TrType, info: DeallocInfo) {
    && info.lPrev in w.fat
    && (trType == TRUNCATE_B ==>
          if info.fLast == CLU_TAIL then Loc(info.pdir, info.entry) in w.starts else info.fLast in w.fat)
  }

  ghost predicate ClustersIn(w: Reach, clus: seq<nat>) {
    forall c :: c in clus ==> c in w.fat
  }

  ghost predicate BatchIn(w: Reach, bhs: seq<LogRecord>) {
    && bhs != [] && (forall i :: 0 <= i < |bhs| ==> bhs[i].rec.Dealloc?)
    && SourceIn(w, bhs[0].trType, bhs[0].rec.info) && ClustersIn(w, Expand(ListedIn(bhs)))
  }

  /** Replay of `h` from index k writes only there. */
  ghost predicate Confines(h: seq<LogRecord>, k: int, w: Reach)
    requires k < |h|
    decreases k + 1
  {
    if k < 0 then true
    else
      var r := h[k].rec;
      if EndsReplay(r) then true
      else if r.Mrc? then SourceIn(w, h[k].trType, r.info)
      else if !r.Dealloc? then RecIn(w, r) && Confines(h, k - 1, w)
      else
        var n := r.recordCount;
        1 <= n &&
        if !Replayed(h[k].trType) then Confines(h, k - n, w)
        else
          var run := TypeRun(h, k, h[k], n);
          if run < n then 0 < run && Confines(h, k - run, w)
          else BatchIn(w, h[k - n + 1..k + 1])
  }

  lemma WithinSelf(w: Reach, m: Meta)
    ensures Within(w, m, m)
  {
  }

  lemma WithinFat(w: Reach, m: Meta, n: Meta, c: nat, v: nat)
    requires Within(w, m, n) && c in w.fat && ValidClu(n.fat, c)
    ensures Within(w, m, n.(fat := n.fat[c := v]))
  {
  }

  lemma WithinSlot(w: Reach, m: Meta, n: Meta, l: Loc, s: Slot)
    requires Within(w, m, n) && l in n.dir && SlotWithin(w, l, n.dir[l], s)
    ensures Within(w, m, n.(dir := n.dir[l := s]))
  {
  }

  // The outcome of a step in place, against its meaning.
  ghost predicate Does(ok: bool, m: Meta, r: Result<Meta>) {
    ok == r.Ok? && (ok ==> m == r.value)
  }

  // The records of hist from j on, as they were read from the ring.
  ghost predicate ReadFrom(h: seq<LogRecord>, j: int, bhs: seq<LogRecord>) {
    j + |bhs| <= |h| && forall i :: 0 <= i < |bhs| ==> bhs[i] == RecAt(h, j + i)
  }

  // The last p of the records read are of one type, and the one before them is not.
  ghost predicate TailRun(bhs: seq<LogRecord>, p: nat)
    requires bhs != []
  {
    && 1 <= p <= |bhs|
    && (forall i :: |bhs| - p <= i < |bhs| ==> SameType(bhs[i], bhs[|bhs| - 1]))
    && (p < |bhs| ==> !SameType(bhs[|bhs| - 1 - p], bhs[|bhs| - 1]))
  }

  // All records read are of the type of the last one.
  ghost predicate OneType(bhs: seq<LogRecord>) {
    forall i :: 0 <= i < |bhs| ==> SameType(bhs[i], bhs[|bhs| - 1])
  }

  lemma TailRunFits(h: seq<LogRecord>, k: nat, bhs: seq<LogRecord>, p: nat)
    requires k < |h| && bhs != [] && ReadFrom(h, k - |bhs| + 1, bhs) && TailRun(bhs, p) && h[k].rec.Dealloc?
    ensures bhs[|bhs| - 1] == h[k] && p <= k + 1
  {
    var n := |bhs|;
    assert bhs[n - 1] == RecAt(h, k);
    if n >= k + 2 {
      assert bhs[n - 2 - k] == RecAt(h, -1);
      assert !SameType(BLANK, h[k]);
    }
  }

  lemma ReadSlice(h: seq<LogRecord>, j: nat, bhs: seq<LogRecord>)
    requires ReadFrom(h, j, bhs)
    ensures h[j..j + |bhs|] == bhs
  {
    forall i | 0 <= i < |bhs| ensures h[j + i] == bhs[i] {
    }
  }

  lemma TailRunIs(h: seq<LogRecord>, k: nat, bhs: seq<LogRecord>, p: nat)
    requires k < |h| && bhs != [] && ReadFrom(h, k - |bhs| + 1, bhs) && TailRun(bhs, p) && h[k].rec.Dealloc?
    ensures bhs[|bhs| - 1] == h[k] && TypeRun(h, k, h[k], |bhs|) == p <= k + 1
    ensures p == |bhs| ==> h[k - p + 1..k + 1] == bhs
  {
    var n := |bhs|;
    TailRunFits(h, k, bhs, p);
    forall i | k - p < i <= k ensures SameType(h[i], h[k]) {
      assert bhs[i - k + n - 1] == RecAt(h, i);
    }
    assert p < n && k - p >= 0 ==> !SameType(h[k - p], h[k]) by {
      if p < n && k - p >= 0 {
        assert bhs[n - 1 - p] == RecAt(h, k - p);
      }
    }
    RunLength(h, k, h[k], p, n);
    if p == n {
      ReadSlice(h, k - n + 1, bhs);
    }
  }

  class Disk {
    var fat: Table
    var dir: Dir
    const log: LogFile

    // The disk as a replay found it, and where that replay may write.
    ghost var from: Meta
    ghost var reach: Reach

    constructor (t: Table, d: Dir, l: LogFile)
      ensures fat == t && dir == d && log == l
    {
      fat, dir, log := t, d, l;
      from, reach := Meta(t, d), Reach(iset{}, iset{}, iset{}, iset{});
    }

    ghost function Cur(): Meta
      reads `fat, `dir
    {
      Meta(fat, dir)
    }

    method FatSet(c: nat, v: nat) returns (ok: bool)
      modifies this`fat
      ensures ok == FatWrite(old(fat), c, v).Ok?
      ensures fat == if ok then old(fat)[c := v] else old(fat)
    {
      var w := FatWrite(fat, c, v);
      ok := w.Ok?;
      if ok {
        fat := w.value;
      }
    }

    // ----- the writes of a replay

    /** A replay that stops here leaves a disk that differs from the one it found only
        where it may write. Each single write keeps this. */
    ghost predicate Confined()
      reads this
    {
      Within(reach, from, Cur())
    }

    method Put(c: nat, v: nat) returns (ok: bool)
      requires Confined() && c in reach.fat
      modifies this`fat
      ensures Confined() && ok == FatWrite(old(fat), c, v).Ok?
      ensures fat == if ok then old(fat)[c := v] else old(fat)
    {
      if FatWrite(fat, c, v).Ok? {
        WithinFat(reach, from, Cur(), c, v);
      }
      ok := FatSet(c, v);
    }

    method PutSlot(l: Loc, s: Slot)
      requires Confined() && l in dir && SlotWithin(reach, l, dir[l], s)
      modifies this`dir
      ensures Confined() && dir == old(dir)[l := s]
    {
      WithinSlot(reach, from, Cur(), l, s);
      dir := dir[l := s];
    }

    // ----- undo

    method FreeClusters(clus: seq<nat>) returns (ok: bool)
      requires Confined() && ClustersIn(reach, clus)
      modifies this`fat
      ensures Confined()
      ensures var x := FreeFrom(old(fat), clus, 0); ok == x.Ok? && (ok ==> fat == x.value)
    {
      var i := 0;
      hide Within;
      while i < |clus|
        invariant 0 <= i <= |clus|
        invariant FreeFrom(old(fat), clus, 0) == FreeFrom(fat, clus, i) && Confined()
      {
        ok := Put(clus[i], CLU_FREE);
        if !ok {
          return;
        }
        i := i + 1;
      }
      ok := true;
    }

    method UndoAllocChain(r: Rec) returns (ok: bool)
      requires r.AllocChain? && Confined() && RecIn(reach, r)
      modifies this`fat, this`dir
      ensures Does(ok, Cur(), UndoOne(old(Cur()), r)) && Confined()
    {
      hide Within;
      assert TouchesFat(r, r.dPrev) && forall c :: c in r.clus ==> TouchesFat(r, c);
      if r.dPrev != CLU_TAIL {
        ok := Put(r.dPrev, r.dNext);
        if !ok {
          return;
        }
      } else if r.pdir != CLU_TAIL {
        var l := Loc(r.pdir, r.entry);
        if l in dir {
          if !r.isXattr {
            assert TouchesStart(r, l);
            PutSlot(l, dir[l].(start := 0));
          } else {
            assert TouchesXattr(r, l);
            PutSlot(l, dir[l].(xflag := false, ctime := r.ctime, cdate := r.cdate));
          }
        }
      }
      ok := FreeClusters(r.clus);
    }

    method UndoBuiltEntry(r: Rec)
      requires r.BuildEntry? && Confined() && RecIn(reach, r)
      modifies this`dir
      ensures UndoOne(old(Cur()), r) == Ok(Cur()) && Confined()
    {
      hide Within;
      var i := 0;
      while i < r.num
        invariant 0 <= i <= r.num && Confined()
        invariant UndoBuilt(old(dir), r.pdir, r.entry, 0, r.num) == UndoBuilt(dir, r.pdir, r.entry, i, r.num)
      {
        if r.entry < i || Loc(r.pdir, r.entry - i) !in dir {
          return;
        }
        var l := Loc(r.pdir, r.entry - i);
        if !IsFree(dir[l]) {
          assert TouchesMark(r, l);
          PutSlot(l, dir[l].(mark := DELETE_MARK));
        } else {
          assert dir[l := Unbuilt(dir[l])] == dir;
        }
        i := i + 1;
      }
    }

    method UndoRemovedEntry(r: Rec)
      requires r.RemoveEntry? && Confined() && RecIn(reach, r)
      modifies this`dir
      ensures UndoOne(old(Cur()), r) == Ok(Cur()) && Confined()
    {
      hide Within;
      var i := 0;
      while i < |r.undel|
        invariant 0 <= i <= |r.undel| && Confined()
        invariant UndoRemoved(old(dir), r.pdir, r.entry, 0, r.undel) == UndoRemoved(dir, r.pdir, r.entry, i, r.undel)
      {
        if r.entry < i || Loc(r.pdir, r.entry - i) !in dir {
          return;
        }
        var l := Loc(r.pdir, r.entry - i);
        assert TouchesMark(r, l);
        PutSlot(l, dir[l].(mark := r.undel[i]));
        i := i + 1;
      }
    }

    method UndoMoveChain(r: Rec) returns (ok: bool)
      requires r.MoveChain? && Confined() && RecIn(reach, r)
      modifies this`fat, this`dir
      ensures Does(ok, Cur(), UndoOne(old(Cur()), r)) && Confined()
    {
      hide Within;
      assert TouchesFat(r, r.tail) && TouchesFat(r, r.dPrev);
      if r.pdir != CLU_TAIL && !r.isXattr {
        var l := Loc(r.pdir, r.entry);
        if l !in dir {
          return false;
        }
        assert TouchesStart(r, l);
        PutSlot(l, dir[l].(start := r.head));
      }
      ok := Put(r.tail, CLU_TAIL);
      if ok {
        ok := Put(r.dPrev, CLU_TAIL);
      }
    }

    method UndoRecord(r: Rec) returns (ok: bool)
      requires IsUndoable(r) && Confined() && RecIn(reach, r)
      modifies this`fat, this`dir
      ensures Does(ok, Cur(), UndoOne(old(Cur()), r)) && Confined()
    {
      hide Within, RecIn;
      ok := true;
      match r
      case AllocChain(_, _, _, _, _, _, _, _) => ok := UndoAllocChain(r);
      case MoveChain(_, _, _, _, _, _) => ok := UndoMoveChain(r);
      case BuildEntry(_, _, _) => UndoBuiltEntry(r);
      case RemoveEntry(_, _, _) => UndoRemovedEntry(r);
    }

    // ----- redo

    method RedoSourceAndLog(trType: TrType, info: DeallocInfo) returns (ok: bool)
      requires Confined() && SourceIn(reach, trType, info)
      modifies this`fat, this`dir
      ensures Does(ok, Cur(), RedoSource(old(Cur()), trType, info)) && Confined()
    {
      hide Within;
      if trType == TRUNCATE_B {
        var l := Loc(info.pdir, info.entry);
        if l !in dir {
          return false;
        }
        if info.fLast == CLU_TAIL {
          PutSlot(l, dir[l].(start := 0));
        } else {
          ok := Put(info.fLast, CLU_TAIL);
          if !ok {
            return;
          }
        }
      }
      var lNext := if info.next != CLU_TAIL then info.next else info.lNext;
      ok := Put(info.lPrev, lNext);
    }

    method FreeRun(start: nat, count: nat) returns (ok: bool)
      requires Confined() && ClustersIn(reach, Run(start, count))
      modifies this`fat
      ensures Confined()
      ensures var x := FreeFrom(old(fat), Run(start, count), 0); ok == x.Ok? && (ok ==> fat == x.value)
    {
      hide Within;
      var i := 0;
      ghost var run := Run(start, count);
      while i < count
        invariant 0 <= i <= count && Confined()
        invariant FreeFrom(old(fat), run, 0) == FreeFrom(fat, run, i)
      {
        assert run[i] in run;
        ok := Put(start + i, CLU_FREE);
        if !ok {
          return;
        }
        i := i + 1;
      }
      ok := true;
    }

    method FreeChunks(chunks: seq<Chunk>) returns (ok: bool)
      requires Confined() && ClustersIn(reach, Expand(chunks))
      modifies this`fat
      ensures Confined()
      ensures var x := FreeFrom(old(fat), Expand(chunks), 0); ok == x.Ok? && (ok ==> fat == x.value)
    {
      hide Within;
      var i := 0;
      assert chunks[0..] == chunks;
      while i < |chunks|
        invariant 0 <= i <= |chunks| && Confined() && ClustersIn(reach, Expand(chunks[i..]))
        invariant FreeFrom(old(fat), Expand(chunks), 0) == FreeFrom(fat, Expand(chunks[i..]), 0)
      {
        assert chunks[i..][1..] == chunks[i + 1..];
        FreeFromSplit(fat, Run(chunks[i].start, chunks[i].count), Expand(chunks[i + 1..]), 0);
        ok := FreeRun(chunks[i].start, chunks[i].count);
        if !ok {
          return;
        }
        i := i + 1;
      }
      ok := true;
    }

    method RedoDeallocChain(bhs: seq<LogRecord>) returns (ok: bool)
      requires Confined() && BatchIn(reach, bhs)
      modifies this`fat, this`dir
      ensures Does(ok, Cur(), RedoChain(old(Cur()), bhs[0].trType, bhs[0].rec.info, ListedIn(bhs))) && Confined()
    {
      hide Within;
      ok := RedoSourceAndLog(bhs[0].trType, bhs[0].rec.info);
      if !ok {
        return;
      }
      ghost var t := fat;
      var i := 0;
      assert bhs[0..] == bhs;
      while i < |bhs|
        invariant 0 <= i <= |bhs| && Meta(t, dir) == RedoSource(old(Cur()), bhs[0].trType, bhs[0].rec.info).value
        invariant FreeFrom(t, Expand(ListedIn(bhs)), 0) == FreeFrom(fat, Expand(ListedIn(bhs[i..])), 0)
        invariant Confined() && ClustersIn(reach, Expand(ListedIn(bhs[i..])))
      {
        var chunks := bhs[i].rec.chunks;
        assert bhs[i..][1..] == bhs[i + 1..];
        ExpandSplit(chunks, ListedIn(bhs[i + 1..]));
        FreeFromSplit(fat, Expand(chunks), Expand(ListedIn(bhs[i + 1..])), 0);
        ok := FreeChunks(chunks);
        if !ok {
          return;
        }
        i := i + 1;
      }
    }

    // ----- a batch of records

    method ReadAhead(start: nat, n: nat, ghost j: int) returns (bhs: seq<LogRecord>)
      requires log.Holds() && |log.hist| - LOG_MAX_COUNT <= j && j + n <= |log.hist| && start == j % LOG_MAX_COUNT
      ensures |bhs| == n && ReadFrom(log.hist, j, bhs)
    {
      bhs := [];
      var i := 0;
      while i < n
        invariant 0 <= i <= n && |bhs| == i && ReadFrom(log.hist, j, bhs)
      {
        RingAt(log.hist, j + i);
        IndexPlus(j, i);
        bhs := bhs + [log.slots[(start + i) % LOG_MAX_COUNT]];
        i := i + 1;
      }
    }

    /** Checks a batch from its last record: all of one type, or else partly
        written; every stored signature equal to the recomputed one. */
    static method SanityCheckBatch(first: nat, bhs: seq<LogRecord>, ghost j: int)
      returns (r: Result<bool>, at: nat, ghost p: nat)
      requires bhs != [] && bhs[|bhs| - 1].rec.Dealloc? && first == j % LOG_MAX_COUNT
      ensures r == if !OneType(bhs) then Err(EINVAL) else if SignedBy(bhs) then Ok(true) else Err(EIO)
      ensures TailRun(bhs, p) && (p == |bhs| <==> OneType(bhs))
      ensures p < |bhs| ==> at == (j + |bhs| - p) % LOG_MAX_COUNT
    {
      var n := |bhs|;
      var i := n - 1;
      var last := bhs[n - 1];
      var signature := 0;
      p := 0;
      at := first;
      while i >= 0
        invariant -1 <= i <= n - 1 && p == n - 1 - i
        invariant forall k :: i < k < n ==> SameType(bhs[k], last)
        invariant signature == Recomputed(bhs, i + 1)
      {
        if !SameType(bhs[i], last) {
          IndexPlus(j, i + 1);
          return Err(EINVAL), (first + (i + 1)) % LOG_MAX_COUNT, p;
        }
        signature := (signature + FirstStart(bhs[i].rec)) % WORD;
        p := p + 1;
        i := i - 1;
      }
      i := n - 1;
      while i >= 0
        invariant -1 <= i <= n - 1
        invariant forall k :: i < k < n ==> bhs[k].rec.Dealloc? && bhs[k].rec.signature == Recomputed(bhs, 0)
      {
        assert SameType(bhs[i], last);
        if bhs[i].rec.signature != signature {
          return Err(EIO), at, p;
        }
        i := i - 1;
      }
      return Ok(true), at, p;
    }

    /** Redo of a batch, found from its last record. A batch of another type of
        transaction is skipped, and one that is only partly written is passed
        over: `at` is then the first of the records to go back before. */
    method RedoDealloc(index: nat, r: LogRecord, ghost k: nat) returns (o: Outcome, at: nat, ghost back: nat)
      requires log.Holds() && k < |log.hist| && index == k % LOG_MAX_COUNT && r == log.hist[k] && r.rec.Dealloc?
      requires InWindow(log.hist, k) && Confined() && Confines(log.hist, k, reach)
      modifies this`fat, this`dir
      ensures Confined() && (o.PassedOver? ==> 1 <= back && Confines(log.hist, k - back, reach))
      ensures o.PassedOver? ==>
                && Cur() == old(Cur()) && 1 <= back <= MAX_RECORDS && at == (k - back + 1) % LOG_MAX_COUNT
                && RecoverDealloc(log.hist, k, Cur()) == Recover(log.hist, k - back, Cur())
                && |log.hist| - LOG_MAX_COUNT <= k - back && InWindow(log.hist, k - back)
      ensures !o.PassedOver? ==> Does(o.Redone?, Cur(), RecoverDealloc(log.hist, k, old(Cur())))
    {
      hide Within, BatchIn, Confines, InWindow, Recover, RecoverDealloc, RedoChain, RedoSource, SignedBy, Numbered,
           RingOf;
      var n := r.rec.recordCount;
      BatchBounds(log.hist, k, Cur(), reach);
      var first := if index < n - 1 then LOG_MAX_COUNT - ((n - 1) - index) else index - (n - 1);
      IndexMinus(k, n - 1);
      ghost var j := k - n + 1;
      if r.trType != DEL_INODE && r.trType != TRUNCATE_B {
        return PassedOver, first, n;
      }
      var bhs := ReadAhead(first, n, j);
      assert bhs[n - 1] == RecAt(log.hist, k);
      var check;
      check, at, back := SanityCheckBatch(first, bhs, j);
      BatchCases(log.hist, k, bhs, back, Cur(), reach);
      if check == Err(EINVAL) {
        return PassedOver, at, back;
      }
      if check.Err? {
        return Broken, at, back;
      }
      var ok := RedoDeallocChain(bhs);
      o := if ok then Redone else Broken;
    }

    // ----- the replay loop

    // One record: Redone means that replay ends here, PassedOver that it goes on before `at`.
    method ReplayRecord(index: nat, r: LogRecord, ghost k: int) returns (o: Outcome, at: nat, ghost back: nat)
      requires log.Holds() && k < |log.hist| && index == k % LOG_MAX_COUNT && r == RecAt(log.hist, k)
      requires InWindow(log.hist, k) && !EndsReplay(r.rec) && Confined() && Confines(log.hist, k, reach)
      modifies this`fat, this`dir
      ensures o.PassedOver? ==>
                && 0 <= k && 1 <= back
                && (k - back) % LOG_MAX_COUNT == (if at == 0 then LOG_MAX_COUNT - 1 else at - 1)
                && Recover(log.hist, k, old(Cur())) == Recover(log.hist, k - back, Cur())
                && |log.hist| - LOG_MAX_COUNT <= k - back && InWindow(log.hist, k - back)
                && Confines(log.hist, k - back, reach)
      ensures !o.PassedOver? ==> Does(o.Redone?, Cur(), Recover(log.hist, k, old(Cur())))
      ensures Confined()
    {
      if NeedsMagic(r.rec) && !r.magic {
        return Broken, index, 0;
      }
      if r.rec.Dealloc? {
        o, at, back := RedoDealloc(index, r, k);
        IndexBefore(k - back + 1);
        return;
      }
      IndexBefore(k);
      var ok;
      if r.rec.Mrc? {
        ok := RedoSourceAndLog(r.trType, r.rec.info);
        return if ok then Redone else Broken, index, 0;
      }
      ok := UndoRecord(r.rec);
      return if ok then PassedOver else Broken, index, 1;
    }

    // Goes back through the ring from the newest record until one ends the replay.
    method ReplayBack(last: nat, sector0: LogRecord) returns (ok: bool, untouched: bool)
      requires log.Holds() && log.hist != [] && InWindow(log.hist, |log.hist| - 1)
      requires last == (|log.hist| - 1) % LOG_MAX_COUNT && sector0 == log.hist[|log.hist| - 1]
      requires Confined() && Confines(log.hist, |log.hist| - 1, reach)
      modifies this`fat, this`dir, log`isec
      ensures Confined()
      ensures Does(ok, Cur(), Recover(log.hist, |log.hist| - 1, old(Cur())))
      ensures untouched <==> EndsReplay(sector0.rec)
      ensures untouched ==> log.isec == old(log.isec)
    {
      hide InWindow, Confines, Within, RingOf, Numbered, Recover, NeedsMagic;
      var index := last;
      var sector := sector0;
      ghost var k: int := |log.hist| - 1;
      untouched := true;
      while !EndsReplay(sector.rec)
        invariant |log.hist| - LOG_MAX_COUNT <= k < |log.hist| && index == k % LOG_MAX_COUNT
        invariant sector == RecAt(log.hist, k) && InWindow(log.hist, k)
        invariant Confined() && Confines(log.hist, k, reach)
        invariant Recover(log.hist, |log.hist| - 1, old(Cur())) == Recover(log.hist, k, Cur())
        invariant (untouched <==> k == |log.hist| - 1) && (untouched || !EndsReplay(sector0.rec))
        invariant untouched ==> log.isec == old(log.isec)
        decreases k + 1
      {
        untouched := false;
        var o, at;
        ghost var back;
        o, at, back := ReplayRecord(index, sector, k);
        if !o.PassedOver? {
          return o.Redone?, false;
        }
        index := if at == 0 then LOG_MAX_COUNT - 1 else at - 1;
        k := k - back;
        RingAt(log.hist, k);
        sector := log.Read(index);
      }
      SameSlot(|log.hist|, k);
      RecoverEnds(log.hist, k, Cur());
      ok := !NeedsMagic(sector.rec) || sector.magic;
      untouched := last == index;
    }

    /** Replay: the table and the slots become what the history means for them,
        and the log is closed with a commit unless it was closed already. A log that
        cannot be opened leaves everything as it is. */
    method Replay(ghost w: Reach) returns (r: Result<bool>)
      requires log.Ruined() ||
               (log.Opens() && InWindow(log.hist, |log.hist| - 1) && Confines(log.hist, |log.hist| - 1, w))
      modifies this, log
      ensures old(log.Ruined()) ==> r == Err(EIO) && Cur() == old(Cur()) && log.Ruined()
      ensures old(log.Opens()) ==> Confined() && reach == w && from == old(Cur())
      ensures old(log.Opens()) ==> Does(r.Ok?, Cur(), Recover(old(log.hist), |old(log.hist)| - 1, old(Cur())))
      ensures old(log.Opens()) && r.Ok? ==> log.Valid() && log.hist == Closed(old(log.hist))
    {
      hide Within, Confines, InWindow, Numbered, RingOf;
      log.OpensOrNot();
      var last := log.Reopen();
      if last == Err(EIO) {
        return Err(EIO);
      }
      from, reach := Cur(), w;
      WithinSelf(w, Cur());
      if last.Err? {
        return Ok(true);
      }
      RingAt(log.hist, |log.hist| - 1);
      var sector := log.Read(last.value);
      NextSlotOf(|log.hist| - 1);
      var ok, untouched := ReplayBack(last.value, sector);
      if !ok {
        return Err(EIO);
      }
      if !untouched {
        CommitReplay(last.value);
      }
      return Ok(true);
    }

    method CommitReplay(last: nat)
      requires log.Holds() && log.hist != [] && log.sequence == |log.hist| + 1
      requires last == (|log.hist| - 1) % LOG_MAX_COUNT
      modifies log
      ensures log.Valid()
      ensures log.hist == old(log.hist) + [LogRecord(|old(log.hist)| + 1, REPLAY, Commit, true)]
    {
      NextSlotOf(|log.hist| - 1);
      log.isec := if last == LOG_MAX_COUNT - 1 then 0 else last + 1;
      log.Write(REPLAY, Commit);
    }
  }

  // The log after replay.
  function Closed(h: seq<LogRecord>): seq<LogRecord> {
    if h == [] || EndsReplay(h[|h| - 1].rec) then h
    else h + [LogRecord(|h| + 1, REPLAY, Commit, true)]
  }

  lemma RecoverEnds(h: seq<LogRecord>, k: int, m: Meta)
    requires k < |h| && EndsReplay(RecAt(h, k).rec)
    ensures Recover(h, k, m) == if NeedsMagic(RecAt(h, k).rec) && !RecAt(h, k).magic then Err(EIO) else Ok(m)
  {
  }

  lemma IndexBefore(j: int)
    ensures (j - 1) % LOG_MAX_COUNT ==
              if j % LOG_MAX_COUNT == 0 then LOG_MAX_COUNT - 1 else j % LOG_MAX_COUNT - 1
  {
  }

  lemma SameSlot(n: nat, k: int)
    requires n - LOG_MAX_COUNT <= k < n
    ensures (n - 1) % LOG_MAX_COUNT == k % LOG_MAX_COUNT <==> k == n - 1
  {
  }

  datatype Outcome = Redone | PassedOver | Broken

  lemma BatchBounds(h: seq<LogRecord>, k: nat, m: Meta, w: Reach)
    requires k < |h| && h[k].rec.Dealloc? && InWindow(h, k) && Confines(h, k, w)
    ensures var n := h[k].rec.recordCount;
            && 1 <= n <= MAX_RECORDS && |h| - LOG_MAX_COUNT <= k - n
            && (!Replayed(h[k].trType) ==>
                  RecoverDealloc(h, k, m) == Recover(h, k - n, m) && InWindow(h, k - n) && Confines(h, k - n, w))
  {
  }

  lemma BatchCases(h: seq<LogRecord>, k: nat, bhs: seq<LogRecord>, p: nat, m: Meta, w: Reach)
    requires k < |h| && Confines(h, k, w)
    requires k < |h| && h[k].rec.Dealloc? && Replayed(h[k].trType) && h[k].rec.recordCount == |bhs|
    requires bhs != [] && ReadFrom(h, k - |bhs| + 1, bhs) && TailRun(bhs, p) && InWindow(h, k)
    ensures p < |bhs| ==> RecoverDealloc(h, k, m) == Recover(h, k - p, m) && InWindow(h, k - p) && Confines(h, k - p, w)
    ensures p == |bhs| ==>
              && BatchIn(w, bhs)
              && RecoverDealloc(h, k, m) == if !SignedBy(bhs) then Err(EIO)
                                            else RedoChain(m, bhs[0].trType, bhs[0].rec.info, ListedIn(bhs))
  {
    hide TypeRun, SignedBy, ListedIn, RedoChain, SourceIn, ClustersIn, Expand, ReadFrom, RecIn;
    TailRunIs(h, k, bhs, p);
    if p == |bhs| {
      assert SameType(bhs[0], h[k]);
    }
  }

  lemma IndexPlus(j: int, i: nat)
    ensures (j % LOG_MAX_COUNT + i) % LOG_MAX_COUNT == (j + i) % LOG_MAX_COUNT
  {
  }

  lemma IndexMinus(k: nat, d: nat)
    requires d < LOG_MAX_COUNT
    ensures var i := k % LOG_MAX_COUNT;
            (k - d) % LOG_MAX_COUNT == if i < d then LOG_MAX_COUNT - (d - i) else i - d
  {
  }
}
