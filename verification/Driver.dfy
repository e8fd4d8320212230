/** The running volume: transactions, allocation, the orphan pool and the freeing
    of chains. Every public operation keeps `Valid`, which holds the table, the
    names, the in-core lists and what a crash at this moment would leave. */
module Driver {
  import opened Results
  import opened Arith
  import opened Fat
  import opened Records
  import opened Marks
  import opened Batch
  import opened Undo
  import opened LogRing
  import opened Redo
  import opened Replay
  import opened Layout
  import opened Orphans
  import opened Names
  import opened Crash
  import opened Lookup
  import opened State
  import opened Steps
  import opened Chunks
  import opened Freeings
  import opened Windows
  import opened Growth
  import opened Outcomes
  import opened Naming
  import opened Cuttings
  import opened Mounting

  // What a step of the transaction machine may change.
  datatype Running = Running(trType: TrType, trInode: Option<nat>, dirty: bool, phase: Phase, lag: set<Loc>,
                             preAlloc: seq<nat>, allocIndex: nat, searchPtr: nat, disk: Meta, hist: seq<LogRecord>)

  class Volume {
    const disk: Disk
    // the log file's name, and the clusters it was made with
    const logName: Name
    const logLen: nat
    var inodes: map<nat, Inode>
    // the segment list, the ends of the pool, and the log file's own last cluster
    var segments: seq<Segment>
    var cStart: nat
    var cLast: nat
    var lLast: nat
    var numUsed: int
    var searchPtr: nat
    // the transaction
    var depth: nat
    var trType: TrType
    var trInode: Option<nat>
    var dirty: bool
    // the pre-allocation window
    var preAlloc: seq<nat>
    var allocIndex: nat
    // the chunks of the batch being freed
    var freeChunks: seq<Chunk>
    var needMrc: bool

    ghost var lay: Layout
    ghost var files: map<nat, Name>
    ghost var lag: set<Loc>
    ghost var phase: Phase
    // what a crash may give back, from the start of the running operation on
    ghost var outcomes: iset<Contents>

    /** A volume that is not mounted yet: nothing in core, and on the disk
        whatever phase the last run was in. */
    constructor (d: Disk, name: Name, len: nat, ghost ph: Phase)
      ensures disk == d && logName == name && logLen == len && Blank()
      ensures phase == ph && outcomes == iset{AfterCrash(ph)}
    {
      disk, logName, logLen := d, name, len;
      inodes, segments, cStart, cLast, lLast := map[], [], CLU_TAIL, CLU_TAIL, CLU_TAIL;
      numUsed, searchPtr := 0, VALID_CLU;
      depth, trType, trInode, dirty := 0, NONE, None, false;
      preAlloc, allocIndex, freeChunks, needMrc := [], 0, [], false;
      lay, files, lag, phase := Layout(map[], [], map[]), map[], {}, ph;
      outcomes := iset{AfterCrash(ph)};
    }

    ghost predicate Blank()
      reads this
    {
      && inodes == map[] && segments == [] && cStart == CLU_TAIL && cLast == CLU_TAIL
      && searchPtr == VALID_CLU && depth == 0 && trType == NONE && trInode == None && !dirty
      && preAlloc == [] && allocIndex == 0 && freeChunks == [] && !needMrc
    }

    /** A crash right now is one `CrashRecovers` is about, and gives back contents
        that were expected. */
    ghost predicate Journaled()
      reads this`trType, this`phase, this`outcomes, disk, disk.log
    {
      && disk.log.Valid()
      && PhaseOk(phase, disk.log.hist, trType)
      && CrashImage(phase, disk.Cur())
      && PhaseSafe(phase, logName, logLen, outcomes)
    }

    /** What is left of that between two records of one batch: it is all a crash and the
        mount after it rely on. */
    ghost predicate Crashable()
      reads this`trType, this`phase, this`outcomes, disk, disk.log
    {
      && disk.log.Holds()
      && Replayable(phase, disk.log.hist, trType)
      && CrashImage(phase, disk.Cur())
      && PhaseSafe(phase, logName, logLen, outcomes)
    }

    // The names as they are now, and where they lead.
    ghost function Now(): Contents
      reads this`files, this`lay
    {
      ContentsOf(files, lay)
    }

    // The volume as it is now may be committed.
    ghost predicate Expected()
      reads this`files, this`lay, this`outcomes
    {
      Now() in outcomes
    }

    /** With nothing logged, a crash gives back the volume as it is now. */
    ghost predicate Current()
      reads this`files, this`lay, this`phase
    {
      && LogKept(files, lay, logName, logLen)
      && (phase.Open? && phase.recs == [] ==> AfterCrash(phase) == Now())
    }

    /** The table, the segment list, the inodes and the count agree. */
    ghost predicate Mapped()
      reads this`lay, this`files, this`segments, this`cStart, this`cLast, this`lLast, this`numUsed, this`inodes, disk`fat
    {
      && LayoutOk(disk.fat, lay) && SegsOk(segments, cStart, cLast, lLast, lay)
      && numUsed == VALID_CLU + |lay.pos|
      && InodesOk(inodes, files, lay)
    }

    ghost predicate Named()
      reads this`lay, this`files, this`lag, this`phase, this`trInode, disk`dir
    {
      FilesOk(files, lay, disk.dir, lag) && LagOk(lag, phase, disk.dir, files, lay, trInode)
    }

    ghost predicate Windowed()
      reads this`preAlloc, this`allocIndex, this`phase, this`trType, this`trInode, this`inodes, disk`fat
    {
      WindowOk(preAlloc, allocIndex, disk.fat, phase, trType, trInode, inodes)
    }

    /** Transactions: nothing is pending outside one, and `dirty` tells whether a
        record was logged in it. */
    ghost predicate Framed()
      reads this`trType, this`trInode, this`dirty, this`phase, this`lag, this`inodes, this`freeChunks, this`needMrc, this`searchPtr
    {
      && freeChunks == [] && !needMrc && searchPtr >= VALID_CLU
      && (trType == NONE ==> phase.Open? && phase.recs == [] && lag == {})
      && (trType != NONE ==> if phase.Open? then dirty <==> phase.recs != [] else dirty && Replayed(trType))
      && (PreAllocates(trType) ==> trInode.Some? && phase.Open? && OneWindow(phase.recs))
      && (PreAllocates(trType) && |phase.recs| == 2 ==> trInode.value in inodes && inodes[trInode.value].last != CLU_TAIL)
      && (Syncs(trType) && trInode.Some? ==> trInode.value in inodes)
      && (!Syncs(trType) ==> lag == {})
    }

    ghost predicate Valid()
      reads this, disk, disk.log
    {
      Journaled() && Mapped() && Named() && Windowed() && Framed() && Current()
    }

    /** What a crash may give back while the next operation runs. Only the operations
        themselves say this, before their first step; no step of theirs changes it. */
    ghost method Expect(s: iset<Contents>)
      requires Valid() && AfterCrash(phase) in s
      modifies this`outcomes
      ensures Valid() && outcomes == s
    {
      hide PhaseOk, CrashImage, ContentsOf, AfterCrash, LogKept, LayoutOk, FilesOk, SegsOk, InodesOk, Numbered,
           LagOk, WindowOk;
      outcomes := s;
    }

    // ----- primitive steps

    method FatSet(c: nat, v: nat)
      requires Journaled() && ValidClu(disk.fat, c) && ValidContent(disk.fat, v) && MayWriteFat(phase, c)
      modifies disk`fat
      ensures Journaled() && disk.fat == old(disk.fat)[c := v]
    {
      FatStep(phase, disk.Cur(), c, v);
      var ok := disk.FatSet(c, v);
    }

    method SlotSet(l: Loc, w: Slot)
      requires Journaled() && l in disk.dir && MayWriteSlot(phase, l, disk.dir[l], w)
      modifies disk`dir
      ensures Journaled() && disk.dir == old(disk.dir)[l := w]
    {
      SlotStep(phase, disk.Cur(), l, w);
      disk.dir := disk.dir[l := w];
    }

    method Log(r: Rec)
      requires Journaled() && phase.Open? && |phase.recs| < MAX_OPEN && IsUndoable(r) && Describes(r, disk.Cur())
      requires forall l :: l in phase.base.dir && Builds(r, l) ==> IsFree(phase.base.dir[l])
      modifies this`phase, this`dirty, disk.log
      ensures Journaled() && dirty && phase == With(old(phase), r, disk.Cur())
      ensures disk.log.hist == Record(old(disk.log.hist), trType, r)
    {
      RecordStep(phase, disk.log.hist, trType, disk.Cur(), r);
      RecordSafe(phase, r, disk.Cur(), logName, logLen, outcomes);
      phase := With(phase, r, disk.Cur());
      disk.log.Write(trType, r);
      dirty := true;
    }

    // ----- the end of a transaction

    method MarkEnd(end: Rec)
      requires disk.log.Valid() && VolumeOk(files, lay, disk.Cur()) && (end.Commit? || end.Abort?)
      requires LogKept(files, lay, logName, logLen) && Expected()
      modifies this`phase, this`dirty, this`trType, this`trInode, disk.log
      ensures Journaled() && trType == NONE && trInode == None
      ensures phase == Open(|old(disk.log.hist)|, disk.Cur(), [], [], files, lay) && AfterCrash(phase) == Now()
      ensures disk.log.hist == Record(old(disk.log.hist), old(trType), end) && dirty
    {
      OpenSafe(|disk.log.hist|, disk.Cur(), files, lay, logName, logLen, outcomes);
      CommitStep(disk.log.hist, trType, disk.Cur(), files, lay, end, NONE);
      phase := Open(|disk.log.hist|, disk.Cur(), [], [], files, lay);
      disk.log.Write(trType, end);
      dirty := true;
      trType := NONE;
      trInode := None;
    }

    // Writes an inode's start cluster into its slot.
    method SyncInode(o: nat) returns (ok: bool)
      requires Journaled() && LayoutOk(disk.fat, lay) && InodesOk(inodes, files, lay) && o in inodes
      requires Named() && trInode == Some(o)
      modifies disk`dir, this`lag
      ensures ok && Journaled() && FilesOk(files, lay, disk.dir, lag) && lag == {}
      ensures SameButStart(old(disk.dir), disk.dir)
    {
      hide PhaseOk, CrashImage, PhaseSafe, LayoutOk, FilesOk, LagOk, InodesOk, MayWriteSlot, FirstWord;
      var i := inodes[o];
      LagFound(disk.fat, inodes, files, lay, disk.dir, lag, phase, o);
      if !i.standing.Linked? {
        return true;
      }
      var l := Loc(i.pdir, i.entry);
      var slot := disk.dir[l];
      if i.start != CLU_TAIL {
        if slot.start != 0 && slot.start != i.start {
          return false;
        }
        slot := slot.(start := i.start);
      } else {
        slot := slot.(start := 0);
      }
      FilesSetStart(files, lay, disk.dir, lag, o, disk.dir[l := slot]);
      SlotSet(l, slot);
      lag := lag - {l};
      ok := true;
    }

    // Makes everything the transaction changed durable.
    method MetaCommit()
      requires Journaled() && LayoutOk(disk.fat, lay) && InodesOk(inodes, files, lay) && Named()
      requires Syncs(trType) && trInode.Some? ==> trInode.value in inodes
      requires !Syncs(trType) ==> lag == {}
      modifies disk`dir, this`lag
      ensures Journaled() && FilesOk(files, lay, disk.dir, lag) && lag == {}
      ensures SameButStart(old(disk.dir), disk.dir)
      ensures !Syncs(trType) ==> disk.dir == old(disk.dir)
    {
      if Syncs(trType) && trInode.Some? {
        var ok := SyncInode(trInode.value);
      }
    }

    method LogStartNolock(ty: TrType, who: Option<nat>)
      requires Journaled() && phase.Open? && phase.recs == []
      modifies this`trType, this`trInode, this`dirty
      ensures Journaled() && trType == ty && trInode == who && !dirty
    {
      TypeStep(phase, disk.log.hist, trType, ty);
      trType, trInode, dirty := ty, who, false;
    }

    // The clusters still in the window were never taken from the table.
    method ReleasePreAlloc()
      requires searchPtr >= VALID_CLU && Windowed()
      modifies this`searchPtr, this`preAlloc, this`allocIndex
      ensures searchPtr >= VALID_CLU && preAlloc == [] && allocIndex == 0
      ensures searchPtr == if old(allocIndex) < |old(preAlloc)| then old(preAlloc)[old(allocIndex)] else old(searchPtr)
    {
      if allocIndex < |preAlloc| {
        searchPtr := preAlloc[allocIndex];
      }
      preAlloc, allocIndex := [], 0;
    }

    ghost predicate Settled()
      reads this`files, this`lay
    {
      AllClaimed(files, lay)
    }

    /** Everything is durable and nothing is pending: a crash gives back the volume as it is. */
    ghost predicate Quiet()
      reads this`trType, this`phase, this`lag, this`preAlloc, this`allocIndex, this`files, this`lay
    {
      && trType == NONE && phase.Open? && phase.recs == [] && lag == {} && allocIndex == |preAlloc|
      && AfterCrash(phase) == Now()
    }

    ghost function Transaction(): Running
      reads this`trType, this`trInode, this`dirty, this`phase, this`lag, this`preAlloc, this`allocIndex, this`searchPtr,
            disk, disk.log
    {
      Running(trType, trInode, dirty, phase, lag, preAlloc, allocIndex, searchPtr, disk.Cur(), disk.log.hist)
    }

    // The newest record is this end mark of a transaction of this type.
    ghost predicate ClosedBy(ty: TrType, end: Rec)
      reads disk, disk.log
    {
      var h := disk.log.hist;
      h != [] && h[|h| - 1].trType == ty && h[|h| - 1].rec == end
    }

    // The end mark, once everything it covers is durable.
    method Close(end: Rec)
      requires disk.log.Valid() && Mapped() && Settled() && FilesOk(files, lay, disk.dir, {}) && lag == {}
      requires Distinct(preAlloc) && allocIndex == |preAlloc| && freeChunks == [] && !needMrc && searchPtr >= VALID_CLU
      requires (end.Commit? || end.Abort?) && LogKept(files, lay, logName, logLen) && Expected()
      modifies this`phase, this`dirty, this`trType, this`trInode, disk.log
      ensures Valid() && Quiet() && trInode == None
      ensures phase == Open(|old(disk.log.hist)|, disk.Cur(), [], [], files, lay)
      ensures disk.log.hist == Record(old(disk.log.hist), old(trType), end)
    {
      hide PhaseOk, CrashImage, PhaseSafe, ContentsOf, AfterCrash, LogKept, LayoutOk, FilesOk, SegsOk, InodesOk,
           AllClaimed, Numbered, LagOk, WindowOk, MayWriteFat;
      MarkEnd(end);
      NothingLags(phase, disk.dir, files, lay, trInode);
      WindowUsedUp(preAlloc, disk.fat, phase, trType, trInode, inodes);
    }

    /** Closes the transaction: what was done becomes what a crash goes back to. */
    method Finish(end: Rec)
      requires Valid() && Settled() && Expected() && (end.Commit? || end.Abort?)
      modifies this`searchPtr, this`preAlloc, this`allocIndex, this`lag, this`phase, this`dirty, this`trType, this`trInode,
               disk`dir, disk.log
      ensures Valid() && Quiet() && trInode == None && preAlloc == []
      ensures phase == Open(|old(disk.log.hist)|, disk.Cur(), [], [], files, lay)
      ensures disk.log.hist == Record(old(disk.log.hist), old(trType), end)
      ensures SameButStart(old(disk.dir), disk.dir)
      ensures !Syncs(old(trType)) ==> disk.dir == old(disk.dir)
    {
      hide PhaseOk, CrashImage, PhaseSafe, ContentsOf, AfterCrash, LogKept, LayoutOk, FilesOk, SegsOk, InodesOk,
           AllClaimed, Numbered, LagOk, WindowOk;
      ReleasePreAlloc();
      MetaCommit();
      Close(end);
    }

    method CommitDeferred(ino: Option<nat>)
      requires Valid() && Settled() && Expected()
      modifies this`searchPtr, this`preAlloc, this`allocIndex, this`lag, this`phase, this`dirty, this`trType, this`trInode,
               disk`dir, disk.log
      ensures Valid()
      ensures if old(trType) == WRITE && (ino.None? || ino == old(trInode)) then
                Quiet() && trInode == None && preAlloc == [] && disk.log.hist == Record(old(disk.log.hist), WRITE, Commit)
              else Transaction() == old(Transaction())
      ensures SameButStart(old(disk.dir), disk.dir)
    {
      if trType == WRITE && (ino.None? || trInode == ino) {
        Finish(Commit);
      }
    }

    // A new transaction, once nothing is pending.
    method Begin(ty: TrType, who: Option<nat>)
      requires Valid() && phase.Open? && phase.recs == [] && ty != NONE
      requires Syncs(ty) ==> who.Some? && who.value in inodes
      modifies this`dirty, this`trType, this`trInode
      ensures Valid() && trType == ty && trInode == who && lag == {} && allocIndex == |preAlloc| && !dirty
    {
      hide PhaseOk, CrashImage, PhaseSafe, ContentsOf, AfterCrash, LogKept, LayoutOk, FilesOk, SegsOk, InodesOk,
           AllClaimed, Numbered, LagOk, WindowOk;
      Idle();
      LogStartNolock(ty, who);
      NothingLags(phase, disk.dir, files, lay, trInode);
      WindowUsedUp(preAlloc, disk.fat, phase, trType, trInode, inodes);
    }

    // A write that was deferred is committed before anything else begins.
    static ghost function Started(h: seq<LogRecord>, pending: TrType): seq<LogRecord> {
      if pending == WRITE then Record(h, WRITE, Commit) else h
    }

    /** Starts a transaction, or joins the one that is open: a write to the same
        file goes on in the deferred transaction of the writes before it. */
    method LogStart(ty: TrType, who: Option<nat>)
      requires Valid() && Settled() && Expected() && ty != NONE
      requires depth == 0 ==> trType == NONE || trType == WRITE
      requires Syncs(ty) ==> who.Some? && who.value in inodes
      modifies this`depth, this`searchPtr, this`preAlloc, this`allocIndex, this`lag, this`phase, this`dirty,
               this`trType, this`trInode, disk`dir, disk.log
      ensures Valid() && depth == old(depth) + 1
      ensures old(depth) == 0 ==> trType == ty && trInode == who
      ensures old(depth) == 0 && !(ty == WRITE && old(trType) == WRITE && old(trInode) == who) ==>
                phase.Open? && phase.recs == [] && lag == {} && allocIndex == |preAlloc|
      ensures old(depth) > 0 || (ty == WRITE && old(trType) == WRITE && old(trInode) == who) ==>
                Transaction() == old(Transaction())
      ensures old(depth) == 0 && !(ty == WRITE && old(trType) == WRITE && old(trInode) == who) ==>
                !dirty && disk.log.hist == Started(old(disk.log.hist), old(trType))
      ensures SameButStart(old(disk.dir), disk.dir)
    {
      hide PhaseOk, CrashImage, PhaseSafe, ContentsOf, AfterCrash, LogKept, LayoutOk, FilesOk, SegsOk, InodesOk,
           AllClaimed, Numbered, LagOk, WindowOk, MayWriteFat, Journaled, Mapped, Named, Windowed;
      depth := depth + 1;
      if depth >= 2 {
        return;
      }
      if trType == WRITE {
        if ty == trType && trInode == who {
          return;
        }
        CommitDeferred(trInode);
      }
      Begin(ty, who);
    }

    // A transaction that cannot go on from a deferred one.
    method StartAlone(ty: TrType, who: Option<nat>)
      requires Valid() && Settled() && Expected() && depth == 0 && (trType == NONE || trType == WRITE)
      requires ty != NONE && ty != WRITE && (Syncs(ty) ==> who.Some? && who.value in inodes)
      modifies this`depth, this`searchPtr, this`preAlloc, this`allocIndex, this`lag, this`phase, this`dirty,
               this`trType, this`trInode, disk`dir, disk.log
      ensures Valid() && Settled() && depth == 1 && trType == ty && trInode == who
      ensures phase.Open? && phase.recs == [] && lag == {}
      ensures !dirty && disk.log.hist == Started(old(disk.log.hist), old(trType))
      ensures SameButStart(old(disk.dir), disk.dir)
    {
      hide PhaseOk, CrashImage, PhaseSafe, ContentsOf, AfterCrash, LogKept, LayoutOk, FilesOk, SegsOk, InodesOk,
           AllClaimed, Numbered, LagOk, WindowOk;
      LogStart(ty, who);
    }

    /** Ends a transaction: it is committed at once, unless it is a write, which
        stays open for more writes to the same file. */
    method LogEnd(failed: bool)
      requires Valid() && Settled() && Expected() && depth >= 1 && trType != NONE
      modifies this`depth, this`searchPtr, this`preAlloc, this`allocIndex, this`lag, this`phase, this`dirty,
               this`trType, this`trInode, disk`dir, disk.log
      ensures Valid() && depth == old(depth) - 1
      ensures SameButStart(old(disk.dir), disk.dir) && (!Syncs(old(trType)) ==> disk.dir == old(disk.dir))
      ensures old(depth) > 1 ==> Transaction() == old(Transaction())
      ensures old(depth) == 1 && !old(dirty) ==>
                Quiet() && Transaction() == old(Transaction()).(trType := NONE)
      ensures old(depth) == 1 && old(dirty) && old(trType) == WRITE && !failed ==> Transaction() == old(Transaction())
      ensures old(depth) == 1 && old(dirty) && (failed || old(trType) != WRITE) ==>
                && Quiet() && trInode == None && preAlloc == []
                && disk.log.hist == Record(old(disk.log.hist), old(trType), if failed then Abort else Commit)
    {
      hide PhaseOk, CrashImage, PhaseSafe, ContentsOf, AfterCrash, LogKept, LayoutOk, FilesOk, SegsOk, InodesOk,
           AllClaimed, Numbered, LagOk, WindowOk, Journaled, Mapped, Named, Windowed;
      depth := depth - 1;
      if depth > 0 {
        return;
      }
      if !dirty {
        Abandon();
        return;
      }
      if trType == WRITE && !failed {
        return;
      }
      Finish(if failed then Abort else Commit);
    }

    // The end of a transaction that cannot be deferred.
    method EndAlone(failed: bool)
      requires Valid() && Settled() && Expected() && depth == 1 && trType != NONE && trType != WRITE
      modifies this`depth, this`searchPtr, this`preAlloc, this`allocIndex, this`lag, this`phase, this`dirty,
               this`trType, this`trInode, disk`dir, disk.log
      ensures Valid() && Quiet() && depth == 0
      ensures !Syncs(old(trType)) ==> disk.dir == old(disk.dir)
      ensures if old(dirty) then ClosedBy(old(trType), if failed then Abort else Commit)
              else disk.log.hist == old(disk.log.hist) && disk.dir == old(disk.dir)
    {
      hide Valid, Quiet, Settled, Expected;
      LogEnd(failed);
    }

    // An empty transaction leaves no trace.
    method Abandon()
      requires Valid() && phase.Open? && phase.recs == []
      modifies this`trType
      ensures Valid() && Quiet() && trType == NONE
    {
      hide PhaseOk, CrashImage, PhaseSafe, ContentsOf, AfterCrash, LogKept, LayoutOk, FilesOk, SegsOk, InodesOk,
           AllClaimed, Numbered, LagOk, WindowOk;
      Idle();
      TypeStep(phase, disk.log.hist, trType, NONE);
      trType := NONE;
      WindowUsedUp(preAlloc, disk.fat, phase, trType, trInode, inodes);
    }

    lemma Durable()
      requires Valid()
      ensures trType == NONE ==> AfterCrash(phase) == Now()
    {
    }

    // An inode has a name exactly when it is linked.
    lemma NamedIf(o: nat)
      requires Valid() && o in inodes
      ensures inodes[o].standing.Linked? <==> o in files
    {
      EndsValid(disk.fat, inodes, files, lay, o);
    }

    lemma NoWindow()
      requires Valid() && !PreAllocates(trType)
      ensures allocIndex == |preAlloc| && Distinct(preAlloc)
    {
    }

    lemma Idle()
      requires Valid() && phase.Open? && phase.recs == []
      ensures lag == {} && allocIndex == |preAlloc| && Distinct(preAlloc)
    {
    }

    // ----- allocation

    /** Goes once round the table from where the last search ended. */
    method FindFreeClusters(req: nat) returns (r: Result<seq<nat>>)
      requires req > 0 && searchPtr >= VALID_CLU
      modifies this`searchPtr
      ensures searchPtr >= VALID_CLU
      ensures r.Ok? ==> FreeList(disk.fat, r.value) && 0 < |r.value| <= req
                        && (|r.value| < req ==> AllFree(disk.fat, r.value))
      ensures r.Ok? ==> InTurn(disk.fat, SearchFrom(disk.fat, old(searchPtr)), r.value)
                        && (|r.value| == req ==> searchPtr == r.value[req - 1] + 1)
      ensures r.Err? ==> Corrupt(disk.fat) || (r.error == ENOSPC && AllFree(disk.fat, []))
    {
      hide Turn, InTurn, FreeList, Looked, AllFree;
      var list: seq<nat> := [];
      var i := VALID_CLU;
      ghost var p := SearchFrom(disk.fat, searchPtr);
      if |disk.fat| > VALID_CLU {
        LookedNone(disk.fat, p);
      }
      while i < |disk.fat|
        invariant VALID_CLU <= i <= |disk.fat| && searchPtr >= VALID_CLU && |list| < req
        invariant |disk.fat| > VALID_CLU ==> ValidClu(disk.fat, p) && Looked(disk.fat, p, i - VALID_CLU, list)
        invariant i < |disk.fat| ==> Turn(disk.fat, p, SearchFrom(disk.fat, searchPtr)) == i - VALID_CLU
        invariant |disk.fat| == VALID_CLU ==> list == []
      {
        if searchPtr >= |disk.fat| {
          searchPtr := VALID_CLU;
        }
        var value := FatRead(disk.fat, searchPtr);
        if value.Err? {
          return Err(value.error);
        }
        LookedAt(disk.fat, p, i - VALID_CLU, list, searchPtr);
        if i + 1 < |disk.fat| {
          TurnNext(disk.fat, p, searchPtr);
        }
        if value.value == CLU_FREE {
          list := list + [searchPtr];
          if |list| == req {
            searchPtr := searchPtr + 1;
            LookedSays(disk.fat, p, i + 1 - VALID_CLU, list);
            return Ok(list);
          }
        }
        searchPtr := searchPtr + 1;
        i := i + 1;
      }
      if |disk.fat| > VALID_CLU {
        LookedSays(disk.fat, p, i - VALID_CLU, list);
        LookedRound(disk.fat, p, list);
      } else {
        NothingFree(disk.fat);
      }
      if |list| == 0 {
        return Err(ENOSPC);
      }
      return Ok(list);
    }

    // What was logged in a transaction with a window is committed before the next window is.
    static ghost function Cleared(h: seq<LogRecord>, ty: TrType, dirty: bool): seq<LogRecord> {
      if dirty then Record(h, ty, Commit) else h
    }

    /** Logs an allocation. In a transaction with a window, the windows before
        it are committed first, so there is never more than one to undo. */
    method LogAllocChain(o: nat, dNext: nat, clus: seq<nat>)
      requires Valid() && trType != NONE && o in inodes && FreeList(disk.fat, clus) && allocIndex == |preAlloc|
      requires PreAllocates(trType) ==> Settled() && Expected()
      requires phase.Open? && (!PreAllocates(trType) ==> lag == {} && |phase.recs| < MAX_OPEN)
      requires inodes[o].start != CLU_TAIL ==> ValidClu(disk.fat, inodes[o].last) && dNext == disk.fat[inodes[o].last]
      modifies this`lag, this`phase, this`dirty, this`trType, this`trInode, disk`dir, disk.log
      ensures Valid() && trType == old(trType) && trInode == old(trInode) && dirty && lag == {}
      ensures phase.Open? && phase.recs == (if PreAllocates(trType) then [] else old(phase.recs)) + [AllocRec(inodes[o], dNext, clus)]
      ensures var h := if PreAllocates(trType) then Cleared(old(disk.log.hist), trType, old(dirty)) else old(disk.log.hist);
              disk.log.hist == Record(h, trType, AllocRec(inodes[o], dNext, clus))
      ensures !PreAllocates(trType) ==> disk.dir == old(disk.dir)
    {
      hide PhaseOk, CrashImage, PhaseSafe, ContentsOf, AfterCrash, LogKept, LayoutOk, FilesOk, SegsOk, InodesOk,
           AllClaimed, Numbered, LagOk, WindowOk;
      if dirty && PreAllocates(trType) {
        CommitWindow();
      } else if PreAllocates(trType) {
        Idle();
      }
      LogAlloc(o, dNext, clus);
    }

    // Commits the window before this one, and goes on in a new transaction of the same kind.
    method CommitWindow()
      requires Valid() && Settled() && Expected() && PreAllocates(trType) && allocIndex == |preAlloc|
      modifies this`lag, this`phase, this`dirty, this`trType, this`trInode, disk`dir, disk.log
      ensures Valid() && trType == old(trType) && trInode == old(trInode) && lag == {} && phase.Open? && phase.recs == []
      ensures disk.log.hist == Record(old(disk.log.hist), trType, Commit)
    {
      hide PhaseOk, CrashImage, PhaseSafe, ContentsOf, AfterCrash, LogKept, LayoutOk, FilesOk, SegsOk, InodesOk,
           AllClaimed, Numbered, LagOk;
      var ty, who := trType, trInode;
      MetaCommit();
      Close(Commit);
      Begin(ty, who);
    }

    method LogAlloc(o: nat, dNext: nat, clus: seq<nat>)
      requires Valid() && trType != NONE && o in inodes && FreeList(disk.fat, clus) && allocIndex == |preAlloc|
      requires lag == {} && phase.Open? && |phase.recs| < MAX_OPEN && (PreAllocates(trType) ==> phase.recs == [])
      requires inodes[o].start != CLU_TAIL ==> ValidClu(disk.fat, inodes[o].last) && dNext == disk.fat[inodes[o].last]
      modifies this`phase, this`dirty, disk.log
      ensures Valid() && dirty
      ensures disk.log.hist == Record(old(disk.log.hist), trType, AllocRec(inodes[o], dNext, clus))
      ensures phase.Open? && phase.recs == old(phase.recs) + [AllocRec(inodes[o], dNext, clus)]
    {
      hide PhaseOk, CrashImage, PhaseSafe, ContentsOf, AfterCrash, LogKept, SegsOk, AllClaimed, Numbered, LayoutOk,
           InodesOk, FilesOk;
      EndsValid(disk.fat, inodes, files, lay, o);
      if inodes[o].start != CLU_TAIL {
        LastIs(disk.fat, lay, o);
      }
      AllocDescribes(disk.Cur(), inodes, files, lay, o, dNext, clus);
      Log(AllocRec(inodes[o], dNext, clus));
      WindowUsedUp(preAlloc, disk.fat, phase, trType, trInode, inodes);
    }

    ghost predicate NextWord(o: nat, dNext: nat)
      reads this`inodes, disk`fat
      requires o in inodes
    {
      if inodes[o].start == CLU_TAIL then dNext == CLU_TAIL
      else ValidClu(disk.fat, inodes[o].last) && dNext == disk.fat[inodes[o].last]
    }

    // What an inode's last cluster holds: an unlinked file's leads to the next orphan.
    method NextOfLast(o: nat) returns (dNext: nat)
      requires LayoutOk(disk.fat, lay) && InodesOk(inodes, files, lay) && o in inodes
      ensures NextWord(o, dNext)
    {
      EndsValid(disk.fat, inodes, files, lay, o);
      dNext := CLU_TAIL;
      if inodes[o].start != CLU_TAIL {
        LastIs(disk.fat, lay, o);
        if inodes[o].standing.Unlinked? {
          dNext := disk.fat[inodes[o].last];
        }
      }
    }

    // Fills the window and logs all of it at once.
    method PreAllocClusters(o: nat) returns (r: Result<bool>)
      requires Valid() && Settled() && Expected() && PreAllocates(trType) && trInode == Some(o) && o in inodes
      requires !inodes[o].standing.Unborn? && allocIndex == |preAlloc|
      modifies this`lag, this`phase, this`dirty, this`trType, this`trInode, this`searchPtr, this`preAlloc,
               this`allocIndex, disk`dir, disk.log
      ensures Valid() && trType == old(trType) && trInode == old(trInode)
      ensures r.Ok? ==> allocIndex == 0 < |preAlloc| <= PRE_ALLOC && lag == {}
                        && (|preAlloc| < PRE_ALLOC ==> AllFree(disk.fat, preAlloc))
                        && InTurn(disk.fat, SearchFrom(disk.fat, old(searchPtr)), preAlloc)
                        && phase.Open? && |phase.recs| == 1
                        && disk.log.hist == Record(Cleared(old(disk.log.hist), trType, old(dirty)), trType, phase.recs[0])
      ensures r.Err? ==> r.error == ENOSPC && AllFree(disk.fat, []) && phase == old(phase) && lag == old(lag)
    {
      hide PhaseOk, CrashImage, PhaseSafe, ContentsOf, AfterCrash, LogKept, LayoutOk, FilesOk, SegsOk, InodesOk,
           AllClaimed, Numbered, LagOk, WindowOk;
      NotCorrupt(disk.fat, lay);
      var list := FindFreeClusters(PRE_ALLOC);
      if list.Err? {
        return Err(ENOSPC);
      }
      var dNext := NextOfLast(o);
      OpenWindow(o, dNext, list.value);
      r := Ok(true);
    }

    method OpenWindow(o: nat, dNext: nat, list: seq<nat>)
      requires Valid() && Settled() && Expected() && PreAllocates(trType) && trInode == Some(o) && o in inodes
      requires !inodes[o].standing.Unborn? && allocIndex == |preAlloc|
      requires FreeList(disk.fat, list) && list != []
      requires inodes[o].start != CLU_TAIL ==> ValidClu(disk.fat, inodes[o].last) && dNext == disk.fat[inodes[o].last]
      modifies this`lag, this`phase, this`dirty, this`trType, this`trInode, this`preAlloc,
               this`allocIndex, disk`dir, disk.log
      ensures Valid() && trType == old(trType) && trInode == old(trInode) && allocIndex == 0 && preAlloc == list && lag == {}
      ensures phase.Open? && |phase.recs| == 1
      ensures disk.log.hist == Record(Cleared(old(disk.log.hist), trType, old(dirty)), trType, phase.recs[0])
    {
      hide PhaseOk, CrashImage, PhaseSafe, ContentsOf, AfterCrash, LogKept, LayoutOk, FilesOk, SegsOk, InodesOk,
           AllClaimed, Numbered, LagOk, WindowOk;
      LogAllocChain(o, dNext, list);
      preAlloc, allocIndex := list, 0;
      LinkedNamed(disk.fat, disk.dir, lag, files, lay, inodes, o);
      WindowStarts(list, disk.fat, phase, trType, o, inodes, dNext);
    }

    // Takes the next cluster of the window.
    method LogGetCluster(o: nat) returns (r: Result<nat>)
      requires Valid() && Settled() && Expected() && PreAllocates(trType) && trInode == Some(o) && o in inodes
      requires !inodes[o].standing.Unborn?
      modifies this`lag, this`phase, this`dirty, this`trType, this`trInode, this`searchPtr, this`preAlloc,
               this`allocIndex, disk`dir, disk.log
      ensures Journaled() && Mapped() && Named() && Framed() && Current() && trType == old(trType) && trInode == old(trInode)
      ensures r.Ok? ==> 0 < allocIndex <= |preAlloc| && r.value == preAlloc[allocIndex - 1]
                        && WindowOk(preAlloc, allocIndex - 1, disk.fat, phase, trType, trInode, inodes)
      ensures old(allocIndex) < |old(preAlloc)| ==>
                r.Ok? && Transaction() == old(Transaction()).(allocIndex := old(allocIndex) + 1)
      ensures old(allocIndex) >= |old(preAlloc)| && r.Ok? ==>
                && allocIndex == 1 && |preAlloc| <= PRE_ALLOC && (|preAlloc| < PRE_ALLOC ==> AllFree(disk.fat, preAlloc))
                && InTurn(disk.fat, SearchFrom(disk.fat, old(searchPtr)), preAlloc)
      ensures r.Err? ==> Valid() && r.error == ENOSPC && AllFree(disk.fat, []) && phase == old(phase) && lag == old(lag)
    {
      hide PhaseOk, CrashImage, PhaseSafe, ContentsOf, AfterCrash, LogKept, LayoutOk, FilesOk, SegsOk, InodesOk,
           AllClaimed, Numbered, LagOk;
      if allocIndex >= |preAlloc| {
        var ok := PreAllocClusters(o);
        if ok.Err? {
          return Err(ENOSPC);
        }
      }
      r := Ok(preAlloc[allocIndex]);
      allocIndex := allocIndex + 1;
    }

    // One cluster, logged on its own, outside the transactions that have a window.
    method GetCluster(o: nat) returns (r: Result<nat>, ghost dNext: nat)
      requires Valid() && trType != NONE && !Syncs(trType) && o in inodes && !inodes[o].standing.Unlinked?
      requires phase.Open? && |phase.recs| < MAX_OPEN
      requires inodes[o].standing.Linked? ==> inodes[o].start != CLU_TAIL
      modifies this`searchPtr, this`phase, this`dirty, this`lag, this`trType, this`trInode, disk`dir, disk.log
      ensures Valid() && trType == old(trType) && trInode == old(trInode) && lag == {}
      ensures r.Ok? ==> MayAppend(phase, disk.fat, inodes[o], r.value)
      ensures r.Ok? ==>
                && InTurn(disk.fat, SearchFrom(disk.fat, old(searchPtr)), [r.value])
                && NextWord(o, dNext)
                && disk.log.hist == Record(old(disk.log.hist), trType, AllocRec(inodes[o], dNext, [r.value]))
      ensures r.Err? ==> r.error == ENOSPC && AllFree(disk.fat, []) && phase == old(phase)
      ensures phase.Open? && old(phase).Open? && |phase.recs| <= |old(phase).recs| + 1
      ensures disk.dir == old(disk.dir) && (NoRemoval(old(phase)) ==> NoRemoval(phase))
    {
      hide PhaseOk, CrashImage, PhaseSafe, ContentsOf, AfterCrash, LogKept, LayoutOk, FilesOk, SegsOk, InodesOk,
           AllClaimed, Numbered, LagOk, WindowOk, MayWriteFat, Journaled, InTurn, FreeList, AllFree;
      NotCorrupt(disk.fat, lay);
      var list := FindFreeClusters(1);
      if list.Err? {
        return Err(ENOSPC), CLU_TAIL;
      }
      var next := NextOfLast(o);
      dNext := next;
      NoWindow();
      LogAllocChain(o, next, list.value);
      AloneHands(phase, disk.fat, inodes[o], dNext, list.value);
      r := Ok(list.value[0]);
    }

    // The two writes that append a cluster: its own end mark first.
    method AppendNewCluster(last: nat, n: nat)
      requires Journaled() && ValidClu(disk.fat, n) && MayWriteFat(phase, n)
      requires last != CLU_TAIL ==> ValidClu(disk.fat, last) && MayWriteFat(phase, last)
      modifies disk`fat
      ensures Journaled() && disk.fat == Appended(old(disk.fat), last, n)
    {
      FatSet(n, CLU_TAIL);
      if last != CLU_TAIL {
        FatSet(last, n);
      }
    }

    /** Appends a cluster to a file that has a name, or to a directory that will get one. */
    method Attach(o: nat, n: nat)
      requires Journaled() && Mapped() && Named() && phase.Open?
      requires o in inodes && !inodes[o].standing.Unlinked? && MayAppend(phase, disk.fat, inodes[o], n)
      requires inodes[o].standing.Linked? && inodes[o].last == CLU_TAIL ==> trInode == Some(o)
      modifies this`inodes, this`numUsed, this`lay, this`lag, disk`fat
      ensures Journaled() && Mapped() && Named()
      ensures o in old(lay).chains && lay == Extend(old(lay), o, n) && inodes == old(inodes)[o := Grown(old(inodes)[o], n)]
      ensures |disk.fat| == |old(disk.fat)| && (old(inodes)[o].last != CLU_TAIL ==> ValidClu(disk.fat, old(inodes)[o].last))
      ensures disk.fat == Appended(old(disk.fat), old(inodes)[o].last, n)
      ensures lag == old(lag) || (trInode == Some(o) && old(inodes)[o].last == CLU_TAIL && old(inodes)[o].standing.Linked?)
    {
      hide PhaseOk, CrashImage, PhaseSafe, ContentsOf, AfterCrash, LogKept, LayoutOk, FilesOk, SegsOk, InodesOk,
           AllClaimed, Numbered, LagOk, WindowOk, MayWriteFat;
      var i := inodes[o];
      AppendOk(disk.fat, disk.dir, lag, files, lay, inodes, o, n);
      SegsExtendNamed(lay, o, n, segments, cStart, cLast, lLast, inodes, files, disk.fat);
      AppendLags(phase, disk.dir, lag, files, lay, inodes, o, n, trInode);
      AppendNewCluster(i.last, n);
      inodes := inodes[o := Grown(i, n)];
      numUsed := numUsed + 1;
      lag := LagAfter(lag, i);
      lay := Extend(lay, o, n);
    }

    // ----- the pool of orphans

    method LookupSegment(start: nat) returns (j: nat)
      ensures j <= |segments| && (j < |segments| ==> segments[j].start == start)
      ensures forall i :: 0 <= i < j ==> segments[i].start != start
    {
      j := 0;
      while j < |segments| && segments[j].start != start
        invariant 0 <= j <= |segments|
        invariant forall i :: 0 <= i < j ==> segments[i].start != start
      {
        j := j + 1;
      }
    }

    /** Hangs an unlinked chain on the end of the pool, in one logged write. */
    method MoveChain(pdir: nat, entry: nat, start: nat, last: nat, ghost o: nat) returns (ghost r: Rec)
      requires Journaled() && phase.Open? && |phase.recs| < MAX_OPEN
      requires LayoutOk(disk.fat, lay) && SegsOk(segments, cStart, cLast, lLast, lay)
      requires CanHang(lay, o) && start == lay.chains[o][0] && last == LastOf(lay, o)
      requires pdir != CLU_TAIL ==> Loc(pdir, entry) in disk.dir && disk.dir[Loc(pdir, entry)].start == start
      modifies this`segments, this`cStart, this`cLast, this`lay, this`phase, this`dirty, disk`fat, disk.log
      ensures Journaled() && dirty && LayoutOk(disk.fat, lay) && SegsOk(segments, cStart, cLast, lLast, lay)
      ensures lay == Hang(old(lay), o) && |disk.fat| == |old(disk.fat)|
      ensures OrderOk(old(lay)) && r == Rec.MoveChain(pdir, entry, false, PoolLast(old(lay)), start, last)
      ensures old(phase).Open? && phase == With(old(phase), r, old(disk.Cur()))
    {
      hide PhaseOk, CrashImage, PhaseSafe, ContentsOf, AfterCrash, LogKept, LayoutOk, FilesOk, SegsOk, InodesOk,
           AllClaimed, Numbered, LagOk, WindowOk;
      var prev := if cStart == CLU_TAIL then lLast else cLast;
      PoolEnd(disk.fat, lay, segments, cStart, cLast, lLast);
      SegsHang(disk.fat, lay, o, segments, cStart, cLast, lLast);
      HangOk(disk.fat, lay, o);
      MoveDescribes(disk.Cur(), lay, o, pdir, entry);
      var move := Rec.MoveChain(pdir, entry, false, prev, start, last);
      r := move;
      Log(move);
      assert TouchesFat(phase.recs[|phase.recs| - 1], prev);
      FatSet(prev, start);
      cStart := if cStart == CLU_TAIL then start else cStart;
      cLast := last;
      segments := segments + [Segment(start, last)];
      lay := Hang(lay, o);
    }

    // Hangs an inode's chain on the pool; an inode without a name has no slot to go back to.
    method OpenUnlinkChain(o: nat) returns (ghost r: Rec)
      requires Journaled() && phase.Open? && |phase.recs| < MAX_OPEN && o in inodes
      requires LayoutOk(disk.fat, lay) && SegsOk(segments, cStart, cLast, lLast, lay)
      requires inodes[o].start != CLU_TAIL ==>
                 CanHang(lay, o) && inodes[o].start == lay.chains[o][0] && inodes[o].last == LastOf(lay, o)
      requires !inodes[o].standing.Unlinked? && inodes[o].pdir != CLU_TAIL ==>
                 var k := Loc(inodes[o].pdir, inodes[o].entry);
                 k in disk.dir && (inodes[o].start != CLU_TAIL ==> disk.dir[k].start == inodes[o].start)
      modifies this`segments, this`cStart, this`cLast, this`lay, this`phase, this`dirty, disk`fat, disk.log
      ensures Journaled() && LayoutOk(disk.fat, lay) && SegsOk(segments, cStart, cLast, lLast, lay)
      ensures |disk.fat| == |old(disk.fat)|
      ensures inodes[o].start == CLU_TAIL ==>
                lay == old(lay) && phase == old(phase) && dirty == old(dirty) && disk.fat == old(disk.fat)
      ensures inodes[o].start != CLU_TAIL ==>
                && lay == Hang(old(lay), o) && dirty
                && OrderOk(old(lay)) && o in inodes
                && r == Rec.MoveChain(if inodes[o].standing.Unlinked? then CLU_TAIL else inodes[o].pdir, inodes[o].entry, false,
                                      PoolLast(old(lay)), inodes[o].start, inodes[o].last)
                && old(phase).Open? && phase == With(old(phase), r, old(disk.Cur()))
    {
      hide PhaseOk, CrashImage, PhaseSafe, ContentsOf, AfterCrash, LogKept, LayoutOk, FilesOk, SegsOk, InodesOk,
           AllClaimed, Numbered, LagOk, WindowOk;
      var i := inodes[o];
      var pdir := if i.standing.Unlinked? then CLU_TAIL else i.pdir;
      r := Commit;
      if i.start == CLU_TAIL {
        return;
      }
      r := MoveChain(pdir, i.entry, i.start, i.last, o);
    }

    // The orphan has grown by a cluster: it goes between the orphan and the next one.
    method UpdateSegment(start: nat, last: nat, ghost t: Table, ghost o: nat)
      requires Journaled() && LayoutOk(t, lay) && SegsOk(segments, cStart, cLast, lLast, lay)
      requires o in lay.order && o in lay.chains && lay.chains[o] != [] && start == lay.chains[o][0]
      requires |disk.fat| == |t| && ValidClu(disk.fat, last) && MayWriteFat(phase, last)
      requires disk.fat[last] == CLU_TAIL
      modifies this`segments, this`cLast, disk`fat
      ensures Journaled() && disk.fat == old(disk.fat)[last := After(lay, o)]
      ensures var j := IndexIn(lay.order, o);
              && segments == old(segments)[j := old(segments)[j].(last := last)]
              && cLast == if j == |segments| - 1 then last else old(cLast)
    {
      hide PhaseOk, CrashImage, PhaseSafe, ContentsOf, AfterCrash, LogKept, LayoutOk, FilesOk, InodesOk,
           AllClaimed, Numbered, LagOk, WindowOk;
      SegmentOf(t, lay, o, segments, IndexIn(lay.order, o));
      var j := LookupSegment(start);
      if j < |segments| {
        SegmentOf(t, lay, o, segments, j);
      }
      SegmentSides(t, lay, o, segments, cStart, cLast, lLast);
      SegmentEnds(t, lay, o, segments, cStart, cLast, lLast);
      if segments[j].last != cLast {
        AfterIs(t, lay, o);
        FatSet(last, segments[j + 1].start);
      } else {
        cLast := last;
        assert disk.fat[last := CLU_TAIL] == disk.fat;
      }
      segments := segments[j := segments[j].(last := last)];
    }

    /** Appends a cluster to an unlinked file whose chain is in the pool. */
    method AttachOrphan(o: nat, n: nat)
      requires Journaled() && Mapped() && Named() && o in inodes
      requires inodes[o].standing.Unlinked? && inodes[o].last != CLU_TAIL && o in lay.order
      requires MayAppend(phase, disk.fat, inodes[o], n)
      modifies this`inodes, this`numUsed, this`lay, this`segments, this`cLast, disk`fat
      ensures Journaled() && Mapped() && Named() && |disk.fat| == |old(disk.fat)|
      ensures o in old(lay).chains && lay == Extend(old(lay), o, n) && inodes == old(inodes)[o := Grown(old(inodes)[o], n)]
    {
      hide PhaseOk, CrashImage, PhaseSafe, ContentsOf, AfterCrash, LogKept, LayoutOk, FilesOk, SegsOk, InodesOk,
           AllClaimed, Numbered, LagOk, WindowOk, MayWriteFat, Journaled;
      var i := inodes[o];
      ghost var t, l := disk.fat, lay;
      OrphanAppendOk(t, disk.dir, lag, files, l, inodes, o, n, segments, cStart, cLast, lLast, phase, trInode);
      AppendNewCluster(i.last, n);
      inodes := inodes[o := Grown(i, n)];
      numUsed := numUsed + 1;
      UpdateSegment(i.start, n, t, o);
      lay := Extend(l, o, n);
    }

    /** The first cluster of an unlinked file that was empty: its chain joins the pool. */
    method AttachFirst(o: nat, n: nat) returns (ghost r: Rec)
      requires Journaled() && Mapped() && Named() && phase.Open? && |phase.recs| < MAX_OPEN && o in inodes
      requires inodes[o].standing.Unlinked? && inodes[o].last == CLU_TAIL && o !in lay.order
      requires MayAppend(phase, disk.fat, inodes[o], n)
      modifies this`inodes, this`numUsed, this`lay, this`segments, this`cStart, this`cLast, this`phase, this`dirty,
               disk`fat, disk.log
      ensures Journaled() && Mapped() && FilesOk(files, lay, disk.dir, lag) && dirty && |disk.fat| == |old(disk.fat)|
      ensures o in old(lay).chains && lay == Hang(Extend(old(lay), o, n), o)
      ensures inodes == old(inodes)[o := Grown(old(inodes)[o], n)]
      ensures r.MoveChain? && old(phase).Open? && exists m :: phase == With(old(phase), r, m)
    {
      hide PhaseOk, CrashImage, PhaseSafe, ContentsOf, AfterCrash, LogKept, LayoutOk, FilesOk, SegsOk, InodesOk,
           AllClaimed, Numbered, LagOk, WindowOk;
      FirstAppendOk(disk.fat, disk.dir, lag, files, lay, inodes, o, n, segments, cStart, cLast, lLast);
      AppendNewCluster(CLU_TAIL, n);
      inodes := inodes[o := Grown(inodes[o], n)];
      numUsed := numUsed + 1;
      lay := Extend(lay, o, n);
      r := OpenUnlinkChain(o);
    }

    // The second half of an allocation: the cluster joins the inode's chain.
    method Place(o: nat, n: nat)
      requires Journaled() && Mapped() && Named() && phase.Open? && 0 < |phase.recs| < MAX_OPEN && dirty
      requires o in inodes && MayAppend(phase, disk.fat, inodes[o], n) && Settled()
      requires inodes[o].standing.Linked? && inodes[o].last == CLU_TAIL ==> trInode == Some(o)
      modifies this`inodes, this`numUsed, this`lay, this`lag, this`segments, this`cStart, this`cLast, this`phase,
               this`dirty, disk`fat, disk.log
      ensures Journaled() && Mapped() && Named() && dirty && |disk.fat| == |old(disk.fat)|
      ensures o in old(lay).chains && lay == Grow(old(lay), o, n, old(inodes)[o].standing)
      ensures inodes == old(inodes)[o := Grown(old(inodes)[o], n)]
      ensures Moved(old(phase), phase, old(inodes)[o])
      ensures lag == old(lag) || (trInode == Some(o) && old(inodes)[o].standing.Linked?)
    {
      hide PhaseOk, CrashImage, PhaseSafe, ContentsOf, AfterCrash, LogKept, LayoutOk, FilesOk, SegsOk, InodesOk,
           AllClaimed, Numbered, LagOk, WindowOk;
      PlaceWhere(disk.fat, files, lay, inodes, o);
      if !inodes[o].standing.Unlinked? {
        Attach(o, n);
      } else if inodes[o].last != CLU_TAIL {
        AttachOrphan(o, n);
      } else {
        PlaceFirst(o, n);
      }
    }

    method PlaceFirst(o: nat, n: nat)
      requires Journaled() && Mapped() && Named() && phase.Open? && 0 < |phase.recs| < MAX_OPEN && o in inodes
      requires inodes[o].standing.Unlinked? && inodes[o].last == CLU_TAIL && o !in lay.order
      requires MayAppend(phase, disk.fat, inodes[o], n)
      modifies this`inodes, this`numUsed, this`lay, this`segments, this`cStart, this`cLast, this`phase,
               this`dirty, disk`fat, disk.log
      ensures Journaled() && Mapped() && Named() && dirty && |disk.fat| == |old(disk.fat)|
      ensures o in old(lay).chains && lay == Hang(Extend(old(lay), o, n), o)
      ensures inodes == old(inodes)[o := Grown(old(inodes)[o], n)]
      ensures Moved(old(phase), phase, old(inodes)[o])
    {
      hide PhaseOk, CrashImage, PhaseSafe, ContentsOf, AfterCrash, LogKept, LayoutOk, FilesOk, SegsOk, InodesOk,
           AllClaimed, Numbered, LagOk, WindowOk;
      ghost var ph := phase;
      ghost var r := AttachFirst(o, n);
      ghost var m :| phase == With(ph, r, m);
      LagWith(lag, ph, disk.dir, files, old(lay), lay, trInode, r, m);
    }

    /** Gives an inode one more cluster: from the window if the transaction has
        one, and else on its own. */
    method AllocCluster(o: nat) returns (r: Result<nat>)
      requires Valid() && Settled() && trType != NONE && o in inodes
      requires PreAllocates(trType) ==> trInode == Some(o) && !inodes[o].standing.Unborn? && Expected()
      requires !PreAllocates(trType) ==>
                 && !Syncs(trType) && phase.Open? && |phase.recs| < MAX_OPEN && !inodes[o].standing.Unlinked?
                 && (inodes[o].standing.Linked? ==> inodes[o].start != CLU_TAIL)
      modifies this`inodes, this`numUsed, this`lay, this`lag, this`segments, this`cStart, this`cLast, this`phase,
               this`dirty, this`trType, this`trInode, this`searchPtr, this`preAlloc, this`allocIndex,
               disk`fat, disk`dir, disk.log
      ensures Valid() && trType == old(trType) && trInode == old(trInode)
      ensures r.Ok? ==>
                && ValidClu(old(disk.fat), r.value) && old(disk.fat)[r.value] == CLU_FREE
                && o in old(lay).chains && lay == Grow(old(lay), o, r.value, old(inodes)[o].standing)
                && inodes == old(inodes)[o := Grown(old(inodes)[o], r.value)]
      ensures r.Ok? ==> if old(inodes)[o].standing.Unborn? then SettledBut(o) else Settled()
      ensures r.Ok? && PreAllocates(trType) ==> dirty
      ensures r.Err? ==> r.error == ENOSPC && AllFree(disk.fat, []) && lay == old(lay) && inodes == old(inodes)
      ensures PreAllocates(trType) ==> FreeClusters(old(disk.fat)) == FreeClusters(disk.fat) + if r.Ok? then 1 else 0
      ensures PreAllocates(trType) && r.Err? ==> FreeClusters(disk.fat) == 0
      ensures !PreAllocates(trType) ==> disk.dir == old(disk.dir) && (NoRemoval(old(phase)) ==> NoRemoval(phase))
                                         && phase.Open? && old(phase).Open? && |phase.recs| <= |old(phase).recs| + 1
    {
      if PreAllocates(trType) {
        r := AllocFromWindow(o);
      } else {
        r := AllocAlone(o);
      }
    }

    ghost predicate SettledBut(o: nat)
      reads this`files, this`lay
    {
      forall q :: q != o ==> Claimed(files, lay, q)
    }

    method AllocFromWindow(o: nat) returns (r: Result<nat>)
      requires Valid() && Settled() && Expected() && PreAllocates(trType) && trInode == Some(o) && o in inodes
      requires !inodes[o].standing.Unborn?
      modifies this`inodes, this`numUsed, this`lay, this`lag, this`segments, this`cStart, this`cLast, this`phase,
               this`dirty, this`trType, this`trInode, this`searchPtr, this`preAlloc, this`allocIndex,
               disk`fat, disk`dir, disk.log
      ensures Valid() && trType == old(trType) && trInode == old(trInode) && Settled()
      ensures r.Ok? ==>
                && ValidClu(old(disk.fat), r.value) && old(disk.fat)[r.value] == CLU_FREE
                && o in old(lay).chains && lay == Grow(old(lay), o, r.value, old(inodes)[o].standing)
                && inodes == old(inodes)[o := Grown(old(inodes)[o], r.value)]
      ensures r.Ok? ==> dirty
      ensures r.Err? ==> r.error == ENOSPC && AllFree(disk.fat, []) && lay == old(lay) && inodes == old(inodes)
      ensures FreeClusters(old(disk.fat)) == FreeClusters(disk.fat) + if r.Ok? then 1 else 0
      ensures r.Err? ==> FreeClusters(disk.fat) == 0
    {
      hide PhaseOk, CrashImage, PhaseSafe, ContentsOf, AfterCrash, LogKept, LayoutOk, FilesOk, SegsOk, InodesOk,
           AllClaimed, Numbered, LagOk, WindowOk, FreeClusters, MayAppend, Grow;
      FreeCount(disk.fat, lay);
      r := LogGetCluster(o);
      if r.Err? {
        return;
      }
      WindowHands(preAlloc, allocIndex - 1, disk.fat, phase, trType, o, inodes);
      ghost var t, l, s := disk.fat, lay, inodes[o].standing;
      WindowPlace(o, r.value);
      GrowCount(t, l, o, r.value, s);
      FreeCount(disk.fat, lay);
    }

    method WindowPlace(o: nat, n: nat)
      requires Journaled() && Mapped() && Named() && Framed() && Current() && Settled()
      requires PreAllocates(trType) && trInode == Some(o)
      requires o in inodes && !inodes[o].standing.Unborn?
      requires 0 < allocIndex <= |preAlloc| && n == preAlloc[allocIndex - 1]
      requires WindowOk(preAlloc, allocIndex - 1, disk.fat, phase, trType, trInode, inodes)
      modifies this`inodes, this`numUsed, this`lay, this`lag, this`segments, this`cStart, this`cLast, this`phase,
               this`dirty, disk`fat, disk.log
      ensures Valid() && Settled() && dirty && |disk.fat| == |old(disk.fat)|
      ensures o in old(lay).chains && lay == Grow(old(lay), o, n, old(inodes)[o].standing)
      ensures inodes == old(inodes)[o := Grown(old(inodes)[o], n)]
    {
      hide PhaseOk, CrashImage, PhaseSafe, ContentsOf, AfterCrash, LogKept, LayoutOk, FilesOk, SegsOk, InodesOk,
           AllClaimed, Numbered, LagOk, WindowOk, Moved, Grow, MayAppend, MayWriteFat, EndsWhere, FreeClusters,
           OrderOk, Journaled, SomeFat;
      ghost var t, l, ph, was := disk.fat, lay, phase, inodes;
      WindowHands(preAlloc, allocIndex - 1, t, ph, trType, o, was);
      Place(o, n);
      StillFree(t, l, disk.fat, o, n, was[o].standing);
      MovedFirst(ph, phase, was[o]);
      WindowMoves(preAlloc, allocIndex - 1, t, ph, trType, o, was, disk.fat, phase);
      GrowClaimed(t, files, l, was, o, n);
      GrowKeepsLog(t, files, l, was, o, n, logName, logLen);
    }

    method AllocAlone(o: nat) returns (r: Result<nat>)
      requires Valid() && Settled() && trType != NONE && o in inodes
      requires !Syncs(trType) && phase.Open? && |phase.recs| < MAX_OPEN && !inodes[o].standing.Unlinked?
      requires inodes[o].standing.Linked? ==> inodes[o].start != CLU_TAIL
      modifies this`inodes, this`numUsed, this`lay, this`lag, this`segments, this`cStart, this`cLast, this`phase,
               this`dirty, this`trType, this`trInode, this`searchPtr, this`preAlloc, this`allocIndex,
               disk`fat, disk`dir, disk.log
      ensures Valid() && trType == old(trType) && trInode == old(trInode)
      ensures r.Ok? ==>
                && ValidClu(old(disk.fat), r.value) && old(disk.fat)[r.value] == CLU_FREE
                && o in old(lay).chains && lay == Grow(old(lay), o, r.value, old(inodes)[o].standing)
                && inodes == old(inodes)[o := Grown(old(inodes)[o], r.value)]
      ensures r.Ok? ==> if old(inodes)[o].standing.Unborn? then SettledBut(o) else Settled()
      ensures r.Err? ==> r.error == ENOSPC && AllFree(disk.fat, []) && lay == old(lay) && inodes == old(inodes)
      ensures disk.dir == old(disk.dir) && (NoRemoval(old(phase)) ==> NoRemoval(phase))
      ensures phase.Open? && old(phase).Open? && |phase.recs| <= |old(phase).recs| + 1
    {
      hide PhaseOk, CrashImage, PhaseSafe, ContentsOf, AfterCrash, LogKept, LayoutOk, FilesOk, SegsOk, InodesOk,
           AllClaimed, Numbered, LagOk, WindowOk, Valid;
      ghost var dNext;
      r, dNext := GetCluster(o);
      if r.Err? {
        return;
      }
      AttachAlone(o, r.value);
    }

    method AttachAlone(o: nat, n: nat)
      requires Valid() && Settled() && trType != NONE && !Syncs(trType) && phase.Open? && lag == {}
      requires o in inodes && !inodes[o].standing.Unlinked? && MayAppend(phase, disk.fat, inodes[o], n)
      requires inodes[o].standing.Linked? ==> inodes[o].start != CLU_TAIL
      modifies this`inodes, this`numUsed, this`lay, this`lag, disk`fat
      ensures Valid() && o in old(lay).chains && lay == Grow(old(lay), o, n, old(inodes)[o].standing)
      ensures inodes == old(inodes)[o := Grown(old(inodes)[o], n)]
      ensures if old(inodes)[o].standing.Unborn? then SettledBut(o) else Settled()
    {
      hide PhaseOk, CrashImage, PhaseSafe, ContentsOf, AfterCrash, LogKept, LayoutOk, FilesOk, SegsOk, InodesOk,
           AllClaimed, Numbered, LagOk, WindowOk;
      EndsValid(disk.fat, inodes, files, lay, o);
      GrowClaimed(disk.fat, files, lay, inodes, o, n);
      WritesLogged(phase, n);
      LogStays(files, lay, files, Extend(lay, o, n), logName, logLen);
      NoWindow();
      Attach(o, n);
      WindowUsedUp(preAlloc, disk.fat, phase, trType, trInode, inodes);
    }

    // ----- freeing

    /** Writes the batch of records for the chunk list. */
    method DeallocChain(info: DeallocInfo, ghost f: Freeing) returns (logged: nat)
      requires Journaled() && MayBatch(phase) && trType == f.trType && info == f.info
      requires FreeingOk(f) && FreeImage(f, disk.Cur()) && Expand(freeChunks) == f.l.chains[f.o][f.a..f.b]
      requires FreeingSafe(f, logName, logLen, outcomes)
      requires 0 < |freeChunks| <= CHUNK_LIMIT
      modifies this`phase, this`dirty, disk.log
      ensures Journaled() && dirty && logged == |freeChunks|
      ensures phase == Batched(f, old(disk.log.hist), freeChunks)
      ensures TornSafe(old(phase), old(disk.log.hist), trType, info, freeChunks)
    {
      hide PhaseOk, CrashImage, PhaseSafe, FreeingOk, FreeImage, FreeingSafe, Numbered, BatchOf, Logged, Expand, RingOf, TornSafe,
           Signature;
      var n := Min((|freeChunks| + MAX_CHUNKS - 1) / MAX_CHUNKS, MAX_RECORDS);
      RecordsFit(|freeChunks|);
      var sig := disk.log.GenerateSignature(freeChunks, n);
      logged := LogBatch(info, n, sig, f);
      disk.log.EndBatch(n);
      dirty := true;
    }

    /** The records of a batch, one after the other from the write position on. After each
        of them a crash gives back what it gave back before, and after the last one the
        freeing that is about to begin. */
    method LogBatch(info: DeallocInfo, n: nat, sig: nat, ghost f: Freeing) returns (logged: nat)
      requires Journaled() && MayBatch(phase) && trType == f.trType && info == f.info
      requires FreeingOk(f) && FreeImage(f, disk.Cur()) && Expand(freeChunks) == f.l.chains[f.o][f.a..f.b]
      requires FreeingSafe(f, logName, logLen, outcomes)
      requires 0 < |freeChunks| <= CHUNK_LIMIT && n == RecordCount(|freeChunks|) && sig == Signature(freeChunks, n)
      modifies this`phase, disk.log`slots, disk.log`hist
      ensures Crashable() && logged == |freeChunks| && |disk.log.hist| == |old(disk.log.hist)| + n
      ensures phase == Batched(f, old(disk.log.hist), freeChunks) && PhaseOk(phase, disk.log.hist, trType)
      ensures TornSafe(old(phase), old(disk.log.hist), trType, info, freeChunks)
    {
      hide PhaseOk, CrashImage, PhaseSafe, FreeingOk, FreeImage, FreeingSafe, Numbered, BatchOf, Logged, Expand, RingOf, Follows,
           PhaseTorn, MayBatch, Signature, RecordCount;
      ghost var ph, h, m := phase, disk.log.hist, disk.Cur();
      FreedType(f);
      TornIsSafe(ph, h, trType, info, freeChunks);
      BatchStep(h, f, m, freeChunks);
      FreeingStarts(f, Batched(f, h, freeChunks), logName, logLen, outcomes);
      FollowsNone(h, info, freeChunks, n, sig, trType);
      logged := 0;
      var i := 0;
      var sq := disk.log.sequence;
      while i < n
        invariant 0 <= i <= n && disk.log.Holds() && sq == |disk.log.hist| + 1 == |h| + i + 1
        invariant logged == Min(i * MAX_CHUNKS, |freeChunks|)
        invariant Follows(h, disk.log.hist, info, freeChunks, n, sig, trType, i)
        invariant phase == if i < n then ph else Batched(f, h, freeChunks)
        invariant i == n ==> PhaseOk(phase, disk.log.hist, trType)
        invariant Crashable()
      {
        logged := disk.log.WriteRecord(trType, info, freeChunks, n, sig, i, logged, sq, h);
        sq := sq + 1;
        i := i + 1;
        FollowsIsLogged(h, disk.log.hist, info, freeChunks, trType, i);
        if i == n {
          phase := Batched(f, h, freeChunks);
        }
      }
    }

    method FreeRun(start: nat, count: nat)
      requires Journaled()
      requires forall c :: c in Run(start, count) ==> ValidClu(disk.fat, c) && MayWriteFat(phase, c)
      modifies disk`fat
      ensures Journaled() && FreeFrom(old(disk.fat), Run(start, count), 0) == Ok(disk.fat)
      ensures |disk.fat| == |old(disk.fat)|
    {
      hide PhaseOk, CrashImage, PhaseSafe, ContentsOf, AfterCrash, LogKept, Numbered, MayWriteFat;
      var i := 0;
      ghost var run := Run(start, count);
      while i < count
        invariant 0 <= i <= count && Journaled() && |disk.fat| == |old(disk.fat)|
        invariant FreeFrom(old(disk.fat), run, 0) == FreeFrom(disk.fat, run, i)
      {
        assert run[i] in run;
        FatSet(start + i, CLU_FREE);
        i := i + 1;
      }
    }

    // Frees the clusters of the first nr chunks and takes the chunks off the list.
    method SetFreeChunks(nr: nat)
      requires Journaled() && nr == |freeChunks|
      requires forall c :: c in Expand(freeChunks) ==> ValidClu(disk.fat, c) && MayWriteFat(phase, c)
      modifies disk`fat, this`freeChunks
      ensures Journaled() && freeChunks == [] && |disk.fat| == |old(disk.fat)|
      ensures FreeFrom(old(disk.fat), Expand(old(freeChunks)), 0) == Ok(disk.fat)
    {
      hide PhaseOk, CrashImage, PhaseSafe, ContentsOf, AfterCrash, LogKept, Numbered, MayWriteFat;
      var n := nr;
      ghost var all := Expand(freeChunks);
      while freeChunks != [] && n > 0
        invariant n == |freeChunks| && Journaled() && |disk.fat| == |old(disk.fat)|
        invariant FreeFrom(old(disk.fat), all, 0) == FreeFrom(disk.fat, Expand(freeChunks), 0)
        invariant forall c :: c in Expand(freeChunks) ==> ValidClu(disk.fat, c) && MayWriteFat(phase, c)
        decreases n
      {
        var chunk := freeChunks[0];
        ExpandFirst(freeChunks);
        FreeFromSplit(disk.fat, Run(chunk.start, chunk.count), Expand(freeChunks[1..]), 0);
        FreeRun(chunk.start, chunk.count);
        freeChunks := freeChunks[1..];
        n := n - 1;
      }
    }

    // Everything freed so far is durable; the record says where to go on.
    method CommitMrc(info: DeallocInfo, ghost f: Freeing)
      requires Journaled() && trType == f.trType && info == f.info && f.a == f.b
      requires FreeingOk(f) && FreeImage(f, disk.Cur()) && FreeingSafe(f, logName, logLen, outcomes)
      modifies this`phase, this`dirty, this`needMrc, disk.log
      ensures Journaled() && dirty && phase == Phase.Linked(f) && !needMrc
    {
      hide FreeingOk, FreeImage, Numbered, FreeingSafe, PhaseSafe;
      phase := Phase.Linked(f);
      FreeingStarts(f, phase, logName, logLen, outcomes);
      disk.log.Write(trType, Mrc(info));
      dirty := true;
      needMrc := false;
    }

    // One batch: list, log, free, and mark it done if there is more to come.
    method FreeBatch(start: nat, last: nat, info: DeallocInfo, ghost f: Freeing, ghost a: nat)
      returns (next: nat, count: nat, ghost b: nat)
      requires Journaled() && MayBatch(phase) && trType == f.trType && CanFree(f) && a < Size(f)
      requires FreeImage(At(f, a, a), disk.Cur()) && info.(next := 0) == f.info.(next := 0)
      requires start == f.l.chains[f.o][a] && last == f.l.chains[f.o][Size(f) - 1] && freeChunks == [] && !needMrc
      requires FreeingSafe(f, logName, logLen, outcomes)
      modifies this`phase, this`dirty, this`freeChunks, this`needMrc, disk`fat, disk.log
      ensures Journaled() && dirty && freeChunks == [] && !needMrc
      ensures a < b <= Size(f) && count == b - a && FreeImage(At(f, b, b), disk.Cur())
      ensures next == if b < Size(f) then f.l.chains[f.o][b] else CLU_TAIL
      ensures b < Size(f) ==> phase == Phase.Linked(At(f, b, b))
      ensures b == Size(f) ==> phase.Batched? && phase.f == At(f, a, b)
    {
      hide PhaseOk, CrashImage, PhaseSafe, ContentsOf, AfterCrash, LogKept, FreeingOk, FreeImage, Numbered,
           BatchOf, TornSafe, MayWriteFat, Ends, Found, Expand;
      ghost var s := f.l.chains[f.o];
      ChainLeft(f, a, disk.Cur());
      var r := BuildChunkList(disk.fat, start, last, s[a..]);
      freeChunks, needMrc := r.value.chunks, r.value.full;
      next, count := r.value.next, r.value.count;
      b := a + count;
      assert s[a..][..count] == s[a..b];
      var ldi := info.(next := next);
      AtOk(f, a, b);
      AtImage(f, a, b, disk.Cur());
      var logged := DeallocChain(ldi, At(f, a, b));
      BatchWrites(f, a, b, phase);
      ghost var m := disk.Cur();
      SetFreeChunks(logged);
      BatchDone(f, a, b, m, disk.fat);
      if needMrc {
        AtOk(f, b, b);
        CommitMrc(ldi, At(f, b, b));
      }
    }

    // All batches of a chain, each within the capacity of the log.
    method FreeAll(start: nat, last: nat, info: DeallocInfo, ghost f: Freeing) returns (count: nat, ghost a: nat)
      requires Journaled() && MayBatch(phase) && trType == f.trType && CanFree(f) && 0 < Size(f)
      requires FreeImage(At(f, 0, 0), disk.Cur()) && info.(next := 0) == f.info.(next := 0)
      requires start == f.l.chains[f.o][0] && last == f.l.chains[f.o][Size(f) - 1] && freeChunks == [] && !needMrc
      requires FreeingSafe(f, logName, logLen, outcomes)
      modifies this`phase, this`dirty, this`freeChunks, this`needMrc, disk`fat, disk.log
      ensures Journaled() && dirty && freeChunks == [] && !needMrc
      ensures count == Size(f) && FreeImage(At(f, count, count), disk.Cur())
      ensures a < count && phase.Batched? && phase.f == At(f, a, count)
    {
      hide PhaseOk, CrashImage, PhaseSafe, ContentsOf, AfterCrash, LogKept, FreeingOk, FreeImage, Numbered;
      var next := start;
      count := 0;
      a := 0;
      ghost var b: nat := 0;
      NoTail(f);
      while next != CLU_TAIL
        invariant 0 <= b <= Size(f) && count == b && Journaled() && freeChunks == [] && !needMrc
        invariant FreeImage(At(f, b, b), disk.Cur()) && (b > 0 ==> dirty)
        invariant next == if b < Size(f) then f.l.chains[f.o][b] else CLU_TAIL
        invariant b < Size(f) ==> MayBatch(phase)
        invariant b == Size(f) ==> a < b && phase.Batched? && phase.f == At(f, a, b)
        decreases Size(f) - b
      {
        var n;
        a := b;
        next, n, b := FreeBatch(next, last, info, f, b);
        count := count + n;
      }
    }

    // What a truncation cuts off becomes the last segment of the pool.
    method SegmentAdd(start: nat, last: nat)
      modifies this`segments, this`cStart, this`cLast
      ensures segments == old(segments) + [Segment(start, last)] && cLast == last
      ensures cStart == if old(cStart) == CLU_TAIL then start else old(cStart)
    {
      segments := segments + [Segment(start, last)];
      if cStart == CLU_TAIL {
        cStart := start;
      }
      cLast := last;
    }

    // Where the chain hangs in the pool: the cluster before it and the one after.
    method LocationInSegmentList(start: nat, last: nat, ghost t: Table, ghost l: Layout, ghost o: nat)
      returns (lPrev: nat, lNext: nat)
      requires LayoutOk(t, l) && SegsOk(segments, cStart, cLast, lLast, l)
      requires o in l.order && o in l.chains && l.chains[o] != [] && start == l.chains[o][0] && last == LastOf(l, o)
      ensures lPrev == PrevLast(l, o) && lNext == After(l, o)
    {
      hide LayoutOk, SegAt, OrderOk;
      lPrev, lNext := lLast, CLU_TAIL;
      var j := SegmentIndex(start, t, l, o);
      SegmentSides(t, l, o, segments, cStart, cLast, lLast);
      if j > 0 {
        lPrev := segments[j - 1].last;
      }
      if j + 1 < |segments| {
        lNext := segments[j + 1].start;
      }
    }

    method SegmentIndex(start: nat, ghost t: Table, ghost l: Layout, ghost o: nat) returns (j: nat)
      requires LayoutOk(t, l) && SegsOk(segments, cStart, cLast, lLast, l)
      requires o in l.order && o in l.chains && l.chains[o] != [] && start == l.chains[o][0]
      ensures j == IndexIn(l.order, o) < |segments|
    {
      hide LayoutOk, SegAt;
      SegmentOf(t, l, o, segments, IndexIn(l.order, o));
      j := LookupSegment(start);
      if j < |segments| {
        SegmentOf(t, l, o, segments, j);
      }
    }

    // Takes a freed segment out of the list, and links past it on the disk.
    method MoveChainPp(start: nat, last: nat, ghost t: Table, ghost l: Layout, ghost o: nat)
      requires Journaled() && LayoutOk(t, l) && SegsOk(segments, cStart, cLast, lLast, l)
      requires o in l.order && o in l.chains && l.chains[o] != [] && start == l.chains[o][0] && last == LastOf(l, o)
      requires |disk.fat| == |t| && MayWriteFat(phase, PrevLast(l, o))
      modifies this`segments, this`cStart, this`cLast, disk`fat
      ensures Journaled() && ValidClu(old(disk.fat), PrevLast(l, o))
      ensures disk.fat == old(disk.fat)[PrevLast(l, o) := After(l, o)]
      ensures OrderOk(Drop(l, o, |l.chains[o]|)) && SegsOk(segments, cStart, cLast, lLast, Drop(l, o, |l.chains[o]|))
    {
      hide PhaseOk, CrashImage, PhaseSafe, ContentsOf, AfterCrash, LogKept, LayoutOk, OrderOk, SegsOk, Numbered,
           MayWriteFat;
      SegsDrop(t, l, o, segments, cStart, cLast, lLast);
      PrevLastIs(t, l, o);
      AfterIs(t, l, o);
      var j := SegmentIndex(start, t, l, o);
      var target, value := LinkAround(j, t, l, o);
      FatSet(target, value);
      segments := Without(segments, j);
    }

    // Moves the ends of the pool off the segment, and says what to write where.
    method LinkAround(j: nat, ghost t: Table, ghost l: Layout, ghost o: nat) returns (target: nat, value: nat)
      requires LayoutOk(t, l) && SegsOk(segments, cStart, cLast, lLast, l)
      requires o in l.order && o in l.chains && l.chains[o] != [] && j == IndexIn(l.order, o) < |segments|
      modifies this`cStart, this`cLast
      ensures target == PrevLast(l, o) && value == After(l, o)
      ensures var n := |segments|;
              && cStart == (if n == 1 then CLU_TAIL else if j == 0 then segments[1].start else old(cStart))
              && cLast == (if n == 1 then CLU_TAIL else if j == n - 1 then segments[n - 2].last else old(cLast))
    {
      hide PhaseOk, CrashImage, PhaseSafe, ContentsOf, AfterCrash, LogKept, LayoutOk, OrderOk, SegsOk;
      SegmentSides(t, l, o, segments, cStart, cLast, lLast);
      SegmentEnds(t, l, o, segments, cStart, cLast, lLast);
      var segment := segments[j];
      if cStart == segment.start && cLast == segment.last {
        cStart, cLast := CLU_TAIL, CLU_TAIL;
        target, value := lLast, CLU_TAIL;
      } else if cLast == segment.last {
        cLast := segments[j - 1].last;
        target, value := cLast, CLU_TAIL;
      } else if cStart == segment.start {
        cStart := segments[j + 1].start;
        target, value := lLast, cStart;
      } else {
        target, value := segments[j - 1].last, segments[j + 1].start;
      }
    }

    /** Frees a chain: what is cut off a file becomes a segment first, so that it
        is freed the way an unlinked file is. */
    method FreeChain(i: Inode, newLast: nat, start: nat, ghost f: Freeing) returns (count: nat)
      requires Journaled() && MayBatch(phase) && freeChunks == [] && !needMrc
      requires MayFree(f, i, newLast, segments, cStart, cLast, lLast, trType)
      requires FreeImage(At(f, 0, 0), disk.Cur()) && start == f.l.chains[f.o][0]
      requires FreeingSafe(f, logName, logLen, outcomes)
      modifies this`phase, this`dirty, this`freeChunks, this`needMrc, this`segments, this`cStart, this`cLast, this`numUsed,
               disk`fat, disk.log
      ensures Journaled() && dirty && freeChunks == [] && !needMrc
      ensures count > 0 && WasFreed(f, count, disk.fat, segments, cStart, cLast, lLast, old(numUsed), numUsed, phase)
    {
      hide PhaseOk, CrashImage, PhaseSafe, ContentsOf, AfterCrash, LogKept, FreeingOk, FreeImage, LayoutOk, SegsOk,
           Numbered, MayWriteFat, FreeingSafe, LogKept, MayBatch, PrevLast, After, PosOk, OrderOk, MayWriteFat,
           Journaled;
      CanFreeSays(f);
      if !i.standing.Unlinked? {
        SegmentAdd(start, i.last);
      }
      var lPrev, lNext := LocationInSegmentList(start, i.last, f.t, f.l, f.o);
      var info := DeallocInfo(i.pdir, i.entry, newLast, lPrev, lNext, start);
      ghost var a;
      count, a := FreeAll(start, i.last, info, f);
      LinkPast(start, i.last, newLast, !i.standing.Unlinked?, f, a);
      DropCount(f.l, f.o, count);
      numUsed := numUsed - count;
    }

    // After the last batch: the pool is linked past the chain, and a truncated file is ended.
    method LinkPast(start: nat, last: nat, newLast: nat, cut: bool, ghost f: Freeing, ghost a: nat)
      requires Journaled() && CanFree(f) && 0 < Size(f) && a < Size(f)
      requires phase.Batched? && phase.f == At(f, a, Size(f)) && FreeImage(At(f, Size(f), Size(f)), disk.Cur())
      requires start == f.l.chains[f.o][0] && last == f.l.chains[f.o][Size(f) - 1]
      requires cut <==> f.trType == TRUNCATE_B
      requires f.info.fLast == newLast && SegsOk(segments, cStart, cLast, lLast, f.l)
      modifies this`segments, this`cStart, this`cLast, disk`fat
      ensures Journaled() && LayoutOk(disk.fat, Drop(f.l, f.o, Size(f)))
      ensures OrderOk(Drop(f.l, f.o, Size(f))) && SegsOk(segments, cStart, cLast, lLast, Drop(f.l, f.o, Size(f)))
    {
      hide PhaseOk, CrashImage, PhaseSafe, ContentsOf, AfterCrash, LogKept, FreeingOk, FreeImage, LayoutOk, SegsOk,
           Numbered, SegAt;
      ghost var n := Size(f);
      CanFreeSays(f);
      ImageSize(f, n, n, disk.Cur());
      LooseWrite(f, n, n, disk.Cur(), f.info.lPrev, After(f.l, f.o));
      MoveChainPp(start, last, f.t, f.l, f.o);
      if cut && newLast != CLU_TAIL {
        LooseWrite(f, n, n, disk.Cur(), newLast, CLU_TAIL);
        FatSet(newLast, CLU_TAIL);
      }
      AllDone(f, disk.Cur());
    }

    /** Frees a chain from position `skip` on. Past the end of the chain there is
        nothing to free, and further on it is an error. */
    method DeallocClusters(i: Inode, skip: nat, ghost p: seq<nat>, ghost f: Freeing) returns (r: Result<Inode>, count: nat)
      requires Journaled() && MayBatch(phase) && freeChunks == [] && !needMrc
      requires if p == [] then i.start == CLU_TAIL else p[0] == i.start != CLU_TAIL
      requires skip > 0 && p != [] ==> ChainFrom(disk.fat, i.start, p)
      requires forall k :: 0 <= k < |p| ==> p[k] != CLU_TAIL
      requires skip < |p| ==>
                 && MayFree(f, i, KeptEnd(p, skip), segments, cStart, cLast, lLast, trType)
                 && f.l.chains[f.o][0] == p[skip] && FreeImage(At(f, 0, 0), disk.Cur())
                 && FreeingSafe(f, logName, logLen, outcomes)
      modifies this`phase, this`dirty, this`freeChunks, this`needMrc, this`segments, this`cStart, this`cLast, this`numUsed,
               disk`fat, disk.log
      ensures Journaled() && freeChunks == [] && !needMrc
      ensures skip < |p| ==>
                && dirty && count > 0 && WasFreed(f, count, disk.fat, segments, cStart, cLast, lLast, old(numUsed), numUsed, phase)
                && r == Ok(if i.standing.Unlinked? then i else Shortened(i, KeptEnd(p, skip)))
      ensures skip >= |p| ==>
                && disk.fat == old(disk.fat) && phase == old(phase) && dirty == old(dirty) && numUsed == old(numUsed)
                && segments == old(segments) && cStart == old(cStart) && cLast == old(cLast) && count == 0
                && (r.Ok? <==> skip == |p|) && (r.Ok? ==> r.value == i)
                && (r.Err? ==> p != [] ==> r.error == EFAULT)
    {
      hide PhaseOk, CrashImage, PhaseSafe, ContentsOf, AfterCrash, LogKept, FreeImage, Numbered, MayFree, WasFreed,
           Path, At;
      count := 0;
      var newLast, next := CLU_TAIL, i.start;
      if skip > 0 {
        var found := FindCluster(disk.fat, i.start, skip - 1, false);
        assert p != [] ==> found == Hop(p, skip - 1);
        if found.Err? {
          return Err(found.error), 0;
        }
        newLast, next := found.value.0, found.value.1;
      }
      r := Ok(i);
      if next != CLU_TAIL {
        count := FreeChain(i, newLast, next, f);
        if !i.standing.Unlinked? {
          r := Ok(Shortened(i, newLast));
        }
      }
    }

    // ----- names

    /** Logs the first bytes of a name's slots and then marks the slots as deleted. */
    method RemoveEntry(n: Name) returns (ghost r: Rec)
      requires Journaled() && phase.Open? && |phase.recs| < MAX_OPEN && WellNamed(n) && Live(disk.dir, n)
      modifies this`phase, this`dirty, disk`dir, disk.log
      ensures Journaled() && dirty && Unnamed(old(disk.dir), n, disk.dir)
      ensures r.RemoveEntry? && r == Rec.RemoveEntry(n.pdir, n.entry, r.undel) && |r.undel| == n.num
      ensures forall l :: Takes(n, l) ==> l in old(disk.dir) && r.undel[n.entry - l.entry] == old(disk.dir)[l].mark
      ensures old(phase).Open? && phase == With(old(phase), r, old(disk.Cur()))
    {
      hide PhaseOk, CrashImage, PhaseSafe, ContentsOf, AfterCrash, LogKept, Numbered;
      var undel: seq<nat> := [];
      var i := 0;
      while i < n.num
        invariant 0 <= i <= n.num && |undel| == i
        invariant forall k :: 0 <= k < i ==>
                    Loc(n.pdir, n.entry - k) in disk.dir && undel[k] == disk.dir[Loc(n.pdir, n.entry - k)].mark
      {
        assert Takes(n, Loc(n.pdir, n.entry - i));
        undel := undel + [disk.dir[Loc(n.pdir, n.entry - i)].mark];
        i := i + 1;
      }
      var remove := Rec.RemoveEntry(n.pdir, n.entry, undel);
      r := remove;
      RemoveDescribes(disk.Cur(), n, undel);
      Log(remove);
      MarkDeleted(n, remove);
    }

    method MarkDeleted(n: Name, ghost r: Rec)
      requires Journaled() && phase.Open? && WellNamed(n) && Live(disk.dir, n)
      requires r.RemoveEntry? && r.pdir == n.pdir && r.entry == n.entry && |r.undel| == n.num
      requires phase.recs != [] && phase.recs[|phase.recs| - 1] == r
      modifies disk`dir
      ensures Journaled() && Unnamed(old(disk.dir), n, disk.dir)
    {
      hide PhaseOk, CrashImage, PhaseSafe, ContentsOf, AfterCrash, LogKept, Numbered;
      var i := 0;
      while i < n.num
        invariant 0 <= i <= n.num && Journaled() && disk.dir.Keys == old(disk.dir).Keys
        invariant forall l :: l in old(disk.dir) ==>
                    disk.dir[l] == if Covers(n.pdir, n.entry, 0, i, l) then old(disk.dir)[l].(mark := DELETE_MARK)
                                   else old(disk.dir)[l]
      {
        var l := Loc(n.pdir, n.entry - i);
        assert Takes(n, l);
        assert TouchesMark(phase.recs[|phase.recs| - 1], l);
        SlotSet(l, disk.dir[l].(mark := DELETE_MARK));
        i := i + 1;
      }
    }

    /** Logs that a name will be built, and then writes its slots, the short-name slot first. */
    method BuildEntry(n: Name, slots: seq<Slot>) returns (ghost r: Rec)
      requires Journaled() && phase.Open? && |phase.recs| < MAX_OPEN && WellNamed(n)
      requires forall l :: Takes(n, l) ==> l in disk.dir && IsFree(disk.dir[l])
      requires |slots| == n.num && forall i :: 0 <= i < |slots| ==> !IsFree(slots[i])
      requires NoRemoval(phase)
      modifies this`phase, this`dirty, disk`dir, disk.log
      ensures Journaled() && dirty && NameBuilt(old(disk.dir), n, slots[0].start, disk.dir)
      ensures HoldsName(disk.dir, n, slots)
      ensures r == Rec.BuildEntry(n.pdir, n.entry, n.num) && old(phase).Open? && phase == With(old(phase), r, old(disk.Cur()))
    {
      hide PhaseOk, CrashImage, PhaseSafe, ContentsOf, AfterCrash, LogKept, Numbered;
      var build := Rec.BuildEntry(n.pdir, n.entry, n.num);
      r := build;
      BuildDescribes(disk.Cur(), n);
      BuildStep(phase, disk.log.hist, trType, disk.Cur(), build);
      Log(build);
      WriteSlots(n, slots, build);
    }

    method WriteSlots(n: Name, slots: seq<Slot>, ghost r: Rec)
      requires Journaled() && phase.Open? && WellNamed(n)
      requires forall l :: Takes(n, l) ==> l in disk.dir && IsFree(disk.dir[l])
      requires |slots| == n.num && forall i :: 0 <= i < |slots| ==> !IsFree(slots[i])
      requires r == Rec.BuildEntry(n.pdir, n.entry, n.num)
      requires phase.recs != [] && phase.recs[|phase.recs| - 1] == r
      modifies disk`dir
      ensures Journaled() && NameBuilt(old(disk.dir), n, slots[0].start, disk.dir)
      ensures HoldsName(disk.dir, n, slots)
    {
      hide PhaseOk, CrashImage, PhaseSafe, ContentsOf, AfterCrash, LogKept, Numbered;
      var i := 0;
      while i < n.num
        invariant 0 <= i <= n.num && Journaled() && disk.dir.Keys == old(disk.dir).Keys
        invariant forall l :: l in old(disk.dir) ==>
                    disk.dir[l] == if Covers(n.pdir, n.entry, 0, i, l) then slots[n.entry - l.entry] else old(disk.dir)[l]
      {
        var l := Loc(n.pdir, n.entry - i);
        assert Takes(n, l);
        BuildWrites(phase, r, l, disk.dir[l], slots[i]);
        SlotSet(l, slots[i]);
        i := i + 1;
      }
    }

    // ----- operations

    // The first step of an unlink: the slots go, and what they led to is still there.
    method RemoveName(o: nat)
      requires Journaled() && phase.Open? && |phase.recs| < MAX_OPEN && LayoutOk(disk.fat, lay) && InodesOk(inodes, files, lay)
      requires FilesOk(files, lay, disk.dir, {}) && o in inodes && inodes[o].standing.Linked?
      modifies this`files, this`phase, this`dirty, disk`dir, disk.log
      ensures Journaled() && dirty && FilesOk(files, lay, disk.dir, {}) && o in old(files) && files == old(files) - {o}
      ensures phase.Open? && old(phase).Open? && |phase.recs| == |old(phase).recs| + 1
      ensures Unnamed(old(disk.dir), old(files)[o], disk.dir)
      ensures var k := Loc(inodes[o].pdir, inodes[o].entry);
              k in disk.dir && (inodes[o].start != CLU_TAIL ==> disk.dir[k].start == inodes[o].start)
    {
      hide PhaseOk, CrashImage, PhaseSafe, ContentsOf, AfterCrash, LogKept, LayoutOk, FilesOk, InodesOk, Numbered;
      UnlinkReady(disk.fat, disk.dir, files, lay, inodes, o);
      ghost var r := RemoveEntry(NameOf(inodes[o]));
      FilesRemove(files, lay, old(disk.dir), {}, o, disk.dir);
      files := files - {o};
    }

    /** Takes a file's name away and hangs its chain on the pool, where it stays
        until the last user of the inode is gone. */
    method DeleteEntry(o: nat)
      requires Valid() && Settled() && phase.Open? && trType != NONE && !Syncs(trType) && |phase.recs| + 2 <= MAX_OPEN
      requires o in inodes && inodes[o].standing.Linked?
      modifies this`inodes, this`files, this`segments, this`cStart, this`cLast, this`lay, this`phase, this`dirty,
               disk`fat, disk`dir, disk.log
      ensures Valid() && Settled() && phase.Open? && o in old(files) && dirty
      ensures Unnamed(old(disk.dir), old(files)[o], disk.dir)
      ensures files == old(files) - {o} && inodes == old(inodes)[o := Unlinking(old(inodes)[o])]
      ensures lay == if old(inodes)[o].start == CLU_TAIL then old(lay) else Hang(old(lay), o)
    {
      hide PhaseOk, CrashImage, PhaseSafe, ContentsOf, AfterCrash, LogKept, LayoutOk, FilesOk, SegsOk, InodesOk,
           AllClaimed, Numbered, LagOk, WindowOk, MayWriteFat, Journaled, Unnamed;
      NoWindow();
      EndsValid(disk.fat, inodes, files, lay, o);
      RemoveAndHang(o);
      LogStays(old(files), old(lay), files, lay, logName, logLen);
      NothingLags(phase, disk.dir, files, lay, trInode);
      WindowUsedUp(preAlloc, disk.fat, phase, trType, trInode, inodes);
    }

    // Both steps of an unlink, each under its own record.
    method RemoveAndHang(o: nat)
      requires Journaled() && Mapped() && FilesOk(files, lay, disk.dir, {}) && Settled() && phase.Open?
      requires o in inodes && inodes[o].standing.Linked? && |phase.recs| + 2 <= MAX_OPEN
      modifies this`inodes, this`files, this`segments, this`cStart, this`cLast, this`lay, this`phase, this`dirty,
               disk`fat, disk`dir, disk.log
      ensures Journaled() && Mapped() && FilesOk(files, lay, disk.dir, {}) && Settled() && dirty
      ensures phase.Open? && old(phase).Open? && 0 < |phase.recs| <= |old(phase).recs| + 2
      ensures o in old(files) && files == old(files) - {o} && Unnamed(old(disk.dir), old(files)[o], disk.dir)
      ensures inodes == old(inodes)[o := Unlinking(old(inodes)[o])]
      ensures lay == if old(inodes)[o].start == CLU_TAIL then old(lay) else Hang(old(lay), o)
    {
      hide PhaseOk, CrashImage, PhaseSafe, ContentsOf, AfterCrash, LogKept, LayoutOk, FilesOk, SegsOk, InodesOk,
           AllClaimed, Numbered, LagOk, WindowOk, Unnamed;
      ghost var t, l := disk.fat, lay;
      UnlinkReady(t, disk.dir, files, l, inodes, o);
      RemoveName(o);
      UnlinkDone(t, disk.dir, old(files), l, inodes, o);
      UnlinkChain(o);
    }

    // The second step: the chain goes to the pool, and the inode is one without a name.
    method UnlinkChain(o: nat)
      requires Journaled() && phase.Open? && |phase.recs| < MAX_OPEN
      requires LayoutOk(disk.fat, lay) && SegsOk(segments, cStart, cLast, lLast, lay)
      requires numUsed == VALID_CLU + |lay.pos| && o in inodes && inodes[o].standing.Linked? && dirty
      requires inodes[o].start != CLU_TAIL ==>
                 CanHang(lay, o) && inodes[o].start == lay.chains[o][0] && inodes[o].last == LastOf(lay, o)
      requires var k := Loc(inodes[o].pdir, inodes[o].entry);
               k in disk.dir && (inodes[o].start != CLU_TAIL ==> disk.dir[k].start == inodes[o].start)
      requires var m := if inodes[o].start == CLU_TAIL then lay else Hang(lay, o);
               InodesOk(inodes[o := Unlinking(inodes[o])], files, m) && m.pos == lay.pos
      modifies this`inodes, this`segments, this`cStart, this`cLast, this`lay, this`phase, this`dirty, disk`fat, disk.log
      ensures Journaled() && Mapped() && dirty && inodes == old(inodes)[o := Unlinking(old(inodes)[o])]
      ensures lay == if old(inodes)[o].start == CLU_TAIL then old(lay) else Hang(old(lay), o)
      ensures phase.Open? && old(phase).Open? && |old(phase).recs| <= |phase.recs| <= |old(phase).recs| + 1
    {
      hide PhaseOk, CrashImage, PhaseSafe, ContentsOf, AfterCrash, LogKept, LayoutOk, FilesOk, SegsOk, InodesOk,
           AllClaimed, Numbered, LagOk, WindowOk;
      ghost var r := OpenUnlinkChain(o);
      inodes := inodes[o := Unlinking(inodes[o])];
    }

    /** Unlink: afterwards the name is gone for good, crash or not, and the chain
        is an orphan. */
    method Unlink(o: nat)
      requires Valid() && Settled() && depth == 0 && (trType == NONE || trType == WRITE)
      requires o in inodes && inodes[o].standing.Linked?
      modifies this, disk, disk.log
      ensures Valid() && Settled() && Quiet() && depth == 0 && o in old(files)
      ensures files == old(files) - {o} && inodes == old(inodes)[o := Unlinking(old(inodes)[o])]
      ensures lay == if old(inodes)[o].start == CLU_TAIL then old(lay) else Hang(old(lay), o)
      ensures OnlyNames(old(disk.dir), [old(files)[o]], None, disk.dir) && ClosedBy(UNLINK, Commit)
      ensures Now() == Removed(old(Now()), o)
      ensures outcomes == iset{old(AfterCrash(phase)), old(Now()), Now()}
    {
      hide PhaseOk, CrashImage, PhaseSafe, ContentsOf, AfterCrash, LogKept, LayoutOk, FilesOk, SegsOk, InodesOk,
           AllClaimed, Numbered, LagOk, WindowOk, Valid, Unnamed, OnlyNames, Quiet, Settled, Transaction;
      Expect(iset{AfterCrash(phase), Now(), Removed(Now(), o)});
      StartAlone(UNLINK, None);
      ghost var d := disk.dir;
      OnlyStarts(old(disk.dir), d);
      DeleteEntry(o);
      FirstGone(old(disk.dir), None, d, old(files)[o], disk.dir);
      RemovedIs(old(files), old(lay), lay, o);
      EndAlone(false);
    }

    // The table side of a truncation; `d` is the layout that is left.
    method FreeTail(o: nat, skip: nat, ghost d: Layout, ghost x: nat) returns (r: Result<Inode>, count: nat)
      requires Journaled() && Mapped() && Settled() && MayBatch(phase) && freeChunks == [] && !needMrc
      requires FilesOk(files, lay, disk.dir, {}) && trType == TRUNCATE_B && o in inodes && inodes[o].standing.Linked?
      requires inodes[o].cuts == NO_CUTS
      requires x !in lay.chains && (skip < |ChainOf(lay, o)| ==> d == CutDown(lay, o, skip, x))
      requires LogKept(files, lay, logName, logLen) && CutContents(Now(), o, skip) in outcomes
      modifies this`phase, this`dirty, this`freeChunks, this`needMrc, this`segments, this`cStart, this`cLast, this`numUsed,
               disk`fat, disk.log
      ensures Journaled() && freeChunks == [] && !needMrc
      ensures skip < |ChainOf(lay, o)| ==>
                && dirty && count > 0 && CutReached(o, skip, d)
                && r == Ok(Shortened(inodes[o], KeptEnd(ChainOf(lay, o), skip)))
      ensures skip >= |ChainOf(lay, o)| ==>
                && disk.fat == old(disk.fat) && phase == old(phase) && dirty == old(dirty) && numUsed == old(numUsed)
                && segments == old(segments) && cStart == old(cStart) && cLast == old(cLast) && count == 0
                && (r.Ok? <==> skip == |ChainOf(lay, o)|)
    {
      hide PhaseOk, CrashImage, PhaseSafe, ContentsOf, AfterCrash, LogKept, LayoutOk, FilesOk, SegsOk, InodesOk,
           AllClaimed, Numbered, LagOk, WindowOk, FreeImage, At, MayFree, WasFreed, Chain, CanFree, CutDown,
           Cutting, CanCut;
      ghost var m := disk.Cur();
      ghost var f := CutReady(m, files, lay, inodes, o, skip, x, segments, cStart, cLast, lLast);
      EndsValid(disk.fat, inodes, files, lay, o);
      if skip < |ChainOf(lay, o)| {
        CutKeepsLog(disk.fat, files, lay, o, skip, x, logName, logLen);
        CuttingSafe(m, files, lay, o, skip, x, inodes[o].pdir, inodes[o].entry, logName, logLen, outcomes);
      }
      r, count := DeallocClusters(inodes[o], skip, ChainOf(lay, o), f);
      if skip < |ChainOf(lay, o)| {
        CutAfter(m, files, lay, inodes, o, skip, x, f, count, disk.fat, segments, cStart, cLast, lLast, old(numUsed), numUsed, phase);
      }
    }

    ghost predicate CutReached(o: nat, skip: nat, d: Layout)
      reads this, disk`fat, disk`dir
    {
      && !phase.Open? && o in inodes
      && var k, p := Loc(inodes[o].pdir, inodes[o].entry), ChainOf(lay, o);
         && skip <= |p| && LayoutOk(disk.fat, d) && SegsOk(segments, cStart, cLast, lLast, d)
         && numUsed == VALID_CLU + |d.pos|
         && InodesOk(inodes[o := Shortened(inodes[o], KeptEnd(p, skip))], files, d) && AllClaimed(files, d)
         && FilesOk(files, d, disk.dir, if skip == 0 then {k} else {})
         && LagOk(if skip == 0 then {k} else {}, phase, disk.dir, files, d, Some(o))
         && d.order == lay.order && d.chains == lay.chains[o := p[..skip]]
    }

    /** Cuts a file behind its first `skip` clusters: what follows is freed, batch by
        batch, and no other chain changes. */
    method CutTail(o: nat, skip: nat) returns (ok: bool)
      requires Valid() && Settled() && phase.Open? && phase.recs == [] && lag == {}
      requires trType == TRUNCATE_B && trInode == Some(o) && o in inodes && inodes[o].standing.Linked?
      requires inodes[o].cuts == NO_CUTS && CutContents(Now(), o, skip) in outcomes
      modifies this`inodes, this`phase, this`dirty, this`freeChunks, this`needMrc, this`segments, this`cStart, this`cLast,
               this`numUsed, this`lay, this`lag, disk`fat, disk`dir, disk.log
      ensures Valid() && Settled() && lag == {}
      ensures ok <==> skip <= |ChainOf(old(lay), o)|
      ensures trType == old(trType) && (skip < |ChainOf(old(lay), o)| ==> dirty)
      ensures CutTo(old(lay), lay, old(inodes), inodes, o, skip)
    {
      hide PhaseOk, CrashImage, PhaseSafe, ContentsOf, AfterCrash, LogKept, LayoutOk, FilesOk, SegsOk, InodesOk,
           AllClaimed, Numbered, LagOk, WindowOk, CutDown, CutContents, Shortened, MayWriteFat, Journaled;
      EndsValid(disk.fat, inodes, files, lay, o);
      ghost var k := Loc(inodes[o].pdir, inodes[o].entry);
      ghost var x := FreshName(lay);
      ghost var d := if skip < |ChainOf(lay, o)| then CutDown(lay, o, skip, x) else lay;
      NoWindow();
      var r, count := FreeTail(o, skip, d, x);
      ok := r.Ok?;
      if count > 0 {
        LogStays(files, lay, files, d, logName, logLen);
        Shorten(o, r.value, d, if skip == 0 then {k} else {});
      }
    }

    // The inode ends where its chain ends now, and so does its slot.
    method Shorten(o: nat, i: Inode, ghost d: Layout, ghost more: set<Loc>)
      requires Journaled() && trType == TRUNCATE_B && trInode == Some(o) && o in inodes && !phase.Open? && dirty
      requires LayoutOk(disk.fat, d) && SegsOk(segments, cStart, cLast, lLast, d) && numUsed == VALID_CLU + |d.pos|
      requires InodesOk(inodes[o := i], files, d) && AllClaimed(files, d) && LogKept(files, d, logName, logLen)
      requires FilesOk(files, d, disk.dir, more) && LagOk(more, phase, disk.dir, files, d, Some(o))
      requires Distinct(preAlloc) && allocIndex == |preAlloc| && freeChunks == [] && !needMrc && searchPtr >= VALID_CLU
      modifies this`inodes, this`lay, this`lag, disk`dir
      ensures Valid() && Settled() && lag == {} && lay == d && inodes == old(inodes)[o := i]
    {
      hide PhaseOk, CrashImage, PhaseSafe, ContentsOf, AfterCrash, LogKept, LayoutOk, FilesOk, SegsOk, InodesOk,
           AllClaimed, Numbered, LagOk, WindowOk, MayWriteFat, Journaled;
      inodes := inodes[o := i];
      lay := d;
      lag := more;
      MetaCommit();
      NothingLags(phase, disk.dir, files, lay, trInode);
      WindowUsedUp(preAlloc, disk.fat, phase, trType, trInode, inodes);
    }

    // ----- looking up

    /** The block of a file's data with that index: its cluster and its place there. The
        inode remembers the cluster. `size` is the file's size in bytes. */
    method Bmap(o: nat, index: nat, size: nat, block: nat, bpc: nat) returns (r: Result<(nat, nat)>)
      requires o in inodes && Valid() && CoveredBy(size, block, bpc, |ChainOf(lay, o)|)
      modifies this`inodes
      ensures BlockIs(ChainOf(lay, o), index, size, block, bpc, r)
      ensures o in inodes && o in old(inodes) && inodes == old(inodes)[o := old(inodes)[o].(cuts := inodes[o].cuts)]
      ensures RemembersBlock(inodes[o].cuts, index, bpc, r) && (r.Err? ==> inodes == old(inodes))
      ensures Valid()
    {
      hide PhaseOk, CrashImage, PhaseSafe, ContentsOf, AfterCrash, LogKept, LayoutOk, FilesOk, SegsOk, InodesOk,
           AllClaimed, Numbered, LagOk, WindowOk, Cover;
      InodeChain(disk.fat, inodes, files, lay, o);
      var cuts;
      r, cuts := FindBlock(disk.fat, inodes[o].start, inodes[o].cuts, index, size, block, bpc, ChainOf(lay, o));
      Recut(o, cuts);
    }

    /** Builds the fast-seek points of a file: `FindPoints` says when it fails. */
    method BuildFastSeek(o: nat, asked: nat, size: nat, clusterSize: nat) returns (r: Result<()>)
      requires clusterSize > 0 && Cover(size, clusterSize) <= |ChainOf(lay, o)|
      requires o in inodes && Valid()
      modifies this`inodes
      ensures o in inodes && o in old(inodes) && inodes == old(inodes)[o := old(inodes)[o].(cuts := inodes[o].cuts)]
      ensures var interval, clusters, p := IntervalFor(asked), Cover(size, clusterSize), ChainOf(lay, o);
              if inodes[o].standing.Unlinked? || size == 0 || interval >= clusters then r == Ok(()) && inodes == old(inodes)
              else if interval > 1 && Cover(|p|, interval) == Cover(clusters, interval) then
                r == Ok(()) && inodes[o].cuts.fastSeek == Some(FastSeek(interval, Points(p, interval)))
              else r == Err(EIO) && inodes == old(inodes)
      ensures Valid()
    {
      hide PhaseOk, CrashImage, PhaseSafe, ContentsOf, AfterCrash, LogKept, LayoutOk, FilesOk, SegsOk, InodesOk,
           AllClaimed, Numbered, LagOk, WindowOk, Cover;
      InodeChain(disk.fat, inodes, files, lay, o);
      var cuts, was := inodes[o].cuts, inodes;
      r, cuts := FindPoints(disk.fat, inodes[o].start, inodes[o].cuts, asked, size, clusterSize, inodes[o].standing.Unlinked?,
                            ChainOf(lay, o));
      Recut(o, cuts);
      assert cuts == was[o].cuts ==> inodes == was;
    }

    method Recut(o: nat, cuts: ShortCuts)
      requires Valid() && o in inodes && CutsOk(cuts, ChainOf(lay, o))
      modifies this`inodes
      ensures Valid() && inodes == old(inodes)[o := old(inodes)[o].(cuts := cuts)]
    {
      hide PhaseOk, CrashImage, PhaseSafe, ContentsOf, AfterCrash, LogKept, LayoutOk, FilesOk, SegsOk, InodesOk,
           AllClaimed, Numbered, LagOk, WindowOk;
      InodesRecut(inodes, files, lay, o, cuts);
      WindowRecut(preAlloc, allocIndex, disk.fat, phase, trType, trInode, inodes, o, cuts);
      inodes := inodes[o := inodes[o].(cuts := cuts)];
    }

    // ----- truncating and deleting

    /** Truncate: a file with a name is cut behind its first `skip` clusters, and a
        crash at any moment gives back the file as it was or the file cut. */
    method Truncate(o: nat, skip: nat) returns (ok: bool)
      requires Valid() && Settled() && depth == 0 && (trType == NONE || trType == WRITE) && o in inodes
      modifies this, disk, disk.log
      ensures Valid() && Settled() && Quiet() && depth == 0 && files == old(files)
      ensures if old(inodes)[o].standing.Linked? then
                CutTo(old(lay), lay, old(inodes), inodes, o, skip) && (ok <==> skip <= |ChainOf(old(lay), o)|)
              else !ok && lay == old(lay) && inodes == old(inodes)
                   && disk.log.hist == Started(old(disk.log.hist), old(trType))
      ensures Now() == if old(inodes)[o].standing.Linked? then CutContents(old(Now()), o, skip) else old(Now())
      ensures old(inodes)[o].standing.Linked? && skip < |ChainOf(old(lay), o)| ==> ClosedBy(TRUNCATE_B, Commit)
      ensures outcomes == iset{old(AfterCrash(phase)), old(Now()), CutContents(old(Now()), o, skip)}
    {
      hide PhaseOk, CrashImage, PhaseSafe, ContentsOf, AfterCrash, LogKept, LayoutOk, FilesOk, SegsOk, InodesOk,
           AllClaimed, Numbered, LagOk, WindowOk, CutTo, Valid;
      Expect(iset{AfterCrash(phase), Now(), CutContents(Now(), o, skip)});
      StartAlone(TRUNCATE_B, Some(o));
      if !inodes[o].standing.Linked? {
        EndAlone(true);
        return false;
      }
      ok := TruncateLinked(o, skip);
    }

    // The fast-seek points go before anything is freed. The hint goes with them here: the
    // source forgets it last, and nothing is looked up in between.
    method TruncateLinked(o: nat, skip: nat) returns (ok: bool)
      requires Valid() && Settled() && phase.Open? && phase.recs == [] && lag == {} && depth == 1
      requires trType == TRUNCATE_B && trInode == Some(o) && o in inodes && inodes[o].standing.Linked?
      requires CutContents(Now(), o, skip) in outcomes
      modifies this`inodes, this`phase, this`dirty, this`freeChunks, this`needMrc, this`segments, this`cStart, this`cLast,
               this`numUsed, this`lay, this`lag, this`depth, this`searchPtr, this`preAlloc, this`allocIndex,
               this`trType, this`trInode, disk`fat, disk`dir, disk.log
      ensures Valid() && Settled() && Quiet() && depth == 0
      ensures CutTo(old(lay), lay, old(inodes), inodes, o, skip) && (ok <==> skip <= |ChainOf(old(lay), o)|)
      ensures skip < |ChainOf(old(lay), o)| ==> ClosedBy(TRUNCATE_B, Commit)
      ensures Now() == CutContents(old(Now()), o, skip)
    {
      hide PhaseOk, CrashImage, PhaseSafe, ContentsOf, AfterCrash, LogKept, LayoutOk, FilesOk, SegsOk, InodesOk,
           AllClaimed, Numbered, LagOk, WindowOk, CutTo, Valid;
      NamedIf(o);
      Recut(o, NO_CUTS);
      ghost var was := inodes;
      ok := CutTail(o, skip);
      CutFrom(old(lay), lay, old(inodes), was, inodes, o, skip);
      CutIs(files, old(lay), lay, old(inodes), inodes, o, skip);
      EndAlone(!ok);
    }

    // The table side of deleting an inode.
    method FreeChainOf(i: Inode, ghost o: nat)
      requires Journaled() && Mapped() && Settled() && MayBatch(phase) && freeChunks == [] && !needMrc
      requires FilesOk(files, lay, disk.dir, {}) && trType == DEL_INODE && i.standing.Unlinked?
      requires LogKept(files, lay, logName, logLen) && Expected()
      requires o !in inodes && o !in files && o in lay.chains && o != LOG_INO
      requires if lay.chains[o] == [] then i.start == CLU_TAIL
               else i.start == lay.chains[o][0] && i.last == LastOf(lay, o) && o in lay.order
      modifies this`phase, this`dirty, this`freeChunks, this`needMrc, this`segments, this`cStart, this`cLast,
               this`numUsed, this`lay, disk`fat, disk.log
      ensures Journaled() && Mapped() && Settled() && freeChunks == [] && !needMrc && lay == WithoutFile(old(lay), o)
      ensures FilesOk(files, lay, disk.dir, {})
      ensures if old(lay).chains[o] == [] then phase == old(phase) && dirty == old(dirty) else !phase.Open? && dirty
    {
      hide PhaseOk, CrashImage, PhaseSafe, ContentsOf, AfterCrash, LogKept, LayoutOk, FilesOk, SegsOk, InodesOk,
           AllClaimed, Numbered, LagOk, WindowOk, FreeImage, At, FreeingSafe, MayFree, WasFreed, Chain, CanFree,
           Deleting, WithoutFile;
      ghost var l, m := lay, disk.Cur();
      ghost var f := OrphanReady(m, files, l, i, o, segments, cStart, cLast, lLast);
      if l.chains[o] != [] {
        DeletingSafe(m, files, l, o, i.pdir, i.entry, logName, logLen, outcomes);
      }
      var r, count := DeallocClusters(i, 0, l.chains[o], f);
      OrphanAfter(m, files, l, i, o, f, count, disk.fat, segments, cStart, cLast, lLast, old(numUsed), numUsed, phase, inodes);
      lay := WithoutFile(l, o);
    }

    // Frees the orphan of an inode that nobody uses any more.
    method FreeOrphan(i: Inode, ghost o: nat)
      requires Valid() && Settled() && Expected() && phase.Open? && phase.recs == [] && lag == {} && trType == DEL_INODE
      requires i.standing.Unlinked? && o !in inodes && o !in files && o in lay.chains && o != LOG_INO
      requires if lay.chains[o] == [] then i.start == CLU_TAIL
               else i.start == lay.chains[o][0] && i.last == LastOf(lay, o) && o in lay.order
      modifies this`phase, this`dirty, this`freeChunks, this`needMrc, this`segments, this`cStart, this`cLast,
               this`numUsed, this`lay, disk`fat, disk.log
      ensures old(lay).chains[o] != [] ==> dirty
      ensures Valid() && Settled() && lay == WithoutFile(old(lay), o) && Now() == old(Now())
    {
      hide PhaseOk, CrashImage, PhaseSafe, ContentsOf, AfterCrash, LogKept, LayoutOk, FilesOk, SegsOk, InodesOk,
           AllClaimed, Numbered, LagOk, WindowOk, WithoutFile;
      NoWindow();
      FreeChainOf(i, o);
      WithoutKeeps(files, old(lay), o, logName, logLen);
      NothingLags(phase, disk.dir, files, lay, trInode);
      WindowUsedUp(preAlloc, disk.fat, phase, trType, trInode, inodes);
    }

    /** The last user of an unlinked file is gone: its clusters are freed. */
    method DeleteInode(o: nat)
      requires Valid() && Settled() && depth == 0 && (trType == NONE || trType == WRITE)
      requires o in inodes && inodes[o].standing.Unlinked?
      modifies this, disk, disk.log
      ensures Valid() && Settled() && Quiet() && depth == 0
      ensures files == old(files) && inodes == old(inodes) - {o} && lay == WithoutFile(old(lay), o)
      ensures o in old(lay).chains && (old(lay).chains[o] != [] ==> ClosedBy(DEL_INODE, Commit))
      ensures Now() == old(Now()) && outcomes == iset{old(AfterCrash(phase)), Now()}
    {
      hide PhaseOk, CrashImage, PhaseSafe, ContentsOf, AfterCrash, LogKept, LayoutOk, FilesOk, SegsOk, InodesOk,
           AllClaimed, Numbered, LagOk, WindowOk, WithoutFile, Valid, MayWriteFat, Journaled, Quiet, Transaction,
           Settled, ClosedBy;
      Expect(iset{AfterCrash(phase), Now()});
      StartAlone(DEL_INODE, Some(o));
      Discard(o);
      EndAlone(false);
    }

    method Discard(o: nat)
      requires Valid() && Settled() && Expected() && phase.Open? && phase.recs == [] && lag == {} && trType == DEL_INODE
      requires o in inodes && inodes[o].standing.Unlinked?
      modifies this`inodes, this`phase, this`dirty, this`freeChunks, this`needMrc, this`segments, this`cStart, this`cLast,
               this`numUsed, this`lay, disk`fat, disk.log
      ensures Valid() && Settled() && inodes == old(inodes) - {o} && lay == WithoutFile(old(lay), o) && Now() == old(Now())
      ensures o in old(lay).chains && (old(lay).chains[o] != [] ==> dirty)
    {
      hide PhaseOk, CrashImage, PhaseSafe, ContentsOf, AfterCrash, LogKept, LayoutOk, FilesOk, SegsOk, InodesOk,
           AllClaimed, Numbered, LagOk, WindowOk, WithoutFile, Valid, Settled;
      var i := Evict(o);
      FreeOrphan(i, o);
    }

    // The inode leaves the table of inodes.
    method Evict(o: nat) returns (i: Inode)
      requires Valid() && Settled() && phase.Open? && trType == DEL_INODE && o in inodes && inodes[o].standing.Unlinked?
      modifies this`inodes
      ensures Valid() && i == old(inodes)[o] && inodes == old(inodes) - {o}
      ensures o !in files && o in lay.chains && o != LOG_INO
      ensures if lay.chains[o] == [] then i.start == CLU_TAIL
              else i.start == lay.chains[o][0] && i.last == LastOf(lay, o) && o in lay.order
    {
      hide PhaseOk, CrashImage, PhaseSafe, ContentsOf, AfterCrash, LogKept, LayoutOk, FilesOk, SegsOk, InodesOk,
           AllClaimed, Numbered, LagOk, WindowOk;
      i := inodes[o];
      OrphanEnds(disk.fat, files, lay, inodes, o);
      NoWindow();
      inodes := inodes - {o};
      WindowUsedUp(preAlloc, disk.fat, phase, trType, trInode, inodes);
    }

    // Writes to a file's deferred transaction end when somebody asks for it.
    method ForceCommit(who: Option<nat>)
      requires Valid() && Settled()
      modifies this`searchPtr, this`preAlloc, this`allocIndex, this`lag, this`phase, this`dirty, this`trType, this`trInode,
               this`outcomes, disk`dir, disk.log
      ensures Valid() && outcomes == iset{old(AfterCrash(phase)), Now()}
      ensures if old(trType) == WRITE && (who.None? || who == old(trInode)) then Quiet() && ClosedBy(WRITE, Commit)
              else Transaction() == old(Transaction())
    {
      hide PhaseOk, CrashImage, PhaseSafe, ContentsOf, AfterCrash, LogKept, LayoutOk, FilesOk, SegsOk, InodesOk,
           AllClaimed, Numbered, LagOk, WindowOk, Valid;
      Expect(iset{AfterCrash(phase), Now()});
      if who.Some? && who != trInode {
        return;
      }
      CommitDeferred(who);
    }

    /** Gives a file `n` more clusters by writing to it, one after the other. It stops
        early only when the volume is full, which is when there were fewer than `n`. A
        crash gives back what was committed before, or the file with some of them. */
    method Lengthen(o: nat, n: nat) returns (r: Result<bool>)
      requires Valid() && Settled() && depth == 0 && (trType == NONE || trType == WRITE)
      requires o in inodes && !inodes[o].standing.Unborn?
      modifies this, disk, disk.log
      ensures Valid() && Settled() && depth == 0 && (trType == NONE || trType == WRITE)
      ensures files == old(files) && Longer(old(lay), lay, o) && LongerContents(old(Now()), Now(), o)
      ensures r.Ok? <==> n <= FreeClusters(old(disk.fat))
      ensures r.Ok? ==> |ChainOf(lay, o)| == |ChainOf(old(lay), o)| + n
      ensures r.Err? ==> r.error == ENOSPC && AllFree(disk.fat, [])
      ensures r.Ok? && n > 0 ==> trType == WRITE && trInode == Some(o)
      ensures r.Err? ==> trType == NONE
      ensures outcomes == iset c | c == old(AfterCrash(phase)) || LongerContents(old(Now()), c, o)
      ensures trType == NONE ==> AfterCrash(phase) == Now()
    {
      hide PhaseOk, CrashImage, PhaseSafe, ContentsOf, AfterCrash, LogKept, LayoutOk, FilesOk, SegsOk, InodesOk,
           AllClaimed, Numbered, LagOk, WindowOk, Longer, Valid, FreeClusters;
      Expect(iset c | c == AfterCrash(phase) || LongerContents(Now(), c, o));
      LongerNothing(Now(), o);
      LogStart(WRITE, Some(o));
      r := AllocClusters(o, n);
      LongerIs(files, old(lay), lay, o);
      LogEnd(r.Err?);
      Durable();
    }

    /** Truncating a file forward compares the clusters it takes with those that are free
        before it allocates the first one. A file without a name is left alone. */
    method TruncateForward(o: nat, n: nat) returns (r: Result<bool>)
      requires Valid() && Settled() && depth == 0 && (trType == NONE || trType == WRITE)
      requires o in inodes && !inodes[o].standing.Unborn?
      modifies this, disk, disk.log
      ensures Valid() && Settled() && Quiet() && depth == 0 && files == old(files)
      ensures var linked, enough := old(inodes)[o].standing.Linked?, n <= FreeClusters(old(disk.fat));
              if linked && enough then
                && r == Ok(true) && Longer(old(lay), lay, o) && |ChainOf(lay, o)| == |ChainOf(old(lay), o)| + n
                && LongerContents(old(Now()), Now(), o) && (n > 0 ==> ClosedBy(TRUNCATE_F, Commit))
              else r == (if linked then Err(ENOSPC) else Ok(false)) && lay == old(lay) && inodes == old(inodes)
                   && disk.log.hist == Started(old(disk.log.hist), old(trType))
      ensures r == Ok(true) ==> o in inodes && inodes[o].cuts == InvalidHint(inodes[o].cuts)
      ensures outcomes == iset c | c == old(AfterCrash(phase)) || LongerContents(old(Now()), c, o)
    {
      hide PhaseOk, CrashImage, PhaseSafe, ContentsOf, AfterCrash, LogKept, LayoutOk, FilesOk, SegsOk, InodesOk,
           AllClaimed, Numbered, LagOk, WindowOk, Longer, Valid, FreeClusters, ClosedBy, Quiet, Settled, Transaction;
      Expect(iset c | c == AfterCrash(phase) || LongerContents(Now(), c, o));
      LongerNothing(Now(), o);
      StartAlone(TRUNCATE_F, Some(o));
      if !inodes[o].standing.Linked? {
        EndAlone(true);
        return Ok(false);
      }
      FreeNow();
      if n > 0 && n > |disk.fat| - numUsed {
        EndAlone(true);
        return Err(ENOSPC);
      }
      r := ExtendFile(o, n);
    }

    // The clusters are there to be had: every allocation succeeds.
    method ExtendFile(o: nat, n: nat) returns (r: Result<bool>)
      requires Valid() && Settled() && trType == TRUNCATE_F && trInode == Some(o) && o in inodes && depth == 1
      requires !inodes[o].standing.Unborn? && n <= FreeClusters(disk.fat)
      requires forall c :: LongerContents(Now(), c, o) ==> c in outcomes
      modifies this`inodes, this`numUsed, this`lay, this`lag, this`segments, this`cStart, this`cLast, this`phase,
               this`dirty, this`trType, this`trInode, this`searchPtr, this`preAlloc, this`allocIndex, this`depth,
               disk`fat, disk`dir, disk.log
      ensures Valid() && Settled() && Quiet() && depth == 0 && r == Ok(true)
      ensures n > 0 ==> ClosedBy(TRUNCATE_F, Commit)
      ensures o in inodes && inodes[o].cuts == InvalidHint(inodes[o].cuts)
      ensures Longer(old(lay), lay, o) && |ChainOf(lay, o)| == |ChainOf(old(lay), o)| + n && LongerContents(old(Now()), Now(), o)
    {
      hide PhaseOk, CrashImage, PhaseSafe, ContentsOf, AfterCrash, LogKept, LayoutOk, FilesOk, SegsOk, InodesOk,
           AllClaimed, Numbered, LagOk, WindowOk, Longer, Valid, FreeClusters;
      r := AllocClusters(o, n);
      LongerIs(files, old(lay), lay, o);
      ForgetHint(o);
      EndAlone(false);
    }

    method ForgetHint(o: nat)
      requires Valid() && o in inodes
      modifies this`inodes
      ensures Valid() && o in inodes && o in old(inodes)
      ensures inodes == old(inodes)[o := old(inodes)[o].(cuts := InvalidHint(old(inodes)[o].cuts))]
    {
      hide PhaseOk, CrashImage, PhaseSafe, ContentsOf, AfterCrash, LogKept, LayoutOk, FilesOk, SegsOk, InodesOk,
           AllClaimed, Numbered, LagOk, WindowOk;
      InodeChain(disk.fat, inodes, files, lay, o);
      Recut(o, InvalidHint(inodes[o].cuts));
    }

    lemma FreeNow()
      requires Valid()
      ensures FreeClusters(disk.fat) == |disk.fat| - numUsed
    {
      FreeCount(disk.fat, lay);
    }

    method AllocClusters(o: nat, n: nat) returns (r: Result<bool>)
      requires Valid() && Settled() && PreAllocates(trType) && trInode == Some(o) && o in inodes
      requires !inodes[o].standing.Unborn? && forall c :: LongerContents(Now(), c, o) ==> c in outcomes
      modifies this`inodes, this`numUsed, this`lay, this`lag, this`segments, this`cStart, this`cLast, this`phase,
               this`dirty, this`trType, this`trInode, this`searchPtr, this`preAlloc, this`allocIndex,
               disk`fat, disk`dir, disk.log
      ensures Valid() && Settled() && trType == old(trType) && trInode == old(trInode) && o in inodes
      ensures Longer(old(lay), lay, o)
      ensures r == (if n <= FreeClusters(old(disk.fat)) then Ok(true) else Err(ENOSPC))
      ensures r.Ok? ==> |ChainOf(lay, o)| == |ChainOf(old(lay), o)| + n
      ensures r.Ok? && n > 0 ==> dirty
      ensures r.Err? ==> AllFree(disk.fat, [])
    {
      hide PhaseOk, CrashImage, PhaseSafe, ContentsOf, AfterCrash, LogKept, LayoutOk, FilesOk, SegsOk, InodesOk,
           AllClaimed, Numbered, LagOk, WindowOk, Longer, FreeClusters;
      LinkedOrNot(disk.fat, files, lay, inodes, o);
      LongerSame(lay, o);
      var i := 0;
      while i < n
        invariant 0 <= i <= n && Valid() && Settled() && trType == old(trType) && trInode == old(trInode)
        invariant o in inodes && !inodes[o].standing.Unborn?
        invariant i > 0 ==> dirty
        invariant Longer(old(lay), lay, o) && |ChainOf(lay, o)| == |ChainOf(old(lay), o)| + i
        invariant FreeClusters(disk.fat) + i == FreeClusters(old(disk.fat))
      {
        ghost var l, s := lay, inodes[o].standing;
        LinkedOrNot(disk.fat, files, lay, inodes, o);
        LongerIs(files, old(lay), lay, o);
        var c := AllocCluster(o);
        if c.Err? {
          return Err(ENOSPC);
        }
        LongerGrow(old(lay), l, o, c.value, s);
        i := i + 1;
      }
      r := Ok(true);
    }

    // A new inode, with no chain and no name.
    method NewInode(o: nat)
      requires Valid() && Settled() && phase.Open? && !Syncs(trType) && o !in lay.chains
      modifies this`inodes, this`lay
      ensures Valid() && Settled() && lay == WithEmpty(old(lay), o)
      ensures o !in old(inodes) && inodes == old(inodes)[o := UNBORN] && Now() == old(Now())
    {
      hide PhaseOk, CrashImage, PhaseSafe, ContentsOf, AfterCrash, LogKept, LayoutOk, FilesOk, SegsOk, InodesOk,
           AllClaimed, Numbered, LagOk, WindowOk;
      EmptyOk(disk.fat, disk.dir, files, lay, inodes, o, segments, cStart, cLast, lLast);
      EmptyKeeps(files, lay, o, logName, logLen);
      NoWindow();
      inodes := inodes[o := UNBORN];
      lay := WithEmpty(lay, o);
      NothingLags(phase, disk.dir, files, lay, trInode);
      WindowUsedUp(preAlloc, disk.fat, phase, trType, trInode, inodes);
    }

    // It is dropped again when there is no cluster for it.
    method DropInode(o: nat)
      requires Valid() && Settled() && phase.Open? && !Syncs(trType) && o in inodes && inodes[o].standing.Unborn?
      requires inodes[o].start == CLU_TAIL
      modifies this`inodes, this`lay
      ensures Valid() && Settled() && lay == Forget(old(lay), o) && inodes == old(inodes) - {o} && Now() == old(Now())
    {
      hide PhaseOk, CrashImage, PhaseSafe, ContentsOf, AfterCrash, LogKept, LayoutOk, FilesOk, SegsOk, InodesOk,
           AllClaimed, Numbered, LagOk, WindowOk;
      DropOkay(disk.fat, disk.dir, files, lay, inodes, o, segments, cStart, cLast, lLast);
      EndsValid(disk.fat, inodes, files, lay, o);
      ForgetKeeps(files, lay, o, logName, logLen);
      NoWindow();
      inodes := inodes - {o};
      lay := Forget(lay, o);
      NothingLags(phase, disk.dir, files, lay, trInode);
      WindowUsedUp(preAlloc, disk.fat, phase, trType, trInode, inodes);
    }

    // The name is built in free slots, with the start cluster of what it names.
    method NameInode(o: nat, n: Name, slots: seq<Slot>)
      requires Valid() && SettledBut(o) && phase.Open? && !Syncs(trType) && trType != NONE && o in inodes
      requires inodes[o].standing.Unborn? && |phase.recs| < MAX_OPEN
      requires WellNamed(n) && forall l :: Takes(n, l) ==> l in disk.dir && IsFree(disk.dir[l])
      requires |slots| == n.num && forall i :: 0 <= i < |slots| ==> !IsFree(slots[i])
      requires NoRemoval(phase)
      modifies this`inodes, this`files, this`phase, this`dirty, disk`dir, disk.log
      ensures Valid() && Settled() && files == old(files)[o := n] && inodes == old(inodes)[o := Linking(old(inodes)[o], n)]
      ensures dirty && HoldsName(disk.dir, n, WithStart(slots, FirstWord(lay, o)))
      ensures OnlyNames(old(disk.dir), [], Some(n), disk.dir)
    {
      hide PhaseOk, CrashImage, PhaseSafe, ContentsOf, AfterCrash, LogKept, LayoutOk, FilesOk, SegsOk, InodesOk,
           AllClaimed, Numbered, LagOk, WindowOk, NameBuilt, MayWriteFat, Journaled, Takes, NoRemoval, HoldsName, OnlyNames;
      BirthOk(disk.fat, files, lay, inodes, o, n);
      NoWindow();
      EndsValid(disk.fat, inodes, files, lay, o);
      LogStays(files, lay, files[o := n], lay, logName, logLen);
      BuildName(o, n, slots);
      inodes := inodes[o := Linking(inodes[o], n)];
      NothingLags(phase, disk.dir, files, lay, trInode);
      WindowUsedUp(preAlloc, disk.fat, phase, trType, trInode, inodes);
    }

    method BuildName(o: nat, n: Name, slots: seq<Slot>)
      requires Journaled() && phase.Open? && |phase.recs| < MAX_OPEN && FilesOk(files, lay, disk.dir, {})
      requires o in inodes && o !in files && o in lay.chains && o !in lay.order
      requires StartWord(inodes[o].start) == FirstWord(lay, o)
      requires WellNamed(n) && forall l :: Takes(n, l) ==> l in disk.dir && IsFree(disk.dir[l])
      requires |slots| == n.num && forall i :: 0 <= i < |slots| ==> !IsFree(slots[i])
      requires NoRemoval(phase)
      modifies this`files, this`phase, this`dirty, disk`dir, disk.log
      ensures Journaled() && dirty && FilesOk(files, lay, disk.dir, {}) && files == old(files)[o := n]
      ensures HoldsName(disk.dir, n, WithStart(slots, FirstWord(lay, o)))
      ensures OnlyNames(old(disk.dir), [], Some(n), disk.dir)
      ensures phase.Open? && old(phase).Open? && |phase.recs| == |old(phase).recs| + 1
    {
      hide PhaseOk, CrashImage, PhaseSafe, ContentsOf, AfterCrash, LogKept, FilesOk, Numbered, NameBuilt, HoldsName, OnlyNames;
      ghost var d := disk.dir;
      ghost var r := BuildEntry(n, WithStart(slots, StartWord(inodes[o].start)));
      FilesAdd(files, lay, d, {}, o, n, disk.dir);
      OnlyBuilt(d, n, FirstWord(lay, o), disk.dir);
      files := files[o := n];
    }

    /** Creates a file, or a directory with one cluster, under a name whose slots are free. */
    method Create(o: nat, n: Name, slots: seq<Slot>, isDir: bool) returns (r: Result<bool>)
      requires Valid() && Settled() && depth == 0 && (trType == NONE || trType == WRITE) && o !in lay.chains
      requires WellNamed(n) && forall l :: Takes(n, l) ==> l in disk.dir && IsFree(disk.dir[l])
      requires |slots| == n.num && forall i :: 0 <= i < |slots| ==> !IsFree(slots[i])
      modifies this, disk, disk.log
      ensures Valid() && Settled() && Quiet() && depth == 0
      ensures r.Ok? ==>
                files == old(files)[o := n] && Born(old(lay), lay, o, isDir) && BornContents(old(Now()), Now(), o, n, isDir)
      ensures r.Ok? ==> HoldsName(disk.dir, n, WithStart(slots, FirstWord(lay, o))) && ClosedBy(CREATE, Commit)
      ensures OnlyNames(old(disk.dir), [], if r.Ok? then Some(n) else None, disk.dir)
      ensures r.Err? ==> r.error == ENOSPC && isDir && files == old(files) && AllFree(disk.fat, []) && Now() == old(Now())
                         && inodes == old(inodes) && o !in lay.chains
      ensures outcomes == iset c | c == old(AfterCrash(phase)) || c == old(Now()) || BornContents(old(Now()), c, o, n, isDir)
    {
      hide PhaseOk, CrashImage, PhaseSafe, ContentsOf, AfterCrash, LogKept, LayoutOk, FilesOk, SegsOk, InodesOk,
           AllClaimed, Numbered, LagOk, WindowOk, Born, SameButStart, Valid, HoldsName, OnlyNames, BornContents,
           WithStart, Quiet, Settled, Transaction, AllFree, ClosedBy, Started;
      Expect(iset c | c == AfterCrash(phase) || c == Now() || BornContents(Now(), c, o, n, isDir));
      StartAlone(CREATE, None);
      ghost var d := disk.dir;
      StayFree(old(disk.dir), d, n);
      OnlyStarts(old(disk.dir), d);
      r := CreateInode(o, n, slots, isDir);
      if r.Ok? {
        OnlyAfter(old(disk.dir), d, [], Some(n), disk.dir);
      }
      EndAlone(r.Err?);
    }

    method CreateInode(o: nat, n: Name, slots: seq<Slot>, isDir: bool) returns (r: Result<bool>)
      requires Valid() && Settled() && phase.Open? && phase.recs == [] && trType == CREATE && o !in lay.chains
      requires WellNamed(n) && forall l :: Takes(n, l) ==> l in disk.dir && IsFree(disk.dir[l])
      requires |slots| == n.num && forall i :: 0 <= i < |slots| ==> !IsFree(slots[i])
      modifies this`inodes, this`numUsed, this`lay, this`lag, this`segments, this`cStart, this`cLast, this`phase,
               this`dirty, this`trType, this`trInode, this`searchPtr, this`preAlloc, this`allocIndex, this`files,
               disk`fat, disk`dir, disk.log
      ensures Valid() && Settled() && trType == CREATE
      ensures r.Ok? ==>
                files == old(files)[o := n] && Born(old(lay), lay, o, isDir) && BornContents(old(Now()), Now(), o, n, isDir)
      ensures r.Ok? ==> dirty && HoldsName(disk.dir, n, WithStart(slots, FirstWord(lay, o)))
      ensures if r.Ok? then OnlyNames(old(disk.dir), [], Some(n), disk.dir) else disk.dir == old(disk.dir)
      ensures r.Err? ==> r.error == ENOSPC && isDir && files == old(files) && AllFree(disk.fat, []) && Now() == old(Now())
                         && inodes == old(inodes) && o !in lay.chains
    {
      hide PhaseOk, CrashImage, PhaseSafe, ContentsOf, AfterCrash, LogKept, LayoutOk, FilesOk, SegsOk, InodesOk,
           AllClaimed, Numbered, LagOk, WindowOk, HoldsName, OnlyNames;
      r := BearInode(o, isDir);
      if r.Ok? {
        NamedIf(o);
        NameInode(o, n, slots);
        BornIs(old(files), old(lay), lay, o, n, isDir);
      }
    }

    // A new directory gets its cluster before it gets its name.
    method BearInode(o: nat, isDir: bool) returns (r: Result<bool>)
      requires Valid() && Settled() && phase.Open? && phase.recs == [] && trType == CREATE && o !in lay.chains
      modifies this`inodes, this`numUsed, this`lay, this`lag, this`segments, this`cStart, this`cLast, this`phase,
               this`dirty, this`trType, this`trInode, this`searchPtr, this`preAlloc, this`allocIndex,
               disk`fat, disk`dir, disk.log
      ensures Valid() && trType == CREATE && disk.dir == old(disk.dir) && phase.Open?
      ensures r.Ok? ==>
                && SettledBut(o) && NoRemoval(phase) && |phase.recs| <= 1 && Born(old(lay), lay, o, isDir)
                && o in inodes && inodes[o].standing.Unborn?
      ensures r.Err? ==> r.error == ENOSPC && isDir && AllFree(disk.fat, []) && Settled() && Now() == old(Now())
                         && inodes == old(inodes) && o !in lay.chains
    {
      hide PhaseOk, CrashImage, PhaseSafe, ContentsOf, AfterCrash, LogKept, LayoutOk, FilesOk, SegsOk, InodesOk,
           Numbered, LagOk, WindowOk, Claimed, AllFree, Valid;
      NewInode(o);
      ghost var l := lay;
      BornNothing(old(lay), o);
      r := Ok(true);
      if isDir {
        r := BearCluster(o);
        if r.Ok? {
          BornGrown(old(lay), l, lay, o);
        }
      }
    }

    // The cluster of a new directory; the inode goes again when there is none.
    method BearCluster(o: nat) returns (r: Result<bool>)
      requires Valid() && Settled() && phase.Open? && phase.recs == [] && trType == CREATE
      requires o in lay.chains && o in inodes && inodes[o] == UNBORN
      modifies this`inodes, this`numUsed, this`lay, this`lag, this`segments, this`cStart, this`cLast, this`phase,
               this`dirty, this`trType, this`trInode, this`searchPtr, this`preAlloc, this`allocIndex,
               disk`fat, disk`dir, disk.log
      ensures Valid() && trType == CREATE && disk.dir == old(disk.dir) && phase.Open?
      ensures r.Ok? ==>
                && SettledBut(o) && NoRemoval(phase) && |phase.recs| <= 1
                && lay.order == old(lay).order && o in lay.chains
                && lay.chains == old(lay).chains[o := lay.chains[o]] && |lay.chains[o]| == |old(lay).chains[o]| + 1
                && o in inodes && inodes[o].standing.Unborn?
      ensures r.Err? ==> r.error == ENOSPC && AllFree(disk.fat, []) && Settled() && Now() == old(Now())
                         && inodes == old(inodes) - {o} && o !in lay.chains
    {
      hide PhaseOk, CrashImage, PhaseSafe, ContentsOf, AfterCrash, LogKept, LayoutOk, FilesOk, SegsOk, InodesOk,
           Numbered, LagOk, WindowOk, Claimed, AllFree, Valid, AllClaimed;
      var c := AllocCluster(o);
      if c.Err? {
        DropInode(o);
        return Err(ENOSPC);
      }
      r := Ok(true);
    }

    /** Gives a file another name: the new slots are built before the old ones go,
        so that a rollback never finds a slot it cannot bring back. */
    method MoveToDir(o: nat, n: Name, slots: seq<Slot>)
      requires Valid() && Settled() && phase.Open? && phase.recs == [] && trType == RENAME
      requires o in inodes && inodes[o].standing.Linked?
      requires WellNamed(n) && forall l :: Takes(n, l) ==> l in disk.dir && IsFree(disk.dir[l])
      requires |slots| == n.num && forall i :: 0 <= i < |slots| ==> !IsFree(slots[i])
      modifies this`inodes, this`files, this`phase, this`dirty, disk`dir, disk.log
      ensures Valid() && Settled() && phase.Open? && |phase.recs| == 2
      ensures dirty && o in old(files) && HoldsName(disk.dir, n, WithStart(slots, FirstWord(lay, o)))
      ensures OnlyNames(old(disk.dir), [old(files)[o]], Some(n), disk.dir)
      ensures files == old(files)[o := n] && inodes == old(inodes)[o := Linking(old(inodes)[o], n)]
    {
      hide PhaseOk, CrashImage, PhaseSafe, ContentsOf, AfterCrash, LogKept, LayoutOk, FilesOk, SegsOk, InodesOk,
           AllClaimed, Numbered, LagOk, WindowOk, HoldsName, OnlyNames, Journaled, NoRemoval;
      NoWindow();
      RenameOk(disk.fat, disk.dir, files, lay, inodes, o, n);
      EndsValid(disk.fat, inodes, files, lay, o);
      LogStays(files, lay, files[o := n], lay, logName, logLen);
      Rebuild(o, n, slots);
      inodes := inodes[o := Linking(inodes[o], n)];
      NothingLags(phase, disk.dir, files, lay, trInode);
      WindowUsedUp(preAlloc, disk.fat, phase, trType, trInode, inodes);
    }

    method Rebuild(o: nat, n: Name, slots: seq<Slot>)
      requires Journaled() && phase.Open? && phase.recs == [] && FilesOk(files, lay, disk.dir, {})
      requires o in inodes && o in files && o in lay.chains && files[o] == NameOf(inodes[o])
      requires WellNamed(files[o]) && Live(disk.dir, files[o]) && Short(files[o]) in disk.dir
      requires disk.dir[Short(files[o])].start == FirstWord(lay, o)
      requires WellNamed(n) && forall l :: Takes(n, l) ==> l in disk.dir && IsFree(disk.dir[l])
      requires |slots| == n.num && forall i :: 0 <= i < |slots| ==> !IsFree(slots[i])
      modifies this`files, this`phase, this`dirty, disk`dir, disk.log
      ensures Journaled() && dirty && FilesOk(files, lay, disk.dir, {}) && files == old(files)[o := n]
      ensures phase.Open? && |phase.recs| == 2
      ensures HoldsName(disk.dir, n, WithStart(slots, FirstWord(lay, o)))
      ensures OnlyNames(old(disk.dir), [old(files)[o]], Some(n), disk.dir)
    {
      hide PhaseOk, CrashImage, PhaseSafe, ContentsOf, AfterCrash, LogKept, FilesOk, Numbered, NameBuilt, Unnamed,
           HoldsName, OnlyNames;
      var i := inodes[o];
      ghost var d0 := disk.dir;
      var start := disk.dir[Loc(i.pdir, i.entry)].start;
      ghost var r := BuildEntry(n, WithStart(slots, start));
      NewApart(d0, n, files[o], start, disk.dir);
      OnlyBuilt(d0, n, start, disk.dir);
      ghost var d1 := disk.dir;
      r := RemoveEntry(NameOf(i));
      HoldsStays(d1, n, WithStart(slots, start), NameOf(i), disk.dir);
      FirstGone(d0, Some(n), d1, NameOf(i), disk.dir);
      FilesRename(files, lay, d0, o, n, d1, disk.dir);
      files := files[o := n];
    }

    /** Rename, over a target or not. */
    method Rename(o: nat, n: Name, slots: seq<Slot>, target: Option<nat>)
      requires Valid() && Settled() && depth == 0 && (trType == NONE || trType == WRITE)
      requires o in inodes && inodes[o].standing.Linked?
      requires target.Some? ==> target.value != o && target.value in inodes && inodes[target.value].standing.Linked?
      requires WellNamed(n) && forall l :: Takes(n, l) ==> l in disk.dir && IsFree(disk.dir[l])
      requires |slots| == n.num && forall i :: 0 <= i < |slots| ==> !IsFree(slots[i])
      modifies this, disk, disk.log
      ensures Valid() && Settled() && Quiet() && depth == 0
      ensures target.None? ==> files == old(files)[o := n] && lay == old(lay)
      ensures target.Some? ==>
                && files == old(files)[o := n] - {target.value}
                && lay == (if old(inodes)[target.value].start == CLU_TAIL then old(lay) else Hang(old(lay), target.value))
      ensures o in old(files) && (target.Some? ==> target.value in old(files)) && ClosedBy(RENAME, Commit)
      ensures HoldsName(disk.dir, n, WithStart(slots, FirstWord(lay, o)))
      ensures OnlyNames(old(disk.dir), Parted(old(files), o, target), Some(n), disk.dir)
      ensures Now() == Renamed(old(Now()), o, n, target)
      ensures outcomes == iset{old(AfterCrash(phase)), old(Now()), Now()}
    {
      hide PhaseOk, CrashImage, PhaseSafe, ContentsOf, AfterCrash, LogKept, LayoutOk, FilesOk, SegsOk, InodesOk,
           AllClaimed, Numbered, LagOk, WindowOk, SameButStart, Valid, MayWriteFat, Quiet, Settled, Current, Framed,
           HoldsName, OnlyNames, Parted, Transaction, ClosedBy;
      Expect(iset{AfterCrash(phase), Now(), Renamed(Now(), o, n, target)});
      StartAlone(RENAME, Some(o));
      ghost var d := disk.dir;
      StayFree(old(disk.dir), d, n);
      MoveOver(o, n, slots, target);
      OnlyAfter(old(disk.dir), d, Parted(old(files), o, target), Some(n), disk.dir);
      EndAlone(false);
    }

    // Another file's name takes none of the slots of this one.
    lemma TargetApart(o: nat, t: nat, n: Name)
      requires Valid() && o != t && o in files && files[o] == n && t in files
      ensures Apart(n, files[t])
    {
      assert Distinctly(files, o, t);
    }

    // The new name, and the removal of the target.
    method MoveOver(o: nat, n: Name, slots: seq<Slot>, target: Option<nat>)
      requires Valid() && Settled() && phase.Open? && phase.recs == [] && trType == RENAME
      requires o in inodes && inodes[o].standing.Linked?
      requires target.Some? ==> target.value != o && target.value in inodes && inodes[target.value].standing.Linked?
      requires WellNamed(n) && forall l :: Takes(n, l) ==> l in disk.dir && IsFree(disk.dir[l])
      requires |slots| == n.num && forall i :: 0 <= i < |slots| ==> !IsFree(slots[i])
      modifies this`inodes, this`files, this`segments, this`cStart, this`cLast, this`lay, this`phase, this`dirty,
               disk`fat, disk`dir, disk.log
      ensures Valid() && Settled() && Now() == Renamed(old(Now()), o, n, target)
      ensures dirty && o in old(files) && (target.Some? ==> target.value in old(files))
      ensures HoldsName(disk.dir, n, WithStart(slots, FirstWord(lay, o)))
      ensures OnlyNames(old(disk.dir), Parted(old(files), o, target), Some(n), disk.dir)
      ensures target.None? ==> files == old(files)[o := n] && lay == old(lay)
      ensures target.Some? ==>
                && files == old(files)[o := n] - {target.value}
                && lay == (if old(inodes)[target.value].start == CLU_TAIL then old(lay) else Hang(old(lay), target.value))
    {
      hide PhaseOk, CrashImage, PhaseSafe, ContentsOf, AfterCrash, LogKept, LayoutOk, FilesOk, SegsOk, InodesOk,
           AllClaimed, Numbered, LagOk, WindowOk, Valid, Renamed, HoldsName, OnlyNames, Unnamed;
      NamedIf(o);
      if target.Some? {
        NamedIf(target.value);
      }
      MoveToDir(o, n, slots);
      if target.Some? {
        TargetApart(o, target.value, n);
        ghost var d := disk.dir;
        DeleteEntry(target.value);
        HoldsStays(d, n, WithStart(slots, FirstWord(lay, o)), old(files)[target.value], disk.dir);
        OnlyGone(old(disk.dir), [old(files)[o]], Some(n), d, old(files)[target.value], disk.dir);
      }
      RenamedIs(old(files), old(lay), lay, o, n, target, files);
    }

    // ----- crash and mount

    /** After a crash: nothing is in core, and the disk is one of those the phase of the last run allows. */
    ghost predicate Crashed()
      reads this, disk, disk.log
    {
      && Blank() && disk.log.Holds() && CrashImage(phase, disk.Cur())
      && (exists ty :: Replayable(phase, disk.log.hist, ty))
      && PhaseSafe(phase, logName, logLen, outcomes)
    }

    /** Power fails: what was in core is gone, and the disk holds one of the images
        the phase allows. */
    method PowerFails(m: Meta)
      requires Crashable() && CrashImage(phase, m)
      modifies this, disk`fat, disk`dir
      ensures Crashed() && phase == old(phase) && outcomes == old(outcomes) && disk.Cur() == m
    {
      hide Replayable, CrashImage, PhaseSafe, Numbered, RingOf;
      ghost var ty := trType;
      Blackout(m);
      assert Replayable(phase, disk.log.hist, ty);
    }

    method Blackout(m: Meta)
      modifies this, disk`fat, disk`dir
      ensures Blank() && phase == old(phase) && outcomes == old(outcomes) && disk.Cur() == m
    {
      disk.fat, disk.dir := m.fat, m.dir;
      ForgetCore();
    }

    method ForgetLists()
      modifies this`inodes, this`segments, this`cStart, this`cLast, this`preAlloc, this`allocIndex, this`freeChunks
      ensures inodes == map[] && segments == [] && cStart == CLU_TAIL && cLast == CLU_TAIL
      ensures preAlloc == [] && allocIndex == 0 && freeChunks == []
    {
      inodes, segments, cStart, cLast := map[], [], CLU_TAIL, CLU_TAIL;
      preAlloc, allocIndex, freeChunks := [], 0, [];
    }

    method ForgetCore()
      modifies this
      ensures Blank() && phase == old(phase) && outcomes == old(outcomes)
    {
      ForgetLists();
      searchPtr, depth, trType, trInode, dirty, needMrc := VALID_CLU, 0, NONE, None, false, false;
      lag := {};
    }

    // A mount changes nothing of what the crash has to give back.
    ghost method ExpectThis()
      requires Down()
      modifies this`outcomes
      ensures Down() && outcomes == iset{AfterCrash(phase)}
    {
      hide Replayable, CrashImage, AfterCrash, LogKept, Numbered;
      outcomes := iset{AfterCrash(phase)};
    }

    // After a crash that left the log open to be read again, or not.
    ghost predicate Down()
      reads this, disk, disk.log
    {
      if disk.log.Opens() then Crashed() else Blank() && disk.log.Ruined()
    }

    // Replays the log; what it gives back is the volume to go on with.
    method Recover() returns (r: Result<bool>)
      requires Down()
      modifies this`phase, this`files, this`lay, disk, disk.log
      ensures r == if old(disk.log.Opens()) then Ok(true) else Err(EIO)
      ensures r.Err? ==> disk.Cur() == old(disk.Cur()) && disk.log.Ruined()
      ensures r.Ok? ==>
                && Journaled() && phase.Open? && phase.recs == []
                && files == RecoveredFiles(phase) == RecoveredFiles(old(phase))
                && RecoveredLayout(phase) == RecoveredLayout(old(phase))
                && OrderOk(RecoveredLayout(phase)) && lay == Absorbed(RecoveredLayout(phase))
                && VolumeOk(files, lay, disk.Cur()) && VolumeOk(files, RecoveredLayout(phase), disk.Cur())
    {
      hide Replayable, CrashImage, PhaseSafe, LayoutOk, FilesOk, AllClaimed, Numbered, Recovered, RecoveredLayout,
           RecoveredFiles, InWindow, Absorbed, Closed, LogKept, ReachOf, Confines;
      ghost var ph, h, opens := phase, disk.log.hist, disk.log.Opens();
      ghost var ty := NONE;
      if opens {
        ty :| Replayable(ph, h, ty);
        CrashRecovers(ph, h, ty, disk.Cur());
        SafeSays(ph, logName, logLen, outcomes);
        PhaseInWindow(ph, h, ty);
        PhaseConfined(ph, h, ty);
      }
      disk.log.OpensOrNot();
      r := disk.Replay(ReachOf(ph));
      if r.Err? {
        return;
      }
      r := Ok(true);
      files := RecoveredFiles(ph);
      ghost var l := RecoveredLayout(ph);
      AbsorbedVolume(files, l, disk.Cur());
      lay := Absorbed(l);
      phase := Phase.Open(|disk.log.hist| - 1, disk.Cur(), [], [], files, l);
      ClosedPhase(ph, h, ty, disk.Cur(), files, l);
      OpenSafe(|disk.log.hist| - 1, disk.Cur(), files, l, logName, logLen, outcomes);
    }

    method CountUsedClusters()
      requires LayoutOk(disk.fat, lay)
      modifies this`numUsed
      ensures numUsed == VALID_CLU + |lay.pos|
    {
      hide LayoutOk;
      var count := VALID_CLU;
      var c := VALID_CLU;
      assert UsedBelow(disk.fat, VALID_CLU) == {};
      while c < |disk.fat|
        invariant VALID_CLU <= c <= |disk.fat| && count == VALID_CLU + |UsedBelow(disk.fat, c)|
      {
        UsedNext(disk.fat, c);
        if disk.fat[c] != CLU_FREE {
          count := count + 1;
        }
        c := c + 1;
      }
      UsedCount(disk.fat, lay);
      numUsed := count;
    }

    // The log file's inode, and the last cluster of its own.
    method OpenLog() returns (i: Inode, count: nat)
      requires var k := Short(logName);
               k in disk.dir && LogIn(lay, disk.fat, disk.dir[k].start, logLen)
      modifies this`lLast
      ensures i == Inode(logName.pdir, logName.entry, logName.num, lay.chains[LOG_INO][0], LastOf(lay, LOG_INO), Standing.Linked, NO_CUTS)
      ensures count == |lay.chains[LOG_INO]| && lLast == lay.chains[LOG_INO][logLen - 1]
    {
      hide Chain;
      var start := disk.dir[Short(logName)].start;
      var found := FindCluster(disk.fat, start, logLen - 1, true);
      assert found == Hop(lay.chains[LOG_INO], logLen - 1);
      lLast := found.value.0;
      var last := FindLastCluster(disk.fat, start, 0, 0);
      assert last == WalkResult(lay.chains[LOG_INO], 0, 0);
      i := Inode(logName.pdir, logName.entry, logName.num, start, last.value.last, Standing.Linked, NO_CUTS);
      count := last.value.count;
    }

    // The chain behind the log file is cut off it and freed, like the tail of any file.
    method TruncateLog(i: Inode, ghost x: nat)
      requires Journaled() && phase.Open? && phase.recs == [] && VolumeOk(files, lay, disk.Cur()) && freeChunks == [] && !needMrc
      requires LOG_INO in files && files[LOG_INO] == logName == NameOf(i) && i.standing.Linked? && x !in lay.chains
      requires lay.order == [] && LOG_INO in lay.chains && 0 < logLen < |lay.chains[LOG_INO]|
      requires i.start == lay.chains[LOG_INO][0] && i.last == LastOf(lay, LOG_INO)
      requires segments == [] && cStart == CLU_TAIL && cLast == CLU_TAIL && lLast == lay.chains[LOG_INO][logLen - 1]
      requires CutContents(Now(), LOG_INO, logLen) in outcomes
      modifies this`trType, this`trInode, this`dirty, this`phase, this`freeChunks, this`needMrc, this`segments, this`cStart,
               this`cLast, this`numUsed, this`lay, disk`fat, disk.log
      ensures Journaled() && phase.Open? && phase.recs == [] && VolumeOk(files, lay, disk.Cur()) && freeChunks == [] && !needMrc
      ensures trType == NONE && lay.order == [] && lay.chains == old(lay).chains[LOG_INO := old(lay).chains[LOG_INO][..logLen]]
      ensures SegsOk(segments, cStart, cLast, lLast, lay) && AfterCrash(phase) == Now()
    {
      hide PhaseOk, CrashImage, PhaseSafe, ContentsOf, AfterCrash, LayoutOk, FilesOk, SegsOk, AllClaimed, Numbered,
           FreeImage, At, FreeingSafe, MayFree, WasFreed, Chain, CanFree, CutDown, Cutting, LogKept;
      ghost var l, m := lay, disk.Cur();
      ghost var f := LogReady(m, files, l, i, logLen, x, segments, cStart, cLast, lLast);
      LogCutSafe(m, files, l, x, i.pdir, i.entry, logName, logLen, outcomes);
      LogStartNolock(TRUNCATE_B, None);
      var r, count := DeallocClusters(i, logLen, l.chains[LOG_INO], f);
      LogAfter(m, files, l, i, logLen, x, f, count, disk.fat, segments, cStart, cLast, lLast, old(numUsed), numUsed, phase);
      lay := CutDown(l, LOG_INO, logLen, x);
      LogCutIs(files, l, lay, logName, logLen);
      MarkEnd(Commit);
    }

    // Finds the log file and cuts off what hangs behind it.
    method MountLog()
      requires Journaled() && phase.Open? && phase.recs == [] && VolumeOk(files, lay, disk.Cur()) && freeChunks == [] && !needMrc
      requires LOG_INO in files && files[LOG_INO] == logName && lay.order == []
      requires LOG_INO in lay.chains && 0 < logLen <= |lay.chains[LOG_INO]|
      requires segments == [] && cStart == CLU_TAIL && cLast == CLU_TAIL && trType == NONE
      requires AfterCrash(phase) == CutContents(Now(), LOG_INO, logLen) && CutContents(Now(), LOG_INO, logLen) in outcomes
      modifies this`trType, this`trInode, this`dirty, this`phase, this`freeChunks, this`needMrc, this`segments, this`cStart,
               this`cLast, this`lLast, this`numUsed, this`lay, disk`fat, disk.log
      ensures Journaled() && phase.Open? && phase.recs == [] && VolumeOk(files, lay, disk.Cur()) && freeChunks == [] && !needMrc
      ensures trType == NONE && lay.order == [] && lay.chains == old(lay).chains[LOG_INO := old(lay).chains[LOG_INO][..logLen]]
      ensures SegsOk(segments, cStart, cLast, lLast, lay) && AfterCrash(phase) == Now() && LogKept(files, lay, logName, logLen)
    {
      hide PhaseOk, CrashImage, PhaseSafe, ContentsOf, AfterCrash, LayoutOk, FilesOk, SegsOk, AllClaimed, Numbered,
           LogKept;
      LogChain(disk.Cur(), files, lay, logLen, logName);
      var i, count := OpenLog();
      if logLen < count {
        ghost var x := FreshName(lay);
        TruncateLog(i, x);
      } else {
        ghost var p := lay.chains[LOG_INO];
        assert p[..logLen] == p;
        assert lay.chains[LOG_INO := p] == lay.chains;
        MountSegs(disk.fat, lay, logLen);
      }
      LogCutIs(files, old(lay), lay, logName, logLen);
    }

    /** Mount: the log is replayed, and what hung behind the log file is freed. Then
        every cluster in use belongs to a file with a name or to the log file, and the
        contents are those the crash had to give back. */
    method Mount() returns (r: Result<bool>)
      requires Down()
      modifies this, disk, disk.log
      ensures r == if old(disk.log.Opens()) then Ok(true) else Err(EIO)
      ensures r.Err? ==> disk.Cur() == old(disk.Cur()) && disk.log.Ruined()
      ensures r.Ok? ==>
                && Valid() && Settled() && Quiet() && depth == 0 && inodes == map[]
                && Now() == old(AfterCrash(phase)) && outcomes == iset{Now()}
                && files == RecoveredFiles(old(phase)) && NoOrphans(RecoveredLayout(old(phase)), lay)
    {
      hide Replayable, PhaseOk, CrashImage, PhaseSafe, ContentsOf, AfterCrash, LogKept, LayoutOk, FilesOk, SegsOk, OrderOk,
           AllClaimed, Numbered, RecoveredFiles, RecoveredLayout, NoOrphans, WindowOk, LagOk, InodesOk, Valid, Journaled,
           VolumeOk, Quiet, Settled;
      ExpectThis();
      r := MountTable();
      if r.Ok? {
        MountCounts();
      }
    }

    // The clusters in use are counted last.
    method MountCounts()
      requires Journaled() && phase.Open? && phase.recs == [] && VolumeOk(files, lay, disk.Cur()) && freeChunks == [] && !needMrc
      requires trType == NONE && OrderOk(lay) && SegsOk(segments, cStart, cLast, lLast, lay)
      requires inodes == map[] && preAlloc == [] && allocIndex == 0 && searchPtr >= VALID_CLU
      requires LogKept(files, lay, logName, logLen) && AfterCrash(phase) == Now()
      modifies this`numUsed, this`lag
      ensures Valid() && Settled() && Quiet()
    {
      hide PhaseOk, CrashImage, PhaseSafe, ContentsOf, AfterCrash, LogKept, LayoutOk, FilesOk, SegsOk, AllClaimed,
           Numbered, WindowOk, LagOk, InodesOk, Valid;
      CountUsedClusters();
      lag := {};
      Mounted();
    }

    // The table, the names and the pool, as replay and the cut of the log leave them.
    method MountTable() returns (r: Result<bool>)
      requires Down()
      modifies this`phase, this`files, this`trType, this`trInode, this`dirty, this`freeChunks, this`needMrc, this`segments,
               this`cStart, this`cLast, this`lLast, this`numUsed, this`lay, disk, disk.log
      ensures r == if old(disk.log.Opens()) then Ok(true) else Err(EIO)
      ensures r.Err? ==> disk.Cur() == old(disk.Cur()) && disk.log.Ruined()
      ensures r.Ok? ==>
                && Journaled() && phase.Open? && phase.recs == [] && VolumeOk(files, lay, disk.Cur()) && freeChunks == [] && !needMrc
                && trType == NONE && OrderOk(lay) && SegsOk(segments, cStart, cLast, lLast, lay)
                && files == RecoveredFiles(old(phase)) && NoOrphans(RecoveredLayout(old(phase)), lay)
                && LogKept(files, lay, logName, logLen) && AfterCrash(phase) == Now() == old(AfterCrash(phase))
    {
      hide Replayable, PhaseOk, CrashImage, PhaseSafe, ContentsOf, LogKept, LayoutOk, FilesOk, SegsOk, AllClaimed, Numbered,
           RecoveredFiles, RecoveredLayout, Absorbed, NoOrphans;
      ghost var ph, l := phase, RecoveredLayout(phase);
      r := Recover();
      if r.Err? {
        return;
      }
      SafeSays(ph, logName, logLen, outcomes);
      AbsorbedVolume(files, l, disk.Cur());
      ghost var a := lay;
      AbsorbedContents(files, l, disk.Cur(), a, logName, logLen);
      MountLog();
      LogCutIs(files, a, lay, logName, logLen);
      MountDone(l, a, lay, logLen);
    }

    // What was established piece by piece makes a valid volume.
    lemma Mounted()
      requires Journaled() && phase.Open? && phase.recs == [] && VolumeOk(files, lay, disk.Cur()) && freeChunks == [] && !needMrc
      requires trType == NONE && OrderOk(lay) && SegsOk(segments, cStart, cLast, lLast, lay)
      requires numUsed == VALID_CLU + |lay.pos| && inodes == map[] && preAlloc == [] && allocIndex == 0 && lag == {}
      requires searchPtr >= VALID_CLU && LogKept(files, lay, logName, logLen) && AfterCrash(phase) == Now()
      ensures Valid() && Settled() && Quiet()
    {
      hide PhaseOk, CrashImage, PhaseSafe, ContentsOf, AfterCrash, LogKept, LayoutOk, FilesOk, SegsOk, AllClaimed,
           Numbered;
      assert InodesOk(inodes, files, lay);
    }

    /** Crash safety. `Crashable` is what holds between any two writes of any operation,
        to the table, to a slot or to the log. From there, whatever the crash leaves of the
        writes to the table and the slots, a mount gives back a consistent volume with
        nothing pending, and its contents are among those that were expected when the
        operation began. */
    method CrashAndMount(m: Meta)
      requires Crashable() && CrashImage(phase, m) && |disk.log.hist| < SEQ_LIMIT - 1
      modifies this, disk, disk.log
      ensures Valid() && Settled() && Quiet() && depth == 0 && inodes == map[]
      ensures Now() == old(AfterCrash(phase)) && Now() in old(outcomes)
    {
      hide Replayable, PhaseOk, CrashImage, ContentsOf, AfterCrash, LogKept, LayoutOk, FilesOk, SegsOk, AllClaimed, Numbered,
           Valid;
      PowerFails(m);
      var r := Mount();
    }

    /** Power fails during the burst that writes a batch. Its sectors are not written in
        order: those in `s` are on the disk, and not all of them. The mount after it gives
        back what it would have given back before the batch if those in `s` are the first
        ones, and if not the volume cannot be mounted, now or later. */
    method CrashInBurst(m: Meta, info: DeallocInfo, s: set<nat>) returns (r: Result<bool>)
      requires Journaled() && MayBatch(phase) && Replayed(trType) && CrashImage(phase, m)
      requires 0 < |freeChunks| <= CHUNK_LIMIT && disk.log.hist != []
      requires |disk.log.hist| + RecordCount(|freeChunks|) < SEQ_LIMIT - LOG_MAX_COUNT
      requires exists k: nat :: k < RecordCount(|freeChunks|) && k !in s
      modifies this, disk, disk.log
      ensures (exists p: nat :: FirstOnly(s, RecordCount(|old(freeChunks)|), p)) ==>
                && r == Ok(true) && Valid() && Settled() && Quiet() && depth == 0 && inodes == map[]
                && Now() == old(AfterCrash(phase)) && Now() in old(outcomes)
      ensures (forall p: nat :: !FirstOnly(s, RecordCount(|old(freeChunks)|), p)) ==>
                r == Err(EIO) && disk.Cur() == m && disk.log.Ruined()
    {
      hide Replayable, PhaseOk, CrashImage, ContentsOf, AfterCrash, LogKept, LayoutOk, FilesOk, SegsOk, AllClaimed, Numbered,
           Valid, PhaseSafe, BatchOf, RecordCount, FirstOnly, Logged, RingOf, Burst, IsBurst, TornSafe;
      ghost var ph, h, ty, chunks := phase, disk.log.hist, trType, freeChunks;
      RecordsFit(|freeChunks|);
      var recs := Sectors(disk.log.sequence, trType, BatchOf(info, freeChunks));
      SectorsBurst(h, ty, BatchOf(info, chunks));
      TornIsSafe(ph, h, ty, info, chunks);
      disk.log.CutOff(recs, s);
      SafeSays(ph, logName, logLen, outcomes);
      if p: nat :| FirstOnly(s, |recs|, p) {
        FirstIsOne(s, |recs|, p);
        BurstReplays(ph, h, ty, info, chunks, s, p);
        assert Replayable(phase, disk.log.hist, ty);
      } else {
        disk.log.OpensOrNot();
      }
      Blackout(m);
      r := Mount();
    }

    // ----- bringing a file into core

    /** Reads the inode of a name: its start cluster from the slot, its last cluster by a walk along the chain. */
    method LoadInode(o: nat, n: Name) returns (r: Result<nat>)
      requires Valid() && Settled() && o in files && files[o] == n && o != LOG_INO && o !in inodes
      modifies this`inodes
      ensures Valid() && Settled()
      ensures r == Ok(|ChainOf(lay, o)|)
      ensures o in inodes && inodes[o].standing.Linked? && inodes == old(inodes)[o := inodes[o]]
    {
      hide PhaseOk, CrashImage, PhaseSafe, ContentsOf, AfterCrash, LogKept, LayoutOk, FilesOk, SegsOk, InodesOk,
           AllClaimed, Numbered, LagOk, WindowOk, Chain;
      NotLagging(files, lay, disk.dir, lag, phase, trInode, o);
      LoadedOk(disk.fat, disk.dir, files, lay, lag, inodes, o);
      ghost var p := ChainOf(lay, o);
      var start, last, count := disk.dir[Loc(n.pdir, n.entry)].start, CLU_TAIL, 0;
      if start != 0 && !ValidClu(disk.fat, start) {
        return Err(EIO);
      }
      if start != 0 {
        var found := FindLastCluster(disk.fat, start, 0, 0);
        assert found == WalkResult(p, 0, 0);
        if found.Err? {
          return Err(EIO);
        }
        last, count := found.value.last, found.value.count;
      }
      var i := Inode(n.pdir, n.entry, n.num, StartOf(start), last, Standing.Linked, NO_CUTS);
      WindowMore(preAlloc, allocIndex, disk.fat, phase, trType, trInode, inodes, o, i);
      inodes := inodes[o := i];
      return Ok(count);
    }

    /** Looks a file up after a crash: a chain longer than the recorded size calls for is cut back to it. */
    method FillInode(o: nat, n: Name, sizeClus: nat) returns (r: Result<nat>)
      requires Valid() && Settled() && depth == 0 && (trType == NONE || trType == WRITE)
      requires o in files && files[o] == n && o != LOG_INO && o !in inodes
      modifies this, disk, disk.log
      ensures Valid() && Settled() && depth == 0 && files == old(files) && r.Ok? && o in inodes
      ensures inodes == old(inodes)[o := inodes[o]]
      ensures |ChainOf(old(lay), o)| <= sizeClus ==>
                && lay == old(lay) && r.value == |ChainOf(lay, o)|
                && disk.Cur() == old(disk.Cur()) && phase == old(phase) && outcomes == old(outcomes)
      ensures |ChainOf(old(lay), o)| > sizeClus ==>
                r.value == sizeClus && lay.order == old(lay).order
                && lay.chains == old(lay).chains[o := ChainOf(old(lay), o)[..sizeClus]]
                && Quiet() && Now() == CutContents(old(Now()), o, sizeClus)
                && outcomes == iset{old(AfterCrash(phase)), old(Now()), Now()}
    {
      hide PhaseOk, CrashImage, PhaseSafe, ContentsOf, AfterCrash, LogKept, LayoutOk, FilesOk, SegsOk, InodesOk,
           AllClaimed, Numbered, LagOk, WindowOk;
      r := LoadInode(o, n);
      if r.Err? {
        return;
      }
      if sizeClus < r.value {
        var cut := Truncate(o, sizeClus);
        r := Ok(sizeClus);
      }
    }
  }
}
