/** Mounting: the volume replay gives back, with the pool read as part of the log
    file's chain, and the cut that frees it. */
module Mounting {
  import opened Results
  import opened Fat
  import opened Records
  import opened Batch
  import opened Undo
  import opened Redo
  import opened Replay
  import opened Layout
  import opened Orphans
  import opened Names
  import opened Crash
  import opened State
  import opened Steps
  import opened Lookup
  import opened Freeings
  import opened Windows
  import opened Growth
  import opened Cuttings

  // Every orphan is gone, and every other chain is as it was.
  ghost predicate NoOrphans(l: Layout, m: Layout) {
    && m.order == [] && m.chains.Keys == l.chains.Keys
    && forall o :: o in l.chains ==> m.chains[o] == if o in l.order then [] else l.chains[o]
  }

  lemma AbsorbedVolume(files: map<nat, Name>, l: Layout, m: Meta)
    requires VolumeOk(files, l, m)
    ensures OrderOk(l) && VolumeOk(files, Absorbed(l), m)
    ensures var a := Absorbed(l);
            && a.order == [] && a.chains.Keys == l.chains.Keys && LOG_INO in l.chains
            && a.chains[LOG_INO] == l.chains[LOG_INO] + OrphansFrom(l, 0) && LOG_INO !in l.order
            && l.chains[LOG_INO] != []
            && forall o :: o in l.chains && o != LOG_INO ==> a.chains[o] == if o in l.order then [] else l.chains[o]
  {
    AbsorbedOk(m.fat, l);
    NotInOrder(l);
    var a := Absorbed(l);
    var none: set<Loc> := {};
    forall o | o in files ensures FirstWord(a, o) == FirstWord(l, o) {
      assert FileAt(files, l, m.dir, {}, o);
    }
    FilesFrame(files, l, a, m.dir, none, none);
    assert none + none == none;
    forall q ensures Claimed(files, a, q) {
      assert Claimed(files, l, q);
    }
  }

  lemma ClosedEnd(ph: Phase, h: seq<LogRecord>, ty: TrType)
    requires Replayable(ph, h, ty)
    ensures var g := Closed(h); g == [] || g[|g| - 1].rec.Commit? || g[|g| - 1].rec.Abort?
  {
    hide PhaseOk, TornBehind;
    if PhaseOk(ph, h, ty) {
      WholeClosed(ph, h, ty);
    } else {
      var before, info, chunks, p: nat :| PhaseOk(ph, before, ty) && TornBehind(before, info, chunks, p, h, ty);
      StopsAt(ph, before, ty);
      TornRun(before, info, chunks, p, h, ty);
    }
  }

  lemma WholeClosed(ph: Phase, h: seq<LogRecord>, ty: TrType)
    requires PhaseOk(ph, h, ty)
    ensures var g := Closed(h); g == [] || g[|g| - 1].rec.Commit? || g[|g| - 1].rec.Abort?
  {
    match ph
    case Open(mark, base, recs, states, _, _) =>
      if recs != [] {
        assert h[mark + 1 + (|recs| - 1)].rec == recs[|recs| - 1];
      }
    case Batched(f, before, chunks) =>
      RecordsFit(|chunks|);
      LoggedRecords(before, f.info, chunks, ty, RecordCount(|chunks|));
    case Linked(f) =>
  }

  lemma ClosedPhase(ph: Phase, h: seq<LogRecord>, ty: TrType, m: Meta, files: map<nat, Name>, l: Layout)
    requires Replayable(ph, h, ty) && VolumeOk(files, l, m)
    ensures var g := Closed(h);
            var p := Phase.Open(|g| - 1, m, [], [], files, l);
            PhaseOk(p, g, NONE) && CrashImage(p, m)
  {
    var g := Closed(h);
    ClosedEnd(ph, h, ty);
    forall k | k in m.dir ensures SlotImage(m.dir[k], [], k, m.dir[k]) {
    }
  }

  // ----- the log file

  ghost predicate LogIn(l: Layout, t: Table, start: nat, own: nat) {
    LOG_INO in l.chains && 0 < own <= |l.chains[LOG_INO]| && start != CLU_TAIL && ChainFrom(t, start, l.chains[LOG_INO])
  }

  lemma LogChain(m: Meta, files: map<nat, Name>, l: Layout, own: nat, n: Name)
    requires VolumeOk(files, l, m) && l.order == [] && LOG_INO in files && files[LOG_INO] == n
    requires LOG_INO in l.chains && 0 < own <= |l.chains[LOG_INO]|
    ensures var k := Loc(n.pdir, n.entry);
            k in m.dir && LogIn(l, m.fat, m.dir[k].start, own) && m.dir[k].start == l.chains[LOG_INO][0]
  {
    assert FileAt(files, l, m.dir, {}, LOG_INO);
    LogIsChain(m.fat, l);
    assert l.chains[LOG_INO] + OrphansFrom(l, 0) == l.chains[LOG_INO];
    LinkIs(m.fat, l, LOG_INO, 0);
  }

  lemma LogReady(m: Meta, files: map<nat, Name>, l: Layout, i: Inode, own: nat, x: nat,
                 segs: seq<Segment>, cStart: nat, cLast: nat, lLast: nat) returns (f: Freeing)
    requires VolumeOk(files, l, m) && LOG_INO in files && files[LOG_INO] == NameOf(i) && !i.standing.Unlinked?
    requires l.order == [] && LOG_INO in l.chains && 0 < own < |l.chains[LOG_INO]| && x !in l.chains
    requires i.start == l.chains[LOG_INO][0] && i.last == LastOf(l, LOG_INO)
    requires segs == [] && cStart == CLU_TAIL && lLast == l.chains[LOG_INO][own - 1]
    ensures var p := l.chains[LOG_INO];
            && CanCut(l, LOG_INO, own, x) && f == Cutting(m, files, l, LOG_INO, own, x, i.pdir, i.entry)
            && MayFree(f, i, KeptEnd(p, own), segs, cStart, cLast, lLast, TRUNCATE_B)
            && f.l.chains[f.o][0] == p[own] && FreeImage(At(f, 0, 0), m)
            && i.start != CLU_TAIL && ChainFrom(m.fat, i.start, p) && forall k :: 0 <= k < |p| ==> p[k] != CLU_TAIL
  {
    forall k | 0 <= k < |l.chains[LOG_INO]| ensures l.chains[LOG_INO][k] != CLU_TAIL {
      LinkIs(m.fat, l, LOG_INO, k);
    }
    LogIsChain(m.fat, l);
    assert l.chains[LOG_INO] + OrphansFrom(l, 0) == l.chains[LOG_INO];
    f := CutMayFree(m, files, l, i, LOG_INO, own, x, segs, cStart, cLast, lLast);
  }

  lemma LogNames(files: map<nat, Name>, l: Layout, dir: Dir, d: Layout, own: nat)
    requires FilesOk(files, l, dir, {}) && AllClaimed(files, l) && LOG_INO in l.chains && 0 < own < |l.chains[LOG_INO]|
    requires d.order == l.order && d.chains == l.chains[LOG_INO := l.chains[LOG_INO][..own]]
    ensures FilesOk(files, d, dir, {}) && AllClaimed(files, d)
  {
    var none: set<Loc> := {};
    FilesFrame(files, l, d, dir, none, none);
    assert none + none == none;
    forall q ensures Claimed(files, d, q) {
      assert Claimed(files, l, q);
    }
  }

  lemma LogAfter(m: Meta, files: map<nat, Name>, l: Layout, i: Inode, own: nat, x: nat, f: Freeing, count: nat, t: Table,
                 segs: seq<Segment>, cStart: nat, cLast: nat, lLast: nat, was: int, used: int, ph: Phase)
    requires VolumeOk(files, l, m) && LOG_INO in l.chains && 0 < own < |l.chains[LOG_INO]| && CanCut(l, LOG_INO, own, x)
    requires f == Cutting(m, files, l, LOG_INO, own, x, i.pdir, i.entry)
    requires WasFreed(f, count, t, segs, cStart, cLast, lLast, was, used, ph)
    ensures var d := CutDown(l, LOG_INO, own, x);
            && VolumeOk(files, d, Meta(t, m.dir)) && OrderOk(d) && SegsOk(segs, cStart, cLast, lLast, d)
            && d.order == l.order && d.chains == l.chains[LOG_INO := l.chains[LOG_INO][..own]]
  {
    var d := CutDown(l, LOG_INO, own, x);
    CutAfterLayout(m, files, l, LOG_INO, own, x, i.pdir, i.entry, f, count, t, segs, cStart, cLast, lLast, was, used, ph);
    LogNames(files, l, m.dir, d, own);
  }

  lemma MountSegs(t: Table, l: Layout, own: nat)
    requires LayoutOk(t, l) && l.order == [] && own == |l.chains[LOG_INO]|
    ensures SegsOk([], CLU_TAIL, CLU_TAIL, l.chains[LOG_INO][own - 1], l)
  {
    assert forall j :: SegAt([], l, j);
  }

  lemma MountDone(l: Layout, a: Layout, m: Layout, own: nat)
    requires LOG_INO in l.chains && own == |l.chains[LOG_INO]| && LOG_INO !in l.order && OrderOk(l)
    requires a.order == [] && a.chains.Keys == l.chains.Keys
    requires a.chains[LOG_INO] == l.chains[LOG_INO] + OrphansFrom(l, 0)
    requires forall o :: o in l.chains && o != LOG_INO ==> a.chains[o] == if o in l.order then [] else l.chains[o]
    requires m.order == [] && m.chains == a.chains[LOG_INO := a.chains[LOG_INO][..own]]
    ensures NoOrphans(l, m)
  {
  }

  // ----- an inode that is brought into core

  function StartOf(word: nat): nat {
    if word == 0 then CLU_TAIL else word
  }

  /** What the slot of a name and the walk along its chain say is what the inode must hold. */
  lemma LoadedOk(t: Table, dir: Dir, files: map<nat, Name>, l: Layout, lag: set<Loc>, inodes: map<nat, Inode>, o: nat)
    requires LayoutOk(t, l) && FilesOk(files, l, dir, lag) && InodesOk(inodes, files, l)
    requires o in files && o != LOG_INO && Short(files[o]) !in lag
    ensures Short(files[o]) in dir && o in l.chains
    ensures var word, p := dir[Short(files[o])].start, ChainOf(l, o);
            && (if p == [] then word == 0 else word == p[0] && ValidClu(t, word) && ChainFrom(t, word, p))
            && InodesOk(inodes[o := Inode(files[o].pdir, files[o].entry, files[o].num, StartOf(word),
                                          if p == [] then CLU_TAIL else p[|p| - 1], Standing.Linked, NO_CUTS)], files, l)
  {
    assert FileAt(files, l, dir, lag, o);
    var p := l.chains[o];
    if p != [] {
      FileIsChain(t, l, o);
      LinkIs(t, l, o, 0);
    }
    var i := Inode(files[o].pdir, files[o].entry, files[o].num, StartOf(FirstWord(l, o)),
                   if p == [] then CLU_TAIL else p[|p| - 1], Standing.Linked, NO_CUTS);
    var after := inodes[o := i];
    forall q ensures InodeAt(after, files, l, q) {
      assert InodeAt(inodes, files, l, q);
    }
  }

  // Only a file that is in core can be waiting for its start word.
  lemma NotLagging(files: map<nat, Name>, l: Layout, dir: Dir, lag: set<Loc>, ph: Phase, who: Option<nat>, o: nat)
    requires FilesOk(files, l, dir, lag) && LagOk(lag, ph, dir, files, l, who) && o in files
    requires lag == {} || who.None? || who.value != o
    ensures Short(files[o]) !in lag
  {
    if lag != {} {
      ShortApart(files, l, dir, lag, o, who.value);
    }
  }

  lemma WindowMore(window: seq<nat>, next: nat, t: Table, ph: Phase, ty: TrType, who: Option<nat>,
                   inodes: map<nat, Inode>, o: nat, i: Inode)
    requires WindowOk(window, next, t, ph, ty, who, inodes) && o !in inodes
    ensures WindowOk(window, next, t, ph, ty, who, inodes[o := i])
  {
  }
}
