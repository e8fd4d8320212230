/** Freeing a chain or the tail of one, from the first batch to the table that is
    left, for a truncation and for a deletion. */
module Cuttings {
  import opened Results
  import opened Fat
  import opened Records
  import opened Batch
  import opened LogRing
  import opened Redo
  import opened Layout
  import opened Orphans
  import opened Names
  import opened Crash
  import opened State
  import opened Lookup
  import opened Steps
  import opened Freeings
  import opened Windows
  import opened Growth

  // The last cluster that is kept, if any is.
  function KeptEnd(p: seq<nat>, skip: nat): nat
    requires skip <= |p|
  {
    if skip > 0 then p[skip - 1] else CLU_TAIL
  }

  // Short cuts may lead to what will be cut off.
  function Uncut(i: Inode): Inode {
    i.(cuts := NO_CUTS)
  }

  function Shortened(i: Inode, newLast: nat): Inode {
    if newLast != CLU_TAIL then i.(last := newLast) else i.(start := CLU_TAIL, last := CLU_TAIL)
  }

  /** What freeing a chain needs: the chain is the one `f` is about, and the
      segment list has its segment, or will have it once it is added. */
  ghost predicate MayFree(f: Freeing, i: Inode, newLast: nat, segs: seq<Segment>, cStart: nat, cLast: nat, lLast: nat,
                          ty: TrType)
  {
    && ty == f.trType && CanFree(f) && 0 < Size(f) && OrderOk(f.l)
    && i.last == f.l.chains[f.o][Size(f) - 1] && (i.standing.Unlinked? <==> ty == DEL_INODE)
    && f.info.pdir == i.pdir && f.info.entry == i.entry && f.info.fLast == newLast
    && var start := f.l.chains[f.o][0];
       if i.standing.Unlinked? then SegsOk(segs, cStart, cLast, lLast, f.l)
       else SegsOk(segs + [Segment(start, i.last)], if cStart == CLU_TAIL then start else cStart, i.last, lLast, f.l)
  }

  /** What freeing a chain gives: exactly its clusters are free, and the pool,
      the segment list and the count are those without it. */
  ghost predicate WasFreed(f: Freeing, count: nat, t: Table, segs: seq<Segment>, cStart: nat, cLast: nat, lLast: nat,
                           was: int, used: int, ph: Phase)
  {
    && f.o in f.l.chains && count == Size(f) && CanDrop(f.l, f.o, count)
    && ph.Batched? && ph.f.trType == f.trType && ZeroedSlots(ph.f) == ZeroedSlots(f)
    && var m := Drop(f.l, f.o, count);
       OrderOk(m) && LayoutOk(t, m) && SegsOk(segs, cStart, cLast, lLast, m)
       && used == was - count && |m.pos| + count == |f.l.pos|
  }

  lemma NoTail(f: Freeing)
    requires CanFree(f)
    ensures forall b :: 0 <= b < Size(f) ==> f.l.chains[f.o][b] != CLU_TAIL
  {
    forall b | 0 <= b < Size(f) ensures f.l.chains[f.o][b] != CLU_TAIL {
      LinkIs(f.t, f.l, f.o, b);
    }
  }

  lemma BatchWrites(f: Freeing, a: nat, b: nat, ph: Phase)
    requires CanFree(f) && a <= b <= Size(f) && ph.Batched? && ph.f == At(f, a, b)
    ensures forall c: nat :: c in f.l.chains[f.o][a..b] ==> ValidClu(f.t, c) && MayWriteFat(ph, c)
  {
    BatchClusters(f, a, b);
  }

  lemma ExpandFirst(chunks: seq<Chunk>)
    requires chunks != []
    ensures forall c :: c in Run(chunks[0].start, chunks[0].count) ==> c in Expand(chunks)
    ensures forall c :: c in Expand(chunks[1..]) ==> c in Expand(chunks)
  {
  }

  /** With any strict prefix of the batch in the log, replay still gives back what it
      gave back before, and a mount gets over it. */
  ghost predicate TornSafe(ph: Phase, h: seq<LogRecord>, ty: TrType, info: DeallocInfo, chunks: seq<Chunk>) {
    forall p: nat :: 0 < p < RecordCount(|chunks|) ==> Replayable(ph, Logged(h, BatchOf(info, chunks), ty, p), ty)
  }

  lemma TornIsSafe(ph: Phase, h: seq<LogRecord>, ty: TrType, info: DeallocInfo, chunks: seq<Chunk>)
    requires PhaseOk(ph, h, ty) && MayBatch(ph) && Replayed(ty) && |chunks| <= MAX_RECORDS * MAX_CHUNKS
    ensures TornSafe(ph, h, ty, info, chunks)
  {
    hide PhaseOk, BatchOf, RecordCount, Logged, MayBatch;
    forall p: nat | 0 < p < RecordCount(|chunks|) ensures Replayable(ph, Logged(h, BatchOf(info, chunks), ty, p), ty) {
      assert TornBehind(h, info, chunks, p, Logged(h, BatchOf(info, chunks), ty, p), ty);
    }
  }

  /** What a burst leaves that was cut off in order replays as well. */
  lemma BurstReplays(ph: Phase, h: seq<LogRecord>, ty: TrType, info: DeallocInfo, chunks: seq<Chunk>, s: set<nat>, p: nat)
    requires PhaseOk(ph, h, ty) && TornSafe(ph, h, ty, info, chunks) && FirstOnly(s, RecordCount(|chunks|), p)
    requires exists k: nat :: k < RecordCount(|chunks|) && k !in s
    ensures Replayable(ph, h + Sectors(|h| + 1, ty, BatchOf(info, chunks))[..p], ty)
  {
    hide PhaseOk, BatchOf, RecordCount, PhaseTorn;
    SectorsLogged(h, ty, BatchOf(info, chunks), p);
  }

  // ----- truncation

  // The layout with a file cut: x is the name its tail went by while it was freed.
  ghost function CutDown(l: Layout, o: nat, k: nat, x: nat): Layout
    requires o in l.chains && k < |l.chains[o]|
  {
    var n := CutLayout(l, o, k, x);
    if x in n.order && x in n.chains then Forget(Drop(n, x, |n.chains[x]|), x) else l
  }

  /** A truncation cuts one chain and leaves every other as it is; the inode forgets its short cuts. */
  ghost predicate CutTo(l: Layout, m: Layout, was: map<nat, Inode>, inodes: map<nat, Inode>, o: nat, skip: nat) {
    var p := ChainOf(l, o);
    && o in was
    && if skip < |p| then
         && m.order == l.order && m.chains == l.chains[o := p[..skip]]
         && inodes == was[o := Shortened(Uncut(was[o]), KeptEnd(p, skip))]
       else m == l && inodes == was[o := Uncut(was[o])]
  }

  lemma CutFrom(l: Layout, m: Layout, was: map<nat, Inode>, mid: map<nat, Inode>, inodes: map<nat, Inode>, o: nat, skip: nat)
    requires o in was && mid == was[o := Uncut(was[o])] && CutTo(l, m, mid, inodes, o, skip)
    ensures CutTo(l, m, was, inodes, o, skip)
  {
  }

  lemma CutMayFree(m: Meta, files: map<nat, Name>, l: Layout, i: Inode, o: nat, skip: nat, x: nat,
                   segs: seq<Segment>, cStart: nat, cLast: nat, lLast: nat) returns (f: Freeing)
    requires VolumeOk(files, l, m) && o in files && files[o] == NameOf(i) && !i.standing.Unlinked?
    requires skip < |ChainOf(l, o)| && i.last == LastOf(l, o) && CanCut(l, o, skip, x)
    requires if o == LOG_INO then segs == [] && cStart == CLU_TAIL && lLast == l.chains[o][skip - 1]
             else SegsOk(segs, cStart, cLast, lLast, l)
    ensures f == Cutting(m, files, l, o, skip, x, i.pdir, i.entry)
    ensures MayFree(f, i, KeptEnd(l.chains[o], skip), segs, cStart, cLast, lLast, TRUNCATE_B)
    ensures f.l.chains[f.o][0] == l.chains[o][skip] && FreeImage(At(f, 0, 0), m)
  {
    hide LayoutOk, FilesOk, SegsOk, FreeImage, FreeingOk, AllClaimed;
    CuttingOk(m, files, l, o, skip, x, i.pdir, i.entry);
    CutPoolOk(m.fat, l, o, skip, x);
    CutSegs(m.fat, l, o, skip, x, segs, cStart, cLast, lLast);
    f := Cutting(m, files, l, o, skip, x, i.pdir, i.entry);
  }

  lemma CutReady(m: Meta, files: map<nat, Name>, l: Layout, inodes: map<nat, Inode>, o: nat, skip: nat, x: nat,
                 segs: seq<Segment>, cStart: nat, cLast: nat, lLast: nat) returns (f: Freeing)
    requires VolumeOk(files, l, m) && InodesOk(inodes, files, l) && o in inodes && inodes[o].standing.Linked?
    requires x !in l.chains && SegsOk(segs, cStart, cLast, lLast, l)
    ensures var p := ChainOf(l, o);
            && o in l.chains
            && (if p == [] then inodes[o].start == CLU_TAIL else p[0] == inodes[o].start != CLU_TAIL)
            && (p != [] ==> ChainFrom(m.fat, inodes[o].start, p))
            && (forall k :: 0 <= k < |p| ==> p[k] != CLU_TAIL)
            && (skip < |p| ==>
                  && CanCut(l, o, skip, x) && f == Cutting(m, files, l, o, skip, x, inodes[o].pdir, inodes[o].entry)
                  && MayFree(f, inodes[o], KeptEnd(p, skip), segs, cStart, cLast, lLast, TRUNCATE_B)
                  && f.l.chains[f.o][0] == p[skip] && FreeImage(At(f, 0, 0), m))
  {
    f := Freeing(l, m.fat, files, m.dir, o, o, TRUNCATE_B, DeallocInfo(0, 0, 0, 0, 0, 0), 0, 0);
    EndsValid(m.fat, inodes, files, l, o);
    var p := l.chains[o];
    forall k | 0 <= k < |p| ensures p[k] != CLU_TAIL {
      LinkIs(m.fat, l, o, k);
    }
    if p != [] {
      FileIsChain(m.fat, l, o);
    }
    if skip < |p| {
      f := CutMayFree(m, files, l, inodes[o], o, skip, x, segs, cStart, cLast, lLast);
    }
  }

  lemma CutAfterLayout(m: Meta, files: map<nat, Name>, l: Layout, o: nat, skip: nat, x: nat, pdir: nat, entry: nat,
                       f: Freeing, count: nat, t: Table, segs: seq<Segment>, cStart: nat, cLast: nat, lLast: nat,
                       was: int, used: int, ph: Phase)
    requires LayoutOk(m.fat, l) && skip < |ChainOf(l, o)| && CanCut(l, o, skip, x)
    requires f == Cutting(m, files, l, o, skip, x, pdir, entry)
    requires WasFreed(f, count, t, segs, cStart, cLast, lLast, was, used, ph)
    ensures var d := CutDown(l, o, skip, x);
            && LayoutOk(t, d) && SegsOk(segs, cStart, cLast, lLast, d) && was - used == |l.pos| - |d.pos|
            && d.order == l.order && d.chains == l.chains[o := l.chains[o][..skip]]
    ensures ph.Batched? && ph.f.trType == TRUNCATE_B
            && ZeroedSlots(ph.f) == if LastKept(l, o, skip) == CLU_TAIL then {Loc(pdir, entry)} else {}
  {
    hide SegsOk, FilesOk, FreeImage, FreeingOk, AllClaimed;
    CutDone(l, o, skip, x);
    CutCount(l, o, skip, x);
    SegsForget(t, Drop(f.l, f.o, count), x, segs, cStart, cLast, lLast);
  }

  lemma CutInodes(t: Table, files: map<nat, Name>, l: Layout, d: Layout, inodes: map<nat, Inode>, o: nat, skip: nat)
    requires LayoutOk(t, l) && InodesOk(inodes, files, l) && o in inodes && inodes[o].standing.Linked?
    requires skip < |ChainOf(l, o)| && d.order == l.order && d.chains == l.chains[o := l.chains[o][..skip]]
    requires inodes[o].cuts == NO_CUTS
    ensures InodesOk(inodes[o := Shortened(inodes[o], KeptEnd(l.chains[o], skip))], files, d)
  {
    var after := inodes[o := Shortened(inodes[o], KeptEnd(l.chains[o], skip))];
    if skip > 0 {
      LinkIs(t, l, o, skip - 1);
    }
    forall q ensures InodeAt(after, files, d, q) {
      assert InodeAt(inodes, files, l, q);
    }
  }

  lemma CutNames(m: Meta, files: map<nat, Name>, l: Layout, d: Layout, inodes: map<nat, Inode>, o: nat, skip: nat)
    requires VolumeOk(files, l, m) && InodesOk(inodes, files, l) && o in inodes && inodes[o].standing.Linked?
    requires skip < |ChainOf(l, o)| && d.order == l.order && d.chains == l.chains[o := l.chains[o][..skip]]
    ensures FilesOk(files, d, m.dir, if skip == 0 then {Loc(inodes[o].pdir, inodes[o].entry)} else {})
    ensures AllClaimed(files, d)
    ensures o in files && files[o] == NameOf(inodes[o]) && Short(files[o]) in m.dir
  {
    EndsValid(m.fat, inodes, files, l, o);
    assert FileAt(files, l, m.dir, {}, o);
    var more := if skip == 0 then {Loc(inodes[o].pdir, inodes[o].entry)} else {};
    FilesFrame(files, l, d, m.dir, {}, more);
    assert {} + more == more;
    forall q ensures Claimed(files, d, q) {
      assert Claimed(files, l, q);
    }
  }

  lemma CutAfter(m: Meta, files: map<nat, Name>, l: Layout, inodes: map<nat, Inode>, o: nat, skip: nat, x: nat,
                 f: Freeing, count: nat, t: Table, segs: seq<Segment>, cStart: nat, cLast: nat, lLast: nat,
                 was: int, used: int, ph: Phase)
    requires VolumeOk(files, l, m) && InodesOk(inodes, files, l) && o in inodes && inodes[o].standing.Linked?
    requires inodes[o].cuts == NO_CUTS
    requires was == VALID_CLU + |l.pos|
    requires skip < |ChainOf(l, o)| && CanCut(l, o, skip, x)
    requires f == Cutting(m, files, l, o, skip, x, inodes[o].pdir, inodes[o].entry)
    requires WasFreed(f, count, t, segs, cStart, cLast, lLast, was, used, ph)
    ensures var d, k := CutDown(l, o, skip, x), Loc(inodes[o].pdir, inodes[o].entry);
            && LayoutOk(t, d) && SegsOk(segs, cStart, cLast, lLast, d) && used == VALID_CLU + |d.pos|
            && InodesOk(inodes[o := Shortened(inodes[o], KeptEnd(l.chains[o], skip))], files, d) && AllClaimed(files, d)
            && FilesOk(files, d, m.dir, if skip == 0 then {k} else {})
            && LagOk(if skip == 0 then {k} else {}, ph, m.dir, files, d, Some(o))
            && d.order == l.order && d.chains == l.chains[o := l.chains[o][..skip]] && !ph.Open?
  {
    hide LayoutOk, SegsOk, FilesOk, FreeImage, FreeingOk, AllClaimed, WasFreed, Cutting, CutDown, InodesOk, CanCut;
    var d := CutDown(l, o, skip, x);
    CutAfterLayout(m, files, l, o, skip, x, inodes[o].pdir, inodes[o].entry, f, count, t, segs, cStart, cLast, lLast, was, used, ph);
    CutInodes(m.fat, files, l, d, inodes, o, skip);
    CutNames(m, files, l, d, inodes, o, skip);
  }

  // ----- deletion

  // The layout without an orphan and its clusters.
  ghost function WithoutFile(l: Layout, o: nat): Layout {
    if o !in l.chains then l
    else if o in l.order then Forget(Drop(l, o, |l.chains[o]|), o)
    else Forget(l, o)
  }

  lemma OrphanEnds(t: Table, files: map<nat, Name>, l: Layout, inodes: map<nat, Inode>, o: nat)
    requires LayoutOk(t, l) && InodesOk(inodes, files, l) && AllClaimed(files, l) && o in inodes
    requires inodes[o].standing.Unlinked?
    ensures o !in files && o in l.chains && o != LOG_INO
    ensures if l.chains[o] == [] then inodes[o].start == CLU_TAIL
            else inodes[o].start == l.chains[o][0] && inodes[o].last == LastOf(l, o) && o in l.order
    ensures InodesOk(inodes - {o}, files, l)
  {
    EndsValid(t, inodes, files, l, o);
    assert Claimed(files, l, o);
    var rest := inodes - {o};
    forall q ensures InodeAt(rest, files, l, q) {
      assert InodeAt(inodes, files, l, q);
    }
  }

  lemma OrphanReady(m: Meta, files: map<nat, Name>, l: Layout, i: Inode, o: nat,
                    segs: seq<Segment>, cStart: nat, cLast: nat, lLast: nat) returns (f: Freeing)
    requires VolumeOk(files, l, m) && SegsOk(segs, cStart, cLast, lLast, l)
    requires i.standing.Unlinked? && o in l.chains
    requires if l.chains[o] == [] then i.start == CLU_TAIL
             else i.start == l.chains[o][0] && i.last == LastOf(l, o) && o in l.order
    ensures l.chains[o] != [] ==> i.start != CLU_TAIL
    ensures forall k :: 0 <= k < |l.chains[o]| ==> l.chains[o][k] != CLU_TAIL
    ensures l.chains[o] != [] ==>
              && OrderOk(l) && f == Deleting(m, files, l, o, i.pdir, i.entry)
              && MayFree(f, i, CLU_TAIL, segs, cStart, cLast, lLast, DEL_INODE)
              && f.l.chains[f.o][0] == l.chains[o][0] && FreeImage(At(f, 0, 0), m)
  {
    f := Freeing(l, m.fat, files, m.dir, o, o, TRUNCATE_B, DeallocInfo(0, 0, 0, 0, 0, 0), 0, 0);
    forall k | 0 <= k < |l.chains[o]| ensures l.chains[o][k] != CLU_TAIL {
      LinkIs(m.fat, l, o, k);
    }
    if l.chains[o] != [] {
      DeletingOk(m, files, l, o, i.pdir, i.entry);
      f := Deleting(m, files, l, o, i.pdir, i.entry);
    }
  }

  lemma FreedNames(files: map<nat, Name>, l: Layout, dir: Dir, inodes: map<nat, Inode>, o: nat)
    requires OrderOk(l) && InodesOk(inodes, files, l) && FilesOk(files, l, dir, {}) && AllClaimed(files, l)
    requires o in l.chains && o !in inodes && o !in files && (o !in l.order ==> l.chains[o] == [])
    ensures InodesOk(inodes, files, WithoutFile(l, o)) && FilesOk(files, WithoutFile(l, o), dir, {}) && AllClaimed(files, WithoutFile(l, o))
  {
    var d := WithoutFile(l, o);
    var none: set<Loc> := {};
    forall q ensures q in d.order ==> q in l.order {
      if o in l.order && q != o {
        DropAllIndex(l.order, o, q);
      }
    }
    InodesFrame(inodes, files, l, d);
    FilesFrame(files, l, d, dir, none, none);
    assert none + none == none;
    forall q ensures Claimed(files, d, q) {
      assert Claimed(files, l, q);
      if o in l.order && q != o {
        DropAllIndex(l.order, o, q);
      }
    }
  }

  lemma OrphanAfter(m: Meta, files: map<nat, Name>, l: Layout, i: Inode, o: nat, f: Freeing, count: nat, t: Table,
                    segs: seq<Segment>, cStart: nat, cLast: nat, lLast: nat, was: int, used: int, ph: Phase,
                    inodes: map<nat, Inode>)
    requires VolumeOk(files, l, m) && InodesOk(inodes, files, l) && o in l.chains && o !in inodes && o !in files
    requires l.chains[o] != [] ==>
               && OrderOk(l) && o in l.order && f == Deleting(m, files, l, o, i.pdir, i.entry)
               && WasFreed(f, count, t, segs, cStart, cLast, lLast, was, used, ph)
    requires l.chains[o] == [] ==>
               t == m.fat && SegsOk(segs, cStart, cLast, lLast, l) && used == was
    requires was == VALID_CLU + |l.pos|
    ensures var d := WithoutFile(l, o);
            && LayoutOk(t, d) && SegsOk(segs, cStart, cLast, lLast, d) && used == VALID_CLU + |d.pos|
            && InodesOk(inodes, files, d) && FilesOk(files, d, m.dir, {}) && AllClaimed(files, d)
    ensures l.chains[o] != [] ==> !ph.Open?
  {
    assert OrphanAt(l, IndexIn(l.order, o));
    if l.chains[o] != [] {
      SegsForget(t, Drop(f.l, f.o, count), o, segs, cStart, cLast, lLast);
    } else {
      SegsForget(t, l, o, segs, cStart, cLast, lLast);
    }
    FreedNames(files, l, m.dir, inodes, o);
  }
}
