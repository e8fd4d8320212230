/** A batch of frees is followed right away by a second one of its type, and of that one
    only the first records reached the log. Replay then passes over both, although writes
    of the first one may be on the disk. This module says when a consistent volume comes
    out of that all the same. */
module TornFrees {
  import opened Results
  import opened Fat
  import opened Records
  import opened Batch
  import opened Redo
  import opened Layout
  import opened Orphans
  import opened Names
  import opened Crash
  import opened Freeings

  // ----- what leads to a cluster

  // What a cluster in use leads to is in use.
  lemma LedTo(t: Table, l: Layout, c: nat)
    requires LayoutOk(t, l) && ValidClu(t, c) && c in l.pos
    ensures t[c] == CLU_TAIL || t[c] in l.pos
  {
    assert Holds(t, l, c) && Owned(l, c);
    var (o, i) := l.pos[c];
    if i < |l.chains[o]| - 1 {
      assert Placed(l, o, i + 1);
    } else {
      var j := if o == LOG_INO then 0 else IndexIn(l.order, o) + 1;
      assert OrphanAt(l, j);
      if j < |l.order| {
        assert Placed(l, l.order[j], 0);
      }
    }
  }

  lemma PrevLeads(t: Table, l: Layout, o: nat)
    requires LayoutOk(t, l) && CanDrop(l, o, 0) && l.chains[o] != []
    ensures ValidClu(t, PrevLast(l, o)) && t[PrevLast(l, o)] == l.chains[o][0]
  {
    var j := IndexIn(l.order, o);
    PrevLastIs(t, l, o);
    if j == 0 {
      LinkIs(t, l, LOG_INO, |l.chains[LOG_INO]| - 1);
    } else {
      OrphanPath(t, l, j - 1);
    }
  }

  // One cluster at most leads to another: the one before it, or the last one of the chain before.
  lemma LeadsFrom(t: Table, l: Layout, p: nat, c: nat)
    requires LayoutOk(t, l) && ValidClu(t, p) && ValidClu(t, c) && t[p] == c
    ensures c in l.pos && Owned(l, c)
    ensures var (o, i) := l.pos[c];
            if i > 0 then p == l.chains[o][i - 1] else o in l.order && p == PrevLast(l, o)
  {
    FreeIs(t, l, p);
    LedTo(t, l, p);
    assert Holds(t, l, p) && Owned(l, p) && Owned(l, c);
    var (q, k) := l.pos[p];
    if k < |l.chains[q]| - 1 {
      assert Placed(l, q, k + 1);
    } else {
      var j := if q == LOG_INO then 0 else IndexIn(l.order, q) + 1;
      assert OrphanAt(l, j);
      assert Placed(l, l.order[j], 0);
      IndexOf(l.order, j);
    }
  }

  // In a volume every cluster in use is led to, by another one or by a name.
  lemma Reached(files: map<nat, Name>, l: Layout, m: Meta, c: nat) returns (p: nat, q: nat)
    requires VolumeOk(files, l, m) && LOG_INO in files && c in l.pos
    ensures ValidClu(m.fat, c)
    ensures (ValidClu(m.fat, p) && m.fat[p] == c) || (q in files && FirstWord(l, q) == c)
  {
    assert Holds(m.fat, l, c) && Owned(l, c);
    var (o, i) := l.pos[c];
    p, q := 0, o;
    if i > 0 {
      p := l.chains[o][i - 1];
      LinkIs(m.fat, l, o, i - 1);
    } else {
      assert Claimed(files, l, o);
      if o !in files {
        p := PrevLast(l, o);
        PrevLeads(m.fat, l, o);
      }
    }
  }

  // No name leads to a cluster of an orphan, and the names are the same on every disk the batch may leave.
  lemma NotNamed(files: map<nat, Name>, l: Layout, n: Layout, dir: Dir, o: nat, i: nat, q: nat)
    requires PosOk(l) && FilesOk(files, l, dir, {}) && FilesOk(files, n, dir, {}) && q in files
    requires o in l.order && o in l.chains && i < |l.chains[o]| && l.chains[o][i] != 0
    ensures FirstWord(n, q) != l.chains[o][i]
  {
    assert FileAt(files, l, dir, {}, q) && FileAt(files, n, dir, {}, q);
    assert Placed(l, o, i);
    assert Placed(l, q, 0);
  }

  // ----- all of the writes, or none of them

  // Of freeing the first b clusters of an orphan, some writes are on the disk and the others are not.
  ghost predicate Between(t: Table, l: Layout, o: nat, b: nat, u: Table) {
    && CanDrop(l, o, b) && |u| == |t|
    && forall c: nat :: ValidClu(t, c) ==> u[c] == t[c] || u[c] == DropEntry(t, l, o, b, c)
  }

  ghost predicate SameTable(t: Table, u: Table) {
    |u| == |t| && forall c: nat :: ValidClu(t, c) ==> u[c] == t[c]
  }

  // The volume before the frees, one of the disks they may leave, and chains that fit it.
  ghost predicate Fits(t: Table, l: Layout, files: map<nat, Name>, dir: Dir, o: nat, b: nat, u: Table, n: Layout) {
    && VolumeOk(files, l, Meta(t, dir)) && LOG_INO in files && Between(t, l, o, b, u)
    && VolumeOk(files, n, Meta(u, dir))
  }

  // What still leads to a cluster of the orphan is what led to it before.
  lemma StillLeads(t: Table, l: Layout, o: nat, b: nat, u: Table, p: nat, i: nat)
    requires LayoutOk(t, l) && Between(t, l, o, b, u) && i < b && ValidClu(t, p) && u[p] == l.chains[o][i]
    ensures u[p] == t[p] && p == if i > 0 then l.chains[o][i - 1] else PrevLast(l, o)
  {
    var c := l.chains[o][i];
    LinkIs(t, l, o, i);
    LinkIs(t, l, o, b - 1);
    PrevLastIs(t, l, o);
    assert Placed(l, o, i) && Placed(l, o, b - 1);
    assert i > 0 ==> Placed(l, o, i - 1);
    if t[p] == c {
      LeadsFrom(t, l, p, c);
    } else {
      assert t[l.chains[o][b - 1]] == NextOf(l, o, b) == c;
      LeadsFrom(t, l, l.chains[o][b - 1], c);
    }
  }

  // A cluster that is still in use keeps the one before it and the one behind it in use.
  lemma Neighbours(t: Table, l: Layout, files: map<nat, Name>, dir: Dir, o: nat, b: nat, u: Table, n: Layout, i: nat)
    requires Fits(t, l, files, dir, o, b, u, n) && i + 1 < b
    ensures l.chains[o][i] in n.pos <==> l.chains[o][i + 1] in n.pos
  {
    var s := l.chains[o];
    LinkIs(t, l, o, i);
    LinkIs(t, l, o, i + 1);
    FreeIs(u, n, s[i]);
    if s[i] in n.pos {
      assert Placed(l, o, i);
      LedTo(u, n, s[i]);
    }
    if s[i + 1] in n.pos {
      var p, q := Reached(files, n, Meta(u, dir), s[i + 1]);
      if q in files {
        NotNamed(files, l, n, dir, o, i + 1, q);
      }
      StillLeads(t, l, o, b, u, p, i + 1);
    }
  }

  lemma {:induction false} AllOrFirst(t: Table, l: Layout, files: map<nat, Name>, dir: Dir, o: nat, b: nat, u: Table, n: Layout, i: nat)
    requires Fits(t, l, files, dir, o, b, u, n) && i < b
    ensures l.chains[o][i] in n.pos <==> l.chains[o][0] in n.pos
  {
    if i > 0 {
      AllOrFirst(t, l, files, dir, o, b, u, n, i - 1);
      Neighbours(t, l, files, dir, o, b, u, n, i - 1);
    }
  }

  lemma NoneIsSame(t: Table, l: Layout, files: map<nat, Name>, dir: Dir, o: nat, b: nat, u: Table, n: Layout)
    requires Fits(t, l, files, dir, o, b, u, n) && 0 < b && l.chains[o][0] in n.pos
    ensures SameTable(t, u)
  {
    var s := l.chains[o];
    LinkIs(t, l, o, 0);
    var p, q := Reached(files, n, Meta(u, dir), s[0]);
    if q in files {
      NotNamed(files, l, n, dir, o, 0, q);
    }
    StillLeads(t, l, o, b, u, p, 0);
    forall c: nat | ValidClu(t, c) ensures u[c] == t[c] {
      if c in l.pos && Gone(l.pos[c], o, b) {
        assert Owned(l, c);
        AllOrFirst(t, l, files, dir, o, b, u, n, l.pos[c].1);
        FreeIs(u, n, c);
      }
    }
  }

  lemma AllIsDropped(t: Table, l: Layout, files: map<nat, Name>, dir: Dir, o: nat, b: nat, u: Table, n: Layout)
    requires Fits(t, l, files, dir, o, b, u, n) && 0 < b && l.chains[o][0] !in n.pos
    ensures Dropped(t, l, o, b, u)
  {
    var s := l.chains[o];
    PrevLeads(t, l, o);
    PrevLastIs(t, l, o);
    LinkIs(t, l, o, 0);
    FreeIs(u, n, PrevLast(l, o));
    if PrevLast(l, o) in n.pos {
      LedTo(u, n, PrevLast(l, o));
    }
    forall c: nat | ValidClu(t, c) ensures u[c] == DropEntry(t, l, o, b, c) {
      if c in l.pos && Gone(l.pos[c], o, b) {
        assert Owned(l, c);
        AllOrFirst(t, l, files, dir, o, b, u, n, l.pos[c].1);
        FreeIs(u, n, c);
      }
    }
  }

  // There are chains that make it a consistent volume with these names.
  ghost predicate Consistent(files: map<nat, Name>, m: Meta) {
    exists n :: VolumeOk(files, n, m)
  }

  /** Some of the writes that free the first clusters of an orphan are on the disk. The volume
      is consistent if and only if all of them are, or none. */
  lemma AllOrNone(t: Table, l: Layout, files: map<nat, Name>, dir: Dir, o: nat, b: nat, u: Table)
    requires VolumeOk(files, l, Meta(t, dir)) && LOG_INO in files && Between(t, l, o, b, u) && 0 < b
    ensures Consistent(files, Meta(u, dir)) <==> Dropped(t, l, o, b, u) || SameTable(t, u)
  {
    if n :| VolumeOk(files, n, Meta(u, dir)) {
      if l.chains[o][0] in n.pos {
        NoneIsSame(t, l, files, dir, o, b, u, n);
      } else {
        AllIsDropped(t, l, files, dir, o, b, u, n);
      }
    }
    if SameTable(t, u) {
      SameFits(t, u, l);
      assert VolumeOk(files, l, Meta(u, dir));
    }
    if Dropped(t, l, o, b, u) {
      DropOk(t, l, o, b, u);
      DropFiles(files, l, dir, {}, o, b);
      assert VolumeOk(files, Drop(l, o, b), Meta(u, dir));
    }
  }

  lemma SameFits(t: Table, u: Table, l: Layout)
    requires LayoutOk(t, l) && SameTable(t, u)
    ensures LayoutOk(u, l)
  {
    forall c ensures Holds(u, l, c) {
      assert Holds(t, l, c);
    }
  }

  // ----- a torn batch right behind a whole one

  /** The first batch was the first one of its chain: replay passes over both and changes
      nothing. What it leaves is a consistent volume if and only if all writes of the first
      batch are on the disk, or none. */
  lemma PassedOver(f: Freeing, before: seq<LogRecord>, c1: seq<Chunk>, i2: DeallocInfo, c2: seq<Chunk>, p: nat, m: Meta)
    requires FreeingOk(f) && f.trType == DEL_INODE && 0 < f.b && LOG_INO in f.files && c1 != []
    requires Between(f.t, f.l, f.o, f.b, m.fat) && m.dir == f.dir
    requires before == [] || before[|before| - 1].rec.Commit? || before[|before| - 1].rec.Abort?
    requires 0 < p && RecordCount(|c1|) + p < RecordCount(|c2|)
    ensures var g := TwoBatches(before, f.info, c1, i2, c2, f.trType, p);
            Recover(g, |g| - 1, m) == Ok(m)
    ensures Consistent(f.files, m) <==> Dropped(f.t, f.l, f.o, f.b, m.fat) || SameTable(f.t, m.fat)
  {
    hide RecordCount, TwoBatches, VolumeOk, FreeingOk, Between, Dropped, SameTable, Consistent;
    RecoverTornBehind(before, f.info, c1, i2, c2, f.trType, p, m);
    NotBegun(f);
    AllOrNone(f.t, f.l, f.files, f.dir, f.o, f.b, m.fat);
    assert m == Meta(m.fat, f.dir);
  }

  lemma NotBegun(f: Freeing)
    requires FreeingOk(f) && f.trType == DEL_INODE
    ensures VolumeOk(f.files, f.l, Meta(f.t, f.dir)) && Replayed(f.trType)
  {
  }

  // Of the frees from a up to b, some are on the disk and the others are not; those up to a all are.
  ghost predicate Partway(f: Freeing, a: nat, b: nat, m: Meta) {
    && CanDrop(f.l, f.o, a) && CanDrop(f.l, f.o, b) && |m.fat| == |f.t| && m.dir == f.dir
    && forall c: nat :: ValidClu(f.t, c) ==>
         m.fat[c] == DropEntry(f.t, f.l, f.o, a, c) || m.fat[c] == DropEntry(f.t, f.l, f.o, b, c)
  }

  /** The first batch followed the mark of another one of its chain: replay passes over both
      and hangs the clusters from that mark on the pool again. What it leaves is a consistent
      volume if and only if none of them was freed on the disk yet. */
  lemma PassedOverLinked(f: Freeing, a: nat, b: nat, before: seq<LogRecord>, c1: seq<Chunk>, i2: DeallocInfo,
                         c2: seq<Chunk>, p: nat, m: Meta)
    requires CanFree(f) && f.trType == DEL_INODE && a < b <= Size(f) && LOG_INO in f.files && c1 != [] && Partway(f, a, b, m)
    requires before != [] && before[|before| - 1].rec == Mrc(At(f, a, a).info) && before[|before| - 1].trType == f.trType
    requires 0 < p && RecordCount(|c1|) + p < RecordCount(|c2|)
    ensures var g := TwoBatches(before, At(f, a, b).info, c1, i2, c2, f.trType, p);
            && Recover(g, |g| - 1, m).Ok?
            && (Consistent(f.files, Recover(g, |g| - 1, m).value) <==> NoneFreed(f, a, b, m))
  {
    hide RecordCount, TwoBatches, RedoSource, FreeingOk, Consistent, At, Partway, NoneFreed;
    RecoverTornBehind(before, At(f, a, b).info, c1, i2, c2, f.trType, p, m);
    RelinkedFits(f, a, b, m);
    RecoverAtMark(before, m);
  }

  lemma RecoverAtMark(h: seq<LogRecord>, m: Meta)
    requires h != [] && h[|h| - 1].rec.Mrc?
    ensures Recover(h, |h| - 1, m) == RedoSource(m, h[|h| - 1].trType, h[|h| - 1].rec.info)
  {
  }

  ghost predicate NoneFreed(f: Freeing, a: nat, b: nat, m: Meta)
    requires f.o in f.l.chains && b <= Size(f)
  {
    forall i :: a <= i < b ==> ValidClu(m.fat, f.l.chains[f.o][i]) && m.fat[f.l.chains[f.o][i]] != CLU_FREE
  }

  lemma RelinkedFits(f: Freeing, a: nat, b: nat, m: Meta)
    requires CanFree(f) && f.trType == DEL_INODE && a < b <= Size(f) && LOG_INO in f.files && Partway(f, a, b, m)
    ensures var r := RedoSource(m, f.trType, At(f, a, a).info);
            r.Ok? && (Consistent(f.files, r.value) <==> NoneFreed(f, a, b, m))
  {
    hide RedoSource, VolumeOk, FreeingOk, Consistent, LayoutOk, Between, SameTable, Dropped, Partway, NoneFreed;
    var u := Relinked(f, a, b, m);
    LinkedBase(f, a, b, u);
    AllOrNone(DropTable(f.t, f.l, f.o, a), Drop(f.l, f.o, a), f.files, f.dir, f.o, b - a, u);
    NoneIsBase(f, a, b, m, u);
  }

  ghost function DropTable(t: Table, l: Layout, o: nat, a: nat): (u: Table)
    requires CanDrop(l, o, a)
    ensures Dropped(t, l, o, a, u)
  {
    seq(|t|, c requires 0 <= c < |t| => if c < VALID_CLU then 0 else DropEntry(t, l, o, a, c))
  }

  // What the redo of the mark makes of the table.
  lemma Relinked(f: Freeing, a: nat, b: nat, m: Meta) returns (u: Table)
    requires CanFree(f) && f.trType == DEL_INODE && a < b <= Size(f) && Partway(f, a, b, m)
    ensures RedoSource(m, f.trType, At(f, a, a).info) == Ok(Meta(u, f.dir))
    ensures |u| == |m.fat| == |f.t| && CanDrop(f.l, f.o, a) && ValidClu(f.t, PrevLast(f.l, f.o))
    ensures u == m.fat[PrevLast(f.l, f.o) := f.l.chains[f.o][a]]
    ensures forall c: nat :: ValidClu(f.t, c) ==>
              u[c] == DropEntry(f.t, f.l, f.o, a, c) || u[c] == DropEntry(f.t, f.l, f.o, b, c)
  {
    CanFreeSays(f);
    PrevLastIs(f.t, f.l, f.o);
    LinkIs(f.t, f.l, f.o, a);
    u := m.fat[f.info.lPrev := f.l.chains[f.o][a]];
  }

  // In two steps or in one, the same entries are written.
  lemma DropTwice(t: Table, l: Layout, o: nat, a: nat, b: nat, c: nat)
    requires LayoutOk(t, l) && CanDrop(l, o, b) && a < b && ValidClu(t, c)
    ensures CanDrop(Drop(l, o, a), o, b - a) && PrevLast(Drop(l, o, a), o) == PrevLast(l, o)
    ensures DropEntry(DropTable(t, l, o, a), Drop(l, o, a), o, b - a, c) == DropEntry(t, l, o, b, c)
  {
    PrevLastIs(t, l, o);
    DropAfter(l, o, a, o);
    assert Owned(l, c);
  }

  lemma LinkedBase(f: Freeing, a: nat, b: nat, u: Table)
    requires CanFree(f) && f.trType == DEL_INODE && a < b <= Size(f) && |u| == |f.t|
    requires forall c: nat :: ValidClu(f.t, c) ==>
               u[c] == DropEntry(f.t, f.l, f.o, a, c) || u[c] == DropEntry(f.t, f.l, f.o, b, c)
    ensures VolumeOk(f.files, Drop(f.l, f.o, a), Meta(DropTable(f.t, f.l, f.o, a), f.dir))
    ensures CanDrop(Drop(f.l, f.o, a), f.o, b - a)
    ensures Between(DropTable(f.t, f.l, f.o, a), Drop(f.l, f.o, a), f.o, b - a, u)
  {
    CanFreeSays(f);
    NotBegun(At(f, 0, 0));
    var w := DropTable(f.t, f.l, f.o, a);
    DropOk(f.t, f.l, f.o, a, w);
    DropFiles(f.files, f.l, f.dir, {}, f.o, a);
    DropTwice(f.t, f.l, f.o, a, b, VALID_CLU);
    forall c: nat | ValidClu(f.t, c)
      ensures u[c] == w[c] || u[c] == DropEntry(w, Drop(f.l, f.o, a), f.o, b - a, c)
    {
      DropTwice(f.t, f.l, f.o, a, b, c);
    }
  }

  // The pool leads to the rest of the chain, or past it, but never to a cluster that is gone.
  lemma NextDiffers(f: Freeing, a: nat, b: nat)
    requires CanFree(f) && a < b <= Size(f)
    ensures CanDrop(f.l, f.o, b) && ValidClu(f.t, f.info.lPrev)
    ensures DropEntry(f.t, f.l, f.o, b, f.info.lPrev) != f.l.chains[f.o][a]
  {
    var s := f.l.chains[f.o];
    CanFreeSays(f);
    PrevLastIs(f.t, f.l, f.o);
    LinkIs(f.t, f.l, f.o, a);
    assert Placed(f.l, f.o, a) && Placed(f.l, f.o, b);
    if b == |s| {
      var j := IndexIn(f.l.order, f.o) + 1;
      NotInOrder(f.l);
      assert OrphanAt(f.l, j);
      if j < |f.l.order| {
        assert Placed(f.l, f.l.order[j], 0);
      }
    }
  }

  lemma NoneIsBase(f: Freeing, a: nat, b: nat, m: Meta, u: Table)
    requires CanFree(f) && a < b <= Size(f) && Partway(f, a, b, m)
    requires ValidClu(f.t, PrevLast(f.l, f.o)) && u == m.fat[PrevLast(f.l, f.o) := f.l.chains[f.o][a]]
    requires CanDrop(Drop(f.l, f.o, a), f.o, b - a)
    ensures !Dropped(DropTable(f.t, f.l, f.o, a), Drop(f.l, f.o, a), f.o, b - a, u)
    ensures SameTable(DropTable(f.t, f.l, f.o, a), u) <==> NoneFreed(f, a, b, m)
  {
    var s, w := f.l.chains[f.o], DropTable(f.t, f.l, f.o, a);
    CanFreeSays(f);
    PrevLastIs(f.t, f.l, f.o);
    NextDiffers(f, a, b);
    DropTwice(f.t, f.l, f.o, a, b, PrevLast(f.l, f.o));
    forall i | a <= i < b ensures ValidClu(f.t, s[i]) && w[s[i]] == f.t[s[i]] != CLU_FREE && u[s[i]] == m.fat[s[i]] {
      LinkIs(f.t, f.l, f.o, i);
      assert Placed(f.l, f.o, i);
      FreeIs(f.t, f.l, s[i]);
    }
    forall c: nat | ValidClu(f.t, c) && u[c] != w[c]
      ensures c in f.l.pos && f.l.pos[c].0 == f.o && a <= f.l.pos[c].1 < b && s[f.l.pos[c].1] == c
    {
      assert Owned(f.l, c);
    }
  }

  function ManyRuns(): seq<Chunk> {
    seq(40, i requires 0 <= i < 40 => Chunk(7 + 2 * i, 1))
  }

  // The log file is cluster 2 and the orphan cluster 3; in `m` the orphan is freed and still hung.
  const HUNG: Meta := Meta([0, 0, 3, 0], LOG_DIR)
  const LOG_DIR: Dir := map[Loc(0, 0) := Slot(65, 2, false, 0, 0, 0)]

  function OneOrphan(): Freeing {
    Freeing(Layout(map[LOG_INO := [2], 1 := [3]], [1], map[2 := (LOG_INO, 0), 3 := (1, 0)]), [0, 0, 3, CLU_TAIL],
            map[LOG_INO := Name(0, 0, 1)], LOG_DIR, 1, 1, DEL_INODE, DeallocInfo(CLU_TAIL, 0, CLU_TAIL, 2, CLU_TAIL, CLU_TAIL), 0, 1)
  }

  lemma OneOrphanFits()
    ensures LayoutOk(OneOrphan().t, OneOrphan().l)
  {
    var f := OneOrphan();
    assert IndexIn(f.l.order, 1) == 0;
    assert OrphanAt(f.l, 0);
    assert forall c :: Holds(f.t, f.l, c);
  }

  lemma OneOrphanOk()
    ensures FreeingOk(OneOrphan()) && FreeImage(OneOrphan(), HUNG)
    ensures var f := OneOrphan(); Between(f.t, f.l, f.o, f.b, HUNG.fat) && HUNG.dir == f.dir
  {
    hide LayoutOk;
    OneOrphanFits();
    assert IndexIn(OneOrphan().l.order, 1) == 0;
    assert OrphanAt(OneOrphan().l, 0);
  }

  lemma NothingFits(l: Layout)
    ensures !LayoutOk(HUNG.fat, l)
  {
    if LayoutOk(HUNG.fat, l) {
      FreeIs(HUNG.fat, l, 2);
      FreeIs(HUNG.fat, l, 3);
      LedTo(HUNG.fat, l, 2);
    }
  }

  /** A commit, a batch of one record whose freeing is on the disk but for the link in the
      pool, and one record of a batch of three: the mount succeeds, and the pool leads to a
      free cluster. No chains at all fit that table. */
  lemma HungOnFree()
    ensures var f, c1, c2 := OneOrphan(), [Chunk(3, 1)], ManyRuns();
            && FreeingOk(f) && FreeImage(f, HUNG) && Expand(c1) == f.l.chains[f.o][f.a..f.b] && RecordCount(|c2|) == 3
            && var g := TwoBatches([LogRecord(1, UNLINK, Commit, true)], f.info, c1, f.info, c2, f.trType, 1);
               Recover(g, |g| - 1, HUNG) == Ok(HUNG) && forall l :: !LayoutOk(HUNG.fat, l)
  {
    var f, c1, c2 := OneOrphan(), [Chunk(3, 1)], ManyRuns();
    OneOrphanOk();
    forall l ensures !LayoutOk(HUNG.fat, l) {
      NothingFits(l);
    }
    assert RecordCount(1) == 1 && RecordCount(2) == 1 && RecordCount(21) == 2 && RecordCount(40) == 3;
    assert c1[1..] == [];
    PassedOver(f, [LogRecord(1, UNLINK, Commit, true)], c1, f.info, c2, 1, HUNG);
  }
}
