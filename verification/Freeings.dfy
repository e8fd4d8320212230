/** A chain is freed in batches. Between two batches the table is what it was,
    with the clusters of the batches before freed: these are the facts the freeing
    loop keeps, and what they come to when the last batch is done. */
module Freeings {
  import opened Results
  import opened Fat
  import opened Records
  import opened Undo
  import opened Redo
  import opened Layout
  import opened Orphans
  import opened Names
  import opened Crash
  import opened Chunks
  import opened State

  // The same freeing with a clusters gone and those up to b listed.
  ghost function At(f: Freeing, a: nat, b: nat): Freeing
    requires f.o in f.l.chains
  {
    f.(a := a, b := b,
       info := f.info.(next := if b < |f.l.chains[f.o]| then f.l.chains[f.o][b] else CLU_TAIL))
  }

  ghost predicate CanFree(f: Freeing) {
    f.o in f.l.chains && f.o in f.l.order && FreeingOk(At(f, 0, 0))
  }

  ghost function Size(f: Freeing): nat
    requires f.o in f.l.chains
  {
    |f.l.chains[f.o]|
  }

  lemma AtOk(f: Freeing, a: nat, b: nat)
    requires CanFree(f) && a <= b <= Size(f)
    ensures FreeingOk(At(f, a, b))
  {
    assert ZeroedSlots(At(f, a, b)) == ZeroedSlots(At(f, 0, 0));
  }

  lemma AtImage(f: Freeing, a: nat, b: nat, m: Meta)
    requires CanFree(f) && a <= b <= Size(f) && FreeImage(At(f, a, a), m)
    ensures FreeImage(At(f, a, b), m)
  {
    assert ZeroedSlots(At(f, a, b)) == ZeroedSlots(At(f, a, a));
  }

  // The clusters of one batch.
  lemma BatchClusters(f: Freeing, a: nat, b: nat)
    requires CanFree(f) && a <= b <= Size(f)
    ensures forall c: nat :: c in f.l.chains[f.o][a..b] <==> ListedHere(At(f, a, b), c)
    ensures forall c: nat :: c in f.l.chains[f.o][a..b] ==> ValidClu(f.t, c) && Loose(At(f, a, b), c)
  {
    forall c: nat ensures c in f.l.chains[f.o][a..b] <==> ListedHere(At(f, a, b), c) {
      SliceIs(f.l, f.o, a, b, c);
    }
    forall c: nat | c in f.l.chains[f.o][a..b] ensures ValidClu(f.t, c) {
      var i :| 0 <= i < b - a && f.l.chains[f.o][a..b][i] == c;
      LinkIs(f.t, f.l, f.o, a + i);
    }
  }

  /** Freeing the clusters of a batch moves the boundary of what is gone. */
  lemma BatchDone(f: Freeing, a: nat, b: nat, m: Meta, u: Table)
    requires CanFree(f) && a <= b <= Size(f) && FreeImage(At(f, a, a), m)
    requires FreeFrom(m.fat, f.l.chains[f.o][a..b], 0) == Ok(u)
    ensures |u| == |f.t| && FreeImage(At(f, b, b), m.(fat := u))
  {
    var s := f.l.chains[f.o][a..b];
    BatchClusters(f, a, b);
    forall k | 0 <= k < |s| ensures ValidClu(m.fat, s[k]) {
      assert s[k] in s;
    }
    FreeFromAt(m.fat, s, 0);
    assert s[0..] == s;
    assert ZeroedSlots(At(f, b, b)) == ZeroedSlots(At(f, a, a));
    forall c: nat | ValidClu(f.t, c) && !Loose(At(f, b, b), c) ensures u[c] == DropEntry(f.t, f.l, f.o, b, c) {
      SliceIs(f.l, f.o, a, b, c);
      AtOk(f, a, a);
      PrevLastIs(f.t, f.l, f.o);
    }
  }

  /** What is left of the chain is still linked as it was, up to its last cluster. */
  lemma ChainLeft(f: Freeing, a: nat, m: Meta)
    requires CanFree(f) && a < Size(f) && FreeImage(At(f, a, a), m)
    ensures var s := f.l.chains[f.o];
            Ends(m.fat, s[a..], s[a], s[|s| - 1])
  {
    var s := f.l.chains[f.o];
    forall i | a <= i < |s|
      ensures ValidClu(m.fat, s[i]) && m.fat[s[i]] == f.t[s[i]]
      ensures f.t[s[i]] == if i + 1 < |s| then s[i + 1] else After(f.l, f.o)
      ensures i < |s| - 1 ==> s[i] != s[|s| - 1]
    {
      LinkLeft(f, a, i, m);
    }
    AfterIs(f.t, f.l, f.o);
    LinkLeft(f, a, |s| - 1, m);
    var p := s[a..];
    assert forall i :: 0 <= i < |p| ==> p[i] == s[a + i];
  }

  lemma LinkLeft(f: Freeing, a: nat, i: nat, m: Meta)
    requires CanFree(f) && a <= i < Size(f) && FreeImage(At(f, a, a), m)
    ensures var s := f.l.chains[f.o];
            && ValidClu(f.t, s[i]) && m.fat[s[i]] == f.t[s[i]]
            && f.t[s[i]] == (if i + 1 < |s| then s[i + 1] else After(f.l, f.o))
            && (i < |s| - 1 ==> s[i] != s[|s| - 1])
  {
    var s := f.l.chains[f.o];
    LinkIs(f.t, f.l, f.o, i);
    assert Placed(f.l, f.o, i) && Placed(f.l, f.o, |s| - 1);
    PrevLastIs(f.t, f.l, f.o);
    if f.trType == TRUNCATE_B {
      TailIs(At(f, 0, 0));
    }
  }

  /** When every batch is done and the pool and the file are put right, the table
      is the one with the whole orphan dropped. */
  lemma AllDone(f: Freeing, m: Meta)
    requires CanFree(f) && FreeImage(At(f, Size(f), Size(f)), m)
    requires ValidClu(m.fat, f.info.lPrev) && m.fat[f.info.lPrev] == After(f.l, f.o)
    requires f.trType == TRUNCATE_B && f.info.fLast != CLU_TAIL ==>
               ValidClu(m.fat, f.info.fLast) && m.fat[f.info.fLast] == CLU_TAIL
    ensures Dropped(f.t, f.l, f.o, Size(f), m.fat)
    ensures LayoutOk(m.fat, Drop(f.l, f.o, Size(f)))
  {
    var n := Size(f);
    PrevLastIs(f.t, f.l, f.o);
    if f.trType == TRUNCATE_B {
      TailIs(At(f, 0, 0));
    }
    forall c: nat | ValidClu(f.t, c) ensures m.fat[c] == DropEntry(f.t, f.l, f.o, n, c) {
    }
    DropOk(f.t, f.l, f.o, n, m.fat);
  }

  // A write where the batches allow one is not seen in the image.
  lemma LooseWrite(f: Freeing, a: nat, b: nat, m: Meta, c: nat, v: nat)
    requires f.o in f.l.chains && FreeImage(At(f, a, b), m) && ValidClu(m.fat, c) && Loose(At(f, a, b), c)
    ensures FreeImage(At(f, a, b), m.(fat := m.fat[c := v]))
  {
  }

  lemma CanFreeSays(f: Freeing)
    requires CanFree(f)
    ensures LayoutOk(f.t, f.l) && CanDrop(f.l, f.o, Size(f)) && PosOk(f.l) && Replayed(f.trType)
    ensures f.info.lPrev == PrevLast(f.l, f.o) && f.info.lNext == After(f.l, f.o)
    ensures ValidClu(f.t, f.info.lPrev) && (After(f.l, f.o) == CLU_TAIL || ValidClu(f.t, After(f.l, f.o)))
    ensures f.trType == TRUNCATE_B && f.info.fLast != CLU_TAIL ==> ValidClu(f.t, f.info.fLast)
    ensures f.trType == TRUNCATE_B && f.info.fLast == f.info.lPrev ==> After(f.l, f.o) == CLU_TAIL
  {
    PrevLastIs(f.t, f.l, f.o);
    AfterIs(f.t, f.l, f.o);
    if f.trType == TRUNCATE_B {
      TailIs(At(f, 0, 0));
      if f.file != LOG_INO && f.l.chains[f.file] != [] {
        LastIs(f.t, f.l, f.file);
        assert FileAt(f.files, f.l, f.dir, ZeroedSlots(At(f, 0, 0)), f.file);
      }
    }
  }

  lemma ImageSize(f: Freeing, a: nat, b: nat, m: Meta)
    requires f.o in f.l.chains && FreeImage(At(f, a, b), m)
    ensures |m.fat| == |f.t|
  {
  }

  // ----- setting out

  /** Deleting an unlinked file frees its orphan. */
  ghost function Deleting(m: Meta, files: map<nat, Name>, l: Layout, o: nat, pdir: nat, entry: nat): Freeing
    requires OrderOk(l) && o in l.order
  {
    Freeing(l, m.fat, files, m.dir, o, o, DEL_INODE,
            DeallocInfo(pdir, entry, CLU_TAIL, PrevLast(l, o), After(l, o), 0), 0, 0)
  }

  lemma DeletingOk(m: Meta, files: map<nat, Name>, l: Layout, o: nat, pdir: nat, entry: nat)
    requires VolumeOk(files, l, m) && o in l.order && o in l.chains && l.chains[o] != []
    ensures var f := Deleting(m, files, l, o, pdir, entry);
            CanFree(f) && FreeImage(At(f, 0, 0), m) && 0 < Size(f) && ZeroedSlots(f) == {}
  {
    PrevLastIs(m.fat, l, o);
  }

  // The pool as it will be when what is cut off hangs at its end.
  ghost function CutLayout(l: Layout, o: nat, k: nat, x: nat): Layout
    requires o in l.chains && k <= |l.chains[o]|
  {
    Hang(Cut(l, o, k, x), x)
  }

  ghost function LastKept(l: Layout, o: nat, k: nat): nat
    requires o in l.chains && k <= |l.chains[o]|
  {
    if k > 0 then l.chains[o][k - 1] else CLU_TAIL
  }

  ghost function CutPool(t: Table, l: Layout, o: nat, k: nat, x: nat): Table
    requires OrderOk(l) && CanCut(l, o, k, x) && OrderOk(Cut(l, o, k, x))
    requires k > 0 ==> ValidClu(t, l.chains[o][k - 1])
    requires ValidClu(t, PoolLast(Cut(l, o, k, x)))
  {
    CutTable(t, l, o, k)[PoolLast(Cut(l, o, k, x)) := l.chains[o][k]]
  }

  lemma CutPoolOk(t: Table, l: Layout, o: nat, k: nat, x: nat)
    requires LayoutOk(t, l) && CanCut(l, o, k, x)
    ensures OrderOk(Cut(l, o, k, x)) && CanHang(Cut(l, o, k, x), x) && (k > 0 ==> ValidClu(t, l.chains[o][k - 1]))
    ensures ValidClu(t, PoolLast(Cut(l, o, k, x)))
    ensures LayoutOk(CutPool(t, l, o, k, x), CutLayout(l, o, k, x))
    ensures x in CutLayout(l, o, k, x).order && CutLayout(l, o, k, x).chains[x] == l.chains[o][k..]
    ensures PrevLast(CutLayout(l, o, k, x), x) == PoolLast(Cut(l, o, k, x))
    ensures After(CutLayout(l, o, k, x), x) == CLU_TAIL
    ensures PrevOwner(CutLayout(l, o, k, x), x) == PoolOwner(l)
  {
    CutOk(t, l, o, k, x);
    CutOrder(l, o, k, x);
    HangOk(CutTable(t, l, o, k), Cut(l, o, k, x), x);
    IndexSnoc(l.order, x, x);
    HangOrder(Cut(l, o, k, x), x);
    assert OrphanAt(l, |l.order| - 1);
  }

  /** Truncating a file frees what is cut off it as the last orphan of the pool. */
  ghost function Cutting(m: Meta, files: map<nat, Name>, l: Layout, o: nat, k: nat, x: nat, pdir: nat, entry: nat): Freeing
    requires LayoutOk(m.fat, l) && CanCut(l, o, k, x)
  {
    CutPoolOk(m.fat, l, o, k, x);
    Freeing(CutLayout(l, o, k, x), CutPool(m.fat, l, o, k, x), files, m.dir, x, o, TRUNCATE_B,
            DeallocInfo(pdir, entry, LastKept(l, o, k), PoolLast(Cut(l, o, k, x)), CLU_TAIL, 0), 0, 0)
  }

  lemma CuttingFiles(m: Meta, files: map<nat, Name>, l: Layout, o: nat, k: nat, x: nat)
    requires VolumeOk(files, l, m) && CanCut(l, o, k, x) && o in files
    ensures FilesOk(files, CutLayout(l, o, k, x), m.dir, if k == 0 then {Short(files[o])} else {})
    ensures AllClaimed(files, CutLayout(l, o, k, x)) && x !in files
  {
    assert FileAt(files, l, m.dir, {}, x);
    var n := CutLayout(l, o, k, x);
    var more := if k == 0 then {Short(files[o])} else {};
    FilesFrame(files, l, n, m.dir, {}, more);
    assert {} + more == more;
    forall q ensures Claimed(files, n, q) {
      assert Claimed(files, l, q);
    }
  }

  lemma CuttingOk(m: Meta, files: map<nat, Name>, l: Layout, o: nat, k: nat, x: nat, pdir: nat, entry: nat)
    requires VolumeOk(files, l, m) && CanCut(l, o, k, x) && o in files && Short(files[o]) == Loc(pdir, entry)
    ensures var f := Cutting(m, files, l, o, k, x, pdir, entry);
            CanFree(f) && FreeImage(At(f, 0, 0), m) && Size(f) == |l.chains[o]| - k
  {
    CutPoolOk(m.fat, l, o, k, x);
    CuttingFiles(m, files, l, o, k, x);
    var f := Cutting(m, files, l, o, k, x, pdir, entry);
    if k > 0 {
      LinkIs(m.fat, l, o, k - 1);
    }
    CuttingTail(m, files, l, o, k, x, pdir, entry);
    assert ZeroedSlots(At(f, 0, 0)) == if k == 0 then {Short(files[o])} else {};
  }

  lemma CuttingTail(m: Meta, files: map<nat, Name>, l: Layout, o: nat, k: nat, x: nat, pdir: nat, entry: nat)
    requires VolumeOk(files, l, m) && CanCut(l, o, k, x) && o in files && Short(files[o]) == Loc(pdir, entry)
    ensures TailOk(At(Cutting(m, files, l, o, k, x, pdir, entry), 0, 0))
  {
    CutPoolOk(m.fat, l, o, k, x);
    if o == LOG_INO {
      assert CutLayout(l, o, k, x).order == [x];
    }
  }

  /** What is left when the truncation is done: the same chains, one of them cut. */
  lemma CutDone(l: Layout, o: nat, k: nat, x: nat)
    requires OrderOk(l) && CanCut(l, o, k, x)
    ensures var n := CutLayout(l, o, k, x);
            && x in n.order && x in n.chains
            && var d := Drop(n, x, |n.chains[x]|);
               && d.order == l.order && d.chains[x] == [] && x in d.chains
               && Forget(d, x).chains == l.chains[o := l.chains[o][..k]]
  {
    var n := CutLayout(l, o, k, x);
    assert OrphanAt(l, IndexIn(l.order, x));
    IndexSnoc(l.order, x, x);
    var d := Drop(n, x, |n.chains[x]|);
    assert d.order == l.order;
  }

  /** The segment list after what is cut off a file was added to it. */
  lemma CutSegs(t: Table, l: Layout, o: nat, k: nat, x: nat, segs: seq<Segment>, cStart: nat, cLast: nat, lLast: nat)
    requires LayoutOk(t, l) && CanCut(l, o, k, x)
    requires if o == LOG_INO then segs == [] && cStart == CLU_TAIL && k > 0 && lLast == l.chains[o][k - 1]
             else SegsOk(segs, cStart, cLast, lLast, l)
    ensures OrderOk(CutLayout(l, o, k, x))
    ensures var start, last := l.chains[o][k], LastOf(l, o);
            SegsOk(segs + [Segment(start, last)], if cStart == CLU_TAIL then start else cStart, last, lLast, CutLayout(l, o, k, x))
  {
    CutOk(t, l, o, k, x);
    CutOrder(l, o, k, x);
    var m := Cut(l, o, k, x);
    if o != LOG_INO {
      SegsCut(l, o, k, x, segs, cStart, cLast, lLast);
    } else {
      assert forall j :: SegAt(segs, m, j);
      assert SegsOk(segs, cStart, CLU_TAIL, lLast, m);
    }
    SegsHang(CutTable(t, l, o, k), m, x, segs, cStart, if o == LOG_INO then CLU_TAIL else cLast, lLast);
  }
}
