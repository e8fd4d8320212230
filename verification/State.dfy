/** The driver's in-core view of the layout: the segment list that mirrors the
    pool on the disk, and the inodes. */
module State {
  import opened Results
  import opened Fat
  import opened Layout
  import opened Orphans
  import opened Names
  import opened Lookup

  datatype Segment = Segment(start: nat, last: nat)

  // A new directory gets its first cluster before its name; an unlinked file has lost its name.
  datatype Standing = Unborn | Linked | Unlinked

  /** An inode in core: where its short-name slot is and how many slots its name
      takes, the two ends of its chain, whether it has a name, and the short cuts
      into its chain. */
  datatype Inode = Inode(pdir: nat, entry: nat, num: nat, start: nat, last: nat, standing: Standing, cuts: ShortCuts)

  // ----- the segment list

  ghost predicate SegAt(segs: seq<Segment>, l: Layout, j: int)
    requires |segs| == |l.order| && OrderOk(l)
  {
    0 <= j < |segs| ==>
      assert OrphanAt(l, j);
      segs[j] == Segment(l.chains[l.order[j]][0], LastOf(l, l.order[j]))
  }

  /** The list has one segment for each orphan, in the order of the pool. */
  ghost predicate SegsOk(segs: seq<Segment>, cStart: nat, cLast: nat, lLast: nat, l: Layout)
    requires OrderOk(l)
  {
    && |segs| == |l.order| && (forall j :: SegAt(segs, l, j))
    && cStart == Head(l, 0)
    && cLast == (if l.order == [] then CLU_TAIL else PoolLast(l))
    && lLast == LastOf(l, LOG_INO)
  }

  // An orphan's first and last cluster are its own.
  lemma EndsDiffer(t: Table, l: Layout, o: nat, q: nat)
    requires LayoutOk(t, l) && o in l.chains && q in l.chains && o != q
    requires l.chains[o] != [] && l.chains[q] != []
    ensures l.chains[o][0] != l.chains[q][0] && LastOf(l, o) != LastOf(l, q)
  {
    assert Placed(l, o, 0) && Placed(l, q, 0);
    assert Placed(l, o, |l.chains[o]| - 1) && Placed(l, q, |l.chains[q]| - 1);
  }

  lemma PoolStart(t: Table, l: Layout)
    requires LayoutOk(t, l)
    ensures Head(l, 0) == CLU_TAIL <==> l.order == []
    ensures PoolLast(l) != CLU_TAIL && LastOf(l, LOG_INO) != CLU_TAIL
  {
    PoolLastIs(t, l);
    LastIs(t, l, LOG_INO);
    assert OrphanAt(l, 0);
    if l.order != [] {
      LinkIs(t, l, l.order[0], 0);
    }
  }

  // Where the pool ends, as the driver finds it.
  lemma PoolEnd(t: Table, l: Layout, segs: seq<Segment>, cStart: nat, cLast: nat, lLast: nat)
    requires LayoutOk(t, l) && SegsOk(segs, cStart, cLast, lLast, l)
    ensures OrderOk(l) && PoolLast(l) == if cStart == CLU_TAIL then lLast else cLast
  {
    if l.order != [] {
      assert OrphanAt(l, 0);
      LinkIs(t, l, l.order[0], 0);
    }
  }

  /** Adding a segment at the end of the list follows the chain being hung on the pool. */
  lemma SegsHang(t: Table, l: Layout, o: nat, segs: seq<Segment>, cStart: nat, cLast: nat, lLast: nat)
    requires LayoutOk(t, l) && CanHang(l, o) && SegsOk(segs, cStart, cLast, lLast, l)
    ensures OrderOk(Hang(l, o))
    ensures var first, last := l.chains[o][0], LastOf(l, o);
            SegsOk(segs + [Segment(first, last)], if cStart == CLU_TAIL then first else cStart, last, lLast, Hang(l, o))
    ensures PoolLast(l) == if cStart == CLU_TAIL then lLast else cLast
  {
    PoolStart(t, l);
    HangOrder(l, o);
    var m := Hang(l, o);
    var all := segs + [Segment(l.chains[o][0], LastOf(l, o))];
    forall j ensures SegAt(all, m, j) {
      assert SegAt(segs, l, j);
    }
    assert OrphanAt(l, 0) && OrphanAt(m, 0);
  }

  /** The segment of an orphan is found by its first cluster. */
  lemma SegmentOf(t: Table, l: Layout, o: nat, segs: seq<Segment>, j: nat)
    requires LayoutOk(t, l) && o in l.order && o in l.chains && |segs| == |l.order| && j < |segs|
    requires forall i :: SegAt(segs, l, i)
    ensures l.chains[o] != []
    ensures segs[j].start == l.chains[o][0] <==> j == IndexIn(l.order, o)
    ensures segs[IndexIn(l.order, o)] == Segment(l.chains[o][0], LastOf(l, o))
  {
    assert SegAt(segs, l, j) && SegAt(segs, l, IndexIn(l.order, o));
    assert OrphanAt(l, j) && OrphanAt(l, IndexIn(l.order, o));
    if l.order[j] != o {
      EndsDiffer(t, l, o, l.order[j]);
    } else {
      IndexOf(l.order, j);
    }
  }

  // The segments on both sides of an orphan's say what to link past it.
  lemma SegmentSides(t: Table, l: Layout, o: nat, segs: seq<Segment>, cStart: nat, cLast: nat, lLast: nat)
    requires LayoutOk(t, l) && o in l.order && SegsOk(segs, cStart, cLast, lLast, l)
    ensures var j := IndexIn(l.order, o);
            && PrevLast(l, o) == (if j == 0 then lLast else segs[j - 1].last)
            && After(l, o) == (if j + 1 == |segs| then CLU_TAIL else segs[j + 1].start)
  {
    var j := IndexIn(l.order, o);
    NotInOrder(l);
    assert SegAt(segs, l, j + 1) && (j > 0 ==> SegAt(segs, l, j - 1));
    assert OrphanAt(l, j + 1) && (j > 0 ==> OrphanAt(l, j - 1));
  }

  lemma SegmentEnds(t: Table, l: Layout, o: nat, segs: seq<Segment>, cStart: nat, cLast: nat, lLast: nat)
    requires LayoutOk(t, l) && o in l.order && SegsOk(segs, cStart, cLast, lLast, l) && o in l.chains
    ensures var j := IndexIn(l.order, o);
            && l.chains[o] != [] && segs[j] == Segment(l.chains[o][0], LastOf(l, o))
            && (segs[j].start == cStart <==> j == 0)
            && (segs[j].last == cLast <==> j == |segs| - 1)
  {
    var j := IndexIn(l.order, o);
    assert SegAt(segs, l, j) && SegAt(segs, l, 0);
    assert OrphanAt(l, j) && OrphanAt(l, 0) && OrphanAt(l, |l.order| - 1);
    if j != 0 {
      EndsDiffer(t, l, o, l.order[0]);
    }
    if j != |l.order| - 1 {
      EndsDiffer(t, l, o, l.order[|l.order| - 1]);
    }
  }

  lemma SegsExtendAt(t: Table, l: Layout, o: nat, n: nat, segs: seq<Segment>, i: nat)
    requires LayoutOk(t, l) && o in l.order && o in l.chains && l.chains[o] != [] && |segs| == |l.order|
    requires forall j :: SegAt(segs, l, j)
    requires OrderOk(Extend(l, o, n))
    ensures var j := IndexIn(l.order, o);
            SegAt(segs[j := segs[j].(last := n)], Extend(l, o, n), i)
  {
    assert SegAt(segs, l, i) && OrphanAt(l, i);
    if i < |segs| {
      SegmentOf(t, l, o, segs, i);
      IndexOf(l.order, i);
    }
  }

  /** An orphan that grows moves the end of its segment, and of the pool if it is the last one. */
  lemma SegsExtend(t: Table, l: Layout, o: nat, n: nat, segs: seq<Segment>, cStart: nat, cLast: nat, lLast: nat)
    requires LayoutOk(t, l) && o in l.order && o in l.chains && SegsOk(segs, cStart, cLast, lLast, l)
    requires o != LOG_INO && l.chains[o] != []
    ensures OrderOk(Extend(l, o, n))
    ensures var j := IndexIn(l.order, o);
            SegsOk(segs[j := segs[j].(last := n)], cStart, if j == |segs| - 1 then n else cLast, lLast, Extend(l, o, n))
  {
    ExtendOrder(l, o, n);
    var j, k := IndexIn(l.order, o), |segs| - 1;
    var m, all := Extend(l, o, n), segs[j := segs[j].(last := n)];
    forall i ensures SegAt(all, m, i) {
      if i >= 0 {
        SegsExtendAt(t, l, o, n, segs, i);
      }
    }
    assert After(m, LOG_INO) == After(l, LOG_INO);
    assert SegAt(all, m, k) && SegAt(segs, l, k) && OrphanAt(l, k) && OrphanAt(m, k);
  }

  lemma SegsExtendFile(l: Layout, o: nat, n: nat, segs: seq<Segment>, cStart: nat, cLast: nat, lLast: nat)
    requires OrderOk(l) && o in l.chains && o !in l.order && SegsOk(segs, cStart, cLast, lLast, l) && o != LOG_INO
    ensures OrderOk(Extend(l, o, n)) && SegsOk(segs, cStart, cLast, lLast, Extend(l, o, n))
  {
    ExtendOrder(l, o, n);
    var m := Extend(l, o, n);
    forall j ensures SegAt(segs, m, j) {
      assert SegAt(segs, l, j) && OrphanAt(l, j);
    }
    assert OrphanAt(l, 0) && OrphanAt(m, 0) && OrphanAt(l, |l.order| - 1) && OrphanAt(m, |l.order| - 1);
  }

  lemma SegsCut(l: Layout, o: nat, k: nat, f: nat, segs: seq<Segment>, cStart: nat, cLast: nat, lLast: nat)
    requires OrderOk(l) && CanCut(l, o, k, f) && SegsOk(segs, cStart, cLast, lLast, l) && o != LOG_INO
    ensures OrderOk(Cut(l, o, k, f)) && SegsOk(segs, cStart, cLast, lLast, Cut(l, o, k, f))
  {
    CutOrder(l, o, k, f);
    var m := Cut(l, o, k, f);
    forall j ensures SegAt(segs, m, j) {
      assert SegAt(segs, l, j) && OrphanAt(l, j);
    }
    assert OrphanAt(l, 0) && OrphanAt(m, 0) && OrphanAt(l, |l.order| - 1) && OrphanAt(m, |l.order| - 1);
  }

  lemma SegsDropAt(l: Layout, m: Layout, o: nat, segs: seq<Segment>, i: nat)
    requires OrderOk(l) && o in l.order && o in l.chains && |segs| == |l.order| && forall j :: SegAt(segs, l, j)
    requires OrderOk(m) && m.order == Without(l.order, IndexIn(l.order, o))
    requires forall q :: q in l.chains && q != o ==> q in m.chains && m.chains[q] == l.chains[q]
    ensures SegAt(Without(segs, IndexIn(l.order, o)), m, i)
  {
    var j := IndexIn(l.order, o);
    var k := if i < j then i else i + 1;
    if i < |segs| - 1 {
      WithoutAt(segs, j, i);
      WithoutAt(l.order, j, i);
      assert SegAt(segs, l, k) && OrphanAt(l, k) && OrphanAt(m, i);
      assert l.order[k] != o;
    }
  }

  lemma SegsDropEnds(l: Layout, m: Layout, o: nat, segs: seq<Segment>)
    requires OrderOk(l) && o in l.order && |segs| == |l.order| && |segs| > 1 && forall j :: SegAt(segs, l, j)
    requires OrderOk(m) && |m.order| == |segs| - 1 && forall j :: SegAt(Without(segs, IndexIn(l.order, o)), m, j)
    ensures var j, n := IndexIn(l.order, o), |segs|;
            && Head(m, 0) == (if j == 0 then segs[1].start else Head(l, 0))
            && PoolLast(m) == (if j == n - 1 then segs[n - 2].last else PoolLast(l))
  {
    var j, n := IndexIn(l.order, o), |segs|;
    var rest := Without(segs, j);
    WithoutAt(segs, j, 0);
    WithoutAt(segs, j, n - 2);
    assert SegAt(rest, m, 0) && SegAt(rest, m, n - 2) && OrphanAt(m, 0) && OrphanAt(m, n - 2);
    assert SegAt(segs, l, 0) && SegAt(segs, l, n - 1) && OrphanAt(l, 0) && OrphanAt(l, n - 1);
  }

  /** Taking a segment out of the list follows the whole orphan being freed. */
  lemma SegsDrop(t: Table, l: Layout, o: nat, segs: seq<Segment>, cStart: nat, cLast: nat, lLast: nat)
    requires LayoutOk(t, l) && o in l.order && o in l.chains && SegsOk(segs, cStart, cLast, lLast, l)
    ensures var j, n, m := IndexIn(l.order, o), |segs|, Drop(l, o, |l.chains[o]|);
            && OrderOk(m)
            && SegsOk(Without(segs, j),
                      if n == 1 then CLU_TAIL else if j == 0 then segs[1].start else cStart,
                      if n == 1 then CLU_TAIL else if j == n - 1 then segs[n - 2].last else cLast,
                      lLast, m)
  {
    DropAllOrder(l, o);
    NotInOrder(l);
    var j, n, m := IndexIn(l.order, o), |segs|, Drop(l, o, |l.chains[o]|);
    var rest := Without(segs, j);
    forall i ensures SegAt(rest, m, i) {
      if i >= 0 {
        SegsDropAt(l, m, o, segs, i);
      }
    }
    if n > 1 {
      SegsDropEnds(l, m, o, segs);
    }
  }

  lemma SegsForget(t: Table, l: Layout, f: nat, segs: seq<Segment>, cStart: nat, cLast: nat, lLast: nat)
    requires LayoutOk(t, l) && f in l.chains && l.chains[f] == [] && SegsOk(segs, cStart, cLast, lLast, l)
    ensures LayoutOk(t, Forget(l, f)) && SegsOk(segs, cStart, cLast, lLast, Forget(l, f))
  {
    ForgetOk(t, l, f);
    var m := Forget(l, f);
    forall j ensures SegAt(segs, m, j) {
      assert SegAt(segs, l, j) && OrphanAt(l, j) && OrphanAt(m, j);
    }
    assert OrphanAt(l, 0) && OrphanAt(m, 0) && OrphanAt(l, |l.order| - 1) && OrphanAt(m, |l.order| - 1);
  }

  // ----- the inodes

  function NameOf(i: Inode): Name {
    Name(i.pdir, i.entry, i.num)
  }

  ghost predicate InodeAt(inodes: map<nat, Inode>, files: map<nat, Name>, l: Layout, o: nat) {
    o in inodes ==>
      && o in l.chains && o != LOG_INO
      && inodes[o].start == (if l.chains[o] == [] then CLU_TAIL else l.chains[o][0])
      && inodes[o].last == (if l.chains[o] == [] then CLU_TAIL else LastOf(l, o))
      && (inodes[o].standing.Linked? <==> o in files)
      && (inodes[o].standing.Linked? ==> files[o] == NameOf(inodes[o]))
      && (o in l.order ==> inodes[o].standing.Unlinked?)
      && (inodes[o].standing.Unborn? ==> inodes[o].pdir == CLU_TAIL)
      && CutsOk(inodes[o].cuts, l.chains[o])
  }

  /** Every inode knows the two ends of its chain and its name, and its short cuts are right. */
  ghost predicate InodesOk(inodes: map<nat, Inode>, files: map<nat, Name>, l: Layout) {
    forall o :: InodeAt(inodes, files, l, o)
  }

  function Grown(i: Inode, n: nat): Inode {
    i.(start := if i.start == CLU_TAIL then n else i.start, last := n)
  }

  // An inode that loses its name loses its fast-seek points with it.
  function Unlinking(i: Inode): Inode {
    i.(standing := Unlinked, cuts := i.cuts.(fastSeek := None))
  }

  // The ends of a chain in use are clusters, not the end mark.
  lemma EndsValid(t: Table, inodes: map<nat, Inode>, files: map<nat, Name>, l: Layout, o: nat)
    requires LayoutOk(t, l) && InodesOk(inodes, files, l) && o in inodes
    ensures o in l.chains && o != LOG_INO
    ensures inodes[o].start == CLU_TAIL <==> l.chains[o] == []
    ensures inodes[o].last == CLU_TAIL <==> l.chains[o] == []
    ensures l.chains[o] != [] ==> ValidClu(t, inodes[o].start) && ValidClu(t, inodes[o].last)
    ensures l.chains[o] != [] ==> inodes[o].last == LastOf(l, o) && inodes[o].start == l.chains[o][0]
    ensures inodes[o].standing.Linked? <==> o in files
    ensures inodes[o].standing.Linked? ==> files[o] == NameOf(inodes[o])
    ensures o in l.order ==> inodes[o].standing.Unlinked?
  {
    assert InodeAt(inodes, files, l, o);
    if l.chains[o] != [] {
      LinkIs(t, l, o, 0);
      LastIs(t, l, o);
    }
  }

  lemma InodesExtend(t: Table, inodes: map<nat, Inode>, files: map<nat, Name>, l: Layout, o: nat, n: nat)
    requires LayoutOk(t, l) && InodesOk(inodes, files, l) && o in inodes
    ensures o in l.chains
    ensures InodesOk(inodes[o := Grown(inodes[o], n)], files, Extend(l, o, n))
  {
    EndsValid(t, inodes, files, l, o);
    assert InodeAt(inodes, files, l, o);
    CutsGrow(inodes[o].cuts, l.chains[o], n);
    var after, m := inodes[o := Grown(inodes[o], n)], Extend(l, o, n);
    forall q ensures InodeAt(after, files, m, q) {
      assert InodeAt(inodes, files, l, q);
    }
  }

  // What the inodes say about a layout is the ends of their chains and their place in the pool.
  lemma InodesFrame(inodes: map<nat, Inode>, files: map<nat, Name>, l: Layout, m: Layout)
    requires InodesOk(inodes, files, l)
    requires forall o :: o in inodes && o in l.chains ==>
               && o in m.chains && m.chains[o] == l.chains[o]
               && (o in m.order ==> o in l.order || inodes[o].standing.Unlinked?)
    ensures InodesOk(inodes, files, m)
  {
    forall o ensures InodeAt(inodes, files, m, o) {
      assert InodeAt(inodes, files, l, o);
    }
  }

  lemma InodesUnlink(inodes: map<nat, Inode>, files: map<nat, Name>, l: Layout, o: nat)
    requires InodesOk(inodes, files, l) && o in inodes
    ensures InodesOk(inodes[o := Unlinking(inodes[o])], files - {o}, l)
  {
    var after, rest := inodes[o := Unlinking(inodes[o])], files - {o};
    forall q ensures InodeAt(after, rest, l, q) {
      assert InodeAt(inodes, files, l, q);
    }
  }

  lemma InodesLink(inodes: map<nat, Inode>, files: map<nat, Name>, l: Layout, o: nat, n: Name)
    requires InodesOk(inodes, files, l) && o in inodes && o !in l.order
    ensures var i := inodes[o].(pdir := n.pdir, entry := n.entry, num := n.num, standing := Linked);
            InodesOk(inodes[o := i], files[o := n], l)
  {
    var i := inodes[o].(pdir := n.pdir, entry := n.entry, num := n.num, standing := Linked);
    var after, more := inodes[o := i], files[o := n];
    forall q ensures InodeAt(after, more, l, q) {
      assert InodeAt(inodes, files, l, q);
    }
  }

  // ----- the short cuts of an inode

  /** Short cuts that are right may take the place of others. */
  lemma InodesRecut(inodes: map<nat, Inode>, files: map<nat, Name>, l: Layout, o: nat, s: ShortCuts)
    requires InodesOk(inodes, files, l) && o in inodes
    requires o in l.chains ==> CutsOk(s, l.chains[o])
    ensures InodesOk(inodes[o := inodes[o].(cuts := s)], files, l)
  {
    var after := inodes[o := inodes[o].(cuts := s)];
    forall q ensures InodeAt(after, files, l, q) {
      assert InodeAt(inodes, files, l, q);
    }
  }

  // The chain of an inode can be walked with the short cuts it has, whether it hangs in the pool or not.
  lemma InodeChain(t: Table, inodes: map<nat, Inode>, files: map<nat, Name>, l: Layout, o: nat)
    requires LayoutOk(t, l) && InodesOk(inodes, files, l) && o in inodes
    ensures o in l.chains && CutsOk(inodes[o].cuts, l.chains[o]) && Walkable(t, l.chains[o])
    ensures if l.chains[o] == [] then inodes[o].start == CLU_TAIL else inodes[o].start == l.chains[o][0] != CLU_TAIL
    ensures !inodes[o].standing.Unlinked? && l.chains[o] != [] ==> ChainFrom(t, inodes[o].start, l.chains[o])
  {
    EndsValid(t, inodes, files, l, o);
    assert InodeAt(inodes, files, l, o);
    OwnedPath(t, l, o);
    if l.chains[o] != [] {
      LastIs(t, l, o);
      AfterIs(t, l, o);
      if !inodes[o].standing.Unlinked? {
        FileIsChain(t, l, o);
      }
    }
  }
}
