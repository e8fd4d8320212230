/** Appending a cluster: to a file, to an orphan in the pool, or as the first
    cluster of an unlinked file, and what each keeps. */
module Growth {
  import opened Results
  import opened Fat
  import opened Records
  import opened Undo
  import opened Layout
  import opened Orphans
  import opened Names
  import opened Crash
  import opened State
  import opened Windows

  ghost function ChainOf(l: Layout, o: nat): seq<nat> {
    if o in l.chains then l.chains[o] else []
  }

  function Appended(t: Table, last: nat, n: nat): Table
    requires ValidClu(t, n) && (last != CLU_TAIL ==> ValidClu(t, last))
  {
    if last == CLU_TAIL then t[n := CLU_TAIL] else t[n := CLU_TAIL][last := n]
  }

  ghost function LagAfter(lag: set<Loc>, i: Inode): set<Loc> {
    if i.last == CLU_TAIL && i.standing.Linked? then lag + {Loc(i.pdir, i.entry)} else lag
  }

  lemma SegsExtendNamed(l: Layout, o: nat, n: nat, segs: seq<Segment>, cStart: nat, cLast: nat, lLast: nat,
                        inodes: map<nat, Inode>, files: map<nat, Name>, t: Table)
    requires LayoutOk(t, l) && InodesOk(inodes, files, l) && o in inodes && !inodes[o].standing.Unlinked?
    requires SegsOk(segs, cStart, cLast, lLast, l)
    ensures o in l.chains && OrderOk(Extend(l, o, n)) && SegsOk(segs, cStart, cLast, lLast, Extend(l, o, n))
  {
    EndsValid(t, inodes, files, l, o);
    SegsExtendFile(l, o, n, segs, cStart, cLast, lLast);
  }

  lemma AppendLags(ph: Phase, dir: Dir, lag: set<Loc>, files: map<nat, Name>, l: Layout, inodes: map<nat, Inode>,
                   o: nat, n: nat, who: Option<nat>)
    requires InodesOk(inodes, files, l) && FilesOk(files, l, dir, lag) && LagOk(lag, ph, dir, files, l, who)
    requires o in inodes && ph.Open?
    requires inodes[o].standing.Linked? && inodes[o].last == CLU_TAIL ==>
               who == Some(o) && MayLag(ph, Loc(inodes[o].pdir, inodes[o].entry))
    requires inodes[o].last == CLU_TAIL ==> o in l.chains && l.chains[o] == []
    ensures o in l.chains && LagOk(LagAfter(lag, inodes[o]), ph, dir, files, Extend(l, o, n), who)
  {
    assert InodeAt(inodes, files, l, o) && FileAt(files, l, dir, lag, o);
  }

  lemma AppendOk(t: Table, dir: Dir, lag: set<Loc>, files: map<nat, Name>, l: Layout, inodes: map<nat, Inode>,
                 o: nat, n: nat)
    requires LayoutOk(t, l) && InodesOk(inodes, files, l) && FilesOk(files, l, dir, lag) && o in inodes
    requires !inodes[o].standing.Unlinked? && ValidClu(t, n) && t[n] == CLU_FREE
    ensures o in l.chains && (l.chains[o] != [] ==> ValidClu(t, LastOf(l, o)))
    ensures LayoutOk(ExtendTable(t, l, o, n), Extend(l, o, n))
    ensures inodes[o].last != CLU_TAIL ==> ValidClu(t, inodes[o].last)
    ensures ExtendTable(t, l, o, n) == Appended(t, inodes[o].last, n)
    ensures |Extend(l, o, n).pos| == |l.pos| + 1
    ensures InodesOk(inodes[o := Grown(inodes[o], n)], files, Extend(l, o, n))
    ensures inodes[o].last == CLU_TAIL ==> l.chains[o] == []
    ensures FilesOk(files, Extend(l, o, n), dir, LagAfter(lag, inodes[o]))
  {
    EndsValid(t, inodes, files, l, o);
    FreeIs(t, l, n);
    ExtendOk(t, l, o, n);
    ExtendCount(l, o, n);
    InodesExtend(t, inodes, files, l, o, n);
    assert FileAt(files, l, dir, lag, o);
    var more := if inodes[o].last == CLU_TAIL && inodes[o].standing.Linked?
                then {Loc(inodes[o].pdir, inodes[o].entry)} else {};
    FilesFrame(files, l, Extend(l, o, n), dir, lag, more);
    assert lag + {} == lag;
  }

  lemma OrphanAppendOk(t: Table, dir: Dir, lag: set<Loc>, files: map<nat, Name>, l: Layout, inodes: map<nat, Inode>,
                       o: nat, n: nat, segs: seq<Segment>, cStart: nat, cLast: nat, lLast: nat,
                       ph: Phase, who: Option<nat>)
    requires LayoutOk(t, l) && InodesOk(inodes, files, l) && FilesOk(files, l, dir, lag) && o in inodes
    requires SegsOk(segs, cStart, cLast, lLast, l) && LagOk(lag, ph, dir, files, l, who)
    requires inodes[o].standing.Unlinked? && inodes[o].last != CLU_TAIL && o in l.order
    requires ValidClu(t, n) && t[n] == CLU_FREE
    ensures o in l.chains && l.chains[o] != [] && inodes[o].start == l.chains[o][0]
    ensures ValidClu(t, inodes[o].last) && inodes[o].last != n
    ensures LayoutOk(Appended(t, inodes[o].last, n)[n := After(l, o)], Extend(l, o, n))
    ensures |Extend(l, o, n).pos| == |l.pos| + 1
    ensures InodesOk(inodes[o := Grown(inodes[o], n)], files, Extend(l, o, n))
    ensures FilesOk(files, Extend(l, o, n), dir, lag) && LagOk(lag, ph, dir, files, Extend(l, o, n), who)
    ensures OrderOk(Extend(l, o, n))
    ensures var j := IndexIn(l.order, o);
            j < |segs| && SegsOk(segs[j := segs[j].(last := n)], cStart, if j == |segs| - 1 then n else cLast, lLast, Extend(l, o, n))
  {
    hide LayoutOk, InodesOk, SegsOk, FilesOk, LagOk, Extend, Appended, OrderOk, PosOk, After;
    EndsValid(t, inodes, files, l, o);
    OrphanLayoutOk(t, l, o, n);
    SegsCount(l, segs, cStart, cLast, lLast);
    ExtendCount(l, o, n);
    InodesExtend(t, inodes, files, l, o, n);
    SegsExtend(t, l, o, n, segs, cStart, cLast, lLast);
    OrphanNamesOk(dir, lag, files, l, o, n, ph, who);
  }

  lemma SegsCount(l: Layout, segs: seq<Segment>, cStart: nat, cLast: nat, lLast: nat)
    requires OrderOk(l) && SegsOk(segs, cStart, cLast, lLast, l)
    ensures |segs| == |l.order|
  {
  }

  lemma OrphanLayoutOk(t: Table, l: Layout, o: nat, n: nat)
    requires LayoutOk(t, l) && o in l.order && ValidClu(t, n) && t[n] == CLU_FREE
    ensures OrderOk(l) && o in l.chains && l.chains[o] != [] && o != LOG_INO && n !in l.pos
    ensures ValidClu(t, LastOf(l, o)) && LastOf(l, o) != n
    ensures LayoutOk(Appended(t, LastOf(l, o), n)[n := After(l, o)], Extend(l, o, n))
    ensures IndexIn(l.order, o) < |l.order|
  {
    assert OrphanAt(l, IndexIn(l.order, o));
    FreeIs(t, l, n);
    LastIs(t, l, o);
    AfterIs(t, l, o);
    ExtendOk(t, l, o, n);
    assert Appended(t, LastOf(l, o), n)[n := After(l, o)] == ExtendTable(t, l, o, n);
  }

  lemma OrphanNamesOk(dir: Dir, lag: set<Loc>, files: map<nat, Name>, l: Layout, o: nat, n: nat, ph: Phase, who: Option<nat>)
    requires FilesOk(files, l, dir, lag) && LagOk(lag, ph, dir, files, l, who) && o in l.chains && l.chains[o] != []
    ensures FilesOk(files, Extend(l, o, n), dir, lag) && LagOk(lag, ph, dir, files, Extend(l, o, n), who)
  {
    var none: set<Loc> := {};
    FilesFrame(files, l, Extend(l, o, n), dir, lag, none);
    assert lag + none == lag;
  }

  lemma FirstAppendOk(t: Table, dir: Dir, lag: set<Loc>, files: map<nat, Name>, l: Layout, inodes: map<nat, Inode>,
                      o: nat, n: nat, segs: seq<Segment>, cStart: nat, cLast: nat, lLast: nat)
    requires LayoutOk(t, l) && InodesOk(inodes, files, l) && FilesOk(files, l, dir, lag) && o in inodes
    requires SegsOk(segs, cStart, cLast, lLast, l)
    requires inodes[o].standing.Unlinked? && inodes[o].last == CLU_TAIL && o !in l.order
    requires ValidClu(t, n) && t[n] == CLU_FREE
    ensures o in l.chains && l.chains[o] == []
    ensures var m := Extend(l, o, n);
            && CanHang(m, o) && m.chains[o] == [n] && OrderOk(m)
            && LayoutOk(t[n := CLU_TAIL], m) && SegsOk(segs, cStart, cLast, lLast, m)
            && |m.pos| == |l.pos| + 1 && |Hang(m, o).pos| == |l.pos| + 1
            && InodesOk(inodes[o := Grown(inodes[o], n)], files, Hang(m, o))
            && FilesOk(files, Hang(m, o), dir, lag)
            && Grown(inodes[o], n).start == n == Grown(inodes[o], n).last
  {
    EndsValid(t, inodes, files, l, o);
    FreeIs(t, l, n);
    ExtendOk(t, l, o, n);
    ExtendCount(l, o, n);
    SegsExtendFile(l, o, n, segs, cStart, cLast, lLast);
    var m := Extend(l, o, n);
    InodesExtend(t, inodes, files, l, o, n);
    InodesFrame(inodes[o := Grown(inodes[o], n)], files, m, Hang(m, o));
    assert FileAt(files, l, dir, lag, o);
    FilesFrame(files, l, Hang(m, o), dir, lag, {});
    assert lag + {} == lag;
  }

  lemma MoveDescribes(m: Meta, l: Layout, o: nat, pdir: nat, entry: nat)
    requires LayoutOk(m.fat, l) && CanHang(l, o)
    requires pdir != CLU_TAIL ==> Loc(pdir, entry) in m.dir && m.dir[Loc(pdir, entry)].start == l.chains[o][0]
    ensures Describes(Rec.MoveChain(pdir, entry, false, PoolLast(l), l.chains[o][0], LastOf(l, o)), m)
    ensures ValidClu(m.fat, PoolLast(l)) && ValidClu(m.fat, l.chains[o][0])
  {
    PoolLastIs(m.fat, l);
    LastIs(m.fat, l, o);
    LinkIs(m.fat, l, o, 0);
  }

  // ----- what the next step sees

  ghost function Grow(l: Layout, o: nat, n: nat, s: Standing): Layout
    requires o in l.chains
  {
    if s.Unlinked? && l.chains[o] == [] then Hang(Extend(l, o, n), o) else Extend(l, o, n)
  }

  // Placing a cluster logs nothing, except for the first cluster of an unlinked file.
  ghost predicate Moved(ph: Phase, ph': Phase, i: Inode) {
    && ph.Open? && ph'.Open?
    && (ph' == ph
        || (i.standing.Unlinked? && i.last == CLU_TAIL && |ph'.recs| == |ph.recs| + 1
            && ph'.recs[..|ph.recs|] == ph.recs && ph'.recs[|ph.recs|].MoveChain?))
  }

  lemma PlaceWhere(t: Table, files: map<nat, Name>, l: Layout, inodes: map<nat, Inode>, o: nat)
    requires LayoutOk(t, l) && InodesOk(inodes, files, l) && AllClaimed(files, l) && o in inodes
    ensures inodes[o].standing.Unlinked? && inodes[o].last != CLU_TAIL ==> o in l.order
    ensures inodes[o].last == CLU_TAIL ==> o !in l.order
    ensures o in l.chains && (l.chains[o] == [] <==> inodes[o].last == CLU_TAIL)
  {
    EndsValid(t, inodes, files, l, o);
    assert Claimed(files, l, o);
    assert OrphanAt(l, IndexIn(l.order, o));
  }

  lemma StillFree(t: Table, l: Layout, u: Table, o: nat, n: nat, s: Standing)
    requires o in l.chains && LayoutOk(t, l) && LayoutOk(u, Grow(l, o, n, s)) && |u| == |t|
    ensures forall c: nat :: ValidClu(t, c) && t[c] == CLU_FREE && c != n ==> u[c] == CLU_FREE
  {
    forall c: nat | ValidClu(t, c) && t[c] == CLU_FREE && c != n ensures u[c] == CLU_FREE {
      FreeIs(t, l, c);
      FreeIs(u, Grow(l, o, n, s), c);
    }
  }

  lemma GrowClaimed(t: Table, files: map<nat, Name>, l: Layout, inodes: map<nat, Inode>, o: nat, n: nat)
    requires LayoutOk(t, l) && InodesOk(inodes, files, l) && AllClaimed(files, l) && o in inodes && o in l.chains
    ensures var m := Grow(l, o, n, inodes[o].standing);
            && (forall q :: q != o ==> Claimed(files, m, q))
            && (!inodes[o].standing.Unborn? ==> AllClaimed(files, m))
  {
    EndsValid(t, inodes, files, l, o);
    var m := Grow(l, o, n, inodes[o].standing);
    forall q ensures q != o || !inodes[o].standing.Unborn? ==> Claimed(files, m, q) {
      assert Claimed(files, l, q);
    }
  }

  lemma MovedFirst(ph: Phase, ph': Phase, i: Inode)
    requires Moved(ph, ph', i) && ph.recs != []
    ensures ph'.Open? && ph'.recs != [] && ph'.recs[0] == ph.recs[0] && |ph'.recs| <= |ph.recs| + 1
    ensures ph.recs[0].AllocChain? && |ph.recs| <= 2 && (|ph.recs| == 2 ==> i.last != CLU_TAIL && ph.recs[1].MoveChain?) ==>
              OneWindow(ph'.recs)
  {
    assert ph'.recs[..|ph.recs|][0] == ph'.recs[0];
    if |ph.recs| == 2 {
      assert ph'.recs[..|ph.recs|][1] == ph'.recs[1];
    }
  }

  /** One chain has grown at its end, perhaps by moving to the pool; no other changed. */
  ghost predicate Longer(l: Layout, m: Layout, o: nat) {
    && o in l.chains && m.chains == l.chains[o := ChainOf(m, o)] && ChainOf(l, o) <= ChainOf(m, o)
    && (m.order == l.order || (o !in l.order && m.order == l.order + [o]))
  }

  lemma LongerSame(l: Layout, o: nat)
    ensures o in l.chains ==> Longer(l, l, o)
  {
  }

  lemma LongerGrow(l: Layout, m: Layout, o: nat, c: nat, s: Standing)
    requires Longer(l, m, o) && o in m.chains && (o in m.order ==> m.chains[o] != [])
    ensures Longer(l, Grow(m, o, c, s), o) && |ChainOf(Grow(m, o, c, s), o)| == |ChainOf(m, o)| + 1
  {
  }

  lemma FreeCount(t: Table, l: Layout)
    requires LayoutOk(t, l)
    ensures FreeClusters(t) == |t| - VALID_CLU - |l.pos|
    ensures AllFree(t, []) ==> FreeClusters(t) == 0
  {
    UsedCount(t, l);
    FreeAndUsed(t);
    assert AllFree(t, []) ==> FreeBelow(t, |t|) == {};
  }

  // Each cluster that is appended is one fewer to be had.
  lemma GrowCount(t: Table, l: Layout, o: nat, n: nat, s: Standing)
    requires LayoutOk(t, l) && o in l.chains && ValidClu(t, n) && t[n] == CLU_FREE
    ensures |Grow(l, o, n, s).pos| == |l.pos| + 1
  {
    FreeIs(t, l, n);
    ExtendCount(l, o, n);
  }

  lemma LinkedOrNot(t: Table, files: map<nat, Name>, l: Layout, inodes: map<nat, Inode>, o: nat)
    requires LayoutOk(t, l) && InodesOk(inodes, files, l) && o in inodes
    ensures o in l.chains && (o in l.order ==> l.chains[o] != [])
  {
    EndsValid(t, inodes, files, l, o);
    assert OrphanAt(l, IndexIn(l.order, o));
  }
}
