/** Building, removing and changing names, and what each keeps. */
module Naming {
  import opened Results
  import opened Fat
  import opened Records
  import opened Undo
  import opened Layout
  import opened Orphans
  import opened Names
  import opened Crash
  import opened State
  import opened Lookup
  import opened Steps
  import opened Growth

  // Nothing changed in the slots but start words.
  ghost predicate SameButStart(d: Dir, e: Dir) {
    d.Keys == e.Keys && forall l :: l in d ==> e[l] == d[l].(start := e[l].start)
  }

  lemma OnlyAfter(d: Dir, e: Dir, gone: seq<Name>, built: Option<Name>, f: Dir)
    requires SameButStart(d, e) && OnlyNames(e, gone, built, f)
    ensures OnlyNames(d, gone, built, f)
  {
  }

  lemma OnlyStarts(d: Dir, e: Dir)
    requires SameButStart(d, e)
    ensures OnlyNames(d, [], None, e)
  {
  }

  // The free slots of a name stay free as long as no mark changes.
  lemma StayFree(d: Dir, e: Dir, n: Name)
    requires SameButStart(d, e) && forall l :: Takes(n, l) ==> l in d && IsFree(d[l])
    ensures forall l :: Takes(n, l) ==> l in e && IsFree(e[l])
  {
  }

  ghost predicate NoRemoval(ph: Phase) {
    ph.Open? && forall i :: 0 <= i < |ph.recs| ==> !ph.recs[i].RemoveEntry?
  }

  // ----- removing a name

  lemma UnlinkReady(t: Table, dir: Dir, files: map<nat, Name>, l: Layout, inodes: map<nat, Inode>, o: nat)
    requires LayoutOk(t, l) && InodesOk(inodes, files, l) && FilesOk(files, l, dir, {}) && o in inodes
    requires inodes[o].standing.Linked?
    ensures o in files && files[o] == NameOf(inodes[o]) && WellNamed(files[o]) && Live(dir, files[o])
    ensures var k := Loc(inodes[o].pdir, inodes[o].entry);
            Takes(files[o], k) && k in dir && (inodes[o].start != CLU_TAIL ==> dir[k].start == inodes[o].start)
    ensures inodes[o].start != CLU_TAIL ==>
              CanHang(l, o) && inodes[o].start == l.chains[o][0] && inodes[o].last == LastOf(l, o)
  {
    EndsValid(t, inodes, files, l, o);
    assert FileAt(files, l, dir, {}, o);
  }

  lemma UnlinkDone(t: Table, dir: Dir, files: map<nat, Name>, l: Layout, inodes: map<nat, Inode>, o: nat)
    requires LayoutOk(t, l) && InodesOk(inodes, files, l) && FilesOk(files - {o}, l, dir, {}) && o in inodes
    requires inodes[o].standing.Linked? && AllClaimed(files, l)
    ensures var m := if inodes[o].start == CLU_TAIL then l else Hang(l, o);
            && InodesOk(inodes[o := Unlinking(inodes[o])], files - {o}, m)
            && FilesOk(files - {o}, m, dir, {}) && AllClaimed(files - {o}, m) && m.pos == l.pos
  {
    EndsValid(t, inodes, files, l, o);
    InodesUnlink(inodes, files, l, o);
    var m := if inodes[o].start == CLU_TAIL then l else Hang(l, o);
    InodesFrame(inodes[o := Unlinking(inodes[o])], files - {o}, l, m);
    var none: set<Loc> := {};
    FilesFrame(files - {o}, l, m, dir, none, none);
    assert none + none == none;
    forall q ensures Claimed(files - {o}, m, q) {
      assert Claimed(files, l, q);
    }
  }

  lemma RemoveDescribes(m: Meta, n: Name, undel: seq<nat>)
    requires WellNamed(n) && |undel| == n.num && Live(m.dir, n)
    requires forall k :: 0 <= k < n.num ==> Loc(n.pdir, n.entry - k) in m.dir && undel[k] == m.dir[Loc(n.pdir, n.entry - k)].mark
    ensures Describes(Rec.RemoveEntry(n.pdir, n.entry, undel), m)
  {
    forall l | Covers(n.pdir, n.entry, 0, n.num, l) ensures l in m.dir && m.dir[l].mark == undel[n.entry - l.entry] {
      assert l == Loc(n.pdir, n.entry - (n.entry - l.entry));
    }
  }

  // ----- building a name

  lemma BuildDescribes(m: Meta, n: Name)
    requires WellNamed(n) && forall l :: Takes(n, l) ==> l in m.dir && IsFree(m.dir[l])
    ensures Describes(Rec.BuildEntry(n.pdir, n.entry, n.num), m)
  {
    var r := Rec.BuildEntry(n.pdir, n.entry, n.num);
    forall l | Builds(r, l) ensures l in m.dir && IsFree(m.dir[l]) {
      assert Takes(n, l);
    }
  }

  lemma BuildWrites(ph: Phase, r: Rec, l: Loc, s: Slot, w: Slot)
    requires ph.Open? && ph.recs != [] && ph.recs[|ph.recs| - 1] == r && Builds(r, l)
    ensures MayWriteSlot(ph, l, s, w)
  {
    var k := |ph.recs| - 1;
    assert Builds(ph.recs[k], l);
    assert TouchesMark(ph.recs[k], l) && TouchesStart(ph.recs[k], l) && TouchesXattr(ph.recs[k], l);
  }

  const UNBORN := Inode(CLU_TAIL, 0, 0, CLU_TAIL, CLU_TAIL, Unborn, NO_CUTS)

  ghost function WithEmpty(l: Layout, o: nat): Layout {
    l.(chains := l.chains[o := []])
  }

  function Linking(i: Inode, n: Name): Inode {
    i.(pdir := n.pdir, entry := n.entry, num := n.num, standing := Standing.Linked)
  }

  lemma EmptyLayout(t: Table, l: Layout, o: nat, segs: seq<Segment>, cStart: nat, cLast: nat, lLast: nat)
    requires LayoutOk(t, l) && o !in l.chains && SegsOk(segs, cStart, cLast, lLast, l)
    ensures LayoutOk(t, WithEmpty(l, o)) && SegsOk(segs, cStart, cLast, lLast, WithEmpty(l, o))
  {
    var m := WithEmpty(l, o);
    forall j ensures OrphanAt(m, j) {
      assert OrphanAt(l, j);
    }
    forall j: nat ensures Head(m, j) == Head(l, j) {
      assert OrphanAt(l, j);
    }
    forall q, i ensures Placed(m, q, i) {
      assert Placed(l, q, i);
    }
    forall c ensures Owned(m, c) {
      assert Owned(l, c);
    }
    forall c: nat ensures Holds(t, m, c) {
      assert Holds(t, l, c) && Owned(l, c) && Owned(m, c);
    }
    forall j ensures SegAt(segs, m, j) {
      assert SegAt(segs, l, j) && OrphanAt(l, j) && OrphanAt(m, j);
    }
    assert OrphanAt(l, |l.order| - 1) && OrphanAt(m, |l.order| - 1);
  }

  lemma EmptyOk(t: Table, dir: Dir, files: map<nat, Name>, l: Layout, inodes: map<nat, Inode>, o: nat,
                segs: seq<Segment>, cStart: nat, cLast: nat, lLast: nat)
    requires LayoutOk(t, l) && o !in l.chains && SegsOk(segs, cStart, cLast, lLast, l)
    requires InodesOk(inodes, files, l) && FilesOk(files, l, dir, {}) && AllClaimed(files, l)
    ensures var m := WithEmpty(l, o);
            && LayoutOk(t, m) && SegsOk(segs, cStart, cLast, lLast, m) && m.pos == l.pos
            && InodesOk(inodes[o := UNBORN], files, m) && FilesOk(files, m, dir, {}) && AllClaimed(files, m)
    ensures o !in inodes
  {
    assert InodeAt(inodes, files, l, o);
    EmptyLayout(t, l, o, segs, cStart, cLast, lLast);
    var m, after := WithEmpty(l, o), inodes[o := UNBORN];
    assert FileAt(files, l, dir, {}, o) && OrphanAt(l, IndexIn(l.order, o));
    forall q ensures InodeAt(after, files, m, q) {
      assert InodeAt(inodes, files, l, q);
    }
    var none: set<Loc> := {};
    FilesFrame(files, l, m, dir, none, none);
    assert none + none == none;
    forall q ensures Claimed(files, m, q) {
      assert Claimed(files, l, q);
    }
  }

  lemma DropOkay(t: Table, dir: Dir, files: map<nat, Name>, l: Layout, inodes: map<nat, Inode>, o: nat,
                 segs: seq<Segment>, cStart: nat, cLast: nat, lLast: nat)
    requires LayoutOk(t, l) && SegsOk(segs, cStart, cLast, lLast, l)
    requires InodesOk(inodes, files, l) && FilesOk(files, l, dir, {}) && AllClaimed(files, l)
    requires o in inodes && inodes[o].standing.Unborn? && inodes[o].start == CLU_TAIL
    ensures var m := Forget(l, o);
            && LayoutOk(t, m) && SegsOk(segs, cStart, cLast, lLast, m) && m.pos == l.pos
            && InodesOk(inodes - {o}, files, m) && FilesOk(files, m, dir, {}) && AllClaimed(files, m)
  {
    EndsValid(t, inodes, files, l, o);
    SegsForget(t, l, o, segs, cStart, cLast, lLast);
    var m, rest := Forget(l, o), inodes - {o};
    forall q ensures InodeAt(rest, files, m, q) {
      assert InodeAt(inodes, files, l, q);
    }
    var none: set<Loc> := {};
    FilesFrame(files, l, m, dir, none, none);
    assert none + none == none;
    forall q ensures Claimed(files, m, q) {
      assert Claimed(files, l, q);
    }
  }

  lemma BirthOk(t: Table, files: map<nat, Name>, l: Layout, inodes: map<nat, Inode>, o: nat, n: Name)
    requires LayoutOk(t, l) && InodesOk(inodes, files, l) && o in inodes && inodes[o].standing.Unborn?
    requires forall q :: q != o ==> Claimed(files, l, q)
    ensures o !in files && o in l.chains && o !in l.order
    ensures StartWord(inodes[o].start) == FirstWord(l, o)
    ensures InodesOk(inodes[o := Linking(inodes[o], n)], files[o := n], l) && AllClaimed(files[o := n], l)
  {
    EndsValid(t, inodes, files, l, o);
    InodesLink(inodes, files, l, o, n);
    var more := files[o := n];
    forall q ensures Claimed(more, l, q) {
      assert q != o ==> Claimed(files, l, q);
    }
  }

  /** One more chain: empty for a file, of one cluster for a directory. */
  ghost predicate Born(l: Layout, m: Layout, o: nat, isDir: bool) {
    && m.order == l.order && o !in l.chains
    && m.chains == l.chains[o := ChainOf(m, o)] && |ChainOf(m, o)| == if isDir then 1 else 0
  }

  lemma BornNothing(l: Layout, o: nat)
    requires o !in l.chains
    ensures Born(l, WithEmpty(l, o), o, false)
  {
  }

  lemma BornGrown(l: Layout, m: Layout, n: Layout, o: nat)
    requires Born(l, m, o, false) && o in m.chains && n.order == m.order && o in n.chains
    requires n.chains == m.chains[o := n.chains[o]] && |n.chains[o]| == |m.chains[o]| + 1
    ensures Born(l, n, o, true)
  {
  }

  lemma RenameOk(t: Table, dir: Dir, files: map<nat, Name>, l: Layout, inodes: map<nat, Inode>, o: nat, n: Name)
    requires LayoutOk(t, l) && InodesOk(inodes, files, l) && FilesOk(files, l, dir, {}) && AllClaimed(files, l)
    requires o in inodes && inodes[o].standing.Linked?
    ensures o in files && o in l.chains && files[o] == NameOf(inodes[o]) && WellNamed(files[o]) && Live(dir, files[o])
    ensures Short(files[o]) in dir && dir[Short(files[o])].start == FirstWord(l, o)
    ensures InodesOk(inodes[o := Linking(inodes[o], n)], files[o := n], l) && AllClaimed(files[o := n], l)
  {
    EndsValid(t, inodes, files, l, o);
    assert FileAt(files, l, dir, {}, o);
    InodesLink(inodes, files, l, o, n);
    var more := files[o := n];
    forall q ensures Claimed(more, l, q) {
      assert Claimed(files, l, q);
    }
  }
}
