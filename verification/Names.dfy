/** The names on the volume: which directory slots belong to which file, and how
    a file's short-name slot leads to its chain. */
module Names {
  import opened Results
  import opened Fat
  import opened Records
  import opened Marks
  import opened Undo
  import opened Layout
  import opened Orphans

  // A name takes `num` slots; the short-name slot is the last of them.
  datatype Name = Name(pdir: nat, entry: nat, num: nat)

  predicate Takes(n: Name, l: Loc) {
    Covers(n.pdir, n.entry, 0, n.num, l)
  }

  function Short(n: Name): Loc {
    Loc(n.pdir, n.entry)
  }

  predicate WellNamed(n: Name) {
    1 <= n.num <= n.entry + 1 && n.pdir != CLU_TAIL
  }

  // All slots of the name are in use.
  ghost predicate Live(dir: Dir, n: Name) {
    forall l :: Takes(n, l) ==> l in dir && !IsFree(dir[l])
  }

  ghost predicate Apart(n: Name, p: Name) {
    forall l :: Takes(n, l) ==> !Takes(p, l)
  }

  // The start word of a slot: 0 stands for no cluster.
  function StartWord(start: nat): nat {
    if start == CLU_TAIL then 0 else start
  }

  ghost function FirstWord(l: Layout, o: nat): nat {
    if o in l.chains && l.chains[o] != [] then l.chains[o][0] else 0
  }

  ghost predicate FileAt(files: map<nat, Name>, l: Layout, dir: Dir, lag: set<Loc>, o: nat) {
    o in files ==>
      && o in l.chains && o !in l.order
      && WellNamed(files[o]) && Live(dir, files[o])
      && Short(files[o]) in dir
      && (Short(files[o]) in lag || dir[Short(files[o])].start == FirstWord(l, o))
  }

  ghost predicate Distinctly(files: map<nat, Name>, o: nat, q: nat) {
    o in files && q in files && o != q ==> Apart(files[o], files[q])
  }

  /** Every live name leads to its chain, except that the start word of the slots
      in `lag` may still have to be written; no two names share a slot. */
  ghost predicate FilesOk(files: map<nat, Name>, l: Layout, dir: Dir, lag: set<Loc>) {
    && (forall o :: FileAt(files, l, dir, lag, o))
    && (forall o, q :: Distinctly(files, o, q))
  }

  // A chain belongs to a file, to an orphan or to the log file.
  ghost predicate Claimed(files: map<nat, Name>, l: Layout, o: nat) {
    o in l.chains && l.chains[o] != [] ==> o in files || o in l.order || o == LOG_INO
  }

  ghost predicate AllClaimed(files: map<nat, Name>, l: Layout) {
    forall o :: Claimed(files, l, o)
  }

  // Two names share no short-name slot either.
  lemma ShortApart(files: map<nat, Name>, l: Layout, dir: Dir, lag: set<Loc>, o: nat, q: nat)
    requires FilesOk(files, l, dir, lag) && o in files && q in files && o != q
    ensures !Takes(files[o], Short(files[q])) && Short(files[o]) != Short(files[q])
  {
    assert FileAt(files, l, dir, lag, o) && FileAt(files, l, dir, lag, q);
    assert Distinctly(files, o, q);
    assert Takes(files[q], Short(files[q])) && Takes(files[o], Short(files[o]));
  }

  // What the names say about a layout is where the chains of the files start.
  lemma FilesFrame(files: map<nat, Name>, l: Layout, m: Layout, dir: Dir, lag: set<Loc>, more: set<Loc>)
    requires FilesOk(files, l, dir, lag)
    requires forall o :: o in files && o in l.chains ==>
               && o in m.chains && (o in m.order ==> o in l.order)
               && (FirstWord(m, o) == FirstWord(l, o) || Short(files[o]) in more)
    ensures FilesOk(files, m, dir, lag + more)
  {
    forall o ensures FileAt(files, m, dir, lag + more, o) {
      assert FileAt(files, l, dir, lag, o);
    }
  }

  lemma FilesSetStart(files: map<nat, Name>, l: Layout, dir: Dir, lag: set<Loc>, o: nat, d: Dir)
    requires FilesOk(files, l, dir, lag) && o in files && Short(files[o]) in dir
    requires d == dir[Short(files[o]) := dir[Short(files[o])].(start := FirstWord(l, o))]
    ensures FilesOk(files, l, d, lag - {Short(files[o])})
  {
    forall q ensures FileAt(files, l, d, lag - {Short(files[o])}, q) {
      assert FileAt(files, l, dir, lag, q);
      if q in files && q != o {
        ShortApart(files, l, dir, lag, o, q);
      }
    }
  }

  // The slots of the name have been marked as deleted.
  ghost predicate Unnamed(dir: Dir, n: Name, d: Dir) {
    && d.Keys == dir.Keys
    && forall l :: l in dir ==> d[l] == if Takes(n, l) then dir[l].(mark := DELETE_MARK) else dir[l]
  }

  lemma FilesRemove(files: map<nat, Name>, l: Layout, dir: Dir, lag: set<Loc>, o: nat, d: Dir)
    requires FilesOk(files, l, dir, lag) && o in files && Unnamed(dir, files[o], d)
    ensures FilesOk(files - {o}, l, d, lag)
  {
    var rest := files - {o};
    forall q ensures FileAt(rest, l, d, lag, q) {
      assert FileAt(files, l, dir, lag, q) && Distinctly(files, q, o);
      if q in rest {
        assert Takes(files[q], Short(files[q]));
      }
    }
    forall p, q ensures Distinctly(rest, p, q) {
      assert Distinctly(files, p, q);
    }
  }

  // Slots that were free now hold the name.
  ghost predicate NameBuilt(dir: Dir, n: Name, start: nat, d: Dir) {
    && WellNamed(n) && d.Keys == dir.Keys
    && (forall l :: l in dir && !Takes(n, l) ==> d[l] == dir[l])
    && (forall l :: Takes(n, l) ==> l in dir && IsFree(dir[l]) && !IsFree(d[l]))
    && (Short(n) in d ==> d[Short(n)].start == start)
  }

  // The i-th slot of the name, counted down from the short-name slot.
  predicate HoldsSlot(d: Dir, n: Name, s: Slot, i: nat) {
    i <= n.entry && Loc(n.pdir, n.entry - i) in d && d[Loc(n.pdir, n.entry - i)] == s
  }

  /** The slots of the name hold what they were given: the short-name slot first, and behind it
      in the list the pieces, which lie before it in the directory. */
  ghost predicate HoldsName(d: Dir, n: Name, slots: seq<Slot>) {
    forall i: nat :: i < |slots| ==> HoldsSlot(d, n, slots[i], i)
  }

  // The slots a new name is given, with the start word of what it names.
  function WithStart(slots: seq<Slot>, start: nat): seq<Slot>
    requires slots != []
  {
    slots[0 := slots[0].(start := start)]
  }

  // It still holds them when another name goes.
  lemma HoldsStays(d: Dir, n: Name, slots: seq<Slot>, p: Name, e: Dir)
    requires HoldsName(d, n, slots) && |slots| == n.num && Apart(n, p) && Unnamed(d, p, e)
    ensures HoldsName(e, n, slots)
  {
    forall i: nat | i < |slots| ensures HoldsSlot(e, n, slots[i], i) {
      assert HoldsSlot(d, n, slots[i], i);
      assert Takes(n, Loc(n.pdir, n.entry - i));
    }
  }

  /** What names that went and one that came leave of the slots: the slots of the first are
      marked as deleted, those of the other aside, and nothing else changed but start words. */
  ghost predicate OnlyNames(d: Dir, gone: seq<Name>, built: Option<Name>, e: Dir) {
    && e.Keys == d.Keys
    && forall l :: l in d && !(built.Some? && Takes(built.value, l)) ==>
         e[l] == (if TakenBy(gone, l) then d[l].(mark := DELETE_MARK) else d[l]).(start := e[l].start)
  }

  ghost predicate TakenBy(gone: seq<Name>, l: Loc) {
    exists i :: 0 <= i < |gone| && Takes(gone[i], l)
  }

  // The names a rename takes away: the old one, and that of the file it is renamed over.
  function Parted(files: map<nat, Name>, o: nat, target: Option<nat>): seq<Name>
    requires o in files && (target.Some? ==> target.value in files)
  {
    if target.None? then [files[o]] else [files[o]] + [files[target.value]]
  }

  lemma OnlyBuilt(d: Dir, n: Name, start: nat, e: Dir)
    requires NameBuilt(d, n, start, e)
    ensures OnlyNames(d, [], Some(n), e)
  {
  }

  lemma OnlyGone(d: Dir, gone: seq<Name>, built: Option<Name>, e: Dir, p: Name, f: Dir)
    requires OnlyNames(d, gone, built, e) && Unnamed(e, p, f)
    ensures OnlyNames(d, gone + [p], built, f)
  {
    forall l ensures TakenBy(gone + [p], l) <==> TakenBy(gone, l) || Takes(p, l) {
      assert (gone + [p])[|gone|] == p;
      if TakenBy(gone, l) {
        var i :| 0 <= i < |gone| && Takes(gone[i], l);
        assert (gone + [p])[i] == gone[i];
      }
    }
  }

  lemma FirstGone(d: Dir, built: Option<Name>, e: Dir, p: Name, f: Dir)
    requires OnlyNames(d, [], built, e) && Unnamed(e, p, f)
    ensures OnlyNames(d, [p], built, f)
  {
    OnlyGone(d, [], built, e, p, f);
    assert [] + [p] == [p];
  }

  lemma FilesAdd(files: map<nat, Name>, l: Layout, dir: Dir, lag: set<Loc>, o: nat, n: Name, d: Dir)
    requires FilesOk(files, l, dir, lag) && o !in files && o in l.chains && o !in l.order
    requires NameBuilt(dir, n, FirstWord(l, o), d)
    ensures FilesOk(files[o := n], l, d, lag)
  {
    var more := files[o := n];
    assert Takes(n, Short(n));
    forall q ensures FileAt(more, l, d, lag, q) {
      assert FileAt(files, l, dir, lag, q);
      if q in files {
        NewApart(dir, n, files[q], FirstWord(l, o), d);
        assert Takes(files[q], Short(files[q]));
      }
    }
    forall p, q ensures Distinctly(more, p, q) {
      assert Distinctly(files, p, q) && FileAt(files, l, dir, lag, p) && FileAt(files, l, dir, lag, q);
      if p in files {
        NewApart(dir, n, files[p], FirstWord(l, o), d);
      }
      if q in files {
        NewApart(dir, n, files[q], FirstWord(l, o), d);
      }
    }
  }

  lemma NewApart(dir: Dir, n: Name, p: Name, start: nat, d: Dir)
    requires NameBuilt(dir, n, start, d) && Live(dir, p)
    ensures Apart(n, p) && Apart(p, n)
    ensures Live(d, p)
  {
  }

  // A volume that is given back has the same names.
  lemma FilesSame(files: map<nat, Name>, l: Layout, base: Meta, m: Meta, lag: set<Loc>)
    requires FilesOk(files, l, base.dir, lag) && SameVolume(base, m)
    ensures FilesOk(files, l, m.dir, lag)
  {
    forall o ensures FileAt(files, l, m.dir, lag, o) {
      assert FileAt(files, l, base.dir, lag, o);
      if o in files {
        assert Takes(files[o], Short(files[o]));
      }
    }
  }

  lemma DropFiles(files: map<nat, Name>, l: Layout, dir: Dir, lag: set<Loc>, o: nat, b: nat)
    requires CanDrop(l, o, b) && FilesOk(files, l, dir, lag) && AllClaimed(files, l)
    ensures FilesOk(files, Drop(l, o, b), dir, lag) && AllClaimed(files, Drop(l, o, b))
  {
    var m := Drop(l, o, b);
    assert FileAt(files, l, dir, lag, o);
    FilesFrame(files, l, m, dir, lag, {});
    assert lag + {} == lag;
    forall q ensures Claimed(files, m, q) {
      assert Claimed(files, l, q);
      if q in l.order && q != o {
        DropAllIndex(l.order, o, q);
      }
    }
  }

  /** A rename: the new name is built, and then the old one removed. */
  lemma FilesRename(files: map<nat, Name>, l: Layout, dir: Dir, o: nat, n: Name, d: Dir, e: Dir)
    requires FilesOk(files, l, dir, {}) && o in files && o in l.chains
    requires NameBuilt(dir, n, FirstWord(l, o), d) && Unnamed(d, files[o], e)
    ensures FilesOk(files[o := n], l, e, {})
  {
    var more := files[o := n];
    assert FileAt(files, l, dir, {}, o);
    assert Takes(n, Short(n));
    forall q ensures FileAt(more, l, e, {}, q) {
      RenameAt(files, l, dir, o, n, d, e, q);
    }
    forall p, q ensures Distinctly(more, p, q) {
      assert Distinctly(files, p, q) && FileAt(files, l, dir, {}, p) && FileAt(files, l, dir, {}, q);
      if p in files {
        NewApart(dir, n, files[p], FirstWord(l, o), d);
      }
      if q in files {
        NewApart(dir, n, files[q], FirstWord(l, o), d);
      }
    }
  }

  lemma RenameAt(files: map<nat, Name>, l: Layout, dir: Dir, o: nat, n: Name, d: Dir, e: Dir, q: nat)
    requires FilesOk(files, l, dir, {}) && o in files && o in l.chains
    requires NameBuilt(dir, n, FirstWord(l, o), d) && Unnamed(d, files[o], e)
    ensures FileAt(files[o := n], l, e, {}, q)
  {
    assert FileAt(files, l, dir, {}, q) && FileAt(files, l, dir, {}, o) && Distinctly(files, q, o);
    NewApart(dir, n, files[o], FirstWord(l, o), d);
    assert Takes(n, Short(n));
    if q in files && q != o {
      NewApart(dir, n, files[q], FirstWord(l, o), d);
      assert Takes(files[q], Short(files[q]));
    }
  }
}
