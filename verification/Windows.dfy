/** Allocation in a running volume: free clusters, the window of clusters that were
    allocated ahead, and the start word that may still have to be written. */
module Windows {
  import opened Results
  import opened Fat
  import opened Records
  import opened Undo
  import opened Layout
  import opened Orphans
  import opened Names
  import opened Crash
  import opened State
  import opened Lookup
  import opened Steps

  // The size of the pre-allocation window, and a bound on the records of one transaction.
  const PRE_ALLOC: nat := 115

  const MAX_OPEN: nat := LOG_MAX_COUNT - 1

  predicate PreAllocates(ty: TrType) {
    ty == WRITE || ty == TRUNCATE_F
  }

  // The types whose commit writes the inode's slot.
  predicate Syncs(ty: TrType) {
    PreAllocates(ty) || ty == TRUNCATE_B
  }

  // ----- free clusters

  // Where a search goes on from a stored position.
  function SearchFrom(t: Table, ptr: nat): nat {
    if ptr >= |t| then VALID_CLU else ptr
  }

  // How many clusters a search that starts at p looks at before c.
  function Turn(t: Table, p: nat, c: nat): int {
    if c >= p then c - p else c - p + |t| - VALID_CLU
  }

  /** The free clusters in the order the search meets them, none left out before the last. */
  ghost predicate InTurn(t: Table, p: nat, list: seq<nat>) {
    && (forall i, j :: 0 <= i < j < |list| ==> Turn(t, p, list[i]) < Turn(t, p, list[j]))
    && forall c: nat :: ValidClu(t, c) && t[c] == CLU_FREE && list != [] && Turn(t, p, c) < Turn(t, p, list[|list| - 1]) ==> c in list
  }

  ghost predicate FreeList(t: Table, list: seq<nat>) {
    Distinct(list) && forall i :: 0 <= i < |list| ==> ValidClu(t, list[i]) && t[list[i]] == CLU_FREE
  }

  ghost predicate AllFree(t: Table, list: seq<nat>) {
    forall c: nat :: ValidClu(t, c) && t[c] == CLU_FREE ==> c in list
  }

  // The first n clusters were looked at, and the free ones listed.
  ghost predicate Looked(t: Table, p: nat, n: int, list: seq<nat>) {
    && FreeList(t, list) && InTurn(t, p, list)
    && forall c: nat :: ValidClu(t, c) ==> (c in list <==> t[c] == CLU_FREE && Turn(t, p, c) < n)
  }

  lemma LookedAt(t: Table, p: nat, n: int, list: seq<nat>, c: nat)
    requires Looked(t, p, n, list) && ValidClu(t, p) && ValidClu(t, c) && Turn(t, p, c) == n
    ensures Looked(t, p, n + 1, if t[c] == CLU_FREE then list + [c] else list)
  {
    hide Distinct;
    TurnOnce(t, p, c);
    if t[c] == CLU_FREE {
      var more := list + [c];
      forall d: nat | ValidClu(t, d) ensures d in more <==> t[d] == CLU_FREE && Turn(t, p, d) < n + 1 {
        assert d in more <==> d in list || d == c;
      }
      forall i, j | 0 <= i < j < |more| ensures Turn(t, p, more[i]) < Turn(t, p, more[j]) {
        assert more[i] in list;
      }
      ListGrows(t, list, c);
    }
  }

  lemma TurnOnce(t: Table, p: nat, c: nat)
    requires ValidClu(t, p) && ValidClu(t, c)
    ensures forall d: nat :: ValidClu(t, d) && Turn(t, p, d) == Turn(t, p, c) ==> d == c
  {
  }

  lemma ListGrows(t: Table, list: seq<nat>, c: nat)
    requires FreeList(t, list) && ValidClu(t, c) && t[c] == CLU_FREE && c !in list
    ensures FreeList(t, list + [c])
  {
  }

  // Where the search is next.
  lemma TurnNext(t: Table, p: nat, q: nat)
    requires ValidClu(t, p) && ValidClu(t, q) && Turn(t, p, q) + 1 < |t| - VALID_CLU
    ensures ValidClu(t, SearchFrom(t, q + 1)) && Turn(t, p, SearchFrom(t, q + 1)) == Turn(t, p, q) + 1
  {
  }

  lemma LookedRound(t: Table, p: nat, list: seq<nat>)
    requires Looked(t, p, |t| - VALID_CLU, list) && (|t| > VALID_CLU ==> ValidClu(t, p))
    ensures AllFree(t, list)
  {
  }

  lemma LookedSays(t: Table, p: nat, n: int, list: seq<nat>)
    requires Looked(t, p, n, list)
    ensures FreeList(t, list) && InTurn(t, p, list)
  {
  }

  lemma NothingFree(t: Table)
    requires |t| == VALID_CLU
    ensures AllFree(t, [])
  {
  }

  lemma LookedNone(t: Table, p: nat)
    requires ValidClu(t, p)
    ensures Looked(t, p, 0, []) && Turn(t, p, p) == 0
  {
  }

  ghost predicate Corrupt(t: Table) {
    exists c: nat :: ValidClu(t, c) && !ValidContent(t, t[c])
  }

  lemma NotCorrupt(t: Table, l: Layout)
    requires LayoutOk(t, l)
    ensures !Corrupt(t)
  {
    forall c: nat | ValidClu(t, c) ensures ValidContent(t, t[c]) {
      FreeIs(t, l, c);
    }
  }

  // ----- the pending start word

  ghost predicate MayLag(ph: Phase, k: Loc) {
    match ph
    case Open(_, _, recs, _, _, _) => SomeStart(recs, k)
    case Batched(f, _, _) => Zeroed(f, k)
    case Linked(f) => Zeroed(f, k)
  }

  /** Only the slot of the transaction's own inode may still lack its start word,
      only if a durable record covers that word, and never over another chain. */
  ghost predicate LagOk(lag: set<Loc>, ph: Phase, dir: Dir, files: map<nat, Name>, l: Layout, who: Option<nat>) {
    lag == {} ||
    (&& who.Some? && who.value in files
     && var k := Short(files[who.value]);
        && lag == {k} && MayLag(ph, k) && k in dir
        && (if ph.Open? then dir[k].start == 0 else FirstWord(l, who.value) == 0))
  }

  lemma NothingLags(ph: Phase, dir: Dir, files: map<nat, Name>, l: Layout, who: Option<nat>)
    ensures LagOk({}, ph, dir, files, l, who)
  {
  }

  lemma LagWith(lag: set<Loc>, ph: Phase, dir: Dir, files: map<nat, Name>, l: Layout, l': Layout, who: Option<nat>,
                r: Rec, m: Meta)
    requires LagOk(lag, ph, dir, files, l, who) && ph.Open?
    ensures LagOk(lag, With(ph, r, m), dir, files, l', who)
  {
    if lag != {} {
      SomeSnoc(ph.recs, r, 0, Short(files[who.value]));
    }
  }

  // The one slot that may lag, as its inode finds it when it writes it.
  lemma LagFound(t: Table, inodes: map<nat, Inode>, files: map<nat, Name>, l: Layout, dir: Dir, lag: set<Loc>, ph: Phase, o: nat)
    requires LayoutOk(t, l) && InodesOk(inodes, files, l) && o in inodes
    requires FilesOk(files, l, dir, lag) && LagOk(lag, ph, dir, files, l, Some(o))
    ensures !inodes[o].standing.Linked? ==> lag == {}
    ensures inodes[o].standing.Linked? ==>
              var i, k := inodes[o], Loc(inodes[o].pdir, inodes[o].entry);
              && o in files && k == Short(files[o]) && k in dir && lag <= {k}
              && FirstWord(l, o) == (if i.start == CLU_TAIL then 0 else i.start)
              && (i.start != CLU_TAIL ==> dir[k].start == 0 || dir[k].start == i.start)
              && MayWriteSlot(ph, k, dir[k], dir[k].(start := FirstWord(l, o)))
  {
    hide SomeMark, SomeStart, SomeXattr, SomeBuild, InodesOk, LayoutOk;
    EndsValid(t, inodes, files, l, o);
    assert FileAt(files, l, dir, lag, o);
  }

  // ----- the window of pre-allocated clusters

  // The records of a transaction with a window: one allocation, and perhaps the
  // move of an unlinked file's first cluster into the pool.
  predicate OneWindow(recs: seq<Rec>) {
    recs == [] || (recs[0].AllocChain? && |recs| <= 2 && (|recs| == 2 ==> recs[1].MoveChain?))
  }

  predicate EndsWhere(r: Rec, last: nat, i: Inode)
    requires r.AllocChain?
  {
    && i.last == last && !i.standing.Unborn?
    && (i.last == CLU_TAIL && i.standing.Linked? ==> NamesSlot(r, Loc(i.pdir, i.entry)) && !r.isXattr && r.dPrev == CLU_TAIL)
  }

  /** The clusters from `next` on are free, different, and listed in the one
      allocation record of the open transaction; the inode the window is for ends
      where the record, or the cluster handed out last, says. */
  ghost predicate WindowOk(window: seq<nat>, next: nat, t: Table, ph: Phase, ty: TrType, who: Option<nat>,
                           inodes: map<nat, Inode>)
  {
    && next <= |window| && Distinct(window)
    && (forall i :: next <= i < |window| ==> ValidClu(t, window[i]) && t[window[i]] == CLU_FREE)
    && (next < |window| ==>
          && PreAllocates(ty) && ph.Open? && who.Some? && who.value in inodes
          && ph.recs != [] && ph.recs[0].AllocChain? && ph.recs[0].clus == window
          && EndsWhere(ph.recs[0], if next == 0 then ph.recs[0].dPrev else window[next - 1], inodes[who.value]))
  }

  lemma WindowUsedUp(window: seq<nat>, t: Table, ph: Phase, ty: TrType, who: Option<nat>, inodes: map<nat, Inode>)
    requires Distinct(window)
    ensures WindowOk(window, |window|, t, ph, ty, who, inodes)
  {
  }

  // The short cuts of an inode play no part in it.
  lemma WindowRecut(window: seq<nat>, next: nat, t: Table, ph: Phase, ty: TrType, who: Option<nat>, inodes: map<nat, Inode>,
                    o: nat, s: ShortCuts)
    requires WindowOk(window, next, t, ph, ty, who, inodes) && o in inodes
    ensures WindowOk(window, next, t, ph, ty, who, inodes[o := inodes[o].(cuts := s)])
  {
  }

  // The record for clusters about to be appended to an inode's chain.
  function AllocRec(i: Inode, dNext: nat, clus: seq<nat>): Rec {
    AllocChain(if i.standing.Linked? then i.pdir else CLU_TAIL, i.entry, false, 0, 0, i.last, dNext, clus)
  }

  lemma AllocDescribes(m: Meta, inodes: map<nat, Inode>, files: map<nat, Name>, l: Layout, o: nat,
                       dNext: nat, clus: seq<nat>)
    requires LayoutOk(m.fat, l) && InodesOk(inodes, files, l) && FilesOk(files, l, m.dir, {}) && o in inodes
    requires FreeList(m.fat, clus)
    requires o in l.chains && l.chains[o] != [] ==> dNext == After(l, o)
    ensures Describes(AllocRec(inodes[o], dNext, clus), m)
  {
    EndsValid(m.fat, inodes, files, l, o);
    assert FileAt(files, l, m.dir, {}, o);
    if l.chains[o] != [] {
      LastIs(m.fat, l, o);
      AfterIs(m.fat, l, o);
    }
  }

  lemma TouchesClus(ph: Phase, r: Rec, i: nat)
    requires ph.Open? && i < |ph.recs| && ph.recs[i] == r && r.AllocChain?
    ensures forall c :: c in r.clus ==> MayWriteFat(ph, c)
    ensures MayWriteFat(ph, r.dPrev)
    ensures r.pdir != CLU_TAIL && !r.isXattr && r.dPrev == CLU_TAIL ==> MayLag(ph, Loc(r.pdir, r.entry))
  {
    forall c | c in r.clus || c == r.dPrev ensures SomeFat(ph.recs, c) {
      assert TouchesFat(ph.recs[i], c);
    }
    if r.pdir != CLU_TAIL && !r.isXattr && r.dPrev == CLU_TAIL {
      assert TouchesStart(ph.recs[i], Loc(r.pdir, r.entry));
    }
  }

  /** What the next step may rely on once a cluster was handed out: it is free,
      and the durable records cover every write that appends it to the inode. */
  ghost predicate MayAppend(ph: Phase, t: Table, i: Inode, n: nat) {
    && ValidClu(t, n) && t[n] == CLU_FREE && MayWriteFat(ph, n)
    && (i.last != CLU_TAIL ==> MayWriteFat(ph, i.last))
    && (i.last == CLU_TAIL && i.standing.Linked? ==> MayLag(ph, Loc(i.pdir, i.entry)))
  }

  lemma WindowHands(window: seq<nat>, next: nat, t: Table, ph: Phase, ty: TrType, o: nat, inodes: map<nat, Inode>)
    requires WindowOk(window, next, t, ph, ty, Some(o), inodes) && next < |window|
    ensures o in inodes && MayAppend(ph, t, inodes[o], window[next])
    ensures ph.Open? && ph.recs != []
  {
    TouchesClus(ph, ph.recs[0], 0);
  }

  // The cluster a record names alone, behind which it may be appended.
  lemma AloneHands(ph: Phase, t: Table, i: Inode, dNext: nat, clus: seq<nat>)
    requires ph.Open? && ph.recs != [] && ph.recs[|ph.recs| - 1] == AllocRec(i, dNext, clus)
    requires FreeList(t, clus) && |clus| == 1 && (i.standing.Linked? ==> i.last != CLU_TAIL)
    ensures MayAppend(ph, t, i, clus[0]) && clus == [clus[0]]
  {
    hide MayWriteFat;
    TouchesClus(ph, ph.recs[|ph.recs| - 1], |ph.recs| - 1);
    assert clus[0] in clus;
  }

  /** Appending the cluster handed out leaves the window as it must be. */
  lemma WindowMoves(window: seq<nat>, next: nat, t: Table, ph: Phase, ty: TrType, o: nat, inodes: map<nat, Inode>,
                    u: Table, ph': Phase)
    requires WindowOk(window, next, t, ph, ty, Some(o), inodes) && next < |window|
    requires |u| == |t| && forall c: nat :: ValidClu(t, c) && t[c] == CLU_FREE && c != window[next] ==> u[c] == CLU_FREE
    requires ph'.Open? && ph'.recs != [] && ph'.recs[0] == ph.recs[0]
    ensures WindowOk(window, next + 1, u, ph', ty, Some(o), inodes[o := Grown(inodes[o], window[next])])
  {
  }

  lemma WindowStarts(window: seq<nat>, t: Table, ph: Phase, ty: TrType, o: nat, inodes: map<nat, Inode>, dNext: nat)
    requires FreeList(t, window) && PreAllocates(ty) && ph.Open? && o in inodes && !inodes[o].standing.Unborn?
    requires ph.recs == [AllocRec(inodes[o], dNext, window)] && window != []
    requires inodes[o].standing.Linked? ==> inodes[o].pdir != CLU_TAIL
    ensures WindowOk(window, 0, t, ph, ty, Some(o), inodes)
  {
  }

  lemma LinkedNamed(t: Table, dir: Dir, lag: set<Loc>, files: map<nat, Name>, l: Layout, inodes: map<nat, Inode>, o: nat)
    requires LayoutOk(t, l) && InodesOk(inodes, files, l) && FilesOk(files, l, dir, lag) && o in inodes
    ensures inodes[o].standing.Linked? ==> inodes[o].pdir != CLU_TAIL
  {
    EndsValid(t, inodes, files, l, o);
    assert FileAt(files, l, dir, lag, o);
  }
}
