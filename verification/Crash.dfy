/** What a crash may leave behind, and what replay makes of it. A volume is
    either inside a transaction that replay would undo, or it is freeing an
    orphan, which replay carries on with. */
module Crash {
  import opened Fat
  import opened Records
  import opened Batch
  import opened Undo
  import opened LogRing
  import opened Redo
  import opened Layout
  import opened Orphans
  import opened Names

  // ----- freeing an orphan

  /** The orphan `o` of the layout `l` has lost its first `a` clusters for good;
      the newest batch of records lists those from `a` up to `b`. `t` is a table
      that fits `l`, and `files` and `dir` the names, as they were before anything
      was freed. When `file` is being truncated, `o` holds what was cut off it. */
  datatype Freeing = Freeing(l: Layout, t: Table, files: map<nat, Name>, dir: Dir, o: nat, file: nat,
                             trType: TrType, info: DeallocInfo, a: nat, b: nat)

  // A truncated file keeps its name and where it ends now.
  ghost predicate TailOk(f: Freeing) {
    && f.file in f.files && f.file in f.l.chains && f.file != f.o
    && Short(f.files[f.file]) == Loc(f.info.pdir, f.info.entry)
    && f.info.fLast == (if f.l.chains[f.file] == [] then CLU_TAIL else LastOf(f.l, f.file))
    && (f.file == LOG_INO ==> f.l.order == [f.o])
  }

  ghost predicate FreeingOk(f: Freeing) {
    && LayoutOk(f.t, f.l) && CanDrop(f.l, f.o, f.b) && f.a <= f.b && Replayed(f.trType)
    && FilesOk(f.files, f.l, f.dir, ZeroedSlots(f)) && AllClaimed(f.files, f.l)
    && f.info.lPrev == PrevLast(f.l, f.o) && f.info.lNext == After(f.l, f.o)
    && f.info.next == (if f.b < |f.l.chains[f.o]| then f.l.chains[f.o][f.b] else CLU_TAIL)
    && (f.trType == TRUNCATE_B ==> TailOk(f))
  }

  function ZeroedSlots(f: Freeing): set<Loc> {
    if f.trType == TRUNCATE_B && f.info.fLast == CLU_TAIL then {Loc(f.info.pdir, f.info.entry)} else {}
  }

  lemma TailIs(f: Freeing)
    requires FreeingOk(f) && f.trType == TRUNCATE_B
    ensures Loc(f.info.pdir, f.info.entry) in f.dir
    ensures var c := f.info.fLast;
            && (c != CLU_TAIL ==>
                  && ValidClu(f.t, c) && c in f.l.pos && f.l.pos[c].0 != f.o
                  && (c == f.info.lPrev || f.t[c] == CLU_TAIL))
            && (c == CLU_TAIL <==> f.l.chains[f.file] == [])
  {
    assert FileAt(f.files, f.l, f.dir, ZeroedSlots(f), f.file);
    if f.l.chains[f.file] != [] {
      LastIs(f.t, f.l, f.file);
    }
  }

  predicate ListedHere(f: Freeing, c: nat) {
    c in f.l.pos && f.l.pos[c].0 == f.o && f.a <= f.l.pos[c].1 < f.b
  }

  // The entries the durable batch allows to be written.
  predicate Loose(f: Freeing, c: nat) {
    c == f.info.lPrev || (f.trType == TRUNCATE_B && c == f.info.fLast) || ListedHere(f, c)
  }

  predicate Zeroed(f: Freeing, k: Loc) {
    k in ZeroedSlots(f)
  }

  ghost predicate FreeImage(f: Freeing, m: Meta) {
    && CanDrop(f.l, f.o, f.a)
    && |m.fat| == |f.t| && m.dir.Keys == f.dir.Keys
    && (forall c: nat :: ValidClu(f.t, c) && !Loose(f, c) ==> m.fat[c] == DropEntry(f.t, f.l, f.o, f.a, c))
    && (forall k :: k in f.dir ==>
          m.dir[k] == if Zeroed(f, k) then f.dir[k].(start := m.dir[k].start) else f.dir[k])
  }

  ghost function FreedDir(f: Freeing): Dir {
    var k := Loc(f.info.pdir, f.info.entry);
    if k in f.dir && Zeroed(f, k) then f.dir[k := f.dir[k].(start := 0)] else f.dir
  }

  ghost predicate Freed(f: Freeing, m: Meta) {
    CanDrop(f.l, f.o, f.b) && Dropped(f.t, f.l, f.o, f.b, m.fat) && m.dir == FreedDir(f)
  }

  lemma SliceIs(l: Layout, o: nat, a: nat, b: nat, c: nat)
    requires PosOk(l) && o in l.chains && a <= b <= |l.chains[o]|
    ensures c in l.chains[o][a..b] <==> c in l.pos && l.pos[c].0 == o && a <= l.pos[c].1 < b
  {
    assert Owned(l, c);
    var s := l.chains[o][a..b];
    if c in l.pos && l.pos[c].0 == o && a <= l.pos[c].1 < b {
      assert s[l.pos[c].1 - a] == c;
    } else {
      forall i | 0 <= i < |s| ensures s[i] != c {
        assert Placed(l, o, a + i);
      }
    }
  }

  lemma NextValid(f: Freeing)
    requires FreeingOk(f)
    ensures ValidClu(f.t, f.info.lPrev)
    ensures var next := if f.info.next != CLU_TAIL then f.info.next else f.info.lNext;
            next == NextOf(f.l, f.o, f.b) && (next == CLU_TAIL || ValidClu(f.t, next))
  {
    PrevLastIs(f.t, f.l, f.o);
    if f.b < |f.l.chains[f.o]| {
      LinkIs(f.t, f.l, f.o, f.b);
    } else {
      AfterIs(f.t, f.l, f.o);
    }
  }

  lemma SourceAt(f: Freeing, m: Meta)
    requires FreeingOk(f) && FreeImage(f, m)
    ensures var s := RedoSource(m, f.trType, f.info);
            && s.Ok? && s.value.dir == FreedDir(f) && |s.value.fat| == |f.t|
            && forall c: nat :: ValidClu(f.t, c) ==>
                 s.value.fat[c] == if c == f.info.lPrev then NextOf(f.l, f.o, f.b)
                                   else if f.trType == TRUNCATE_B && c == f.info.fLast then CLU_TAIL
                                   else m.fat[c]
  {
    NextValid(f);
    if f.trType == TRUNCATE_B {
      TailIs(f);
    }
  }

  /** Whatever the crash left of the batch, of the link in the pool, of the end
      mark and of the slot: redo makes it the batch done and nothing else. */
  lemma RedoExact(f: Freeing, chunks: seq<Chunk>, m: Meta)
    requires FreeingOk(f) && FreeImage(f, m) && Expand(chunks) == f.l.chains[f.o][f.a..f.b]
    ensures var r := RedoChain(m, f.trType, f.info, chunks);
            r.Ok? && Freed(f, r.value)
  {
    SourceAt(f, m);
    var s := RedoSource(m, f.trType, f.info).value;
    var clus := Expand(chunks);
    forall i | 0 <= i < |clus| ensures ValidClu(f.t, clus[i]) {
      LinkIs(f.t, f.l, f.o, f.a + i);
    }
    if f.trType == TRUNCATE_B {
      TailIs(f);
    }
    FreeFromAt(s.fat, clus, 0);
    assert clus[0..] == clus;
    var u := FreeFrom(s.fat, clus, 0).value;
    forall c: nat | ValidClu(f.t, c) ensures u[c] == DropEntry(f.t, f.l, f.o, f.b, c) {
      SliceIs(f.l, f.o, f.a, f.b, c);
      PrevLastIs(f.t, f.l, f.o);
    }
  }

  /** No cluster is lost: what is left is again a volume in which every cluster
      is free or on a chain, the rest of the orphan in its old place in the pool,
      and every name leads to its chain. */
  lemma FreedIsVolume(f: Freeing, m: Meta)
    requires FreeingOk(f) && Freed(f, m)
    ensures VolumeOk(f.files, Drop(f.l, f.o, f.b), m)
  {
    DropOk(f.t, f.l, f.o, f.b, m.fat);
    var k := Loc(f.info.pdir, f.info.entry);
    if ZeroedSlots(f) == {} {
      assert m.dir == f.dir;
    } else {
      TailIs(f);
      FilesSetStart(f.files, f.l, f.dir, {k}, f.file, m.dir);
      assert {k} - {k} == {};
    }
    DropFiles(f.files, f.l, m.dir, {}, f.o, f.b);
  }

  /** A consistent volume: each cluster in use has one owner, each name leads to
      its chain, and there are no other chains than those of the names, of the
      orphans in the pool and of the log file. */
  ghost predicate VolumeOk(files: map<nat, Name>, l: Layout, m: Meta) {
    LayoutOk(m.fat, l) && FilesOk(files, l, m.dir, {}) && AllClaimed(files, l)
  }

  /** And there is no other way: a disk fits the volume without the listed clusters only if
      every write of the batch is on it. */
  lemma FitsIfDone(f: Freeing, m: Meta)
    requires FreeingOk(f) && FreeImage(f, m)
    ensures VolumeOk(f.files, Drop(f.l, f.o, f.b), m) <==> Freed(f, m)
  {
    if Freed(f, m) {
      FreedIsVolume(f, m);
    } else if VolumeOk(f.files, Drop(f.l, f.o, f.b), m) {
      FitsTable(f, m);
      FitsDir(f, m);
      assert false;
    }
  }

  lemma FitsTable(f: Freeing, m: Meta)
    requires FreeingOk(f) && |m.fat| == |f.t| && LayoutOk(m.fat, Drop(f.l, f.o, f.b))
    ensures Dropped(f.t, f.l, f.o, f.b, m.fat)
  {
    var u: Table := seq(|f.t|, c requires 0 <= c < |f.t| => if c < VALID_CLU then 0 else DropEntry(f.t, f.l, f.o, f.b, c));
    DropOk(f.t, f.l, f.o, f.b, u);
    LayoutDetermines(u, m.fat, Drop(f.l, f.o, f.b));
    forall c: nat | ValidClu(f.t, c) ensures m.fat[c] == DropEntry(f.t, f.l, f.o, f.b, c) {
      assert u[VALID_CLU..][c - VALID_CLU] == m.fat[VALID_CLU..][c - VALID_CLU];
    }
  }

  lemma FitsDir(f: Freeing, m: Meta)
    requires FreeingOk(f) && FreeImage(f, m) && FilesOk(f.files, Drop(f.l, f.o, f.b), m.dir, {})
    ensures m.dir == FreedDir(f)
  {
    if ZeroedSlots(f) != {} {
      TailIs(f);
      assert FileAt(f.files, Drop(f.l, f.o, f.b), m.dir, {}, f.file);
    }
  }

  // ----- the phases of a volume

  /** Open: a transaction whose records, if any, replay undoes back to `base`.
      Batched: the log ends in the batch of records that lists `chunks`.
      Linked: the log ends in the record that marks such a batch as done. */
  datatype Phase =
    | Open(mark: int, base: Meta, recs: seq<Rec>, states: seq<Meta>,
           files: map<nat, Name>, lay: Layout)
    | Batched(f: Freeing, before: seq<LogRecord>, chunks: seq<Chunk>)
    | Linked(f: Freeing)

  // The log ends in the records of one transaction, of one type, after the last commit or abort.
  ghost predicate Tail(h: seq<LogRecord>, mark: int, ty: TrType, recs: seq<Rec>) {
    && HoldsAfter(h, mark, recs) && mark + |recs| == |h| - 1
    && (mark >= 0 ==> h[mark].rec.Commit? || h[mark].rec.Abort?)
    && forall k :: mark < k < |h| ==> h[k].trType == ty
  }

  ghost predicate PhaseOk(ph: Phase, h: seq<LogRecord>, ty: TrType) {
    match ph
    case Open(mark, base, recs, states, files, lay) =>
      && Tail(h, mark, ty, recs) && Undoable(recs) && LoggedRun(base, recs, states) && NoReuse(base, recs)
      && VolumeOk(files, lay, base)
    case Batched(f, before, chunks) =>
      && FreeingOk(f) && ty == f.trType && 0 < |chunks| <= MAX_RECORDS * MAX_CHUNKS
      && Expand(chunks) == f.l.chains[f.o][f.a..f.b]
      && h == Logged(before, BatchOf(f.info, chunks), ty, RecordCount(|chunks|))
    case Linked(f) =>
      && FreeingOk(f) && ty == f.trType && f.a == f.b
      && h != [] && h[|h| - 1].rec == Mrc(f.info) && h[|h| - 1].trType == ty
  }

  // A batch is only ever started after a commit or after the mark of the batch before it.
  ghost predicate MayBatch(ph: Phase) {
    (ph.Open? && ph.recs == []) || ph.Linked?
  }

  // The log is `before`, and behind it the first p records of a batch that has more.
  ghost predicate TornBehind(before: seq<LogRecord>, info: DeallocInfo, chunks: seq<Chunk>, p: nat, h: seq<LogRecord>, ty: TrType) {
    && |chunks| <= MAX_RECORDS * MAX_CHUNKS && 0 < p < RecordCount(|chunks|)
    && h == Logged(before, BatchOf(info, chunks), ty, p)
  }

  // The phase has not changed yet while the next batch is being written.
  ghost predicate PhaseTorn(ph: Phase, h: seq<LogRecord>, ty: TrType) {
    && MayBatch(ph) && Replayed(ty)
    && exists before, info, chunks, p: nat :: PhaseOk(ph, before, ty) && TornBehind(before, info, chunks, p, h, ty)
  }

  /** The log is that of the phase, between two records of one batch as well. */
  ghost predicate Replayable(ph: Phase, h: seq<LogRecord>, ty: TrType) {
    PhaseOk(ph, h, ty) || PhaseTorn(ph, h, ty)
  }

  /** The disks a crash may leave in a phase: every write made so far may be
      there or not, and so may any mixture of them. */
  ghost predicate CrashImage(ph: Phase, m: Meta) {
    match ph
    case Open(_, base, recs, _, _, _) => Image(base, recs, m)
    case Batched(f, _, _) => FreeImage(f, m)
    case Linked(f) => FreeImage(f, m)
  }

  /** What replay must give back. */
  ghost predicate Recovered(ph: Phase, m: Meta) {
    match ph
    case Open(_, base, _, _, _, _) => SameVolume(base, m)
    case Batched(f, _, _) => Freed(f, m)
    case Linked(f) => Freed(f, m)
  }

  ghost function RecoveredFiles(ph: Phase): map<nat, Name> {
    match ph
    case Open(_, _, _, _, files, _) => files
    case Batched(f, _, _) => f.files
    case Linked(f) => f.files
  }

  // The layout of the volume replay gives back.
  ghost function RecoveredLayout(ph: Phase): Layout {
    match ph
    case Open(_, _, _, _, _, lay) => lay
    case Batched(f, _, _) => if CanDrop(f.l, f.o, f.b) then Drop(f.l, f.o, f.b) else f.l
    case Linked(f) => if CanDrop(f.l, f.o, f.b) then Drop(f.l, f.o, f.b) else f.l
  }

  lemma PhaseRecovers(ph: Phase, h: seq<LogRecord>, ty: TrType, m: Meta)
    requires PhaseOk(ph, h, ty) && CrashImage(ph, m)
    ensures Recover(h, |h| - 1, m).Ok?
    ensures Recovered(ph, Recover(h, |h| - 1, m).value)
    ensures VolumeOk(RecoveredFiles(ph), RecoveredLayout(ph), Recover(h, |h| - 1, m).value)
  {
    hide Recover, FreeingOk, FreeImage, Freed, LoggedRun, Image, NoReuse, Tail, Undoable, Logged, BatchOf, Expand,
         RecordCount, SameVolume, VolumeOk;
    match ph
    case Open(mark, base, recs, states, _, _) =>
      OpenRecovers(h, mark, base, recs, states, ty, m);
      VolumeSame(ph.files, ph.lay, base, Recover(h, |h| - 1, m).value);
    case Batched(f, before, chunks) =>
      BatchedRecovers(f, before, chunks, m);
      FreedIsVolume(f, Recover(h, |h| - 1, m).value);
    case Linked(f) =>
      LinkedRecovers(f, h, m);
      FreedIsVolume(f, Recover(h, |h| - 1, m).value);
  }

  lemma VolumeSame(files: map<nat, Name>, l: Layout, base: Meta, m: Meta)
    requires VolumeOk(files, l, base) && SameVolume(base, m)
    ensures VolumeOk(files, l, m)
  {
    FilesSame(files, l, base, m, {});
  }

  lemma OpenRecovers(h: seq<LogRecord>, mark: int, base: Meta, recs: seq<Rec>, states: seq<Meta>, ty: TrType, m: Meta)
    requires Tail(h, mark, ty, recs) && Undoable(recs)
    requires LoggedRun(base, recs, states) && NoReuse(base, recs) && Image(base, recs, m)
    ensures Recover(h, |h| - 1, m).Ok? && SameVolume(base, Recover(h, |h| - 1, m).value)
  {
    RecoverUndoes(h, mark, recs, m);
    UndoRestores(base, recs, states, m);
  }

  lemma BatchedRecovers(f: Freeing, before: seq<LogRecord>, chunks: seq<Chunk>, m: Meta)
    requires FreeingOk(f) && FreeImage(f, m) && chunks != [] && Expand(chunks) == f.l.chains[f.o][f.a..f.b]
    ensures var h := Logged(before, BatchOf(f.info, chunks), f.trType, RecordCount(|chunks|));
            Recover(h, |h| - 1, m).Ok? && Freed(f, Recover(h, |h| - 1, m).value)
  {
    RedoExact(f, chunks, m);
    RecoverBatch(before, f.info, chunks, f.trType, m);
  }

  lemma LinkedRecovers(f: Freeing, h: seq<LogRecord>, m: Meta)
    requires FreeingOk(f) && FreeImage(f, m) && f.a == f.b
    requires h != [] && h[|h| - 1].rec == Mrc(f.info) && h[|h| - 1].trType == f.trType
    ensures Recover(h, |h| - 1, m).Ok? && Freed(f, Recover(h, |h| - 1, m).value)
  {
    SourceIsChain(f, m);
    RedoExact(f, [], m);
  }

  lemma SourceIsChain(f: Freeing, m: Meta)
    requires FreeingOk(f) && FreeImage(f, m) && f.a == f.b
    ensures RedoChain(m, f.trType, f.info, []) == RedoSource(m, f.trType, f.info)
    ensures Expand([]) == f.l.chains[f.o][f.a..f.b]
  {
    SourceAt(f, m);
  }

  /** A crash in the middle of logging a batch, with its first records in the log,
      leaves a log that replays as if the batch had never been begun. */
  lemma TornBatchRecovers(ph: Phase, h: seq<LogRecord>, ty: TrType, m: Meta,
                          info: DeallocInfo, chunks: seq<Chunk>, p: nat)
    requires PhaseOk(ph, h, ty) && MayBatch(ph) && CrashImage(ph, m)
    requires Replayed(ty) && 0 < p < RecordCount(|chunks|)
    ensures var g := Logged(h, BatchOf(info, chunks), ty, p);
            && Recover(g, |g| - 1, m) == Recover(h, |h| - 1, m)
            && Recover(g, |g| - 1, m).Ok? && Recovered(ph, Recover(g, |g| - 1, m).value)
  {
    PhaseRecovers(ph, h, ty, m);
    RecoverTorn(h, info, chunks, ty, p, m);
  }

  /** Crash recovery: in every phase, from every disk the crash may leave, replay
      succeeds, gives back what it must, and the result is a consistent volume. */
  lemma CrashRecovers(ph: Phase, h: seq<LogRecord>, ty: TrType, m: Meta)
    requires Replayable(ph, h, ty) && CrashImage(ph, m)
    ensures Recover(h, |h| - 1, m).Ok?
    ensures Recovered(ph, Recover(h, |h| - 1, m).value)
    ensures VolumeOk(RecoveredFiles(ph), RecoveredLayout(ph), Recover(h, |h| - 1, m).value)
  {
    hide Recover, Recovered, RecoveredFiles, RecoveredLayout, PhaseOk, CrashImage, Logged, BatchOf, VolumeOk, MayBatch;
    if PhaseOk(ph, h, ty) {
      PhaseRecovers(ph, h, ty, m);
    } else {
      var before, info, chunks, p: nat :| PhaseOk(ph, before, ty) && TornBehind(before, info, chunks, p, h, ty);
      PhaseRecovers(ph, before, ty, m);
      TornBatchRecovers(ph, before, ty, m, info, chunks, p);
    }
  }

  // ----- a crash during replay

  // m differs from n only where the replay of this phase writes.
  ghost predicate PartialReplay(ph: Phase, m: Meta, n: Meta) {
    match ph
    case Open(_, _, recs, _, _, _) => Partial(recs, m, n)
    case Batched(f, _, _) => PartialRedo(f, m, n)
    case Linked(f) => PartialRedo(f, m, n)
  }

  ghost predicate PartialRedo(f: Freeing, m: Meta, n: Meta) {
    && |m.fat| == |n.fat| && m.dir.Keys == n.dir.Keys
    && (forall c: nat :: ValidClu(m.fat, c) && !Loose(f, c) ==> n.fat[c] == m.fat[c])
    && (forall k :: k in m.dir ==>
          n.dir[k] == if Zeroed(f, k) then m.dir[k].(start := n.dir[k].start) else m.dir[k])
  }

  /** Replay writes nowhere else, so every cut of it is a `PartialReplay`. */
  lemma ReplayIsPartial(ph: Phase, h: seq<LogRecord>, ty: TrType, m: Meta)
    requires Replayable(ph, h, ty) && CrashImage(ph, m)
    ensures Recover(h, |h| - 1, m).Ok? && PartialReplay(ph, m, Recover(h, |h| - 1, m).value)
  {
    hide Recover, PartialReplay, PhaseOk, CrashImage, Logged, BatchOf, MayBatch;
    if PhaseOk(ph, h, ty) {
      PhaseIsPartial(ph, h, ty, m);
    } else {
      var before, info, chunks, p: nat :| PhaseOk(ph, before, ty) && TornBehind(before, info, chunks, p, h, ty);
      PhaseIsPartial(ph, before, ty, m);
      TornBatchRecovers(ph, before, ty, m, info, chunks, p);
    }
  }

  lemma PhaseIsPartial(ph: Phase, h: seq<LogRecord>, ty: TrType, m: Meta)
    requires PhaseOk(ph, h, ty) && CrashImage(ph, m)
    ensures Recover(h, |h| - 1, m).Ok? && PartialReplay(ph, m, Recover(h, |h| - 1, m).value)
  {
    hide Recover, FreeingOk, FreeImage, Freed, LoggedRun, Image, NoReuse, Tail, Undoable, Logged, BatchOf, Expand,
         RecordCount, Partial, PartialRedo;
    match ph
    case Open(mark, base, recs, states, _, _) =>
      OpenPartial(h, mark, base, recs, states, ty, m);
    case Batched(f, before, chunks) =>
      BatchedRecovers(f, before, chunks, m);
      RedoPartial(f, m, Recover(h, |h| - 1, m).value);
    case Linked(f) =>
      LinkedRecovers(f, h, m);
      RedoPartial(f, m, Recover(h, |h| - 1, m).value);
  }

  lemma OpenPartial(h: seq<LogRecord>, mark: int, base: Meta, recs: seq<Rec>, states: seq<Meta>, ty: TrType, m: Meta)
    requires Tail(h, mark, ty, recs) && Undoable(recs) && LoggedRun(base, recs, states) && Image(base, recs, m)
    ensures Recover(h, |h| - 1, m).Ok? && Partial(recs, m, Recover(h, |h| - 1, m).value)
  {
    RecoverUndoes(h, mark, recs, m);
    UndoAllPartial(base, recs, states, m);
  }

  lemma RedoPartial(f: Freeing, m: Meta, n: Meta)
    requires FreeingOk(f) && FreeImage(f, m) && Freed(f, n)
    ensures PartialRedo(f, m, n)
  {
  }

  lemma PartialKeepsImage(ph: Phase, m: Meta, n: Meta)
    requires CrashImage(ph, m) && PartialReplay(ph, m, n)
    ensures CrashImage(ph, n)
  {
    if ph.Open? {
      PartialImage(ph.base, ph.recs, m, n);
    }
  }

  /** Replay is restartable, in every phase: after any number of attempts that
      were cut short, the one that runs to its end gives back the same volume. */
  lemma {:induction false} ReplayRestartable(ph: Phase, h: seq<LogRecord>, ty: TrType, disks: seq<Meta>)
    requires Replayable(ph, h, ty) && disks != [] && CrashImage(ph, disks[0])
    requires forall i :: 0 <= i < |disks| - 1 ==> PartialReplay(ph, disks[i], disks[i + 1])
    ensures var last := disks[|disks| - 1];
            Recover(h, |h| - 1, last).Ok? && Recovered(ph, Recover(h, |h| - 1, last).value)
    decreases |disks|
  {
    if |disks| == 1 {
      CrashRecovers(ph, h, ty, disks[0]);
    } else {
      PartialKeepsImage(ph, disks[0], disks[1]);
      ReplayRestartable(ph, h, ty, disks[1..]);
    }
  }
}
