/** Each step a running volume takes, and why a crash right after it is still
    recovered: writes go only where a durable record allows them, and a record is
    logged in a state it describes. */
module Steps {
  import opened Fat
  import opened Records
  import opened Batch
  import opened Undo
  import opened LogRing
  import opened Redo
  import opened Layout
  import opened Names
  import opened Crash
  import opened Replay

  // ----- writes

  ghost predicate MayWriteFat(ph: Phase, c: nat) {
    match ph
    case Open(_, _, recs, _, _, _) => SomeFat(recs, c)
    case Batched(f, _, _) => Loose(f, c)
    case Linked(f) => Loose(f, c)
  }

  ghost predicate MayWriteSlot(ph: Phase, l: Loc, s: Slot, w: Slot) {
    match ph
    case Open(_, _, recs, _, _, _) =>
      && (SomeMark(recs, l) || w.mark == s.mark)
      && (SomeStart(recs, l) || w.start == s.start)
      && (SomeXattr(recs, l) || (w.xflag == s.xflag && w.ctime == s.ctime && w.cdate == s.cdate))
      && (SomeBuild(recs, l) || w.body == s.body)
    case Batched(f, _, _) => w == if Zeroed(f, l) then s.(start := w.start) else s
    case Linked(f) => w == if Zeroed(f, l) then s.(start := w.start) else s
  }

  lemma FatStep(ph: Phase, m: Meta, c: nat, v: nat)
    requires CrashImage(ph, m) && ValidClu(m.fat, c) && MayWriteFat(ph, c)
    ensures CrashImage(ph, m.(fat := m.fat[c := v]))
  {
  }

  lemma SlotStep(ph: Phase, m: Meta, l: Loc, w: Slot)
    requires CrashImage(ph, m) && l in m.dir && MayWriteSlot(ph, l, m.dir[l], w)
    ensures CrashImage(ph, m.(dir := m.dir[l := w]))
  {
    if ph.Open? {
      OpenSlotStep(ph, m, l, w);
    }
  }

  lemma OpenSlotStep(ph: Phase, m: Meta, l: Loc, w: Slot)
    requires ph.Open? && Image(ph.base, ph.recs, m) && l in m.dir && MayWriteSlot(ph, l, m.dir[l], w)
    ensures Image(ph.base, ph.recs, m.(dir := m.dir[l := w]))
  {
    assert SlotImage(ph.base.dir[l], ph.recs, l, m.dir[l]);
    var d := m.dir[l := w];
    forall k | k in ph.base.dir ensures SlotImage(ph.base.dir[k], ph.recs, k, d[k]) {
      assert SlotImage(ph.base.dir[k], ph.recs, k, m.dir[k]);
    }
  }

  // ----- records

  function Record(h: seq<LogRecord>, ty: TrType, r: Rec): seq<LogRecord> {
    h + [LogRecord(|h| + 1, ty, r, true)]
  }

  function With(ph: Phase, r: Rec, m: Meta): Phase
    requires ph.Open?
  {
    ph.(recs := ph.recs + [r], states := ph.states + [m])
  }

  lemma ImageGrows(base: Meta, recs: seq<Rec>, r: Rec, m: Meta)
    requires Image(base, recs, m)
    ensures Image(base, recs + [r], m)
  {
    forall c | 0 <= c < |base.fat| && !SomeFat(recs + [r], c) ensures m.fat[c] == base.fat[c] {
      SomeSnoc(recs, r, c, Loc(0, 0));
    }
    forall l | l in base.dir ensures SlotImage(base.dir[l], recs + [r], l, m.dir[l]) {
      SomeSnoc(recs, r, 0, l);
      assert SlotImage(base.dir[l], recs, l, m.dir[l]);
    }
  }

  lemma RunGrows(base: Meta, recs: seq<Rec>, states: seq<Meta>, r: Rec, m: Meta)
    requires LoggedRun(base, recs, states) && Image(base, recs, m) && Describes(r, m)
    ensures LoggedRun(base, recs + [r], states + [m])
  {
    var all, ms := recs + [r], states + [m];
    forall i | 0 <= i < |all| ensures Image(base, all[..i], ms[i]) && Describes(all[i], ms[i]) {
      assert all[..i] == recs[..i];
      if i == |recs| {
        assert all[..i] == recs;
      }
    }
  }

  lemma TailGrows(h: seq<LogRecord>, mark: int, ty: TrType, recs: seq<Rec>, r: Rec)
    requires Tail(h, mark, ty, recs)
    ensures Tail(Record(h, ty, r), mark, ty, recs + [r])
  {
    var g, all := Record(h, ty, r), recs + [r];
    forall i | 0 <= i < |all| ensures g[mark + 1 + i].rec == all[i] && g[mark + 1 + i].magic {
      assert i < |recs| ==> h[mark + 1 + i].rec == recs[i];
    }
  }

  lemma NoReuseGrows(base: Meta, recs: seq<Rec>, r: Rec)
    requires NoReuse(base, recs) && forall l :: l in base.dir && Builds(r, l) ==> IsFree(base.dir[l])
    ensures NoReuse(base, recs + [r])
  {
    assert (recs + [r])[..|recs|] == recs;
    LastBuild(base, recs + [r], |recs|);
  }

  /** A record that describes the volume as it stands can be logged. */
  lemma RecordStep(ph: Phase, h: seq<LogRecord>, ty: TrType, m: Meta, r: Rec)
    requires ph.Open? && PhaseOk(ph, h, ty) && CrashImage(ph, m)
    requires IsUndoable(r) && Describes(r, m)
    requires forall l :: l in ph.base.dir && Builds(r, l) ==> IsFree(ph.base.dir[l])
    ensures PhaseOk(With(ph, r, m), Record(h, ty, r), ty)
    ensures CrashImage(With(ph, r, m), m)
  {
    ImageGrows(ph.base, ph.recs, r, m);
    RunGrows(ph.base, ph.recs, ph.states, r, m);
    TailGrows(h, ph.mark, ty, ph.recs, r);
    NoReuseGrows(ph.base, ph.recs, r);
  }

  // Slots that are free now were free at the last commit, if nothing was removed since.
  lemma BuildStep(ph: Phase, h: seq<LogRecord>, ty: TrType, m: Meta, r: Rec)
    requires ph.Open? && PhaseOk(ph, h, ty) && CrashImage(ph, m) && Describes(r, m)
    requires forall i :: 0 <= i < |ph.recs| ==> !ph.recs[i].RemoveEntry?
    ensures forall l :: l in ph.base.dir && Builds(r, l) ==> IsFree(ph.base.dir[l])
  {
    forall l | l in ph.base.dir && Builds(r, l) ensures IsFree(ph.base.dir[l]) {
      BuiltWasFree(ph.base, ph.recs, r, m, l);
    }
  }

  /** A commit makes the volume as it stands the one to go back to. */
  lemma CommitStep(h: seq<LogRecord>, ty: TrType, m: Meta, files: map<nat, Name>, l: Layout, end: Rec, any: TrType)
    requires VolumeOk(files, l, m) && (end.Commit? || end.Abort?)
    ensures var ph := Open(|h|, m, [], [], files, l);
            PhaseOk(ph, Record(h, ty, end), any) && CrashImage(ph, m)
  {
    forall k | k in m.dir ensures SlotImage(m.dir[k], [], k, m.dir[k]) {
    }
  }

  // With nothing logged yet, a transaction may take any type.
  lemma TypeStep(ph: Phase, h: seq<LogRecord>, ty: TrType, any: TrType)
    requires ph.Open? && ph.recs == [] && PhaseOk(ph, h, ty)
    ensures PhaseOk(ph, h, any)
  {
  }

  lemma BatchStep(h: seq<LogRecord>, f: Freeing, m: Meta, chunks: seq<Chunk>)
    requires FreeingOk(f) && FreeImage(f, m) && 0 < |chunks| <= MAX_RECORDS * MAX_CHUNKS
    requires Expand(chunks) == f.l.chains[f.o][f.a..f.b]
    ensures var g := Logged(h, BatchOf(f.info, chunks), f.trType, RecordCount(|chunks|));
            PhaseOk(Batched(f, h, chunks), g, f.trType) && CrashImage(Batched(f, h, chunks), m)
  {
  }

  // ----- the log is never older than replay can see

  lemma {:induction false} OpenInWindow(h: seq<LogRecord>, mark: int, ty: TrType, recs: seq<Rec>, i: nat)
    requires Tail(h, mark, ty, recs) && Undoable(recs) && |recs| < LOG_MAX_COUNT && i <= |recs|
    ensures InWindow(h, mark + i)
  {
    if i > 0 {
      OpenInWindow(h, mark, ty, recs, i - 1);
      assert h[mark + 1 + (i - 1)].rec == recs[i - 1];
    }
  }

  lemma FreedType(f: Freeing)
    requires FreeingOk(f)
    ensures Replayed(f.trType)
  {
  }

  lemma BatchInWindow(f: Freeing, before: seq<LogRecord>, chunks: seq<Chunk>)
    requires Replayed(f.trType) && 0 < |chunks| <= MAX_RECORDS * MAX_CHUNKS
    ensures var h := Logged(before, BatchOf(f.info, chunks), f.trType, RecordCount(|chunks|));
            InWindow(h, |h| - 1)
  {
    hide BatchOf, Logged, SignedBy, ListedIn;
    RecordsFit(|chunks|);
    var recs := LoggedBatch(before, f.info, chunks, f.trType);
    RunOfBatch(before, recs, f.trType);
  }

  // A phase a batch may follow ends its log in a record replay stops at.
  lemma StopsAt(ph: Phase, h: seq<LogRecord>, ty: TrType)
    requires PhaseOk(ph, h, ty) && MayBatch(ph)
    ensures h == [] || EndsReplay(h[|h| - 1].rec) || (ph.Linked? && h[|h| - 1].rec == Mrc(ph.f.info) && h[|h| - 1].trType == ty)
    ensures h != [] ==> !h[|h| - 1].rec.Dealloc?
  {
  }

  // The torn batch is passed over in one step.
  lemma TornRun(before: seq<LogRecord>, info: DeallocInfo, chunks: seq<Chunk>, p: nat, h: seq<LogRecord>, ty: TrType)
    requires TornBehind(before, info, chunks, p, h, ty) && (before == [] || !before[|before| - 1].rec.Dealloc?)
    ensures |h| == |before| + p && h[..|before|] == before
    ensures var r := h[|h| - 1];
            && r.rec.Dealloc? && r.trType == ty && p < r.rec.recordCount <= MAX_RECORDS
            && TypeRun(h, |h| - 1, r, r.rec.recordCount) == p
  {
    hide BatchOf, RecordCount;
    RecordsFit(|chunks|);
    LoggedRecords(before, info, chunks, ty, p);
    assert h[|h| - 1] == h[|before| + (p - 1)];
    RunLength(h, |h| - 1, h[|h| - 1], p, RecordCount(|chunks|));
  }

  lemma TornInWindow(ph: Phase, before: seq<LogRecord>, info: DeallocInfo, chunks: seq<Chunk>, p: nat,
                     h: seq<LogRecord>, ty: TrType)
    requires PhaseOk(ph, before, ty) && MayBatch(ph) && Replayed(ty) && TornBehind(before, info, chunks, p, h, ty)
    ensures InWindow(h, |h| - 1)
  {
    hide PhaseOk, BatchOf, Logged, RecordCount, MayBatch;
    StopsAt(ph, before, ty);
    TornRun(before, info, chunks, p, h, ty);
    if before != [] {
      assert h[|before| - 1] == before[|before| - 1];
    }
  }

  lemma TornConfined(ph: Phase, before: seq<LogRecord>, info: DeallocInfo, chunks: seq<Chunk>, p: nat,
                     h: seq<LogRecord>, ty: TrType)
    requires PhaseOk(ph, before, ty) && MayBatch(ph) && Replayed(ty) && TornBehind(before, info, chunks, p, h, ty)
    ensures Confines(h, |h| - 1, ReachOf(ph))
  {
    hide PhaseOk, BatchOf, Logged, RecordCount, MayBatch;
    StopsAt(ph, before, ty);
    TornRun(before, info, chunks, p, h, ty);
    LinkedSource(ph, before, ty);
    if before != [] {
      assert h[|before| - 1] == before[|before| - 1];
    }
  }

  lemma LinkedSource(ph: Phase, h: seq<LogRecord>, ty: TrType)
    requires PhaseOk(ph, h, ty)
    ensures ph.Linked? ==> SourceIn(ReachOf(ph), ty, ph.f.info)
  {
    hide FreeReach, FreeingOk, SourceIn;
    if ph.Linked? {
      SourceConfined(ph.f);
    }
  }

  /** Whatever the phase, replay reads no record that has been overwritten. */
  lemma PhaseInWindow(ph: Phase, h: seq<LogRecord>, ty: TrType)
    requires Replayable(ph, h, ty) && (ph.Open? ==> |ph.recs| < LOG_MAX_COUNT)
    ensures InWindow(h, |h| - 1)
  {
    hide PhaseOk, InWindow, TornBehind, MayBatch;
    if PhaseOk(ph, h, ty) {
      WholeInWindow(ph, h, ty);
    } else {
      var before, info, chunks, p: nat :| PhaseOk(ph, before, ty) && TornBehind(before, info, chunks, p, h, ty);
      TornInWindow(ph, before, info, chunks, p, h, ty);
    }
  }

  lemma WholeInWindow(ph: Phase, h: seq<LogRecord>, ty: TrType)
    requires PhaseOk(ph, h, ty) && (ph.Open? ==> |ph.recs| < LOG_MAX_COUNT)
    ensures InWindow(h, |h| - 1)
  {
    hide FreeingOk, VolumeOk, LoggedRun, NoReuse, BatchOf, Logged, Expand, RecordCount;
    match ph
    case Open(mark, base, recs, states, files, lay) =>
      OpenInWindow(h, mark, ty, recs, |recs|);
    case Batched(f, before, chunks) =>
      FreedType(f);
      BatchInWindow(f, before, chunks);
    case Linked(f) =>
  }

  // ----- replay writes only what the phase lets it

  ghost function ReachOf(ph: Phase): Reach {
    match ph
    case Open(_, _, recs, _, _, _) =>
      Reach(iset c: nat | SomeFat(recs, c), iset l | SomeMark(recs, l), iset l | SomeStart(recs, l), iset l | SomeXattr(recs, l))
    case Batched(f, _, _) => FreeReach(f)
    case Linked(f) => FreeReach(f)
  }

  ghost function FreeReach(f: Freeing): Reach {
    Reach(iset c: nat | Loose(f, c), iset{}, iset l | Zeroed(f, l), iset{})
  }

  lemma OneOfMany(recs: seq<Rec>, i: nat, ph: Phase)
    requires i < |recs| && ph.Open? && ph.recs == recs
    ensures RecIn(ReachOf(ph), recs[i])
  {
  }

  lemma {:induction false} OpenConfined(ph: Phase, h: seq<LogRecord>, ty: TrType, i: nat)
    requires ph.Open? && Tail(h, ph.mark, ty, ph.recs) && Undoable(ph.recs) && i <= |ph.recs|
    ensures Confines(h, ph.mark + i, ReachOf(ph))
  {
    if i > 0 {
      OpenConfined(ph, h, ty, i - 1);
      OneOfMany(ph.recs, i - 1, ph);
      assert h[ph.mark + 1 + (i - 1)].rec == ph.recs[i - 1];
    }
  }

  lemma SourceConfined(f: Freeing)
    requires FreeingOk(f)
    ensures SourceIn(FreeReach(f), f.trType, f.info)
  {
  }

  lemma BatchConfined(f: Freeing, before: seq<LogRecord>, chunks: seq<Chunk>)
    requires FreeingOk(f) && chunks != [] && |chunks| <= MAX_RECORDS * MAX_CHUNKS && Expand(chunks) == f.l.chains[f.o][f.a..f.b]
    ensures var h := Logged(before, BatchOf(f.info, chunks), f.trType, RecordCount(|chunks|));
            Confines(h, |h| - 1, FreeReach(f))
  {
    hide FreeReach, FreeingOk, BatchOf, Logged, Expand, SignedBy, SourceIn, ClustersIn;
    RecordsFit(|chunks|);
    FreedType(f);
    var recs := LoggedBatch(before, f.info, chunks, f.trType);
    RunOfBatch(before, recs, f.trType);
    SourceConfined(f);
    ListConfined(f, Expand(chunks));
    assert forall i :: 0 <= i < |recs| ==> InBatch(recs[i], f.trType, |recs|);
    assert BatchIn(FreeReach(f), recs);
  }

  lemma ListConfined(f: Freeing, clus: seq<nat>)
    requires FreeingOk(f) && clus == f.l.chains[f.o][f.a..f.b]
    ensures ClustersIn(FreeReach(f), clus)
  {
    forall c | c in clus ensures c in FreeReach(f).fat {
      SliceIs(f.l, f.o, f.a, f.b, c);
    }
  }

  /** Whatever the phase, replay writes only where the durable records let it. */
  lemma PhaseConfined(ph: Phase, h: seq<LogRecord>, ty: TrType)
    requires Replayable(ph, h, ty)
    ensures Confines(h, |h| - 1, ReachOf(ph))
  {
    hide PhaseOk, Confines, ReachOf, TornBehind, MayBatch;
    if PhaseOk(ph, h, ty) {
      WholeConfined(ph, h, ty);
    } else {
      var before, info, chunks, p: nat :| PhaseOk(ph, before, ty) && TornBehind(before, info, chunks, p, h, ty);
      TornConfined(ph, before, info, chunks, p, h, ty);
    }
  }

  lemma WholeConfined(ph: Phase, h: seq<LogRecord>, ty: TrType)
    requires PhaseOk(ph, h, ty)
    ensures Confines(h, |h| - 1, ReachOf(ph))
  {
    hide FreeReach, FreeingOk, Confines, VolumeOk, LoggedRun, NoReuse, Undoable, Logged, BatchOf, Expand, RecordCount;
    match ph
    case Open(mark, base, recs, states, files, lay) => OpenConfined(ph, h, ty, |recs|);
    case Batched(f, before, chunks) => BatchConfined(f, before, chunks);
    case Linked(f) => LinkedConfined(f, h);
  }

  lemma LinkedConfined(f: Freeing, h: seq<LogRecord>)
    requires FreeingOk(f) && h != [] && h[|h| - 1].rec == Mrc(f.info) && h[|h| - 1].trType == f.trType
    ensures Confines(h, |h| - 1, FreeReach(f))
  {
    hide FreeingOk, FreeReach;
    SourceConfined(f);
  }

  lemma WithinIsPartial(ph: Phase, m: Meta, n: Meta)
    requires Within(ReachOf(ph), m, n)
    ensures PartialReplay(ph, m, n)
  {
    var w := ReachOf(ph);
    forall l | l in m.dir ensures SlotWithin(w, l, m.dir[l], n.dir[l]) {
    }
  }

  /** A replay that is stopped after any of its writes leaves a disk from which the next
      one gives back what the first one would have. */
  lemma ReplayStopped(ph: Phase, h: seq<LogRecord>, ty: TrType, m: Meta, n: Meta)
    requires Replayable(ph, h, ty) && CrashImage(ph, m) && Within(ReachOf(ph), m, n)
    ensures CrashImage(ph, n)
    ensures Recover(h, |h| - 1, n).Ok? && Recovered(ph, Recover(h, |h| - 1, n).value)
  {
    hide Replayable, CrashImage, Within, PartialReplay, Recover, Recovered;
    WithinIsPartial(ph, m, n);
    PartialKeepsImage(ph, m, n);
    CrashRecovers(ph, h, ty, n);
  }
}
