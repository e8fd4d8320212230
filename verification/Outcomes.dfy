/** What a user sees of a volume: its names, and the clusters each of them leads to.
    A crash gives back a volume with such contents, and here is which. */
module Outcomes {
  import opened Results
  import opened Fat
  import opened Layout
  import opened Orphans
  import opened Names
  import opened Crash
  import opened Steps
  import opened Windows
  import opened Growth
  import opened Records
  import opened State
  import opened Naming
  import opened Freeings
  import opened Cuttings

  datatype Contents = Contents(files: map<nat, Name>, chains: map<nat, seq<nat>>)

  ghost function ContentsOf(files: map<nat, Name>, l: Layout): Contents {
    Contents(files, map o | o in files :: ChainOf(l, o))
  }

  // What a crash in this phase gives back.
  ghost function AfterCrash(ph: Phase): Contents {
    ContentsOf(RecoveredFiles(ph), RecoveredLayout(ph))
  }

  // The log file has its name, and as many clusters as it was made with.
  ghost predicate LogKept(files: map<nat, Name>, l: Layout, name: Name, len: nat) {
    LOG_INO in files && files[LOG_INO] == name && |ChainOf(l, LOG_INO)| == len > 0
  }

  /** A crash now is one that a mount gets over: the log file is found again, replay
      reads no record that was overwritten, and the contents are among those expected. */
  ghost predicate PhaseSafe(ph: Phase, name: Name, len: nat, outcomes: iset<Contents>) {
    && LogKept(RecoveredFiles(ph), RecoveredLayout(ph), name, len)
    && AfterCrash(ph) in outcomes
    && (ph.Open? ==> |ph.recs| <= MAX_OPEN)
  }

  lemma LogStays(files: map<nat, Name>, l: Layout, after: map<nat, Name>, m: Layout, name: Name, len: nat)
    requires LogKept(files, l, name, len) && ChainOf(m, LOG_INO) == ChainOf(l, LOG_INO)
    requires LOG_INO in files ==> LOG_INO in after && after[LOG_INO] == files[LOG_INO]
    ensures LogKept(after, m, name, len)
  {
  }

  lemma ContentsFrame(files: map<nat, Name>, l: Layout, m: Layout)
    requires forall o :: o in files ==> ChainOf(m, o) == ChainOf(l, o)
    ensures ContentsOf(files, m) == ContentsOf(files, l)
  {
  }

  // A write to the table is made only under a record.
  lemma WritesLogged(ph: Phase, c: nat)
    requires ph.Open? && MayWriteFat(ph, c)
    ensures ph.recs != []
  {
  }

  // ----- the steps that start a phase, or go on in it

  lemma OpenSafe(mark: int, m: Meta, files: map<nat, Name>, l: Layout, name: Name, len: nat, outcomes: iset<Contents>)
    requires LogKept(files, l, name, len) && ContentsOf(files, l) in outcomes
    ensures PhaseSafe(Open(mark, m, [], [], files, l), name, len, outcomes)
    ensures AfterCrash(Open(mark, m, [], [], files, l)) == ContentsOf(files, l)
    ensures RecoveredLayout(Open(mark, m, [], [], files, l)) == l
  {
  }

  lemma RecordSafe(ph: Phase, r: Rec, m: Meta, name: Name, len: nat, outcomes: iset<Contents>)
    requires ph.Open? && PhaseSafe(ph, name, len, outcomes) && |ph.recs| < MAX_OPEN
    ensures PhaseSafe(With(ph, r, m), name, len, outcomes)
  {
  }

  /** What freeing an orphan leads to, however far it has come: the names and their
      chains do not change any more. */
  ghost predicate FreeingSafe(f: Freeing, name: Name, len: nat, outcomes: iset<Contents>) {
    LogKept(f.files, f.l, name, len) && ContentsOf(f.files, f.l) in outcomes
  }

  lemma FreeingKeeps(f: Freeing, ph: Phase)
    requires FreeingOk(f) && (ph.Batched? || ph.Linked?) && ph.f == f
    ensures RecoveredFiles(ph) == f.files && AfterCrash(ph) == ContentsOf(f.files, f.l)
    ensures ChainOf(RecoveredLayout(ph), LOG_INO) == ChainOf(f.l, LOG_INO)
  {
    NotInOrder(f.l);
    forall o | o in f.files ensures ChainOf(RecoveredLayout(ph), o) == ChainOf(f.l, o) {
      assert FileAt(f.files, f.l, f.dir, ZeroedSlots(f), o);
    }
  }

  lemma FreeingStarts(f: Freeing, ph: Phase, name: Name, len: nat, outcomes: iset<Contents>)
    requires FreeingOk(f) && (ph.Batched? || ph.Linked?) && ph.f == f && FreeingSafe(f, name, len, outcomes)
    ensures PhaseSafe(ph, name, len, outcomes)
  {
    FreeingKeeps(f, ph);
  }

  // ----- what an operation does to the contents

  // Cutting a chain shows only if the file has a name.
  ghost function CutContents(c: Contents, o: nat, skip: nat): Contents {
    if o in c.chains && skip < |c.chains[o]| then c.(chains := c.chains[o := c.chains[o][..skip]]) else c
  }

  /** One more name, and a new chain that it leads to. */
  ghost predicate BornContents(c: Contents, d: Contents, o: nat, n: Name, isDir: bool) {
    && d.files == c.files[o := n] && o in d.chains && |d.chains[o]| == (if isDir then 1 else 0)
    && d.chains == c.chains[o := d.chains[o]]
  }

  /** The same names, and one chain that is longer at its end. */
  ghost predicate LongerContents(c: Contents, d: Contents, o: nat) {
    && d.files == c.files
    && (if o in c.chains then o in d.chains && c.chains[o] <= d.chains[o] && d.chains == c.chains[o := d.chains[o]]
        else d == c)
  }

  ghost function Renamed(c: Contents, o: nat, n: Name, target: Option<nat>): Contents {
    var gone := if target.Some? then {target.value} else {};
    Contents(c.files[o := n] - gone, c.chains - gone)
  }

  ghost function Removed(c: Contents, o: nat): Contents {
    Contents(c.files - {o}, c.chains - {o})
  }

  lemma RemovedIs(files: map<nat, Name>, l: Layout, m: Layout, o: nat)
    requires m.chains == l.chains
    ensures ContentsOf(files - {o}, m) == Removed(ContentsOf(files, l), o)
  {
  }

  lemma RenamedIs(files: map<nat, Name>, l: Layout, m: Layout, o: nat, n: Name, target: Option<nat>, after: map<nat, Name>)
    requires m.chains == l.chains && o in files
    requires after == if target.Some? then files[o := n] - {target.value} else files[o := n]
    ensures ContentsOf(after, m) == Renamed(ContentsOf(files, l), o, n, target)
  {
  }

  lemma CutIs(files: map<nat, Name>, l: Layout, m: Layout, was: map<nat, Inode>, inodes: map<nat, Inode>, o: nat, skip: nat)
    requires CutTo(l, m, was, inodes, o, skip) && o in files
    ensures ContentsOf(files, m) == CutContents(ContentsOf(files, l), o, skip)
  {
  }

  lemma BornIs(files: map<nat, Name>, l: Layout, m: Layout, o: nat, n: Name, isDir: bool)
    requires Born(l, m, o, isDir) && o !in files
    ensures BornContents(ContentsOf(files, l), ContentsOf(files[o := n], m), o, n, isDir)
  {
    var c, d := ContentsOf(files, l), ContentsOf(files[o := n], m);
    assert d.chains == c.chains[o := d.chains[o]];
  }

  lemma LongerIs(files: map<nat, Name>, l: Layout, m: Layout, o: nat)
    requires Longer(l, m, o)
    ensures LongerContents(ContentsOf(files, l), ContentsOf(files, m), o)
  {
    if o !in files {
      ContentsFrame(files, l, m);
    }
  }

  lemma LongerNothing(c: Contents, o: nat)
    ensures LongerContents(c, c, o)
  {
  }

  lemma WithoutKeeps(files: map<nat, Name>, l: Layout, o: nat, name: Name, len: nat)
    requires LogKept(files, l, name, len) && o !in files
    ensures LogKept(files, WithoutFile(l, o), name, len) && ContentsOf(files, WithoutFile(l, o)) == ContentsOf(files, l)
  {
    ContentsFrame(files, l, WithoutFile(l, o));
  }

  lemma ForgetKeeps(files: map<nat, Name>, l: Layout, o: nat, name: Name, len: nat)
    requires LogKept(files, l, name, len) && o !in files
    ensures LogKept(files, Forget(l, o), name, len) && ContentsOf(files, Forget(l, o)) == ContentsOf(files, l)
  {
    ContentsFrame(files, l, Forget(l, o));
  }

  lemma EmptyKeeps(files: map<nat, Name>, l: Layout, o: nat, name: Name, len: nat)
    requires LogKept(files, l, name, len) && o !in l.chains
    ensures LogKept(files, WithEmpty(l, o), name, len) && ContentsOf(files, WithEmpty(l, o)) == ContentsOf(files, l)
  {
    ContentsFrame(files, l, WithEmpty(l, o));
  }

  lemma GrowKeepsLog(t: Table, files: map<nat, Name>, l: Layout, inodes: map<nat, Inode>, o: nat, n: nat, name: Name, len: nat)
    requires LayoutOk(t, l) && InodesOk(inodes, files, l) && o in inodes && LogKept(files, l, name, len)
    ensures o in l.chains && LogKept(files, Grow(l, o, n, inodes[o].standing), name, len)
  {
    EndsValid(t, inodes, files, l, o);
  }

  lemma DeletingSafe(m: Meta, files: map<nat, Name>, l: Layout, o: nat, pdir: nat, entry: nat,
                     name: Name, len: nat, outcomes: iset<Contents>)
    requires OrderOk(l) && o in l.order && LogKept(files, l, name, len) && ContentsOf(files, l) in outcomes
    ensures FreeingSafe(Deleting(m, files, l, o, pdir, entry), name, len, outcomes)
  {
  }

  lemma CutKeepsLog(t: Table, files: map<nat, Name>, l: Layout, o: nat, k: nat, x: nat, name: Name, len: nat)
    requires LayoutOk(t, l) && o in l.chains && k <= |l.chains[o]| && x !in l.chains && o != LOG_INO
    requires LogKept(files, l, name, len)
    ensures LogKept(files, Cut(l, o, k, x), name, len)
  {
  }

  // Cut back to its own clusters, the log file leads where it led before the crash.
  lemma AbsorbedContents(files: map<nat, Name>, l: Layout, m: Meta, a: Layout, name: Name, len: nat)
    requires VolumeOk(files, l, m) && LogKept(files, l, name, len) && LOG_INO in l.chains && LOG_INO in a.chains
    requires a.chains[LOG_INO] == l.chains[LOG_INO] + OrphansFrom(l, 0) && a.chains.Keys == l.chains.Keys
    requires forall o :: o in l.chains && o != LOG_INO ==> a.chains[o] == if o in l.order then [] else l.chains[o]
    ensures LOG_INO in files && files[LOG_INO] == name && 0 < len == |l.chains[LOG_INO]| <= |a.chains[LOG_INO]|
    ensures CutContents(ContentsOf(files, a), LOG_INO, len) == ContentsOf(files, l)
  {
    var c, d := ContentsOf(files, a), ContentsOf(files, l);
    forall o | o in files && o != LOG_INO ensures c.chains[o] == d.chains[o] {
      assert FileAt(files, l, m.dir, {}, o);
    }
    assert CutContents(c, LOG_INO, len).chains == d.chains;
  }

  lemma LogCutIs(files: map<nat, Name>, l: Layout, d: Layout, name: Name, own: nat)
    requires LOG_INO in l.chains && 0 < own <= |l.chains[LOG_INO]| && LOG_INO in files && files[LOG_INO] == name
    requires d.chains == l.chains[LOG_INO := l.chains[LOG_INO][..own]]
    ensures ContentsOf(files, d) == CutContents(ContentsOf(files, l), LOG_INO, own) && LogKept(files, d, name, own)
  {
    assert own == |l.chains[LOG_INO]| ==> l.chains[LOG_INO][..own] == l.chains[LOG_INO];
    assert ContentsOf(files, d).chains == CutContents(ContentsOf(files, l), LOG_INO, own).chains;
  }

  lemma LogCutSafe(m: Meta, files: map<nat, Name>, l: Layout, x: nat, pdir: nat, entry: nat,
                   name: Name, own: nat, outcomes: iset<Contents>)
    requires VolumeOk(files, l, m) && CanCut(l, LOG_INO, own, x) && LOG_INO in files && files[LOG_INO] == name
    requires CutContents(ContentsOf(files, l), LOG_INO, own) in outcomes
    ensures FreeingSafe(Cutting(m, files, l, LOG_INO, own, x, pdir, entry), name, own, outcomes)
  {
    CuttingSafe(m, files, l, LOG_INO, own, x, pdir, entry, name, own, outcomes);
  }

  lemma SafeSays(ph: Phase, name: Name, len: nat, outcomes: iset<Contents>)
    requires PhaseSafe(ph, name, len, outcomes)
    ensures LogKept(RecoveredFiles(ph), RecoveredLayout(ph), name, len)
    ensures ContentsOf(RecoveredFiles(ph), RecoveredLayout(ph)) == AfterCrash(ph) && AfterCrash(ph) in outcomes
    ensures ph.Open? ==> |ph.recs| < LOG_MAX_COUNT
  {
  }

  /** Freeing what is cut off a file leads to the file cut. */
  lemma CuttingSafe(m: Meta, files: map<nat, Name>, l: Layout, o: nat, k: nat, x: nat, pdir: nat, entry: nat,
                    name: Name, len: nat, outcomes: iset<Contents>)
    requires VolumeOk(files, l, m) && CanCut(l, o, k, x) && o in files
    requires LogKept(files, Cut(l, o, k, x), name, len) && CutContents(ContentsOf(files, l), o, k) in outcomes
    ensures FreeingSafe(Cutting(m, files, l, o, k, x, pdir, entry), name, len, outcomes)
  {
    CuttingFiles(m, files, l, o, k, x);
    var c := ContentsOf(files, CutLayout(l, o, k, x));
    assert c.chains == CutContents(ContentsOf(files, l), o, k).chains;
  }
}
