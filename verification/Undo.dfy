/** Replay undoes the records of an unfinished transaction, newest first.
    This module gives the undo of each record and proves what the whole undo
    restores from any disk a crash may have left. */
module Undo {
  import opened Results
  import opened Fat
  import opened Records
  import opened Marks

  predicate IsUndoable(r: Rec) {
    r.AllocChain? || r.BuildEntry? || r.RemoveEntry? || r.MoveChain?
  }

  // ----- undo of one record

  function FreeFrom(t: Table, clus: seq<nat>, i: nat): Result<Table>
    requires i <= |clus|
    decreases |clus| - i
  {
    if i == |clus| then Ok(t)
    else if FatWrite(t, clus[i], CLU_FREE).Err? then Err(EIO)
    else FreeFrom(t[clus[i] := CLU_FREE], clus, i + 1)
  }

  function ResetSlot(s: Slot, r: Rec): Slot
    requires r.AllocChain?
  {
    if r.isXattr then s.(xflag := false, ctime := r.ctime, cdate := r.cdate) else s.(start := 0)
  }

  function UndoAlloc(m: Meta, r: Rec): Result<Meta>
    requires r.AllocChain?
  {
    if r.dPrev != CLU_TAIL then
      if FatWrite(m.fat, r.dPrev, r.dNext).Err? then Err(EIO)
      else
        var t := FreeFrom(m.fat[r.dPrev := r.dNext], r.clus, 0);
        if t.Err? then Err(EIO) else Ok(m.(fat := t.value))
    else
      var l := Loc(r.pdir, r.entry);
      var d := if r.pdir != CLU_TAIL && l in m.dir then m.dir[l := ResetSlot(m.dir[l], r)] else m.dir;
      var t := FreeFrom(m.fat, r.clus, 0);
      if t.Err? then Err(EIO) else Ok(Meta(t.value, d))
  }

  function Unbuilt(s: Slot): Slot {
    if IsFree(s) then s else s.(mark := DELETE_MARK)
  }

  function UndoBuilt(d: Dir, pdir: nat, entry: nat, i: nat, n: nat): Dir
    decreases n - i
  {
    if i >= n || entry < i || Loc(pdir, entry - i) !in d then d
    else
      var l := Loc(pdir, entry - i);
      UndoBuilt(d[l := Unbuilt(d[l])], pdir, entry, i + 1, n)
  }

  function UndoRemoved(d: Dir, pdir: nat, entry: nat, i: nat, undel: seq<nat>): Dir
    decreases |undel| - i
  {
    if i >= |undel| || entry < i || Loc(pdir, entry - i) !in d then d
    else
      var l := Loc(pdir, entry - i);
      UndoRemoved(d[l := d[l].(mark := undel[i])], pdir, entry, i + 1, undel)
  }

  function UndoMove(m: Meta, r: Rec): Result<Meta>
    requires r.MoveChain?
  {
    var l := Loc(r.pdir, r.entry);
    if r.pdir != CLU_TAIL && !r.isXattr && l !in m.dir then Err(EIO)
    else
      var d := if r.pdir != CLU_TAIL && !r.isXattr then m.dir[l := m.dir[l].(start := r.head)] else m.dir;
      if FatWrite(m.fat, r.tail, CLU_TAIL).Err? || FatWrite(m.fat, r.dPrev, CLU_TAIL).Err? then Err(EIO)
      else Ok(Meta(m.fat[r.tail := CLU_TAIL][r.dPrev := CLU_TAIL], d))
  }

  function UndoOne(m: Meta, r: Rec): Result<Meta>
    requires IsUndoable(r)
  {
    match r
    case AllocChain(_, _, _, _, _, _, _, _) => UndoAlloc(m, r)
    case BuildEntry(pdir, entry, n) => Ok(m.(dir := UndoBuilt(m.dir, pdir, entry, 0, n)))
    case RemoveEntry(pdir, entry, undel) => Ok(m.(dir := UndoRemoved(m.dir, pdir, entry, 0, undel)))
    case MoveChain(_, _, _, _, _, _) => UndoMove(m, r)
  }

  function UndoAll(m: Meta, recs: seq<Rec>): Result<Meta>
    requires forall i :: 0 <= i < |recs| ==> IsUndoable(recs[i])
    decreases |recs|
  {
    if recs == [] then Ok(m)
    else
      var one := UndoOne(m, recs[|recs| - 1]);
      if one.Err? then one else UndoAll(one.value, recs[..|recs| - 1])
  }

  // ----- what a record may touch, and what it must say about the state it is written in

  // The i-th slot counted down from the short-name slot is l, for some i in [from, n).
  predicate Covers(pdir: nat, entry: nat, from: nat, n: nat, l: Loc) {
    l.pdir == pdir && l.entry + from <= entry < l.entry + n
  }

  predicate Builds(r: Rec, l: Loc) {
    r.BuildEntry? && Covers(r.pdir, r.entry, 0, r.num, l)
  }

  predicate TouchesFat(r: Rec, c: nat) {
    || (r.AllocChain? && (c == r.dPrev || c in r.clus))
    || (r.MoveChain? && (c == r.dPrev || c == r.tail))
  }

  predicate TouchesMark(r: Rec, l: Loc) {
    Builds(r, l) || (r.RemoveEntry? && Covers(r.pdir, r.entry, 0, |r.undel|, l))
  }

  predicate NamesSlot(r: Rec, l: Loc) {
    (r.AllocChain? || r.MoveChain?) && r.pdir != CLU_TAIL && l == Loc(r.pdir, r.entry)
  }

  predicate TouchesStart(r: Rec, l: Loc) {
    Builds(r, l) || (NamesSlot(r, l) && !r.isXattr && (r.AllocChain? ==> r.dPrev == CLU_TAIL))
  }

  predicate TouchesXattr(r: Rec, l: Loc) {
    Builds(r, l) || (NamesSlot(r, l) && r.isXattr && r.AllocChain? && r.dPrev == CLU_TAIL)
  }

  // The slot has no attribute chain; its time words are its own.
  predicate NoAttributes(s: Slot, ctime: nat, cdate: nat) {
    !s.xflag && s.ctime == ctime && s.cdate == cdate
  }

  /** The record tells the truth about the state it is logged in. */
  ghost predicate Describes(r: Rec, m: Meta) {
    match r
    case AllocChain(pdir, entry, isXattr, ctime, cdate, dPrev, dNext, clus) =>
      && (forall i :: 0 <= i < |clus| ==> ValidClu(m.fat, clus[i]) && m.fat[clus[i]] == CLU_FREE)
      && (dPrev != CLU_TAIL ==>
            ValidClu(m.fat, dPrev) && m.fat[dPrev] == dNext && ValidContent(m.fat, dNext))
      && (dPrev == CLU_TAIL && pdir != CLU_TAIL ==>
            var l := Loc(pdir, entry);
            l in m.dir && (if isXattr then NoAttributes(m.dir[l], ctime, cdate) else m.dir[l].start == 0))
    case BuildEntry(pdir, entry, n) =>
      n <= entry + 1 && forall l :: Builds(r, l) ==> l in m.dir && IsFree(m.dir[l])
    case RemoveEntry(pdir, entry, undel) =>
      && |undel| <= entry + 1
      && forall l :: Covers(pdir, entry, 0, |undel|, l) ==> l in m.dir && m.dir[l].mark == undel[entry - l.entry]
    case MoveChain(pdir, entry, isXattr, dPrev, head, tail) =>
      && ValidClu(m.fat, dPrev) && m.fat[dPrev] == CLU_TAIL
      && ValidClu(m.fat, tail) && m.fat[tail] == CLU_TAIL
      && (pdir != CLU_TAIL && !isXattr ==> Loc(pdir, entry) in m.dir && m.dir[Loc(pdir, entry)].start == head)
    case _ => false
  }

  // ----- the disks a crash may leave

  ghost predicate SomeFat(recs: seq<Rec>, c: nat) {
    exists i :: 0 <= i < |recs| && TouchesFat(recs[i], c)
  }

  ghost predicate SomeMark(recs: seq<Rec>, l: Loc) {
    exists i :: 0 <= i < |recs| && TouchesMark(recs[i], l)
  }

  ghost predicate SomeStart(recs: seq<Rec>, l: Loc) {
    exists i :: 0 <= i < |recs| && TouchesStart(recs[i], l)
  }

  ghost predicate SomeXattr(recs: seq<Rec>, l: Loc) {
    exists i :: 0 <= i < |recs| && TouchesXattr(recs[i], l)
  }

  ghost predicate SomeBuild(recs: seq<Rec>, l: Loc) {
    exists i :: 0 <= i < |recs| && Builds(recs[i], l)
  }

  ghost predicate SlotImage(base: Slot, recs: seq<Rec>, l: Loc, s: Slot) {
    if IsFree(base) then SomeMark(recs, l) || IsFree(s)
    else
      && (SomeMark(recs, l) || s.mark == base.mark)
      && (SomeStart(recs, l) || s.start == base.start)
      && (SomeXattr(recs, l) || (s.xflag == base.xflag && s.ctime == base.ctime && s.cdate == base.cdate))
      && (SomeBuild(recs, l) || s.body == base.body)
  }

  /** `m` agrees with the last commit `base` wherever the durable records do
      not reach. In the places they reach it may hold anything, so this covers
      every subset and every torn mixture of the writes made under them. */
  ghost predicate Image(base: Meta, recs: seq<Rec>, m: Meta) {
    && |m.fat| == |base.fat|
    && m.dir.Keys == base.dir.Keys
    && (forall c :: 0 <= c < |base.fat| && !SomeFat(recs, c) ==> m.fat[c] == base.fat[c])
    && (forall l :: l in base.dir ==> SlotImage(base.dir[l], recs, l, m.dir[l]))
  }

  /** Same table, same live slots: free slots may differ in what is left in them. */
  ghost predicate SameVolume(base: Meta, m: Meta) {
    && m.fat == base.fat
    && m.dir.Keys == base.dir.Keys
    && forall l :: l in base.dir ==> if IsFree(base.dir[l]) then IsFree(m.dir[l]) else m.dir[l] == base.dir[l]
  }

  /** Each record was written in a state the earlier records allow, and described it. */
  ghost predicate LoggedRun(base: Meta, recs: seq<Rec>, states: seq<Meta>) {
    && |states| == |recs|
    && forall i :: 0 <= i < |recs| ==> Image(base, recs[..i], states[i]) && Describes(recs[i], states[i])
  }

  // ----- one step of undo

  lemma SomeSnoc(recs: seq<Rec>, r: Rec, c: nat, l: Loc)
    ensures SomeFat(recs + [r], c) <==> SomeFat(recs, c) || TouchesFat(r, c)
    ensures SomeMark(recs + [r], l) <==> SomeMark(recs, l) || TouchesMark(r, l)
    ensures SomeStart(recs + [r], l) <==> SomeStart(recs, l) || TouchesStart(r, l)
    ensures SomeXattr(recs + [r], l) <==> SomeXattr(recs, l) || TouchesXattr(r, l)
    ensures SomeBuild(recs + [r], l) <==> SomeBuild(recs, l) || Builds(r, l)
  {
    var all := recs + [r];
    assert all[|recs|] == r;
    assert forall i :: 0 <= i < |recs| ==> all[i] == recs[i];
  }

  lemma {:induction false} FreeFromAt(t: Table, clus: seq<nat>, i: nat)
    requires i <= |clus| && forall k :: 0 <= k < |clus| ==> ValidClu(t, clus[k])
    ensures FreeFrom(t, clus, i).Ok?
    ensures var u := FreeFrom(t, clus, i).value;
            |u| == |t| && forall c :: 0 <= c < |t| ==> u[c] == if c in clus[i..] then CLU_FREE else t[c]
    decreases |clus| - i
  {
    if i < |clus| {
      FreeFromAt(t[clus[i] := CLU_FREE], clus, i + 1);
      assert clus[i..] == [clus[i]] + clus[i + 1..];
    }
  }

  // Undo goes down from the short-name slot until a slot is not there.
  ghost predicate Reached(d: Dir, pdir: nat, entry: nat, from: nat, n: nat, l: Loc) {
    Covers(pdir, entry, from, n, l) && forall j: nat :: l.entry <= j <= entry - from ==> Loc(pdir, j) in d
  }

  lemma {:induction false} UndoBuiltAt(d: Dir, pdir: nat, entry: nat, i: nat, n: nat)
    ensures var e := UndoBuilt(d, pdir, entry, i, n);
            e.Keys == d.Keys
            && forall l :: l in d ==>
                 e[l] == if Reached(d, pdir, entry, i, n, l) && !IsFree(d[l]) then d[l].(mark := DELETE_MARK) else d[l]
    decreases n - i
  {
    if i < n && i <= entry && Loc(pdir, entry - i) in d {
      var l := Loc(pdir, entry - i);
      var d' := d[l := Unbuilt(d[l])];
      UndoBuiltAt(d', pdir, entry, i + 1, n);
      forall k | k in d ensures Reached(d, pdir, entry, i, n, k) <==> k == l || Reached(d', pdir, entry, i + 1, n, k) {
        ReachedNext(d, d', pdir, entry, i, n, k);
      }
    } else {
      assert forall k :: !Reached(d, pdir, entry, i, n, k) by {
        NotReached(d, pdir, entry, i, n);
      }
    }
  }

  lemma ReachedNext(d: Dir, e: Dir, pdir: nat, entry: nat, i: nat, n: nat, k: Loc)
    requires i < n && i <= entry && Loc(pdir, entry - i) in d && d.Keys == e.Keys
    ensures Reached(d, pdir, entry, i, n, k) <==> k == Loc(pdir, entry - i) || Reached(e, pdir, entry, i + 1, n, k)
  {
  }

  lemma NotReached(d: Dir, pdir: nat, entry: nat, i: nat, n: nat)
    requires i >= n || i > entry || Loc(pdir, entry - i) !in d
    ensures forall k :: !Reached(d, pdir, entry, i, n, k)
  {
  }

  // All slots are there: each of them is reached.
  lemma AllReached(d: Dir, pdir: nat, entry: nat, n: nat)
    requires n <= entry + 1 && forall l :: Covers(pdir, entry, 0, n, l) ==> l in d
    ensures forall l :: Reached(d, pdir, entry, 0, n, l) <==> Covers(pdir, entry, 0, n, l)
  {
    forall l | Covers(pdir, entry, 0, n, l) ensures Reached(d, pdir, entry, 0, n, l) {
      assert forall j: nat :: l.entry <= j <= entry ==> Covers(pdir, entry, 0, n, Loc(pdir, j));
    }
  }

  lemma {:induction false} UndoRemovedAt(d: Dir, pdir: nat, entry: nat, i: nat, undel: seq<nat>)
    ensures var e := UndoRemoved(d, pdir, entry, i, undel);
            e.Keys == d.Keys
            && forall l :: l in d ==>
                 e[l] == if Reached(d, pdir, entry, i, |undel|, l) then d[l].(mark := undel[entry - l.entry]) else d[l]
    decreases |undel| - i
  {
    if i < |undel| && i <= entry && Loc(pdir, entry - i) in d {
      var l := Loc(pdir, entry - i);
      var d' := d[l := d[l].(mark := undel[i])];
      UndoRemovedAt(d', pdir, entry, i + 1, undel);
      forall k | k in d ensures Reached(d, pdir, entry, i, |undel|, k) <==> k == l || Reached(d', pdir, entry, i + 1, |undel|, k) {
        ReachedNext(d, d', pdir, entry, i, |undel|, k);
      }
    } else {
      NotReached(d, pdir, entry, i, |undel|);
    }
  }

  /** Undoing the record puts back, in the places it touched, what it recorded
      of the state it was logged in; elsewhere it changes nothing. */
  lemma UndoOneFat(r: Rec, cur: Meta, m: Meta)
    requires IsUndoable(r) && Describes(r, cur) && |m.fat| == |cur.fat| && m.dir.Keys == cur.dir.Keys
    ensures UndoOne(m, r).Ok?
    ensures var u := UndoOne(m, r).value;
            |u.fat| == |cur.fat|
            && forall c :: 0 <= c < |cur.fat| ==> u.fat[c] == if TouchesFat(r, c) then cur.fat[c] else m.fat[c]
  {
    if r.AllocChain? {
      if r.dPrev != CLU_TAIL {
        FreeFromAt(m.fat[r.dPrev := r.dNext], r.clus, 0);
      } else {
        FreeFromAt(m.fat, r.clus, 0);
      }
      assert r.clus[0..] == r.clus;
    }
  }

  lemma UndoOneKeys(r: Rec, cur: Meta, m: Meta)
    requires IsUndoable(r) && Describes(r, cur) && m.dir.Keys == cur.dir.Keys
    ensures UndoOne(m, r).Ok? ==> UndoOne(m, r).value.dir.Keys == cur.dir.Keys
  {
    if r.BuildEntry? {
      assert forall k :: Covers(r.pdir, r.entry, 0, r.num, k) ==> Builds(r, k);
      UndoBuiltAt(m.dir, r.pdir, r.entry, 0, r.num);
    } else if r.RemoveEntry? {
      UndoRemovedAt(m.dir, r.pdir, r.entry, 0, r.undel);
    }
  }

  lemma UndoOneDir(r: Rec, cur: Meta, m: Meta, l: Loc)
    requires IsUndoable(r) && Describes(r, cur) && |m.fat| == |cur.fat| && m.dir.Keys == cur.dir.Keys
    requires l in cur.dir
    ensures UndoOne(m, r).Ok? && l in UndoOne(m, r).value.dir
    ensures var s, c, u := m.dir[l], cur.dir[l], UndoOne(m, r).value.dir[l];
            && u.body == s.body
            && (Builds(r, l) ==> u == s.(mark := if s.mark == 0 || s.mark == 0xE5 then s.mark else 0xE5))
            && (!Builds(r, l) ==>
                  && u.mark == (if TouchesMark(r, l) then c.mark else s.mark)
                  && u.start == (if TouchesStart(r, l) then c.start else s.start)
                  && (if TouchesXattr(r, l) then u.xflag == c.xflag && u.ctime == c.ctime && u.cdate == c.cdate
                      else u.xflag == s.xflag && u.ctime == s.ctime && u.cdate == s.cdate))
  {
    UndoOneFat(r, cur, m);
    if r.BuildEntry? {
      assert forall k :: Covers(r.pdir, r.entry, 0, r.num, k) ==> Builds(r, k);
      UndoBuiltAt(m.dir, r.pdir, r.entry, 0, r.num);
      AllReached(m.dir, r.pdir, r.entry, r.num);
    } else if r.RemoveEntry? {
      UndoRemovedAt(m.dir, r.pdir, r.entry, 0, r.undel);
      AllReached(m.dir, r.pdir, r.entry, |r.undel|);
    }
  }

  /** When undoing a record fails: an entry outside the table, or for a move the slot that is not
      there. A slot that is not there is no failure of an allocation: the directory had grown for
      it, and that is undone too. */
  lemma UndoFails(r: Rec, m: Meta)
    requires IsUndoable(r)
    ensures UndoOne(m, r).Err? <==>
              || (r.AllocChain? && ((r.dPrev != CLU_TAIL && !(ValidClu(m.fat, r.dPrev) && ValidContent(m.fat, r.dNext)))
                                    || exists i :: 0 <= i < |r.clus| && !ValidClu(m.fat, r.clus[i])))
              || (r.MoveChain? && (!ValidClu(m.fat, r.tail) || !ValidClu(m.fat, r.dPrev)
                                   || (r.pdir != CLU_TAIL && !r.isXattr && Loc(r.pdir, r.entry) !in m.dir)))
    ensures UndoOne(m, r).Err? ==> UndoOne(m, r).error == EIO
    ensures UndoOne(m, r).Ok? && r.AllocChain? && Loc(r.pdir, r.entry) !in m.dir ==> UndoOne(m, r).value.dir == m.dir
  {
    if r.AllocChain? {
      FreeFails(if r.dPrev != CLU_TAIL && ValidClu(m.fat, r.dPrev) then m.fat[r.dPrev := r.dNext] else m.fat, r.clus, 0);
    }
  }

  lemma {:induction false} FreeFails(t: Table, clus: seq<nat>, i: nat)
    requires i <= |clus|
    ensures FreeFrom(t, clus, i).Err? <==> exists j :: i <= j < |clus| && !ValidClu(t, clus[j])
    decreases |clus| - i
  {
    if i < |clus| && ValidClu(t, clus[i]) {
      FreeFails(t[clus[i] := CLU_FREE], clus, i + 1);
    }
  }

  /** A first attribute cluster is given back: whatever the crash left in the flag and in the
      two time words, the file has no attribute chain again, and its own time is back. */
  lemma AttributesGone(r: Rec, cur: Meta, m: Meta)
    requires r.AllocChain? && r.isXattr && r.dPrev == CLU_TAIL && r.pdir != CLU_TAIL && Describes(r, cur)
    requires |m.fat| == |cur.fat| && m.dir.Keys == cur.dir.Keys
    ensures var l := Loc(r.pdir, r.entry);
            && l in m.dir && UndoOne(m, r).Ok? && l in UndoOne(m, r).value.dir
            && UndoOne(m, r).value.dir[l] == m.dir[l].(xflag := false, ctime := r.ctime, cdate := r.cdate)
            && NoAttributes(cur.dir[l], r.ctime, r.cdate)
  {
    UndoOneDir(r, cur, m, Loc(r.pdir, r.entry));
  }

  /** A first data cluster is given back: the slot names no cluster again. */
  lemma StartGone(r: Rec, cur: Meta, m: Meta)
    requires r.AllocChain? && !r.isXattr && r.dPrev == CLU_TAIL && r.pdir != CLU_TAIL && Describes(r, cur)
    requires |m.fat| == |cur.fat| && m.dir.Keys == cur.dir.Keys
    ensures var l := Loc(r.pdir, r.entry);
            && l in m.dir && UndoOne(m, r).Ok? && l in UndoOne(m, r).value.dir
            && UndoOne(m, r).value.dir[l] == m.dir[l].(start := 0)
  {
    UndoOneDir(r, cur, m, Loc(r.pdir, r.entry));
  }

  // ----- the whole undo

  // No build in the run writes over a slot that was live at the last commit.
  ghost predicate NoReuse(base: Meta, recs: seq<Rec>) {
    forall i, l :: 0 <= i < |recs| && l in base.dir && Builds(recs[i], l) ==> IsFree(base.dir[l])
  }

  ghost predicate Undoable(recs: seq<Rec>) {
    forall i :: 0 <= i < |recs| ==> IsUndoable(recs[i])
  }

  ghost predicate Restores(base: Meta, recs: seq<Rec>, m: Meta)
    requires Undoable(recs)
  {
    UndoAll(m, recs).Ok? && SameVolume(base, UndoAll(m, recs).value)
  }

  lemma UndoStepSlot(base: Slot, recs: seq<Rec>, r: Rec, cur: Meta, m: Meta, l: Loc)
    requires IsUndoable(r) && Describes(r, cur) && |m.fat| == |cur.fat| && m.dir.Keys == cur.dir.Keys
    requires l in cur.dir && (Builds(r, l) ==> IsFree(base))
    requires SlotImage(base, recs, l, cur.dir[l]) && SlotImage(base, recs + [r], l, m.dir[l])
    ensures UndoOne(m, r).Ok? && l in UndoOne(m, r).value.dir
    ensures SlotImage(base, recs, l, UndoOne(m, r).value.dir[l])
  {
    UndoOneDir(r, cur, m, l);
    SomeSnoc(recs, r, 0, l);
  }

  lemma UndoStep(base: Meta, recs: seq<Rec>, r: Rec, cur: Meta, m: Meta)
    requires IsUndoable(r) && Image(base, recs, cur) && Describes(r, cur) && Image(base, recs + [r], m)
    requires forall l :: l in base.dir && Builds(r, l) ==> IsFree(base.dir[l])
    ensures UndoOne(m, r).Ok? && Image(base, recs, UndoOne(m, r).value)
  {
    UndoOneFat(r, cur, m);
    var u := UndoOne(m, r).value;
    forall c | 0 <= c < |base.fat| && !SomeFat(recs, c) ensures u.fat[c] == base.fat[c] {
      SomeSnoc(recs, r, c, Loc(0, 0));
    }
    UndoOneKeys(r, cur, m);
    forall l | l in base.dir ensures SlotImage(base.dir[l], recs, l, u.dir[l]) {
      UndoStepSlot(base.dir[l], recs, r, cur, m, l);
    }
  }

  lemma NothingTouched(base: Meta, m: Meta)
    requires Image(base, [], m)
    ensures SameVolume(base, m)
  {
    forall l | l in base.dir
      ensures if IsFree(base.dir[l]) then IsFree(m.dir[l]) else m.dir[l] == base.dir[l]
    {
      assert SlotImage(base.dir[l], [], l, m.dir[l]);
    }
    assert forall c :: 0 <= c < |base.fat| ==> !SomeFat([], c);
  }

  lemma RunPrefix(base: Meta, recs: seq<Rec>, states: seq<Meta>, k: nat)
    requires Undoable(recs) && LoggedRun(base, recs, states) && k <= |recs|
    ensures Undoable(recs[..k]) && LoggedRun(base, recs[..k], states[..k])
    ensures NoReuse(base, recs) ==> NoReuse(base, recs[..k])
  {
    assert forall i :: 0 <= i < k ==> recs[..k][i] == recs[i] && recs[..k][..i] == recs[..i];
  }

  // What the run says about its last record.
  lemma LastLogged(base: Meta, recs: seq<Rec>, states: seq<Meta>)
    requires Undoable(recs) && LoggedRun(base, recs, states) && recs != []
    ensures var k := |recs| - 1;
            && |states| == |recs| && recs == recs[..k] + [recs[k]]
            && IsUndoable(recs[k]) && Describes(recs[k], states[k]) && Image(base, recs[..k], states[k])
            && |states[k].fat| == |base.fat| && states[k].dir.Keys == base.dir.Keys
            && (NoReuse(base, recs) ==> forall l :: l in base.dir && Builds(recs[k], l) ==> IsFree(base.dir[l]))
  {
  }

  lemma {:induction false} UndoRestores(base: Meta, recs: seq<Rec>, states: seq<Meta>, m: Meta)
    requires Undoable(recs) && LoggedRun(base, recs, states) && NoReuse(base, recs) && Image(base, recs, m)
    ensures Restores(base, recs, m)
    decreases |recs|
  {
    hide UndoOne, Describes, Image, SameVolume, NoReuse, LoggedRun;
    if recs == [] {
      NothingTouched(base, m);
    } else {
      var k := |recs| - 1;
      RunPrefix(base, recs, states, k);
      LastLogged(base, recs, states);
      UndoStep(base, recs[..k], recs[k], states[k], m);
      UndoRestores(base, recs[..k], states[..k], UndoOne(m, recs[k]).value);
    }
  }

  lemma {:induction false} UndoKeepsBody(recs: seq<Rec>, base: Meta, states: seq<Meta>, m: Meta, l: Loc)
    requires Undoable(recs) && |states| == |recs| && |m.fat| == |base.fat| && m.dir.Keys == base.dir.Keys && l in m.dir
    requires forall i :: 0 <= i < |recs| ==>
               Describes(recs[i], states[i]) && |states[i].fat| == |base.fat| && states[i].dir.Keys == base.dir.Keys
    ensures UndoAll(m, recs).Ok? ==>
              l in UndoAll(m, recs).value.dir && UndoAll(m, recs).value.dir[l].body == m.dir[l].body
    decreases |recs|
  {
    if recs != [] {
      var k := |recs| - 1;
      UndoOneFat(recs[k], states[k], m);
      UndoOneKeys(recs[k], states[k], m);
      UndoOneDir(recs[k], states[k], m, l);
      UndoKeepsBody(recs[..k], base, states[..k], UndoOne(m, recs[k]).value, l);
    }
  }

  // A build over a live slot may have reached the disk; no record remembers what it wrote over.
  lemma ReuseLoses(base: Meta, recs: seq<Rec>, states: seq<Meta>, i: nat, l: Loc)
    requires Undoable(recs) && LoggedRun(base, recs, states)
    requires i < |recs| && l in base.dir && Builds(recs[i], l) && !IsFree(base.dir[l])
    ensures exists m :: Image(base, recs, m) && !Restores(base, recs, m)
  {
    var m := base.(dir := base.dir[l := base.dir[l].(body := base.dir[l].body + 1)]);
    assert SomeBuild(recs, l);
    assert Image(base, recs, m) by {
      forall k | k in base.dir ensures SlotImage(base.dir[k], recs, k, m.dir[k]) {
      }
    }
    UndoKeepsBody(recs, base, states, m, l);
    assert !Restores(base, recs, m);
  }

  /** Crash rollback. Whatever the crash left, undoing the records newest first
      gives back the last commit, if and only if no record of the transaction
      builds an entry over a slot that was live at that commit. */
  lemma RollbackExact(base: Meta, recs: seq<Rec>, states: seq<Meta>)
    requires Undoable(recs) && LoggedRun(base, recs, states)
    ensures (forall m :: Image(base, recs, m) ==> Restores(base, recs, m)) <==> NoReuse(base, recs)
  {
    if NoReuse(base, recs) {
      forall m | Image(base, recs, m) ensures Restores(base, recs, m) {
        UndoRestores(base, recs, states, m);
      }
    } else {
      var i, l :| 0 <= i < |recs| && l in base.dir && Builds(recs[i], l) && !IsFree(base.dir[l]);
      ReuseLoses(base, recs, states, i, l);
    }
  }

  /** Why rename builds the new entry before it removes the old one and the
      target: as long as no removal precedes a build, the builds can only have
      found slots that were already free at the last commit. */
  lemma {:induction false} BuildsFirst(base: Meta, recs: seq<Rec>, states: seq<Meta>)
    requires Undoable(recs) && LoggedRun(base, recs, states)
    requires forall i, j :: 0 <= i < j < |recs| && recs[i].RemoveEntry? ==> !recs[j].BuildEntry?
    ensures NoReuse(base, recs)
    decreases |recs|
  {
    if recs != [] {
      var k := |recs| - 1;
      RunPrefix(base, recs, states, k);
      BuildsFirst(base, recs[..k], states[..k]);
      assert forall i :: 0 <= i < k ==> recs[..k][i] == recs[i];
      forall l | l in base.dir && Builds(recs[k], l) ensures IsFree(base.dir[l]) {
        BuiltWasFree(base, recs[..k], recs[k], states[k], l);
      }
      LastBuild(base, recs, k);
    }
  }

  lemma BuiltWasFree(base: Meta, recs: seq<Rec>, r: Rec, cur: Meta, l: Loc)
    requires Undoable(recs) && NoReuse(base, recs) && Image(base, recs, cur) && Describes(r, cur)
    requires forall i :: 0 <= i < |recs| ==> !recs[i].RemoveEntry?
    requires l in base.dir && Builds(r, l)
    ensures IsFree(base.dir[l])
  {
    if SomeMark(recs, l) {
      var i :| 0 <= i < |recs| && TouchesMark(recs[i], l);
      assert Builds(recs[i], l);
    } else {
      assert SlotImage(base.dir[l], recs, l, cur.dir[l]);
    }
  }

  lemma LastBuild(base: Meta, recs: seq<Rec>, k: nat)
    requires |recs| == k + 1 && NoReuse(base, recs[..k])
    requires forall l :: l in base.dir && Builds(recs[k], l) ==> IsFree(base.dir[l])
    ensures NoReuse(base, recs)
  {
    forall i, l | 0 <= i < |recs| && l in base.dir && Builds(recs[i], l) ensures IsFree(base.dir[l]) {
      if i < k {
        assert Builds(recs[..k][i], l);
      }
    }
  }

  // A file renamed over an empty file of the same directory, removal first.
  const TARGET := Loc(2, 0)
  const SOURCE := Loc(2, 1)
  const REMOVE_FIRST: seq<Rec> :=
    [RemoveEntry(2, 0, [66]), BuildEntry(2, 0, 1), RemoveEntry(2, 1, [66])]

  function TwoSlots(t: Table, target: Slot, source: Slot): (m: Meta)
    ensures TARGET in m.dir && SOURCE in m.dir && m.dir.Keys == {TARGET, SOURCE}
    ensures m.dir[TARGET] == target && m.dir[SOURCE] == source
  {
    Meta(t, map[TARGET := target, SOURCE := source])
  }

  lemma RemoveFirstIsLogged(t: Table)
    ensures var empty, full := Slot(66, 0, false, 0, 0, 1), Slot(66, 7, false, 0, 0, 2);
            LoggedRun(TwoSlots(t, empty, full), REMOVE_FIRST,
                      [TwoSlots(t, empty, full), TwoSlots(t, empty.(mark := DELETE_MARK), full),
                       TwoSlots(t, full.(body := 1), full)])
  {
    var recs := REMOVE_FIRST;
    assert recs[..0] == [];
    assert recs[..1] == [recs[0]];
    assert recs[..2] == [recs[0], recs[1]];
    assert TouchesMark(recs[0], TARGET);
    assert Builds(recs[1], TARGET);
    assert SomeMark(recs[..1], TARGET) by { assert TouchesMark(recs[..1][0], TARGET); }
    assert SomeMark(recs[..2], TARGET) by { assert TouchesMark(recs[..2][0], TARGET); }
    assert SomeBuild(recs[..2], TARGET) by { assert Builds(recs[..2][1], TARGET); }
    assert SomeStart(recs[..2], TARGET) by { assert TouchesStart(recs[..2][1], TARGET); }
  }

  lemma UndoRemoval(m: Meta, entry: nat, u: Meta)
    requires Loc(2, entry) in m.dir && u == m.(dir := m.dir[Loc(2, entry) := m.dir[Loc(2, entry)].(mark := 66)])
    ensures UndoOne(m, RemoveEntry(2, entry, [66])) == Ok(u)
  {
    UndoRemovedAt(m.dir, 2, entry, 0, [66]);
    AllReached(m.dir, 2, entry, 1);
    assert UndoRemoved(m.dir, 2, entry, 0, [66]) == u.dir;
  }

  lemma UndoBuild(m: Meta, u: Meta)
    requires TARGET in m.dir && u == m.(dir := m.dir[TARGET := Unbuilt(m.dir[TARGET])])
    ensures UndoOne(m, BuildEntry(2, 0, 1)) == Ok(u)
  {
    UndoBuiltAt(m.dir, 2, 0, 0, 1);
    AllReached(m.dir, 2, 0, 1);
    assert UndoBuilt(m.dir, 2, 0, 0, 1) == u.dir;
  }

  /** With the removal first the build lands on the target's own slot, and the
      rollback leaves two live entries that share one chain. */
  lemma RemoveFirstCrossLinks(t: Table)
    ensures var full := Slot(66, 7, false, 0, 0, 2);
            var done := TwoSlots(t, full.(body := 1), full.(mark := DELETE_MARK));
            UndoAll(done, REMOVE_FIRST) == Ok(TwoSlots(t, full.(body := 1), full))
  {
    var full := Slot(66, 7, false, 0, 0, 2);
    var done := TwoSlots(t, full.(body := 1), full.(mark := DELETE_MARK));
    var recs := REMOVE_FIRST;
    var one := TwoSlots(t, full.(body := 1), full);
    var two := TwoSlots(t, full.(body := 1, mark := DELETE_MARK), full);
    UndoRemoval(done, 1, one);
    UndoBuild(one, two);
    UndoRemoval(two, 0, one);
    assert recs[..2][..1] == recs[..1];
    assert UndoAll(one, recs[..2]) == UndoAll(two, recs[..1]);
    assert UndoAll(two, recs[..1]) == UndoAll(one, recs[..1][..0]);
  }

  // ----- a crash during the undo itself

  // b differs from a only where the records' undo may write.
  ghost predicate Partial(recs: seq<Rec>, a: Meta, b: Meta) {
    && |a.fat| == |b.fat| && a.dir.Keys == b.dir.Keys
    && (forall c :: 0 <= c < |a.fat| && !SomeFat(recs, c) ==> b.fat[c] == a.fat[c])
    && (forall l :: l in a.dir ==>
          && (SomeMark(recs, l) || b.dir[l].mark == a.dir[l].mark)
          && (SomeStart(recs, l) || b.dir[l].start == a.dir[l].start)
          && (SomeXattr(recs, l) || b.dir[l] == a.dir[l].(mark := b.dir[l].mark, start := b.dir[l].start))
          && b.dir[l].body == a.dir[l].body)
  }

  lemma PartialImage(base: Meta, recs: seq<Rec>, a: Meta, b: Meta)
    requires Image(base, recs, a) && Partial(recs, a, b)
    ensures Image(base, recs, b)
  {
    forall l | l in base.dir ensures SlotImage(base.dir[l], recs, l, b.dir[l]) {
      assert SlotImage(base.dir[l], recs, l, a.dir[l]);
    }
  }

  lemma PartialSame(recs: seq<Rec>, m: Meta)
    ensures Partial(recs, m, m)
  {
  }

  lemma PartialTrans(recs: seq<Rec>, r: Rec, a: Meta, b: Meta, c: Meta)
    requires Partial(recs + [r], a, b) && Partial(recs, b, c)
    ensures Partial(recs + [r], a, c)
  {
    forall i | 0 <= i < |a.fat| && !SomeFat(recs + [r], i) ensures c.fat[i] == a.fat[i] {
      SomeSnoc(recs, r, i, Loc(0, 0));
    }
    forall l | l in a.dir
      ensures SomeMark(recs + [r], l) || c.dir[l].mark == a.dir[l].mark
      ensures SomeStart(recs + [r], l) || c.dir[l].start == a.dir[l].start
      ensures SomeXattr(recs + [r], l) || c.dir[l] == a.dir[l].(mark := c.dir[l].mark, start := c.dir[l].start)
      ensures c.dir[l].body == a.dir[l].body
    {
      SomeSnoc(recs, r, 0, l);
    }
  }

  lemma UndoOnePartial(recs: seq<Rec>, r: Rec, cur: Meta, m: Meta)
    requires IsUndoable(r) && Describes(r, cur) && |m.fat| == |cur.fat| && m.dir.Keys == cur.dir.Keys
    ensures UndoOne(m, r).Ok? && Partial(recs + [r], m, UndoOne(m, r).value)
    ensures |UndoOne(m, r).value.fat| == |m.fat| && UndoOne(m, r).value.dir.Keys == m.dir.Keys
  {
    hide UndoOne, Describes, SomeFat, SomeMark, SomeStart, SomeXattr;
    UndoOneFat(r, cur, m);
    UndoOneKeys(r, cur, m);
    var u := UndoOne(m, r).value;
    forall c | 0 <= c < |m.fat| && !SomeFat(recs + [r], c) ensures u.fat[c] == m.fat[c] {
      SomeSnoc(recs, r, c, Loc(0, 0));
    }
    forall l | l in m.dir
      ensures SomeMark(recs + [r], l) || u.dir[l].mark == m.dir[l].mark
      ensures SomeStart(recs + [r], l) || u.dir[l].start == m.dir[l].start
      ensures SomeXattr(recs + [r], l) || u.dir[l] == m.dir[l].(mark := u.dir[l].mark, start := u.dir[l].start)
      ensures u.dir[l].body == m.dir[l].body
    {
      SomeSnoc(recs, r, 0, l);
      UndoOneDir(r, cur, m, l);
    }
  }

  /** The undo writes nowhere but where the records allow. */
  lemma {:induction false} UndoAllPartial(base: Meta, recs: seq<Rec>, states: seq<Meta>, m: Meta)
    requires Undoable(recs) && LoggedRun(base, recs, states)
    requires |m.fat| == |base.fat| && m.dir.Keys == base.dir.Keys
    ensures UndoAll(m, recs).Ok? && Partial(recs, m, UndoAll(m, recs).value)
    decreases |recs|
  {
    hide UndoOne, Describes, Image, Partial, LoggedRun;
    if recs == [] {
      PartialSame(recs, m);
    } else {
      var k := |recs| - 1;
      RunPrefix(base, recs, states, k);
      LastLogged(base, recs, states);
      UndoOnePartial(recs[..k], recs[k], states[k], m);
      var u := UndoOne(m, recs[k]).value;
      UndoAllPartial(base, recs[..k], states[..k], u);
      PartialTrans(recs[..k], recs[k], m, u, UndoAll(u, recs[..k]).value);
    }
  }

  /** Replay is restartable. Each element of `disks` is what was on the disk when
      one more attempt at the undo was cut short, before its commit was durable:
      it differs from the previous one in some of the places the undo writes.
      The attempt that runs to its end restores the last commit all the same. */
  lemma {:induction false} UndoRestartable(base: Meta, recs: seq<Rec>, states: seq<Meta>, disks: seq<Meta>)
    requires Undoable(recs) && LoggedRun(base, recs, states) && NoReuse(base, recs)
    requires disks != [] && Image(base, recs, disks[0])
    requires forall i :: 0 <= i < |disks| - 1 ==> Partial(recs, disks[i], disks[i + 1])
    ensures Restores(base, recs, disks[|disks| - 1])
    decreases |disks|
  {
    if |disks| == 1 {
      UndoRestores(base, recs, states, disks[0]);
    } else {
      PartialImage(base, recs, disks[0], disks[1]);
      UndoRestartable(base, recs, states, disks[1..]);
    }
  }
}
