/** Long names in a directory: one short entry with the pieces of the name, 13
    units each, in the slots before it. Building, reading and removing such an
    entry are proved to agree on every name of 1 to 255 units. */
module LongNames {
  import opened Results
  import opened Arith
  import opened Marks

  const EXT_END_MARK: nat := 0x40
  const EXT_UNAME_LENGTH: nat := 13
  const UNICODE_NAME_LENGTH: nat := 260

  // The units of one piece lie in three separate fields.
  datatype Body =
    | Short(rest: seq<nat>)
    | Ext(checksum: nat, uni0: seq<nat>, uni5: seq<nat>, uni11: seq<nat>)

  // The first byte of a slot is the first byte of a short name, or the number of a piece.
  datatype DirSlot = DirSlot(mark: nat, body: Body)

  const BLANK := DirSlot(UNUSED_MARK, Short([0, 0, 0, 0, 0, 0, 0, 0, 0, 0]))

  predicate IsFree(s: DirSlot) {
    FreeMark(s.mark)
  }

  predicate IsExt(s: DirSlot) {
    !IsFree(s) && s.body.Ext?
  }

  predicate IsShort(s: DirSlot) {
    !IsFree(s) && s.body.Short?
  }

  // ----- the checksum that ties the pieces to their short name

  function Rotate(c: nat): nat {
    c % 2 * 128 + c / 2
  }

  function Checksum(name: seq<nat>): nat {
    if name == [] then 0 else (Rotate(Checksum(name[..|name| - 1])) + name[|name| - 1]) % 256
  }

  /** One rotation goes to the right: the lowest bit becomes the highest, and all others move down. */
  lemma RotateIs(c: nat)
    requires c < 256
    ensures Rotate(c) < 256 && Rotate(c) / 128 == c % 2 && Rotate(c) % 128 == c / 2
  {
  }

  /** Every byte of a name is added once to the sum that was rotated by one. */
  lemma ChecksumNext(name: seq<nat>, b: nat)
    ensures Checksum(name + [b]) == (Checksum(name) % 2 * 0x80 + Checksum(name) / 2 + b) % 0x100
    ensures Checksum([]) == 0
  {
    assert (name + [b])[..|name|] == name;
  }

  // Of the bytes R, E and A.
  lemma KnownChecksum()
    ensures Checksum([0x52, 0x45, 0x41]) == 0x78
  {
    hide Checksum;
    ChecksumNext([], 0x52);
    ChecksumNext([0x52], 0x45);
    ChecksumNext([0x52, 0x45], 0x41);
    assert [0x52] == [] + [0x52];
    assert Checksum([0x52]) == 0x52;
    assert [0x52, 0x45] == [0x52] + [0x45];
    assert Checksum([0x52, 0x45]) == 0x6E;
    assert [0x52, 0x45, 0x41] == [0x52, 0x45] + [0x41];
  }

  method CalcChecksum(name: seq<nat>) returns (c: nat)
    ensures c == Checksum(name)
  {
    c := 0;
    for i := 0 to |name|
      invariant c == Checksum(name[..i])
    {
      assert name[..i + 1][..i] == name[..i];
      c := (Rotate(c) + name[i]) % 256;
    }
    assert name[..|name|] == name;
  }

  lemma AtMostTwenty(n: nat)
    requires n <= 255
    ensures Pieces(n) <= 20
  {
  }

  // ----- one piece

  // How many pieces a name needs.
  function Pieces(n: nat): nat {
    Cover(n, EXT_UNAME_LENGTH)
  }

  // Unit g of a name as it is stored: a zero behind the last unit, and filling behind that.
  function Stored(name: seq<nat>, g: nat): nat {
    if g < |name| then name[g] else if g == |name| then 0 else 0xFFFF
  }

  predicate ExtShape(b: Body) {
    b.Ext? && |b.uni0| == 5 && |b.uni5| == 6 && |b.uni11| == 2
  }

  function Unit(b: Body, i: nat): nat
    requires ExtShape(b) && i < EXT_UNAME_LENGTH
  {
    if i < 5 then b.uni0[i] else if i < 11 then b.uni5[i - 5] else b.uni11[i - 11]
  }

  // Piece k of a name, counted from 1.
  ghost predicate IsPiece(s: DirSlot, name: seq<nat>, k: nat, checksum: nat)
    requires k > 0
  {
    && ExtShape(s.body) && s.body.checksum == checksum
    && s.mark == (if k == Pieces(|name|) then k + EXT_END_MARK else k)
    && forall i :: 0 <= i < EXT_UNAME_LENGTH ==> Unit(s.body, i) == Stored(name, EXT_UNAME_LENGTH * (k - 1) + i)
  }

  predicate NameOk(name: seq<nat>) {
    |name| <= 255 && forall i :: 0 <= i < |name| ==> 0 < name[i] < 0x1_0000
  }

  /** Fills one extend slot from the buffer. Nothing behind the zero is looked at. */
  method InitExtEntry(mark: nat, buffer: seq<nat>, at: nat, checksum: nat, ghost name: seq<nat>, ghost k: nat)
    returns (s: DirSlot)
    requires NameOk(name) && 0 < k <= Pieces(|name|) && at == EXT_UNAME_LENGTH * (k - 1)
    requires |buffer| >= UNICODE_NAME_LENGTH && buffer[..|name|] == name && buffer[|name|] == 0
    requires mark == if k == Pieces(|name|) then k + EXT_END_MARK else k
    ensures IsPiece(s, name, k, checksum)
  {
    var uni0, uni5, uni11: seq<nat> := [], [], [];
    var ended := false;
    assert forall j :: 0 <= j < |name| ==> buffer[j] == name[j];
    for i := 0 to EXT_UNAME_LENGTH
      invariant |uni0| == (if i < 5 then i else 5)
      invariant |uni5| == (if i < 5 then 0 else if i < 11 then i - 5 else 6)
      invariant |uni11| == (if i < 11 then 0 else i - 11)
      invariant forall j :: 0 <= j < |uni0| ==> uni0[j] == Stored(name, at + j)
      invariant forall j :: 0 <= j < |uni5| ==> uni5[j] == Stored(name, at + 5 + j)
      invariant forall j :: 0 <= j < |uni11| ==> uni11[j] == Stored(name, at + 11 + j)
      invariant ended <==> at + i > |name|
    {
      var part := if ended then 0xFFFF else buffer[at + i];
      if i < 5 {
        uni0 := uni0 + [part];
      } else if i < 11 {
        uni5 := uni5 + [part];
      } else {
        uni11 := uni11 + [part];
      }
      if !ended && buffer[at + i] == 0 {
        ended := true;
      }
    }
    s := DirSlot(mark, Ext(checksum, uni0, uni5, uni11));
  }

  /** Copies the units of one extend slot into the name buffer, up to the zero. */
  method GetUnits(b: Body, buffer: array<nat>, at: nat, isLast: bool)
    requires ExtShape(b) && at + EXT_UNAME_LENGTH < buffer.Length
    modifies buffer
    ensures forall j :: 0 <= j < at || at + EXT_UNAME_LENGTH < j < buffer.Length ==> buffer[j] == old(buffer[j])
    ensures forall j :: at <= j < at + EXT_UNAME_LENGTH && (forall i :: 0 <= i < j - at ==> Unit(b, i) != 0)
              ==> buffer[j] == Unit(b, j - at)
    ensures (forall j :: 0 <= j < EXT_UNAME_LENGTH ==> Unit(b, j) != 0) && isLast ==> buffer[at + EXT_UNAME_LENGTH] == 0
    ensures (exists j :: 0 <= j < EXT_UNAME_LENGTH && Unit(b, j) == 0) || !isLast
            ==> buffer[at + EXT_UNAME_LENGTH] == old(buffer[at + EXT_UNAME_LENGTH])
  {
    for i := 0 to EXT_UNAME_LENGTH
      invariant forall j :: 0 <= j < buffer.Length && !(at <= j < at + i) ==> buffer[j] == old(buffer[j])
      invariant forall j :: at <= j < at + i ==> buffer[j] == Unit(b, j - at) != 0
    {
      buffer[at + i] := if i < 5 then b.uni0[i] else if i < 11 then b.uni5[i - 5] else b.uni11[i - 11];
      if buffer[at + i] == 0 {
        assert Unit(b, i) == 0;
        return;
      }
    }
    assert forall j :: 0 <= j < EXT_UNAME_LENGTH ==> buffer[at + j] == Unit(b, j);
    if isLast {
      buffer[at + EXT_UNAME_LENGTH] := 0;
    }
  }

  // ----- one entry

  function DosName(s: DirSlot): seq<nat> {
    [s.mark] + if s.body.Short? then s.body.rest else []
  }

  ghost predicate PieceAt(slots: seq<DirSlot>, index: nat, name: seq<nat>, k: nat) {
    0 < k <= Pieces(|name|) && k <= index < |slots| ==> IsPiece(slots[index - k], name, k, Checksum(DosName(slots[index])))
  }

  /** The short entry at `index` carries this long name, none if it is empty. */
  ghost predicate Spelled(slots: seq<DirSlot>, index: nat, name: seq<nat>) {
    && NameOk(name) && Pieces(|name|) <= index < |slots| && IsShort(slots[index])
    && (forall k: nat :: PieceAt(slots, index, name, k))
    && (name == [] && index > 0 ==> !IsExt(slots[index - 1]))
  }

  // The k-th slot behind a last piece is another piece of the same entry.
  predicate Goes(slots: seq<DirSlot>, entry: nat, k: nat) {
    && entry + k < |slots| && IsExt(slots[entry + k]) && slots[entry + k].mark <= EXT_END_MARK
    && slots[entry].body.Ext? && slots[entry + k].body.checksum == slots[entry].body.checksum
  }

  predicate Going(slots: seq<DirSlot>, entry: nat, n: nat) {
    forall k :: 0 < k < n ==> Goes(slots, entry, k)
  }

  // The slots behind a last piece are those of an entry: as many pieces as it says, and the short slot they are tied to.
  predicate Followed(slots: seq<DirSlot>, entry: nat, n: nat) {
    && 0 < n && entry + n < |slots| && Going(slots, entry, n) && IsShort(slots[entry + n])
    && slots[entry].body.Ext? && slots[entry].body.checksum == Checksum(DosName(slots[entry + n]))
  }

  predicate Missing(slots: seq<DirSlot>, entry: nat, n: nat) {
    entry + n < |slots| && !IsExt(slots[entry + n])
  }

  // Where a piece is missing, or the short slot is another one, the name is emptied.
  ghost predicate Emptied(slots: seq<DirSlot>, entry: nat, n: nat, first: nat) {
    && (forall j :: 0 < j < n && Going(slots, entry, j) && Missing(slots, entry, j) ==> first == 0)
    && (0 < n && entry + n < |slots| && Going(slots, entry, n) && IsShort(slots[entry + n]) && !Followed(slots, entry, n)
        ==> first == 0)
  }

  // What is returned for the pieces behind a last one, and whether the name is emptied.
  ghost predicate LongIs(slots: seq<DirSlot>, entry: nat, n: nat, r: Result<nat>, first: nat)
    requires entry < |slots|
  {
    && r == (if |slots| - entry <= n && Going(slots, entry, |slots| - entry) then Err(ENOENT)
             else Ok(if Followed(slots, entry, n) then n else 0))
    && Emptied(slots, entry, n, first)
  }

  lemma GoesOn(slots: seq<DirSlot>, entry: nat, k: nat)
    requires Going(slots, entry, k) && Goes(slots, entry, k)
    ensures Going(slots, entry, k + 1)
  {
    hide Goes;
  }

  lemma GoesIs(slots: seq<DirSlot>, entry: nat, k: nat)
    requires entry + k < |slots| && slots[entry].body.Ext?
    ensures Goes(slots, entry, k) <==>
              var s := slots[entry + k]; IsExt(s) && s.mark <= EXT_END_MARK && s.body.checksum == slots[entry].body.checksum
  {
  }

  lemma FollowedIs(slots: seq<DirSlot>, entry: nat, n: nat)
    requires 0 < n && entry + n < |slots| && Going(slots, entry, n) && slots[entry].body.Ext?
    ensures Followed(slots, entry, n) <==>
              IsShort(slots[entry + n]) && slots[entry].body.checksum == Checksum(DosName(slots[entry + n]))
  {
  }

  lemma GoesFrom(slots: seq<DirSlot>, entry: nat)
    ensures Going(slots, entry, 1)
  {
  }

  // The first slot at which it does not go on decides.
  lemma StopsAt(slots: seq<DirSlot>, entry: nat, n: nat, k: nat, first: nat)
    requires 0 < k < n && entry + k < |slots| && Going(slots, entry, k) && !Goes(slots, entry, k)
    requires Missing(slots, entry, k) ==> first == 0
    ensures LongIs(slots, entry, n, Ok(0), first)
  {
    forall j | 0 < j < k ensures !Missing(slots, entry, j) {
      assert Goes(slots, entry, j);
    }
    forall j | k < j ensures !Going(slots, entry, j) {
      assert !Goes(slots, entry, k);
    }
  }

  lemma RunsOut(slots: seq<DirSlot>, entry: nat, n: nat, k: nat, first: nat)
    requires 0 < k <= n && entry + k == |slots| && Going(slots, entry, k)
    ensures LongIs(slots, entry, n, Err(ENOENT), first)
  {
    forall j | 0 < j < k ensures !Missing(slots, entry, j) {
      assert Goes(slots, entry, j);
    }
  }

  lemma Arrives(slots: seq<DirSlot>, entry: nat, n: nat, first: nat)
    requires n > 0 && entry + n < |slots| && Going(slots, entry, n)
    requires IsShort(slots[entry + n]) && !Followed(slots, entry, n) ==> first == 0
    ensures LongIs(slots, entry, n, Ok(if Followed(slots, entry, n) then n else 0), first)
  {
    forall j | 0 < j < n ensures !Missing(slots, entry, j) {
      assert Goes(slots, entry, j);
    }
  }

  lemma NoPieces(slots: seq<DirSlot>, entry: nat, first: nat)
    requires entry < |slots|
    ensures LongIs(slots, entry, 0, Ok(0), first)
  {
  }

  lemma PieceIsExt(slots: seq<DirSlot>, index: nat, name: seq<nat>, k: nat)
    requires Spelled(slots, index, name) && 0 < k <= Pieces(|name|)
    ensures IsExt(slots[index - k])
    ensures slots[index - k].mark > EXT_END_MARK <==> k == Pieces(|name|)
    ensures slots[index - k].mark == if k == Pieces(|name|) then k + EXT_END_MARK else k
  {
    assert PieceAt(slots, index, name, k);
    AtMostTwenty(|name|);
  }

  /** Two entries never share a slot. */
  lemma SpelledApart(slots: seq<DirSlot>, a: nat, x: seq<nat>, b: nat, y: seq<nat>, p: nat)
    requires Spelled(slots, a, x) && Spelled(slots, b, y) && a != b
    requires a - Pieces(|x|) <= p <= a
    ensures !(b - Pieces(|y|) <= p <= b)
  {
    hide Pieces, IsPiece, PieceAt;
    AtMostTwenty(|x|);
    AtMostTwenty(|y|);
    if b - Pieces(|y|) <= p <= b {
      if p < a {
        PieceIsExt(slots, a, x, a - p);
      }
      if p < b {
        PieceIsExt(slots, b, y, b - p);
      }
    }
  }

  // An entry stays what it is while its own slots do, and no piece appears right before it.
  lemma SpelledFrame(was: seq<DirSlot>, slots: seq<DirSlot>, index: nat, name: seq<nat>)
    requires Spelled(was, index, name) && |was| <= |slots|
    requires forall p :: index - Pieces(|name|) <= p <= index ==> slots[p] == was[p]
    requires name == [] && index > 0 ==> IsExt(slots[index - 1]) ==> IsExt(was[index - 1])
    ensures Spelled(slots, index, name)
  {
    forall k: nat ensures PieceAt(slots, index, name, k) {
      assert PieceAt(was, index, name, k);
    }
  }

  /** Every piece in the directory belongs to an entry. */
  ghost predicate Tidy(slots: seq<DirSlot>) {
    forall i: nat :: i < |slots| && IsExt(slots[i]) ==> Claimed(slots, i)
  }

  ghost predicate Claimed(slots: seq<DirSlot>, i: nat) {
    exists b: nat, y :: Spelled(slots, b, y) && b - Pieces(|y|) <= i < b
  }

  // A piece is never followed by a free slot.
  lemma TidyFollows(slots: seq<DirSlot>, i: nat)
    requires Tidy(slots) && i < |slots| && IsExt(slots[i])
    ensures i + 1 < |slots| && !IsFree(slots[i + 1])
  {
    assert Claimed(slots, i);
    var b: nat, y :| Spelled(slots, b, y) && b - Pieces(|y|) <= i < b;
    if i + 1 < b {
      PieceIsExt(slots, b, y, b - i - 1);
    }
  }

  // ----- the directory

  // n free slots in a row, the last of them at q.
  ghost predicate Run(slots: seq<DirSlot>, q: nat, n: nat) {
    n <= q + 1 && q < |slots| && forall j :: q + 1 - n <= j <= q ==> IsFree(slots[j])
  }

  function Blanks(n: nat): (s: seq<DirSlot>)
    ensures |s| == n && forall i :: 0 <= i < n ==> s[i] == BLANK
  {
    seq(n, _ => BLANK)
  }

  function Deleted(slots: seq<DirSlot>, index: nat, n: nat): seq<DirSlot>
    requires n <= index < |slots|
  {
    seq(|slots|, i requires 0 <= i < |slots| =>
      if index - n <= i <= index then slots[i].(mark := DELETE_MARK) else slots[i])
  }

  class Directory {
    var slots: seq<DirSlot>
    var freeClus: nat
    // The root directory of the 16-bit format cannot grow.
    const fixed: bool
    const perClu: nat

    constructor (s: seq<DirSlot>, free: nat, isFixed: bool, per: nat)
      ensures slots == s && freeClus == free && fixed == isFixed && perClu == per
    {
      slots, freeClus, fixed, perClu := s, free, isFixed, per;
    }

    /** Finds the first run of n free slots, and lets the directory grow if there is none. */
    method FindEmptyEntry(n: nat) returns (r: Result<nat>)
      requires n > 0 && perClu > 0
      modifies this
      ensures r.Ok? ==> Run(slots, r.value, n) && forall q :: 0 <= q < r.value ==> !Run(slots, q, n)
      ensures old(slots) <= slots && forall i :: |old(slots)| <= i < |slots| ==> slots[i] == BLANK
      ensures (exists q :: 0 <= q < |old(slots)| && Run(old(slots), q, n)) || fixed ==> slots == old(slots)
      ensures freeClus <= old(freeClus) && |slots| == |old(slots)| + (old(freeClus) - freeClus) * perClu
      ensures r.Ok? && slots != old(slots) ==> r.value + perClu >= |slots|
      ensures r.Err? ==> r.error == ENOSPC && slots == old(slots) && freeClus == old(freeClus)
      ensures r.Err? ==> forall q :: 0 <= q < |slots| ==> !Run(slots, q, n)
      ensures r.Err? && !fixed ==> forall q :: !Run(slots + Blanks(freeClus * perClu), q, n)
    {
      var cpos, free := 0, 0;
      while cpos < |slots|
        invariant 0 <= cpos <= |slots| && free <= cpos && free < n
        invariant forall j :: cpos - free <= j < cpos ==> IsFree(slots[j])
        invariant free < cpos ==> !IsFree(slots[cpos - free - 1])
        invariant forall q :: 0 <= q < cpos ==> !Run(slots, q, n)
      {
        if IsFree(slots[cpos]) {
          free := free + 1;
          if free == n {
            assert Run(slots, cpos, n);
            return Ok(cpos);
          }
        } else {
          free := 0;
          assert forall q :: q == cpos ==> !Run(slots, q, n);
        }
        cpos := cpos + 1;
      }
      if fixed {
        return Err(ENOSPC);
      }
      var clusters := Cover(n - free, perClu);
      if clusters > freeClus {
        CoverLess(n - free, freeClus, perClu);
        NoRunBehind(slots, free, n, freeClus * perClu);
        return Err(ENOSPC);
      }
      ghost var was, tail := slots, free;
      var left := clusters;
      while left > 0
        invariant 0 <= left <= freeClus && left <= clusters && freeClus == old(freeClus) - (clusters - left)
        invariant was <= slots && |slots| == |was| + (clusters - left) * perClu
        invariant forall i :: |was| <= i < |slots| ==> slots[i] == BLANK
      {
        slots, freeClus := slots + Blanks(perClu), freeClus - 1;
        MulNext(clusters - left, perClu);
        left := left - 1;
      }
      CoverHolds(n - free, perClu);
      assert |slots| >= |was| + (n - free);
      while true
        invariant cpos == |was| + (free - tail) && tail <= free < n
        decreases n - free
      {
        free := free + 1;
        if free == n {
          break;
        }
        cpos := cpos + 1;
      }
      GrownRun(was, slots, tail, n, cpos);
      return Ok(cpos);
    }

    /** Writes the short entry and its pieces into a run of free slots. Every entry there was stays.
        Only a name without pieces can end up behind a stray piece, which would be read as its own. */
    method Build(buffer: seq<nat>, units: nat, dosname: seq<nat>) returns (r: Result<nat>)
      requires perClu > 0 && |dosname| == DOS_NAME_LENGTH && !FreeMark(dosname[0])
      requires |buffer| >= UNICODE_NAME_LENGTH && units <= 255 && NameOk(buffer[..units]) && buffer[units] == 0
      modifies this
      ensures Tidy(old(slots)) ==> Tidy(slots)
      ensures r.Ok? ==> r.value < |slots| && DosName(slots[r.value]) == dosname
      ensures r.Ok? ==> (Spelled(slots, r.value, buffer[..units]) <==>
                          units > 0 || r.value == 0 || !IsExt(slots[r.value - 1]))
      ensures r.Ok? && Tidy(old(slots)) ==> Spelled(slots, r.value, buffer[..units])
      ensures var n := Pieces(units) + 1;
              r.Ok? ==> forall q :: 0 <= q < r.value && q < |old(slots)| ==> !Run(old(slots), q, n)
      ensures r.Ok? ==> forall p :: 0 <= p < |old(slots)| <= |slots| ==>
                if r.value - Pieces(units) <= p <= r.value then IsFree(old(slots)[p]) else slots[p] == old(slots)[p]
      ensures forall b: nat, y :: Spelled(old(slots), b, y) ==> Spelled(slots, b, y) && slots[b] == old(slots)[b]
      ensures var n := Pieces(units) + 1;
              (exists q :: 0 <= q < |old(slots)| && Run(old(slots), q, n)) ==> r.Ok? && |slots| == |old(slots)|
      ensures freeClus <= old(freeClus) && |slots| == |old(slots)| + (old(freeClus) - freeClus) * perClu
      ensures fixed || r.Err? ==> |slots| == |old(slots)|
      ensures r.Ok? && |slots| > |old(slots)| ==> r.value + perClu >= |slots|
      ensures r.Err? ==> r.error == ENOSPC && slots == old(slots)
      ensures var n, all := Pieces(units) + 1, slots + Blanks(freeClus * perClu);
              r.Err? && !fixed ==> forall q :: !Run(all, q, n)
    {
      hide IsPiece, Checksum, Run;
      ghost var name := buffer[..units];
      var num := Cover(units, EXT_UNAME_LENGTH) + 1;
      AtMostTwenty(units);
      var found := FindEmptyEntry(num);
      if found.Err? {
        return Err(found.error);
      }
      var index := found.value;
      ghost var grown, free := slots, freeClus;
      RunIs(grown, index, num);
      RunsGrow(old(slots), grown, index, num);
      slots := slots[index := DirSlot(dosname[0], Short(dosname[1..]))];
      assert DosName(slots[index]) == dosname;
      var checksum := CalcChecksum(dosname);
      var i := 1;
      while i < num
        invariant 1 <= i <= num <= index + 1 && index < |slots| == |grown| && freeClus == free
        invariant slots[index] == DirSlot(dosname[0], Short(dosname[1..]))
        invariant forall p :: 0 <= p < |slots| && !(index - num < p <= index) ==> slots[p] == grown[p]
        invariant forall k: nat :: k < i ==> PieceAt(slots, index, name, k)
      {
        var mark := if i == num - 1 then i + EXT_END_MARK else i;
        var piece := InitExtEntry(mark, buffer, EXT_UNAME_LENGTH * (i - 1), checksum, name, i);
        assert DosName(slots[index]) == dosname;
        PieceWritten(slots, index, name, i, piece);
        slots := slots[index - i := piece];
        i := i + 1;
      }
      BuiltStays(old(slots), grown, slots, index, name);
      return Ok(index);
    }

    /** Reads the long name from the short entry backwards, piece by piece. */
    method GetUname(entry: nat, buffer: array<nat>, ghost name: seq<nat>) returns (r: Result<()>)
      requires Spelled(slots, entry, name) && buffer.Length > UNICODE_NAME_LENGTH
      modifies buffer
      ensures r == Ok(())
      ensures if name == [] then buffer[..] == old(buffer[..]) else buffer[..|name|] == name && buffer[|name|] == 0
    {
      hide IsPiece, Checksum, PieceAt;
      if entry == 0 {
        return Ok(());
      }
      AtMostTwenty(|name|);
      var i, at: nat := 0, entry;
      ghost var k := 0;
      while at > 0
        invariant at == entry - k && i == EXT_UNAME_LENGTH * k && (k < Pieces(|name|) || (k == 0 && name == []))
        invariant k == 0 ==> buffer[..] == old(buffer[..])
        invariant i <= |name| && forall j :: 0 <= j < i ==> buffer[j] == name[j]
        decreases at
      {
        var s := slots[at - 1];
        if name != [] {
          PieceIsExt(slots, entry, name, k + 1);
          UnitsOf(slots, entry, name, k + 1);
        }
        if !IsExt(s) {
          break;
        }
        GetUnits(s.body, buffer, i, true);
        if i > UNICODE_NAME_LENGTH {
          return Err(EIO);
        }
        if s.mark > EXT_END_MARK {
          assert buffer[..|name|] == name;
          break;
        }
        k := k + 1;
        at := at - 1;
        i := i + EXT_UNAME_LENGTH;
      }
      return Ok(());
    }

    // The units of piece i, behind which the buffer holds the rest of the name already.
    method GetPiece(b: Body, buffer: array<nat>, i: nat, isLast: bool, ghost good: bool, ghost name: seq<nat>)
      requires ExtShape(b) && 0 < i && EXT_UNAME_LENGTH * i < buffer.Length
      requires good ==> NameOk(name) && EXT_UNAME_LENGTH * (i - 1) < |name| < buffer.Length
      requires good ==> forall u :: 0 <= u < EXT_UNAME_LENGTH ==> Unit(b, u) == Stored(name, EXT_UNAME_LENGTH * (i - 1) + u)
      requires good ==> if isLast then |name| <= EXT_UNAME_LENGTH * i
                        else
                          && EXT_UNAME_LENGTH * i < |name|
                          && forall j :: EXT_UNAME_LENGTH * i <= j <= |name| ==> buffer[j] == Stored(name, j)
      modifies buffer
      ensures good ==> forall j :: EXT_UNAME_LENGTH * (i - 1) <= j <= |name| ==> buffer[j] == Stored(name, j)
    {
      hide Unit;
      GetUnits(b, buffer, (i - 1) * EXT_UNAME_LENGTH, isLast);
    }

    /** Reads the long name from its last piece, the first slot of the entry, forwards; 0 stands for
        pieces that belong to no short entry. */
    method GetLongName(entry: nat, buffer: array<nat>, ghost index: nat, ghost name: seq<nat>)
      returns (r: Result<nat>)
      requires entry < |slots| && IsExt(slots[entry]) && EXT_END_MARK <= slots[entry].mark <= EXT_END_MARK + 20
      requires forall i :: 0 <= i < |slots| && slots[i].body.Ext? ==> ExtShape(slots[i].body)
      requires buffer.Length > UNICODE_NAME_LENGTH
      modifies buffer
      ensures Spelled(slots, index, name) && name != [] && entry == index - Pieces(|name|)
              ==> r == Ok(Pieces(|name|)) && buffer[..|name|] == name && buffer[|name|] == 0
      ensures LongIs(slots, entry, slots[entry].mark - EXT_END_MARK, r, buffer[0])
    {
      hide IsPiece, PieceAt, Checksum, Unit, Going, LongIs, Goes, Followed;
      ghost var good := Spelled(slots, index, name) && name != [] && entry == index - Pieces(|name|);
      if good {
        AtMostTwenty(|name|);
        PieceIsExt(slots, index, name, index - entry);
        UnitsOf(slots, index, name, index - entry);
      }
      var s, cpos := slots[entry], entry;
      var count: nat := s.mark - EXT_END_MARK;
      var checksum := s.body.checksum;
      var i: nat := count;
      GoesFrom(slots, entry);
      while i > 0
        invariant i <= count && cpos == entry + (count - i) < |slots| && s == slots[cpos] && IsExt(s)
        invariant i == 0 ==> count == 0
        invariant checksum == slots[entry].body.checksum && Going(slots, entry, count - i + 1)
        invariant good ==> 0 < i && count == Pieces(|name|) && checksum == Checksum(DosName(slots[index]))
        invariant good && i < count ==> forall j :: EXT_UNAME_LENGTH * i <= j <= |name| ==> buffer[j] == Stored(name, j)
        decreases i
      {
        if good {
          PieceIsExt(slots, index, name, i);
          UnitsOf(slots, index, name, i);
        }
        GetPiece(s.body, buffer, i, s.mark > EXT_END_MARK, good, name);
        cpos := cpos + 1;
        if cpos >= |slots| {
          RunsOut(slots, entry, count, count - i + 1, buffer[0]);
          return Err(ENOENT);
        }
        s := slots[cpos];
        if i == 1 {
          break;
        }
        ghost var k := count - i + 1;
        GoesIs(slots, entry, k);
        if good {
          PieceIsExt(slots, index, name, i - 1);
          UnitsOf(slots, index, name, i - 1);
        }
        if !IsExt(s) {
          buffer[0] := 0;
          StopsAt(slots, entry, count, k, 0);
          return Ok(0);
        }
        if s.mark > EXT_END_MARK || s.body.checksum != checksum {
          StopsAt(slots, entry, count, k, buffer[0]);
          return Ok(0);
        }
        GoesOn(slots, entry, k);
        i := i - 1;
      }
      if count == 0 {
        NoPieces(slots, entry, buffer[0]);
      } else {
        FollowedIs(slots, entry, count);
      }
      if !IsShort(s) {
        if count > 0 {
          Arrives(slots, entry, count, buffer[0]);
        }
        return Ok(0);
      }
      var expected := CalcChecksum([s.mark] + s.body.rest);
      if checksum != expected {
        buffer[0] := 0;
        Arrives(slots, entry, count, 0);
        return Ok(0);
      }
      Arrives(slots, entry, count, buffer[0]);
      assert good ==> buffer[..|name|] == name;
      return Ok(count);
    }

    /** Marks the short entry and all its pieces as deleted, and reports the bytes the marks replace. */
    method Remove(entry: nat, ghost name: seq<nat>) returns (undel: seq<nat>)
      requires Spelled(slots, entry, name)
      modifies this`slots
      ensures Tidy(old(slots)) ==> Tidy(slots)
      ensures |undel| == Pieces(|name|) + 1
      ensures forall i :: 0 <= i < |undel| ==> undel[i] == old(slots)[entry - i].mark
      ensures slots == Deleted(old(slots), entry, Pieces(|name|))
      ensures forall b: nat, y :: Spelled(old(slots), b, y) && b != entry ==> Spelled(slots, b, y) && slots[b] == old(slots)[b]
    {
      hide IsPiece, PieceAt, Checksum;
      undel := [];
      ghost var n, was := Pieces(|name|), slots;
      var i := 0;
      while true
        invariant slots == was && i <= entry && |undel| == i && (i <= n || (n == 0 && i == 1))
        invariant forall j :: 0 <= j < |undel| ==> undel[j] == slots[entry - j].mark
        decreases n + 1 - i
      {
        if 0 < i <= n {
          PieceIsExt(slots, entry, name, i);
        }
        if i != 0 && !IsExt(slots[entry - i]) {
          break;
        }
        undel := undel + [slots[entry - i].mark];
        if entry - i == 0 {
          break;
        }
        if IsExt(slots[entry - i]) && slots[entry - i].mark > EXT_END_MARK {
          break;
        }
        i := i + 1;
      }
      i := 0;
      while i < |undel|
        invariant 0 <= i <= |undel| == n + 1 <= entry + 1 && |slots| == |was|
        invariant forall p :: 0 <= p < |slots| ==>
                    slots[p] == if entry - i < p <= entry then was[p].(mark := DELETE_MARK) else was[p]
      {
        slots := slots[entry - i := slots[entry - i].(mark := DELETE_MARK)];
        i := i + 1;
      }
      RemovedStays(was, slots, entry, name);
    }
  }

  // A piece of a name of one unit, and no entry it belongs to.
  const STRAY := DirSlot(EXT_END_MARK + 1, Ext(0, [97, 0, 0xFFFF, 0xFFFF, 0xFFFF], [0xFFFF, 0xFFFF, 0xFFFF, 0xFFFF, 0xFFFF, 0xFFFF],
                                               [0xFFFF, 0xFFFF]))

  /** A short entry without pieces, built into the free slot behind a stray piece, does not
      spell the empty long name: the piece lies right before it and would be read as its own. */
  method StrayPiece(dosname: seq<nat>) returns (d: Directory)
    requires |dosname| == DOS_NAME_LENGTH && !FreeMark(dosname[0])
    ensures fresh(d) && |d.slots| == 2 && d.slots[0] == STRAY && DosName(d.slots[1]) == dosname
    ensures !Spelled(d.slots, 1, [])
  {
    d := new Directory([STRAY, BLANK], 0, true, 1);
    assert Run(d.slots, 1, 1);
    assert Pieces(0) == 0;
    var buffer: seq<nat> := seq(UNICODE_NAME_LENGTH, _ => 0);
    assert buffer[..0] == [];
    var r := d.Build(buffer, 0, dosname);
  }

  lemma RunIs(slots: seq<DirSlot>, q: nat, n: nat)
    requires Run(slots, q, n)
    ensures n <= q + 1 && q < |slots| && forall j :: q + 1 - n <= j <= q ==> IsFree(slots[j])
  {
  }

  // A run that was there before the directory grew is still the first.
  lemma RunsGrow(was: seq<DirSlot>, slots: seq<DirSlot>, index: nat, n: nat)
    requires was <= slots && forall q :: 0 <= q < index ==> !Run(slots, q, n)
    ensures forall q :: 0 <= q < index && q < |was| ==> !Run(was, q, n)
  {
    forall q | 0 <= q < index && q < |was| ensures !Run(was, q, n) {
      assert !Run(slots, q, n);
      assert forall j :: 0 <= j <= q ==> slots[j] == was[j];
    }
  }

  lemma PieceWritten(slots: seq<DirSlot>, index: nat, name: seq<nat>, i: nat, piece: DirSlot)
    requires 0 < i <= index < |slots| && IsPiece(piece, name, i, Checksum(DosName(slots[index])))
    requires forall k: nat :: k < i ==> PieceAt(slots, index, name, k)
    ensures var after := slots[index - i := piece];
            forall k: nat :: k <= i ==> PieceAt(after, index, name, k)
  {
    hide IsPiece;
    var after := slots[index - i := piece];
    forall k: nat | k <= i ensures PieceAt(after, index, name, k) {
      if k < i {
        assert PieceAt(slots, index, name, k);
      }
    }
  }

  // A new entry in free slots leaves all others alone.
  lemma BuiltStays(was: seq<DirSlot>, grown: seq<DirSlot>, slots: seq<DirSlot>, index: nat, name: seq<nat>)
    requires was <= grown && |slots| == |grown| && NameOk(name) && Pieces(|name|) <= index < |slots|
    requires forall i :: |was| <= i < |grown| ==> grown[i] == BLANK
    requires forall p :: index - Pieces(|name|) <= p <= index ==> IsFree(grown[p])
    requires forall p :: 0 <= p < |slots| && !(index - Pieces(|name|) <= p <= index) ==> slots[p] == grown[p]
    requires IsShort(slots[index]) && forall k: nat :: k <= Pieces(|name|) ==> PieceAt(slots, index, name, k)
    ensures Spelled(slots, index, name) <==> name != [] || index == 0 || !IsExt(slots[index - 1])
    ensures Tidy(was) ==> Spelled(slots, index, name) && Tidy(slots)
    ensures forall b: nat, y :: Spelled(was, b, y) ==> Spelled(slots, b, y) && slots[b] == was[b]
  {
    hide IsPiece;
    forall b: nat, y | Spelled(was, b, y) ensures Spelled(slots, b, y) && slots[b] == was[b] {
      forall p | b - Pieces(|y|) <= p <= b ensures slots[p] == was[p] {
        if p < b {
          PieceIsExt(was, b, y, b - p);
        }
      }
      SpelledFrame(was, slots, b, y);
    }
    if Tidy(was) {
      if name == [] && index > 0 && IsExt(slots[index - 1]) {
        TidyFollows(was, index - 1);
      }
      forall i: nat | i < |slots| && IsExt(slots[i]) ensures Claimed(slots, i) {
        if index - Pieces(|name|) <= i <= index {
          assert Spelled(slots, index, name) && i < index;
        } else {
          assert Claimed(was, i);
          var b: nat, y :| Spelled(was, b, y) && b - Pieces(|y|) <= i < b;
          assert Spelled(slots, b, y);
        }
      }
    }
  }

  lemma RemovedStays(was: seq<DirSlot>, slots: seq<DirSlot>, entry: nat, name: seq<nat>)
    requires Spelled(was, entry, name) && |slots| == |was|
    requires forall p :: 0 <= p < |slots| ==>
               slots[p] == if entry - Pieces(|name|) <= p <= entry then was[p].(mark := DELETE_MARK) else was[p]
    ensures slots == Deleted(was, entry, Pieces(|name|)) && (Tidy(was) ==> Tidy(slots))
    ensures forall b: nat, y :: Spelled(was, b, y) && b != entry ==> Spelled(slots, b, y) && slots[b] == was[b]
  {
    forall b: nat, y | Spelled(was, b, y) && b != entry ensures Spelled(slots, b, y) && slots[b] == was[b] {
      forall p | b - Pieces(|y|) <= p <= b ensures slots[p] == was[p] {
        SpelledApart(was, b, y, entry, name, p);
      }
      SpelledFrame(was, slots, b, y);
    }
    forall i: nat | Tidy(was) && i < |slots| && IsExt(slots[i]) ensures Claimed(slots, i) {
      assert Claimed(was, i);
      var b: nat, y :| Spelled(was, b, y) && b - Pieces(|y|) <= i < b;
      if b == entry {
        SpelledOnce(was, b, name, y);
      } else {
        assert Spelled(slots, b, y);
      }
    }
  }

  lemma SpelledOnce(slots: seq<DirSlot>, b: nat, x: seq<nat>, y: seq<nat>)
    requires Spelled(slots, b, x) && Spelled(slots, b, y)
    ensures Pieces(|x|) == Pieces(|y|)
  {
    hide IsPiece, PieceAt, Checksum;
    var m, n := Pieces(|x|), Pieces(|y|);
    if 0 < m {
      PieceIsExt(slots, b, x, m);
    }
    if 0 < n {
      PieceIsExt(slots, b, y, n);
    }
    if 0 < n <= m {
      PieceIsExt(slots, b, x, n);
    } else if 0 < m <= n {
      PieceIsExt(slots, b, y, m);
    } else if m == 0 < n {
      PieceIsExt(slots, b, y, 1);
    } else if n == 0 < m {
      PieceIsExt(slots, b, x, 1);
    }
  }

  // The units of a piece are the units of the name, none of them zero before the end.
  lemma UnitsOf(slots: seq<DirSlot>, index: nat, name: seq<nat>, k: nat)
    requires Spelled(slots, index, name) && 0 < k <= Pieces(|name|)
    ensures var b := slots[index - k].body;
            && ExtShape(b) && b.checksum == Checksum(DosName(slots[index]))
            && forall i :: 0 <= i < EXT_UNAME_LENGTH ==> Unit(b, i) == Stored(name, EXT_UNAME_LENGTH * (k - 1) + i)
    ensures EXT_UNAME_LENGTH * (k - 1) < |name| && (k < Pieces(|name|) <==> EXT_UNAME_LENGTH * k < |name|)
  {
    assert PieceAt(slots, index, name, k);
  }

  lemma MulNext(k: nat, m: nat)
    ensures k * m + m == (k + 1) * m
  {
  }

  // Where the free slots at the end and all that may be added are too few, nothing is gained by adding them.
  lemma NoRunBehind(slots: seq<DirSlot>, tail: nat, n: nat, more: nat)
    requires tail <= |slots| && tail + more < n
    requires tail < |slots| ==> !IsFree(slots[|slots| - tail - 1])
    requires forall q :: 0 <= q < |slots| ==> !Run(slots, q, n)
    ensures forall q :: !Run(slots + Blanks(more), q, n)
  {
    var s := slots + Blanks(more);
    forall q: nat ensures !Run(s, q, n) {
      if q < |slots| {
        assert !Run(slots, q, n);
        assert forall j :: 0 <= j <= q ==> s[j] == slots[j];
      } else if n <= q + 1 && q < |s| {
        assert q + 1 - n <= |slots| - tail - 1 <= q && s[|slots| - tail - 1] == slots[|slots| - tail - 1];
      }
    }
  }

  lemma GrownRun(was: seq<DirSlot>, slots: seq<DirSlot>, tail: nat, n: nat, cpos: nat)
    requires was <= slots && tail <= |was| && tail < n && cpos == |was| + (n - tail) - 1 < |slots|
    requires forall i :: |was| <= i < |slots| ==> slots[i] == BLANK
    requires forall j :: |was| - tail <= j < |was| ==> IsFree(was[j])
    requires tail < |was| ==> !IsFree(was[|was| - tail - 1])
    requires forall q :: 0 <= q < |was| ==> !Run(was, q, n)
    ensures Run(slots, cpos, n) && forall q :: 0 <= q < cpos ==> !Run(slots, q, n)
    ensures forall q :: 0 <= q < |was| ==> !Run(slots, q, n)
  {
    forall q | 0 <= q < cpos ensures !Run(slots, q, n) {
      if q < |was| {
        assert forall j :: 0 <= j <= q ==> slots[j] == was[j];
        assert !Run(was, q, n);
      } else if n <= q + 1 {
        assert q + 1 - n <= |was| - tail - 1 <= q;
      }
    }
  }
}
