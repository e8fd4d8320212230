/** The cache of table blocks: a list in order of use, in front of the device.
    It is proved to show one flat table whatever is cached, dirty or evicted. */
module FatCaches {
  import opened Results
  import opened Arith
  import opened Fat
  import opened Records

  // One block of the table, word by word.
  type Block = seq<nat>

  datatype Entry = Empty | Held(blk: nat, dirty: bool)

  function SetWord(block: Block, i: nat, w: nat): Block
    requires i < |block|
  {
    block[i := w]
  }

  predicate Dirty(e: Entry) {
    e.Held? && e.dirty
  }

  predicate Holds(slots: seq<Entry>, b: nat) {
    Held(b, true) in slots || Held(b, false) in slots
  }

  // ----- words of the two table widths

  // A block of 512 bytes holds at least this many words.
  const MIN_WORDS: nat := 128

  const TOP: nat := 0x1000_0000

  function WordLimit(wide: bool): nat {
    if wide then 0x1_0000_0000 else 0x1_0000
  }

  // What a word of the table reads as.
  function Decode(wide: bool, w: nat): nat {
    if wide then
      var v := w % TOP;
      if v >= 0xFFF_FFF8 then CLU_TAIL else v
    else if w >= 0xFFF8 then CLU_TAIL
    else w
  }

  // The word written over `w`; the wide form keeps the top four bits.
  function Encode(wide: bool, w: nat, v: nat): nat {
    if wide then w / TOP * TOP + v % TOP else v % 0x1_0000
  }

  /** What reading a stored word must give, bit by bit: the low 28 or 16 bits are the entry,
      and the eight highest values they can take all say that the chain ends here. */
  predicate ReadsAs(wide: bool, w: nat, num: nat, r: Result<nat>) {
    var bits := if wide then w - w / 0x1000_0000 * 0x1000_0000 else w;
    var marks := if wide then 0x1000_0000 - 8 else 0x1_0000 - 8;
    if bits >= marks then r == Ok(CLU_TAIL)
    else if bits == 0 || 2 <= bits < num then r == Ok(bits)
    else r == Err(EIO)
  }

  lemma DecodeReads(wide: bool, w: nat, t: Table)
    requires w < WordLimit(wide)
    ensures var v := Decode(wide, w); ReadsAs(wide, w, |t|, if ValidContent(t, v) then Ok(v) else Err(EIO))
  {
  }

  // And what a write stores: the value in those bits, and the top four bits as they were.
  predicate WritesAs(wide: bool, was: nat, v: nat, w: nat) {
    if wide then w / 0x1000_0000 == was / 0x1000_0000 && w % 0x1000_0000 == v % 0x1000_0000
    else w == v % 0x1_0000
  }

  predicate FitsWidth(wide: bool, num: nat) {
    if wide then num <= MAX_CLUSTERS else num <= 0xFFF7
  }

  lemma DecodeEncode(wide: bool, w: nat, t: Table, v: nat)
    requires FitsWidth(wide, |t|) && ValidContent(t, v) && w < WordLimit(wide)
    ensures Decode(wide, Encode(wide, w, v)) == v
    ensures Encode(wide, w, v) < WordLimit(wide)
    ensures wide ==> Encode(wide, w, v) / TOP == w / TOP
    ensures WritesAs(wide, w, v, Encode(wide, w, v))
  {
  }

  // ----- what the slots, the buffers and the device say together

  function Buf(device: seq<Block>, pool: map<nat, Block>, b: nat): Block
    requires b < |device|
  {
    if b in pool then pool[b] else device[b]
  }

  /** Every held block has a buffer, every buffer is held, and one that differs from the device is held dirty. */
  ghost predicate Coherent(device: seq<Block>, pool: map<nat, Block>, slots: seq<Entry>) {
    && (forall s :: s in slots && s.Held? ==> s.blk in pool && s.blk < |device|)
    && (forall b :: b in pool ==> b < |device| && Holds(slots, b))
    && (forall b :: b in pool && pool[b] != device[b] ==> Held(b, true) in slots)
  }

  // Unassigned slots come last.
  ghost predicate Packed(slots: seq<Entry>) {
    forall i, j :: 0 <= i <= j < |slots| && slots[i].Empty? ==> slots[j].Empty?
  }

  ghost predicate NoTwice(slots: seq<Entry>) {
    forall i, j :: 0 <= i < j < |slots| && slots[i].Held? && slots[j].Held? ==> slots[i].blk != slots[j].blk
  }

  // A buffer nobody holds any more is gone.
  function Referenced(pool: map<nat, Block>, slots: seq<Entry>): map<nat, Block> {
    map b | b in pool && Holds(slots, b) :: pool[b]
  }

  ghost predicate SameBufs(d: seq<Block>, p: map<nat, Block>, e: seq<Block>, q: map<nat, Block>) {
    |d| == |e| && forall b :: 0 <= b < |d| ==> Buf(d, p, b) == Buf(e, q, b)
  }

  lemma UpdateIn(slots: seq<Entry>, i: nat, e: Entry)
    requires i < |slots|
    ensures e in slots[i := e]
    ensures forall s :: s in slots[i := e] ==> s == e || s in slots
    ensures forall s :: s in slots && s != slots[i] ==> s in slots[i := e]
  {
    var after := slots[i := e];
    assert after[i] == e;
    forall s | s in slots && s != slots[i] ensures s in after {
      var j :| 0 <= j < |slots| && slots[j] == s;
      assert after[j] == s;
    }
  }

  /** Giving up a clean slot loses nothing. */
  lemma Evict(device: seq<Block>, pool: map<nat, Block>, slots: seq<Entry>, i: nat)
    requires Coherent(device, pool, slots) && i < |slots| && !Dirty(slots[i])
    ensures var after := slots[i := Empty];
            Coherent(device, Referenced(pool, after), after)
            && SameBufs(device, pool, device, Referenced(pool, after))
  {
    UpdateIn(slots, i, Empty);
  }

  // Marking a block hands its buffer to the device.
  lemma Mark(device: seq<Block>, pool: map<nat, Block>, slots: seq<Entry>, i: nat)
    requires Coherent(device, pool, slots) && i < |slots| && slots[i].Held?
    ensures var b := slots[i].blk;
            var after := slots[i := Held(b, false)];
            b in pool && b < |device| && Coherent(device[b := pool[b]], pool, after)
            && SameBufs(device, pool, device[b := pool[b]], pool)
  {
    assert slots[i] in slots;
    UpdateIn(slots, i, Held(slots[i].blk, false));
  }

  // A block read into an unassigned slot; if somebody else holds it, the buffer is shared.
  lemma Fill(device: seq<Block>, pool: map<nat, Block>, slots: seq<Entry>, i: nat, b: nat)
    requires Coherent(device, pool, slots) && i < |slots| && slots[i].Empty? && b < |device|
    ensures var after := slots[i := Held(b, false)];
            var buffers := pool[b := Buf(device, pool, b)];
            Coherent(device, buffers, after) && SameBufs(device, pool, device, buffers)
  {
    UpdateIn(slots, i, Held(b, false));
  }

  // Slot i moved to the head of the list.
  function ToHead(slots: seq<Entry>, i: nat): (r: seq<Entry>)
    requires i < |slots|
    ensures |r| == |slots| && r[0] == slots[i]
  {
    [slots[i]] + slots[..i] + slots[i + 1..]
  }

  function Others(slots: seq<Entry>, i: nat): seq<Entry>
    requires i < |slots|
  {
    slots[..i] + slots[i + 1..]
  }

  // ----- the order of the list, which decides what is given up next

  // The slot a search for block b stops at.
  predicate First(slots: seq<Entry>, b: nat, i: nat) {
    && i < |slots| && slots[i].Held? && slots[i].blk == b
    && forall j :: 0 <= j < i ==> !(slots[j].Held? && slots[j].blk == b)
  }

  // The clean slot that was used longest ago.
  predicate LastClean(slots: seq<Entry>, p: nat) {
    p < |slots| && !Dirty(slots[p]) && forall j :: p < j < |slots| ==> Dirty(slots[j])
  }

  // A flush leaves every slot where it is, and clean.
  ghost predicate Flushed(was: seq<Entry>, now: seq<Entry>) {
    && |now| == |was|
    && forall j :: 0 <= j < |was| ==> now[j] == if Dirty(was[j]) then Held(was[j].blk, false) else was[j]
  }

  // Block b comes to the head, for the slot used longest ago that is clean; without one all are flushed first.
  ghost predicate Added(was: seq<Entry>, now: seq<Entry>, b: nat) {
    || (exists p: nat :: LastClean(was, p) && now == [Held(b, false)] + Others(was, p))
    || (exists w: seq<Entry> :: Flushed(was, w) && w != [] && (forall s :: s in was ==> Dirty(s))
                                && now == [Held(b, false)] + Others(w, |w| - 1))
  }

  /** Fetching a block brings it to the head of the list, and keeps the order of all others. */
  ghost predicate Fetched(was: seq<Entry>, now: seq<Entry>, b: nat) {
    if exists i: nat :: First(was, b, i) then exists i: nat :: First(was, b, i) && now == ToHead(was, i)
    else Added(was, now, b)
  }

  lemma FetchedHere(slots: seq<Entry>, b: nat, i: nat)
    requires First(slots, b, i)
    ensures Fetched(slots, ToHead(slots, i), b)
  {
  }

  // What a write leaves: the block fetched, and dirty.
  ghost predicate Rewritten(was: seq<Entry>, now: seq<Entry>, b: nat) {
    && now != [] && now[0] == Held(b, true)
    && (Fetched(was, now, b) || Fetched(was, now[0 := Held(b, false)], b))
  }

  // The slot a search for block b stops at becomes dirty, and no other changes.
  ghost predicate Touched(was: seq<Entry>, now: seq<Entry>, b: nat) {
    |now| == |was| && forall j :: 0 <= j < |was| ==> now[j] == if First(was, b, j) then Held(b, true) else was[j]
  }

  lemma HeadTouched(was: seq<Entry>, mid: seq<Entry>, now: seq<Entry>, b: nat)
    requires Fetched(was, mid, b) && mid != [] && mid[0].Held? && mid[0].blk == b && Touched(mid, now, b)
    ensures Rewritten(was, now, b)
  {
    hide Fetched;
    assert First(mid, b, 0);
    assert now == mid[0 := Held(b, true)];
    if !mid[0].dirty {
      assert mid == now[0 := Held(b, false)];
    } else {
      assert mid == now;
    }
  }

  lemma FetchedNew(slots: seq<Entry>, now: seq<Entry>, b: nat)
    requires !Holds(slots, b) && Added(slots, now, b)
    ensures Fetched(slots, now, b)
  {
  }

  lemma OthersPacked(slots: seq<Entry>, i: nat)
    requires Packed(slots) && i < |slots|
    ensures Packed(Others(slots, i))
  {
    var rest := Others(slots, i);
    forall j, k | 0 <= j <= k < |rest| && rest[j].Empty? ensures rest[k].Empty? {
      var j', k' := if j < i then j else j + 1, if k < i then k else k + 1;
      assert rest[j] == slots[j'] && rest[k] == slots[k'];
    }
  }

  lemma HeadKeeps(device: seq<Block>, pool: map<nat, Block>, slots: seq<Entry>, i: nat)
    requires i < |slots|
    ensures forall s :: s in ToHead(slots, i) <==> s in slots
    ensures Coherent(device, pool, slots) ==> Coherent(device, pool, ToHead(slots, i))
    ensures NoTwice(slots) ==> NoTwice(ToHead(slots, i))
    ensures Packed(Others(slots, i)) && slots[i].Held? ==> Packed(ToHead(slots, i))
  {
    var r := ToHead(slots, i);
    forall s ensures s in r <==> s in slots {
      if s in slots {
        var j :| 0 <= j < |slots| && slots[j] == s;
        assert r[if j == i then 0 else if j < i then j + 1 else j] == s;
      }
    }
    if NoTwice(slots) {
      forall j, k | 0 <= j < k < |r| && r[j].Held? && r[k].Held? ensures r[j].blk != r[k].blk {
        var j', k' := From(i, j), From(i, k);
        assert r[j] == slots[j'] && r[k] == slots[k'] && j' != k';
      }
    }
    var rest := Others(slots, i);
    if Packed(rest) && slots[i].Held? {
      forall j, k | 0 <= j <= k < |r| && r[j].Empty? ensures r[k].Empty? {
        assert r[j] == rest[j - 1] && r[k] == rest[k - 1];
      }
    }
  }

  // Where the slot now at position j stood.
  function From(i: nat, j: nat): nat {
    if j == 0 then i else if j <= i then j - 1 else j
  }

  // The slots stand for the same blocks as before, dirty or not.
  ghost predicate SameBlocks(a: seq<Entry>, b: seq<Entry>) {
    |a| == |b| && forall j :: 0 <= j < |a| ==> a[j].Held? == b[j].Held? && (a[j].Held? ==> a[j].blk == b[j].blk)
  }

  lemma SameHeld(a: seq<Entry>, b: seq<Entry>)
    requires SameBlocks(a, b)
    ensures forall x :: Holds(a, x) <==> Holds(b, x)
    ensures NoTwice(a) == NoTwice(b) && Packed(a) == Packed(b)
  {
    forall x ensures Holds(a, x) <==> Holds(b, x) {
      if Holds(a, x) {
        var j :| 0 <= j < |a| && a[j].Held? && a[j].blk == x;
        assert b[j] in b;
      }
      if Holds(b, x) {
        var j :| 0 <= j < |b| && b[j].Held? && b[j].blk == x;
        assert a[j] in a;
      }
    }
  }

  // A slot that changes hands.
  lemma Replaced(slots: seq<Entry>, p: nat, b: nat)
    requires p < |slots| && !Holds(slots, b)
    ensures var after := slots[p := Held(b, false)];
            && (forall x :: Holds(after, x) ==> x == b || Holds(slots, x))
            && (NoTwice(slots) ==> NoTwice(after))
            && (Packed(slots) ==> Packed(Others(after, p)))
  {
    var after := slots[p := Held(b, false)];
    UpdateIn(slots, p, Held(b, false));
    assert Others(after, p) == Others(slots, p);
    if Packed(slots) {
      OthersPacked(slots, p);
    }
    assert forall j :: 0 <= j < |slots| && slots[j].Held? ==> slots[j] in slots;
  }

  // ----- the words as one table

  predicate BlockOk(block: Block, wide: bool, per: nat) {
    |block| == per && forall i :: 0 <= i < per ==> block[i] < WordLimit(wide)
  }

  ghost predicate BlocksOk(device: seq<Block>, pool: map<nat, Block>, wide: bool, per: nat) {
    forall b :: 0 <= b < |device| ==> BlockOk(Buf(device, pool, b), wide, per)
  }

  // Where the word of cluster c lies.
  function BlockOf(first: nat, per: nat, c: nat): nat
    requires per > 0
  {
    (first + c) / per
  }

  function IndexOf(first: nat, per: nat, c: nat): (i: nat)
    requires per > 0
    ensures i < per
  {
    (first + c) % per
  }

  predicate ShownAt(device: seq<Block>, pool: map<nat, Block>, wide: bool, per: nat, first: nat, t: Table, c: nat)
    requires per > 0 && c < |t|
  {
    var b, i := BlockOf(first, per, c), IndexOf(first, per, c);
    b < |device| && i < |Buf(device, pool, b)| && t[c] == Decode(wide, Buf(device, pool, b)[i])
  }

  lemma Words(first: nat, per: nat, c: nat, bytes: nat, q: nat, m: nat)
    requires first + c == q * per + m
    ensures c * bytes + first * bytes == q * (per * bytes) + m * bytes
  {
    assert (first + c) * bytes == q * per * bytes + m * bytes;
    assert q * per * bytes == q * (per * bytes);
  }

  /** The word of a cluster lies in the block, and there at the byte, that the byte address
      gives: so many bytes to a word from the start of the table on. */
  lemma WordPlace(first: nat, per: nat, c: nat, bytes: nat)
    requires per > 0 && bytes > 0
    ensures var offset := c * bytes + first * bytes;
            && per * bytes > 0 && BlockOf(first, per, c) == offset / (per * bytes)
            && IndexOf(first, per, c) * bytes == offset % (per * bytes)
  {
    var q, m, n := (first + c) / per, (first + c) % per, per * bytes;
    MulStep(m, per, bytes);
    Words(first, per, c, bytes, q, m);
    DivIs(c * bytes + first * bytes, n, q, m * bytes);
  }

  ghost predicate Shown(device: seq<Block>, pool: map<nat, Block>, wide: bool, per: nat, first: nat, t: Table)
    requires per > 0
  {
    forall c :: 0 <= c < |t| ==> ShownAt(device, pool, wide, per, first, t, c)
  }

  lemma BlocksSame(d: seq<Block>, p: map<nat, Block>, e: seq<Block>, q: map<nat, Block>,
                   wide: bool, per: nat, first: nat, t: Table)
    requires SameBufs(d, p, e, q) && per > 0
    ensures BlocksOk(d, p, wide, per) ==> BlocksOk(e, q, wide, per)
    ensures Shown(d, p, wide, per, first, t) ==> Shown(e, q, wide, per, first, t)
  {
    hide BlockOf, IndexOf, Buf, BlockOk, Decode;
    if Shown(d, p, wide, per, first, t) {
      forall c | 0 <= c < |t| ensures ShownAt(e, q, wide, per, first, t, c) {
        assert ShownAt(d, p, wide, per, first, t, c);
      }
    }
  }

  // No two clusters share a word.
  lemma PlaceUnique(first: nat, per: nat, c: nat, k: nat)
    requires per > 0 && BlockOf(first, per, c) == BlockOf(first, per, k) && IndexOf(first, per, c) == IndexOf(first, per, k)
    ensures c == k
  {
    var x, y := first + c, first + k;
    assert x == x / per * per + x % per && y == y / per * per + y % per;
  }

  lemma WriteShows(device: seq<Block>, pool: map<nat, Block>, wide: bool, per: nat, first: nat, t: Table, c: nat, v: nat)
    requires per > 0 && BlocksOk(device, pool, wide, per) && Shown(device, pool, wide, per, first, t)
    requires FitsWidth(wide, |t|) && ValidContent(t, v) && c < |t| && BlockOf(first, per, c) in pool
    ensures var b, i := BlockOf(first, per, c), IndexOf(first, per, c);
            b < |device| && i < |pool[b]| && pool[b][i] < WordLimit(wide) &&
            var after := pool[b := SetWord(pool[b], i, Encode(wide, pool[b][i], v))];
            BlocksOk(device, after, wide, per) && Shown(device, after, wide, per, first, t[c := v])
  {
    hide Encode, Decode, BlockOf, IndexOf, WordLimit;
    var b, i := BlockOf(first, per, c), IndexOf(first, per, c);
    assert ShownAt(device, pool, wide, per, first, t, c);
    assert BlockOk(Buf(device, pool, b), wide, per);
    var w := pool[b][i];
    DecodeEncode(wide, w, t, v);
    var after := pool[b := SetWord(pool[b], i, Encode(wide, w, v))];
    forall x | 0 <= x < |device| ensures BlockOk(Buf(device, after, x), wide, per) {
      assert BlockOk(Buf(device, pool, x), wide, per);
    }
    var u := t[c := v];
    forall k | 0 <= k < |u| ensures ShownAt(device, after, wide, per, first, u, k) {
      assert ShownAt(device, pool, wide, per, first, t, k);
      if k != c && BlockOf(first, per, k) == b && IndexOf(first, per, k) == i {
        PlaceUnique(first, per, c, k);
      }
    }
  }

  lemma ReadsShown(device: seq<Block>, pool: map<nat, Block>, wide: bool, per: nat, first: nat, t: Table, c: nat)
    requires per > 0 && Shown(device, pool, wide, per, first, t) && c < |t|
    ensures ShownAt(device, pool, wide, per, first, t, c)
  {
  }

  lemma HeldHas(device: seq<Block>, pool: map<nat, Block>, slots: seq<Entry>)
    requires Coherent(device, pool, slots) && |slots| > 0 && slots[0].Held?
    ensures slots[0].blk in pool && Holds(slots, slots[0].blk)
  {
    assert slots[0] in slots;
  }

  // A buffer may differ from the device once its slot is dirty.
  lemma Dirtied(device: seq<Block>, pool: map<nat, Block>, after: map<nat, Block>, a: seq<Entry>, b: seq<Entry>, x: nat)
    requires Coherent(device, pool, a) && after.Keys == pool.Keys && x in pool
    requires forall y :: y in pool && y != x ==> after[y] == pool[y]
    requires Held(x, true) in b && forall s :: s in b ==> s == Held(x, true) || s in a
    requires forall s :: s in a && s != Held(x, false) ==> s in b
    ensures Coherent(device, after, b)
  {
  }

  // Every word but word i of block b is as it was, and that one keeps its top four bits.
  ghost predicate OnlyWord(d: seq<Block>, p: map<nat, Block>, e: seq<Block>, q: map<nat, Block>, wide: bool, b: nat, i: nat,
                           v: nat) {
    && |d| == |e|
    && forall x :: 0 <= x < |d| ==>
         && |Buf(d, p, x)| == |Buf(e, q, x)|
         && forall j :: 0 <= j < |Buf(d, p, x)| ==>
              if x == b && j == i then WritesAs(wide, Buf(d, p, x)[j], v, Buf(e, q, x)[j])
              else Buf(e, q, x)[j] == Buf(d, p, x)[j]
  }

  lemma OneWord(d: seq<Block>, p: map<nat, Block>, e: seq<Block>, q: map<nat, Block>, wide: bool, b: nat, i: nat, v: nat, w: nat)
    requires SameBufs(d, p, e, q) && b in q && b < |e| && i < |q[b]| && WritesAs(wide, q[b][i], v, w)
    ensures OnlyWord(d, p, e, q[b := SetWord(q[b], i, w)], wide, b, i, v)
  {
  }

  lemma SameSelf(d: seq<Block>, p: map<nat, Block>)
    ensures SameBufs(d, p, d, p)
  {
  }

  lemma SameTwice(d: seq<Block>, p: map<nat, Block>, e: seq<Block>, q: map<nat, Block>, f: seq<Block>, r: map<nat, Block>)
    requires SameBufs(d, p, e, q) && SameBufs(e, q, f, r)
    ensures SameBufs(d, p, f, r)
  {
    hide Buf;
  }

  lemma SameLength(d: seq<Block>, p: map<nat, Block>, e: seq<Block>, q: map<nat, Block>)
    requires SameBufs(d, p, e, q)
    ensures |d| == |e|
  {
  }

  lemma BurstShape(was: seq<Entry>, slots: seq<Entry>, start: nat, n: nat)
    requires n <= |slots| == |was|
    requires forall j :: 0 <= j < |slots| ==> slots[j] == if j < n then Held(start + j, false) else was[j]
    ensures slots == seq(n, i requires 0 <= i < n => Held(start + i, false)) + was[n..]
    ensures Packed(was) ==> Packed(slots)
    ensures NoTwice(was) ==> (NoTwice(slots) <==> forall b :: start <= b < start + n ==> !Holds(was[n..], b))
  {
    if b :| start <= b < start + n && Holds(was[n..], b) {
      var j :| 0 <= j < |was| - n && was[n..][j].Held? && was[n..][j].blk == b;
      assert slots[b - start] == Held(b, false) && slots[n + j] == was[n + j];
    } else if NoTwice(was) {
      forall j, k | 0 <= j < k < |slots| && slots[j].Held? && slots[k].Held? ensures slots[j].blk != slots[k].blk {
        if j < n <= k {
          assert was[k] == was[n..][k - n];
          assert !Holds(was[n..], start + j);
        }
      }
    }
  }

  lemma NoneBelow(t: Table)
    ensures UsedBelow(t, VALID_CLU) == {}
  {
  }

  lemma FreshTwice(slots: seq<Entry>)
    requires forall s :: s in slots ==> s.Empty?
    ensures NoTwice(slots) && forall x :: !Holds(slots, x)
  {
    assert forall i :: 0 <= i < |slots| ==> slots[i] in slots;
  }

  // Only blocks of the table are held.
  ghost predicate InTable(slots: seq<Entry>, from: nat, total: nat) {
    forall x: nat :: Holds(slots, x) ==> OfTable(x, from, total)
  }

  predicate OfTable(b: nat, from: nat, total: nat) {
    from <= b < from + total
  }

  // The words of the table lie in its blocks.
  lemma BlockInTable(first: nat, per: nat, num: nat, c: nat)
    requires per > 0 && first % per == 0 && c < num
    ensures OfTable(BlockOf(first, per, c), first / per, Cover(num, per))
  {
    DivAdd(first, c, per);
    CoverHolds(num, per);
    assert c == c / per * per + c % per;
    if c / per >= Cover(num, per) {
      MulAtMost(Cover(num, per), c / per, per);
    }
  }

  /** Pigeonhole: as many slots as the table has blocks are all that can be held, and they come first. */
  lemma HeldFit(slots: seq<Entry>, from: nat, total: nat)
    requires NoTwice(slots) && Packed(slots) && InTable(slots, from, total)
    ensures forall k :: total <= k < |slots| ==> slots[k].Empty?
    ensures total <= |slots| ==> forall x: nat :: !Holds(slots[total..], x)
  {
    if total < |slots| && slots[total].Held? {
      var p := seq(total + 1, i requires 0 <= i <= total => if slots[i].Held? then slots[i].blk else 0);
      forall i | 0 <= i <= total ensures slots[i].Held? && from <= p[i] < from + total {
        assert slots[i] in slots;
        assert Holds(slots, slots[i].blk);
      }
      DistinctCount(p);
      assert Elements(p) <= Between(from, from + total);
      SubsetCount(Elements(p), Between(from, from + total));
      assert false;
    }
  }

  // The blocks of the table all lie on the device.
  lemma LastBlock(device: seq<Block>, pool: map<nat, Block>, wide: bool, per: nat, first: nat, t: Table)
    requires per > 0 && first % per == 0 && Shown(device, pool, wide, per, first, t)
    ensures first / per + Cover(|t|, per) <= |device|
  {
    var c: nat := |t| - 1;
    assert ShownAt(device, pool, wide, per, first, t, c);
    DivAdd(first, c, per);
    DivAdd(per, c, per);
    assert |t| + per - 1 == per + c;
  }

  lemma BurstRoom(done: nat, total: nat, i: nat, num: nat, per: nat)
    requires per > 0 && total == Cover(num, per) && done * per <= i < num && done <= total
    ensures done < total
  {
    CoverHolds(num, per);
  }

  lemma MaxGrows(done: nat, n: nat, per: nat)
    ensures done * per + per * n == (done + n) * per
    ensures n >= 1 ==> done * per + per <= (done + n) * per
  {
    if n >= 1 {
      MulStep(done, done + n, per);
    }
  }

  // The word read next lies in a block that was read in a burst.
  lemma InBurst(first: nat, per: nat, i: nat, done: nat)
    requires per > 0 && first % per == 0 && i < done * per
    ensures BlockOf(first, per, i) < first / per + done
  {
    DivAdd(first, i, per);
    assert i == i / per * per + i % per;
    if i / per >= done {
      if i / per > done {
        MulStep(done, i / per, per);
      }
    }
  }

  lemma TailOf(slots: seq<Entry>, n: nat)
    requires n <= |slots|
    ensures forall x: nat :: Holds(slots[n..], x) ==> Holds(slots, x)
    ensures n == |slots| ==> forall x: nat :: !Holds(slots[n..], x)
  {
    assert forall s :: s in slots[n..] ==> s in slots;
  }

  // The slots behind the first n hold only blocks before `start`.
  ghost predicate BehindBefore(slots: seq<Entry>, n: nat, start: nat)
    requires n <= |slots|
  {
    forall x: nat :: Holds(slots[n..], x) ==> x < start
  }

  lemma TailHolds(was: seq<Entry>, slots: seq<Entry>, start: nat, n: nat)
    requires n <= |was| && slots == seq(n, i requires 0 <= i < n => Held(start + i, false)) + was[n..]
    ensures forall x: nat :: Holds(slots, x) ==> start <= x < start + n || Holds(was[n..], x)
    ensures forall x: nat :: Holds(was[n..], x) ==> Holds(was, x)
  {
    var head := seq(n, i requires 0 <= i < n => Held(start + i, false));
    assert forall s :: s in slots ==> s in head || s in was[n..];
    assert forall s :: s in was[n..] ==> s in was;
    assert forall s :: s in head ==> s.Held? && start <= s.blk < start + n;
  }

  class FatCache {
    var device: seq<Block>
    var pool: map<nat, Block>
    var slots: seq<Entry>
    const wide: bool
    const per: nat
    const first: nat
    const num: nat
    ghost var table: Table

    ghost predicate Valid()
      reads this
    {
      && per >= MIN_WORDS && first % per == 0 && |slots| > 0 && FitsWidth(wide, num) && num == |table|
      && Coherent(device, pool, slots) && Packed(slots) && InTable(slots, first / per, Cover(num, per))
      && BlocksOk(device, pool, wide, per) && Shown(device, pool, wide, per, first, table)
    }

    constructor (device: seq<Block>, size: nat, wide: bool, per: nat, first: nat, num: nat, ghost t: Table)
      requires per >= MIN_WORDS && first % per == 0 && size > 0 && num == |t| && FitsWidth(wide, num)
      requires BlocksOk(device, map[], wide, per) && Shown(device, map[], wide, per, first, t)
      ensures Valid() && table == t && NoTwice(slots) && forall s :: s in slots ==> s.Empty?
      ensures this.device == device && this.wide == wide && this.per == per && this.first == first && |slots| == size
    {
      this.device, pool, slots := device, map[], seq(size, _ => Empty);
      this.wide, this.per, this.first, this.num := wide, per, first, num;
      table := t;
      new;
      FreshTwice(slots);
    }

    // The stored word of cluster c, from the buffer that holds it or from the device.
    ghost function WordAt(c: nat): (w: nat)
      reads this
      requires Valid() && c < num
      ensures w < WordLimit(wide)
    {
      assert ShownAt(device, pool, wide, per, first, table, c);
      Buf(device, pool, BlockOf(first, per, c))[IndexOf(first, per, c)]
    }

    // Marks every dirty block for writing.
    method Sync()
      requires Valid()
      modifies `device, `slots
      ensures Valid() && Flushed(old(slots), slots) && SameBufs(old(device), pool, device, pool)
      ensures forall s :: s in slots ==> !Dirty(s)
      ensures forall b :: 0 <= b < |device| ==> device[b] == Buf(device, pool, b)
      ensures forall b :: Holds(slots, b) <==> Holds(old(slots), b)
      ensures NoTwice(old(slots)) ==> NoTwice(slots)
    {
      hide Shown, BlocksOk;
      var i := 0;
      while i < |slots|
        invariant 0 <= i <= |slots| == |old(slots)| && |device| == |old(device)|
        invariant Coherent(device, pool, slots) && SameBufs(old(device), pool, device, pool)
        invariant forall j :: 0 <= j < |slots| ==>
                    slots[j] == if j < i && Dirty(old(slots)[j]) then Held(old(slots)[j].blk, false) else old(slots)[j]
      {
        if Dirty(slots[i]) {
          Mark(device, pool, slots, i);
          var b := slots[i].blk;
          device, slots := device[b := pool[b]], slots[i := Held(b, false)];
        }
        i := i + 1;
      }
      BlocksSame(old(device), pool, device, pool, wide, per, first, table);
      SameHeld(old(slots), slots);
    }

    // The last slot that is not dirty, or none.
    method FindVictim() returns (p: int)
      ensures p == -1 || (0 <= p && LastClean(slots, p))
      ensures p == -1 ==> forall s :: s in slots ==> Dirty(s)
    {
      p := |slots| - 1;
      while p >= 0 && Dirty(slots[p])
        invariant -1 <= p < |slots|
        invariant forall j :: p < j < |slots| ==> Dirty(slots[j])
      {
        p := p - 1;
      }
    }

    // Reads a block into the slot that was not used for longest; the cache is written out first if all are dirty.
    method AddEntry(b: nat)
      requires Valid() && b < |device| && !Holds(slots, b) && OfTable(b, first / per, Cover(num, per))
      modifies `device, `pool, `slots
      ensures Valid() && |slots| == |old(slots)| && slots[0] == Held(b, false)
      ensures Added(old(slots), slots, b)
      ensures (exists s :: s in old(slots) && !Dirty(s)) ==> device == old(device)
      ensures SameBufs(old(device), old(pool), device, pool)
      ensures forall x :: Holds(slots, x) ==> x == b || Holds(old(slots), x)
      ensures NoTwice(old(slots)) ==> NoTwice(slots)
    {
      hide Shown, BlocksOk, Coherent, Packed, NoTwice;
      var p := FindVictim();
      if p < 0 {
        Sync();
        assert slots[|slots| - 1] in slots;
        p := FindVictim();
      }
      Replace(p, b);
    }

    method Replace(p: nat, b: nat)
      requires Valid() && b < |device| && !Holds(slots, b) && p < |slots| && !Dirty(slots[p])
      requires OfTable(b, first / per, Cover(num, per))
      modifies `pool, `slots
      ensures Valid() && slots == [Held(b, false)] + Others(old(slots), p)
      ensures SameBufs(device, old(pool), device, pool)
      ensures forall x :: Holds(slots, x) ==> x == b || Holds(old(slots), x)
      ensures NoTwice(old(slots)) ==> NoTwice(slots)
    {
      hide Shown, BlocksOk, Coherent, Packed, NoTwice;
      Evict(device, pool, slots, p);
      ghost var before, q := slots, pool;
      slots := slots[p := Empty];
      pool := Referenced(pool, slots);
      Fill(device, pool, slots, p, b);
      pool := pool[b := Buf(device, pool, b)];
      slots := slots[p := Held(b, false)];
      assert slots == before[p := Held(b, false)];
      Replaced(before, p, b);
      HeadKeeps(device, pool, slots, p);
      slots := ToHead(slots, p);
      BlocksSame(device, q, device, pool, wide, per, first, table);
    }

    // Finds the buffer of a block; the search stops at the first unassigned slot.
    method GetEntry(b: nat)
      requires Valid() && b < |device| && OfTable(b, first / per, Cover(num, per))
      modifies `device, `pool, `slots
      ensures Valid() && |slots| == |old(slots)| && slots[0].Held? && slots[0].blk == b
      ensures Fetched(old(slots), slots, b)
      ensures SameBufs(old(device), old(pool), device, pool)
      ensures forall x :: Holds(slots, x) ==> x == b || Holds(old(slots), x)
      ensures NoTwice(old(slots)) ==> NoTwice(slots)
    {
      hide Shown, BlocksOk, Coherent, NoTwice, Fetched, Added, ToHead;
      var i := 0;
      while i < |slots|
        invariant 0 <= i <= |slots|
        invariant forall j :: 0 <= j < i ==> slots[j].Held? && slots[j].blk != b
      {
        if slots[i].Held? && slots[i].blk == b {
          FetchedHere(slots, b, i);
          OthersPacked(slots, i);
          HeadKeeps(device, pool, slots, i);
          slots := ToHead(slots, i);
          return;
        }
        if slots[i].Empty? {
          break;
        }
        i := i + 1;
      }
      ghost var was := slots;
      AddEntry(b);
      FetchedNew(was, slots, b);
    }

    // The first slot of the list that holds the block becomes dirty.
    method SetModify(b: nat)
      modifies `slots
      ensures Touched(old(slots), slots, b)
      ensures Holds(old(slots), b) ==> Held(b, true) in slots
      ensures forall s :: s in slots ==> s == Held(b, true) || s in old(slots)
      ensures forall s :: s in old(slots) && s != Held(b, false) ==> s in slots
      ensures SameBlocks(old(slots), slots)
    {
      var i := 0;
      while i < |slots|
        invariant 0 <= i <= |slots|
        invariant forall j :: 0 <= j < i ==> !(slots[j].Held? && slots[j].blk == b)
      {
        if slots[i].Held? && slots[i].blk == b {
          UpdateIn(slots, i, Held(b, true));
          slots := slots[i := Held(b, true)];
          return;
        }
        i := i + 1;
      }
    }

    /** Reads an entry of the table. */
    method Read(c: nat) returns (r: Result<nat>)
      requires Valid()
      modifies `device, `pool, `slots
      ensures Valid() && table == old(table) && |slots| == |old(slots)|
      ensures r == FatRead(table, c)
      ensures VALID_CLU <= c < num ==> ReadsAs(wide, WordAt(c), num, r)
      ensures if VALID_CLU <= c < num then Fetched(old(slots), slots, BlockOf(first, per, c))
              else slots == old(slots) && pool == old(pool) && device == old(device)
      ensures SameBufs(old(device), old(pool), device, pool)
      ensures forall x :: Holds(slots, x) ==> x == BlockOf(first, per, c) || Holds(old(slots), x)
      ensures NoTwice(old(slots)) ==> NoTwice(slots)
    {
      hide Coherent, NoTwice, BlocksOk, Decode, BlockOf, IndexOf, Shown, Fetched;
      if !(VALID_CLU <= c < num) {
        return Err(EINVAL);
      }
      var b := BlockOf(first, per, c);
      ReadsShown(device, pool, wide, per, first, table, c);
      BlockInTable(first, per, num, c);
      GetEntry(b);
      ReadsShown(device, pool, wide, per, first, table, c);
      DecodeReads(wide, WordAt(c), table);
      var content := Decode(wide, Buf(device, pool, b)[IndexOf(first, per, c)]);
      if content != CLU_FREE && content != CLU_TAIL && !(VALID_CLU <= content < num) {
        return Err(EIO);
      }
      return Ok(content);
    }

    /** Writes an entry of the table; every other word, and the top four bits of this one, stay as they are. */
    method Write(c: nat, v: nat) returns (r: Result<()>)
      requires Valid()
      modifies `device, `pool, `slots, `table
      ensures Valid() && |slots| == |old(slots)|
      ensures match FatWrite(old(table), c, v) {
                case Ok(t) => r == Ok(()) && table == t
                case Err(e) => r == Err(e) && table == old(table)
              }
      ensures r.Err? ==> device == old(device) && pool == old(pool) && slots == old(slots)
      ensures r.Ok? ==> Rewritten(old(slots), slots, BlockOf(first, per, c))
      ensures r.Ok? ==>
                OnlyWord(old(device), old(pool), device, pool, wide, BlockOf(first, per, c), IndexOf(first, per, c), v)
      ensures NoTwice(old(slots)) ==> NoTwice(slots)
    {
      hide Coherent, Packed, NoTwice, Decode, Encode, BlockOf, IndexOf, Shown, BlocksOk, OnlyWord, SameBufs,
           SetWord, SameBlocks, Fetched, Rewritten, Touched;
      if !(VALID_CLU <= c < num) {
        return Err(EINVAL);
      }
      if v != CLU_FREE && v != CLU_TAIL && !(VALID_CLU <= v < num) {
        return Err(EIO);
      }
      var b, i := BlockOf(first, per, c), IndexOf(first, per, c);
      ReadsShown(device, pool, wide, per, first, table, c);
      BlockInTable(first, per, num, c);
      GetEntry(b);
      ghost var d, p, t := device, pool, table;
      HeldHas(device, pool, slots);
      WriteShows(device, pool, wide, per, first, table, c, v);
      DecodeEncode(wide, pool[b][i], table, v);
      OneWord(old(device), old(pool), device, pool, wide, b, i, v, Encode(wide, pool[b][i], v));
      pool := pool[b := SetWord(pool[b], i, Encode(wide, pool[b][i], v))];
      table := table[c := v];
      ghost var was := slots;
      SetModify(b);
      HeadTouched(old(slots), was, slots, b);
      SameHeld(was, slots);
      Dirtied(d, p, pool, was, slots, b);
      return Ok(());
    }

    // Gives up one of the slots a burst read is about to take.
    method Release(i: nat)
      requires Coherent(device, pool, slots) && i < |slots|
      modifies `device, `pool, `slots
      ensures Coherent(device, pool, slots) && slots == old(slots)[i := Empty]
      ensures !Dirty(old(slots)[i]) ==> device == old(device)
      ensures SameBufs(old(device), old(pool), device, pool)
    {
      hide Coherent, SameBufs;
      if slots[i].Empty? {
        assert slots == slots[i := Empty];
        SameSelf(device, pool);
        return;
      }
      ghost var d, before := device, slots;
      if slots[i].dirty {
        Mark(device, pool, slots, i);
        var b := slots[i].blk;
        device, slots := device[b := pool[b]], slots[i := Held(b, false)];
      } else {
        SameSelf(device, pool);
      }
      Evict(device, pool, slots, i);
      ghost var p := pool;
      slots := slots[i := Empty];
      pool := Referenced(pool, slots);
      assert slots == before[i := Empty];
      SameTwice(d, p, device, p, device, pool);
    }

    /** Reads consecutive blocks of the table into the slots at the head of the list. Afterwards
        no block is held twice exactly when no slot further back held one of them already. */
    method BurstRead(start: nat, count: nat) returns (n: nat)
      requires Valid() && start + (if count < |slots| then count else |slots|) <= |device|
      requires first / per <= start && start + (if count < |slots| then count else |slots|) <= first / per + Cover(num, per)
      modifies `device, `pool, `slots
      ensures Valid() && n == (if count < |old(slots)| then count else |old(slots)|)
      ensures slots == seq(n, i requires 0 <= i < n => Held(start + i, false)) + old(slots)[n..]
      ensures SameBufs(old(device), old(pool), device, pool)
      ensures NoTwice(old(slots)) ==>
                (NoTwice(slots) <==> forall b :: start <= b < start + n ==> !Holds(old(slots)[n..], b))
    {
      hide Coherent, SameBufs, Shown, BlocksOk, Holds, NoTwice, Packed;
      n := if count > |slots| then |slots| else count;
      ghost var was, d, p := slots, device, pool;
      SameSelf(device, pool);
      var i := 0;
      while i < n
        invariant 0 <= i <= n <= |slots| == |was|
        invariant Coherent(device, pool, slots) && SameBufs(d, p, device, pool)
        invariant forall j :: 0 <= j < |slots| ==> slots[j] == if j < i then Empty else was[j]
      {
        ghost var e, q := device, pool;
        Release(i);
        SameTwice(d, p, e, q, device, pool);
        i := i + 1;
      }
      SameLength(d, p, device, pool);
      i := 0;
      while i < n
        invariant 0 <= i <= n <= |slots| == |was| && start + n <= |device|
        invariant Coherent(device, pool, slots) && SameBufs(d, p, device, pool)
        invariant forall j :: 0 <= j < |slots| ==>
                    slots[j] == if j < i then Held(start + j, false) else if j < n then Empty else was[j]
      {
        ghost var q := pool;
        Fill(device, pool, slots, i, start + i);
        pool := pool[start + i := Buf(device, pool, start + i)];
        slots := slots[i := Held(start + i, false)];
        SameTwice(d, p, device, q, device, pool);
        i := i + 1;
      }
      BlocksSame(d, p, device, pool, wide, per, first, table);
      BurstShape(was, slots, start, n);
      TailHolds(was, slots, start, n);
    }

    // One burst of the count; what stays cached behind the slots it takes lies before it.
    method NextBurst(start: nat, left: nat) returns (n: nat)
      requires Valid() && NoTwice(slots) && left > 0 && start + left <= |device|
      requires first / per <= start && start + left <= first / per + Cover(num, per)
      requires BehindBefore(slots, if left > |slots| then |slots| else left, start)
      modifies `device, `pool, `slots
      ensures Valid() && NoTwice(slots) && |slots| == |old(slots)| && 1 <= n <= left
      ensures SameBufs(old(device), old(pool), device, pool)
      ensures forall x: nat :: Holds(slots, x) ==> x < start + n
    {
      hide Coherent, SameBufs, Shown, BlocksOk, NoTwice, Packed, Holds;
      ghost var was := slots;
      n := BurstRead(start, if left > |slots| then |slots| else left);
      TailHolds(was, slots, start, n);
    }

    /** Counts the clusters in use at mount time, one burst of blocks after the other. The log
        was replayed through the same cache before: the first burst takes every slot that
        holds a block, so no block is held twice. */
    method CountUsed() returns (r: Result<nat>)
      requires Valid() && NoTwice(slots)
      modifies `device, `pool, `slots
      ensures Valid() && NoTwice(slots) && SameBufs(old(device), old(pool), device, pool)
      ensures r == if forall c :: VALID_CLU <= c < |table| ==> ValidContent(table, table[c])
                   then Ok(VALID_CLU + |UsedBelow(table, |table|)|) else Err(EIO)
    {
      hide Coherent, SameBufs, Shown, BlocksOk, NoTwice, Packed, BlockOf, UsedBelow, Fetched;
      var count, size := VALID_CLU, |slots|;
      var start, left, max := first / per, Cover(num, per), 0;
      ghost var done, d, p := 0, device, pool;
      ghost var total := left;
      LastBlock(device, pool, wide, per, first, table);
      HeldFit(slots, start, left);
      SameSelf(device, pool);
      assert UsedBelow(table, VALID_CLU) == {} by { NoneBelow(table); }
      var i := VALID_CLU;
      while i < num
        invariant VALID_CLU <= i <= num && Valid() && |slots| == size
        invariant start == first / per + done && left == total - done && max == done * per && done <= total
        invariant i <= max || (i == VALID_CLU && max == 0)
        invariant NoTwice(slots) && SameBufs(d, p, device, pool)
        invariant if done == 0 then left <= |slots| ==> forall x: nat :: !Holds(slots[left..], x)
                  else forall x: nat :: Holds(slots, x) ==> x < start
        invariant done == 0 ==> i == VALID_CLU
        invariant count == VALID_CLU + |UsedBelow(table, i)|
        invariant forall c :: VALID_CLU <= c < i ==> ValidContent(table, table[c])
      {
        if i >= max {
          BurstRoom(done, total, i, num, per);
          SameLength(d, p, device, pool);
          ghost var e, q := device, pool;
          TailOf(slots, if left > |slots| then |slots| else left);
          var n := NextBurst(start, left);
          SameTwice(d, p, e, q, device, pool);
          left, start := left - n, start + n;
          MaxGrows(done, n, per);
          max := max + per * n;
          done := done + n;
        }
        ghost var e, q := device, pool;
        InBurst(first, per, i, done);
        UsedNext(table, i);
        var content := Read(i);
        SameTwice(d, p, e, q, device, pool);
        if content.Err? {
          return Err(content.error);
        }
        if content.value != CLU_FREE {
          count := count + 1;
        }
        i := i + 1;
      }
      return Ok(count);
    }
  }

  /** Without that condition a burst does leave a block twice: two blocks are read into two
      slots, and then the second one again into the first. */
  method BurstTwice() returns (c: FatCache)
    ensures fresh(c) && c.Valid() && !NoTwice(c.slots)
  {
    var device: seq<Block> := seq(2, _ => seq(128, _ => 0));
    var t: Table := seq(200, _ => 0);
    assert forall k :: 0 <= k < 200 ==> ShownAt(device, map[], false, 128, 0, t, k);
    c := new FatCache(device, 2, false, 128, 0, 200, t);
    var n := c.BurstRead(0, 2);
    SameLength(device, map[], c.device, c.pool);
    n := c.BurstRead(1, 1);
    assert c.slots[0] == c.slots[1] == Held(1, false);
  }
}
