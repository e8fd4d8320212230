/** Extended attributes: an append-only area of entries behind a head, searched
    from the front. It is proved to hold a finite map from (namespace, name) to
    value through every set and delete. */
module Xattr {
  import opened Results
  import opened Arith
  import opened Bytes

  const HEADER: nat := 64
  const HEAD: nat := 32
  const MAX_ENTRIES: nat := 128
  const THRESHOLD: nat := 0x2_0000
  const NAME_MAX: nat := 255
  const VALUE_MAX: nat := 0x1_0000

  const HEAD_SIGNATURE: nat := 0x1097

  const USED: byte := 1
  const DELETED: byte := 2
  const SIGNATURE: nat := 0xA5A5
  const NO_CRC: nat := 0xFFFE

  const CREATE: nat := 1
  const REPLACE: nat := 2

  // ----- entries

  datatype Entry = Entry(used: bool, ns: byte, name: seq<byte>, value: seq<byte>)

  datatype Head = Head(flag: byte, ns: byte, nameLen: nat, valueLen: nat, entryLen: nat)

  function Pad(n: nat): nat {
    (n + 31) / 32 * 32
  }

  function Length(e: Entry): (n: nat)
    ensures HEAD + |e.name| + |e.value| <= n < HEAD + |e.name| + |e.value| + 32 && n % 32 == 0
  {
    HEAD + Pad(|e.name| + |e.value|)
  }

  predicate Small(e: Entry) {
    1 <= e.ns <= 5 && |e.name| <= NAME_MAX && |e.value| <= VALUE_MAX
  }

  function HeadOf(e: Entry): Head {
    Head(if e.used then USED else DELETED, e.ns, |e.name|, |e.value|, Length(e))
  }

  const RESERVED: seq<byte> :=
    [0x77, 0x77, 0x77, 0x77, 0x77, 0x77, 0x77, 0x77, 0x77, 0x77, 0x77, 0x77, 0x77, 0x77, 0x77, 0x77]

  predicate Encodable(h: Head) {
    h.nameLen < 0x1_0000 && h.valueLen < 0x1_0000_0000 && h.entryLen < 0x1_0000_0000
  }

  function EncodeHead(h: Head): (b: seq<byte>)
    requires Encodable(h)
    ensures |b| == HEAD
  {
    [h.flag, h.ns] + Word16(h.nameLen) + Word32(h.valueLen) + Word32(h.entryLen) + Word16(NO_CRC) + RESERVED
    + Word16(SIGNATURE)
  }

  function DecodeHead(b: seq<byte>): Result<Head>
    requires |b| == HEAD
  {
    if Get16(b[30..32]) != SIGNATURE then Err(EIO)
    else Ok(Head(b[0], b[1], Get16(b[2..4]), Get32(b[4..8]), Get32(b[8..12])))
  }

  lemma HeadRoundTrip(h: Head)
    requires Encodable(h)
    ensures DecodeHead(EncodeHead(h)) == Ok(h)
  {
    var b := EncodeHead(h);
    assert b[2..4] == Word16(h.nameLen) && b[4..8] == Word32(h.valueLen) && b[8..12] == Word32(h.entryLen);
    assert b[30..32] == Word16(SIGNATURE);
    WordRoundTrip(h.nameLen);
    WordRoundTrip(h.valueLen);
    WordRoundTrip(h.entryLen);
    WordRoundTrip(SIGNATURE);
  }

  /** Which bytes of an entry's head hold what. */
  lemma HeadLayout(h: Head)
    requires Encodable(h)
    ensures var b := EncodeHead(h);
            && b[0] == h.flag && b[1] == h.ns && b[2..4] == Word16(h.nameLen) && b[4..8] == Word32(h.valueLen)
            && b[8..12] == Word32(h.entryLen) && b[12..14] == [0xFE, 0xFF] && b[30..32] == [0xA5, 0xA5]
            && forall i :: 14 <= i < 30 ==> b[i] == 0x77
  {
    hide Word32;
    var b := EncodeHead(h);
    assert b[12..14] == Word16(NO_CRC) && b[30..32] == Word16(SIGNATURE);
    assert b[14..30] == RESERVED;
    forall i | 14 <= i < 30 ensures b[i] == 0x77 {
      assert b[i] == RESERVED[i - 14];
    }
  }

  // What an entry looks like in the area; the padding may hold anything.
  function Image(e: Entry): (b: seq<byte>)
    requires Small(e)
    ensures |b| == HEAD + |e.name| + |e.value| <= Length(e)
  {
    EncodeHead(HeadOf(e)) + e.name + e.value
  }

  // ----- the list of entries

  // Where entry j starts.
  function Off(entries: seq<Entry>, j: nat): (n: nat)
    requires j <= |entries|
    ensures HEADER <= n && n % 32 == 0
  {
    if j == 0 then HEADER else Off(entries, j - 1) + Length(entries[j - 1])
  }

  lemma {:induction false} OffMono(entries: seq<Entry>, i: nat, j: nat)
    requires i < j <= |entries|
    ensures Off(entries, i) + Length(entries[i]) <= Off(entries, j)
  {
    if i < j - 1 {
      OffMono(entries, i, j - 1);
    }
  }

  lemma {:induction false} OffSame(a: seq<Entry>, b: seq<Entry>, j: nat)
    requires j <= |a| && j <= |b| && forall i :: 0 <= i < j ==> Length(a[i]) == Length(b[i])
    ensures Off(a, j) == Off(b, j)
  {
    if j > 0 {
      OffSame(a, b, j - 1);
    }
  }

  function Live(entries: seq<Entry>): nat {
    if entries == [] then 0
    else Live(entries[..|entries| - 1]) + if entries[|entries| - 1].used then 1 else 0
  }

  function Space(entries: seq<Entry>): nat {
    if entries == [] then 0
    else
      var e := entries[|entries| - 1];
      Space(entries[..|entries| - 1]) + if e.used then Length(e) else 0
  }

  /** The map the entries stand for. */
  function Map(entries: seq<Entry>): map<(byte, seq<byte>), seq<byte>> {
    if entries == [] then map[]
    else
      var e := entries[|entries| - 1];
      if e.used then Map(entries[..|entries| - 1])[(e.ns, e.name) := e.value] else Map(entries[..|entries| - 1])
  }

  predicate KeyAt(entries: seq<Entry>, j: int, ns: byte, name: seq<byte>) {
    0 <= j < |entries| && entries[j].used && entries[j].ns == ns && entries[j].name == name
  }

  lemma KeyIs(entries: seq<Entry>, j: int, ns: byte, name: seq<byte>)
    requires KeyAt(entries, j, ns, name)
    ensures 0 <= j < |entries| && entries[j].used && entries[j].ns == ns && entries[j].name == name
  {
  }

  ghost predicate DistinctKeys(entries: seq<Entry>) {
    forall i, j, ns: byte, name :: KeyAt(entries, i, ns, name) && KeyAt(entries, j, ns, name) ==> i == j
  }

  lemma {:induction false} MapHas(entries: seq<Entry>, ns: byte, name: seq<byte>)
    requires DistinctKeys(entries)
    ensures (ns, name) in Map(entries) <==> exists j :: KeyAt(entries, j, ns, name)
    ensures forall j :: KeyAt(entries, j, ns, name) ==> (ns, name) in Map(entries) && Map(entries)[(ns, name)] == entries[j].value
  {
    if entries != [] {
      var k := |entries| - 1;
      var rest := entries[..k];
      assert forall j, s: byte, m :: KeyAt(rest, j, s, m) ==> KeyAt(entries, j, s, m);
      MapHas(rest, ns, name);
      assert forall j :: KeyAt(entries, j, ns, name) ==> j == k || KeyAt(rest, j, ns, name);
      if KeyAt(entries, k, ns, name) {
        assert forall j :: KeyAt(rest, j, ns, name) ==> KeyAt(entries, j, ns, name);
      }
    }
  }

  // The number of keys of the map is the number of used entries.
  lemma {:induction false} MapSize(entries: seq<Entry>)
    requires DistinctKeys(entries)
    ensures |Map(entries)| == Live(entries)
  {
    if entries != [] {
      var k := |entries| - 1;
      var rest, e := entries[..k], entries[k];
      assert forall j, s: byte, m :: KeyAt(rest, j, s, m) ==> KeyAt(entries, j, s, m);
      MapSize(rest);
      if e.used {
        MapHas(rest, e.ns, e.name);
        assert KeyAt(entries, k, e.ns, e.name);
        assert (e.ns, e.name) !in Map(rest);
        assert Map(entries).Keys == Map(rest).Keys + {(e.ns, e.name)};
      }
    }
  }

  // ----- changing the list

  lemma {:induction false} Changed(entries: seq<Entry>, j: nat, e: Entry)
    requires j < |entries|
    ensures var was := entries[j];
            && Live(entries[j := e]) + (if was.used then 1 else 0) == Live(entries) + (if e.used then 1 else 0)
            && Space(entries[j := e]) + (if was.used then Length(was) else 0)
               == Space(entries) + (if e.used then Length(e) else 0)
  {
    var k := |entries| - 1;
    if j < k {
      Changed(entries[..k], j, e);
      assert entries[j := e][..k] == entries[..k][j := e];
    } else {
      assert entries[j := e][..k] == entries[..k];
    }
  }

  lemma Added(entries: seq<Entry>, e: Entry)
    ensures var all := entries + [e];
            && Live(all) == Live(entries) + (if e.used then 1 else 0)
            && Space(all) == Space(entries) + (if e.used then Length(e) else 0)
            && Off(all, |entries|) == Off(entries, |entries|)
  {
    assert (entries + [e])[..|entries|] == entries;
    OffSame(entries, entries + [e], |entries|);
  }

  // The map is determined by who has which key.
  lemma {:induction false} MapIs(entries: seq<Entry>, m: map<(byte, seq<byte>), seq<byte>>)
    requires DistinctKeys(entries)
    requires forall k :: k in m <==> exists j :: KeyAt(entries, j, k.0, k.1)
    requires forall j, ns: byte, name :: KeyAt(entries, j, ns, name) ==> (ns, name) in m && m[(ns, name)] == entries[j].value
    ensures Map(entries) == m
  {
    forall k | k in m || k in Map(entries)
      ensures k in m && k in Map(entries) && m[k] == Map(entries)[k]
    {
      MapHas(entries, k.0, k.1);
      var j :| KeyAt(entries, j, k.0, k.1);
    }
  }

  /** Marking an entry as deleted takes its key out of the map. */
  lemma {:induction false} DeletedMap(entries: seq<Entry>, j: nat)
    requires DistinctKeys(entries) && j < |entries| && entries[j].used
    ensures var e := entries[j];
            var after := entries[j := e.(used := false)];
            DistinctKeys(after) && Map(after) == Map(entries) - {(e.ns, e.name)}
            && forall i :: !KeyAt(after, i, e.ns, e.name)
  {
    var e := entries[j];
    var after := entries[j := e.(used := false)];
    assert forall i, ns: byte, name :: KeyAt(after, i, ns, name) <==> KeyAt(entries, i, ns, name) && i != j;
    assert KeyAt(entries, j, e.ns, e.name);
    forall k ensures k in Map(entries) - {(e.ns, e.name)} <==> exists i :: KeyAt(after, i, k.0, k.1) {
      MapHas(entries, k.0, k.1);
      if k in Map(entries) && k != (e.ns, e.name) {
        var i :| KeyAt(entries, i, k.0, k.1);
        assert KeyAt(after, i, k.0, k.1);
      }
    }
    forall i, ns: byte, name | KeyAt(after, i, ns, name)
      ensures (ns, name) in Map(entries) - {(e.ns, e.name)} && (Map(entries) - {(e.ns, e.name)})[(ns, name)] == after[i].value
    {
      MapHas(entries, ns, name);
      assert KeyAt(entries, i, ns, name);
    }
    MapIs(after, Map(entries) - {(e.ns, e.name)});
  }

  /** Putting a new entry in place of a deleted one, or behind the last one, sets the key. */
  lemma {:induction false} PlacedMap(entries: seq<Entry>, j: nat, e: Entry)
    requires DistinctKeys(entries) && j <= |entries| && e.used && (j < |entries| ==> !entries[j].used)
    requires forall i :: !KeyAt(entries, i, e.ns, e.name)
    ensures var after := if j < |entries| then entries[j := e] else entries + [e];
            DistinctKeys(after) && Map(after) == Map(entries)[(e.ns, e.name) := e.value]
  {
    var after := if j < |entries| then entries[j := e] else entries + [e];
    assert forall i, ns: byte, name :: KeyAt(after, i, ns, name) <==>
             KeyAt(entries, i, ns, name) || (i == j && ns == e.ns && name == e.name);
    var m := Map(entries)[(e.ns, e.name) := e.value];
    forall k ensures k in m <==> exists i :: KeyAt(after, i, k.0, k.1) {
      MapHas(entries, k.0, k.1);
      if k == (e.ns, e.name) {
        assert KeyAt(after, j, k.0, k.1);
      } else if k in Map(entries) {
        var i :| KeyAt(entries, i, k.0, k.1);
        assert KeyAt(after, i, k.0, k.1);
      }
    }
    forall i, ns: byte, name | KeyAt(after, i, ns, name) ensures (ns, name) in m && m[(ns, name)] == after[i].value {
      MapHas(entries, ns, name);
    }
    MapIs(after, m);
  }

  // Deleted entries behind the last used one are never looked at again.
  function Trim(entries: seq<Entry>): (r: seq<Entry>)
    ensures |r| <= |entries| && r == entries[..|r|] && (r != [] ==> r[|r| - 1].used)
    ensures forall i :: |r| <= i < |entries| ==> !entries[i].used
    ensures Live(r) == Live(entries) && Space(r) == Space(entries) && Map(r) == Map(entries)
  {
    if entries == [] || entries[|entries| - 1].used then entries else Trim(entries[..|entries| - 1])
  }

  lemma {:induction false} LiveZero(entries: seq<Entry>)
    ensures Live(entries) == 0 <==> forall i :: 0 <= i < |entries| ==> !entries[i].used
    ensures Live(entries) <= |entries|
  {
    if entries != [] {
      LiveZero(entries[..|entries| - 1]);
      assert entries[..|entries| - 1][..] == entries[..|entries| - 1];
    }
  }

  // How many entries from the i-th on are in use.
  function LiveFrom(entries: seq<Entry>, i: nat): nat
    requires i <= |entries|
  {
    Live(entries[i..])
  }

  lemma {:induction false} LiveSplit(entries: seq<Entry>, i: nat)
    requires i < |entries|
    ensures LiveFrom(entries, i) == (if entries[i].used then 1 else 0) + LiveFrom(entries, i + 1)
    decreases |entries| - i
  {
    LiveSuffix(entries[i..]);
    assert entries[i..][1..] == entries[i + 1..];
  }

  lemma {:induction false} LiveSuffix(s: seq<Entry>)
    requires s != []
    ensures Live(s) == (if s[0].used then 1 else 0) + Live(s[1..])
  {
    if |s| > 1 {
      var k := |s| - 1;
      LiveSuffix(s[..k]);
      assert s[..k][1..] == s[1..][..k - 1];
    } else {
      assert s[1..] == [] && s[..0] == [];
    }
  }

  // ----- the area

  predicate Tile(area: seq<byte>, entries: seq<Entry>, j: int) {
    0 <= j < |entries| ==> Small(entries[j]) && At(area, Off(entries, j), Image(entries[j]))
  }

  /** The entries lie one behind the other from the header on. */
  ghost predicate Tiled(area: seq<byte>, entries: seq<Entry>) {
    forall j :: Tile(area, entries, j)
  }

  // Everything outside [p, p + n) is as it was; the area may have grown.
  ghost predicate Kept(was: seq<byte>, area: seq<byte>, p: nat, n: nat) {
    forall q: nat, data :: At(was, q, data) && (q + |data| <= p || p + n <= q) ==> At(area, q, data)
  }

  lemma KeptSelf(area: seq<byte>, p: nat, n: nat)
    ensures Kept(area, area, p, n)
  {
  }

  lemma KeptAt(was: seq<byte>, area: seq<byte>, p: nat, n: nat, q: nat, data: seq<byte>)
    requires Kept(was, area, p, n) && At(was, q, data) && (q + |data| <= p || p + n <= q)
    ensures At(area, q, data)
  {
  }

  lemma KeptTwice(a: seq<byte>, b: seq<byte>, c: seq<byte>, p: nat, m: nat, n: nat)
    requires Kept(a, b, p, m) && Kept(b, c, p + m, n)
    ensures Kept(a, c, p, m + n)
  {
  }

  lemma WriteFits(n: nat, size: nat, clusters: nat)
    requires size > 0 && Cover(n, size) <= clusters
    ensures n <= clusters * size
  {
    CoverHolds(n, size);
    MulAtMost(Cover(n, size), clusters, size);
  }

  lemma WriteKeeps(was: seq<byte>, grown: seq<byte>, p: nat, data: seq<byte>)
    requires |was| <= |grown| && grown[..|was|] == was && p + |data| <= |grown|
    ensures At(Splice(grown, p, data), p, data)
    ensures Kept(was, Splice(grown, p, data), p, |data|)
  {
    SpliceHere(grown, p, data);
    forall q: nat, other | At(was, q, other) && (q + |other| <= p || p + |data| <= q)
      ensures At(Splice(grown, p, data), q, other)
    {
      AtGrows(was, grown, q, other);
      SpliceFar(grown, p, data, q, other);
    }
  }

  // Writing entry j, or one more, keeps all the others.
  lemma TilesKept(was: seq<byte>, area: seq<byte>, entries: seq<Entry>, j: nat, e: Entry)
    requires Tiled(was, entries) && j <= |entries| && (j < |entries| ==> Length(entries[j]) == Length(e))
    requires Small(e) && At(area, Off(entries, j), Image(e)) && Kept(was, area, Off(entries, j), |Image(e)|)
    ensures Tiled(area, if j < |entries| then entries[j := e] else entries + [e])
  {
    var after := if j < |entries| then entries[j := e] else entries + [e];
    forall i ensures Tile(area, after, i) {
      if 0 <= i < |after| {
        OffSame(entries, after, if i < |entries| then i else |entries|);
        if i != j {
          assert Tile(was, entries, i);
          if i < j {
            OffMono(entries, i, j);
          } else {
            OffMono(entries, j, i);
          }
        }
      }
    }
  }

  lemma TilesSurvive(was: seq<byte>, area: seq<byte>, entries: seq<Entry>, p: nat, n: nat)
    requires Tiled(was, entries) && Kept(was, area, p, n)
    requires p + n <= HEADER || p >= Off(entries, |entries|)
    ensures Tiled(area, entries)
  {
    forall i ensures Tile(area, entries, i) {
      if 0 <= i < |entries| {
        assert Tile(was, entries, i);
        OffMono(entries, i, |entries|);
      }
    }
  }

  // An entry and its deleted self differ in the first byte only.
  lemma ImageDeleted(e: Entry)
    requires Small(e) && e.used
    ensures Image(e) == [USED] + Image(e)[1..]
    ensures Image(e.(used := false)) == [DELETED] + Image(e)[1..]
  {
    var h, d := EncodeHead(HeadOf(e)), EncodeHead(HeadOf(e.(used := false)));
    assert h == [USED] + h[1..] && d == [DELETED] + h[1..];
    var rest := h[1..] + e.name + e.value;
    assert Image(e) == [USED] + rest && Image(e.(used := false)) == [DELETED] + rest;
    assert Image(e)[1..] == rest;
  }

  // The one byte that marks an entry as deleted.
  lemma TileDeleted(was: seq<byte>, area: seq<byte>, entries: seq<Entry>, j: nat)
    requires Tiled(was, entries) && j < |entries| && entries[j].used
    requires At(area, Off(entries, j), [DELETED]) && Kept(was, area, Off(entries, j), 1)
    ensures Tiled(area, entries[j := entries[j].(used := false)])
  {
    hide Image, EncodeHead;
    var e := entries[j];
    var p := Off(entries, j);
    assert Tile(was, entries, j);
    ImageDeleted(e);
    var rest := Image(e)[1..];
    AtConcat(was, p, [USED], rest);
    AtConcat(area, p, [DELETED], rest);
    KeptMore(was, area, p, 1, |Image(e)|);
    TilesKept(was, area, entries, j, e.(used := false));
  }

  lemma KeptMore(was: seq<byte>, area: seq<byte>, p: nat, m: nat, n: nat)
    requires Kept(was, area, p, m) && m <= n
    ensures Kept(was, area, p, n)
  {
  }

  lemma TilesTrim(area: seq<byte>, entries: seq<Entry>)
    requires Tiled(area, entries)
    ensures Tiled(area, Trim(entries))
  {
    var r := Trim(entries);
    forall i ensures Tile(area, r, i) {
      assert Tile(area, entries, i);
      if 0 <= i < |r| {
        OffSame(entries, r, i);
      }
    }
  }

  lemma TrimKeys(entries: seq<Entry>)
    requires DistinctKeys(entries)
    ensures DistinctKeys(Trim(entries))
    ensures forall i, ns: byte, name :: KeyAt(Trim(entries), i, ns, name) <==> KeyAt(entries, i, ns, name)
  {
    var r := Trim(entries);
    assert forall i, ns: byte, name :: KeyAt(r, i, ns, name) ==> KeyAt(entries, i, ns, name);
  }

  // ----- the header in front of the entries

  const NO_STAMPS: seq<byte> := [0, 0, 0, 0, 0, 0, 0, 0, 0, 0, 0, 0, 0, 0]

  // The part of the header that is read back; counts behind it are written but never used.
  function Front(valid: nat, total: nat, used: nat): (b: seq<byte>)
    requires valid < 0x1_0000 && total < 0x1_0000_0000 && used < 0x1_0000_0000
    ensures |b| == 28
  {
    Word16(HEAD_SIGNATURE) + NO_STAMPS + Word16(valid) + [0x33, 0x33] + Word32(total) + Word32(used)
  }

  /** Which bytes of the header hold what. */
  lemma FrontLayout(valid: nat, total: nat, used: nat)
    requires valid < 0x1_0000 && total < 0x1_0000_0000 && used < 0x1_0000_0000
    ensures var b := Front(valid, total, used);
            b[0..2] == [0x97, 0x10] && b[16..18] == Word16(valid) && b[20..24] == Word32(total) && b[24..28] == Word32(used)
  {
  }

  datatype Counts = Counts(valid: nat, total: nat, used: nat)

  function DecodeFront(b: seq<byte>): Result<Counts>
    requires |b| >= 28
  {
    if Get16(b[0..2]) != HEAD_SIGNATURE then Err(EIO)
    else Ok(Counts(Get16(b[16..18]), Get32(b[20..24]), Get32(b[24..28])))
  }

  lemma FrontRoundTrip(valid: nat, total: nat, used: nat, rest: seq<byte>)
    requires valid < 0x1_0000 && total < 0x1_0000_0000 && used < 0x1_0000_0000
    ensures DecodeFront(Front(valid, total, used) + rest) == Ok(Counts(valid, total, used))
  {
    var b := Front(valid, total, used) + rest;
    assert b[0..2] == Word16(HEAD_SIGNATURE) && b[16..18] == Word16(valid);
    assert b[20..24] == Word32(total) && b[24..28] == Word32(used);
    WordRoundTrip(HEAD_SIGNATURE);
    WordRoundTrip(valid);
    WordRoundTrip(total);
    WordRoundTrip(used);
  }

  // ----- where a new entry goes

  /** The first deleted entry of exactly this length, or the end of the list. */
  function FreeFrom(entries: seq<Entry>, i: nat, length: nat): (j: nat)
    requires i <= |entries|
    ensures i <= j <= |entries| && (j < |entries| ==> !entries[j].used && Length(entries[j]) == length)
    ensures forall k :: i <= k < j ==> entries[k].used || Length(entries[k]) != length
    decreases |entries| - i
  {
    if i == |entries| || (!entries[i].used && Length(entries[i]) == length) then i
    else FreeFrom(entries, i + 1, length)
  }

  lemma RoundUp(p: nat, image: nat, length: nat, total: nat)
    requires p % 32 == 0 && length % 32 == 0 && total % 32 == 0 && p + image <= total && length < image + 32
    ensures p + length <= total
  {
    assert (total - p - length) % 32 == 0;
  }

  lemma ImageLength(e: Entry)
    requires Small(e)
    ensures |Image(e)| <= Length(e) < |Image(e)| + 32
  {
    hide EncodeHead;
  }

  // The padding behind an entry lies in the area as well.
  lemma SlotFits(area: seq<byte>, entries: seq<Entry>, j: nat, e: Entry, size: nat, clusters: nat)
    requires Tiled(area, entries) && j < |entries| && Length(e) == Length(entries[j]) && Small(e)
    requires size > 0 && size % 32 == 0 && |area| == clusters * size
    ensures Cover(Off(entries, j) + |Image(e)|, size) <= clusters
  {
    hide Image, EncodeHead, Cover, Length;
    var p := Off(entries, j);
    assert Tile(area, entries, j);
    MulMod(clusters, size);
    ImageLength(entries[j]);
    ImageLength(e);
    RoundUp(p, |Image(entries[j])|, Length(e), |area|);
    WithinFits(area, p + |Image(e)|, size, clusters);
  }

  lemma MulMod(x: nat, d: nat)
    requires d % 32 == 0
    ensures x * d % 32 == 0
  {
    var q := d / 32;
    MulThree(x, 32, q);
    var y := x * q;
    assert x * d == 32 * y;
  }

  lemma MulThree(x: int, y: int, z: int)
    ensures x * (y * z) == y * (x * z)
  {
  }

  // ----- what a listing shows

  // The used keys in the order they lie in the area.
  function Keys(entries: seq<Entry>): seq<(byte, seq<byte>)> {
    if entries == [] then []
    else
      var e := entries[|entries| - 1];
      Keys(entries[..|entries| - 1]) + if e.used then [(e.ns, e.name)] else []
  }

  function Listing(prefixes: seq<seq<byte>>, keys: seq<(byte, seq<byte>)>): seq<byte> {
    if keys == [] then []
    else
      var k := keys[|keys| - 1];
      Listing(prefixes, keys[..|keys| - 1]) + Line(prefixes, k)
  }

  function Line(prefixes: seq<seq<byte>>, k: (byte, seq<byte>)): seq<byte> {
    (if 1 <= k.0 <= |prefixes| then prefixes[k.0 - 1] else []) + k.1 + [0]
  }

  /** A line is the prefix of the key's kind, then its name, then a zero. */
  lemma LineIs(prefixes: seq<seq<byte>>, k: (byte, seq<byte>))
    requires 1 <= k.0 <= |prefixes|
    ensures var p, s := prefixes[k.0 - 1], Line(prefixes, k);
            |s| == |p| + |k.1| + 1 && s[..|p|] == p && s[|p|..|p| + |k.1|] == k.1 && s[|p| + |k.1|] == 0
  {
  }

  /** The lines stand one behind the other in the order of the keys. */
  lemma {:induction false} ListingIs(prefixes: seq<seq<byte>>, keys: seq<(byte, seq<byte>)>, i: nat)
    requires i < |keys|
    ensures Listing(prefixes, keys[..i]) + Line(prefixes, keys[i]) <= Listing(prefixes, keys)
    ensures i + 1 == |keys| ==> Listing(prefixes, keys[..i]) + Line(prefixes, keys[i]) == Listing(prefixes, keys)
    decreases |keys|
  {
    hide Line;
    var n := |keys| - 1;
    if i < n {
      ListingIs(prefixes, keys[..n], i);
      assert keys[..n][..i] == keys[..i];
    }
  }

  // What a listing holds once the first i entries were looked at.
  function Lines(prefixes: seq<seq<byte>>, entries: seq<Entry>, i: nat): seq<byte>
    requires i <= |entries|
  {
    Listing(prefixes, Keys(entries[..i]))
  }

  lemma LinesWhole(prefixes: seq<seq<byte>>, entries: seq<Entry>)
    ensures Lines(prefixes, entries, 0) == [] && Lines(prefixes, entries, |entries|) == Listing(prefixes, Keys(entries))
  {
    assert entries[..0] == [] && entries[..|entries|] == entries;
  }

  lemma LinesNext(prefixes: seq<seq<byte>>, entries: seq<Entry>, i: nat)
    requires i < |entries|
    ensures var e := entries[i];
            var before := Lines(prefixes, entries, i);
            Lines(prefixes, entries, i + 1) == if e.used then before + Line(prefixes, (e.ns, e.name)) else before
  {
    hide Line;
    var e := entries[i];
    assert entries[..i + 1][..i] == entries[..i];
    var before := Keys(entries[..i]);
    assert Keys(entries[..i + 1]) == if e.used then before + [(e.ns, e.name)] else before;
    if e.used {
      assert (before + [(e.ns, e.name)])[..|before|] == before;
    }
  }

  lemma {:induction false} LinesGrow(prefixes: seq<seq<byte>>, entries: seq<Entry>, i: nat)
    requires i <= |entries|
    ensures Lines(prefixes, entries, i) <= Listing(prefixes, Keys(entries))
    decreases |entries| - i
  {
    if i == |entries| {
      assert entries[..i] == entries;
    } else {
      LinesNext(prefixes, entries, i);
      LinesGrow(prefixes, entries, i + 1);
    }
  }

  /** A listing names every key of the map once, and nothing else. */
  lemma {:induction false} KeysAre(entries: seq<Entry>)
    requires DistinctKeys(entries)
    ensures |Keys(entries)| == |Map(entries)|
    ensures forall k :: k in Keys(entries) <==> k in Map(entries)
    ensures forall i, j :: 0 <= i < j < |Keys(entries)| ==> Keys(entries)[i] != Keys(entries)[j]
  {
    if entries != [] {
      var rest, e := entries[..|entries| - 1], entries[|entries| - 1];
      assert forall j, s: byte, m :: KeyAt(rest, j, s, m) ==> KeyAt(entries, j, s, m);
      KeysAre(rest);
      if e.used {
        MapHas(rest, e.ns, e.name);
        assert KeyAt(entries, |entries| - 1, e.ns, e.name);
        assert (e.ns, e.name) !in Map(rest);
        assert Map(entries).Keys == Map(rest).Keys + {(e.ns, e.name)};
      }
    }
  }

  lemma WithinFits(area: seq<byte>, n: nat, size: nat, clusters: nat)
    requires size > 0 && |area| == clusters * size && n <= |area|
    ensures Cover(n, size) <= clusters
  {
    CoverMono(n, clusters * size, size);
    CoverExact(clusters, size);
  }

  lemma ClusterAtLeast(size: nat, clusters: nat)
    requires size >= HEADER && clusters > 0
    ensures Cover(HEADER, size) <= clusters
  {
  }

  lemma SmallFits(e: Entry)
    requires Small(e)
    ensures HEADER + Length(e) < THRESHOLD
  {
  }

  // ----- what lies where in a tiled area

  lemma HeadFits(e: Entry)
    requires Small(e)
    ensures Encodable(HeadOf(e))
  {
  }

  lemma HeadAt(area: seq<byte>, entries: seq<Entry>, j: nat)
    requires Tiled(area, entries) && j < |entries|
    ensures var p, e := Off(entries, j), entries[j];
            && Small(e) && p + HEAD + |e.name| + |e.value| <= |area|
            && DecodeHead(area[p..p + HEAD]) == Ok(HeadOf(e))
            && area[p + HEAD..p + HEAD + |e.name|] == e.name
            && area[p + HEAD + |e.name|..p + HEAD + |e.name| + |e.value|] == e.value
  {
    hide DecodeHead, EncodeHead, HeadOf, Length, Off;
    var p, e := Off(entries, j), entries[j];
    assert Tile(area, entries, j);
    HeadFits(e);
    var h := EncodeHead(HeadOf(e));
    assert Image(e) == h + e.name + e.value;
    AtConcat(area, p, h + e.name, e.value);
    AtConcat(area, p, h, e.name);
    HeadRoundTrip(HeadOf(e));
  }

  // The free slot is the only index with its two properties.
  lemma {:induction false} FreeIs(entries: seq<Entry>, i: nat, length: nat, j: nat)
    requires i <= j <= |entries| && (j < |entries| ==> !entries[j].used && Length(entries[j]) == length)
    requires forall k :: i <= k < j ==> entries[k].used || Length(entries[k]) != length
    ensures j == FreeFrom(entries, i, length)
    decreases j - i
  {
    if i < j {
      FreeIs(entries, i + 1, length, j);
    }
  }

  lemma EmptyList()
    ensures Live([]) == 0 && Space([]) == 0 && Map([]) == map[] && forall ns: byte, name, j :: !KeyAt([], j, ns, name)
  {
  }

  lemma OffStart(entries: seq<Entry>)
    ensures Off(entries, 0) == HEADER
  {
  }

  lemma OffNext(entries: seq<Entry>, j: nat)
    requires j < |entries|
    ensures Off(entries, j + 1) == Off(entries, j) + Length(entries[j])
  {
  }

  lemma LiveWhole(entries: seq<Entry>)
    ensures LiveFrom(entries, 0) == Live(entries)
  {
    assert entries[0..] == entries;
  }

  // With a used entry at the end, something is left exactly until the end is reached.
  lemma LiveLeft(entries: seq<Entry>, i: nat)
    requires i <= |entries| && (entries != [] ==> entries[|entries| - 1].used)
    ensures LiveFrom(entries, i) > 0 <==> i < |entries|
  {
    if i < |entries| {
      LiveZero(entries[i..]);
      assert entries[i..][|entries| - i - 1].used;
    }
  }

  lemma FreeSlotIs(entries: seq<Entry>, length: nat)
    ensures var f := FreeFrom(entries, 0, length);
            f <= |entries| && (f < |entries| ==> !entries[f].used && Length(entries[f]) == length)
  {
  }

  lemma EmptyFits(entries: seq<Entry>, length: nat)
    requires entries == []
    ensures Off(entries, FreeFrom(entries, 0, length)) == HEADER
  {
  }

  // Marking an entry as deleted moves none of the others.
  lemma OffMarked(entries: seq<Entry>, k: nat, f: nat)
    requires k < |entries| && f <= |entries|
    ensures Off(entries[k := entries[k].(used := false)], f) == Off(entries, f)
  {
    OffSame(entries, entries[k := entries[k].(used := false)], f);
  }

  // An entry longer than all clusters together does not fit, wherever it is put.
  lemma TooLong(entries: seq<Entry>, e: Entry, size: nat)
    requires Small(e) && size > 0 && |e.value| >= size
    ensures Cover(Off(entries, FreeFrom(entries, 0, Length(e))) + |Image(e)|, size) > 1
  {
    hide Off, Length, EncodeHead;
    var n := Off(entries, FreeFrom(entries, 0, Length(e))) + |Image(e)|;
    CoverHolds(n, size);
    if Cover(n, size) <= 1 {
      MulAtMost(Cover(n, size), 1, size);
    }
  }

  // A first entry that fits into one cluster together with the header.
  lemma FitsFirst(entries: seq<Entry>, e: Entry, size: nat)
    requires Small(e) && size > 0 && entries == [] && HEADER + |Image(e)| <= size
    ensures Cover(Off(entries, FreeFrom(entries, 0, Length(e))) + |Image(e)|, size) == 1
  {
    hide Length, EncodeHead, Image;
    EmptyFits(entries, Length(e));
    CoverIs(HEADER + |Image(e)|, 1, size);
  }

  // With nothing held, the list is empty, whatever was tried before.
  lemma NothingHeld(entries: seq<Entry>)
    requires DistinctKeys(entries) && Map(entries) == map[] && (entries != [] ==> entries[|entries| - 1].used)
    ensures entries == []
  {
    if entries != [] {
      MapSize(entries);
      LiveZero(entries);
      assert false;
    }
  }

  // What a failed write leaves behind the last entry touches neither header nor entries.
  lemma HeaderStays(was: seq<byte>, area: seq<byte>, entries: seq<Entry>, f: nat, n: nat)
    requires f <= |entries| && Kept(was, area, Off(entries, f), n)
    ensures forall front :: At(was, 0, front) && |front| == 28 ==> At(area, 0, front)
  {
  }

  lemma LineLength(prefixes: seq<seq<byte>>, k: (byte, seq<byte>))
    requires 1 <= k.0 <= |prefixes|
    ensures |Line(prefixes, k)| == |prefixes[k.0 - 1]| + |k.1| + 1
  {
  }

  lemma NothingOut<K, V>(m: map<K, V>, k: K)
    requires k !in m
    ensures m - {k} == m
  {
  }
}
