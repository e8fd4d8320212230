/** Byte areas: reading and writing a stretch of bytes block by block, and the
    little-endian words an on-disk head is made of. */
module Bytes {
  type byte = b: nat | b < 256

  const BLOCK: nat := 512

  // `data` lies at offset p.
  predicate At(area: seq<byte>, p: nat, data: seq<byte>) {
    p + |data| <= |area| && area[p..p + |data|] == data
  }

  function Splice(area: seq<byte>, p: nat, data: seq<byte>): (r: seq<byte>)
    requires p + |data| <= |area|
    ensures |r| == |area|
  {
    area[..p] + data + area[p + |data|..]
  }

  lemma SpliceHere(area: seq<byte>, p: nat, data: seq<byte>)
    requires p + |data| <= |area|
    ensures At(Splice(area, p, data), p, data)
  {
    assert Splice(area, p, data)[p..p + |data|] == data;
  }

  /** A write leaves every other stretch of bytes as it is. */
  lemma SpliceFar(area: seq<byte>, p: nat, data: seq<byte>, q: nat, other: seq<byte>)
    requires p + |data| <= |area| && At(area, q, other) && (q + |other| <= p || p + |data| <= q)
    ensures At(Splice(area, p, data), q, other)
  {
    var r := Splice(area, p, data);
    forall i | q <= i < q + |other| ensures r[i] == area[i] {
    }
    assert r[q..q + |other|] == area[q..q + |other|];
  }

  lemma AtGrows(area: seq<byte>, grown: seq<byte>, p: nat, data: seq<byte>)
    requires At(area, p, data) && |area| <= |grown| && grown[..|area|] == area
    ensures At(grown, p, data)
  {
    assert grown[p..p + |data|] == area[p..p + |data|];
  }

  lemma AtConcat(area: seq<byte>, p: nat, a: seq<byte>, b: seq<byte>)
    ensures At(area, p, a + b) <==> At(area, p, a) && At(area, p + |a|, b)
  {
    if p + |a + b| <= |area| {
      var s := area[p..p + |a + b|];
      assert area[p..p + |a|] == s[..|a|];
      assert area[p + |a|..p + |a| + |b|] == s[|a|..];
      assert s == s[..|a|] + s[|a|..];
      assert (a + b)[..|a|] == a && (a + b)[|a|..] == b;
    }
  }

  lemma SpliceConcat(area: seq<byte>, p: nat, a: seq<byte>, b: seq<byte>)
    requires p + |a| + |b| <= |area|
    ensures Splice(Splice(area, p, a), p + |a|, b) == Splice(area, p, a + b)
  {
  }

  lemma SpliceNone(area: seq<byte>, p: nat, data: seq<byte>)
    requires p <= |area| && data == []
    ensures Splice(area, p, data) == area
  {
  }

  // Where block i of the transfer [offset, offset + size) ends in the data.
  function UpTo(offset: nat, size: nat, i: nat): nat {
    if (i + 1) * BLOCK >= offset + size then size
    else if (i + 1) * BLOCK <= offset then 0
    else (i + 1) * BLOCK - offset
  }

  lemma BlockPiece(offset: nat, size: nat, i: nat, done: nat)
    requires offset + size > 0 && offset / BLOCK <= i <= (offset + size - 1) / BLOCK
    requires done == if i == offset / BLOCK then 0 else UpTo(offset, size, i - 1)
    ensures var end := i * BLOCK + (BLOCK - 1);
            var from := (offset + done) % BLOCK;
            var to := if offset + size - 1 > end then BLOCK - 1 else (offset + size - 1) % BLOCK;
            && from <= to + 1 && i * BLOCK + from == offset + done && done + (to - from + 1) == UpTo(offset, size, i)
            && UpTo(offset, size, i) <= size
            && (i == (offset + size - 1) / BLOCK ==> UpTo(offset, size, i) == size)
  {
  }

  /** Reads a stretch of bytes, one piece from each block it reaches into; an empty
      stretch may still touch one block, with an empty piece. */
  method Read(area: seq<byte>, offset: nat, size: nat) returns (data: seq<byte>)
    requires 0 < offset + size <= |area|
    ensures data == area[offset..offset + size]
  {
    data := [];
    var first, last := offset / BLOCK, (offset + size - 1) / BLOCK;
    var i := first;
    while i <= last
      invariant first <= i && (i <= last + 1 || i == first)
      invariant |data| == (if i == first then 0 else UpTo(offset, size, i - 1)) <= size
      invariant i > last ==> |data| == size
      invariant data == area[offset..offset + |data|]
    {
      BlockPiece(offset, size, i, |data|);
      var end := i * BLOCK + (BLOCK - 1);
      var from := (offset + |data|) % BLOCK;
      var to := if offset + size - 1 > end then BLOCK - 1 else (offset + size - 1) % BLOCK;
      data := data + area[i * BLOCK + from..i * BLOCK + to + 1];
      i := i + 1;
    }
  }

  /** Writes a stretch of bytes, one piece into each block it reaches into. */
  method Write(area: seq<byte>, offset: nat, data: seq<byte>) returns (r: seq<byte>)
    requires 0 < offset + |data| <= |area|
    ensures r == Splice(area, offset, data)
  {
    hide Splice;
    r := area;
    var size := |data|;
    var done := 0;
    var first, last := offset / BLOCK, (offset + size - 1) / BLOCK;
    var i := first;
    SpliceNone(area, offset, data[..0]);
    while i <= last
      invariant first <= i && (i <= last + 1 || i == first)
      invariant done == (if i == first then 0 else UpTo(offset, size, i - 1)) <= size
      invariant i > last ==> done == size
      invariant r == Splice(area, offset, data[..done])
    {
      BlockPiece(offset, size, i, done);
      var end := i * BLOCK + (BLOCK - 1);
      var from := (offset + done) % BLOCK;
      var to := if offset + size - 1 > end then BLOCK - 1 else (offset + size - 1) % BLOCK;
      var n := to - from + 1;
      SpliceConcat(area, offset, data[..done], data[done..done + n]);
      assert data[..done] + data[done..done + n] == data[..done + n];
      r := Splice(r, i * BLOCK + from, data[done..done + n]);
      done := done + n;
      i := i + 1;
    }
    assert data[..size] == data;
  }

  // ----- words

  function Word16(v: nat): (b: seq<byte>)
    requires v < 0x1_0000
    ensures |b| == 2
  {
    [v % 256, v / 256]
  }

  /** Words lie in the area with their lowest byte first. */
  lemma LowFirst(v: nat, w: nat)
    requires v < 0x1_0000 && w < 0x1_0000_0000
    ensures Word16(v)[0] == v % 256 && Word16(v)[1] == v / 256
    ensures var b := Word32(w); w == (b[0] as int) + 256 * (b[1] as int) + 65536 * (b[2] as int) + 16777216 * (b[3] as int)
  {
  }

  function Get16(b: seq<byte>): nat
    requires |b| == 2
  {
    (b[0] as int) + 256 * (b[1] as int)
  }

  function Word32(v: nat): (b: seq<byte>)
    requires v < 0x1_0000_0000
    ensures |b| == 4
  {
    Word16(v % 0x1_0000) + Word16(v / 0x1_0000)
  }

  function Get32(b: seq<byte>): nat
    requires |b| == 4
  {
    Get16(b[..2]) + 0x1_0000 * Get16(b[2..])
  }

  lemma WordRoundTrip(v: nat)
    ensures v < 0x1_0000 ==> Get16(Word16(v)) == v
    ensures v < 0x1_0000_0000 ==> Get32(Word32(v)) == v
  {
    if v < 0x1_0000_0000 {
      var lo, hi := Word16(v % 0x1_0000), Word16(v / 0x1_0000);
      assert Word32(v)[..2] == lo && Word32(v)[2..] == hi;
      assert Get16(lo) == v % 0x1_0000 && Get16(hi) == v / 0x1_0000;
    }
  }
}
