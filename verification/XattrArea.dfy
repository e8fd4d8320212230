/** The extended attributes of one inode, changed in place. */
module XattrArea {
  import opened Results
  import opened Arith
  import opened Bytes
  import opened Xattr

  // New clusters hold whatever was there before.
  function Blank(n: nat): (b: seq<byte>)
    ensures |b| == n
  {
    if n == 0 then [] else Blank(n - 1) + [0]
  }

  datatype Found = Found(hit: bool, head: Head, at: nat, free: nat)

  class Area {
    var area: seq<byte>
    var numClus: nat
    var freeClus: nat
    var validCount: nat
    var totalSpace: nat
    var usedSpace: nat
    const clusterSize: nat
    const prefixes: seq<seq<byte>>

    ghost var entries: seq<Entry>
    // Whether the header was ever written, and how much of usedSpace is the header itself.
    ghost var headed: bool
    ghost var base: nat

    ghost predicate Roomy()
      reads `area, `numClus
    {
      && clusterSize > 0 && clusterSize % BLOCK == 0 && |area| == numClus * clusterSize
    }

    ghost predicate Counted()
      reads this
    {
      && validCount == Live(entries) <= MAX_ENTRIES
      && usedSpace == base + Space(entries) <= THRESHOLD
      && totalSpace < 0x1_0000_0000
    }

    ghost predicate Laid()
      reads this
    {
      Tiled(area, entries) && DistinctKeys(entries)
    }

    ghost predicate Headed()
      reads this
      requires Counted()
    {
      && (headed ==> At(area, 0, Front(validCount, totalSpace, usedSpace)))
      && (!headed ==> base == 0 && entries == [])
    }

    ghost predicate Valid()
      reads this
    {
      && Roomy() && Counted() && Laid() && Headed() && |prefixes| == 5 && (base == 0 || base == HEADER)
      && (entries != [] ==> entries[|entries| - 1].used)
      && (numClus == 0 ==> !headed && totalSpace == 0)
    }

    /** The attributes held. */
    ghost function Attrs(): map<(byte, seq<byte>), seq<byte>>
      reads this
    {
      Map(entries)
    }

    constructor (clusterSize: nat, prefixes: seq<seq<byte>>, free: nat)
      requires clusterSize > 0 && clusterSize % BLOCK == 0 && |prefixes| == 5
      ensures Valid() && Attrs() == map[] && numClus == 0 && freeClus == free
      ensures this.prefixes == prefixes && this.clusterSize == clusterSize && usedSpace == 0
    {
      area, numClus, freeClus := [], 0, free;
      validCount, totalSpace, usedSpace := 0, 0, 0;
      this.clusterSize, this.prefixes := clusterSize, prefixes;
      entries, headed, base := [], false, 0;
    }

    lemma Parts()
      requires Valid()
      ensures Tiled(area, entries) && DistinctKeys(entries) && validCount == Live(entries)
      ensures numClus == 0 ==> entries == []
    {
    }

    // ----- reading and writing bytes

    method AddCluster()
      requires Roomy() && freeClus > 0
      modifies `area, `numClus, `freeClus
      ensures Roomy() && numClus == old(numClus) + 1 && freeClus == old(freeClus) - 1
      ensures |old(area)| <= |area| && forall n :: 0 <= n <= |old(area)| ==> area[..n] == old(area)[..n]
    {
      assert |Blank(clusterSize)| == clusterSize;
      var cluster: seq<byte> :| |cluster| == clusterSize;
      area, numClus, freeClus := area + cluster, numClus + 1, freeClus - 1;
    }

    // Gives the area the clusters it needs for a write, or none of them.
    method Expand(offset: nat, size: nat) returns (ok: bool)
      requires Roomy()
      modifies `area, `numClus, `freeClus
      ensures Roomy()
      ensures ok <==> Cover(offset + size, clusterSize) <= old(numClus + freeClus)
      ensures numClus + freeClus == old(numClus + freeClus) && numClus >= old(numClus)
      ensures ok ==> Cover(offset + size, clusterSize) <= numClus
      ensures Cover(offset + size, clusterSize) <= old(numClus) ==> numClus == old(numClus)
      ensures !ok ==> numClus == old(numClus)
      ensures |old(area)| <= |area| && area[..|old(area)|] == old(area) && (numClus == old(numClus) ==> area == old(area))
    {
      hide Cover;
      var last := Cover(offset + size, clusterSize);
      var required := if last <= numClus then 0 else last - numClus;
      if required > 0 && required > freeClus {
        return false;
      }
      while required > 0
        invariant Roomy() && numClus + freeClus == old(numClus + freeClus) && numClus >= old(numClus)
        invariant required <= freeClus && (required > 0 ==> numClus + required == last)
        invariant last <= numClus + required
        invariant last <= old(numClus) ==> required == 0 && numClus == old(numClus)
        invariant |old(area)| <= |area| && area[..|old(area)|] == old(area)
        invariant numClus == old(numClus) ==> area == old(area)
      {
        AddCluster();
        required := required - 1;
      }
      return true;
    }

    method WriteAt(offset: nat, data: seq<byte>) returns (ok: bool)
      requires Roomy() && offset + |data| > 0
      modifies `area, `numClus, `freeClus
      ensures Roomy()
      ensures ok <==> Cover(offset + |data|, clusterSize) <= old(numClus + freeClus)
      ensures numClus + freeClus == old(numClus + freeClus) && numClus >= old(numClus)
      ensures ok ==> Cover(offset + |data|, clusterSize) <= numClus && numClus > 0
      ensures Cover(offset + |data|, clusterSize) <= old(numClus) ==> numClus == old(numClus)
      ensures ok ==> At(area, offset, data)
      ensures Kept(old(area), area, offset, |data|)
      ensures !ok ==> area == old(area) && numClus == old(numClus)
    {
      hide Cover, Kept, Splice, At;
      ok := Expand(offset, |data|);
      if !ok {
        KeptSelf(area, offset, |data|);
        return;
      }
      WriteFits(offset + |data|, clusterSize, numClus);
      CoverHolds(offset + |data|, clusterSize);
      WriteKeeps(old(area), area, offset, data);
      area := Write(area, offset, data);
    }

    method ReadHead(offset: nat) returns (r: Result<Head>)
      requires Roomy() && offset + HEAD <= |area|
      ensures r == DecodeHead(area[offset..offset + HEAD])
    {
      var b := Read(area, offset, HEAD);
      return DecodeHead(b);
    }

    method WriteHeader() returns (ok: bool)
      requires Roomy() && Counted()
      modifies `area, `numClus, `freeClus
      ensures Roomy()
      ensures ok <==> Cover(HEADER, clusterSize) <= old(numClus + freeClus)
      ensures numClus + freeClus == old(numClus + freeClus) && numClus >= old(numClus)
      ensures ok ==> At(area, 0, Front(validCount, totalSpace, usedSpace)) && numClus > 0
      ensures Cover(HEADER, clusterSize) <= old(numClus) ==> numClus == old(numClus)
      ensures Kept(old(area), area, 0, HEADER)
      ensures !ok ==> area == old(area) && numClus == old(numClus)
    {
      var front := Front(validCount, totalSpace, usedSpace);
      assert |Blank(36)| == 36;
      var rest: seq<byte> :| |rest| == 36;
      ok := WriteAt(0, front + rest);
      AtConcat(area, 0, front, rest);
    }

    /** A remount reads back the counts the running system had. */
    method Reload() returns (r: Result<Counts>)
      requires Valid() && headed
      ensures r == Ok(Counts(validCount, totalSpace, usedSpace))
    {
      var b := Read(area, 0, 28);
      r := DecodeFront(b);
      FrontRoundTrip(validCount, totalSpace, usedSpace, []);
      assert b == Front(validCount, totalSpace, usedSpace) + [];
    }

    // Head, name and value, one after the other.
    method WriteEntry(offset: nat, e: Entry) returns (ok: bool)
      requires Roomy() && Small(e)
      modifies `area, `numClus, `freeClus
      ensures Roomy()
      ensures ok <==> Cover(offset + |Image(e)|, clusterSize) <= old(numClus + freeClus)
      ensures numClus + freeClus == old(numClus + freeClus) && numClus >= old(numClus)
      ensures ok || Cover(offset + HEAD, clusterSize) <= old(numClus + freeClus) ==> numClus > 0
      ensures ok ==> At(area, offset, Image(e))
      ensures Kept(old(area), area, offset, |Image(e)|)
    {
      hide Cover, EncodeHead, Kept, At;
      var h, n, v := EncodeHead(HeadOf(e)), |e.name|, |e.value|;
      CoverMono(offset + HEAD, offset + HEAD + n, clusterSize);
      CoverMono(offset + HEAD + n, offset + HEAD + n + v, clusterSize);
      var p := offset;
      ok := WriteAt(p, h);
      KeptMore(old(area), area, offset, HEAD, |Image(e)|);
      if !ok {
        return;
      }
      p := p + HEAD;
      ghost var first := area;
      ok := WriteAt(p, e.name);
      KeptTwice(old(area), first, area, offset, HEAD, n);
      KeptMore(old(area), area, offset, HEAD + n, |Image(e)|);
      if !ok {
        return;
      }
      KeptAt(first, area, p, n, offset, h);
      p := p + n;
      AtConcat(area, offset, h, e.name);
      ghost var second := area;
      ok := WriteAt(p, e.value);
      KeptTwice(old(area), second, area, offset, HEAD + n, v);
      if ok {
        KeptAt(second, area, p, v, offset, h + e.name);
        AtConcat(area, offset, h + e.name, e.value);
      }
    }

    // ----- finding an entry

    method Compare(ns: byte, name: seq<byte>, head: Head, offset: nat, ghost j: nat) returns (same: bool)
      requires Roomy() && Tiled(area, entries) && j < |entries| && entries[j].used
      requires head == HeadOf(entries[j]) && offset == Off(entries, j)
      ensures same <==> KeyAt(entries, j, ns, name)
    {
      if head.ns != ns || head.nameLen != |name| {
        return false;
      }
      if |name| == 0 {
        return true;
      }
      HeadAt(area, entries, j);
      var stored := Read(area, offset + HEAD, |name|);
      return stored == name;
    }

    /** Finds a key, and on request the place a new entry of a given length goes to. */
    method Lookup(ns: byte, name: seq<byte>, wantFree: bool, length: nat) returns (r: Result<Found>, ghost k: int)
      requires Valid()
      ensures r.Ok?
      ensures r.value.hit <==> exists j :: KeyAt(entries, j, ns, name)
      ensures r.value.hit ==> KeyAt(entries, k, ns, name) && r.value.at == Off(entries, k) && r.value.head == HeadOf(entries[k])
      ensures wantFree ==> r.value.free == Off(entries, FreeFrom(entries, 0, length))
    {
      hide Image, DecodeHead, EncodeHead, Tiled, DistinctKeys, Live, LiveFrom, Space, At, Front, Cover, Map, Off, FreeFrom,
           Length;
      var left, cursor := validCount, HEADER;
      var found := Found(false, Head(0, 0, 0, 0, 0), 0, HEADER);
      k := -1;
      OffStart(entries);
      LiveWhole(entries);
      LiveLeft(entries, 0);
      if left == 0 {
        FreeIs(entries, 0, length, 0);
        return Ok(found), k;
      }
      var victim := false;
      ghost var i := 0;
      while left > 0
        invariant i <= |entries| && cursor == Off(entries, i) && left == LiveFrom(entries, i)
        invariant left > 0 <==> i < |entries|
        invariant found.hit ==> KeyAt(entries, k, ns, name) && found.at == Off(entries, k) && found.head == HeadOf(entries[k])
        invariant !found.hit ==> forall j :: 0 <= j < i ==> !KeyAt(entries, j, ns, name)
        invariant victim ==> wantFree && found.free == Off(entries, FreeFrom(entries, 0, length))
        invariant !victim && wantFree ==> forall j :: 0 <= j < i ==> entries[j].used || Length(entries[j]) != length
        invariant !(found.hit && (victim || !wantFree))
        decreases |entries| - i
      {
        HeadAt(area, entries, i);
        LiveSplit(entries, i);
        LiveLeft(entries, i + 1);
        OffNext(entries, i);
        var read := ReadHead(cursor);
        if read.Err? {
          return Err(EIO), k;
        }
        var head := read.value;
        if head.flag == USED {
          left := left - 1;
          if !found.hit {
            var same := Compare(ns, name, head, cursor, i);
            if same {
              found, k := found.(hit := true, head := head, at := cursor), i;
              if !wantFree || victim {
                return Ok(found), k;
              }
            }
          }
        } else if wantFree && !victim && head.entryLen == length {
          FreeIs(entries, 0, length, i);
          found, victim := found.(free := cursor), true;
          if found.hit {
            return Ok(found), k;
          }
        }
        cursor := cursor + head.entryLen;
        i := i + 1;
      }
      if wantFree && !victim {
        FreeIs(entries, 0, length, i);
        found := found.(free := cursor);
      }
      return Ok(found), k;
    }

    // ----- changing the list

    lemma SlotRoom(f: nat, e: Entry)
      requires Roomy() && Laid() && Small(e) && f < |entries| && Length(entries[f]) == Length(e)
      ensures Cover(Off(entries, f) + |Image(e)|, clusterSize) <= numClus
    {
      hide Image, EncodeHead, Cover, Off, Length;
      SlotFits(area, entries, f, e, clusterSize, numClus);
    }

    lemma HeadRoom(k: nat)
      requires Roomy() && Laid() && k < |entries|
      ensures Cover(Off(entries, k) + 1, clusterSize) <= numClus
    {
      hide Image, EncodeHead, DecodeHead, Cover, Off, Length;
      HeadAt(area, entries, k);
      WithinFits(area, Off(entries, k) + 1, clusterSize, numClus);
    }

    // Marks one used entry as deleted: a single byte in place.
    method MarkOld(ghost k: nat, at: nat, length: nat)
      requires Roomy() && Counted() && Laid() && k < |entries| && entries[k].used
      requires at == Off(entries, k) && length == Length(entries[k])
      modifies `area, `numClus, `freeClus, `validCount, `usedSpace, `entries
      ensures Roomy() && Counted() && Laid()
      ensures entries == old(entries)[k := old(entries)[k].(used := false)]
      ensures Attrs() == old(Attrs()) - {(old(entries)[k].ns, old(entries)[k].name)}
      ensures forall j :: !KeyAt(entries, j, old(entries)[k].ns, old(entries)[k].name)
      ensures numClus == old(numClus) && freeClus == old(freeClus)
      ensures validCount == old(validCount) - 1 && usedSpace == old(usedSpace) - length
    {
      hide Image, EncodeHead, DecodeHead, Cover, Kept, At, Live, Space, Map, Off, Length, DistinctKeys, Tiled, Roomy;
      HeadRoom(k);
      ghost var was := area;
      var ok := WriteAt(at, [DELETED]);
      TileDeleted(was, area, entries, k);
      DeletedMap(entries, k);
      Changed(entries, k, entries[k].(used := false));
      validCount, usedSpace := validCount - 1, usedSpace - length;
      entries := entries[k := entries[k].(used := false)];
    }

    // Writes a new entry over a deleted one of its length, or behind the last one.
    method PutEntry(ghost f: nat, at: nat, e: Entry) returns (ok: bool)
      requires Roomy() && Counted() && Laid() && Small(e) && e.used && f <= |entries| && at == Off(entries, f)
      requires f < |entries| ==> !entries[f].used && Length(entries[f]) == Length(e)
      requires forall j :: !KeyAt(entries, j, e.ns, e.name)
      requires validCount < MAX_ENTRIES && usedSpace + Length(e) <= THRESHOLD
      modifies `area, `numClus, `freeClus, `validCount, `usedSpace, `totalSpace, `entries
      ensures Roomy() && Counted() && Laid()
      ensures ok <==> Cover(at + |Image(e)|, clusterSize) <= old(numClus + freeClus)
      ensures numClus + freeClus == old(numClus + freeClus) && numClus >= old(numClus)
      ensures ok || Cover(at + HEAD, clusterSize) <= old(numClus + freeClus) ==> numClus > 0
      ensures entries == if !ok then old(entries) else if f < |old(entries)| then old(entries)[f := e] else old(entries) + [e]
      ensures ok ==> Attrs() == old(Attrs())[(e.ns, e.name) := e.value]
      ensures ok ==> validCount == old(validCount) + 1 && usedSpace == old(usedSpace) + Length(e)
                     && totalSpace == (old(totalSpace) + Length(e)) % 0x1_0000_0000
      ensures !ok ==> validCount == old(validCount) && usedSpace == old(usedSpace) && totalSpace == old(totalSpace)
      ensures Kept(old(area), area, at, |Image(e)|)
    {
      hide Image, EncodeHead, Cover, Kept, At, Live, Space, Map, Off, Length, DistinctKeys, Tiled, KeyAt, Roomy;
      if f < |entries| {
        SlotRoom(f, e);
      }
      ghost var was := area;
      ok := WriteEntry(at, e);
      if !ok {
        TilesSurvive(was, area, entries, at, |Image(e)|);
        return;
      }
      TilesKept(was, area, entries, f, e);
      PlacedMap(entries, f, e);
      if f < |entries| {
        Changed(entries, f, e);
        entries := entries[f := e];
      } else {
        Added(entries, e);
        entries := entries + [e];
      }
      totalSpace := (totalSpace + Length(e)) % 0x1_0000_0000;
      usedSpace, validCount := usedSpace + Length(e), validCount + 1;
    }

    // Closes a change: the header goes out with the counts of the day.
    method SaveHeader()
      requires Roomy() && Counted() && Laid() && numClus > 0 && |prefixes| == 5 && (base == 0 || base == HEADER)
      modifies `area, `numClus, `freeClus, `entries, `headed
      ensures Valid() && headed && Attrs() == old(Attrs())
      ensures numClus == old(numClus) && freeClus == old(freeClus)
    {
      hide Image, EncodeHead, Kept, At, Live, Space, Map, Off, Length;
      ClusterAtLeast(clusterSize, numClus);
      ghost var was := area;
      var ok := WriteHeader();
      TilesSurvive(was, area, entries, 0, HEADER);
      TilesTrim(area, entries);
      TrimKeys(entries);
      entries, headed := Trim(entries), true;
    }

    // Makes the first entry together with the area it lies in.
    method CreateFirst(e: Entry) returns (r: Result<()>)
      requires Valid() && numClus == 0 && Small(e) && e.used
      modifies this
      ensures Valid()
      ensures numClus + freeClus == old(numClus + freeClus)
      ensures Cover(HEADER + |Image(e)|, clusterSize) <= old(numClus + freeClus)
              ==> r == Ok(()) && Attrs() == old(Attrs())[(e.ns, e.name) := e.value] && base == HEADER
                  && usedSpace == totalSpace == HEADER + Length(e)
      ensures Cover(HEADER + |Image(e)|, clusterSize) > old(numClus + freeClus)
              ==> r == Err(ENOSPC) && Attrs() == old(Attrs()) && base == 0 && usedSpace == totalSpace == 0
      ensures r.Ok? || Cover(HEADER + HEAD, clusterSize) <= old(freeClus) ==> numClus > 0
    {
      hide Image, EncodeHead, Cover, Kept, At, Live, Space, Map, Off;
      SmallFits(e);
      EmptyList();
      OffStart(entries);
      var ok := PutEntry(0, HEADER, e);
      if !ok {
        return Err(ENOSPC);
      }
      validCount, totalSpace, usedSpace := 1, HEADER + Length(e), HEADER + Length(e);
      base := HEADER;
      SaveHeader();
      return Ok(());
    }

    // ----- the operations

    // Whether a write of this entry finds the clusters it needs.
    ghost predicate Fits(e: Entry)
      reads this
      requires clusterSize > 0 && Small(e)
    {
      Cover(Off(entries, FreeFrom(entries, 0, Length(e))) + |Image(e)|, clusterSize) <= numClus + freeClus
    }

    lemma FitsIs(e: Entry)
      requires Valid() && Small(e)
      ensures Fits(e) <==>
                Cover(Off(entries, FreeFrom(entries, 0, Length(e))) + |Image(e)|, clusterSize) <= numClus + freeClus
    {
    }

    lemma Bounded()
      requires Counted()
      ensures validCount <= MAX_ENTRIES
    {
    }

    // Replaces the used entry k. The header write at the end overwrites the result of a failed entry write.
    method ReplaceOld(ghost k: nat, at: nat, length: nat, ghost f: nat, free: nat, e: Entry) returns (r: Result<()>)
      requires Valid() && numClus > 0 && KeyAt(entries, k, e.ns, e.name) && Small(e) && e.used
      requires at == Off(entries, k) && length == Length(entries[k])
      requires f == FreeFrom(entries, 0, Length(e)) && free == Off(entries, f)
      requires usedSpace + Length(e) <= THRESHOLD
      modifies this
      ensures Valid() && r == Ok(()) && numClus > 0
      ensures Attrs() == if old(Fits(e)) then old(Attrs())[(e.ns, e.name) := e.value] else old(Attrs()) - {(e.ns, e.name)}
      ensures totalSpace == if old(Fits(e)) then (old(totalSpace) + Length(e)) % 0x1_0000_0000 else old(totalSpace)
      ensures numClus + freeClus == old(numClus + freeClus)
      ensures base == old(base)
    {
      hide Image, EncodeHead, Cover, Kept, At, Live, Space, Map, Off, Length, FreeFrom, DistinctKeys, Tiled, Roomy,
           Laid, Headed, KeyAt, Counted, Fits;
      KeyIs(entries, k, e.ns, e.name);
      FreeSlotIs(entries, Length(e));
      OffMarked(entries, k, f);
      FitsIs(e);
      Bounded();
      MarkOld(k, at, length);
      var ok := PutEntry(f, free, e);
      SaveHeader();
      return Ok(());
    }

    /** Sets an attribute. */
    method Set(ns: byte, name: seq<byte>, value: seq<byte>, flag: nat) returns (r: Result<()>)
      requires Valid() && Small(Entry(true, ns, name, value))
      modifies this
      ensures Valid() && numClus + freeClus == old(numClus + freeClus)
      ensures base == if old(numClus) > 0 then old(base) else if r.Ok? then HEADER else 0
      ensures old(numClus) == 0 && r.Ok? ==> usedSpace == HEADER + Length(Entry(true, ns, name, value))
      ensures var l := Length(Entry(true, ns, name, value));
              totalSpace == if r.Err? || !old(Fits(Entry(true, ns, name, value))) then old(totalSpace)
                            else if old(numClus) == 0 then HEADER + l else (old(totalSpace) + l) % 0x1_0000_0000
      ensures r.Ok? || (r == Err(ENOSPC) && Cover(HEADER + HEAD, clusterSize) <= old(numClus + freeClus)) ==> numClus > 0
      ensures var e, key := Entry(true, ns, name, value), (ns, name);
              var was, now := old(Attrs()), old(Attrs())[key := value];
              if old(numClus) == 0 then
                if flag / REPLACE % 2 == 1 then r == Err(ENOATTR) && Attrs() == was
                else if old(Fits(e)) then r == Ok(()) && Attrs() == now
                else r == Err(ENOSPC) && Attrs() == was
              else if old(usedSpace) + Length(e) > THRESHOLD then r == Err(ENOSPC) && Attrs() == was
              else if key in was then
                if flag == CREATE then r == Err(EEXIST) && Attrs() == was
                else r == Ok(()) && Attrs() == if old(Fits(e)) then now else was - {key}
              else if flag == REPLACE then r == Err(ENOATTR) && Attrs() == was
              else if |was| >= MAX_ENTRIES then r == Err(ENOSPC) && Attrs() == was
              else if old(Fits(e)) then r == Ok(()) && Attrs() == now
              else r == Err(ENOSPC) && Attrs() == was
    {
      hide Image, EncodeHead, Cover, Kept, At, Live, Space, Map, Off, Length, FreeFrom, DistinctKeys, Tiled;
      var e := Entry(true, ns, name, value);
      if numClus == 0 {
        if flag / REPLACE % 2 == 1 {
          return Err(ENOATTR);
        }
        EmptyFits(entries, Length(e));
        r := CreateFirst(e);
        return;
      }
      if usedSpace + Length(e) > THRESHOLD {
        return Err(ENOSPC);
      }
      MapHas(entries, ns, name);
      MapSize(entries);
      ghost var f := FreeFrom(entries, 0, Length(e));
      var looked, k := Lookup(ns, name, true, Length(e));
      if looked.Err? {
        return Err(EIO);
      }
      var found := looked.value;
      if found.hit {
        if flag == CREATE {
          return Err(EEXIST);
        }
        r := ReplaceOld(k, found.at, found.head.entryLen, f, found.free, e);
        return;
      }
      if flag == REPLACE {
        return Err(ENOATTR);
      }
      if MAX_ENTRIES <= validCount {
        return Err(ENOSPC);
      }
      r := AddNew(f, found.free, e);
    }

    method AddNew(ghost f: nat, free: nat, e: Entry) returns (r: Result<()>)
      requires Valid() && numClus > 0 && Small(e) && e.used && forall j :: !KeyAt(entries, j, e.ns, e.name)
      requires f == FreeFrom(entries, 0, Length(e)) && free == Off(entries, f)
      requires usedSpace + Length(e) <= THRESHOLD && validCount < MAX_ENTRIES
      modifies this
      ensures Valid() && numClus > 0 && r == if old(Fits(e)) then Ok(()) else Err(ENOSPC)
      ensures Attrs() == if old(Fits(e)) then old(Attrs())[(e.ns, e.name) := e.value] else old(Attrs())
      ensures totalSpace == if old(Fits(e)) then (old(totalSpace) + Length(e)) % 0x1_0000_0000 else old(totalSpace)
      ensures numClus + freeClus == old(numClus + freeClus)
      ensures base == old(base)
    {
      hide Image, EncodeHead, Cover, Kept, At, Live, Space, Map, Off, Length, FreeFrom, DistinctKeys, Tiled, KeyAt;
      FreeSlotIs(entries, Length(e));
      ghost var was := area;
      var ok := PutEntry(f, free, e);
      if !ok {
        HeaderStays(was, area, entries, f, |Image(e)|);
        return Err(ENOSPC);
      }
      SaveHeader();
      return Ok(());
    }

    /** Deletes an attribute. */
    method Delete(ns: byte, name: seq<byte>) returns (r: Result<()>)
      requires Valid()
      modifies this
      ensures Valid() && numClus == old(numClus) && freeClus == old(freeClus) && base == old(base)
      ensures r == if (ns, name) in old(Attrs()) then Ok(()) else Err(ENOATTR)
      ensures Attrs() == old(Attrs()) - {(ns, name)} && totalSpace == old(totalSpace)
    {
      hide Image, EncodeHead, Cover, Kept, At, Live, Space, Map, Off, Length, FreeFrom, DistinctKeys, Tiled, Roomy,
           Counted, Laid, Headed;
      Parts();
      MapHas(entries, ns, name);
      if numClus == 0 {
        EmptyList();
        return Err(ENOATTR);
      }
      var looked, k := Lookup(ns, name, false, 0);
      if looked.Err? {
        return Err(EIO);
      }
      if !looked.value.hit {
        NothingOut(Attrs(), (ns, name));
        return Err(ENOATTR);
      }
      MarkOld(k, looked.value.at, looked.value.head.entryLen);
      SaveHeader();
      return Ok(());
    }

    /** Reads an attribute; with an empty buffer, only its size. */
    method Get(ns: byte, name: seq<byte>, buffer: nat) returns (r: Result<(nat, seq<byte>)>)
      requires Valid()
      ensures var key := (ns, name);
              if key !in Attrs() then r == Err(ENOATTR)
              else if buffer == 0 then r == Ok((|Attrs()[key]|, []))
              else if buffer < |Attrs()[key]| then r == Err(ERANGE)
              else r == Ok((|Attrs()[key]|, Attrs()[key]))
    {
      hide Image, EncodeHead, Cover, Kept, At, Live, Space, Map, Off, Length, FreeFrom, DistinctKeys, Tiled;
      MapHas(entries, ns, name);
      if numClus == 0 {
        return Err(ENOATTR);
      }
      var looked, k := Lookup(ns, name, false, 0);
      if looked.Err? {
        return Err(EIO);
      }
      if !looked.value.hit {
        return Err(ENOATTR);
      }
      var head := looked.value.head;
      if buffer == 0 {
        return Ok((head.valueLen, []));
      }
      if buffer < head.valueLen {
        return Err(ERANGE);
      }
      HeadAt(area, entries, k);
      var value := Read(area, looked.value.at + HEAD + head.nameLen, head.valueLen);
      return Ok((head.valueLen, value));
    }

    // Appends prefix, name and terminator.
    method AddLine(before: seq<byte>, head: Head, offset: nat, ghost i: nat) returns (list: seq<byte>)
      requires Roomy() && Laid() && |prefixes| == 5 && i < |entries| && head == HeadOf(entries[i]) && offset == Off(entries, i)
      ensures list == before + Line(prefixes, (entries[i].ns, entries[i].name))
    {
      hide Image, EncodeHead, At, Off, Length, DistinctKeys, Tiled, Pad;
      HeadAt(area, entries, i);
      list := before + prefixes[head.ns - 1];
      if head.nameLen != 0 {
        var name := Read(area, offset + HEAD, head.nameLen);
        list := list + name;
      }
      list := list + [0];
    }

    // Counts the line of a used entry, and appends it when the buffer has room.
    method NextLine(size: nat, total: nat, before: seq<byte>, head: Head, offset: nat, ghost i: nat)
      returns (short: bool, n: nat, list: seq<byte>)
      requires Roomy() && Laid() && |prefixes| == 5 && i < |entries| && head == HeadOf(entries[i]) && offset == Off(entries, i)
      ensures var line := Line(prefixes, (entries[i].ns, entries[i].name));
              && n == total + |line| && (short <==> 0 < size < n)
              && list == if short || size == 0 then before else before + line
    {
      hide Image, EncodeHead, At, Off, Length, DistinctKeys, Tiled, Pad, Line;
      HeadAt(area, entries, i);
      LineLength(prefixes, (entries[i].ns, entries[i].name));
      short, n, list := false, total + |prefixes[head.ns - 1]| + head.nameLen + 1, before;
      if size > 0 {
        if size < n {
          return true, n, before;
        }
        list := AddLine(before, head, offset, i);
      }
    }

    /** Lists the names. A buffer that is too small is reported as an empty list: the error code is dropped. */
    method List(size: nat) returns (n: nat, list: seq<byte>)
      requires Valid()
      ensures var all := Listing(prefixes, Keys(entries));
              && (size == 0 ==> n == |all| && list == [])
              && (size >= |all| && size > 0 ==> n == |all| && list == all)
              && (0 < size < |all| ==> n == 0 && list < all)
    {
      hide Image, EncodeHead, Cover, Kept, At, Live, LiveFrom, Space, Map, Off, Length, FreeFrom, DistinctKeys, Tiled, Keys,
           Listing, Line, Lines, Roomy, Counted, Laid, Headed, KeyAt;
      var left, cursor, total := validCount, HEADER, 0;
      n, list := 0, [];
      Parts();
      LinesWhole(prefixes, entries);
      OffStart(entries);
      LiveWhole(entries);
      LiveLeft(entries, 0);
      if left == 0 {
        return 0, [];
      }
      ghost var i := 0;
      while left > 0
        invariant i <= |entries| && cursor == Off(entries, i) && left == LiveFrom(entries, i)
        invariant left > 0 <==> i < |entries|
        invariant total == |Lines(prefixes, entries, i)|
        invariant size > 0 ==> list == Lines(prefixes, entries, i)
        invariant size == 0 ==> list == []
        invariant size > 0 ==> total <= size
        decreases |entries| - i
      {
        HeadAt(area, entries, i);
        LiveSplit(entries, i);
        LiveLeft(entries, i + 1);
        OffNext(entries, i);
        LinesNext(prefixes, entries, i);
        LinesGrow(prefixes, entries, i + 1);
        var read := ReadHead(cursor);
        if read.Err? {
          return;
        }
        var head := read.value;
        if head.flag / DELETED % 2 == 0 {
          var short;
          short, total, list := NextLine(size, total, list, head, cursor, i);
          if short {
            return 0, list;
          }
          left := left - 1;
        }
        cursor := cursor + head.entryLen;
        i := i + 1;
      }
      return total, list;
    }
  }

  // ----- what does not hold, on one cluster of 512 bytes

  function Long(): (value: seq<byte>)
    ensures |value| == 600
  {
    seq(600, _ => 7)
  }

  method OneCluster() returns (a: Area)
    ensures fresh(a) && a.Valid() && a.Attrs() == map[] && a.numClus == 0 && a.freeClus == 1 && a.clusterSize == 512
    ensures a.prefixes == [[], [], [], [], []]
  {
    a := new Area(512, [[], [], [], [], []], 1);
  }

  method OneAttribute() returns (a: Area)
    ensures fresh(a) && a.Valid() && a.Attrs() == map[(1, [65]) := [66]] && a.numClus + a.freeClus == 1 && a.numClus > 0
    ensures a.clusterSize == 512 && a.usedSpace == HEADER + 64 && a.prefixes == [[], [], [], [], []]
  {
    a := OneCluster();
    var e := Entry(true, 1, [65], [66]);
    assert |Image(e)| == 34 && Length(e) == 64;
    NothingHeld(a.entries);
    FitsFirst(a.entries, e, 512);
    assert a.Fits(e);
    var r := a.Set(1, [65], [66], 0);
  }

  /** The new value does not fit, the call reports success, and the attribute is gone. */
  method ReplacementLost() returns (a: Area, r: Result<()>)
    ensures fresh(a) && a.Valid() && r == Ok(()) && a.Attrs() == map[]
  {
    a := OneAttribute();
    var e := Entry(true, 1, [65], Long());
    TooLong(a.entries, e, 512);
    assert Length(e) == 640;
    assert !a.Fits(e);
    r := a.Set(1, [65], Long(), 0);
  }

  /** There is an attribute, the buffer is too small for its name, and the length reported is 0. */
  method ListingLost() returns (a: Area, n: nat)
    ensures fresh(a) && a.Valid() && n == 0 && a.Attrs() == map[(1, [65]) := [66]]
  {
    a := OneAttribute();
    ListingOne(a.prefixes, a.entries, 1, [65], [66]);
    var list;
    n, list := a.List(1);
  }

  lemma ListingOne(prefixes: seq<seq<byte>>, entries: seq<Entry>, ns: byte, name: seq<byte>, value: seq<byte>)
    requires DistinctKeys(entries) && Map(entries) == map[(ns, name) := value] && |name| > 0
    ensures |Listing(prefixes, Keys(entries))| > 1
  {
    KeysAre(entries);
    var keys := Keys(entries);
    assert keys[0] in keys;
    assert |keys| == 1 && keys[0] == (ns, name) && keys[..0] == [];
  }

  /** The first attribute runs out of space half way; the next one succeeds, and the space in
      use never counts the header. */
  method HeaderUncounted() returns (a: Area, first: Result<()>, second: Result<()>)
    ensures fresh(a) && a.Valid() && first == Err(ENOSPC) && second == Ok(())
    ensures a.Attrs() == map[(1, [65]) := [66]] && a.usedSpace == Space(a.entries)
  {
    a := OneCluster();
    var e, f := Entry(true, 1, [65], Long()), Entry(true, 1, [65], [66]);
    TooLong(a.entries, e, 512);
    assert !a.Fits(e);
    CoverIs(HEADER + HEAD, 1, 512);
    first := a.Set(1, [65], Long(), 0);
    NothingHeld(a.entries);
    assert |Image(f)| == 34 && Length(f) == 64;
    FitsFirst(a.entries, f, 512);
    assert a.Fits(f);
    second := a.Set(1, [65], [66], 0);
  }
}
