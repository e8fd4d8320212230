/** What a log record holds, and the metadata it talks about: the table and
    the directory slots. A slot is addressed by its directory's start cluster
    and its index there. */
module Records {
  import opened Results
  import opened Fat
  import opened Marks

  const LOG_MAX_COUNT: nat := 256
  const MAX_RECORDS: nat := 127
  const MAX_CHUNKS: nat := 19

  datatype TrType = NONE | CREATE | RENAME | WRITE | TRUNCATE_F | TRUNCATE_B | UNLINK
                  | DEL_INODE | SYMLINK | REPLAY | XATTR

  // A run of consecutive clusters.
  datatype Chunk = Chunk(start: nat, count: nat)

  datatype DeallocInfo = DeallocInfo(pdir: nat, entry: nat, fLast: nat,
                                     lPrev: nat, lNext: nat, next: nat)

  datatype Rec =
    | Commit
    | Abort
    | Start
    | AllocChain(pdir: nat, entry: nat, isXattr: bool, ctime: nat, cdate: nat,
                 dPrev: nat, dNext: nat, clus: seq<nat>)
    | BuildEntry(pdir: nat, entry: nat, num: nat)
    | RemoveEntry(pdir: nat, entry: nat, undel: seq<nat>)
    | MoveChain(pdir: nat, entry: nat, isXattr: bool, dPrev: nat, head: nat, tail: nat)
    | Dealloc(info: DeallocInfo, chunks: seq<Chunk>, recordCount: nat, signature: nat)
    | Mrc(info: DeallocInfo)

  datatype LogRecord = LogRecord(seqno: nat, trType: TrType, rec: Rec, magic: bool)

  // A sector of a freshly initialised log file: all zero.
  const BLANK := LogRecord(0, NONE, Commit, false)

  datatype Loc = Loc(pdir: nat, entry: nat)

  /** A directory slot: the first name byte, the start cluster, the attribute
      bit and the two time words an extended-attribute chain borrows, and
      everything else it holds about the name. */
  datatype Slot = Slot(mark: nat, start: nat, xflag: bool, ctime: nat, cdate: nat, body: nat)

  type Dir = map<Loc, Slot>

  datatype Meta = Meta(fat: Table, dir: Dir)

  predicate IsFree(s: Slot) {
    FreeMark(s.mark)
  }

  function FatWrite(t: Table, c: nat, v: nat): Result<Table> {
    if !ValidClu(t, c) then Err(EINVAL)
    else if !ValidContent(t, v) then Err(EIO)
    else Ok(t[c := v])
  }
}
