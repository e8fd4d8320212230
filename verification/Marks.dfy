/** What all views of a directory slot share: the marks of a free one, and the
    length of a short name. */
module Marks {
  const UNUSED_MARK: nat := 0x00
  const DELETE_MARK: nat := 0xE5
  const DOS_NAME_LENGTH: nat := 11

  predicate FreeMark(mark: nat)
    ensures FreeMark(mark) <==> mark == 0 || mark == 0xE5
  {
    mark == UNUSED_MARK || mark == DELETE_MARK
  }
}
