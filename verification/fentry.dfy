/** A file entry: the name, the byte size and the index of the first node of
    the file's chain (`-1` while the file holds no blocks). */
module FEntries {

  datatype FEntry = FEntry(filename: string, filesize: int, firstBlock: int)

  /** `setFilesize`: replaces the size, keeps name and first node. */
  function SetFilesize(e: FEntry, size: int): (e': FEntry)
    ensures e'.filesize == size
    ensures e'.filename == e.filename && e'.firstBlock == e.firstBlock
  {
    e.(filesize := size)
  }

  /** `setFirstBlock`: replaces the first node, keeps name and size. */
  function SetFirstBlock(e: FEntry, first: int): (e': FEntry)
    ensures e'.firstBlock == first
    ensures e'.filename == e.filename && e'.filesize == e.filesize
  {
    e.(firstBlock := first)
  }
}
