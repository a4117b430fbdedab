/**
 * The part of `std::fs::Metadata` the listing reads, as a plain record: the
 * file type, the `st_mode` word, the size in bytes, the 512-byte block count
 * and the link count.
 */
module FileInfo {

  /** `FileType`, with the cases `FileTypeExt` distinguishes; fifos and sockets are `OtherFile`. */
  datatype FileType = Directory | Symlink | BlockDevice | CharDevice | RegularFile | OtherFile

  datatype Metadata = Metadata(
    fileType: FileType,
    mode: bv32,    // `permissions().mode()`: the whole `st_mode` word
    size: nat,     // `len()`
    blocks: nat,   // `blocks()`: 512-byte blocks allocated
    nlink: nat)    // `nlink()`

  predicate IsDir(m: Metadata) {
    m.fileType == Directory
  }

  predicate IsSymlink(m: Metadata) {
    m.fileType == Symlink
  }
}
