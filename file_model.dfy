/** The file system as the imprint code sees it: one snapshot of a path, and an open
    file handle whose position is moved by reads and seeks. */
module FileModel {
  import opened Ints

  /** What a path shows during one construction.  `statLen` is the length reported by
      the metadata call and `contents` the bytes later read through the handle; they
      differ only when the file changed in between.  `statOk` and `openOk` say whether
      the metadata call and the open succeeded. */
  datatype Snapshot = Snapshot(
    statOk: bool,
    isFile: bool,
    statLen: u64,
    openOk: bool,
    contents: seq<byte>)
  {
    /** A regular file that can be inspected and opened, unchanged between stat and read. */
    predicate IsStableFile() {
      statOk && isFile && openOk && statLen == |contents|
    }
  }

  /** The I/O failures the construction can report. */
  datatype Error =
    | MetadataFailed  // the metadata call failed
    | NotAFile        // the path is a directory or other non-regular file
    | OpenFailed      // the file could not be opened
    | SeekFailed      // a seek would have moved before the start of the file
    | UnexpectedEof   // read_exact found fewer bytes than requested

  /** An open file: its bytes and the current position. */
  class Reader {
    const contents: seq<byte>
    var pos: nat

    constructor Open(contents: seq<byte>)
      ensures this.contents == contents && pos == 0
    {
      this.contents := contents;
      pos := 0;
    }

    /** Fills `buffer[..n]` with the next `n` bytes and advances past them, or fails
        when fewer than `n` bytes remain.  Reading nothing always succeeds, even from
        a position beyond the end of the file. */
    method ReadExact(buffer: array<byte>, n: nat) returns (ok: bool)
      requires n <= buffer.Length
      modifies this, buffer
      ensures ok <==> n == 0 || old(pos) + n <= |contents|
      ensures ok ==> pos == old(pos) + n && buffer[n..] == old(buffer[n..])
      ensures ok && old(pos) + n <= |contents| ==> buffer[..n] == contents[old(pos)..old(pos) + n]
      ensures !ok ==> pos == old(pos) && buffer[..] == old(buffer[..])
    {
      if n > 0 && pos + n > |contents| {
        return false;
      }
      if n > 0 {
        forall i | 0 <= i < n {
          buffer[i] := contents[pos + i];
        }
      }
      pos := pos + n;
      ok := true;
    }

    /** `seek(SeekFrom::End(offset))`: moves to `|contents| + offset`, or fails, leaving
        the position alone, when that lies before the start of the file. */
    method SeekFromEnd(offset: i64) returns (ok: bool)
      modifies this
      ensures ok <==> |contents| + offset >= 0
      ensures pos == if ok then |contents| + offset else old(pos)
    {
      if |contents| + offset < 0 {
        return false;
      }
      pos := |contents| + offset;
      ok := true;
    }
  }
}
