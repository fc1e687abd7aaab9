/** The imprint of a file: a digest of its head sample and, for files longer than
    one sample, a digest of its tail sample. */
module Imprints {
  import opened Wrappers
  import opened Ints
  import opened Sampling
  import opened FileModel

  /** A digest as produced by the hash function (a boxed byte slice in the source). */
  type Digest = seq<byte>

  /** Equality on this datatype is structural, as the derived `PartialEq` is: two
      imprints are equal exactly when their heads are equal and their tails are
      both absent or both present and equal. */
  datatype Imprint = Imprint(head: Digest, tail: Option<Digest>)

  /** The reference description of the imprint of a snapshot, in unbounded
      arithmetic: the hash of the first `min(len, SAMPLE_SIZE)` bytes and, when
      `len > SAMPLE_SIZE`, the hash of the last `min(len - SAMPLE_SIZE, SAMPLE_SIZE)`
      bytes, where `len` is the length reported by the metadata call.  Any failure
      aborts the construction. */
  function ImprintOf(s: Snapshot, hash: seq<byte> -> Digest): Result<Imprint, Error> {
    if !s.statOk then Failure(MetadataFailed)
    else if !s.isFile then Failure(NotAFile)
    else if !s.openOk then Failure(OpenFailed)
    else if |s.contents| < Min(s.statLen, SAMPLE_SIZE) then Failure(UnexpectedEof)
    else
      var c := s.contents;
      var head := hash(c[..Min(s.statLen, SAMPLE_SIZE)]);
      if s.statLen <= SAMPLE_SIZE then Success(Imprint(head, None))
      else Success(Imprint(head, Some(hash(c[|c| - Min(s.statLen - SAMPLE_SIZE, SAMPLE_SIZE)..]))))
  }

  /** The head window of a file with contents `c`: its first `min(|c|, SAMPLE_SIZE)` bytes. */
  function HeadWindow(c: seq<byte>): seq<byte> {
    c[..Min(|c|, SAMPLE_SIZE)]
  }

  /** The tail window of a file with contents `c`: absent up to one sample, otherwise
      its last `min(|c| - SAMPLE_SIZE, SAMPLE_SIZE)` bytes. */
  function TailWindow(c: seq<byte>): Option<seq<byte>> {
    if |c| <= SAMPLE_SIZE then None
    else Some(c[|c| - Min(|c| - SAMPLE_SIZE, SAMPLE_SIZE)..])
  }

  /** The metadata step: the file length, or an error for a failed metadata call or
      a path that is not a regular file. */
  function ReadLen(s: Snapshot): (r: Result<u64, Error>)
    ensures r.Success? <==> s.statOk && s.isFile
    ensures r.Success? ==> r.value == s.statLen
    ensures !s.statOk ==> r == Failure(MetadataFailed)
    ensures s.statOk && !s.isFile ==> r == Failure(NotAFile)
  {
    if !s.statOk then Failure(MetadataFailed)
    else if !s.isFile then Failure(NotAFile)
    else Success(s.statLen)
  }

  /** Reads the next `n` bytes into `buffer[..n]` and hashes them. */
  method HashFromStart(reader: Reader, buffer: array<byte>, n: nat, hash: seq<byte> -> Digest)
    returns (d: Result<Digest, Error>)
    requires n <= buffer.Length
    modifies reader, buffer
    ensures old(reader.pos) + n <= |reader.contents| ==>
      d == Success(hash(reader.contents[old(reader.pos)..old(reader.pos) + n])) &&
      buffer[..n] == reader.contents[old(reader.pos)..old(reader.pos) + n]
    ensures n == 0 ==> d == Success(hash([]))
    ensures n > 0 && old(reader.pos) + n > |reader.contents| ==> d == Failure(UnexpectedEof)
    ensures d.Success? ==> reader.pos == old(reader.pos) + n && buffer[n..] == old(buffer[n..])
    ensures d.Failure? ==> reader.pos == old(reader.pos) && buffer[..] == old(buffer[..])
  {
    var ok := reader.ReadExact(buffer, n);
    if !ok {
      return Failure(UnexpectedEof);
    }
    assert n == 0 ==> buffer[..n] == [];
    d := Success(hash(buffer[..n]));
  }

  /** Seeks `offset` bytes back from the end, reads that many bytes into
      `buffer[..offset]` and hashes them: the digest of the last `offset` bytes. */
  method HashFromEnd(reader: Reader, buffer: array<byte>, offset: i64, hash: seq<byte> -> Digest)
    returns (d: Result<Digest, Error>)
    requires 0 <= offset <= buffer.Length
    modifies reader, buffer
    ensures offset <= |reader.contents| ==>
      d == Success(hash(reader.contents[|reader.contents| - offset..]))
    ensures offset > |reader.contents| ==> d == Failure(SeekFailed)
    ensures d.Success? ==>
      reader.pos == |reader.contents| &&
      buffer[..offset] == reader.contents[|reader.contents| - offset..] &&
      buffer[offset..] == old(buffer[offset..])
    ensures d.Failure? ==> reader.pos == old(reader.pos) && buffer[..] == old(buffer[..])
  {
    var sought := reader.SeekFromEnd(-offset);
    if !sought {
      return Failure(SeekFailed);
    }
    // After the seek exactly `offset` bytes remain, so this read cannot come up short.
    var ok := reader.ReadExact(buffer, offset);
    assert reader.contents[|reader.contents| - offset..|reader.contents|]
      == reader.contents[|reader.contents| - offset..];
    d := if ok then Success(hash(buffer[..offset])) else Failure(UnexpectedEof);
  }

  /** `Imprint::new`: stat the path, open it, hash the head through one buffer of
      SAMPLE_SIZE bytes, then reuse that buffer for the tail.  The result is the
      reference imprint of the snapshot; in particular the seek for the tail never
      fails once the head has been read, and construction is deterministic. */
  method New(s: Snapshot, hash: seq<byte> -> Digest) returns (r: Result<Imprint, Error>)
    ensures r == ImprintOf(s, hash)
  {
    var lenResult := ReadLen(s);
    if lenResult.Failure? {
      return Failure(lenResult.error);
    }
    var len := lenResult.value;
    if !s.openOk {
      return Failure(OpenFailed);
    }
    var reader := new Reader.Open(s.contents);
    var buffer := new byte[SAMPLE_SIZE](_ => 0);

    HeadLengthIsMin(len);
    var head := HashFromStart(reader, buffer, HeadLength(len), hash);
    if head.Failure? {
      return Failure(head.error);
    }

    // The tail is hashed only after the head digest has been computed, so the
    // buffer can be overwritten.
    TailLengthIsReference(len);
    var tailLength := TailLength(len);
    var tail: Result<Option<Digest>, Error> := Success(None);
    if tailLength.Some? {
      TailFitsWithinHead(len);
      var d := HashFromEnd(reader, buffer, tailLength.value, hash);
      tail := match d
        case Success(digest) => Success(Some(digest))
        case Failure(e) => Failure(e);
    }
    r := match tail
      case Success(t) => Success(Imprint(head.value, t))
      case Failure(e) => Failure(e);
  }
}
