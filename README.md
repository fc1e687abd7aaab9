# Imprint: a verified model of sampled file fingerprints

`imprint` computes a cheap fingerprint of a file, an `Imprint`. It hashes a head window of at
most `SAMPLE_SIZE` (0x80000 bytes, 512 KiB) from the start of the file. When the file is longer
than one sample, it also hashes a tail window of at most `SAMPLE_SIZE` bytes that ends at the
last byte. The two digests are compared structurally.

This project models that core in Dafny:

- `ints.dfy`: the source's `u64`, `i64` and byte types, as ranges of unbounded integers.
- `sampling.dfy` (module `Sampling`): `SAMPLE_SIZE`, `HeadLength` and `TailLength`. These follow
  the source's i64 arithmetic, including the special case for lengths above `i64::MAX`. Lemmas
  tie them to the plain description `min(len, SAMPLE_SIZE)` and `min(len - SAMPLE_SIZE,
  SAMPLE_SIZE)`, prove the exact boundaries, and prove that the two windows never overlap and
  fit the one buffer. Each subtraction and each slice is range-checked by the verifier. This
  includes `len as i64 - SAMPLE_SIZE` and `buffer[..n]`.
- `file_model.dfy` (module `FileModel`): a `Snapshot` of a path. It records whether the metadata
  call succeeded, whether the path is a regular file, the length that call reports, whether the
  open succeeded, and the bytes later read. A `Reader` class stands for the open file. It holds
  a position that `ReadExact` ("take the next n bytes or fail") advances and `SeekFromEnd`
  ("move to |contents| + offset, failing before 0") moves.
- `imprint.dfy` (module `Imprints`): the `Imprint` datatype. Dafny's structural datatype equality
  plays the role of the derived `PartialEq`. The module also holds `ReadLen` and the imperative
  `HashFromStart`, `HashFromEnd` and `New`. `New` allocates one `array<byte>` of `SAMPLE_SIZE`
  bytes, fills it in place for the head, and then overwrites it for the tail. `ImprintOf` is
  the reference description in unbounded arithmetic. `New` is proved to return exactly
  `ImprintOf` of its snapshot. That proof shows that the seek for the tail can never fail once
  the head read has succeeded, and that construction is deterministic in the snapshot.
  `HeadWindow` and `TailWindow` name the two sampled windows of a file's contents.
- `imprint_properties.dfy` (module `ImprintProperties`): what an imprint does and does not
  determine about the contents.

The digest function is a parameter `hash: seq<byte> -> Digest`: deterministic and otherwise
uninterpreted. Lemmas that need distinct inputs to give distinct digests say so: most with the
idealised `CollisionFree` requirement, and `EmptyAndZeroByteDiffer` only with
`hash([]) != hash([0])`.

The error for a path that is not a regular file is `io::ErrorKind::Other` with a message in the
source (src/lib.rs:43-46). The model gives it its own constructor, `NotAFile`. The source has no
length-only metadata key, so none is modelled.

## Model

| member | source | states |
|---|---|---|
| `Sampling.HeadLength` | src/lib.rs:79-85 | the head length lies in `0..=SAMPLE_SIZE` and never exceeds the file length |
| `Sampling.TailLength` | src/lib.rs:87-96 | the i64 subtraction cannot overflow; there is no tail exactly when `len <= SAMPLE_SIZE`; a tail has length in `1..=SAMPLE_SIZE` and the head and tail together fit in the file |
| `Sampling.HeadLengthIsMin` | src/lib.rs:79-85 | for every u64 length, including those above `i64::MAX`, the head length is `min(len, SAMPLE_SIZE)` |
| `Sampling.TailLengthIsReference` | src/lib.rs:87-96 | for every u64 length, a present tail is `min(len - SAMPLE_SIZE, SAMPLE_SIZE)` bytes |
| `Sampling.HugeLengthsSampleFully` | src/lib.rs:80-81 | lengths above `i64::MAX` give a full `SAMPLE_SIZE` head and tail |
| `Sampling.Boundaries` | src/lib.rs:79-96 | length 0 gives head 0 and no tail; `SAMPLE_SIZE` gives no tail; `SAMPLE_SIZE + 1` gives a 1-byte tail; `2 * SAMPLE_SIZE` gives two full windows |
| `Sampling.WindowsDisjoint` | src/lib.rs:79-96 | with a tail, the head window ends at or before the tail window starts; they meet with no unsampled middle iff `len <= 2 * SAMPLE_SIZE` |
| `Sampling.TailFitsWithinHead` | src/lib.rs:22-31 | a tail is never longer than the head, so after a successful head read the seek back from the end has room |
| `FileModel.Reader.Open` | src/lib.rs:21 | a freshly opened file is positioned at byte 0 |
| `FileModel.Reader.ReadExact` | src/lib.rs:52 | succeeds iff `n` is 0 or `n` bytes remain (an empty read succeeds even past the end); then `buffer[..n]` holds exactly the next `n` bytes, the rest of the buffer is untouched and the position advances by `n` |
| `FileModel.Reader.SeekFromEnd` | src/lib.rs:61 | moves to `len + offset`, and fails without moving when that lies before the start |
| `Imprints.ReadLen` | src/lib.rs:40-49 | a failed metadata call and a non-regular path are errors; otherwise the result is the reported length |
| `Imprints.HashFromStart` | src/lib.rs:51-54 | the digest of the next `n` bytes, which are then left in `buffer[..n]` with the rest of the buffer untouched and the position past them; the digest of `[]` when `n` is 0; or `UnexpectedEof` on a short read, with reader and buffer unchanged |
| `Imprints.HashFromEnd` | src/lib.rs:56-64 | the digest of the last `offset` bytes of the file (seek to `End(-offset)`, then read), which are then left in `buffer[..offset]` with the rest untouched and the reader at end of file; or a seek error when the file is shorter, with reader and buffer unchanged |
| `Imprints.New` | src/lib.rs:17-37 | the single-buffer construction returns exactly the reference imprint: the hash of the first `min(len, SAMPLE_SIZE)` bytes and, iff `len > SAMPLE_SIZE`, the hash of the last `min(len - SAMPLE_SIZE, SAMPLE_SIZE)` bytes; errors abort with no imprint; deterministic in the snapshot |
| `ImprintProperties.StableFileSucceeds` | src/lib.rs:17-37 | a regular file unchanged between stat and read always gets an imprint, with a tail iff it is longer than one sample |
| `ImprintProperties.BoundaryImprints` | src/lib.rs:24-31 | empty file: `hash([])` and no tail; `SAMPLE_SIZE` bytes: hash of the whole file, no tail; one byte more: tail is the hash of the last byte; `2 * SAMPLE_SIZE`: hashes of the two adjacent halves |
| `ImprintProperties.SameWindowsSameImprint` | src/lib.rs:10-14 | unchanged files whose head windows and tail windows agree get equal imprints, whatever their lengths and their middles |
| `ImprintProperties.ImprintIdentifiesWindows` | src/lib.rs:10-14 | with a collision-free digest, two unchanged files get equal imprints iff their head windows and their tail windows agree |
| `ImprintProperties.SameEndsSameImprint` | src/lib.rs:24-31 | files of at least two samples, of equal or different lengths, whose first and last `SAMPLE_SIZE` bytes agree get equal imprints |
| `ImprintProperties.MiddleByteChangeCollides` | src/lib.rs:10-14 | changing a byte between the windows of a file longer than two samples gives a different file with the same imprint (the deliberate collision) |
| `ImprintProperties.ExactUpToTwoSamples` | src/lib.rs:24-31 | for files of at most two samples and a collision-free digest, imprints are equal iff contents are equal |
| `ImprintProperties.EmptyAndZeroByteDiffer` | src/lib.rs:24-31 | an empty file and the file `[0x00]` get different imprints, both without a tail, whenever the digest distinguishes `[]` from `[0x00]` |
| `ImprintProperties.TruncatedFileAborts` | src/lib.rs:52 | a file that shrank below its head window after the metadata call fails with `UnexpectedEof` and yields no imprint |

## Left out

- SHA-256 itself (src/lib.rs:66-77) is a foreign call. It is a function parameter with no properties beyond determinism, and the idealised `CollisionFree` assumption where a lemma needs it.
- The real file system and OS calls (`fs::metadata`, `File::open`, `seek`, `read_exact`) are replaced by a `Snapshot` value. Metadata and open failures are boolean fields of that value, not the result of a path lookup.
- A file changing between the metadata call and the reads is modelled only as a snapshot whose reported length differs from its contents. Interleavings and concurrent writers are not modelled.
- FileModel.Reader.ReadExact: on a short read the model fails without writing the buffer and without moving the position, whereas `read_exact` may have filled part of the buffer and consumed an unspecified number of bytes. The construction discards both the buffer and the reader on that path.
- The `seek` unit test (src/lib.rs:98-116) uses `Cursor` and `String`. It only informs the seek-from-end semantics of `SeekFromEnd` and `HashFromEnd`.
- The `Clone`, `Debug` and `Hash` derives, and any textual display of digests, are not modelled. Only structural equality is.
- A length-only metadata key is not part of this model: the source file defines none.
