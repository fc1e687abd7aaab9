/** What the imprint does and does not tell about a file's contents. */
module ImprintProperties {
  import opened Wrappers
  import opened Ints
  import opened Sampling
  import opened FileModel
  import opened Imprints

  /** An idealised digest: distinct byte sequences get distinct digests. */
  ghost predicate CollisionFree(hash: seq<byte> -> Digest) {
    forall a, b :: hash(a) == hash(b) ==> a == b
  }

  /** A regular file that does not change while it is read always gets an imprint:
      neither the head read, nor the seek back from the end, nor the tail read can fail. */
  lemma StableFileSucceeds(s: Snapshot, hash: seq<byte> -> Digest)
    requires s.IsStableFile()
    ensures ImprintOf(s, hash).Success?
    ensures ImprintOf(s, hash).value.tail.Some? <==> |s.contents| > SAMPLE_SIZE
  {
  }

  /** The imprints of files at the sampling boundaries: an empty file hashes the empty
      sequence, a file of exactly one sample is hashed whole with no tail, one byte
      more adds a tail of just the last byte, and a file of two samples is split into
      two adjacent halves. */
  lemma BoundaryImprints(s: Snapshot, hash: seq<byte> -> Digest)
    requires s.IsStableFile()
    ensures |s.contents| == 0 ==> ImprintOf(s, hash) == Success(Imprint(hash([]), None))
    ensures |s.contents| == SAMPLE_SIZE ==> ImprintOf(s, hash) == Success(Imprint(hash(s.contents), None))
    ensures |s.contents| == SAMPLE_SIZE + 1 ==>
      ImprintOf(s, hash) == Success(Imprint(hash(s.contents[..SAMPLE_SIZE]), Some(hash([s.contents[SAMPLE_SIZE]]))))
    ensures |s.contents| == 2 * SAMPLE_SIZE ==>
      ImprintOf(s, hash) == Success(Imprint(hash(s.contents[..SAMPLE_SIZE]), Some(hash(s.contents[SAMPLE_SIZE..]))))
  {
    var c := s.contents;
    if |c| == 0 {
      assert c[..0] == [];
    } else if |c| == SAMPLE_SIZE {
      assert c[..SAMPLE_SIZE] == c;
    } else if |c| == SAMPLE_SIZE + 1 {
      assert c[SAMPLE_SIZE..] == [c[SAMPLE_SIZE]];
    }
  }

  /** The imprint of an unchanged file depends on its two windows only: files whose
      head and tail windows agree get equal imprints, whatever their lengths and
      whatever lies between the windows. */
  lemma SameWindowsSameImprint(s1: Snapshot, s2: Snapshot, hash: seq<byte> -> Digest)
    requires s1.IsStableFile() && s2.IsStableFile()
    requires HeadWindow(s1.contents) == HeadWindow(s2.contents)
    requires TailWindow(s1.contents) == TailWindow(s2.contents)
    ensures ImprintOf(s1, hash) == ImprintOf(s2, hash)
  {
  }

  /** With a collision-free digest the converse holds too: two unchanged files get
      equal imprints exactly when their head and tail windows agree. */
  lemma ImprintIdentifiesWindows(s1: Snapshot, s2: Snapshot, hash: seq<byte> -> Digest)
    requires s1.IsStableFile() && s2.IsStableFile()
    requires CollisionFree(hash)
    ensures ImprintOf(s1, hash) == ImprintOf(s2, hash) <==>
      HeadWindow(s1.contents) == HeadWindow(s2.contents) &&
      TailWindow(s1.contents) == TailWindow(s2.contents)
  {
    var c1, c2 := s1.contents, s2.contents;
    if HeadWindow(c1) == HeadWindow(c2) && TailWindow(c1) == TailWindow(c2) {
      SameWindowsSameImprint(s1, s2, hash);
    }
    if ImprintOf(s1, hash) == ImprintOf(s2, hash) {
      assert hash(HeadWindow(c1)) == hash(HeadWindow(c2));
      if |c1| > SAMPLE_SIZE {
        assert |c2| > SAMPLE_SIZE;
        assert hash(TailWindow(c1).value) == hash(TailWindow(c2).value);
      }
    }
  }

  /** Files of at least two samples, of equal or different lengths, whose first and
      last SAMPLE_SIZE bytes agree get equal imprints. */
  lemma SameEndsSameImprint(s1: Snapshot, s2: Snapshot, hash: seq<byte> -> Digest)
    requires s1.IsStableFile() && s2.IsStableFile()
    requires |s1.contents| >= 2 * SAMPLE_SIZE && |s2.contents| >= 2 * SAMPLE_SIZE
    requires s1.contents[..SAMPLE_SIZE] == s2.contents[..SAMPLE_SIZE]
    requires s1.contents[|s1.contents| - SAMPLE_SIZE..] == s2.contents[|s2.contents| - SAMPLE_SIZE..]
    ensures ImprintOf(s1, hash) == ImprintOf(s2, hash)
  {
    SameWindowsSameImprint(s1, s2, hash);
  }

  /** The documented limitation: changing one byte strictly between the head and the
      tail window of a file longer than two samples yields a different file with the
      same imprint. */
  lemma MiddleByteChangeCollides(s: Snapshot, i: nat, b: byte, hash: seq<byte> -> Digest)
    requires s.IsStableFile()
    requires SAMPLE_SIZE <= i < |s.contents| - SAMPLE_SIZE
    requires b != s.contents[i]
    ensures s.(contents := s.contents[i := b]).contents != s.contents
    ensures ImprintOf(s.(contents := s.contents[i := b]), hash) == ImprintOf(s, hash)
  {
    var s' := s.(contents := s.contents[i := b]);
    var len := |s.contents|;
    assert s'.contents[i] != s.contents[i];
    assert HeadWindow(s'.contents) == HeadWindow(s.contents);
    assert TailWindow(s'.contents) == TailWindow(s.contents);
    SameWindowsSameImprint(s', s, hash);
  }

  /** Up to two samples the windows cover the whole file, so with a collision-free
      digest the imprint identifies the contents exactly. */
  lemma ExactUpToTwoSamples(s1: Snapshot, s2: Snapshot, hash: seq<byte> -> Digest)
    requires s1.IsStableFile() && s2.IsStableFile()
    requires |s1.contents| <= 2 * SAMPLE_SIZE && |s2.contents| <= 2 * SAMPLE_SIZE
    requires CollisionFree(hash)
    ensures ImprintOf(s1, hash) == ImprintOf(s2, hash) <==> s1.contents == s2.contents
  {
    var c1, c2 := s1.contents, s2.contents;
    if ImprintOf(s1, hash) == ImprintOf(s2, hash) {
      var r1, r2 := ImprintOf(s1, hash).value, ImprintOf(s2, hash).value;
      if |c1| <= SAMPLE_SIZE {
        assert r1.tail == None;
        assert |c2| <= SAMPLE_SIZE;
        assert c1[..|c1|] == c2[..|c2|];
        assert c1 == c1[..|c1|] && c2 == c2[..|c2|];
      } else {
        assert |c2| > SAMPLE_SIZE;
        assert c1[..SAMPLE_SIZE] == c2[..SAMPLE_SIZE];
        assert c1[SAMPLE_SIZE..] == c2[SAMPLE_SIZE..];
        assert c1 == c1[..SAMPLE_SIZE] + c1[SAMPLE_SIZE..];
        assert c2 == c2[..SAMPLE_SIZE] + c2[SAMPLE_SIZE..];
      }
    }
  }

  /** An empty file and the one-byte file `[0x00]` get different imprints, both
      without a tail, as long as the digest tells those two inputs apart. */
  lemma EmptyAndZeroByteDiffer(empty: Snapshot, zero: Snapshot, hash: seq<byte> -> Digest)
    requires empty.IsStableFile() && empty.contents == []
    requires zero.IsStableFile() && zero.contents == [0]
    requires hash([]) != hash([0])
    ensures ImprintOf(empty, hash).Success? && ImprintOf(empty, hash).value.tail == None
    ensures ImprintOf(zero, hash).Success? && ImprintOf(zero, hash).value.tail == None
    ensures ImprintOf(empty, hash) != ImprintOf(zero, hash)
  {
    assert empty.contents[..0] == [];
    assert zero.contents[..1] == [0];
  }

  /** A file truncated below the head window between the metadata call and the read
      makes `read_exact` come up short: construction fails and no imprint is produced. */
  lemma TruncatedFileAborts(s: Snapshot, hash: seq<byte> -> Digest)
    requires s.statOk && s.isFile && s.openOk
    requires |s.contents| < s.statLen && |s.contents| < SAMPLE_SIZE
    ensures ImprintOf(s, hash) == Failure(UnexpectedEof)
  {
  }
}
