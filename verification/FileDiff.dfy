/** The default comparison of two output files, 256 bytes at a time (src/utils.h). */
module FileDiff {
  import opened Bits

  const CHUNK := 256

  /** A stream opened for reading, as fread and feof see it. */
  class File {
    const contents: seq<Byte>
    var pos: nat
    var eof: bool
    ghost var readCount: nat  // the calls of Fread so far

    constructor (contents: seq<Byte>)
      ensures this.contents == contents && Valid()
    {
      this.contents := contents;
      pos, eof, readCount := 0, false, 0;
    }

    ghost predicate Valid()
      reads this
    {
      pos <= |contents|
    }

    method Rewind()
      modifies this`pos, this`eof
      ensures Valid() && pos == 0 && !eof
    {
      pos, eof := 0, false;
    }

    /** The end-of-file mark is set only by a read that gets less than it asked for. */
    method Fread(n: nat) returns (buf: seq<Byte>)
      requires Valid()
      modifies this
      ensures Valid() && readCount == old(readCount) + 1
      ensures pos == if old(pos) + n <= |contents| then old(pos) + n else |contents|
      ensures buf == contents[old(pos)..pos]
      ensures eof == (old(eof) || |buf| < n)
    {
      var end := if pos + n <= |contents| then pos + n else |contents|;
      buf := contents[pos..end];
      eof := eof || |buf| < n;
      pos, readCount := end, readCount + 1;
    }
  }

  /** The length of the longest common prefix. */
  function CommonLength(a: seq<Byte>, b: seq<Byte>): (n: nat)
    ensures n <= |a| && n <= |b| && a[..n] == b[..n]
    ensures n < |a| && n < |b| ==> a[n] != b[n]
  {
    if a == [] || b == [] || a[0] != b[0] then 0 else
    var n := 1 + CommonLength(a[1..], b[1..]);
    assert a[..n] == [a[0]] + a[1..][..n - 1] && b[..n] == [b[0]] + b[1..][..n - 1];
    n
  }

  /** No longer prefix is common, and no shorter one is the longest. */
  lemma CommonLengthBounds(a: seq<Byte>, b: seq<Byte>, n: nat)
    requires n <= |a| && n <= |b|
    ensures a[..n] == b[..n] <==> n <= CommonLength(a, b)
  {
    var c := CommonLength(a, b);
    if n <= c {
      assert a[..n] == a[..c][..n] && b[..n] == b[..c][..n];
    } else {
      assert a[..n][c] != b[..n][c];
    }
  }

  /**
    True exactly for equal files.  The number of reads tells where the answer is found: in
    the chunk of the first difference or, for equal files, in the first chunk that is not
    full, which is empty when the length is a multiple of 256.
   */
  method DefaultDiff(fp1: File, fp2: File) returns (same: bool)
    requires fp1 != fp2
    modifies fp1, fp2
    ensures same <==> fp1.contents == fp2.contents
    ensures fp1.readCount - old(fp1.readCount) == CommonLength(fp1.contents, fp2.contents) / 256 + 1
    ensures fp2.readCount - old(fp2.readCount) == fp1.readCount - old(fp1.readCount)
  {
    var diff := false;
    fp1.Rewind();
    fp2.Rewind();
    var a, b := fp1.contents, fp2.contents;
    ghost var k: nat := 0;
    while true
      invariant fp1.Valid() && fp2.Valid() && !fp1.eof && !fp2.eof
      invariant fp1.pos == fp2.pos == k * CHUNK
      invariant a[..fp1.pos] == b[..fp1.pos]
      invariant fp1.readCount == old(fp1.readCount) + k && fp2.readCount == old(fp2.readCount) + k
      decreases |a| - fp1.pos
    {
      ghost var p := fp1.pos;
      var buf1 := fp1.Fread(CHUNK);
      var buf2 := fp2.Fread(CHUNK);
      CommonLengthBounds(a, b, p);
      if |buf1| != |buf2| || buf1 != buf2 {
        diff := true;
        ChunkDiffers(a, b, p, buf1, buf2);
        break;
      }
      assert a[..fp1.pos] == a[..p] + buf1 && b[..fp1.pos] == b[..p] + buf2;
      CommonLengthBounds(a, b, fp1.pos);
      k := k + 1;
      if fp1.eof && fp2.eof { assert a[..fp1.pos] == a && b[..fp1.pos] == b; break; }
    }
    return !diff;
  }

  lemma ChunkDiffers(a: seq<Byte>, b: seq<Byte>, p: nat, x: seq<Byte>, y: seq<Byte>)
    requires p <= CommonLength(a, b)
    requires x == a[p..if p + CHUNK <= |a| then p + CHUNK else |a|]
    requires y == b[p..if p + CHUNK <= |b| then p + CHUNK else |b|]
    requires x != y
    ensures a != b && CommonLength(a, b) < p + CHUNK
  {
    if p + CHUNK <= |a| && p + CHUNK <= |b| {
      CommonLengthBounds(a, b, p + CHUNK);
      assert a[..p + CHUNK][p..] == x && b[..p + CHUNK][p..] == y;
    }
  }
}
