/** The partial content hash of rom_duplicate_manager/utils/helpers.py:168-213
    (three 128 KiB samples) and of the earlier rom_duplicate_manager.py:256-287
    (two 64 KiB samples). The file is an input value: its bytes, whether it
    can be opened and read at all, and how many seeks succeed. The MD5 digest
    (RFC 1321) is a parameter, a function of the bytes fed to the hasher;
    feeding several pieces in turn digests their concatenation. */
module Fingerprint {
  import opened Wrappers

  /** What `os.path.getsize`, `open` and `read` see of one file. `readable`
      is false when any of them raises; `seeksOk` is how many `seek` calls
      succeed before one raises `OSError`. */
  datatype FileView = FileView(readable: bool, content: seq<bv8>, seeksOk: nat)

  /** A half-open byte range [start, end). */
  datatype Range = Range(start: nat, end: nat)

  /** The sentinel returned for a zero-byte file. */
  const EmptySentinel: string := "empty"

  /** 128 KiB, the package's chunk size. */
  const Chunk: nat := 131072

  /** 64 KiB, the earlier revision's chunk size. */
  const LegacyChunk: nat := 65536

  function Min(a: nat, b: nat): nat {
    if a <= b then a else b
  }

  /** `f.read(n)` at offset `pos`: at most `n` bytes, fewer at the end. */
  function Read(content: seq<bv8>, pos: nat, n: nat): (r: seq<bv8>)
    requires pos <= |content|
    ensures |r| == Min(n, |content| - pos)
  {
    content[pos..Min(pos + n, |content|)]
  }

  predicate InFile(size: nat, r: Range) {
    r.start < r.end <= size
  }

  /** The ranges the package reads, in order: the first chunk, and for a
      file larger than two chunks the middle and the last chunk, as far as
      the seeks succeed. */
  function Plan(size: nat, seeksOk: nat): (r: seq<Range>)
    requires size > 0
    ensures 1 <= |r| <= 3
    ensures forall k :: 0 <= k < |r| ==> InFile(size, r[k])
  {
    var first := [Range(0, Min(Chunk, size))];
    if size > Chunk * 2 && seeksOk >= 1 then
      var mid := size / 2 - Chunk / 2;
      if seeksOk >= 2 then first + [Range(mid, mid + Chunk), Range(size - Chunk, size)]
      else first + [Range(mid, mid + Chunk)]
    else first
  }

  /** The ranges the earlier revision reads: the first chunk, and the last
      chunk when the file is larger than one chunk and the seek succeeds. */
  function LegacyPlan(size: nat, seeksOk: nat): (r: seq<Range>)
    requires size > 0
    ensures 1 <= |r| <= 2
    ensures forall k :: 0 <= k < |r| ==> InFile(size, r[k])
  {
    var first := [Range(0, Min(LegacyChunk, size))];
    if size > LegacyChunk && seeksOk >= 1 then first + [Range(size - LegacyChunk, size)]
    else first
  }

  /** The bytes fed to the hasher: the ranges' contents, concatenated. */
  function Sampled(content: seq<bv8>, ranges: seq<Range>): seq<bv8>
    requires forall k :: 0 <= k < |ranges| ==> InFile(|content|, ranges[k])
  {
    if ranges == [] then []
    else
      var last := ranges[|ranges| - 1];
      assert InFile(|content|, last);
      Sampled(content, ranges[..|ranges| - 1]) + content[last.start..last.end]
  }

  lemma SampledSnoc(content: seq<bv8>, ranges: seq<Range>, r: Range)
    requires forall k :: 0 <= k < |ranges| ==> InFile(|content|, ranges[k])
    requires InFile(|content|, r)
    ensures Sampled(content, ranges + [r]) == Sampled(content, ranges) + content[r.start..r.end]
  {
    assert (ranges + [r])[..|ranges|] == ranges;
  }

  /** `get_partial_hash` of the package, as a value. */
  function PartialHashOf(f: FileView, md5: seq<bv8> -> string): Option<string> {
    if !f.readable then None
    else if |f.content| == 0 then Some(EmptySentinel)
    else Some(md5(Sampled(f.content, Plan(|f.content|, f.seeksOk))))
  }

  /** `get_partial_hash` of the earlier revision, as a value. */
  function LegacyPartialHashOf(f: FileView, md5: seq<bv8> -> string): Option<string> {
    if !f.readable then None
    else if |f.content| == 0 then Some(EmptySentinel)
    else Some(md5(Sampled(f.content, LegacyPlan(|f.content|, f.seeksOk))))
  }

  /** The package's `get_partial_hash`: read the first chunk, then, for a
      file larger than two chunks, seek to the middle and to the last chunk
      and read each, stopping at the first seek that fails. */
  method PartialHash(f: FileView, md5: seq<bv8> -> string) returns (r: Option<string>)
    ensures r == PartialHashOf(f, md5)
  {
    if !f.readable {
      return None;
    }
    var size := |f.content|;
    if size == 0 {
      return Some(EmptySentinel);
    }
    var first := Range(0, Min(Chunk, size));
    var fed: seq<bv8> := [];
    fed := fed + Read(f.content, 0, Chunk);
    SampledSnoc(f.content, [], first);
    assert fed == Sampled(f.content, [first]);
    if size > Chunk * 2 {
      var seeks := 0;
      if seeks < f.seeksOk {
        seeks := seeks + 1;
        var mid := size / 2 - Chunk / 2;
        assert mid + Chunk <= size;
        fed := fed + Read(f.content, mid, Chunk);
        SampledSnoc(f.content, [first], Range(mid, mid + Chunk));
        assert [first] + [Range(mid, mid + Chunk)] == [first, Range(mid, mid + Chunk)];
        if seeks < f.seeksOk {
          fed := fed + Read(f.content, size - Chunk, Chunk);
          SampledSnoc(f.content, [first, Range(mid, mid + Chunk)], Range(size - Chunk, size));
          PlanSamplesThree(size, f.seeksOk);
          assert [first, Range(mid, mid + Chunk)] + [Range(size - Chunk, size)]
            == [first, Range(mid, mid + Chunk), Range(size - Chunk, size)];
        } else {
          PlanSamplesTwo(size, f.seeksOk);
        }
      }
    }
    return Some(md5(fed));
  }

  /** A large file whose first seek succeeds and second fails: the first
      and the middle chunk. */
  lemma PlanSamplesTwo(size: nat, seeksOk: nat)
    requires size > Chunk * 2 && seeksOk == 1
    ensures Plan(size, seeksOk) == [Range(0, Chunk), Range(size / 2 - Chunk / 2, size / 2 - Chunk / 2 + Chunk)]
  {
  }

  /** A large file whose two seeks succeed: the first, the middle and the
      last chunk. */
  lemma PlanSamplesThree(size: nat, seeksOk: nat)
    requires size > Chunk * 2 && seeksOk >= 2
    ensures Plan(size, seeksOk)
         == [Range(0, Chunk), Range(size / 2 - Chunk / 2, size / 2 - Chunk / 2 + Chunk), Range(size - Chunk, size)]
  {
  }

  /** The earlier revision's `get_partial_hash`: the first chunk, then the
      last chunk when the file is larger than one chunk and the seek to it
      succeeds. */
  method LegacyPartialHash(f: FileView, md5: seq<bv8> -> string) returns (r: Option<string>)
    ensures r == LegacyPartialHashOf(f, md5)
  {
    if !f.readable {
      return None;
    }
    var size := |f.content|;
    if size == 0 {
      return Some(EmptySentinel);
    }
    var first := Range(0, Min(LegacyChunk, size));
    var fed: seq<bv8> := [];
    fed := fed + Read(f.content, 0, LegacyChunk);
    SampledSnoc(f.content, [], first);
    if size > LegacyChunk && f.seeksOk >= 1 {
      fed := fed + Read(f.content, size - LegacyChunk, LegacyChunk);
      SampledSnoc(f.content, [first], Range(size - LegacyChunk, size));
    }
    return Some(md5(fed));
  }

  // ---------------------------------------------------------------------
  // Properties of the sampling plans
  // ---------------------------------------------------------------------

  /** The package's plan: the first range is [0, min(128K, size)); the
      middle [size/2 - 64K, size/2 + 64K) and the last [size - 128K, size)
      are read exactly when the file is larger than 256K (and the seeks
      succeed); every range lies inside the file. */
  lemma PlanShape(size: nat)
    requires size > 0
    ensures var p := Plan(size, 2);
      && p[0] == Range(0, Min(131072, size))
      && (|p| == 3 <==> size > 262144)
      && (|p| == 1 <==> size <= 262144)
      && (size > 262144 ==>
            p[1] == Range(size / 2 - 65536, size / 2 + 65536)
            && p[2] == Range(size - 131072, size))
  {
  }

  /** Without a successful seek only the first chunk is read. */
  lemma PlanWithoutSeek(size: nat)
    requires size > 0
    ensures Plan(size, 0) == [Range(0, Min(131072, size))]
    ensures LegacyPlan(size, 0) == [Range(0, Min(65536, size))]
  {
  }

  /** The earlier revision's plan: the first 64K, and the last 64K only
      when the file is larger than 64K; there is no middle sample. */
  lemma LegacyPlanShape(size: nat)
    requires size > 0
    ensures var p := LegacyPlan(size, 1);
      && p[0] == Range(0, Min(65536, size))
      && (|p| == 2 <==> size > 65536)
      && (size > 65536 ==> p[1] == Range(size - 65536, size))
  {
  }

  /** The number of bytes fed is the sum of the ranges' lengths. */
  function TotalLength(ranges: seq<Range>): nat
    requires forall k :: 0 <= k < |ranges| ==> ranges[k].start <= ranges[k].end
  {
    if ranges == [] then 0
    else TotalLength(ranges[..|ranges| - 1]) + (ranges[|ranges| - 1].end - ranges[|ranges| - 1].start)
  }

  lemma {:induction false} SampledLength(content: seq<bv8>, ranges: seq<Range>)
    requires forall k :: 0 <= k < |ranges| ==> InFile(|content|, ranges[k])
    ensures |Sampled(content, ranges)| == TotalLength(ranges)
  {
    if ranges != [] {
      SampledLength(content, ranges[..|ranges| - 1]);
    }
  }

  /** A file of at most one chunk is hashed whole. */
  lemma SmallFileHashedWhole(content: seq<bv8>, seeksOk: nat)
    requires 0 < |content| <= 131072
    ensures Sampled(content, Plan(|content|, seeksOk)) == content
  {
    assert content[0..|content|] == content;
  }

  /** At most 384 KiB are read, whatever the size of the file. */
  lemma BoundedRead(content: seq<bv8>, seeksOk: nat)
    requires |content| > 0
    ensures |Sampled(content, Plan(|content|, seeksOk))| <= 3 * 131072
  {
    var p := Plan(|content|, seeksOk);
    SampledLength(content, p);
    TotalLengthBound(p, 131072);
  }

  lemma {:induction false} TotalLengthBound(ranges: seq<Range>, n: nat)
    requires forall k :: 0 <= k < |ranges| ==> ranges[k].start <= ranges[k].end <= ranges[k].start + n
    ensures TotalLength(ranges) <= |ranges| * n
  {
    if ranges != [] {
      TotalLengthBound(ranges[..|ranges| - 1], n);
    }
  }

  /** Two readable files of the same size whose bytes agree on every
      sampled range get the same partial hash: bytes outside the samples
      are never looked at. */
  lemma {:induction false} SampledAgree(a: seq<bv8>, b: seq<bv8>, ranges: seq<Range>)
    requires |a| == |b|
    requires forall k :: 0 <= k < |ranges| ==> InFile(|a|, ranges[k])
    requires forall k, i :: 0 <= k < |ranges| && ranges[k].start <= i < ranges[k].end && i < |a| ==> a[i] == b[i]
    ensures Sampled(a, ranges) == Sampled(b, ranges)
  {
    if ranges != [] {
      var n := |ranges| - 1;
      var front := ranges[..n];
      forall k, i | 0 <= k < n && front[k].start <= i < front[k].end && i < |a|
        ensures a[i] == b[i]
      {
        assert front[k] == ranges[k];
      }
      assert forall k :: 0 <= k < n ==> front[k] == ranges[k];
      SampledAgree(a, b, front);
      var r := ranges[n];
      assert InFile(|a|, r);
      forall i | r.start <= i < r.end
        ensures a[i] == b[i]
      {
        assert ranges[n].start <= i < ranges[n].end && i < |a|;
      }
      SliceAgree(a, b, r.start, r.end);
    }
  }

  lemma SliceAgree(a: seq<bv8>, b: seq<bv8>, start: nat, end: nat)
    requires start <= end <= |a| && |a| == |b|
    requires forall i :: start <= i < end ==> a[i] == b[i]
    ensures a[start..end] == b[start..end]
  {
  }

  lemma OnlySamplesMatter(a: FileView, b: FileView, md5: seq<bv8> -> string)
    requires a.readable && b.readable && |a.content| == |b.content| > 0 && a.seeksOk == b.seeksOk
    requires var p := Plan(|a.content|, a.seeksOk);
      forall k, i :: 0 <= k < |p| && p[k].start <= i < p[k].end && i < |a.content| ==> a.content[i] == b.content[i]
    ensures PartialHashOf(a, md5) == PartialHashOf(b, md5)
  {
    SampledAgree(a.content, b.content, Plan(|a.content|, a.seeksOk));
  }

  /** A zero-byte file gets the sentinel in both revisions, whatever the
      digest function, so any two zero-byte files hash alike. */
  lemma EmptyFilesHashAlike(a: FileView, b: FileView, md5: seq<bv8> -> string)
    requires a.readable && b.readable && |a.content| == 0 && |b.content| == 0
    ensures PartialHashOf(a, md5) == PartialHashOf(b, md5) == Some(EmptySentinel)
    ensures LegacyPartialHashOf(a, md5) == LegacyPartialHashOf(b, md5) == Some(EmptySentinel)
  {
  }
}
