/**
  The inventory collector: the loop of `main` that walks the directory
  listing, skips everything that is not a regular file, and pushes each
  file's name and its older timestamp onto two parallel vectors.

  The directory listing and the metadata reads are I/O; here they are the
  input, one `DirEntry` per listing entry, with the two timestamps already
  taken as whole seconds since the epoch.
 */
module Inventory {

  /** Rust's `u64`, the type of `Duration::as_secs`. */
  newtype u64 = x: int | 0 <= x < 0x1_0000_0000_0000_0000

  /** One entry of the directory listing as the loop sees it. */
  datatype DirEntry = DirEntry(fileName: string, isFile: bool, created: u64, modified: u64)

  /** One inventory record: a file's name and its sort key. */
  datatype FileRecord = FileRecord(name: string, time: u64)

  /** The key of a file: the older of its creation and modification times. */
  function OlderTime(created: u64, modified: u64): (t: u64)
    ensures t <= created && t <= modified
    ensures t == created || t == modified
  {
    if created < modified then created else modified
  }

  /**
    The record the loop pushes for a regular file: its own name, keyed by
    the older of its two timestamps.
   */
  function ToRecord(e: DirEntry): (r: FileRecord)
    ensures r.name == e.fileName
    ensures r.time <= e.created && r.time <= e.modified
    ensures r.time == e.created || r.time == e.modified
  {
    FileRecord(e.fileName, OlderTime(e.created, e.modified))
  }

  /** Number of regular files in a listing. */
  function CountFiles(entries: seq<DirEntry>): nat
  {
    if entries == [] then 0
    else CountFiles(entries[..|entries| - 1]) + (if entries[|entries| - 1].isFile then 1 else 0)
  }

  /**
    The inventory of a listing: one record per regular file, in listing order.
    Every record comes from a regular file of the listing, every regular file
    of the listing has its record, and there are exactly as many records as
    regular files.
   */
  function Collected(entries: seq<DirEntry>): (inv: seq<FileRecord>)
    ensures |inv| == CountFiles(entries) <= |entries|
    ensures forall r :: r in inv ==> exists e :: e in entries && e.isFile && r == ToRecord(e)
    ensures forall e :: e in entries && e.isFile ==> ToRecord(e) in inv
  {
    if entries == [] then []
    else
      var init, last := entries[..|entries| - 1], entries[|entries| - 1];
      assert entries == init + [last];
      if last.isFile then Collected(init) + [ToRecord(last)] else Collected(init)
  }

  /** Pairs up two parallel vectors of equal length. */
  function Zip(names: seq<string>, times: seq<u64>): (rs: seq<FileRecord>)
    requires |names| == |times|
    ensures |rs| == |names|
    ensures forall k :: 0 <= k < |rs| ==> rs[k].name == names[k] && rs[k].time == times[k]
  {
    if names == [] then []
    else Zip(names[..|names| - 1], times[..|times| - 1]) + [FileRecord(names[|names| - 1], times[|times| - 1])]
  }

  /** The names of an inventory, in order. */
  function FileNames(rs: seq<FileRecord>): (names: seq<string>)
    ensures |names| == |rs| && forall k :: 0 <= k < |rs| ==> names[k] == rs[k].name
  {
    seq(|rs|, k requires 0 <= k < |rs| => rs[k].name)
  }

  /** The times of an inventory, in order. */
  function FileTimes(rs: seq<FileRecord>): (times: seq<u64>)
    ensures |times| == |rs| && forall k :: 0 <= k < |rs| ==> times[k] == rs[k].time
  {
    seq(|rs|, k requires 0 <= k < |rs| => rs[k].time)
  }

  /** No element occurs twice. */
  ghost predicate Distinct<T>(s: seq<T>)
  {
    forall a, b :: 0 <= a < b < |s| ==> s[a] != s[b]
  }

  /** A sequence with no repeated element holds each value at most once. */
  lemma {:induction false} DistinctAtMostOnce<T>(s: seq<T>, x: T)
    requires Distinct(s)
    ensures multiset(s)[x] <= 1
  {
    if s != [] {
      var init := s[..|s| - 1];
      assert s == init + [s[|s| - 1]];
      assert Distinct(init);
      DistinctAtMostOnce(init, x);
      assert forall k :: 0 <= k < |init| ==> init[k] == s[k] != s[|s| - 1];
    }
  }

  /** A rearrangement of a sequence without repetitions has none either. */
  lemma DistinctPermutation<T>(s: seq<T>, t: seq<T>)
    requires Distinct(s) && multiset(t) == multiset(s)
    ensures Distinct(t)
  {
    forall a, b | 0 <= a < b < |t|
      ensures t[a] != t[b]
    {
      DistinctAtMostOnce(s, t[a]);
      assert t == t[..b] + [t[b]] + t[b + 1..];
      assert t[..b][a] == t[a];
      assert t[a] in multiset(t[..b]);
    }
  }

  /** No two regular files of the listing share a name. */
  ghost predicate FileNamesDistinct(entries: seq<DirEntry>)
  {
    forall a, b :: 0 <= a < b < |entries| && entries[a].isFile && entries[b].isFile ==>
      entries[a].fileName != entries[b].fileName
  }

  /**
    When the regular files of the listing have distinct names, so do the
    records of the inventory.
   */
  lemma {:induction false} CollectedNamesDistinct(entries: seq<DirEntry>)
    requires FileNamesDistinct(entries)
    ensures Distinct(FileNames(Collected(entries)))
  {
    if entries != [] {
      var init, last := entries[..|entries| - 1], entries[|entries| - 1];
      assert entries == init + [last];
      assert FileNamesDistinct(init);
      CollectedNamesDistinct(init);
      if last.isFile {
        var inv := Collected(init);
        forall k | 0 <= k < |inv|
          ensures inv[k].name != last.fileName
        {
          assert inv[k] in inv;
          var e :| e in init && e.isFile && inv[k] == ToRecord(e);
          var a :| 0 <= a < |init| && init[a] == e;
          assert entries[a] == e;
        }
        assert Collected(entries) == inv + [ToRecord(last)];
      }
    }
  }

  /** Pairing up two vectors and taking them apart again gives them back. */
  lemma UnzipZip(names: seq<string>, times: seq<u64>)
    requires |names| == |times|
    ensures FileNames(Zip(names, times)) == names && FileTimes(Zip(names, times)) == times
  {
  }

  /**
    The collection loop: `filenames` and `file_times` grow together, so they
    end with equal length, and paired up they are the inventory of the listing.
   */
  method Collect(entries: seq<DirEntry>) returns (filenames: seq<string>, fileTimes: seq<u64>)
    ensures |filenames| == |fileTimes| == CountFiles(entries)
    ensures Zip(filenames, fileTimes) == Collected(entries)
    ensures filenames == FileNames(Collected(entries)) && fileTimes == FileTimes(Collected(entries))
  {
    filenames, fileTimes := [], [];
    for n := 0 to |entries|
      invariant |filenames| == |fileTimes|
      invariant Zip(filenames, fileTimes) == Collected(entries[..n])
    {
      var entry := entries[n];
      assert entries[..n + 1][..n] == entries[..n];
      if !entry.isFile {
        continue;
      }
      var olderTime := OlderTime(entry.created, entry.modified);
      filenames := filenames + [entry.fileName];
      fileTimes := fileTimes + [olderTime];
    }
    assert entries[..|entries|] == entries;
    UnzipZip(filenames, fileTimes);
  }
}
