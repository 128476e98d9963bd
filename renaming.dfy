/**
  The renaming strategies of `main` and `main` itself, with the file system
  taken out: the inventory comes in as a listing, and instead of calling
  `fs::rename` the model returns the (source, destination) pairs in the order
  the program would rename them.

  The date formatting (`NaiveDateTime::from_timestamp_opt` followed by
  `format("%Y-%m-%d %H:%M:%S")`) is a parameter: a function from seconds to
  the formatted text, or `None` where the conversion fails and `unwrap`
  aborts the program.
 */
module Renaming {
  import opened Inventory
  import opened Naming
  import opened Sorting

  /** One `fs::rename(source, destination)`. */
  datatype Rename = Rename(source: string, destination: string)

  const I64_MODULUS: int := 0x1_0000_0000_0000_0000

  /** `t as i64`: a `u64` of 2^63 or more wraps round to a negative number. */
  function AsI64(t: u64): (r: int)
    ensures -0x8000_0000_0000_0000 <= r < 0x8000_0000_0000_0000
    ensures (r - t as int) % I64_MODULUS == 0
    ensures t < 0x8000_0000_0000_0000 ==> r == t as int
  {
    if t < 0x8000_0000_0000_0000 then t as int else t as int - I64_MODULUS
  }

  /**
    The renames of the sequential mode for the (sorted) names: the file at
    position `i` keeps its path as source and goes to `{new_name}{i}{extension}`.
   */
  ghost predicate SequentialPlan(dir: string, newName: string, filenames: seq<string>, renames: seq<Rename>)
  {
    && |renames| == |filenames|
    && forall i :: 0 <= i < |filenames| ==>
         renames[i] == Rename(JoinPath(dir, filenames[i]),
                              JoinPath(dir, SequentialTarget(newName, i, Extension(filenames[i]))))
  }

  /** No two renames of the sequential mode share a destination. */
  lemma SequentialDestinationsDistinct(dir: string, newName: string, filenames: seq<string>, renames: seq<Rename>)
    requires SequentialPlan(dir, newName, filenames, renames)
    ensures forall i, j :: 0 <= i < j < |renames| ==> renames[i].destination != renames[j].destination
  {
    forall i, j | 0 <= i < j < |renames|
      ensures renames[i].destination != renames[j].destination
    {
      var ti := SequentialTarget(newName, i, Extension(filenames[i]));
      var tj := SequentialTarget(newName, j, Extension(filenames[j]));
      JoinPathInjective(dir, ti, tj);
      SequentialTargetInjective(newName, i, j, Extension(filenames[i]), Extension(filenames[j]));
    }
  }

  /**
    The loop of the sequential mode, over the sorted names: each name is split
    at its first dot, and `{name}{extension}` is renamed to
    `{new_name}{i}{extension}`. No two destinations coincide.
   */
  method SequentialRenames(dir: string, newName: string, filenames: seq<string>) returns (renames: seq<Rename>)
    ensures SequentialPlan(dir, newName, filenames, renames)
    ensures forall i, j :: 0 <= i < j < |renames| ==> renames[i].destination != renames[j].destination
  {
    renames := [];
    for i := 0 to |filenames|
      invariant |renames| == i
      invariant forall k :: 0 <= k < i ==>
        renames[k] == Rename(JoinPath(dir, filenames[k]), JoinPath(dir, SequentialTarget(newName, k, Extension(filenames[k]))))
    {
      var (name, extension) := SplitName(filenames[i]);
      renames := renames + [Rename(JoinPath(dir, name + extension), JoinPath(dir, newName + Decimal(i) + extension))];
    }
    SequentialDestinationsDistinct(dir, newName, filenames, renames);
  }

  /**
    What the loop of the datetime mode does, in collection order: the files
    are renamed one after the other to `{new_name} {date}{extension}`, until
    the first timestamp that cannot be converted to a date, where the program
    aborts (`aborted`), leaving the files before it renamed.
   */
  ghost predicate DatetimeOutcome(dir: string, newName: string, filenames: seq<string>, fileTimes: seq<u64>,
                                  format: int -> Option<string>, renames: seq<Rename>, aborted: bool)
    requires |filenames| == |fileTimes|
  {
    && |renames| <= |filenames|
    && (aborted <==> |renames| < |filenames|)
    && (forall k :: 0 <= k < |renames| ==>
          && format(AsI64(fileTimes[k])).Some?
          && renames[k] == Rename(JoinPath(dir, filenames[k]),
                                  JoinPath(dir, DatetimeTarget(newName, format(AsI64(fileTimes[k])).value, Extension(filenames[k])))))
    && (aborted ==> format(AsI64(fileTimes[|renames|])).None?)
  }

  /** The outcome of the datetime mode is determined by its inputs. */
  lemma DatetimeOutcomeUnique(dir: string, newName: string, filenames: seq<string>, fileTimes: seq<u64>,
                              format: int -> Option<string>,
                              renames1: seq<Rename>, aborted1: bool, renames2: seq<Rename>, aborted2: bool)
    requires |filenames| == |fileTimes|
    requires DatetimeOutcome(dir, newName, filenames, fileTimes, format, renames1, aborted1)
    requires DatetimeOutcome(dir, newName, filenames, fileTimes, format, renames2, aborted2)
    ensures renames1 == renames2 && aborted1 == aborted2
  {
    assert |renames1| <= |renames2| by {
      if aborted1 {
        assert |renames1| < |filenames| && format(AsI64(fileTimes[|renames1|])).None?;
      }
    }
    assert |renames2| <= |renames1| by {
      if aborted2 {
        assert |renames2| < |filenames| && format(AsI64(fileTimes[|renames2|])).None?;
      }
    }
  }

  /**
    The loop of the datetime mode: no sorting; for each file in collection
    order, split the name, convert its time (`as i64`, then the date
    conversion, whose failure aborts) and rename it.
   */
  method DatetimeRenames(dir: string, newName: string, filenames: seq<string>, fileTimes: seq<u64>,
                         format: int -> Option<string>)
    returns (renames: seq<Rename>, aborted: bool)
    requires |filenames| == |fileTimes|
    ensures DatetimeOutcome(dir, newName, filenames, fileTimes, format, renames, aborted)
  {
    renames, aborted := [], false;
    for i := 0 to |filenames|
      invariant |renames| == i
      invariant forall k :: 0 <= k < i ==>
        && format(AsI64(fileTimes[k])).Some?
        && renames[k] == Rename(JoinPath(dir, filenames[k]),
                                JoinPath(dir, DatetimeTarget(newName, format(AsI64(fileTimes[k])).value, Extension(filenames[k]))))
    {
      var (name, extension) := SplitName(filenames[i]);
      var newdate := format(AsI64(fileTimes[i]));
      if newdate.None? {
        aborted := true;
        return;
      }
      renames := renames + [Rename(JoinPath(dir, name + extension), JoinPath(dir, newName + " " + newdate.value + extension))];
    }
  }

  /** What `main` does with a listing, per mode. */
  ghost predicate RunOutcome(dir: string, newName: string, datetime: bool, entries: seq<DirEntry>,
                             format: int -> Option<string>, renames: seq<Rename>, aborted: bool)
  {
    var inventory := Collected(entries);
    var sorted := SelectionSorted(FileNames(inventory), FileTimes(inventory));
    && (!datetime ==> !aborted && SequentialPlan(dir, newName, sorted.0, renames))
    && (datetime ==> DatetimeOutcome(dir, newName, FileNames(inventory), FileTimes(inventory), format, renames, aborted))
  }

  /**
    `main` after argument parsing: collect the regular files, then either sort
    them by time and number them, or name them by date in collection order.
   */
  method RenameDirectory(dir: string, newName: string, datetime: bool, entries: seq<DirEntry>,
                         format: int -> Option<string>)
    returns (renames: seq<Rename>, aborted: bool)
    ensures RunOutcome(dir, newName, datetime, entries, format, renames, aborted)
    ensures !datetime ==> forall i, j :: 0 <= i < j < |renames| ==> renames[i].destination != renames[j].destination
  {
    var filenames, fileTimes := Collect(entries);
    if !datetime {
      var names := new string[|filenames|](k requires 0 <= k < |filenames| => filenames[k]);
      var times := new u64[|fileTimes|](k requires 0 <= k < |fileTimes| => fileTimes[k]);
      assert names[..] == filenames && times[..] == fileTimes;
      SelectionSort(names, times);
      renames := SequentialRenames(dir, newName, names[..]);
      aborted := false;
    } else {
      renames, aborted := DatetimeRenames(dir, newName, filenames, fileTimes, format);
    }
  }

  /**
    In the sequential mode the numbers follow the age of the files: the file
    renamed to number `i` is the `i`-th of the (name, time) pairs sorted by
    time, and those sorted pairs are the inventory's pairs rearranged.
   */
  lemma SequentialNumbersFollowAge(dir: string, newName: string, entries: seq<DirEntry>,
                                   format: int -> Option<string>, renames: seq<Rename>, aborted: bool)
    requires RunOutcome(dir, newName, false, entries, format, renames, aborted)
    ensures var inventory := Collected(entries);
            var (names, times) := SelectionSorted(FileNames(inventory), FileTimes(inventory));
            && Sorted(times)
            && multiset(Zip(names, times)) == multiset(inventory)
            && |renames| == |names|
            && forall i :: 0 <= i < |renames| ==>
                 renames[i].source == JoinPath(dir, names[i])
                 && renames[i].destination == JoinPath(dir, SequentialTarget(newName, i, Extension(names[i])))
  {
    var inventory := Collected(entries);
    SelectionSortedIsSortedPermutation(FileNames(inventory), FileTimes(inventory));
    assert Zip(FileNames(inventory), FileTimes(inventory)) == inventory;
  }

  /** Every name of the vectors is among the sorted names. */
  lemma SortedNamesCoverNames(names: seq<string>, times: seq<u64>, name: string)
    requires |names| == |times| && name in names
    ensures name in SelectionSorted(names, times).0
  {
    SelectionSortedIsSortedPermutation(names, times);
    assert name in multiset(names);
  }

  /** Every regular file of the listing is among the collected names. */
  lemma CollectedNamesCoverFiles(entries: seq<DirEntry>, e: DirEntry)
    requires e in entries && e.isFile
    ensures e.fileName in FileNames(Collected(entries))
  {
    var inventory := Collected(entries);
    assert ToRecord(e) in inventory;
    var k :| 0 <= k < |inventory| && inventory[k] == ToRecord(e);
    assert FileNames(inventory)[k] == e.fileName;
  }

  /**
    The names renamed, position by position: the collected names in listing
    order in the date mode, the sorted names in the sequential mode.
   */
  lemma RenamedNames(dir: string, newName: string, datetime: bool, entries: seq<DirEntry>,
                     format: int -> Option<string>, renames: seq<Rename>, aborted: bool)
    returns (renamed: seq<string>)
    requires RunOutcome(dir, newName, datetime, entries, format, renames, aborted)
    ensures |renames| <= |renamed| == CountFiles(entries)
    ensures !aborted ==> |renames| == |renamed|
    ensures multiset(renamed) == multiset(FileNames(Collected(entries)))
    ensures datetime ==> renamed == FileNames(Collected(entries))
    ensures !datetime ==> renamed == SelectionSorted(FileNames(Collected(entries)), FileTimes(Collected(entries))).0
    ensures forall i :: 0 <= i < |renames| ==> renames[i].source == JoinPath(dir, renamed[i])
  {
    var inventory := Collected(entries);
    var names, times := FileNames(inventory), FileTimes(inventory);
    if datetime {
      renamed := names;
    } else {
      renamed := SelectionSorted(names, times).0;
      SelectionSortedIsSortedPermutation(names, times);
    }
  }

  /**
    Only regular files are renamed: every rename, including those done
    before an abort, takes its source from a regular file of the listing, so
    directories and other entries are left alone.
   */
  lemma OnlyRegularFilesRenamed(dir: string, newName: string, datetime: bool, entries: seq<DirEntry>,
                                format: int -> Option<string>, renames: seq<Rename>, aborted: bool)
    requires RunOutcome(dir, newName, datetime, entries, format, renames, aborted)
    ensures forall i :: 0 <= i < |renames| ==>
              exists e :: e in entries && e.isFile && renames[i].source == JoinPath(dir, e.fileName)
  {
    var renamed := RenamedNames(dir, newName, datetime, entries, format, renames, aborted);
    var inventory := Collected(entries);
    forall i | 0 <= i < |renames|
      ensures exists e :: e in entries && e.isFile && renames[i].source == JoinPath(dir, e.fileName)
    {
      assert renamed[i] in multiset(renamed);
      var k :| 0 <= k < |inventory| && FileNames(inventory)[k] == renamed[i];
      assert inventory[k] in inventory;
      var e :| e in entries && e.isFile && inventory[k] == ToRecord(e);
      assert renames[i].source == JoinPath(dir, e.fileName);
    }
  }

  /**
    When the renames take their sources from a rearrangement of all the
    collected names, every regular file of the listing is a source.
   */
  lemma RegularFilesAreSources(dir: string, entries: seq<DirEntry>, renamed: seq<string>, renames: seq<Rename>)
    requires |renames| == |renamed|
    requires multiset(renamed) == multiset(FileNames(Collected(entries)))
    requires forall i :: 0 <= i < |renames| ==> renames[i].source == JoinPath(dir, renamed[i])
    ensures forall e :: e in entries && e.isFile ==>
              exists i :: 0 <= i < |renames| && renames[i].source == JoinPath(dir, e.fileName)
  {
    forall e | e in entries && e.isFile
      ensures exists i :: 0 <= i < |renames| && renames[i].source == JoinPath(dir, e.fileName)
    {
      CollectedNamesCoverFiles(entries, e);
      assert e.fileName in multiset(renamed);
      var i :| 0 <= i < |renamed| && renamed[i] == e.fileName;
      assert renames[i].source == JoinPath(dir, e.fileName);
    }
  }

  /**
    Unless the program aborts, the renames are exactly the regular files:
    as many renames as regular files, every regular file is the source of a
    rename, and every source is a regular file.
   */
  lemma EveryRegularFileRenamed(dir: string, newName: string, datetime: bool, entries: seq<DirEntry>,
                                format: int -> Option<string>, renames: seq<Rename>, aborted: bool)
    requires RunOutcome(dir, newName, datetime, entries, format, renames, aborted)
    requires !aborted
    ensures |renames| == CountFiles(entries)
    ensures forall e :: e in entries && e.isFile ==>
              exists i :: 0 <= i < |renames| && renames[i].source == JoinPath(dir, e.fileName)
    ensures forall i :: 0 <= i < |renames| ==>
              exists e :: e in entries && e.isFile && renames[i].source == JoinPath(dir, e.fileName)
  {
    var renamed := RenamedNames(dir, newName, datetime, entries, format, renames, aborted);
    RegularFilesAreSources(dir, entries, renamed, renames);
    OnlyRegularFilesRenamed(dir, newName, datetime, entries, format, renames, aborted);
  }

  /**
    No path is the source of two renames, when the regular files of the
    listing have distinct names (as the entries of one directory do). A file
    can still be moved twice, because a destination can be the source of a
    later rename: see `DestinationCanBeLaterSource`.
   */
  lemma SourcesDistinct(dir: string, newName: string, datetime: bool, entries: seq<DirEntry>,
                        format: int -> Option<string>, renames: seq<Rename>, aborted: bool)
    requires RunOutcome(dir, newName, datetime, entries, format, renames, aborted)
    requires FileNamesDistinct(entries)
    ensures forall i, j :: 0 <= i < j < |renames| ==> renames[i].source != renames[j].source
  {
    var renamed := RenamedNames(dir, newName, datetime, entries, format, renames, aborted);
    CollectedNamesDistinct(entries);
    DistinctPermutation(FileNames(Collected(entries)), renamed);
    forall i, j | 0 <= i < j < |renames|
      ensures renames[i].source != renames[j].source
    {
      JoinPathInjective(dir, renamed[i], renamed[j]);
    }
  }

  /** The inventory of a listing of two regular files. */
  lemma CollectedTwoFiles(first: DirEntry, second: DirEntry)
    requires first.isFile && second.isFile
    ensures Collected([first, second]) == [ToRecord(first), ToRecord(second)]
  {
    var entries := [first, second];
    assert entries[..1] == [first];
    assert [first][..0] == [];
  }

  /**
    A sequential destination can be the path of a file that is renamed only
    later: when a file already carries the name the oldest file is about to
    get (say `file0.txt`, while `a.txt` is older), the first rename moves the
    oldest file onto that path, and the second rename then takes its source
    from that same path. On a platform where rename replaces its target, the
    file that had the name first is lost.
   */
  lemma DestinationCanBeLaterSource(dir: string, newName: string, older: string, tOld: u64, tNew: u64,
                                    format: int -> Option<string>, renames: seq<Rename>, aborted: bool)
    requires tOld < tNew
    requires RunOutcome(dir, newName, false,
                        [DirEntry(SequentialTarget(newName, 0, Extension(older)), true, tNew, tNew),
                         DirEntry(older, true, tOld, tOld)],
                        format, renames, aborted)
    ensures |renames| == 2
    ensures renames[0] == Rename(JoinPath(dir, older), JoinPath(dir, SequentialTarget(newName, 0, Extension(older))))
    ensures renames[1].source == renames[0].destination
  {
    var taken := SequentialTarget(newName, 0, Extension(older));
    CollectedTwoFiles(DirEntry(taken, true, tNew, tNew), DirEntry(older, true, tOld, tOld));
    var inventory := [FileRecord(taken, tNew), FileRecord(older, tOld)];
    var names, times := FileNames(inventory), FileTimes(inventory);
    assert names == [taken, older] && times == [tNew, tOld];
    RoundStep(names, times, 0, 1);
    var names1, times1 := [older, taken], [tOld, tNew];
    assert Swap(names, 0, 1) == names1 && Swap(times, 0, 1) == times1;
    RoundStep(names1, times1, 1, 1);
    assert Swap(names1, 1, 1) == names1 && Swap(times1, 1, 1) == times1;
    assert SelectionSorted(names, times).0 == names1;
    assert SequentialPlan(dir, newName, names1, renames);
  }
}
