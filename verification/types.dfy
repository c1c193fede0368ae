/**
 * The shared records of the duplicate detector (src-tauri/src/types.rs):
 * scan options, file entries, duplicate groups, scan and delete results.
 * Byte counts are `nat`; the Rust fields are `u64`.
 */
module Types {
  import opened Wrappers

  /** Options for one scan. */
  datatype ScanOptions = ScanOptions(
    rootPaths: seq<string>,
    minFileSize: Option<nat>,
    includeExtensions: Option<seq<string>>,
    excludeExtensions: Option<seq<string>>,
    followSymlinks: bool)

  /** One file found by the scanner; `modified` is the textual timestamp, if any. */
  datatype FileEntry = FileEntry(path: string, size: nat, modified: Option<string>)

  /** Files sharing one content hash; `size` is the size of each of them. */
  datatype DuplicateGroup = DuplicateGroup(hash: string, size: nat, files: seq<FileEntry>)

  /** A non-fatal per-file error collected during a scan. */
  datatype ScanError = ScanError(path: string, message: string)

  /** The outcome of a completed scan, with the two derived totals. */
  datatype ScanResult = ScanResult(
    duplicateGroups: seq<DuplicateGroup>,
    totalFilesScanned: nat,
    totalDuplicatesFound: nat,
    totalWastedSpace: nat,
    errors: seq<ScanError>,
    durationMs: nat)

  datatype DeleteError = DeleteError(path: string, reason: string)

  datatype DeleteResult = DeleteResult(deleted: seq<string>, failed: seq<DeleteError>)

  /** `ScanOptions::default`: no roots, no filters, symlinks not followed. */
  function DefaultScanOptions(): (o: ScanOptions)
    ensures o.rootPaths == []
    ensures o.minFileSize.None? && o.includeExtensions.None? && o.excludeExtensions.None?
    ensures !o.followSymlinks
  {
    ScanOptions([], None, None, None, false)
  }

  /** `DuplicateGroup::count`. */
  function Count(g: DuplicateGroup): nat
  {
    |g.files|
  }

  /**
   * `DuplicateGroup::wasted_space`: the bytes recoverable by keeping only
   * one copy. Zero for groups of at most one file.
   */
  function WastedSpace(g: DuplicateGroup): (w: nat)
    ensures |g.files| <= 1 ==> w == 0
    ensures |g.files| >= 1 ==> w + g.size == |g.files| * g.size
  {
    if |g.files| <= 1 then 0 else (|g.files| - 1) * g.size
  }

  /** The documented formula: wasted space is (count - 1) * size. */
  lemma WastedSpaceByCount(g: DuplicateGroup)
    ensures Count(g) >= 1 ==> WastedSpace(g) == (Count(g) - 1) * g.size
    ensures Count(g) <= 1 ==> WastedSpace(g) == 0
  {
  }

  /** Sum of the sizes of the given files. */
  function SumSizes(files: seq<FileEntry>): nat
  {
    if |files| == 0 then 0 else files[0].size + SumSizes(files[1..])
  }

  /** Every file of `g` has the group's size (true of groups built from content hashes). */
  ghost predicate Uniform(g: DuplicateGroup)
  {
    forall i :: 0 <= i < |g.files| ==> g.files[i].size == g.size
  }

  lemma {:induction false} SumSizesUniform(files: seq<FileEntry>, size: nat)
    requires forall i :: 0 <= i < |files| ==> files[i].size == size
    ensures SumSizes(files) == |files| * size
  {
    if |files| > 0 {
      SumSizesUniform(files[1..], size);
    }
  }

  /**
   * The wasted space of a uniform group is exactly the number of bytes held
   * by every copy except the keep candidate `files[0]`.
   */
  lemma WastedSpaceIsBytesBeyondKeepCopy(g: DuplicateGroup)
    requires Uniform(g)
    requires |g.files| >= 1
    ensures WastedSpace(g) == SumSizes(g.files[1..])
  {
    SumSizesUniform(g.files[1..], g.size);
  }

  /** Sum of the file counts of the groups: no group holds more, and it is 0 only when every group is empty. */
  function TotalFileCount(groups: seq<DuplicateGroup>): (n: nat)
    ensures forall i :: 0 <= i < |groups| ==> Count(groups[i]) <= n
    ensures n == 0 <==> forall i :: 0 <= i < |groups| ==> |groups[i].files| == 0
  {
    if |groups| == 0 then 0
    else
      var rest := TotalFileCount(groups[1..]);
      assert forall i :: 1 <= i < |groups| ==> groups[i] == groups[1..][i - 1];
      Count(groups[0]) + rest
  }

  /** Sum of the wasted space of the groups: no group wastes more, and it is 0 only when no group wastes anything. */
  function TotalWasted(groups: seq<DuplicateGroup>): (w: nat)
    ensures forall i :: 0 <= i < |groups| ==> WastedSpace(groups[i]) <= w
    ensures w == 0 <==> forall i :: 0 <= i < |groups| ==> WastedSpace(groups[i]) == 0
  {
    if |groups| == 0 then 0
    else
      var rest := TotalWasted(groups[1..]);
      assert forall i :: 1 <= i < |groups| ==> groups[i] == groups[1..][i - 1];
      WastedSpace(groups[0]) + rest
  }

  lemma {:induction false} TotalFileCountAppend(a: seq<DuplicateGroup>, b: seq<DuplicateGroup>)
    ensures TotalFileCount(a + b) == TotalFileCount(a) + TotalFileCount(b)
  {
    if |a| > 0 {
      assert (a + b)[1..] == a[1..] + b;
      TotalFileCountAppend(a[1..], b);
    } else {
      assert a + b == b;
    }
  }

  lemma {:induction false} TotalWastedAppend(a: seq<DuplicateGroup>, b: seq<DuplicateGroup>)
    ensures TotalWasted(a + b) == TotalWasted(a) + TotalWasted(b)
  {
    if |a| > 0 {
      assert (a + b)[1..] == a[1..] + b;
      TotalWastedAppend(a[1..], b);
    } else {
      assert a + b == b;
    }
  }

  /** Bytes held by every copy except each group's keep candidate. */
  function BytesBeyondKeepCopies(groups: seq<DuplicateGroup>): nat
    requires forall i :: 0 <= i < |groups| ==> |groups[i].files| >= 1
  {
    if |groups| == 0 then 0
    else SumSizes(groups[0].files[1..]) + BytesBeyondKeepCopies(groups[1..])
  }

  /**
   * For groups whose files all have the group size, the total wasted space
   * is the number of bytes freed by deleting every file but the first of
   * each group.
   */
  lemma {:induction false} TotalWastedIsBytesBeyondKeepCopies(groups: seq<DuplicateGroup>)
    requires forall i :: 0 <= i < |groups| ==> |groups[i].files| >= 1 && Uniform(groups[i])
    ensures TotalWasted(groups) == BytesBeyondKeepCopies(groups)
  {
    if |groups| > 0 {
      WastedSpaceIsBytesBeyondKeepCopy(groups[0]);
      TotalWastedIsBytesBeyondKeepCopies(groups[1..]);
    }
  }

  /**
   * `ScanResult::new`: the groups, scanned-file count, errors and duration
   * pass through; the two totals are derived from the groups.
   */
  function NewScanResult(groups: seq<DuplicateGroup>, totalFilesScanned: nat,
                         errors: seq<ScanError>, durationMs: nat): (r: ScanResult)
    ensures r.duplicateGroups == groups && r.totalFilesScanned == totalFilesScanned
    ensures r.errors == errors && r.durationMs == durationMs
    ensures r.totalDuplicatesFound == TotalFileCount(groups)
    ensures r.totalWastedSpace == TotalWasted(groups)
  {
    ScanResult(groups, totalFilesScanned, TotalFileCount(groups), TotalWasted(groups), errors, durationMs)
  }

  /** `DeleteResult::all_succeeded`. */
  function AllSucceeded(d: DeleteResult): (b: bool)
    ensures b <==> |d.failed| == 0
  {
    d.failed == []
  }

  /** The worked example of the unit tests: groups of 2 x 1000 and 3 x 500 bytes. */
  lemma ScanResultExample()
    ensures var a := FileEntry("/a.txt", 1000, None);
            var b := FileEntry("/b.txt", 1000, None);
            var c := FileEntry("/c.txt", 500, None);
            var d := FileEntry("/d.txt", 500, None);
            var e := FileEntry("/e.txt", 500, None);
            var r := NewScanResult([DuplicateGroup("hash1", 1000, [a, b]),
                                    DuplicateGroup("hash2", 500, [c, d, e])], 100, [], 1000);
            r.totalDuplicatesFound == 5 && r.totalWastedSpace == 2000
            && r.totalFilesScanned == 100 && r.durationMs == 1000
  {
  }
}
