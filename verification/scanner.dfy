/**
 * The pure parts of the directory scanner (src-tauri/src/scanner/mod.rs):
 * the output accumulator, size bucketing, the bucket count, and the
 * translation of scan options into a file filter.
 */
module Scanner {
  import opened Wrappers
  import opened Types
  import opened Grouping
  import opened Filter

  /** Files that passed filtering and the non-fatal errors met on the way. */
  datatype ScanOutput = ScanOutput(files: seq<FileEntry>, errors: seq<ScanError>)

  /** `ScanOutput::new`. */
  function NewOutput(): (o: ScanOutput)
    ensures |o.files| == 0 && |o.errors| == 0
  {
    ScanOutput([], [])
  }

  /** `add_file`: appends one file; the errors are untouched. */
  function AddFile(o: ScanOutput, f: FileEntry): (r: ScanOutput)
    ensures r.files == o.files + [f] && r.errors == o.errors
  {
    o.(files := o.files + [f])
  }

  /** `add_error`: appends one error; the files are untouched. */
  function AddError(o: ScanOutput, e: ScanError): (r: ScanOutput)
    ensures r.errors == o.errors + [e] && r.files == o.files
  {
    o.(errors := o.errors + [e])
  }

  /** What a directory walk reports, one entry at a time. */
  datatype Found = FoundFile(entry: FileEntry) | FoundError(error: ScanError)

  /** The accumulator after feeding every report, in order, to `add_file`/`add_error`. */
  function Collect(reports: seq<Found>): ScanOutput
  {
    if |reports| == 0 then NewOutput()
    else
      var o := Collect(reports[..|reports| - 1]);
      match reports[|reports| - 1]
      case FoundFile(f) => AddFile(o, f)
      case FoundError(e) => AddError(o, e)
  }

  /** The reported files, in report order. */
  function ReportedFiles(reports: seq<Found>): seq<FileEntry>
  {
    if |reports| == 0 then []
    else (if reports[0].FoundFile? then [reports[0].entry] else []) + ReportedFiles(reports[1..])
  }

  /** The reported errors, in report order. */
  function ErrorsOf(reports: seq<Found>): seq<ScanError>
  {
    if |reports| == 0 then []
    else (if reports[0].FoundError? then [reports[0].error] else []) + ErrorsOf(reports[1..])
  }

  lemma {:induction false} ReportedFilesAppend(a: seq<Found>, b: seq<Found>)
    ensures ReportedFiles(a + b) == ReportedFiles(a) + ReportedFiles(b)
  {
    if |a| == 0 {
      assert a + b == b;
    } else {
      assert (a + b)[0] == a[0];
      assert (a + b)[1..] == a[1..] + b;
      ReportedFilesAppend(a[1..], b);
    }
  }

  lemma {:induction false} ErrorsOfAppend(a: seq<Found>, b: seq<Found>)
    ensures ErrorsOf(a + b) == ErrorsOf(a) + ErrorsOf(b)
  {
    if |a| == 0 {
      assert a + b == b;
    } else {
      assert (a + b)[0] == a[0];
      assert (a + b)[1..] == a[1..] + b;
      ErrorsOfAppend(a[1..], b);
    }
  }

  /**
   * The accumulator keeps every report exactly once, files and errors each
   * in the order they were reported.
   */
  lemma {:induction false} CollectKeepsReports(reports: seq<Found>)
    ensures Collect(reports).files == ReportedFiles(reports)
    ensures Collect(reports).errors == ErrorsOf(reports)
    ensures |Collect(reports).files| + |Collect(reports).errors| == |reports|
  {
    if |reports| > 0 {
      var init := reports[..|reports| - 1];
      var last := reports[|reports| - 1];
      CollectKeepsReports(init);
      assert reports == init + [last];
      ReportedFilesAppend(init, [last]);
      ErrorsOfAppend(init, [last]);
    }
  }

  /** Each file tagged with its size. */
  function SizeTagged(files: seq<FileEntry>): (r: seq<(FileEntry, nat)>)
    ensures |r| == |files|
    ensures forall i :: 0 <= i < |files| ==> r[i] == (files[i], files[i].size)
  {
    seq(|files|, i requires 0 <= i < |files| => (files[i], files[i].size))
  }

  /** The files of size `k`, in input order. */
  function FilesOfSize(files: seq<FileEntry>, k: nat): seq<FileEntry>
  {
    Select(SizeTagged(files), k)
  }

  lemma FilesOfSizeFacts(files: seq<FileEntry>, k: nat)
    ensures forall f :: f in FilesOfSize(files, k) ==> f.size == k && f in files
  {
    forall f | f in FilesOfSize(files, k) ensures f.size == k && f in files {
      SelectFrom(SizeTagged(files), k, f);
    }
  }

  /**
   * `group_by_size`: the sizes shared by two or more files, each mapped to
   * its files in input order; files of a unique size are dropped.
   */
  function GroupBySize(files: seq<FileEntry>): (m: map<nat, seq<FileEntry>>)
    ensures forall k :: k in m <==> |FilesOfSize(files, k)| >= 2
    ensures forall k :: k in m ==> m[k] == FilesOfSize(files, k)
    ensures forall k, f :: k in m && f in m[k] ==> f.size == k && f in files
  {
    var buckets := Bucket(SizeTagged(files));
    forall k ensures forall f :: f in FilesOfSize(files, k) ==> f.size == k && f in files {
      FilesOfSizeFacts(files, k);
    }
    map k | k in buckets && |buckets[k]| > 1 :: buckets[k]
  }

  /** Files of pairwise different sizes (including no files) give no buckets. */
  lemma UniqueSizesGiveNoBuckets(files: seq<FileEntry>)
    requires forall i, j :: 0 <= i < j < |files| ==> files[i].size != files[j].size
    ensures GroupBySize(files) == map[]
  {
    var m := GroupBySize(files);
    if m != map[] {
      var k :| k in m;
      SelectTwo(SizeTagged(files), k);
    }
  }

  /** Sum of the bucket lengths over the keys in `keys`, in no particular order. */
  ghost function LengthOver(m: map<nat, seq<FileEntry>>, keys: set<nat>): nat
    requires keys <= m.Keys
  {
    if keys == {} then 0
    else
      var k :| k in keys;
      |m[k]| + LengthOver(m, keys - {k})
  }

  /** The sum does not depend on which key is taken first. */
  lemma LengthOverRemove(m: map<nat, seq<FileEntry>>, keys: set<nat>, k: nat)
    requires keys <= m.Keys && k in keys
    ensures LengthOver(m, keys) == |m[k]| + LengthOver(m, keys - {k})
    decreases |keys|
  {
    var k' :| k' in keys && LengthOver(m, keys) == |m[k']| + LengthOver(m, keys - {k'});
    if k' != k {
      LengthOverRemove(m, keys - {k'}, k);
      LengthOverRemove(m, keys - {k}, k');
      assert keys - {k'} - {k} == keys - {k} - {k'};
    }
  }

  /** `count_files_in_groups`: the total length of all buckets. */
  method CountFilesInGroups(groups: map<nat, seq<FileEntry>>) returns (n: nat)
    ensures n == LengthOver(groups, groups.Keys)
  {
    n := 0;
    var rest := groups.Keys;
    while rest != {}
      invariant rest <= groups.Keys
      invariant n + LengthOver(groups, rest) == LengthOver(groups, groups.Keys)
      decreases |rest|
    {
      var k :| k in rest;
      LengthOverRemove(groups, rest, k);
      n := n + |groups[k]|;
      rest := rest - {k};
    }
  }

  /** Over bucket keys, the summed bucket lengths count the files whose size is in `keys`. */
  lemma LengthOverBuckets(files: seq<FileEntry>, keys: set<nat>)
    requires keys <= GroupBySize(files).Keys
    ensures LengthOver(GroupBySize(files), keys) == CountIn(SizeTagged(files), keys)
    decreases |keys|
  {
    var m := GroupBySize(files);
    if keys == {} {
      CountInNone(SizeTagged(files), keys);
    } else {
      var k :| k in keys;
      LengthOverRemove(m, keys, k);
      LengthOverBuckets(files, keys - {k});
      CountInAdd(SizeTagged(files), keys - {k}, k);
      assert keys - {k} + {k} == keys;
    }
  }

  lemma {:induction false} CountInNone<K, V>(pairs: seq<(V, K)>, keys: set<K>)
    requires keys == {}
    ensures CountIn(pairs, keys) == 0
  {
    if |pairs| > 0 {
      CountInNone(pairs[1..], keys);
    }
  }

  /**
   * Conservation: the buckets of `group_by_size` hold, in total, exactly
   * the files whose size is shared with another file.
   */
  lemma BucketCountIsSharedFiles(files: seq<FileEntry>)
    ensures LengthOver(GroupBySize(files), GroupBySize(files).Keys)
            == CountIn(SizeTagged(files), GroupBySize(files).Keys)
  {
    LengthOverBuckets(files, GroupBySize(files).Keys);
  }

  /** The extension restriction `build_filter` derives from an optional list. */
  function OptionalExtensionSet(es: Option<seq<string>>): (r: Option<set<string>>)
    ensures r.Some? <==> es.Some? && |es.value| > 0
    ensures r.Some? ==> r.value == NormalizeAll(es.value)
  {
    match es
    case None => None
    case Some(list) => ExtensionSet(list)
  }

  /**
   * `build_filter`: the minimum size is set exactly when the options give
   * one; each extension list goes through its builder, so an empty list
   * behaves as an absent one.
   */
  function BuildFilter(o: ScanOptions): (f: FileFilter)
    ensures f.minSize == o.minFileSize
    ensures f.includeExtensions == OptionalExtensionSet(o.includeExtensions)
    ensures f.excludeExtensions == OptionalExtensionSet(o.excludeExtensions)
  {
    var f := New();
    var f := if o.minFileSize.Some? then WithMinSize(f, o.minFileSize.value) else f;
    var f := if o.includeExtensions.Some? then WithIncludeExtensions(f, o.includeExtensions.value) else f;
    if o.excludeExtensions.Some? then WithExcludeExtensions(f, o.excludeExtensions.value) else f
  }

  /** An empty extension list in the options is the same as none. */
  lemma EmptyOptionListIsUnset(o: ScanOptions)
    ensures BuildFilter(o.(includeExtensions := Some([]))) == BuildFilter(o.(includeExtensions := None))
    ensures BuildFilter(o.(excludeExtensions := Some([]))) == BuildFilter(o.(excludeExtensions := None))
  {
  }

  /** The filter restricts exactly when the options set a size or a non-empty list. */
  lemma BuildFilterRestricts(o: ScanOptions)
    ensures HasRestrictions(BuildFilter(o))
            <==> o.minFileSize.Some?
                 || (o.includeExtensions.Some? && |o.includeExtensions.value| > 0)
                 || (o.excludeExtensions.Some? && |o.excludeExtensions.value| > 0)
  {
  }

  /** The default options admit every file. */
  lemma DefaultOptionsAdmitEverything(path: string, size: nat)
    ensures Matches(BuildFilter(DefaultScanOptions()), path, size)
  {
  }
}
