/**
 * Duplicate detection (src-tauri/src/duplicates/mod.rs): bucket hashed
 * files by hash, keep buckets of two or more files, and order the groups
 * by wasted space, largest first.
 */
module Duplicates {
  import opened Types
  import opened Grouping

  /** The hashes of the groups, in order. */
  function Hashes(gs: seq<DuplicateGroup>): (hs: seq<string>)
    ensures |hs| == |gs|
    ensures forall i :: 0 <= i < |gs| ==> hs[i] == gs[i].hash
  {
    if |gs| == 0 then [] else [gs[0].hash] + Hashes(gs[1..])
  }

  /** No two groups share a hash. */
  ghost predicate HashesDistinct(gs: seq<DuplicateGroup>)
  {
    forall i, j :: 0 <= i < j < |gs| ==> gs[i].hash != gs[j].hash
  }

  /** Wasted space never increases along the sequence. */
  ghost predicate SortedByWastedSpace(gs: seq<DuplicateGroup>)
  {
    forall i, j :: 0 <= i < j < |gs| ==> WastedSpace(gs[i]) >= WastedSpace(gs[j])
  }

  /** The files carrying hash `h`, in input order. */
  function FilesWithHash(pairs: seq<(FileEntry, string)>, h: string): seq<FileEntry>
  {
    Select(pairs, h)
  }

  /** The hashes carried by at least two input pairs. */
  function SharedHashes(pairs: seq<(FileEntry, string)>): set<string>
  {
    set i | 0 <= i < |pairs| && |FilesWithHash(pairs, pairs[i].1)| >= 2 :: pairs[i].1
  }

  /** The group that `find_duplicates` builds for one bucket. */
  function GroupOf(h: string, files: seq<FileEntry>): (g: DuplicateGroup)
    requires |files| > 0
    ensures g.hash == h && g.files == files && g.size == files[0].size
  {
    DuplicateGroup(h, files[0].size, files)
  }

  lemma HashesCons(g: DuplicateGroup, rest: seq<DuplicateGroup>)
    ensures Hashes([g] + rest) == [g.hash] + Hashes(rest)
  {
    assert ([g] + rest)[1..] == rest;
  }

  /** Turns buckets into groups, in key order, dropping single-file buckets. */
  function ToGroups(keys: seq<string>, m: map<string, seq<FileEntry>>): (gs: seq<DuplicateGroup>)
    requires forall k :: k in keys ==> k in m
    ensures forall i :: 0 <= i < |gs| ==>
              gs[i].hash in keys && |gs[i].files| >= 2
              && gs[i].files == m[gs[i].hash] && gs[i].size == gs[i].files[0].size
  {
    if |keys| == 0 then []
    else
      var rest := ToGroups(keys[1..], m);
      var files := m[keys[0]];
      if |files| >= 2 then
        var gs := [GroupOf(keys[0], files)] + rest;
        assert forall i :: 1 <= i < |gs| ==> gs[i] == rest[i - 1] && rest[i - 1].hash in keys[1..];
        gs
      else rest
  }

  /** A key becomes a group exactly when its bucket holds two or more files. */
  lemma {:induction false} ToGroupsHashes(keys: seq<string>, m: map<string, seq<FileEntry>>)
    requires forall k :: k in keys ==> k in m
    ensures forall h :: h in Hashes(ToGroups(keys, m)) <==> h in keys && |m[h]| >= 2
  {
    if |keys| > 0 {
      ToGroupsHashes(keys[1..], m);
      var rest := ToGroups(keys[1..], m);
      assert keys == [keys[0]] + keys[1..];
      if |m[keys[0]]| >= 2 {
        HashesCons(GroupOf(keys[0], m[keys[0]]), rest);
      }
    }
  }

  /** Distinct keys give groups with distinct hashes. */
  lemma {:induction false} ToGroupsDistinct(keys: seq<string>, m: map<string, seq<FileEntry>>)
    requires forall k :: k in keys ==> k in m
    requires forall i, j :: 0 <= i < j < |keys| ==> keys[i] != keys[j]
    ensures HashesDistinct(ToGroups(keys, m))
  {
    if |keys| > 0 {
      ToGroupsDistinct(keys[1..], m);
      var rest := ToGroups(keys[1..], m);
      if |m[keys[0]]| >= 2 {
        var gs := ToGroups(keys, m);
        assert gs == [GroupOf(keys[0], m[keys[0]])] + rest;
        forall i, j | 0 <= i < j < |gs| ensures gs[i].hash != gs[j].hash {
          if i == 0 {
            assert gs[j] == rest[j - 1];
            assert rest[j - 1].hash in keys[1..];
          } else {
            assert gs[i] == rest[i - 1] && gs[j] == rest[j - 1];
          }
        }
      }
    }
  }

  /** Inserts `g` into a list sorted by non-increasing wasted space, ahead of its ties. */
  function Insert(g: DuplicateGroup, s: seq<DuplicateGroup>): (r: seq<DuplicateGroup>)
    requires SortedByWastedSpace(s)
    ensures |r| == |s| + 1
    ensures r[0] == g || (|s| > 0 && r[0] == s[0])
    ensures SortedByWastedSpace(r)
    ensures multiset(r) == multiset(s) + multiset{g}
  {
    if |s| == 0 then [g]
    else if WastedSpace(s[0]) <= WastedSpace(g) then
      SortedCons(g, s);
      [g] + s
    else
      SortedTail(s);
      var rest := Insert(g, s[1..]);
      SortedCons(s[0], rest);
      assert multiset([s[0]] + rest) == multiset(s) + multiset{g} by {
        assert s == [s[0]] + s[1..];
      }
      [s[0]] + rest
  }

  /**
   * `groups.sort_by_key(|g| Reverse(g.wasted_space()))`: a permutation of
   * the input ordered by non-increasing wasted space.
   */
  function SortByWastedSpace(s: seq<DuplicateGroup>): (r: seq<DuplicateGroup>)
    ensures SortedByWastedSpace(r)
    ensures multiset(r) == multiset(s)
  {
    if |s| == 0 then []
    else
      assert s == [s[0]] + s[1..];
      Insert(s[0], SortByWastedSpace(s[1..]))
  }

  /** A value at two distinct positions occurs at least twice in the multiset. */
  lemma TwoPositions(b: seq<DuplicateGroup>, i: nat, j: nat)
    requires i < j < |b| && b[i] == b[j]
    ensures multiset(b)[b[i]] >= 2
  {
    assert b == b[..i] + [b[i]] + b[i + 1..j] + [b[j]] + b[j + 1..];
  }

  /** With distinct hashes, no group occurs twice. */
  lemma {:induction false} DistinctOnce(a: seq<DuplicateGroup>, x: DuplicateGroup)
    requires HashesDistinct(a)
    ensures multiset(a)[x] <= 1
  {
    if |a| > 0 {
      assert a == [a[0]] + a[1..];
      assert HashesDistinct(a[1..]) by {
        forall i, j | 0 <= i < j < |a[1..]| ensures a[1..][i].hash != a[1..][j].hash {
          assert a[1..][i] == a[i + 1] && a[1..][j] == a[j + 1];
        }
      }
      DistinctOnce(a[1..], x);
    }
  }

  /** What a permutation keeps: members, the set of hashes, distinctness of hashes. */
  lemma PermutationFacts(a: seq<DuplicateGroup>, b: seq<DuplicateGroup>)
    requires multiset(a) == multiset(b)
    ensures forall i :: 0 <= i < |b| ==> b[i] in a
    ensures forall h :: h in Hashes(b) <==> h in Hashes(a)
    ensures HashesDistinct(a) ==> HashesDistinct(b)
  {
    forall i | 0 <= i < |b| ensures b[i] in a {
      assert b[i] in multiset(b);
    }
    forall h | h in Hashes(a) ensures h in Hashes(b) {
      var i :| 0 <= i < |a| && Hashes(a)[i] == h;
      assert a[i] in multiset(a);
      var j :| 0 <= j < |b| && b[j] == a[i];
      assert Hashes(b)[j] == h;
    }
    forall h | h in Hashes(b) ensures h in Hashes(a) {
      var i :| 0 <= i < |b| && Hashes(b)[i] == h;
      var j :| 0 <= j < |a| && a[j] == b[i];
      assert Hashes(a)[j] == h;
    }
    if HashesDistinct(a) {
      forall i, j | 0 <= i < j < |b| ensures b[i].hash != b[j].hash {
        if b[i].hash == b[j].hash {
          var i' :| 0 <= i' < |a| && a[i'] == b[i];
          var j' :| 0 <= j' < |a| && a[j'] == b[j];
          assert i' == j';
          TwoPositions(b, i, j);
          DistinctOnce(a, b[i]);
          assert false;
        }
      }
    }
  }

  /**
   * The groups `r` are the shared buckets of the input pairs: every group
   * holds two or more files, exactly the input files carrying its hash (in
   * input order), and takes its size from the first of them; and a hash has
   * a group exactly when two or more inputs carry it.
   */
  ghost predicate GroupsShared(pairs: seq<(FileEntry, string)>, r: seq<DuplicateGroup>)
  {
    (forall i :: 0 <= i < |r| ==>
       |r[i].files| >= 2 && r[i].files == FilesWithHash(pairs, r[i].hash)
       && r[i].size == r[i].files[0].size)
    && (forall h :: h in Hashes(r) <==> |FilesWithHash(pairs, h)| >= 2)
  }

  /**
   * What `find_duplicates` promises of its result `r`: the shared buckets,
   * no hash twice, wasted space never increasing along `r`.
   */
  ghost predicate IsDuplicateGrouping(pairs: seq<(FileEntry, string)>, r: seq<DuplicateGroup>)
  {
    GroupsShared(pairs, r) && HashesDistinct(r) && SortedByWastedSpace(r)
  }

  /** Turning a bucket map over all occurring keys into groups gives the shared buckets. */
  lemma BucketGroupsShared(pairs: seq<(FileEntry, string)>, keys: seq<string>, m: map<string, seq<FileEntry>>)
    requires forall k :: k in keys <==> |FilesWithHash(pairs, k)| > 0
    requires forall k :: k in keys ==> k in m && m[k] == FilesWithHash(pairs, k)
    ensures GroupsShared(pairs, ToGroups(keys, m))
  {
    ToGroupsHashes(keys, m);
  }

  /** Reordering the shared buckets leaves them the shared buckets. */
  lemma PermutationKeepsShared(pairs: seq<(FileEntry, string)>, a: seq<DuplicateGroup>, b: seq<DuplicateGroup>)
    requires GroupsShared(pairs, a)
    requires multiset(a) == multiset(b)
    ensures GroupsShared(pairs, b)
  {
    PermutationFacts(a, b);
    forall i | 0 <= i < |b|
      ensures |b[i].files| >= 2 && b[i].files == FilesWithHash(pairs, b[i].hash)
              && b[i].size == b[i].files[0].size
    {
      var j :| 0 <= j < |a| && a[j] == b[i];
    }
  }

  /** The buckets' groups, put in order by wasted space, form a duplicate grouping. */
  lemma SortedBucketsAreGrouping(pairs: seq<(FileEntry, string)>, gs: seq<DuplicateGroup>, r: seq<DuplicateGroup>)
    requires gs == ToGroups(Keys(pairs), Bucket(pairs))
    requires multiset(r) == multiset(gs) && SortedByWastedSpace(r)
    ensures IsDuplicateGrouping(pairs, r)
  {
    var keys := Keys(pairs);
    var m := Bucket(pairs);
    BucketGroupsShared(pairs, keys, m);
    PermutationKeepsShared(pairs, gs, r);
    ToGroupsDistinct(keys, m);
    PermutationFacts(gs, r);
  }

  /**
   * `find_duplicates`: bucket by hash, keep the buckets of two or more
   * files, sort by wasted space. Order among ties is not promised.
   */
  function FindDuplicates(pairs: seq<(FileEntry, string)>): (r: seq<DuplicateGroup>)
    ensures IsDuplicateGrouping(pairs, r)
  {
    var gs := ToGroups(Keys(pairs), Bucket(pairs));
    var r := SortByWastedSpace(gs);
    SortedBucketsAreGrouping(pairs, gs, r);
    r
  }

  /** Every file of a group came from an input pair carrying the group's hash. */
  lemma GroupedFilesComeFromInput(pairs: seq<(FileEntry, string)>, r: seq<DuplicateGroup>, i: nat, f: FileEntry)
    requires IsDuplicateGrouping(pairs, r)
    requires i < |r| && f in r[i].files
    ensures (f, r[i].hash) in pairs
  {
    SelectFrom(pairs, r[i].hash, f);
  }

  /** Every file of a found group came from an input pair carrying the group's hash. */
  lemma FoundFilesComeFromInput(pairs: seq<(FileEntry, string)>, i: nat, f: FileEntry)
    requires i < |FindDuplicates(pairs)|
    requires f in FindDuplicates(pairs)[i].files
    ensures (f, FindDuplicates(pairs)[i].hash) in pairs
  {
    GroupedFilesComeFromInput(pairs, FindDuplicates(pairs), i, f);
  }

  /** An input file whose hash is shared lies in the group of that hash. */
  lemma SharedFilesAreGrouped(pairs: seq<(FileEntry, string)>, r: seq<DuplicateGroup>, k: nat)
    requires IsDuplicateGrouping(pairs, r)
    requires k < |pairs| && |FilesWithHash(pairs, pairs[k].1)| >= 2
    ensures exists i :: 0 <= i < |r| && r[i].hash == pairs[k].1 && pairs[k].0 in r[i].files
  {
    var h := pairs[k].1;
    assert h in Hashes(r);
    var i :| 0 <= i < |Hashes(r)| && Hashes(r)[i] == h;
    SelectContains(pairs, k);
    assert r[i].files == FilesWithHash(pairs, h);
  }

  /** Every input file whose hash is shared lands in the group of that hash. */
  lemma SharedFilesAreFound(pairs: seq<(FileEntry, string)>, k: nat)
    requires k < |pairs|
    requires |FilesWithHash(pairs, pairs[k].1)| >= 2
    ensures exists i :: 0 <= i < |FindDuplicates(pairs)|
              && FindDuplicates(pairs)[i].hash == pairs[k].1
              && pairs[k].0 in FindDuplicates(pairs)[i].files
  {
    SharedFilesAreGrouped(pairs, FindDuplicates(pairs), k);
  }

  /** Inserting adds the inserted group's file count and wasted space to the totals. */
  lemma {:induction false} InsertTotals(g: DuplicateGroup, s: seq<DuplicateGroup>)
    requires SortedByWastedSpace(s)
    ensures TotalFileCount(Insert(g, s)) == |g.files| + TotalFileCount(s)
    ensures TotalWasted(Insert(g, s)) == WastedSpace(g) + TotalWasted(s)
  {
    if |s| > 0 && WastedSpace(s[0]) > WastedSpace(g) {
      InsertTotals(g, s[1..]);
      assert Insert(g, s)[1..] == Insert(g, s[1..]);
    } else if |s| > 0 {
      assert Insert(g, s)[1..] == s;
    }
  }

  /** The groups of `s` whose wasted space is `w`, in their order in `s`. */
  function Tied(w: nat, s: seq<DuplicateGroup>): seq<DuplicateGroup>
  {
    if |s| == 0 then [] else (if WastedSpace(s[0]) == w then [s[0]] else []) + Tied(w, s[1..])
  }

  lemma TiedCons(w: nat, x: DuplicateGroup, t: seq<DuplicateGroup>)
    ensures Tied(w, [x] + t) == (if WastedSpace(x) == w then [x] else []) + Tied(w, t)
  {
    assert ([x] + t)[1..] == t;
  }

  /** Two runs of ties, one of them empty, can be put in either order. */
  lemma TiesCommute(a: seq<DuplicateGroup>, b: seq<DuplicateGroup>, t: seq<DuplicateGroup>)
    requires a == [] || b == []
    ensures b + (a + t) == a + (b + t)
  {
    if a == [] {
      assert a + t == t && a + (b + t) == b + t;
    } else {
      assert b + (a + t) == a + t && b + t == t;
    }
  }

  /** Inserting puts `g` ahead of the groups it ties with and moves no other tie. */
  lemma {:induction false} InsertKeepsTies(w: nat, g: DuplicateGroup, s: seq<DuplicateGroup>)
    requires SortedByWastedSpace(s)
    ensures Tied(w, Insert(g, s)) == (if WastedSpace(g) == w then [g] else []) + Tied(w, s)
  {
    var gw: seq<DuplicateGroup> := if WastedSpace(g) == w then [g] else [];
    if |s| > 0 && WastedSpace(s[0]) > WastedSpace(g) {
      var sw: seq<DuplicateGroup> := if WastedSpace(s[0]) == w then [s[0]] else [];
      var t := Tied(w, s[1..]);
      SortedTail(s);
      var rest := Insert(g, s[1..]);
      assert Insert(g, s) == [s[0]] + rest;
      TiedCons(w, s[0], rest);
      InsertKeepsTies(w, g, s[1..]);
      assert Tied(w, s) == sw + t;
      TiesCommute(gw, sw, t);
    } else {
      assert Insert(g, s) == [g] + s;
      TiedCons(w, g, s);
    }
  }

  /**
   * The sort is stable, like `sort_by_key`: groups with equal wasted space
   * keep their relative order.
   */
  lemma {:induction false} SortIsStable(w: nat, s: seq<DuplicateGroup>)
    ensures Tied(w, SortByWastedSpace(s)) == Tied(w, s)
  {
    if |s| > 0 {
      SortIsStable(w, s[1..]);
      InsertKeepsTies(w, s[0], SortByWastedSpace(s[1..]));
    }
  }

  /** The totals do not depend on the order of the groups. */
  lemma {:induction false} SortKeepsTotals(s: seq<DuplicateGroup>)
    ensures TotalFileCount(SortByWastedSpace(s)) == TotalFileCount(s)
    ensures TotalWasted(SortByWastedSpace(s)) == TotalWasted(s)
  {
    if |s| > 0 {
      SortKeepsTotals(s[1..]);
      InsertTotals(s[0], SortByWastedSpace(s[1..]));
    }
  }

  /** The keys of `keys` whose bucket holds two or more values. */
  function SharedAmong(pairs: seq<(FileEntry, string)>, keys: seq<string>): set<string>
  {
    set k | k in keys && |FilesWithHash(pairs, k)| >= 2
  }

  /** The shared keys of a key list: those of its tail, plus its head when shared. */
  lemma SharedAmongCons(pairs: seq<(FileEntry, string)>, keys: seq<string>)
    requires |keys| > 0
    ensures SharedAmong(pairs, keys)
            == SharedAmong(pairs, keys[1..])
               + (if |FilesWithHash(pairs, keys[0])| >= 2 then {keys[0]} else {})
  {
    assert keys == [keys[0]] + keys[1..];
  }

  /** The groups of a key list: the head's group when its bucket is shared, then the tail's. */
  lemma ToGroupsCons(keys: seq<string>, m: map<string, seq<FileEntry>>)
    requires |keys| > 0 && forall k :: k in keys ==> k in m
    ensures ToGroups(keys, m)
            == (if |m[keys[0]]| >= 2 then [GroupOf(keys[0], m[keys[0]])] else [])
               + ToGroups(keys[1..], m)
  {
  }

  /** The file count of a key list's groups: the head's shared bucket, then the tail's groups. */
  lemma ToGroupsCountCons(keys: seq<string>, m: map<string, seq<FileEntry>>)
    requires |keys| > 0 && forall k :: k in keys ==> k in m
    ensures TotalFileCount(ToGroups(keys, m))
            == (if |m[keys[0]]| >= 2 then |m[keys[0]]| else 0) + TotalFileCount(ToGroups(keys[1..], m))
  {
    var k := keys[0];
    var rest := ToGroups(keys[1..], m);
    ToGroupsCons(keys, m);
    if |m[k]| >= 2 {
      var g := GroupOf(k, m[k]);
      TotalFileCountAppend([g], rest);
      assert TotalFileCount([g]) == |m[k]|;
    } else {
      assert ToGroups(keys, m) == rest;
    }
  }

  /** The pairs under a key list's shared keys: the head's bucket when shared, then the tail's. */
  lemma SharedCountCons(pairs: seq<(FileEntry, string)>, keys: seq<string>)
    requires |keys| > 0 && keys[0] !in keys[1..]
    ensures CountIn(pairs, SharedAmong(pairs, keys))
            == (if |FilesWithHash(pairs, keys[0])| >= 2 then |FilesWithHash(pairs, keys[0])| else 0)
               + CountIn(pairs, SharedAmong(pairs, keys[1..]))
  {
    var k := keys[0];
    var s := SharedAmong(pairs, keys[1..]);
    SharedAmongCons(pairs, keys);
    if |FilesWithHash(pairs, k)| >= 2 {
      CountInAdd(pairs, s, k);
    } else {
      assert SharedAmong(pairs, keys) == s;
    }
  }

  /** The groups built from distinct keys hold exactly the pairs of their shared keys. */
  lemma {:induction false} ToGroupsFileCount(pairs: seq<(FileEntry, string)>, keys: seq<string>,
                                             m: map<string, seq<FileEntry>>)
    requires forall k :: k in keys ==> k in m && m[k] == FilesWithHash(pairs, k)
    requires forall i, j :: 0 <= i < j < |keys| ==> keys[i] != keys[j]
    ensures TotalFileCount(ToGroups(keys, m)) == CountIn(pairs, SharedAmong(pairs, keys))
  {
    if |keys| == 0 {
      assert SharedAmong(pairs, keys) == {};
      CountInEmpty(pairs);
    } else {
      var tail := keys[1..];
      assert forall x :: x in tail ==> x in keys;
      ToGroupsFileCount(pairs, tail, m);
      assert keys[0] !in tail by {
        forall j | 0 <= j < |tail| ensures tail[j] != keys[0] {
          assert tail[j] == keys[j + 1];
        }
      }
      ToGroupsCountCons(keys, m);
      SharedCountCons(pairs, keys);
      assert m[keys[0]] == FilesWithHash(pairs, keys[0]);
    }
  }

  lemma {:induction false} CountInEmpty(pairs: seq<(FileEntry, string)>)
    ensures CountIn(pairs, {}) == 0
  {
    if |pairs| > 0 {
      CountInEmpty(pairs[1..]);
    }
  }

  /**
   * Conservation: the groups found hold, in total, exactly the input pairs
   * whose hash is carried by two or more pairs.
   */
  lemma FoundFileCountIsSharedInputs(pairs: seq<(FileEntry, string)>)
    ensures TotalFileCount(FindDuplicates(pairs)) == CountIn(pairs, SharedHashes(pairs))
  {
    var m := Bucket(pairs);
    var keys := Keys(pairs);
    var gs := ToGroups(keys, m);
    calc {
      TotalFileCount(FindDuplicates(pairs));
      TotalFileCount(SortByWastedSpace(gs));
      { SortKeepsTotals(gs); }
      TotalFileCount(gs);
      { ToGroupsFileCount(pairs, keys, m); }
      CountIn(pairs, SharedAmong(pairs, keys));
      { SharedAmongKeys(pairs); }
      CountIn(pairs, SharedHashes(pairs));
    }
  }

  /** Among the occurring keys, the shared ones are all the shared hashes. */
  lemma SharedAmongKeys(pairs: seq<(FileEntry, string)>)
    ensures SharedAmong(pairs, Keys(pairs)) == SharedHashes(pairs)
  {
    forall h ensures h in SharedAmong(pairs, Keys(pairs)) <==> h in SharedHashes(pairs) {
      SelectNonEmpty(pairs, h);
    }
  }

  /**
   * `filter_by_min_wasted_space`: keeps exactly the groups whose wasted
   * space reaches the minimum.
   */
  function FilterByMinWastedSpace(gs: seq<DuplicateGroup>, minWasted: nat): (r: seq<DuplicateGroup>)
    ensures forall g :: g in r <==> g in gs && WastedSpace(g) >= minWasted
    ensures |r| <= |gs|
  {
    if |gs| == 0 then []
    else
      assert gs == [gs[0]] + gs[1..];
      (if WastedSpace(gs[0]) >= minWasted then [gs[0]] else [])
      + FilterByMinWastedSpace(gs[1..], minWasted)
  }

  /** Filtering distributes over concatenation: kept groups stay in their original order. */
  lemma {:induction false} FilterAppend(a: seq<DuplicateGroup>, b: seq<DuplicateGroup>, minWasted: nat)
    ensures FilterByMinWastedSpace(a + b, minWasted)
            == FilterByMinWastedSpace(a, minWasted) + FilterByMinWastedSpace(b, minWasted)
  {
    if |a| == 0 {
      assert a + b == b;
    } else {
      assert (a + b)[1..] == a[1..] + b;
      FilterAppend(a[1..], b, minWasted);
    }
  }

  /** In a sorted list every later group wastes no more than the first. */
  lemma HeadBoundsTail(gs: seq<DuplicateGroup>, x: DuplicateGroup)
    requires SortedByWastedSpace(gs) && |gs| > 0
    requires x in gs[1..]
    ensures WastedSpace(x) <= WastedSpace(gs[0])
  {
    var k :| 0 <= k < |gs[1..]| && gs[1..][k] == x;
    assert gs[k + 1] == x;
  }

  /** The tail of a sorted list is sorted. */
  lemma SortedTail(gs: seq<DuplicateGroup>)
    requires SortedByWastedSpace(gs) && |gs| > 0
    ensures SortedByWastedSpace(gs[1..])
  {
    forall i, j | 0 <= i < j < |gs[1..]| ensures WastedSpace(gs[1..][i]) >= WastedSpace(gs[1..][j]) {
      assert gs[1..][i] == gs[i + 1] && gs[1..][j] == gs[j + 1];
    }
  }

  /** A group wasting at least as much as the head of a sorted list may go in front of it. */
  lemma SortedCons(x: DuplicateGroup, rest: seq<DuplicateGroup>)
    requires SortedByWastedSpace(rest)
    requires |rest| == 0 || WastedSpace(rest[0]) <= WastedSpace(x)
    ensures SortedByWastedSpace([x] + rest)
  {
    var r := [x] + rest;
    forall i, j | 0 <= i < j < |r| ensures WastedSpace(r[i]) >= WastedSpace(r[j]) {
      assert r[j] == rest[j - 1];
      if i > 0 {
        assert r[i] == rest[i - 1];
      }
    }
  }

  /** Filtering the output of `find_duplicates` keeps it sorted by wasted space. */
  lemma {:induction false} FilterKeepsSorted(gs: seq<DuplicateGroup>, minWasted: nat)
    requires SortedByWastedSpace(gs)
    ensures SortedByWastedSpace(FilterByMinWastedSpace(gs, minWasted))
  {
    if |gs| > 0 {
      SortedTail(gs);
      FilterKeepsSorted(gs[1..], minWasted);
      var rest := FilterByMinWastedSpace(gs[1..], minWasted);
      if WastedSpace(gs[0]) >= minWasted {
        if |rest| > 0 {
          assert rest[0] in rest;
          HeadBoundsTail(gs, rest[0]);
        }
        SortedCons(gs[0], rest);
        assert FilterByMinWastedSpace(gs, minWasted) == [gs[0]] + rest;
      } else {
        assert FilterByMinWastedSpace(gs, minWasted) == [] + rest;
      }
    }
  }

  /** Pairs that all carry different hashes (including no pairs) have no group. */
  lemma UniqueHashesGroupNothing(pairs: seq<(FileEntry, string)>, r: seq<DuplicateGroup>)
    requires IsDuplicateGrouping(pairs, r)
    requires forall i, j :: 0 <= i < j < |pairs| ==> pairs[i].1 != pairs[j].1
    ensures r == []
  {
    if |r| > 0 {
      assert r[0].hash in Hashes(r);
      SelectTwo(pairs, r[0].hash);
    }
  }

  /** Pairs that all carry different hashes (including no pairs) give no groups. */
  lemma UniqueHashesGiveNoGroups(pairs: seq<(FileEntry, string)>)
    requires forall i, j :: 0 <= i < j < |pairs| ==> pairs[i].1 != pairs[j].1
    ensures FindDuplicates(pairs) == []
  {
    UniqueHashesGroupNothing(pairs, FindDuplicates(pairs));
  }

  /** The files of the pairs, in order. */
  function FilesOf(pairs: seq<(FileEntry, string)>): (fs: seq<FileEntry>)
    ensures |fs| == |pairs| && forall i :: 0 <= i < |pairs| ==> fs[i] == pairs[i].0
  {
    seq(|pairs|, i requires 0 <= i < |pairs| => pairs[i].0)
  }

  lemma {:induction false} SelectAll(pairs: seq<(FileEntry, string)>, h: string)
    requires forall i :: 0 <= i < |pairs| ==> pairs[i].1 == h
    ensures FilesWithHash(pairs, h) == FilesOf(pairs)
    ensures forall h' :: h' != h ==> FilesWithHash(pairs, h') == []
  {
    if |pairs| > 0 {
      SelectAll(pairs[1..], h);
      assert FilesOf(pairs) == [pairs[0].0] + FilesOf(pairs[1..]);
      forall h' | h' != h ensures FilesWithHash(pairs, h') == [] {
        assert pairs[0].1 == h;
        assert FilesWithHash(pairs[1..], h') == [];
        assert FilesWithHash(pairs, h') == Select(pairs[1..], h');
      }
    }
  }

  /** Two or more pairs under one hash have a single group holding every file, in order. */
  lemma OneHashGroupsAll(pairs: seq<(FileEntry, string)>, h: string, r: seq<DuplicateGroup>)
    requires IsDuplicateGrouping(pairs, r)
    requires |pairs| >= 2
    requires forall i :: 0 <= i < |pairs| ==> pairs[i].1 == h
    ensures r == [DuplicateGroup(h, pairs[0].0.size, FilesOf(pairs))]
  {
    SelectAll(pairs, h);
    assert h in Hashes(r);
    forall i | 0 <= i < |r| ensures r[i].hash == h {
      assert Hashes(r)[i] == r[i].hash;
    }
    if |r| >= 2 {
      assert false;
    }
  }

  /** Two or more pairs under one hash give a single group holding every file, in order. */
  lemma OneHashGivesOneGroup(pairs: seq<(FileEntry, string)>, h: string)
    requires |pairs| >= 2
    requires forall i :: 0 <= i < |pairs| ==> pairs[i].1 == h
    ensures FindDuplicates(pairs) == [DuplicateGroup(h, pairs[0].0.size, FilesOf(pairs))]
  {
    OneHashGroupsAll(pairs, h, FindDuplicates(pairs));
  }
}
