/**
 * The scanner's file filter (src-tauri/src/scanner/filter.rs): a minimum
 * size and include/exclude extension sets, normalised to lower case
 * without leading dots, with exclusion taking precedence.
 * Lower-casing is restricted to ASCII letters.
 */
module Filter {
  import opened Wrappers

  /** ASCII lower-casing of one character. */
  function LowerChar(c: char): (d: char)
    ensures 'A' <= c <= 'Z' ==> 'a' <= d <= 'z' && d as int == c as int + 32
    ensures !('A' <= c <= 'Z') ==> d == c
  {
    if 'A' <= c <= 'Z' then (c as int + 32) as char else c
  }

  /** `str::to_lowercase`, on ASCII. */
  function Lower(s: string): (r: string)
    ensures |r| == |s|
    ensures forall i :: 0 <= i < |s| ==> r[i] == LowerChar(s[i])
  {
    seq(|s|, i requires 0 <= i < |s| => LowerChar(s[i]))
  }

  /** No ASCII upper-case letter occurs in `s`. */
  ghost predicate IsLower(s: string)
  {
    forall i :: 0 <= i < |s| ==> !('A' <= s[i] <= 'Z')
  }

  lemma LowerIsLower(s: string)
    ensures IsLower(Lower(s))
    ensures IsLower(s) ==> Lower(s) == s
  {
  }

  /** `n` dots. */
  function Dots(n: nat): (d: string)
    ensures |d| == n && forall i :: 0 <= i < n ==> d[i] == '.'
  {
    seq(n, _ => '.')
  }

  /** `trim_start_matches('.')`: drops every leading dot and nothing else. */
  function TrimLeadingDots(s: string): (r: string)
    ensures |r| <= |s|
    ensures s == Dots(|s| - |r|) + r
    ensures |r| == 0 || r[0] != '.'
  {
    if |s| > 0 && s[0] == '.' then
      var r := TrimLeadingDots(s[1..]);
      assert s == Dots(|s| - |r|) + r by {
        assert s == [s[0]] + s[1..];
        assert Dots(|s| - |r|) == ['.'] + Dots(|s| - 1 - |r|);
      }
      r
    else
      assert s == Dots(0) + s;
      s
  }

  /** What follows a run of dots in lower-case text is lower case. */
  lemma LowerSuffix(n: nat, r: string)
    requires IsLower(Dots(n) + r)
    ensures IsLower(r)
  {
    forall i | 0 <= i < |r| ensures !('A' <= r[i] <= 'Z') {
      assert r[i] == (Dots(n) + r)[n + i];
    }
  }

  /** How a configured extension is stored: lower case, leading dots removed. */
  function Normalize(e: string): (r: string)
    ensures IsLower(r)
    ensures |r| == 0 || r[0] != '.'
    ensures |r| <= |e| && Lower(e) == Dots(|e| - |r|) + r
  {
    var l := Lower(e);
    LowerIsLower(e);
    var r := TrimLeadingDots(l);
    LowerSuffix(|l| - |r|, r);
    r
  }

  /** A string with no leading dot is unchanged by trimming. */
  lemma TrimNoDot(s: string)
    requires |s| == 0 || s[0] != '.'
    ensures TrimLeadingDots(s) == s
  {
  }

  lemma {:induction false} TrimDots(n: nat, s: string)
    ensures TrimLeadingDots(Dots(n) + s) == TrimLeadingDots(s)
  {
    if n > 0 {
      assert (Dots(n) + s)[1..] == Dots(n - 1) + s;
      TrimDots(n - 1, s);
    } else {
      assert Dots(0) + s == s;
    }
  }

  /** Leading dots in a configured extension are ignored: ".jpg" is stored as "jpg". */
  lemma NormalizeIgnoresLeadingDots(n: nat, e: string)
    ensures Normalize(Dots(n) + e) == Normalize(e)
  {
    assert Lower(Dots(n) + e) == Dots(n) + Lower(e);
    TrimDots(n, Lower(e));
  }

  /** Normalising twice is normalising once. */
  lemma NormalizeIdempotent(e: string)
    ensures Normalize(Normalize(e)) == Normalize(e)
  {
    var r := Normalize(e);
    LowerIsLower(r);
    TrimNoDot(r);
  }

  /** The stored set of a non-empty extension list. */
  function NormalizeAll(es: seq<string>): (s: set<string>)
    ensures forall x :: x in s <==> exists i :: 0 <= i < |es| && Normalize(es[i]) == x
  {
    set i | 0 <= i < |es| :: Normalize(es[i])
  }

  /** `FileFilter`: each restriction is optional. */
  datatype FileFilter = FileFilter(
    minSize: Option<nat>,
    includeExtensions: Option<set<string>>,
    excludeExtensions: Option<set<string>>)

  /** `FileFilter::new` (and `Default`). */
  function New(): (f: FileFilter)
    ensures !HasRestrictions(f)
  {
    FileFilter(None, None, None)
  }

  /** `with_min_size`: sets the minimum and leaves the extension sets alone. */
  function WithMinSize(f: FileFilter, size: nat): (r: FileFilter)
    ensures r.minSize == Some(size)
    ensures r.includeExtensions == f.includeExtensions && r.excludeExtensions == f.excludeExtensions
  {
    f.(minSize := Some(size))
  }

  /**
   * The stored form of an extension list: an empty list leaves the
   * restriction unset; otherwise the set of normalised entries.
   */
  function ExtensionSet(es: seq<string>): (r: Option<set<string>>)
    ensures r.None? <==> |es| == 0
    ensures r.Some? ==> forall e :: e in es ==> Normalize(e) in r.value
    ensures r.Some? ==> forall x :: x in r.value ==> IsLower(x) && (|x| == 0 || x[0] != '.')
    ensures r.Some? ==> r.value == NormalizeAll(es)
  {
    if |es| == 0 then None else Some(NormalizeAll(es))
  }

  /** `with_include_extensions`: replaces the include set, nothing else. */
  function WithIncludeExtensions(f: FileFilter, es: seq<string>): (r: FileFilter)
    ensures r.minSize == f.minSize && r.excludeExtensions == f.excludeExtensions
    ensures r.includeExtensions == ExtensionSet(es)
  {
    f.(includeExtensions := ExtensionSet(es))
  }

  /** `with_exclude_extensions`: replaces the exclude set, nothing else. */
  function WithExcludeExtensions(f: FileFilter, es: seq<string>): (r: FileFilter)
    ensures r.minSize == f.minSize && r.includeExtensions == f.includeExtensions
    ensures r.excludeExtensions == ExtensionSet(es)
  {
    f.(excludeExtensions := ExtensionSet(es))
  }

  /** The position of the last `c` in `s`, if any. */
  function LastIndexOf(s: string, c: char): (r: Option<nat>)
    ensures r.Some? ==> r.value < |s| && s[r.value] == c
                        && forall i :: r.value < i < |s| ==> s[i] != c
    ensures r.None? ==> forall i :: 0 <= i < |s| ==> s[i] != c
  {
    if |s| == 0 then None
    else if s[|s| - 1] == c then Some(|s| - 1)
    else LastIndexOf(s[..|s| - 1], c)
  }

  /** The final component of a path: everything after its last '/'. */
  function FileName(path: string): (name: string)
    ensures |name| <= |path| && path[|path| - |name|..] == name
    ensures forall i :: 0 <= i < |name| ==> name[i] != '/'
    ensures |name| < |path| ==> path[|path| - |name| - 1] == '/'
  {
    match LastIndexOf(path, '/')
    case None => path
    case Some(k) => path[k + 1..]
  }

  /** The text after the last dot of the final component, when that dot is not in front. */
  lemma ExtensionAfterLastDot(path: string, name: string, k: nat)
    requires name == FileName(path)
    requires LastIndexOf(name, '.') == Some(k) && k > 0
    ensures var ext := name[k + 1..];
            && (forall i :: 0 <= i < |ext| ==> ext[i] != '.' && ext[i] != '/')
            && |ext| < |path| && path[|path| - |ext| - 1] == '.'
            && path[|path| - |ext|..] == ext
  {
    var ext := name[k + 1..];
    assert forall i :: 0 <= i < |ext| ==> ext[i] == name[k + 1 + i];
    assert path[|path| - |name|..][k] == name[k];
    assert path[|path| - |ext|..] == ext by {
      assert path[|path| - |name|..][k + 1..] == ext;
    }
  }

  /**
   * `Path::extension`: the text after the last dot of the final component,
   * absent when that component is "..", has no dot, or has its only dot
   * in front.
   */
  function Extension(path: string): (r: Option<string>)
    ensures r.None? <==> FileName(path) == ".."
                         || forall i :: 0 < i < |FileName(path)| ==> FileName(path)[i] != '.'
    ensures r.Some? ==> forall i :: 0 <= i < |r.value| ==> r.value[i] != '.' && r.value[i] != '/'
    ensures r.Some? ==> |r.value| < |path| && path[|path| - |r.value| - 1] == '.'
                        && path[|path| - |r.value|..] == r.value
  {
    var name := FileName(path);
    if name == ".." then None
    else
      match LastIndexOf(name, '.')
      case None => None
      case Some(k) =>
        if k == 0 then None
        else
          ExtensionAfterLastDot(path, name, k);
          Some(name[k + 1..])
  }

  /**
   * `FileFilter::matches`. Each restriction that is set must be met; the
   * lemmas below give the converse, restriction by restriction.
   */
  function Matches(f: FileFilter, path: string, size: nat): (b: bool)
    ensures b ==> f.minSize.None? || size >= f.minSize.value
    ensures b && f.excludeExtensions.Some? && Extension(path).Some?
            ==> Lower(Extension(path).value) !in f.excludeExtensions.value
    ensures b && f.includeExtensions.Some?
            ==> (if Extension(path).Some? then Lower(Extension(path).value) else "") in f.includeExtensions.value
  {
    if f.minSize.Some? && size < f.minSize.value then false
    else
      var ext := ComparedExtension(path);
      if f.excludeExtensions.Some? && ext.Some? && ext.value in f.excludeExtensions.value then false
      else if f.includeExtensions.Some? then
        match ext
        case Some(e) => e in f.includeExtensions.value
        case None => "" in f.includeExtensions.value
      else true
  }

  /** `FileFilter::has_restrictions`. */
  function HasRestrictions(f: FileFilter): (b: bool)
    ensures b <==> f != FileFilter(None, None, None)
  {
    f.minSize.Some? || f.includeExtensions.Some? || f.excludeExtensions.Some?
  }

  /** A fresh filter has no restriction and admits every path and size. */
  lemma NewAdmitsEverything(path: string, size: nat)
    ensures !HasRestrictions(New())
    ensures Matches(New(), path, size)
  {
  }

  /** Without restrictions a filter admits every path and size. */
  lemma UnrestrictedAdmitsEverything(f: FileFilter, path: string, size: nat)
    requires !HasRestrictions(f)
    ensures Matches(f, path, size)
  {
  }

  /** A size under the minimum is rejected whatever the path. */
  lemma BelowMinimumRejected(f: FileFilter, path: string, size: nat)
    requires f.minSize.Some? && size < f.minSize.value
    ensures !Matches(f, path, size)
  {
  }

  /** With only a minimum size, a file passes exactly when it reaches the minimum. */
  lemma MinimumSizeOnly(m: nat, path: string, size: nat)
    ensures Matches(WithMinSize(New(), m), path, size) <==> size >= m
  {
  }

  /** An empty extension list leaves that restriction unset. */
  lemma EmptyListsLeaveUnset(f: FileFilter)
    ensures WithIncludeExtensions(f, []) == f.(includeExtensions := None)
    ensures WithExcludeExtensions(f, []) == f.(excludeExtensions := None)
    ensures !HasRestrictions(WithExcludeExtensions(WithIncludeExtensions(New(), []), []))
  {
  }

  /** The file's extension as the filter compares it: lower-cased. */
  function ComparedExtension(path: string): Option<string>
  {
    match Extension(path) case None => None case Some(e) => Some(Lower(e))
  }

  /**
   * Exclusion takes precedence: an extension named in the exclude list is
   * rejected whatever the include list says.
   */
  lemma ExcludeTakesPrecedence(f: FileFilter, excludes: seq<string>, e: string, path: string, size: nat)
    requires e in excludes
    requires ComparedExtension(path) == Some(Normalize(e))
    ensures !Matches(WithExcludeExtensions(f, excludes), path, size)
  {
  }

  /**
   * A file with an extension that is large enough and not excluded passes
   * exactly when there is no include set or its extension is included.
   */
  lemma IncludedExtensionRule(f: FileFilter, path: string, size: nat)
    requires f.minSize.None? || size >= f.minSize.value
    requires Extension(path).Some?
    requires f.excludeExtensions.None? || Lower(Extension(path).value) !in f.excludeExtensions.value
    ensures Matches(f, path, size)
            <==> f.includeExtensions.None? || Lower(Extension(path).value) in f.includeExtensions.value
  {
  }

  /**
   * With an include set, a file without extension passes exactly when the
   * empty extension "" is included (an exclude set cannot reject it).
   */
  lemma NoExtensionRule(f: FileFilter, path: string, size: nat)
    requires f.includeExtensions.Some?
    requires Extension(path).None?
    ensures Matches(f, path, size)
            <==> (f.minSize.None? || size >= f.minSize.value) && "" in f.includeExtensions.value
  {
  }

  /** Without an include set, a file without extension passes whenever its size does. */
  lemma NoExtensionNeverExcluded(f: FileFilter, path: string, size: nat)
    requires f.includeExtensions.None?
    requires Extension(path).None?
    ensures Matches(f, path, size) <==> f.minSize.None? || size >= f.minSize.value
  {
  }

  lemma LowerIdempotent(s: string)
    ensures Lower(Lower(s)) == Lower(s)
  {
  }

  lemma LowerSlice(s: string, k: nat)
    requires k <= |s|
    ensures Lower(s)[k..] == Lower(s[k..])
    ensures Lower(s)[..k] == Lower(s[..k])
  {
  }

  /** Lower-casing moves no '/' or '.'. */
  lemma {:induction false} LastIndexOfLower(s: string, c: char)
    requires c == '/' || c == '.'
    ensures LastIndexOf(Lower(s), c) == LastIndexOf(s, c)
  {
    if |s| > 0 {
      LowerSlice(s, |s| - 1);
      LastIndexOfLower(s[..|s| - 1], c);
    }
  }

  lemma FileNameLower(path: string)
    ensures FileName(Lower(path)) == Lower(FileName(path))
  {
    var lp := Lower(path);
    LastIndexOfLower(path, '/');
    var last := LastIndexOf(path, '/');
    if last.Some? {
      var k := last.value;
      calc {
        FileName(lp);
        lp[k + 1..];
        { LowerSlice(path, k + 1); }
        Lower(path[k + 1..]);
        Lower(FileName(path));
      }
    } else {
      calc {
        FileName(lp);
        lp;
        Lower(FileName(path));
      }
    }
  }

  lemma LowerDotDot(name: string)
    ensures Lower(name) == ".." <==> name == ".."
  {
    if Lower(name) == ".." {
      assert |name| == 2;
      assert LowerChar(name[0]) == '.' && LowerChar(name[1]) == '.';
    }
  }

  lemma ExtensionLower(path: string)
    ensures ComparedExtension(Lower(path)) == ComparedExtension(path)
  {
    var name := FileName(path);
    FileNameLower(path);
    LowerDotDot(name);
    LastIndexOfLower(name, '.');
    if name != ".." {
      match LastIndexOf(name, '.')
      case None =>
      case Some(k) =>
        if k != 0 {
          LowerSlice(name, k + 1);
          LowerIdempotent(name[k + 1..]);
          assert Extension(Lower(path)) == Some(Lower(name[k + 1..]));
          assert Extension(path) == Some(name[k + 1..]);
        }
    }
  }

  /** Matching ignores the case of the path's extension. */
  lemma MatchesIgnoresCase(f: FileFilter, path: string, size: nat)
    ensures Matches(f, Lower(path), size) == Matches(f, path, size)
  {
    ExtensionLower(path);
  }

  /** The last `c` is the one followed by no other `c`. */
  lemma {:induction false} LastIndexOfSplit(a: string, c: char, b: string)
    requires forall i :: 0 <= i < |b| ==> b[i] != c
    ensures LastIndexOf(a + [c] + b, c) == Some(|a|)
  {
    if |b| > 0 {
      assert (a + [c] + b)[..|a + [c] + b| - 1] == a + [c] + b[..|b| - 1];
      LastIndexOfSplit(a, c, b[..|b| - 1]);
    }
  }

  /** The final component of `dir/name` is `name`. */
  lemma FileNameOf(dir: string, name: string)
    requires forall i :: 0 <= i < |name| ==> name[i] != '/'
    ensures FileName(dir + "/" + name) == name
  {
    LastIndexOfSplit(dir, '/', name);
    assert (dir + "/" + name)[|dir| + 1..] == name;
  }

  /**
   * Only the last dot-segment counts: a final component `stem.ext`, with no
   * dot in `ext`, has extension `ext` ("archive.tar.gz" has "gz", and
   * "file." has the empty extension).
   */
  lemma ExtensionIsLastSegment(dir: string, stem: string, ext: string)
    requires |stem| > 0 && stem + "." + ext != ".."
    requires forall i :: 0 <= i < |stem| ==> stem[i] != '/'
    requires forall i :: 0 <= i < |ext| ==> ext[i] != '/' && ext[i] != '.'
    ensures Extension(dir + "/" + stem + "." + ext) == Some(ext)
  {
    var name := stem + "." + ext;
    assert forall i :: 0 <= i < |name| ==> name[i] != '/' by {
      forall i | 0 <= i < |name| ensures name[i] != '/' {
        if i < |stem| { assert name[i] == stem[i]; }
        else if i > |stem| { assert name[i] == ext[i - |stem| - 1]; }
      }
    }
    FileNameOf(dir, name);
    assert dir + "/" + stem + "." + ext == dir + "/" + name;
    LastIndexOfSplit(stem, '.', ext);
    assert name[|stem| + 1..] == ext;
  }

  /** A final component whose only dot is in front, such as ".bashrc", has no extension. */
  lemma LeadingDotIsNoExtension(dir: string, rest: string)
    requires forall i :: 0 <= i < |rest| ==> rest[i] != '/' && rest[i] != '.'
    ensures Extension(dir + "/." + rest) == None
  {
    var name := "." + rest;
    assert forall i :: 0 < i < |name| ==> name[i] == rest[i - 1];
    FileNameOf(dir, name);
    assert dir + "/." + rest == dir + "/" + name;
  }

  /** Entries with the same normalised forms build the same extension set. */
  lemma {:induction false} NormalizeAllPointwise(a: seq<string>, b: seq<string>)
    requires |a| == |b|
    requires forall i :: 0 <= i < |a| ==> Normalize(a[i]) == Normalize(b[i])
    ensures NormalizeAll(a) == NormalizeAll(b)
  {
    forall x | x in NormalizeAll(a) ensures x in NormalizeAll(b) {
      var i :| 0 <= i < |a| && Normalize(a[i]) == x;
      assert Normalize(b[i]) == x;
    }
    forall x | x in NormalizeAll(b) ensures x in NormalizeAll(a) {
      var i :| 0 <= i < |b| && Normalize(b[i]) == x;
      assert Normalize(a[i]) == x;
    }
  }

  /** Lower-casing an entry first does not change how it is stored. */
  lemma NormalizeIgnoresCase(e: string)
    ensures Normalize(Lower(e)) == Normalize(e)
  {
    LowerIdempotent(e);
  }

  /** Each entry with a dot put in front. */
  function Dotted(es: seq<string>): (ds: seq<string>)
    ensures |ds| == |es| && forall i :: 0 <= i < |es| ==> ds[i] == "." + es[i]
  {
    seq(|es|, i requires 0 <= i < |es| => "." + es[i])
  }

  /** Each entry lower-cased. */
  function LowerAll(es: seq<string>): (ls: seq<string>)
    ensures |ls| == |es| && forall i :: 0 <= i < |es| ==> ls[i] == Lower(es[i])
  {
    seq(|es|, i requires 0 <= i < |es| => Lower(es[i]))
  }

  /**
   * Extensions listed with a leading dot, or in another case, build the same
   * filter as the plain lower-case list: ".JPG" means "jpg".
   */
  lemma DottedOrCasedListsBehaveAlike(f: FileFilter, es: seq<string>)
    ensures WithIncludeExtensions(f, Dotted(es)) == WithIncludeExtensions(f, es)
    ensures WithExcludeExtensions(f, Dotted(es)) == WithExcludeExtensions(f, es)
    ensures WithIncludeExtensions(f, LowerAll(es)) == WithIncludeExtensions(f, es)
    ensures WithExcludeExtensions(f, LowerAll(es)) == WithExcludeExtensions(f, es)
  {
    var ds := Dotted(es);
    forall i | 0 <= i < |es| ensures Normalize(ds[i]) == Normalize(es[i]) {
      assert ds[i] == Dots(1) + es[i];
      NormalizeIgnoresLeadingDots(1, es[i]);
    }
    NormalizeAllPointwise(ds, es);
    var ls := LowerAll(es);
    forall i | 0 <= i < |es| ensures Normalize(ls[i]) == Normalize(es[i]) {
      NormalizeIgnoresCase(es[i]);
    }
    NormalizeAllPointwise(ls, es);
  }
}
