/**
 * Hash results and their order-preserving split into hashes and errors
 * (src-tauri/src/hasher/mod.rs). Computing the MD5 digest is not modelled:
 * a result arrives already holding its hash or its error text.
 */
module Hasher {
  import opened Wrappers
  import opened Types

  /** `HashResult`: the file and either its hash or the error text. */
  datatype HashResult = HashResult(file: FileEntry, hash: Result<string, string>)

  /** `HashResult::success`. */
  function Success(file: FileEntry, hash: string): (r: HashResult)
    ensures r.file == file && r.hash == Ok(hash)
  {
    HashResult(file, Ok(hash))
  }

  /** `HashResult::failure`. */
  function Failure(file: FileEntry, error: string): (r: HashResult)
    ensures r.file == file && r.hash == Err(error)
  {
    HashResult(file, Err(error))
  }

  /** `is_success`: exactly the results that the hash extraction keeps, and the error extraction drops. */
  function IsSuccess(r: HashResult): (b: bool)
    ensures b <==> |ExtractSuccessfulHashes([r])| == 1
    ensures b <==> ExtractHashErrors([r]) == []
  {
    assert [r][1..] == [];
    r.hash.Ok?
  }

  /** A result is a success exactly when `success` could have built it. */
  lemma IsSuccessMeansBuiltBySuccess(r: HashResult)
    ensures IsSuccess(r) <==> exists h :: r == Success(r.file, h)
    ensures !IsSuccess(r) <==> exists e :: r == Failure(r.file, e)
  {
    if IsSuccess(r) {
      assert r == Success(r.file, r.hash.value);
    } else {
      assert r == Failure(r.file, r.hash.error);
    }
  }

  /** `extract_successful_hashes`: (file, hash) of every success, in input order. */
  function ExtractSuccessfulHashes(rs: seq<HashResult>): (out: seq<(FileEntry, string)>)
    ensures |out| <= |rs|
  {
    if |rs| == 0 then []
    else
      var rest := ExtractSuccessfulHashes(rs[1..]);
      match rs[0].hash
      case Ok(h) => [(rs[0].file, h)] + rest
      case Err(_) => rest
  }

  /** `extract_hash_errors`: (path, message) of every failure, in input order. */
  function ExtractHashErrors(rs: seq<HashResult>): (out: seq<(string, string)>)
    ensures |out| <= |rs|
  {
    if |rs| == 0 then []
    else
      var rest := ExtractHashErrors(rs[1..]);
      match rs[0].hash
      case Ok(_) => rest
      case Err(e) => [(rs[0].file.path, e)] + rest
  }

  /** Exactly the successes are extracted, as (file, hash). */
  lemma {:induction false} SuccessesExtracted(rs: seq<HashResult>)
    ensures forall i :: 0 <= i < |rs| && rs[i].hash.Ok? ==> (rs[i].file, rs[i].hash.value) in ExtractSuccessfulHashes(rs)
    ensures forall p :: p in ExtractSuccessfulHashes(rs) ==> Success(p.0, p.1) in rs
  {
    if |rs| > 0 {
      SuccessesExtracted(rs[1..]);
      assert forall i :: 1 <= i < |rs| ==> rs[i] == rs[1..][i - 1];
      assert forall x :: x in rs[1..] ==> x in rs;
      if rs[0].hash.Ok? {
        assert Success(rs[0].file, rs[0].hash.value) == rs[0];
      }
    }
  }

  /** Exactly the failures are extracted, as (path, message). */
  lemma {:induction false} FailuresExtracted(rs: seq<HashResult>)
    ensures forall i :: 0 <= i < |rs| && rs[i].hash.Err? ==> (rs[i].file.path, rs[i].hash.error) in ExtractHashErrors(rs)
    ensures forall p :: p in ExtractHashErrors(rs) ==> exists f :: Failure(f, p.1) in rs && f.path == p.0
  {
    if |rs| > 0 {
      FailuresExtracted(rs[1..]);
      assert forall i :: 1 <= i < |rs| ==> rs[i] == rs[1..][i - 1];
      assert forall x :: x in rs[1..] ==> x in rs;
      if rs[0].hash.Err? {
        assert Failure(rs[0].file, rs[0].hash.error) == rs[0];
      }
    }
  }

  /** Extracting successes distributes over concatenation: input order is kept. */
  lemma {:induction false} ExtractAppend(a: seq<HashResult>, b: seq<HashResult>)
    ensures ExtractSuccessfulHashes(a + b) == ExtractSuccessfulHashes(a) + ExtractSuccessfulHashes(b)
  {
    if |a| == 0 {
      assert a + b == b;
    } else {
      var ab := a + b;
      assert ab[0] == a[0];
      assert ab[1..] == a[1..] + b;
      ExtractAppend(a[1..], b);
      var head := match a[0].hash case Ok(h) => [(a[0].file, h)] case Err(_) => [];
      calc {
        ExtractSuccessfulHashes(ab);
        head + ExtractSuccessfulHashes(a[1..] + b);
        head + (ExtractSuccessfulHashes(a[1..]) + ExtractSuccessfulHashes(b));
        (head + ExtractSuccessfulHashes(a[1..])) + ExtractSuccessfulHashes(b);
        ExtractSuccessfulHashes(a) + ExtractSuccessfulHashes(b);
      }
    }
  }

  /** Extracting failures distributes over concatenation: input order is kept. */
  lemma {:induction false} ExtractErrorsAppend(a: seq<HashResult>, b: seq<HashResult>)
    ensures ExtractHashErrors(a + b) == ExtractHashErrors(a) + ExtractHashErrors(b)
  {
    if |a| == 0 {
      assert a + b == b;
    } else {
      var ab := a + b;
      assert ab[0] == a[0];
      assert ab[1..] == a[1..] + b;
      ExtractErrorsAppend(a[1..], b);
      var head := match a[0].hash case Ok(_) => [] case Err(e) => [(a[0].file.path, e)];
      calc {
        ExtractHashErrors(ab);
        head + ExtractHashErrors(a[1..] + b);
        head + (ExtractHashErrors(a[1..]) + ExtractHashErrors(b));
        (head + ExtractHashErrors(a[1..])) + ExtractHashErrors(b);
        ExtractHashErrors(a) + ExtractHashErrors(b);
      }
    }
  }

  /** Number of successes. */
  function CountSuccesses(rs: seq<HashResult>): nat
  {
    if |rs| == 0 then 0 else (if IsSuccess(rs[0]) then 1 else 0) + CountSuccesses(rs[1..])
  }

  /** Every result lands in exactly one of the two extractions. */
  lemma {:induction false} ExtractionsPartition(rs: seq<HashResult>)
    ensures |ExtractSuccessfulHashes(rs)| == CountSuccesses(rs)
    ensures |ExtractSuccessfulHashes(rs)| + |ExtractHashErrors(rs)| == |rs|
  {
    if |rs| > 0 {
      ExtractionsPartition(rs[1..]);
    }
  }

  /** The worked example of the unit tests: the failure in the middle is skipped. */
  lemma ExtractExample()
    ensures var a := FileEntry("/a.txt", 10, None);
            var b := FileEntry("/b.txt", 10, None);
            var c := FileEntry("/c.txt", 10, None);
            var rs := [Success(a, "abc123"), Failure(b, "error"), Success(c, "def456")];
            ExtractSuccessfulHashes(rs) == [(a, "abc123"), (c, "def456")]
            && ExtractHashErrors(rs) == [("/b.txt", "error")]
  {
    var a := FileEntry("/a.txt", 10, None);
    var b := FileEntry("/b.txt", 10, None);
    var c := FileEntry("/c.txt", 10, None);
    var rs := [Success(a, "abc123"), Failure(b, "error"), Success(c, "def456")];
    assert rs == [rs[0]] + [rs[1]] + [rs[2]];
    ExtractAppend([rs[0]] + [rs[1]], [rs[2]]);
    ExtractAppend([rs[0]], [rs[1]]);
    ExtractErrorsAppend([rs[0]] + [rs[1]], [rs[2]]);
    ExtractErrorsAppend([rs[0]], [rs[1]]);
  }
}
