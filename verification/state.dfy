/**
 * The backend scan lifecycle (src-tauri/src/state.rs) as a record with
 * pure transitions. The Rust state is shared through atomics and a lock;
 * here the operations are taken one at a time, and the scan id that
 * `generate_scan_id` derives from the clock is passed in.
 */
module State {
  import opened Wrappers

  /** `AppState`; the getters of the Rust type are the three fields. */
  datatype AppState = AppState(scanning: bool, cancelRequested: bool, currentScanId: Option<string>)

  /** The idle triple: not scanning, no cancel requested, no scan id. */
  function Idle(): AppState
  {
    AppState(false, false, None)
  }

  /** The id is present exactly during a scan, and a cancel can only be pending during one. */
  ghost predicate Valid(s: AppState)
  {
    && (s.currentScanId.Some? <==> s.scanning)
    && (s.cancelRequested ==> s.scanning)
  }

  /** `AppState::new` (and `Default`). */
  function New(): (s: AppState)
    ensures !s.scanning && !s.cancelRequested && s.currentScanId.None?
    ensures Valid(s)
  {
    Idle()
  }

  /**
   * `try_start_scan`: from a non-scanning state, starts a scan under
   * `freshId`, clears any cancel request and returns the id; while a scan
   * runs, returns None and changes nothing.
   */
  function TryStartScan(s: AppState, freshId: string): (r: (AppState, Option<string>))
    ensures !s.scanning ==> r.1 == Some(freshId)
                            && r.0.scanning && !r.0.cancelRequested && r.0.currentScanId == r.1
    ensures s.scanning ==> r.1.None? && r.0 == s
    ensures Valid(s) ==> Valid(r.0)
  {
    if !s.scanning then (AppState(true, false, Some(freshId)), Some(freshId))
    else (s, None)
  }

  /** `finish_scan`: back to idle from any state. */
  function FinishScan(s: AppState): (r: AppState)
    ensures !r.scanning && !r.cancelRequested && r.currentScanId.None?
  {
    Idle()
  }

  /**
   * `request_cancel`: during a scan, records the request and reports true;
   * otherwise reports false and changes nothing.
   */
  function RequestCancel(s: AppState): (r: (AppState, bool))
    ensures r.1 <==> s.scanning
    ensures s.scanning ==> r.0.cancelRequested && r.0.scanning && r.0.currentScanId == s.currentScanId
    ensures !s.scanning ==> r.0 == s
    ensures Valid(s) ==> Valid(r.0)
  {
    if s.scanning then (s.(cancelRequested := true), true) else (s, false)
  }

  /** `reset`: back to the initial values from any state. */
  function Reset(s: AppState): (r: AppState)
    ensures r == New() && Valid(r)
  {
    Idle()
  }

  /** One call on the shared state. */
  datatype Op = Start(freshId: string) | Cancel | Finish | ResetState

  function Apply(s: AppState, op: Op): AppState
  {
    match op
    case Start(id) => TryStartScan(s, id).0
    case Cancel => RequestCancel(s).0
    case Finish => FinishScan(s)
    case ResetState => Reset(s)
  }

  /** The state after the calls `ops`, in order, from `s`. */
  function Run(s: AppState, ops: seq<Op>): AppState
    decreases |ops|
  {
    if |ops| == 0 then s else Run(Apply(s, ops[0]), ops[1..])
  }

  /** Every operation keeps the lifecycle invariant. */
  lemma ApplyKeepsValid(s: AppState, op: Op)
    requires Valid(s)
    ensures Valid(Apply(s, op))
  {
  }

  /** Every state reachable from `AppState::new` satisfies the lifecycle invariant. */
  lemma {:induction false} ReachableIsValid(s: AppState, ops: seq<Op>)
    requires Valid(s)
    ensures Valid(Run(s, ops))
    decreases |ops|
  {
    if |ops| > 0 {
      ApplyKeepsValid(s, ops[0]);
      ReachableIsValid(Apply(s, ops[0]), ops[1..]);
    }
  }

  /** At most one scan at a time: a second start fails and the first id stays current. */
  lemma SecondStartFails(id1: string, id2: string)
    ensures var (s1, r1) := TryStartScan(New(), id1);
            var (s2, r2) := TryStartScan(s1, id2);
            r1 == Some(id1) && r2.None? && s2.currentScanId == r1
  {
  }

  /** After a scan finishes or the state is reset, a new scan can start. */
  lemma FinishAllowsNewScan(s: AppState, id: string)
    ensures TryStartScan(FinishScan(s), id).1 == Some(id)
    ensures TryStartScan(Reset(s), id).1 == Some(id)
  {
  }

  /** A cancel request lasts until the scan finishes, and finishing clears it. */
  lemma CancelClearedByFinish(id: string)
    ensures var s := RequestCancel(TryStartScan(New(), id).0).0;
            s.cancelRequested && !FinishScan(s).cancelRequested
  {
  }

  /** Cancelling without a scan is refused. */
  lemma CancelWithoutScanRefused(s: AppState)
    requires Valid(s) && s.currentScanId.None?
    ensures RequestCancel(s) == (s, false)
  {
  }
}
