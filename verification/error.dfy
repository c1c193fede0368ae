/**
 * Scanner errors and their frontend form (src-tauri/src/error.rs). The
 * opaque `std::io::Error` carried by `Io` is modelled by its text.
 */
module Errors {
  import opened Wrappers

  datatype ScannerError =
    | Io(detail: string)
    | PathNotFound(path: string)
    | PermissionDenied(path: string)
    | Cancelled
    | InvalidPath(path: string)
    | ScanInProgress
    | NoActiveScan
    | DeleteFailed(path: string)
    | TrashFailed(path: string)
    | FileDisappeared(path: string)

  /** `s` ends with `suffix`. */
  predicate EndsWith(s: string, suffix: string)
  {
    |suffix| <= |s| && s[|s| - |suffix|..] == suffix
  }

  /** The path an error is about, for the six variants that name one. */
  function ErrorPath(e: ScannerError): (p: Option<string>)
    ensures p.None? <==> e.Io? || e.Cancelled? || e.ScanInProgress? || e.NoActiveScan?
    ensures p.Some? ==> p.value == e.path
  {
    match e
    case PathNotFound(p) => Some(p)
    case PermissionDenied(p) => Some(p)
    case InvalidPath(p) => Some(p)
    case DeleteFailed(p) => Some(p)
    case TrashFailed(p) => Some(p)
    case FileDisappeared(p) => Some(p)
    case _ => None
  }

  /** `is_recoverable`: whether scanning can go on past this error. */
  function IsRecoverable(e: ScannerError): (b: bool)
    ensures b <==> ErrorPath(e).Some? && !e.PathNotFound? && !e.DeleteFailed? && !e.TrashFailed?
    ensures b ==> ToResponse(e).path == Some(e.path)
  {
    e.PermissionDenied? || e.FileDisappeared? || e.InvalidPath?
  }

  /**
   * Recoverable errors are per-file errors: each names the file it concerns.
   * Exactly three variants are recoverable.
   */
  lemma RecoverableNamesAPath(e: ScannerError, p: string)
    ensures IsRecoverable(e) ==> ErrorPath(e).Some?
    ensures IsRecoverable(PermissionDenied(p)) && IsRecoverable(FileDisappeared(p))
            && IsRecoverable(InvalidPath(p))
    ensures !IsRecoverable(Io(p)) && !IsRecoverable(PathNotFound(p)) && !IsRecoverable(Cancelled)
            && !IsRecoverable(ScanInProgress) && !IsRecoverable(NoActiveScan)
            && !IsRecoverable(DeleteFailed(p)) && !IsRecoverable(TrashFailed(p))
  {
  }

  /** `user_message`: the text shown to the user; it ends with the path or I/O detail. */
  function UserMessage(e: ScannerError): (m: string)
    ensures ErrorPath(e).Some? ==> EndsWith(m, ErrorPath(e).value)
    ensures e.Io? ==> EndsWith(m, e.detail)
    ensures |m| > 0
  {
    match e
    case Io(d) => "File operation failed: " + d
    case PathNotFound(p) => "Path not found: " + p
    case PermissionDenied(p) => "Access denied: " + p
    case Cancelled => "Scan was cancelled"
    case InvalidPath(p) => "Invalid path: " + p
    case ScanInProgress => "A scan is already running"
    case NoActiveScan => "No scan is currently running"
    case DeleteFailed(p) => "Could not delete: " + p
    case TrashFailed(p) => "Could not move to trash: " + p
    case FileDisappeared(p) => "File was removed: " + p
  }

  /** The error code the frontend switches on; it is never empty. */
  function ErrorCode(e: ScannerError): (c: string)
    ensures |c| > 0
  {
    match e
    case Io(_) => "IO_ERROR"
    case PathNotFound(_) => "PATH_NOT_FOUND"
    case PermissionDenied(_) => "PERMISSION_DENIED"
    case Cancelled => "CANCELLED"
    case InvalidPath(_) => "INVALID_PATH"
    case ScanInProgress => "SCAN_IN_PROGRESS"
    case NoActiveScan => "NO_ACTIVE_SCAN"
    case DeleteFailed(_) => "DELETE_FAILED"
    case TrashFailed(_) => "TRASH_FAILED"
    case FileDisappeared(_) => "FILE_DISAPPEARED"
  }

  /** The position of the variant in the declaration, ignoring its payload. */
  function Variant(e: ScannerError): nat
  {
    match e
    case Io(_) => 0
    case PathNotFound(_) => 1
    case PermissionDenied(_) => 2
    case Cancelled => 3
    case InvalidPath(_) => 4
    case ScanInProgress => 5
    case NoActiveScan => 6
    case DeleteFailed(_) => 7
    case TrashFailed(_) => 8
    case FileDisappeared(_) => 9
  }

  /** The code identifies the variant: two errors share a code exactly when they share a variant. */
  lemma CodeIdentifiesVariant(a: ScannerError, b: ScannerError)
    ensures ErrorCode(a) == ErrorCode(b) <==> Variant(a) == Variant(b)
  {
  }

  datatype ErrorResponse = ErrorResponse(code: string, message: string, path: Option<string>)

  /** `ErrorResponse::new`: no path. */
  function NewResponse(code: string, message: string): (r: ErrorResponse)
    ensures r.code == code && r.message == message && r.path.None?
  {
    ErrorResponse(code, message, None)
  }

  /** `with_path`: sets the path and keeps code and message. */
  function WithPath(r: ErrorResponse, p: string): (r': ErrorResponse)
    ensures r'.code == r.code && r'.message == r.message && r'.path == Some(p)
  {
    r.(path := Some(p))
  }

  /**
   * `From<ScannerError> for ErrorResponse`: the variant's code, its user
   * message, and its path when it names one.
   */
  function ToResponse(e: ScannerError): (r: ErrorResponse)
    ensures r.code == ErrorCode(e) && r.message == UserMessage(e)
    ensures r.path.None? <==> e.Io? || e.Cancelled? || e.ScanInProgress? || e.NoActiveScan?
    ensures r.path.Some? ==> r.path.value == e.path && EndsWith(r.message, r.path.value)
  {
    var response := NewResponse(ErrorCode(e), UserMessage(e));
    match ErrorPath(e)
    case Some(p) => WithPath(response, p)
    case None => response
  }

  /** The code and message of every variant, as the frontend receives them. */
  lemma TextsOfEveryVariant(p: string, d: string)
    ensures ErrorCode(Io(d)) == "IO_ERROR" && UserMessage(Io(d)) == "File operation failed: " + d
    ensures ErrorCode(PathNotFound(p)) == "PATH_NOT_FOUND" && UserMessage(PathNotFound(p)) == "Path not found: " + p
    ensures ErrorCode(PermissionDenied(p)) == "PERMISSION_DENIED" && UserMessage(PermissionDenied(p)) == "Access denied: " + p
    ensures ErrorCode(Cancelled) == "CANCELLED" && UserMessage(Cancelled) == "Scan was cancelled"
    ensures ErrorCode(InvalidPath(p)) == "INVALID_PATH" && UserMessage(InvalidPath(p)) == "Invalid path: " + p
    ensures ErrorCode(ScanInProgress) == "SCAN_IN_PROGRESS" && UserMessage(ScanInProgress) == "A scan is already running"
    ensures ErrorCode(NoActiveScan) == "NO_ACTIVE_SCAN" && UserMessage(NoActiveScan) == "No scan is currently running"
    ensures ErrorCode(DeleteFailed(p)) == "DELETE_FAILED" && UserMessage(DeleteFailed(p)) == "Could not delete: " + p
    ensures ErrorCode(TrashFailed(p)) == "TRASH_FAILED" && UserMessage(TrashFailed(p)) == "Could not move to trash: " + p
    ensures ErrorCode(FileDisappeared(p)) == "FILE_DISAPPEARED" && UserMessage(FileDisappeared(p)) == "File was removed: " + p
  {
  }

  /** The worked examples of the unit tests. */
  lemma ResponseExamples()
    ensures ToResponse(PathNotFound("/test/path")) == ErrorResponse("PATH_NOT_FOUND", "Path not found: /test/path", Some("/test/path"))
    ensures ToResponse(Cancelled) == ErrorResponse("CANCELLED", "Scan was cancelled", None)
    ensures UserMessage(ScanInProgress) == "A scan is already running"
  {
  }
}
