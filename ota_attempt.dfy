/**
 * One pass of the `while (1)` loop of download_new_firmware: connect, read
 * the image chunk by chunk, check the first chunk's header and version, write
 * every chunk into the update partition, and then retry, or commit, activate
 * and restart.
 *
 * The HTTP client and the OTA API are oracles. What the HTTP client's reads
 * return is a finite sequence of read events; every other answer the attempt
 * receives is a field of `Env`. The effects of the attempt are the calls it
 * makes, recorded in order (module OtaCalls).
 */
module OtaAttempt {
  import opened OtaTypes
  import opened ImageFormat
  import opened OtaCalls
  import VersionGuard

  /** The build configuration the task reads. */
  datatype Config = Config(
    retryIntervalSeconds: nat,   // CONFIG_OTA_RETRY_INTERVAL
    skipVersionCheck: bool)      // CONFIG_SKIP_VERSION_CHECK is defined

  /** retry_delay_ms */
  function RetryDelayMs(cfg: Config): nat
  {
    cfg.retryIntervalSeconds * 1000
  }

  /** What one esp_http_client_read returns. */
  datatype ReadEvent =
    | Data(bytes: Chunk)                   // a positive count: the bytes now in ota_write_data
    | Zero(reset: bool, complete: bool)    // zero bytes; reset: errno is ECONNRESET or ENOTCONN;
                                           // complete: esp_http_client_is_complete_data_received
    | Err                                  // a negative count

  /** The answers of ESP-IDF and the HTTP client during one attempt. */
  datatype Env = Env(
    configuredBoot: PartitionId,           // esp_ota_get_boot_partition
    running: PartitionId,                  // esp_ota_get_running_partition
    clientInitOk: bool,                    // esp_http_client_init returned a handle
    openOk: bool,                          // esp_http_client_open returned ESP_OK
    updatePartition: Option<PartitionId>,  // esp_ota_get_next_update_partition
    runningVersion: Version,               // running_app_info.version
    lastInvalidVersion: Option<Version>,   // None: no last invalid partition; else invalid_app_info.version
    beginOk: bool,                         // esp_ota_begin returns ESP_OK
    failingWrite: Option<nat>,             // Some(n): the write numbered n (from 0) fails
    endResult: EndResult,                  // esp_ota_end on the handle esp_ota_begin returned
    setBootOk: bool)                       // esp_ota_set_boot_partition returns ESP_OK

  /** Why `ota_error` was set. */
  datatype Fault = ReadFailed | ShortFirstChunk | KnownBadVersion | BeginFailed | WriteFailed

  datatype RetryReason =
    | ClientInitFailed
    | OpenFailed
    | AttemptError(fault: Fault)
    | NoNewVersion
    | IncompleteTransfer
    | CommitFailed(result: EndResult)
    | ActivateFailed

  datatype Outcome =
    | Retry(reason: RetryReason)   // the task waits retry_delay_ms and starts the next attempt
    | Restarted                    // esp_restart after activating the new image
    | UpdatePartitionMissing       // the assert on the update partition fails
    | StillReading                 // the read events ran out while the read loop was still polling

  /** The flags and counters of the read loop. */
  datatype Flags = Flags(
    headerChecked: bool,           // image_header_was_checked
    inProgress: bool,              // ota_in_progress
    error: Option<Fault>,          // ota_error, with its cause
    waitNewVersion: bool,          // ota_wait_new_version
    length: nat,                   // binary_file_length
    writes: nat)                   // esp_ota_write calls made so far

  const InitFlags := Flags(false, false, None, false, 0, 0)

  /** The state after handling one positive read; `stop` is the source's `break`. */
  datatype Step = Step(flags: Flags, trace: seq<Call>, stop: bool)

  /** How the read loop ended: `polling` when the events ran out first; `complete` is what
      esp_http_client_is_complete_data_received answers after the loop. */
  datatype LoopEnd = LoopEnd(flags: Flags, trace: seq<Call>, polling: bool, complete: bool)

  datatype AttemptResult = AttemptResult(outcome: Outcome, trace: seq<Call>, length: nat)

  /** Writing one chunk with esp_ota_write. A failure calls http_cleanup at once. */
  function WriteStep(env: Env, bytes: seq<byte>, f: Flags, trace: seq<Call>): Step
  {
    var ok := env.failingWrite != Some(f.writes);
    if !ok then
      Step(f.(writes := f.writes + 1, error := Some(WriteFailed)), trace + [Write(bytes, false)] + [HttpCleanup], true)
    else
      Step(f.(writes := f.writes + 1, length := f.length + |bytes|), trace + [Write(bytes, true)], false)
  }

  /** A positive read: on the first one the header and version checks and esp_ota_begin, then the write. */
  function DataStep(cfg: Config, env: Env, target: PartitionId, bytes: seq<byte>, f: Flags, trace: seq<Call>): Step
  {
    if f.headerChecked then WriteStep(env, bytes, f, trace)
    else if |bytes| <= MIN_FIRST_CHUNK then Step(f.(error := Some(ShortFirstChunk)), trace, true)
    else
      match VersionGuard.Decide(ExtractVersion(bytes), env.runningVersion, env.lastInvalidVersion, !cfg.skipVersionCheck)
      case RejectKnownBad => Step(f.(error := Some(KnownBadVersion)), trace, true)
      case SkipUpToDate => Step(f.(waitNewVersion := true), trace, true)
      case Proceed =>
        if !env.beginOk then
          Step(f.(headerChecked := true, error := Some(BeginFailed)), trace + [Begin(target, false)], true)
        else
          WriteStep(env, bytes, f.(headerChecked := true, inProgress := true), trace + [Begin(target, true)])
  }

  /** The inner `while (1)` over the read events. */
  function ReadLoop(cfg: Config, env: Env, target: PartitionId, events: seq<ReadEvent>, f: Flags, trace: seq<Call>): LoopEnd
    decreases |events|
  {
    if events == [] then LoopEnd(f, trace, true, false)
    else match events[0]
      case Err => LoopEnd(f.(error := Some(ReadFailed)), trace, false, false)
      case Zero(reset, complete) =>
        if reset || complete then LoopEnd(f, trace, false, complete)
        else ReadLoop(cfg, env, target, events[1..], f, trace)
      case Data(bytes) =>
        var s := DataStep(cfg, env, target, bytes, f, trace);
        if s.stop then LoopEnd(s.flags, s.trace, false, false)
        else ReadLoop(cfg, env, target, events[1..], s.flags, s.trace)
  }

  /** The calls that esp_ota_abort contributes: exactly when a session is in progress. */
  function AbortIfInProgress(open: bool): seq<Call>
  {
    if open then [Abort] else []
  }

  /**
   * What esp_ota_end answers. With no session begun, `update_handle` is
   * still 0, which no esp_ota_begin returns, and the call fails with
   * ESP_ERR_NOT_FOUND.
   */
  function EndAnswer(env: Env, open: bool): (res: EndResult)
    ensures !open ==> res != EndOk
    ensures open ==> res == env.endResult
  {
    if open then env.endResult else EndFailed
  }

  /** The outcome the branch cascade after the read loop selects. */
  function FinishOutcome(env: Env, e: LoopEnd): Outcome
  {
    if e.polling then StillReading
    else if e.flags.error.Some? then Retry(AttemptError(e.flags.error.value))
    else if e.flags.waitNewVersion then Retry(NoNewVersion)
    else if !e.complete then Retry(IncompleteTransfer)
    else if EndAnswer(env, e.flags.inProgress) != EndOk then Retry(CommitFailed(EndAnswer(env, e.flags.inProgress)))
    else if !env.setBootOk then Retry(ActivateFailed)
    else Restarted
  }

  /**
   * The calls the branch that ends in `o` makes before the attempt is over:
   * `open` is ota_in_progress, `target` the update partition.
   */
  function OutcomeCalls(cfg: Config, target: PartitionId, o: Outcome, open: bool): seq<Call>
  {
    var delay := Delay(RetryDelayMs(cfg));
    match o
    case Retry(ClientInitFailed) => [delay]
    case Retry(OpenFailed) => [ClientCleanup, delay]
    case Retry(AttemptError(_)) => [HttpCleanup] + AbortIfInProgress(open) + [delay]
    case Retry(IncompleteTransfer) => [HttpCleanup] + AbortIfInProgress(open) + [delay]
    case Retry(NoNewVersion) => [delay]
    case Retry(CommitFailed(res)) => [End(open, res), HttpCleanup, delay]
    case Retry(ActivateFailed) => [End(open, EndOk), SetBoot(target, false), HttpCleanup, delay]
    case Restarted => [End(open, EndOk), SetBoot(target, true), HttpCleanup, Restart]
    case UpdatePartitionMissing => []
    case StillReading => []
  }

  /** What follows the read loop: the retry branches, or commit, activate and restart. */
  function Finish(cfg: Config, env: Env, target: PartitionId, e: LoopEnd): AttemptResult
  {
    var o := FinishOutcome(env, e);
    AttemptResult(o, e.trace + OutcomeCalls(cfg, target, o, e.flags.inProgress), e.flags.length)
  }

  /** One attempt from the partition check to its outcome. */
  function Attempt(cfg: Config, env: Env, stream: seq<ReadEvent>): AttemptResult
  {
    if !env.clientInitOk then AttemptResult(Retry(ClientInitFailed), [Delay(RetryDelayMs(cfg))], 0)
    else if !env.openOk then AttemptResult(Retry(OpenFailed), [ClientCleanup, Delay(RetryDelayMs(cfg))], 0)
    else if env.updatePartition.None? then AttemptResult(UpdatePartitionMissing, [], 0)
    else
      var target := env.updatePartition.value;
      Finish(cfg, env, target, ReadLoop(cfg, env, target, stream, InitFlags, []))
  }

  /**
   * The body of the task's outer loop, in the source's own flags and steps.
   * The mismatch between the configured boot partition and the running one
   * is only logged, so it does not appear below.
   */
  method DownloadAttempt(cfg: Config, env: Env, stream: seq<ReadEvent>) returns (r: AttemptResult)
    ensures r == Attempt(cfg, env, stream)
  {
    var retryDelayMs := cfg.retryIntervalSeconds * 1000;
    if !env.clientInitOk {
      return AttemptResult(Retry(ClientInitFailed), [Delay(retryDelayMs)], 0);
    }
    if !env.openOk {
      return AttemptResult(Retry(OpenFailed), [ClientCleanup, Delay(retryDelayMs)], 0);
    }
    if env.updatePartition.None? {
      return AttemptResult(UpdatePartitionMissing, [], 0);
    }
    var updatePartition := env.updatePartition.value;
    var e := ReadImage(cfg, env, updatePartition, stream);
    r := FinishAttempt(cfg, env, updatePartition, e);
  }

  /** The inner `while (1)`: read, check the first chunk, begin the session, write. */
  method ReadImage(cfg: Config, env: Env, updatePartition: PartitionId, stream: seq<ReadEvent>) returns (e: LoopEnd)
    ensures e == ReadLoop(cfg, env, updatePartition, stream, InitFlags, [])
  {
    var trace: seq<Call> := [];
    var binaryFileLength: nat := 0;
    var imageHeaderWasChecked := false;
    var otaInProgress := false;
    var otaError: Option<Fault> := None;
    var otaWaitNewVersion := false;
    var writes: nat := 0;
    var polling := true;
    var complete := false;
    var i := 0;
    ghost var whole := ReadLoop(cfg, env, updatePartition, stream, InitFlags, []);
    while i < |stream|
      invariant 0 <= i <= |stream|
      invariant otaError.None? && !otaWaitNewVersion && polling && !complete
      invariant whole == ReadLoop(cfg, env, updatePartition, stream[i..],
        Flags(imageHeaderWasChecked, otaInProgress, otaError, otaWaitNewVersion, binaryFileLength, writes), trace)
    {
      var event := stream[i];
      assert stream[i..][0] == event && stream[i..][1..] == stream[i + 1..];
      i := i + 1;
      match event {
        case Err =>
          otaError := Some(ReadFailed);
          polling := false;
          break;
        case Zero(reset, isComplete) =>
          if reset {
            polling, complete := false, isComplete;
            break;
          }
          if isComplete {
            polling, complete := false, true;
            break;
          }
        case Data(bytes) =>
          if !imageHeaderWasChecked {
            if |bytes| <= MIN_FIRST_CHUNK {
              otaError := Some(ShortFirstChunk);
              polling := false;
              break;
            }
            var newVersion := ExtractVersion(bytes);
            var decision := VersionGuard.Decide(newVersion, env.runningVersion, env.lastInvalidVersion, !cfg.skipVersionCheck);
            if decision == VersionGuard.RejectKnownBad {
              otaError := Some(KnownBadVersion);
              polling := false;
              break;
            }
            if decision == VersionGuard.SkipUpToDate {
              otaWaitNewVersion := true;
              polling := false;
              break;
            }
            imageHeaderWasChecked := true;
            trace := trace + [Begin(updatePartition, env.beginOk)];
            if !env.beginOk {
              otaError := Some(BeginFailed);
              polling := false;
              break;
            }
            otaInProgress := true;
          }
          var writeOk := env.failingWrite != Some(writes);
          writes := writes + 1;
          trace := trace + [Write(bytes, writeOk)];
          if !writeOk {
            trace := trace + [HttpCleanup];
            otaError := Some(WriteFailed);
            polling := false;
            break;
          }
          binaryFileLength := binaryFileLength + |bytes|;
      }
    }
    e := LoopEnd(Flags(imageHeaderWasChecked, otaInProgress, otaError, otaWaitNewVersion, binaryFileLength, writes),
                 trace, polling, complete);
  }

  /** The branches after the read loop: retry, or commit, activate and restart. */
  method FinishAttempt(cfg: Config, env: Env, updatePartition: PartitionId, e: LoopEnd) returns (r: AttemptResult)
    ensures r == Finish(cfg, env, updatePartition, e)
  {
    var retryDelayMs := cfg.retryIntervalSeconds * 1000;
    var trace, binaryFileLength, otaInProgress := e.trace, e.flags.length, e.flags.inProgress;
    var otaError, otaWaitNewVersion := e.flags.error, e.flags.waitNewVersion;
    var polling, complete := e.polling, e.complete;
    if polling {
      return AttemptResult(StillReading, trace, binaryFileLength);
    }
    if otaError.Some? {
      var calls := [HttpCleanup];
      if otaInProgress {
        calls := calls + [Abort];
      }
      return AttemptResult(Retry(AttemptError(otaError.value)), trace + (calls + [Delay(retryDelayMs)]), binaryFileLength);
    } else if otaWaitNewVersion {
      return AttemptResult(Retry(NoNewVersion), trace + [Delay(retryDelayMs)], binaryFileLength);
    }
    if !complete {
      var calls := [HttpCleanup];
      if otaInProgress {
        calls := calls + [Abort];
      }
      return AttemptResult(Retry(IncompleteTransfer), trace + (calls + [Delay(retryDelayMs)]), binaryFileLength);
    }
    var endResult := EndAnswer(env, otaInProgress);
    if endResult != EndOk {
      return AttemptResult(Retry(CommitFailed(endResult)),
                           trace + [End(otaInProgress, endResult), HttpCleanup, Delay(retryDelayMs)], binaryFileLength);
    }
    if !env.setBootOk {
      return AttemptResult(Retry(ActivateFailed),
                           trace + [End(otaInProgress, EndOk), SetBoot(updatePartition, false), HttpCleanup, Delay(retryDelayMs)],
                           binaryFileLength);
    }
    return AttemptResult(Restarted,
                         trace + [End(otaInProgress, EndOk), SetBoot(updatePartition, true), HttpCleanup, Restart],
                         binaryFileLength);
  }
}
