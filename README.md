# Verified model of the ESP32 secure OTA update engine

This project models the firmware-update engine of an ESP32 application, found in `main/ota.c`. It covers three pieces:

- The task `download_new_firmware`:
  - it connects to the update server, reads the new image chunk by chunk, and checks the first chunk's image header and application version;
  - it writes every chunk into the next OTA partition;
  - on any failure it waits `retry_delay_ms` and tries again, and on success it commits and activates the image and restarts.
- The boot-time gate `diagnose_new_firmware`:
  - a freshly booted image in state `PENDING_VERIFY` runs a self-test;
  - it is marked valid when the test passes, or invalid with a rollback and reboot when it fails.
- The digest formatter `print_sha256`.

The ESP-IDF and HTTP client calls are oracles:

- What `esp_http_client_read` returns over one attempt is a finite sequence of read events: a positive read with its bytes, a zero-byte read (with the `errno` and completion answers), or a negative read.
- Every other answer one attempt receives is a field of `OtaAttempt.Env`.
- The effects of an attempt are the calls it makes into the OTA API and the HTTP client. They are recorded in order as a trace (`OtaCalls.Call`).
- Most properties are stated over that trace:
  - a protocol automaton (`OtaCalls.Next`) fixes which calls may follow which;
  - `Count` and `Written` count the calls and collect the bytes that reached flash.

Modules, following the structure of `main/ota.c`:

| module | file | models |
|---|---|---|
| `OtaTypes`, `ImageFormat` | `ota_types.dfy` | bytes, partitions, the layout of `esp_image_header_t`, `esp_image_segment_header_t` and `esp_app_desc_t` |
| `VersionGuard` | `version_guard.dfy` | `memcmp` over the version field and the known-bad / up-to-date decision |
| `OtaCalls` | `ota_calls.dfy` | the calls an attempt makes and the OTA session protocol |
| `OtaAttempt` | `ota_attempt.dfy` | one pass of the outer loop: the imperative methods `DownloadAttempt`, `ReadImage` and `FinishAttempt`, and the functions `Attempt`, `ReadLoop` and `Finish` that specify them |
| `AttemptProperties` | `attempt_properties.dfy` | what one attempt guarantees |
| `OtaTask` | `ota_task.dfy` | the outer `while (1)` over successive attempts |
| `DiagnosticGate` | `diagnostic_gate.dfy` | `diagnose_new_firmware` over the otadata image states |
| `HashPrint` | `hash_print.dfy` | `print_sha256` |

The model keeps these behaviours of the code as written:

- A zero-byte read with `errno` `ECONNRESET`/`ENOTCONN` leaves the read loop without setting `ota_error`. The completeness check then sends the attempt round the incomplete-transfer branch. If completion was reported, `esp_ota_end` is called, even when no byte ever arrived and `esp_ota_begin` never ran (`update_handle` is still 0). ESP-IDF's `esp_ota_end` answers `ESP_ERR_NOT_FOUND` for a handle that no `esp_ota_begin` returned (`OtaAttempt.EndAnswer`), so such an attempt retries through the `esp_ota_end` failure branch. The protocol automaton accordingly lets only a begun session commit.
- The wait-for-new-version branch calls neither `http_cleanup` nor `esp_ota_abort`.
- A failing `esp_ota_write` calls `http_cleanup` inside the read loop, and the error branch calls it a second time.
- `esp_ota_get_next_update_partition` returning NULL fires the `assert`. The attempt ends there (`UpdatePartitionMissing`) with no call made.
- A boot partition that differs from the running partition is only logged.
- The version check compares the new version with the last invalid version first. Only then, unless `CONFIG_SKIP_VERSION_CHECK` is defined, does it compare the new version with the running version.

## Model

`VersionGuard.Decide`, `OtaAttempt.ReadLoop`, `OtaAttempt.Finish`, `OtaAttempt.Attempt` and `DiagnosticGate.Gate` are specification functions without contracts of their own. The rows below are the methods proved equal to them and the lemmas that characterise them. `DiagnosticGate.Device.GetStatePartition` and the two `Mark…` methods are ESP-IDF oracles, modelled by their documented effect on the otadata.

| member | source | states |
|---|---|---|
| `ImageFormat.ExtractVersion` | main/ota.c:157-167 | the version copied out of a long enough first chunk is the 32 bytes at offset 24 + 8 + 16, the `version` field of the `esp_app_desc_t` that follows the image and segment headers |
| `VersionGuard.Memcmp` | main/ota.c:188-189 | `memcmp` over `n` bytes yields a value between -255 and 255 |
| `VersionGuard.MemcmpZeroIffEqual` | main/ota.c:188-189 | `memcmp` returns zero exactly when the two `n`-byte prefixes are equal, in both directions |
| `VersionGuard.SameVersionIffEqual` | main/ota.c:206-207 | comparing over `sizeof(version)` is equality of version fields |
| `VersionGuard.DecideCharacterised` | main/ota.c:186-213 | the attempt is rejected exactly when the new version equals the last invalid one; it waits exactly when it is not that one, the check is on, and it equals the running version; otherwise it proceeds |
| `VersionGuard.KnownBadOutranksUpToDate` | main/ota.c:186-213 | a repeat of the last invalid version is rejected whatever the running version is and whatever the configuration |
| `VersionGuard.NoSkipWithoutVersionCheck` | main/ota.c:204-213 | with `CONFIG_SKIP_VERSION_CHECK` the up-to-date branch never fires |
| `OtaAttempt.DownloadAttempt` | main/ota.c:47-318 | one pass of the outer loop: the C flags, the `break`s and the branch cascade after the read loop compute exactly the outcome, call trace and `binary_file_length` of the specification `Attempt` |
| `OtaAttempt.ReadImage` | main/ota.c:121-248 | the inner `while (1)`, with the C flags and its `break`s, ends with exactly the flags, calls and completion answer of the specification `ReadLoop` |
| `OtaAttempt.EndAnswer` | main/ota.c:284 | `esp_ota_end` on `update_handle` 0, left by an attempt that never began a session, never reports success; on a begun session it gives the oracle's answer |
| `OtaAttempt.FinishAttempt` | main/ota.c:250-316 | the branch cascade after the read loop selects the outcome and makes the calls of the specification `Finish` |
| `AttemptProperties.ReadLoopInv` | main/ota.c:121-249 | the read loop keeps its flags in step with its calls: a session is open exactly when `ota_in_progress`; begin succeeded once when in progress, failed once when the header was checked but no session is open; `binary_file_length` is the length of what reached flash |
| `AttemptProperties.ReadLoopPayload` | main/ota.c:128-249 | a read loop that ends without a fault wrote exactly the bytes the server delivered, and it reports completion exactly when the transfer completed |
| `AttemptProperties.AttemptFollowsProtocol` | main/ota.c:89-316 | every attempt follows the OTA call protocol; a retry leaves no session open and its last call is the wait of `retry_delay_ms`; the attempt restarts exactly when the image was committed and activated, and the restart is its last call |
| `AttemptProperties.AttemptCallCounts` | main/ota.c:216-316 | at most one `esp_ota_begin`, and a successful one before any `esp_ota_write`; `esp_ota_end`, `esp_ota_set_boot_partition` and `esp_restart` each run once in exactly the outcomes that reach them; a retry waits once; `esp_ota_abort` runs exactly when the error or incomplete branch sees `ota_in_progress`; `http_cleanup` runs twice after a failed write and never when no new version is available; an image is activated only after a successful `esp_ota_begin` |
| `AttemptProperties.LengthIsBytesWritten` | main/ota.c:236-246 | `binary_file_length` is the number of bytes successful writes put into flash; a committed image is exactly what the server delivered, and the transfer was complete |
| `AttemptProperties.PollingPrefixIgnored` | main/ota.c:135-143 | zero-byte reads with no reset `errno` and no completion keep the loop polling and change nothing |
| `AttemptProperties.ShortFirstChunkRejected` | main/ota.c:145-155 | a first positive read of at most 288 bytes ends in the error branch: no begin, no write, no abort |
| `AttemptProperties.KnownBadVersionRejected` | main/ota.c:186-202 | a first chunk carrying the last invalid version ends in the error branch before `esp_ota_begin`, whatever the running version and configuration |
| `AttemptProperties.SameVersionWaits` | main/ota.c:204-213 | with the check on, the running version (when it is not the last invalid one) gives the wait outcome: no begin, no write, no abort, no `http_cleanup` |
| `AttemptProperties.NoWaitWithoutVersionCheck` | main/ota.c:204-213 | with `CONFIG_SKIP_VERSION_CHECK` no attempt ever ends waiting for a new version |
| `AttemptProperties.ZeroReadEndsLoop` | main/ota.c:135-296 | after any reads that kept the loop polling, with or without a session open, a reset `errno` or a completion signal ends the loop without `ota_error` and later reads are never made; without completion the attempt retries as incomplete and `esp_ota_abort` runs exactly when a session was begun; with completion `esp_ota_end` runs on the loop's handle, and on handle 0 (no session begun) it fails and the attempt retries |
| `AttemptProperties.ReadErrorRetries` | main/ota.c:130-258 | after any reads that kept the loop polling, a negative read ends the attempt in the error branch and no later read is made; `http_cleanup` runs once and `esp_ota_abort` exactly when a session was begun |
| `AttemptProperties.ReadLoopResumes` | main/ota.c:128-248 | reads during which the loop keeps polling hand their flags and calls on unchanged to the reads that follow |
| `AttemptProperties.BootMismatchOnlyLogged` | main/ota.c:60-71 | whichever partitions are configured to boot and running, the attempt is the same |
| `AttemptProperties.SuccessfulUpdate` | main/ota.c:128-316 | a fresh version, written in any number of chunks with every call succeeding, restarts the device after one `esp_ota_begin` and no abort, and the flash holds exactly the bytes the server sent |
| `OtaTask.DownloadNewFirmware` | main/ota.c:50-317 | the outer `while (1)` makes exactly the attempts of `Run`: one per pass, stopping after the first that does not retry |
| `OtaTask.RunStopsAtFirstNonRetry` | main/ota.c:50-317 | every pass before the last retried; each pass is the attempt of its own round; the task stops before the rounds run out only after an attempt that did not retry |
| `OtaTask.RunFollowsProtocol` | main/ota.c:50-317 | over all passes together the OTA call protocol holds, and the device restarts at most once, exactly when the last pass restarted it |
| `DiagnosticGate.PassingDiagnosticKeepsImage` | main/ota.c:349-355 | a pending image that passes the self-test is marked valid; no other partition changes and nothing reboots |
| `DiagnosticGate.FailingDiagnosticRollsBack` | main/ota.c:349-359 | a pending image that fails the self-test is marked invalid and the device reboots (or, when no other image could boot, nothing changes) |
| `DiagnosticGate.OtherStatesUntouched` | main/ota.c:346-347 | any other state, or a failed state lookup, runs no self-test and changes nothing |
| `DiagnosticGate.GateSettles` | main/ota.c:346-361 | the self-test runs exactly when the image is pending; once the gate has marked the image, a second gate runs nothing and changes nothing |
| `DiagnosticGate.ShippedDiagnosticNeverRollsBack` | main/ota.c:38-43 | with `diagnostic()` as shipped (always true) a pending image is always kept and the device never reboots |
| `DiagnosticGate.Device.DiagnoseNewFirmware` | main/ota.c:346-361 | the method changes the device's otadata exactly as the gate prescribes and reports whether the self-test ran |
| `DiagnosticGate.Device.GetStatePartition` | main/ota.c:346 | the lookup succeeds exactly when the running partition has an otadata state, and returns that state |
| `DiagnosticGate.Device.MarkAppValidCancelRollback` | main/ota.c:353 | the running image's otadata state becomes VALID (when it has one) and nothing else changes |
| `DiagnosticGate.Device.MarkAppInvalidRollbackAndReboot` | main/ota.c:358 | the running image's state becomes INVALID and the device reboots when another image could boot; otherwise nothing changes |
| `HashPrint.ByteHex` | main/ota.c:25-27 | `%02x` prints two lowercase hex digits whose value is the byte |
| `HashPrint.HexString` | main/ota.c:22-29 | a digest prints as twice as many characters, all lowercase hex |
| `HashPrint.UnhexHexString` | main/ota.c:22-29 | reading the printed text back gives the digest |
| `HashPrint.HexStringUnhex` | main/ota.c:22-29 | every lowercase hex text of even length is the print of the bytes it reads as |
| `HashPrint.HexStringInjective` | main/ota.c:22-29 | two different digests never print the same |
| `HashPrint.PrintSha256` | main/ota.c:22-29 | the buffer `hash_print` ends up holding the 64-digit text form of the 32-byte digest followed by one NUL, although each `sprintf` also writes a NUL that the next one overwrites |

## Left out

- The TLS configuration of the HTTP client (certificate, common-name check, timeout, keep-alive) and `esp_http_client_fetch_headers`, whose result the code ignores: they do not influence any branch.
- SHA-256 computation over the partition table, the bootloader and the running image, which are foreign calls. Only their formatting (`print_sha256`) is modelled.
- Logging. `ESP_LOGx` messages, and the `label` text of `print_sha256`, are not part of the model.
- Timing. `vTaskDelay` is a `Delay(retry_delay_ms)` call in the trace; ticks, `portTICK_PERIOD_MS` and the five-second wait inside `diagnostic()` are not modelled.
- The HTTP client, the TLS stack and the flash. Each read is an event of a finite sequence. The answers of `esp_ota_begin`, `esp_ota_write`, `esp_ota_end` and `esp_ota_set_boot_partition` are fields of `Env`. What the flash holds is what successful writes were given.
- The static buffer `ota_write_data`. Each positive read's bytes are a value of type `ImageFormat.Chunk`: between one and `BUFFSIZE` bytes, as `esp_http_client_read` into a `BUFFSIZE` buffer delivers them. A read of zero bytes is always the `Zero` event.
- `AttemptProperties.LengthIsBytesWritten`: `binary_file_length` is an unbounded `nat`, while the code's `int` would wrap after 2 GiB. No embedded image comes near that.
- An `esp_ota_get_partition_description` that fails leaves `running_app_info` or `invalid_app_info` indeterminate. The model takes whatever bytes the comparison then sees as oracle values (`runningVersion`, `lastInvalidVersion`).
- The infinite `while (1)` of the task is modelled over a finite sequence of rounds (`OtaTask.Round`). A stream that runs out while the loop still polls ends the run with `StillReading`.
- `main/wifi.c`, `main/main.c` and the HTTPS server in `ota_https_server/src/main.rs` are not part of this model: Wi-Fi events and concurrency, NVS start-up and the server are outside the update engine.
- The ESP-IDF internals of `esp_ota_mark_app_valid_cancel_rollback` and `esp_ota_mark_app_invalid_rollback_and_reboot` are not part of this model. They are modelled by their documented effect on the running image's state, including a rollback that is impossible, in which case nothing changes. Which image the bootloader then starts is not modelled.
