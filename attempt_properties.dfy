/**
 * What one update attempt guarantees: the order of the OTA calls, how many of
 * each it makes, what reaches flash, and how the first chunk and the zero-byte
 * reads decide the outcome.
 */
module AttemptProperties {
  import opened OtaTypes
  import opened ImageFormat
  import opened OtaCalls
  import opened OtaAttempt
  import VersionGuard

  /** The bytes the server delivers before the read loop stops on a zero-byte read or an error. */
  function Payload(events: seq<ReadEvent>): seq<byte>
  {
    if events == [] then []
    else match events[0]
      case Data(b) => b + Payload(events[1..])
      case Zero(reset, complete) => if reset || complete then [] else Payload(events[1..])
      case Err => []
  }

  /** Reads that return zero bytes with no reset errno and no completion: the loop polls again. */
  ghost predicate Polls(events: seq<ReadEvent>)
  {
    forall k :: 0 <= k < |events| ==> events[k] == Zero(false, false)
  }

  /** The reads, taken in order, reach a zero-byte read that signals completion before any negative read. */
  predicate CompleteTransfer(events: seq<ReadEvent>)
  {
    if events == [] then false
    else match events[0]
      case Data(_) => CompleteTransfer(events[1..])
      case Zero(reset, complete) => if reset || complete then complete else CompleteTransfer(events[1..])
      case Err => false
  }

  /** An environment in which the connection opens and an update partition exists. */
  ghost predicate Connected(env: Env)
  {
    env.clientInitOk && env.openOk && env.updatePartition.Some?
  }

  predicate LoopKind(k: CallKind)
  {
    k == BeginOkK || k == BeginFailedK || k == WriteK || k == HttpCleanupK
  }

  /** How the read loop's flags are reflected in the calls made so far. */
  ghost predicate LoopInv(target: PartitionId, f: Flags, t: seq<Call>)
  {
    && Replay(t) == Some(if f.inProgress then Opened else Closed)
    && f.length == |Written(t)|
    && (f.inProgress ==> f.headerChecked)
    && (f.headerChecked && !f.inProgress ==> f.error == Some(BeginFailed))
    && (!f.headerChecked ==> t == [])
    && Count(t, BeginOkK) == (if f.inProgress then 1 else 0)
    && Count(t, BeginFailedK) == (if f.headerChecked && !f.inProgress then 1 else 0)
    && Count(t, HttpCleanupK) == (if f.error == Some(WriteFailed) then 1 else 0)
    && Count(t, WriteK) == f.writes
    && (!f.inProgress ==> f.writes == 0)
    && (forall k :: !LoopKind(k) ==> Count(t, k) == 0)
  }

  lemma WriteStepInv(env: Env, target: PartitionId, bytes: seq<byte>, f: Flags, t: seq<Call>)
    requires LoopInv(target, f, t) && f.error.None? && !f.waitNewVersion && f.inProgress
    ensures var s := WriteStep(env, bytes, f, t);
      && LoopInv(target, s.flags, s.trace)
      && !s.flags.waitNewVersion
      && (s.stop <==> s.flags.error.Some?)
      && (!s.stop ==> s.flags.inProgress && Written(s.trace) == Written(t) + bytes)
  {
    var ok := env.failingWrite != Some(f.writes);
    AppendCall(t, Write(bytes, ok));
    AppendCall(t + [Write(bytes, ok)], HttpCleanup);
  }

  lemma DataStepInv(cfg: Config, env: Env, target: PartitionId, bytes: seq<byte>, f: Flags, t: seq<Call>)
    requires LoopInv(target, f, t) && f.error.None? && !f.waitNewVersion
    ensures var s := DataStep(cfg, env, target, bytes, f, t);
      && LoopInv(target, s.flags, s.trace)
      && (s.stop <==> s.flags.error.Some? || s.flags.waitNewVersion)
      && (s.flags.waitNewVersion ==> !cfg.skipVersionCheck && s.flags.error.None? && !s.flags.headerChecked)
      && (!s.stop ==> Written(s.trace) == Written(t) + bytes)
  {
    if f.headerChecked {
      WriteStepInv(env, target, bytes, f, t);
    } else if |bytes| > MIN_FIRST_CHUNK {
      var d := VersionGuard.Decide(ExtractVersion(bytes), env.runningVersion, env.lastInvalidVersion, !cfg.skipVersionCheck);
      if d == VersionGuard.Proceed {
        BeginStepInv(env, target, bytes, f, t);
      }
    }
  }

  /** The first chunk passed its checks: esp_ota_begin, and on success the first write. */
  lemma BeginStepInv(env: Env, target: PartitionId, bytes: seq<byte>, f: Flags, t: seq<Call>)
    requires LoopInv(target, f, t) && f.error.None? && !f.waitNewVersion && !f.headerChecked
    ensures var s := if !env.beginOk then Step(f.(headerChecked := true, error := Some(BeginFailed)), t + [Begin(target, false)], true)
                     else WriteStep(env, bytes, f.(headerChecked := true, inProgress := true), t + [Begin(target, true)]);
      && LoopInv(target, s.flags, s.trace)
      && !s.flags.waitNewVersion
      && (s.stop <==> s.flags.error.Some?)
      && (!s.stop ==> Written(s.trace) == Written(t) + bytes)
  {
    assert t + [Begin(target, env.beginOk)] == [Begin(target, env.beginOk)];
    OneCall(Begin(target, env.beginOk));
    if env.beginOk {
      WriteStepInv(env, target, bytes, f.(headerChecked := true, inProgress := true), t + [Begin(target, true)]);
    }
  }

  /** A data step that lets the loop go on appended exactly its bytes to what reached flash. */
  lemma DataStepWritten(cfg: Config, env: Env, target: PartitionId, bytes: seq<byte>, f: Flags, t: seq<Call>)
    requires f.error.None? && !f.waitNewVersion
    ensures var s := DataStep(cfg, env, target, bytes, f, t);
      !s.stop ==> s.flags.error.None? && !s.flags.waitNewVersion && Written(s.trace) == Written(t) + bytes
  {
    var s := DataStep(cfg, env, target, bytes, f, t);
    if !s.stop {
      if f.headerChecked {
        AppendCall(t, Write(bytes, true));
      } else {
        AppendCall(t, Begin(target, true));
        AppendCall(t + [Begin(target, true)], Write(bytes, true));
      }
    }
  }

  /** The read loop keeps LoopInv. */
  lemma {:induction false} ReadLoopInv(cfg: Config, env: Env, target: PartitionId, events: seq<ReadEvent>, f: Flags, t: seq<Call>)
    requires LoopInv(target, f, t) && f.error.None? && !f.waitNewVersion
    ensures var e := ReadLoop(cfg, env, target, events, f, t);
      && LoopInv(target, e.flags, e.trace)
      && (e.polling ==> e.flags.error.None? && !e.flags.waitNewVersion)
      && (e.flags.waitNewVersion ==> !cfg.skipVersionCheck && e.flags.error.None? && !e.flags.headerChecked)
    decreases |events|
  {
    if events != [] {
      match events[0]
      case Err =>
      case Zero(reset, complete) =>
        if !(reset || complete) {
          ReadLoopInv(cfg, env, target, events[1..], f, t);
        }
      case Data(bytes) =>
        DataStepInv(cfg, env, target, bytes, f, t);
        var s := DataStep(cfg, env, target, bytes, f, t);
        if s.stop {
          assert ReadLoop(cfg, env, target, events, f, t) == LoopEnd(s.flags, s.trace, false, false);
        } else {
          assert ReadLoop(cfg, env, target, events, f, t) == ReadLoop(cfg, env, target, events[1..], s.flags, s.trace);
          ReadLoopInv(cfg, env, target, events[1..], s.flags, s.trace);
        }
    }
  }

  /** A read loop that ends without a fault wrote exactly what the server delivered, and its
      completeness answer is whether the transfer completed. */
  lemma {:induction false} ReadLoopPayload(cfg: Config, env: Env, target: PartitionId, events: seq<ReadEvent>, f: Flags, t: seq<Call>)
    requires f.error.None? && !f.waitNewVersion
    ensures var e := ReadLoop(cfg, env, target, events, f, t);
      && (e.flags.error.None? && !e.flags.waitNewVersion ==> Written(e.trace) == Written(t) + Payload(events))
      && (!e.polling && e.flags.error.None? && !e.flags.waitNewVersion ==> e.complete == CompleteTransfer(events))
    decreases |events|
  {
    if events != [] {
      match events[0]
      case Err =>
      case Zero(reset, complete) =>
        if !(reset || complete) {
          ReadLoopPayload(cfg, env, target, events[1..], f, t);
        }
      case Data(bytes) =>
        DataStepWritten(cfg, env, target, bytes, f, t);
        var s := DataStep(cfg, env, target, bytes, f, t);
        if !s.stop {
          var e := ReadLoop(cfg, env, target, events[1..], s.flags, s.trace);
          assert ReadLoop(cfg, env, target, events, f, t) == e;
          assert Payload(events) == bytes + Payload(events[1..]);
          ReadLoopPayload(cfg, env, target, events[1..], s.flags, s.trace);
          if e.flags.error.None? && !e.flags.waitNewVersion {
            calc {
              Written(e.trace);
              Written(s.trace) + Payload(events[1..]);
              (Written(t) + bytes) + Payload(events[1..]);
              Written(t) + Payload(events);
            }
          }
        }
    }
  }

  /** The facts about the read loop of a connected attempt. */
  lemma LoopFacts(cfg: Config, env: Env, stream: seq<ReadEvent>)
    requires Connected(env)
    ensures var e := ReadLoop(cfg, env, env.updatePartition.value, stream, InitFlags, []);
      && LoopInv(env.updatePartition.value, e.flags, e.trace)
      && (e.polling ==> e.flags.error.None? && !e.flags.waitNewVersion)
      && (e.flags.waitNewVersion ==> !cfg.skipVersionCheck && e.flags.error.None? && !e.flags.inProgress && e.trace == [])
      && (e.flags.error.None? && !e.flags.waitNewVersion ==> Written(e.trace) == Payload(stream))
      && (!e.polling && e.flags.error.None? && !e.flags.waitNewVersion ==> e.complete == CompleteTransfer(stream))
  {
    ReadLoopInv(cfg, env, env.updatePartition.value, stream, InitFlags, []);
    ReadLoopPayload(cfg, env, env.updatePartition.value, stream, InitFlags, []);
  }

  /** The outcomes in which esp_ota_end is called. */
  predicate Commits(o: Outcome)
  {
    o == Restarted || o == Retry(ActivateFailed) || (o.Retry? && o.reason.CommitFailed?)
  }

  /** The outcomes in which esp_ota_set_boot_partition is called. */
  predicate Activates(o: Outcome)
  {
    o == Restarted || o == Retry(ActivateFailed)
  }

  /** The outcomes whose branch calls esp_ota_abort when a session is in progress. */
  predicate AbortsSession(o: Outcome)
  {
    o.Retry? && (o.reason.AttemptError? || o.reason == IncompleteTransfer)
  }

  /** How many times http_cleanup runs in an attempt that ends in `o`. */
  function HttpCleanups(o: Outcome): nat
  {
    match o
    case Retry(AttemptError(WriteFailed)) => 2
    case Retry(NoNewVersion) => 0
    case Retry(ClientInitFailed) => 0
    case Retry(OpenFailed) => 0
    case UpdatePartitionMissing => 0
    case StillReading => 0
    case _ => 1
  }

  /** How many calls of kind `k` the branch that ends in `o` makes; `open`: a session is in progress. */
  function TailCount(o: Outcome, open: bool, k: CallKind): nat
  {
    match k
    case ClientCleanupK => if o == Retry(OpenFailed) then 1 else 0
    case HttpCleanupK => if AbortsSession(o) || Commits(o) then 1 else 0
    case AbortK => if AbortsSession(o) && open then 1 else 0
    case EndK => if Commits(o) then 1 else 0
    case SetBootK => if Activates(o) then 1 else 0
    case RestartK => if o == Restarted then 1 else 0
    case DelayK => if o.Retry? then 1 else 0
    case _ => 0
  }

  /** Counting the calls of a four-call tail, one call at a time. */
  lemma FourCallsCount(c0: Call, c1: Call, c2: Call, c3: Call, k: CallKind)
    ensures Count([c0, c1, c2, c3], k)
      == (if Kind(c0) == k then 1 else 0) + (if Kind(c1) == k then 1 else 0)
       + (if Kind(c2) == k then 1 else 0) + (if Kind(c3) == k then 1 else 0)
  {
    var d := [c3] + [];
    var c := [c2] + d;
    var b := [c1] + c;
    assert [c0, c1, c2, c3] == [c0] + b;
    CountCons(c3, [], k);
    CountCons(c2, d, k);
    CountCons(c1, c, k);
    CountCons(c0, b, k);
  }

  /** The calls of the error and incomplete-transfer branches. */
  lemma CleanupTail(open: bool, ms: nat, o: Outcome)
    requires AbortsSession(o)
    ensures var tail := [HttpCleanup] + AbortIfInProgress(open) + [Delay(ms)];
      && ReplayFrom(if open then Opened else Closed, tail) == Some(Closed)
      && |tail| > 0 && tail[|tail| - 1] == Delay(ms)
      && Written(tail) == []
      && forall k :: Count(tail, k) == TailCount(o, open, k)
  {
    var d := [Delay(ms)] + [];
    var m := AbortIfInProgress(open) + d;
    var a := [HttpCleanup] + m;
    assert a == [HttpCleanup] + AbortIfInProgress(open) + [Delay(ms)];
    CleanupTailReplay(open, ms);
    forall k ensures Count(a, k) == TailCount(o, open, k) {
      CountCons(Delay(ms), [], k);
      if open {
        CountCons(Abort, d, k);
      }
      CountCons(HttpCleanup, m, k);
    }
  }

  /** The error branch's calls close any open session and write nothing. */
  lemma CleanupTailReplay(open: bool, ms: nat)
    ensures var tail := [HttpCleanup] + AbortIfInProgress(open) + [Delay(ms)];
      && ReplayFrom(if open then Opened else Closed, tail) == Some(Closed)
      && Written(tail) == []
  {
    var s0 := if open then Opened else Closed;
    var d := [Delay(ms)] + [];
    var m := AbortIfInProgress(open) + d;
    var a := [HttpCleanup] + m;
    assert a == [HttpCleanup] + AbortIfInProgress(open) + [Delay(ms)];
    ReplayCons(Delay(ms), [], Closed);
    ReplayCons(HttpCleanup, m, s0);
    if open {
      assert m == [Abort] + d;
      ReplayCons(Abort, d, Opened);
    }
  }

  /** The calls of the branch where esp_ota_end fails. */
  lemma EndFailedTail(open: bool, res: EndResult, ms: nat)
    ensures var tail := [End(open, res), HttpCleanup, Delay(ms)];
      && (res != EndOk ==> ReplayFrom(if open then Opened else Closed, tail) == Some(Closed))
      && tail[|tail| - 1] == Delay(ms)
      && Written(tail) == []
      && forall k :: Count(tail, k) == TailCount(Retry(CommitFailed(res)), open, k)
  {
    var d := [Delay(ms)] + [];
    var c := [HttpCleanup] + d;
    var a := [End(open, res)] + c;
    assert a == [End(open, res), HttpCleanup, Delay(ms)];
    EndFailedTailReplay(open, res, ms);
    forall k ensures Count(a, k) == TailCount(Retry(CommitFailed(res)), open, k) {
      CountCons(Delay(ms), [], k);
      CountCons(HttpCleanup, d, k);
      CountCons(End(open, res), c, k);
    }
  }

  /** The failed commit's calls close the session and write nothing. */
  lemma EndFailedTailReplay(open: bool, res: EndResult, ms: nat)
    ensures var tail := [End(open, res), HttpCleanup, Delay(ms)];
      && (res != EndOk ==> ReplayFrom(if open then Opened else Closed, tail) == Some(Closed))
      && Written(tail) == []
  {
    var s0 := if open then Opened else Closed;
    var d := [Delay(ms)] + [];
    var c := [HttpCleanup] + d;
    var a := [End(open, res)] + c;
    assert a == [End(open, res), HttpCleanup, Delay(ms)];
    ReplayCons(Delay(ms), [], Closed);
    ReplayCons(HttpCleanup, d, Closed);
    ReplayCons(End(open, res), c, s0);
  }

  /** The calls of the branch where esp_ota_set_boot_partition fails. */
  lemma SetBootFailedTail(open: bool, target: PartitionId, ms: nat)
    ensures var tail := [End(open, EndOk), SetBoot(target, false), HttpCleanup, Delay(ms)];
      && (open ==> ReplayFrom(Opened, tail) == Some(Closed))
      && tail[|tail| - 1] == Delay(ms)
      && Written(tail) == []
      && forall k :: Count(tail, k) == TailCount(Retry(ActivateFailed), open, k)
  {
    SetBootFailedTailReplay(open, target, ms);
    var a := [End(open, EndOk), SetBoot(target, false), HttpCleanup, Delay(ms)];
    forall k ensures Count(a, k) == TailCount(Retry(ActivateFailed), open, k) {
      FourCallsCount(End(open, EndOk), SetBoot(target, false), HttpCleanup, Delay(ms), k);
    }
  }

  /** The failed activation's calls follow the protocol and write nothing. */
  lemma SetBootFailedTailReplay(open: bool, target: PartitionId, ms: nat)
    ensures var tail := [End(open, EndOk), SetBoot(target, false), HttpCleanup, Delay(ms)];
      && (open ==> ReplayFrom(Opened, tail) == Some(Closed))
      && Written(tail) == []
  {
    var d := [Delay(ms)] + [];
    var c := [HttpCleanup] + d;
    var b := [SetBoot(target, false)] + c;
    var a := [End(open, EndOk)] + b;
    assert a == [End(open, EndOk), SetBoot(target, false), HttpCleanup, Delay(ms)];
    ReplayCons(Delay(ms), [], Closed);
    ReplayCons(HttpCleanup, d, Closed);
    ReplayCons(SetBoot(target, false), c, Committed);
    ReplayCons(End(open, EndOk), b, Opened);
  }

  /** The calls of a successful update: commit, activate, release the client, restart. */
  lemma RestartTail(open: bool, target: PartitionId)
    ensures var tail := [End(open, EndOk), SetBoot(target, true), HttpCleanup, Restart];
      && (open ==> ReplayFrom(Opened, tail) == Some(Rebooted))
      && tail[|tail| - 1] == Restart
      && Written(tail) == []
      && forall k :: Count(tail, k) == TailCount(Restarted, open, k)
  {
    RestartTailReplay(open, target);
    var a := [End(open, EndOk), SetBoot(target, true), HttpCleanup, Restart];
    forall k ensures Count(a, k) == TailCount(Restarted, open, k) {
      FourCallsCount(End(open, EndOk), SetBoot(target, true), HttpCleanup, Restart, k);
    }
  }

  /** The successful update's calls follow the protocol and write nothing. */
  lemma RestartTailReplay(open: bool, target: PartitionId)
    ensures var tail := [End(open, EndOk), SetBoot(target, true), HttpCleanup, Restart];
      && (open ==> ReplayFrom(Opened, tail) == Some(Rebooted))
      && Written(tail) == []
  {
    var d := [Restart] + [];
    var c := [HttpCleanup] + d;
    var b := [SetBoot(target, true)] + c;
    var a := [End(open, EndOk)] + b;
    assert a == [End(open, EndOk), SetBoot(target, true), HttpCleanup, Restart];
    ReplayCons(Restart, [], Activated);
    ReplayCons(HttpCleanup, d, Activated);
    ReplayCons(SetBoot(target, true), c, Committed);
    ReplayCons(End(open, EndOk), b, Opened);
  }

  /** The calls of the branches that only wait: esp_http_client_init failed, or no new version. */
  lemma WaitTail(ms: nat, o: Outcome, open: bool)
    requires o == Retry(ClientInitFailed) || o == Retry(NoNewVersion)
    ensures Written([Delay(ms)]) == [] && ReplayFrom(Closed, [Delay(ms)]) == Some(Closed)
    ensures forall k :: Count([Delay(ms)], k) == TailCount(o, open, k)
  {
    OneCall(Delay(ms));
  }

  /** The calls of the branch where the connection does not open: release the client, then wait. */
  lemma OpenFailedTail(ms: nat, open: bool)
    ensures Written([ClientCleanup, Delay(ms)]) == [] && ReplayFrom(Closed, [ClientCleanup, Delay(ms)]) == Some(Closed)
    ensures forall k :: Count([ClientCleanup, Delay(ms)], k) == TailCount(Retry(OpenFailed), open, k)
  {
    OneCall(Delay(ms));
    ConsCall(ClientCleanup, [Delay(ms)]);
    assert [ClientCleanup] + [Delay(ms)] == [ClientCleanup, Delay(ms)];
  }

  /** Each branch makes the calls TailCount counts, and none of them writes. */
  lemma OutcomeCallsCount(cfg: Config, target: PartitionId, o: Outcome, open: bool)
    ensures forall k :: Count(OutcomeCalls(cfg, target, o, open), k) == TailCount(o, open, k)
    ensures Written(OutcomeCalls(cfg, target, o, open)) == []
  {
    var ms := RetryDelayMs(cfg);
    match o
    case Retry(ClientInitFailed) => WaitTail(ms, o, open);
    case Retry(OpenFailed) => OpenFailedTail(ms, open);
    case Retry(AttemptError(_)) => CleanupTail(open, ms, o);
    case Retry(IncompleteTransfer) => CleanupTail(open, ms, o);
    case Retry(NoNewVersion) => WaitTail(ms, o, open);
    case Retry(CommitFailed(res)) => EndFailedTail(open, res, ms);
    case Retry(ActivateFailed) => SetBootFailedTail(open, target, ms);
    case Restarted => RestartTail(open, target);
    case UpdatePartitionMissing =>
    case StillReading =>
  }

  /**
   * The session state each branch leaves and its last call: a retry closes the
   * session and waits last, a restart comes last after the image was activated.
   */
  lemma OutcomeCallsReplay(cfg: Config, target: PartitionId, o: Outcome, open: bool)
    requires open ==> !(o.Retry? && (o.reason == NoNewVersion || o.reason == ClientInitFailed || o.reason == OpenFailed))
    requires o != Retry(CommitFailed(EndOk))
    requires Activates(o) ==> open
    ensures var tail := OutcomeCalls(cfg, target, o, open);
      var s := ReplayFrom(if open then Opened else Closed, tail);
      && (o.Retry? ==> s == Some(Closed) && |tail| > 0 && tail[|tail| - 1] == Delay(RetryDelayMs(cfg)))
      && (o == Restarted ==> s == Some(Rebooted) && |tail| > 0 && tail[|tail| - 1] == Restart)
      && (!o.Retry? && o != Restarted ==> tail == [])
  {
    var ms := RetryDelayMs(cfg);
    match o
    case Retry(ClientInitFailed) => WaitTail(ms, o, open);
    case Retry(OpenFailed) => OpenFailedTail(ms, open);
    case Retry(AttemptError(_)) => CleanupTail(open, ms, o);
    case Retry(IncompleteTransfer) => CleanupTail(open, ms, o);
    case Retry(NoNewVersion) => WaitTail(ms, o, open);
    case Retry(CommitFailed(res)) => EndFailedTail(open, res, ms);
    case Retry(ActivateFailed) => SetBootFailedTail(open, target, ms);
    case Restarted => RestartTail(open, target);
    case UpdatePartitionMissing =>
    case StillReading =>
  }

  /** The partition the calls after the read loop name; any one when there is no update partition. */
  function TargetOf(env: Env): PartitionId
  {
    if env.updatePartition.Some? then env.updatePartition.value else 0
  }

  /**
   * Every attempt is the read loop's calls `t`, which leave the flags `f`,
   * followed by the calls of its outcome's branch. An attempt that fails
   * before the read loop has no loop calls.
   */
  lemma AttemptParts(cfg: Config, env: Env, stream: seq<ReadEvent>) returns (t: seq<Call>, f: Flags)
    ensures var r := Attempt(cfg, env, stream);
      && r.trace == t + OutcomeCalls(cfg, TargetOf(env), r.outcome, f.inProgress)
      && r.length == f.length
      && LoopInv(TargetOf(env), f, t)
      && (r.outcome == StillReading ==> f.error.None?)
      && (r.outcome == Retry(AttemptError(WriteFailed)) <==> r.outcome != StillReading && f.error == Some(WriteFailed))
      && (f.inProgress ==> !(r.outcome.Retry? && (r.outcome.reason == NoNewVersion || r.outcome.reason == ClientInitFailed
                                                 || r.outcome.reason == OpenFailed)))
      && r.outcome != Retry(CommitFailed(EndOk))
      && (Activates(r.outcome) ==> f.inProgress)
      && (Commits(r.outcome) ==> Written(t) == Payload(stream) && CompleteTransfer(stream))
  {
    if Connected(env) {
      var e := ReadLoop(cfg, env, env.updatePartition.value, stream, InitFlags, []);
      LoopFacts(cfg, env, stream);
      t, f := e.trace, e.flags;
    } else {
      t, f := [], InitFlags;
      var r := Attempt(cfg, env, stream);
      assert [] + OutcomeCalls(cfg, TargetOf(env), r.outcome, false) == r.trace;
    }
  }

  /**
   * Every attempt follows the OTA call protocol. It schedules a retry only with
   * no write session open, and the delay is its last call. It restarts exactly
   * when the new image has been committed and activated.
   */
  lemma AttemptFollowsProtocol(cfg: Config, env: Env, stream: seq<ReadEvent>)
    ensures var r := Attempt(cfg, env, stream);
      && Replay(r.trace).Some?
      && (r.outcome.Retry? ==> Replay(r.trace) == Some(Closed) && |r.trace| > 0 && r.trace[|r.trace| - 1] == Delay(RetryDelayMs(cfg)))
      && (r.outcome == Restarted <==> Replay(r.trace) == Some(Rebooted))
      && (r.outcome == Restarted ==> r.trace[|r.trace| - 1] == Restart)
  {
    var t, f := AttemptParts(cfg, env, stream);
    var o := Attempt(cfg, env, stream).outcome;
    var tail := OutcomeCalls(cfg, TargetOf(env), o, f.inProgress);
    OutcomeCallsReplay(cfg, TargetOf(env), o, f.inProgress);
    AppendCalls(t, tail);
    if |tail| > 0 {
      assert (t + tail)[|t + tail| - 1] == tail[|tail| - 1];
    } else {
      assert t + tail == t;
    }
  }

  /**
   * At most one esp_ota_begin per attempt; esp_ota_end, esp_ota_set_boot_partition
   * and esp_restart each run once in exactly the outcomes that reach them; a
   * retry waits exactly once; esp_ota_abort runs on the error and
   * incomplete-transfer branches exactly when esp_ota_begin succeeded, and on
   * no other branch; http_cleanup runs twice after a failed write and not at
   * all when no new version is available. An image is made the boot
   * partition only after a successful esp_ota_begin.
   */
  lemma AttemptCallCounts(cfg: Config, env: Env, stream: seq<ReadEvent>)
    ensures var r := Attempt(cfg, env, stream);
      && Count(r.trace, BeginOkK) + Count(r.trace, BeginFailedK) <= 1
      && (Count(r.trace, WriteK) > 0 ==> Count(r.trace, BeginOkK) == 1)
      && Count(r.trace, RestartK) == (if r.outcome == Restarted then 1 else 0)
      && Count(r.trace, DelayK) == (if r.outcome.Retry? then 1 else 0)
      && Count(r.trace, EndK) == (if Commits(r.outcome) then 1 else 0)
      && Count(r.trace, SetBootK) == (if Activates(r.outcome) then 1 else 0)
      && Count(r.trace, AbortK) == (if AbortsSession(r.outcome) then Count(r.trace, BeginOkK) else 0)
      && Count(r.trace, HttpCleanupK) == HttpCleanups(r.outcome)
      && (Activates(r.outcome) ==> Count(r.trace, BeginOkK) == 1)
  {
    var t, f := AttemptParts(cfg, env, stream);
    var r := Attempt(cfg, env, stream);
    var tail := OutcomeCalls(cfg, TargetOf(env), r.outcome, f.inProgress);
    OutcomeCallsCount(cfg, TargetOf(env), r.outcome, f.inProgress);
    AppendCalls(t, tail);
    SessionCounts(t, r, f);
    BranchCounts(t, r, f.inProgress);
  }

  /** The session counts of AttemptCallCounts, from the read loop's calls `t` and flags `f`. */
  lemma SessionCounts(t: seq<Call>, r: AttemptResult, f: Flags)
    requires Count(t, BeginOkK) == (if f.inProgress then 1 else 0)
    requires Count(t, BeginFailedK) == (if f.headerChecked && !f.inProgress then 1 else 0)
    requires !f.inProgress ==> Count(t, WriteK) == 0
    requires Count(t, HttpCleanupK) == (if f.error == Some(WriteFailed) then 1 else 0)
    requires forall k :: !LoopKind(k) ==> Count(t, k) == 0
    requires r.outcome == Retry(AttemptError(WriteFailed)) <==> r.outcome != StillReading && f.error == Some(WriteFailed)
    requires r.outcome == StillReading ==> f.error.None?
    requires Activates(r.outcome) ==> f.inProgress
    requires forall k :: Count(r.trace, k) == Count(t, k) + TailCount(r.outcome, f.inProgress, k)
    ensures Count(r.trace, BeginOkK) + Count(r.trace, BeginFailedK) <= 1
    ensures Activates(r.outcome) ==> Count(r.trace, BeginOkK) == 1
    ensures Count(r.trace, WriteK) > 0 ==> Count(r.trace, BeginOkK) == 1
    ensures Count(r.trace, AbortK) == (if AbortsSession(r.outcome) then Count(r.trace, BeginOkK) else 0)
    ensures Count(r.trace, HttpCleanupK) == HttpCleanups(r.outcome)
  {
    assert Count(r.trace, BeginOkK) == Count(t, BeginOkK);
    assert Count(t, AbortK) == 0;
    assert Count(r.trace, AbortK) == TailCount(r.outcome, f.inProgress, AbortK);
    assert Count(r.trace, HttpCleanupK) == Count(t, HttpCleanupK) + TailCount(r.outcome, f.inProgress, HttpCleanupK);
  }

  /** The counts of the calls only the branches after the read loop make. */
  lemma BranchCounts(t: seq<Call>, r: AttemptResult, open: bool)
    requires forall k :: !LoopKind(k) ==> Count(t, k) == 0
    requires forall k :: Count(r.trace, k) == Count(t, k) + TailCount(r.outcome, open, k)
    ensures Count(r.trace, RestartK) == (if r.outcome == Restarted then 1 else 0)
    ensures Count(r.trace, DelayK) == (if r.outcome.Retry? then 1 else 0)
    ensures Count(r.trace, EndK) == (if Commits(r.outcome) then 1 else 0)
    ensures Count(r.trace, SetBootK) == (if Activates(r.outcome) then 1 else 0)
  {
    assert Count(t, RestartK) == 0 && Count(t, DelayK) == 0 && Count(t, EndK) == 0 && Count(t, SetBootK) == 0;
    assert Count(r.trace, RestartK) == TailCount(r.outcome, open, RestartK);
    assert Count(r.trace, DelayK) == TailCount(r.outcome, open, DelayK);
    assert Count(r.trace, EndK) == TailCount(r.outcome, open, EndK);
    assert Count(r.trace, SetBootK) == TailCount(r.outcome, open, SetBootK);
  }

  /**
   * binary_file_length is the number of bytes that successful writes put into
   * flash; when the image is committed those bytes are exactly what the server
   * delivered, and the transfer was complete.
   */
  lemma LengthIsBytesWritten(cfg: Config, env: Env, stream: seq<ReadEvent>)
    ensures var r := Attempt(cfg, env, stream);
      && r.length == |Written(r.trace)|
      && (Commits(r.outcome) ==> Written(r.trace) == Payload(stream) && CompleteTransfer(stream))
  {
    var t, f := AttemptParts(cfg, env, stream);
    var o := Attempt(cfg, env, stream).outcome;
    var tail := OutcomeCalls(cfg, TargetOf(env), o, f.inProgress);
    OutcomeCallsCount(cfg, TargetOf(env), o, f.inProgress);
    AppendCalls(t, tail);
    assert Written(t) + [] == Written(t);
  }

  /** Zero-byte reads with no reset errno and no completion are polled past without effect. */
  lemma {:induction false} PollingReadsSkipped(cfg: Config, env: Env, target: PartitionId,
                                              pre: seq<ReadEvent>, rest: seq<ReadEvent>, f: Flags, t: seq<Call>)
    requires Polls(pre)
    ensures ReadLoop(cfg, env, target, pre + rest, f, t) == ReadLoop(cfg, env, target, rest, f, t)
    decreases |pre|
  {
    if pre == [] {
      assert pre + rest == rest;
    } else {
      assert pre[0] == Zero(false, false);
      assert Polls(pre[1..]) by {
        forall k | 0 <= k < |pre[1..]| ensures pre[1..][k] == Zero(false, false) {
          assert pre[1..][k] == pre[k + 1];
        }
      }
      assert (pre + rest)[0] == Zero(false, false);
      assert (pre + rest)[1..] == pre[1..] + rest;
      assert ReadLoop(cfg, env, target, pre + rest, f, t) == ReadLoop(cfg, env, target, pre[1..] + rest, f, t);
      PollingReadsSkipped(cfg, env, target, pre[1..], rest, f, t);
    }
  }

  /** The same at the level of a whole attempt. */
  lemma PollingPrefixIgnored(cfg: Config, env: Env, pre: seq<ReadEvent>, rest: seq<ReadEvent>)
    requires Polls(pre)
    ensures Attempt(cfg, env, pre + rest) == Attempt(cfg, env, rest)
  {
    if Connected(env) {
      PollingReadsSkipped(cfg, env, env.updatePartition.value, pre, rest, InitFlags, []);
    }
  }

  /**
   * A first positive read of at most MIN_FIRST_CHUNK bytes ends the attempt in
   * the error branch before esp_ota_begin: nothing is written or aborted.
   */
  lemma ShortFirstChunkRejected(cfg: Config, env: Env, pre: seq<ReadEvent>, chunk: Chunk, rest: seq<ReadEvent>)
    requires Connected(env) && Polls(pre) && |chunk| <= MIN_FIRST_CHUNK
    ensures Attempt(cfg, env, pre + [Data(chunk)] + rest)
            == AttemptResult(Retry(AttemptError(ShortFirstChunk)), [HttpCleanup, Delay(RetryDelayMs(cfg))], 0)
  {
    assert pre + [Data(chunk)] + rest == pre + ([Data(chunk)] + rest);
    PollingPrefixIgnored(cfg, env, pre, [Data(chunk)] + rest);
  }

  /**
   * A first chunk carrying the last invalid version ends the attempt in the
   * error branch before esp_ota_begin, whatever the running version and
   * whether or not the version check is configured.
   */
  lemma KnownBadVersionRejected(cfg: Config, env: Env, pre: seq<ReadEvent>, chunk: Chunk, rest: seq<ReadEvent>)
    requires Connected(env) && Polls(pre) && |chunk| > MIN_FIRST_CHUNK
    requires env.lastInvalidVersion == Some(ExtractVersion(chunk))
    ensures Attempt(cfg, env, pre + [Data(chunk)] + rest)
            == AttemptResult(Retry(AttemptError(KnownBadVersion)), [HttpCleanup, Delay(RetryDelayMs(cfg))], 0)
  {
    VersionGuard.KnownBadOutranksUpToDate(ExtractVersion(chunk), env.runningVersion, !cfg.skipVersionCheck);
    assert pre + [Data(chunk)] + rest == pre + ([Data(chunk)] + rest);
    PollingPrefixIgnored(cfg, env, pre, [Data(chunk)] + rest);
    var target := env.updatePartition.value;
    var events := [Data(chunk)] + rest;
    assert events[0] == Data(chunk);
    assert DataStep(cfg, env, target, chunk, InitFlags, []) == Step(InitFlags.(error := Some(KnownBadVersion)), [], true);
    assert ReadLoop(cfg, env, target, events, InitFlags, []) == LoopEnd(InitFlags.(error := Some(KnownBadVersion)), [], false, false);
    assert [] + ([HttpCleanup] + [] + [Delay(RetryDelayMs(cfg))]) == [HttpCleanup, Delay(RetryDelayMs(cfg))];
  }

  /**
   * With the version check on, a first chunk carrying the running version (and
   * not the last invalid one) ends the attempt waiting for a new version:
   * no esp_ota_begin, no write, no abort, and no http_cleanup either.
   */
  lemma SameVersionWaits(cfg: Config, env: Env, pre: seq<ReadEvent>, chunk: Chunk, rest: seq<ReadEvent>)
    requires Connected(env) && Polls(pre) && |chunk| > MIN_FIRST_CHUNK && !cfg.skipVersionCheck
    requires ExtractVersion(chunk) == env.runningVersion && env.lastInvalidVersion != Some(ExtractVersion(chunk))
    ensures Attempt(cfg, env, pre + [Data(chunk)] + rest)
            == AttemptResult(Retry(NoNewVersion), [Delay(RetryDelayMs(cfg))], 0)
  {
    VersionGuard.DecideCharacterised(ExtractVersion(chunk), env.runningVersion, env.lastInvalidVersion, true);
    assert pre + [Data(chunk)] + rest == pre + ([Data(chunk)] + rest);
    PollingPrefixIgnored(cfg, env, pre, [Data(chunk)] + rest);
  }

  /** With CONFIG_SKIP_VERSION_CHECK, no attempt ends waiting for a new version. */
  lemma NoWaitWithoutVersionCheck(cfg: Config, env: Env, stream: seq<ReadEvent>)
    requires cfg.skipVersionCheck
    ensures Attempt(cfg, env, stream).outcome != Retry(NoNewVersion)
  {
    if Connected(env) {
      LoopFacts(cfg, env, stream);
    }
  }

  /**
   * A stretch of reads during which the loop keeps polling hands its flags and
   * calls on to the reads that follow it.
   */
  lemma {:induction false} ReadLoopResumes(cfg: Config, env: Env, target: PartitionId,
                                           pre: seq<ReadEvent>, rest: seq<ReadEvent>, f: Flags, t: seq<Call>)
    requires ReadLoop(cfg, env, target, pre, f, t).polling
    ensures var e := ReadLoop(cfg, env, target, pre, f, t);
      ReadLoop(cfg, env, target, pre + rest, f, t) == ReadLoop(cfg, env, target, rest, e.flags, e.trace)
    decreases |pre|
  {
    if pre == [] {
      assert pre + rest == rest;
    } else {
      assert (pre + rest)[0] == pre[0] && (pre + rest)[1..] == pre[1..] + rest;
      match pre[0]
      case Err =>
      case Zero(reset, complete) =>
        if !(reset || complete) {
          ReadLoopResumes(cfg, env, target, pre[1..], rest, f, t);
        }
      case Data(bytes) =>
        var s := DataStep(cfg, env, target, bytes, f, t);
        if !s.stop {
          ReadLoopResumes(cfg, env, target, pre[1..], rest, s.flags, s.trace);
        }
    }
  }

  /**
   * A zero-byte read with a reset `errno` or a completion signal ends the read
   * loop without `ota_error`, whatever was read before it, and no later read
   * is made. Without completion the attempt takes the incomplete-transfer
   * branch, which aborts the session when one was begun. With completion
   * esp_ota_end runs, on the session's handle, or on handle 0, and then
   * fails, when no session was begun.
   */
  lemma ZeroReadEndsLoop(cfg: Config, env: Env, pre: seq<ReadEvent>, reset: bool, complete: bool, rest: seq<ReadEvent>)
    requires Connected(env) && (reset || complete)
    requires ReadLoop(cfg, env, env.updatePartition.value, pre, InitFlags, []).polling
    ensures var e := ReadLoop(cfg, env, env.updatePartition.value, pre, InitFlags, []);
      var r := Attempt(cfg, env, pre + [Zero(reset, complete)] + rest);
      && r == Attempt(cfg, env, pre + [Zero(reset, complete)])
      && !(r.outcome.Retry? && r.outcome.reason.AttemptError?)
      && (!complete ==> r.outcome == Retry(IncompleteTransfer))
      && (complete ==> Commits(r.outcome) && |r.trace| > |e.trace|
                       && r.trace[|e.trace|] == End(e.flags.inProgress, EndAnswer(env, e.flags.inProgress)))
      && (complete && !e.flags.inProgress ==> r.outcome == Retry(CommitFailed(EndFailed)))
      && Count(r.trace, AbortK) == (if !complete && e.flags.inProgress then 1 else 0)
      && r.length == e.flags.length
  {
    var e := ReadLoop(cfg, env, env.updatePartition.value, pre, InitFlags, []);
    AttemptAfterLoopEnd(cfg, env, pre, Zero(reset, complete), rest);
    assert Count(e.trace, AbortK) == 0;
    ZeroReadFinish(cfg, env, env.updatePartition.value, e.flags, e.trace, complete);
  }

  /**
   * A negative read ends the attempt in the error branch whatever was read
   * before it, and no later read is made: http_cleanup runs once, and
   * esp_ota_abort once exactly when a session was begun.
   */
  lemma ReadErrorRetries(cfg: Config, env: Env, pre: seq<ReadEvent>, rest: seq<ReadEvent>)
    requires Connected(env)
    requires ReadLoop(cfg, env, env.updatePartition.value, pre, InitFlags, []).polling
    ensures var e := ReadLoop(cfg, env, env.updatePartition.value, pre, InitFlags, []);
      var r := Attempt(cfg, env, pre + [Err] + rest);
      && r == Attempt(cfg, env, pre + [Err])
      && r.outcome == Retry(AttemptError(ReadFailed))
      && Count(r.trace, AbortK) == (if e.flags.inProgress then 1 else 0)
      && Count(r.trace, HttpCleanupK) == 1
      && r.length == e.flags.length
  {
    var e := ReadLoop(cfg, env, env.updatePartition.value, pre, InitFlags, []);
    AttemptAfterLoopEnd(cfg, env, pre, Err, rest);
    assert Count(e.trace, AbortK) == 0 && Count(e.trace, HttpCleanupK) == 0;
    ReadErrorFinish(cfg, env, env.updatePartition.value, e.flags, e.trace);
  }

  /**
   * After a polling prefix, an attempt whose next read ends the loop without
   * data is the branch cascade after that read, and the reads after it are
   * never made.
   */
  lemma AttemptAfterLoopEnd(cfg: Config, env: Env, pre: seq<ReadEvent>, ev: ReadEvent, rest: seq<ReadEvent>)
    requires Connected(env) && (ev == Err || (ev.Zero? && (ev.reset || ev.complete)))
    requires ReadLoop(cfg, env, env.updatePartition.value, pre, InitFlags, []).polling
    ensures var target := env.updatePartition.value;
      var e := ReadLoop(cfg, env, target, pre, InitFlags, []);
      var fin := Finish(cfg, env, target,
                        if ev == Err then LoopEnd(e.flags.(error := Some(ReadFailed)), e.trace, false, false)
                        else LoopEnd(e.flags, e.trace, false, ev.complete));
      && LoopInv(target, e.flags, e.trace) && e.flags.error.None? && !e.flags.waitNewVersion
      && Attempt(cfg, env, pre + [ev] + rest) == fin
      && Attempt(cfg, env, pre + [ev]) == fin
  {
    var target := env.updatePartition.value;
    LoopEnds(cfg, env, target, pre, [ev] + rest);
    LoopEnds(cfg, env, target, pre, [ev]);
    assert pre + [ev] + rest == pre + ([ev] + rest);
    ConnectedAttempt(cfg, env, pre + ([ev] + rest));
    ConnectedAttempt(cfg, env, pre + [ev]);
  }

  /** A connected attempt is the branch cascade after its read loop. */
  lemma ConnectedAttempt(cfg: Config, env: Env, stream: seq<ReadEvent>)
    requires Connected(env)
    ensures Attempt(cfg, env, stream)
            == Finish(cfg, env, env.updatePartition.value, ReadLoop(cfg, env, env.updatePartition.value, stream, InitFlags, []))
  {
  }

  /** The branches after a loop left by a zero-byte read, from the loop's flags `f` and calls `t`. */
  lemma ZeroReadFinish(cfg: Config, env: Env, target: PartitionId, f: Flags, t: seq<Call>, complete: bool)
    requires f.error.None? && !f.waitNewVersion && Count(t, AbortK) == 0
    ensures var r := Finish(cfg, env, target, LoopEnd(f, t, false, complete));
      && !(r.outcome.Retry? && r.outcome.reason.AttemptError?)
      && (!complete ==> r.outcome == Retry(IncompleteTransfer))
      && (complete ==> Commits(r.outcome) && |r.trace| > |t| && r.trace[|t|] == End(f.inProgress, EndAnswer(env, f.inProgress)))
      && (complete && !f.inProgress ==> r.outcome == Retry(CommitFailed(EndFailed)))
      && Count(r.trace, AbortK) == (if !complete && f.inProgress then 1 else 0)
      && r.length == f.length
  {
    var o := FinishOutcome(env, LoopEnd(f, t, false, complete));
    var tail := OutcomeCalls(cfg, target, o, f.inProgress);
    OutcomeCallsCount(cfg, target, o, f.inProgress);
    AppendCalls(t, tail);
    if complete {
      assert (t + tail)[|t|] == tail[0];
    }
  }

  /** The error branch after a negative read, from the loop's flags `f` and calls `t`. */
  lemma ReadErrorFinish(cfg: Config, env: Env, target: PartitionId, f: Flags, t: seq<Call>)
    requires f.error.None? && Count(t, AbortK) == 0 && Count(t, HttpCleanupK) == 0
    ensures var r := Finish(cfg, env, target, LoopEnd(f.(error := Some(ReadFailed)), t, false, false));
      && r.outcome == Retry(AttemptError(ReadFailed))
      && Count(r.trace, AbortK) == (if f.inProgress then 1 else 0)
      && Count(r.trace, HttpCleanupK) == 1
      && r.length == f.length
  {
    var o := Retry(AttemptError(ReadFailed));
    var tail := OutcomeCalls(cfg, target, o, f.inProgress);
    OutcomeCallsCount(cfg, target, o, f.inProgress);
    AppendCalls(t, tail);
  }

  /** After a polling prefix, a negative read or a zero-byte read that ends the loop is the loop's last step. */
  lemma LoopEnds(cfg: Config, env: Env, target: PartitionId, pre: seq<ReadEvent>, more: seq<ReadEvent>)
    requires ReadLoop(cfg, env, target, pre, InitFlags, []).polling
    requires more != [] && (more[0] == Err || (more[0].Zero? && (more[0].reset || more[0].complete)))
    ensures var e := ReadLoop(cfg, env, target, pre, InitFlags, []);
      && LoopInv(target, e.flags, e.trace) && e.flags.error.None? && !e.flags.waitNewVersion
      && ReadLoop(cfg, env, target, pre + more, InitFlags, []) ==
         if more[0] == Err then LoopEnd(e.flags.(error := Some(ReadFailed)), e.trace, false, false)
         else LoopEnd(e.flags, e.trace, false, more[0].complete)
  {
    ReadLoopInv(cfg, env, target, pre, InitFlags, []);
    ReadLoopResumes(cfg, env, target, pre, more, InitFlags, []);
  }

  /** A logged-only mismatch: which partition is configured to boot, or runs, does not change the attempt. */
  lemma BootMismatchOnlyLogged(cfg: Config, env: Env, stream: seq<ReadEvent>, configured: PartitionId, running: PartitionId)
    ensures Attempt(cfg, env.(configuredBoot := configured, running := running), stream) == Attempt(cfg, env, stream)
  {
    if Connected(env) {
      ReadLoopIgnoresPartitionCheck(cfg, env, env.(configuredBoot := configured, running := running),
                                    env.updatePartition.value, stream, InitFlags, []);
    }
  }

  lemma {:induction false} ReadLoopIgnoresPartitionCheck(cfg: Config, env: Env, env': Env, target: PartitionId,
                                                        events: seq<ReadEvent>, f: Flags, t: seq<Call>)
    requires env' == env.(configuredBoot := env'.configuredBoot, running := env'.running)
    ensures ReadLoop(cfg, env', target, events, f, t) == ReadLoop(cfg, env, target, events, f, t)
    decreases |events|
  {
    if events != [] {
      match events[0]
      case Err =>
      case Zero(_, _) => ReadLoopIgnoresPartitionCheck(cfg, env, env', target, events[1..], f, t);
      case Data(bytes) =>
        var s := DataStep(cfg, env, target, bytes, f, t);
        assert DataStep(cfg, env', target, bytes, f, t) == s;
        ReadLoopIgnoresPartitionCheck(cfg, env, env', target, events[1..], s.flags, s.trace);
    }
  }

  /** The server delivering `chunks` as positive reads, one chunk per read. */
  function DataEvents(chunks: seq<Chunk>): seq<ReadEvent>
  {
    if chunks == [] then [] else [Data(chunks[0])] + DataEvents(chunks[1..])
  }

  /** The bytes of `chunks`, in order. */
  function Flatten(chunks: seq<Chunk>): seq<byte>
  {
    if chunks == [] then [] else chunks[0] + Flatten(chunks[1..])
  }

  /** After the first chunk, writes that all succeed carry the loop to the completing zero-byte read. */
  lemma {:induction false} WritesRun(cfg: Config, env: Env, target: PartitionId, chunks: seq<Chunk>, f: Flags, t: seq<Call>)
    requires f.headerChecked && f.inProgress && f.error.None? && !f.waitNewVersion && env.failingWrite.None?
    ensures var e := ReadLoop(cfg, env, target, DataEvents(chunks) + [Zero(false, true)], f, t);
      && !e.polling && e.complete && e.flags.error.None? && !e.flags.waitNewVersion && e.flags.inProgress
    decreases |chunks|
  {
    var events := DataEvents(chunks) + [Zero(false, true)];
    if chunks == [] {
      assert events == [Zero(false, true)];
    } else {
      assert events[0] == Data(chunks[0]);
      assert events[1..] == DataEvents(chunks[1..]) + [Zero(false, true)];
      var s := DataStep(cfg, env, target, chunks[0], f, t);
      assert !s.stop && s.flags.headerChecked && s.flags.inProgress && s.flags.error.None? && !s.flags.waitNewVersion;
      assert ReadLoop(cfg, env, target, events, f, t) == ReadLoop(cfg, env, target, events[1..], s.flags, s.trace);
      WritesRun(cfg, env, target, chunks[1..], s.flags, s.trace);
    }
  }

  /** What the server delivers in `chunks` followed by the completing read. */
  lemma {:induction false} PayloadRun(chunks: seq<Chunk>)
    ensures Payload(DataEvents(chunks) + [Zero(false, true)]) == Flatten(chunks)
    ensures CompleteTransfer(DataEvents(chunks) + [Zero(false, true)])
    decreases |chunks|
  {
    var events := DataEvents(chunks) + [Zero(false, true)];
    if chunks == [] {
      assert events == [Zero(false, true)];
    } else {
      assert events[0] == Data(chunks[0]);
      assert events[1..] == DataEvents(chunks[1..]) + [Zero(false, true)];
      PayloadRun(chunks[1..]);
    }
  }

  /**
   * The successful update: a first chunk long enough to hold the descriptor,
   * with a version that is neither the last invalid one nor (when the check is
   * on) the running one, then further chunks and the completing read, with
   * every OTA call succeeding. The attempt restarts into the new image after
   * one esp_ota_begin and no abort, and the image in flash is exactly the
   * bytes the server sent.
   */
  lemma SuccessfulUpdate(cfg: Config, env: Env, first: Chunk, chunks: seq<Chunk>)
    requires Connected(env) && env.beginOk && env.failingWrite.None? && env.endResult == EndOk && env.setBootOk
    requires |first| > MIN_FIRST_CHUNK
    requires env.lastInvalidVersion != Some(ExtractVersion(first))
    requires !cfg.skipVersionCheck ==> ExtractVersion(first) != env.runningVersion
    ensures var r := Attempt(cfg, env, [Data(first)] + (DataEvents(chunks) + [Zero(false, true)]));
      && r.outcome == Restarted
      && Written(r.trace) == first + Flatten(chunks)
      && r.length == |first| + |Flatten(chunks)|
      && Count(r.trace, BeginOkK) == 1 && Count(r.trace, AbortK) == 0 && Count(r.trace, RestartK) == 1
      && r.trace[|r.trace| - 1] == Restart
  {
    var target := env.updatePartition.value;
    var rest := DataEvents(chunks) + [Zero(false, true)];
    var stream := [Data(first)] + rest;
    VersionGuard.DecideCharacterised(ExtractVersion(first), env.runningVersion, env.lastInvalidVersion, !cfg.skipVersionCheck);
    var s := DataStep(cfg, env, target, first, InitFlags, []);
    assert !s.stop && s.flags.headerChecked && s.flags.inProgress && s.flags.error.None? && !s.flags.waitNewVersion;
    assert stream[0] == Data(first) && stream[1..] == rest;
    assert ReadLoop(cfg, env, target, stream, InitFlags, []) == ReadLoop(cfg, env, target, rest, s.flags, s.trace);
    WritesRun(cfg, env, target, chunks, s.flags, s.trace);
    var e := ReadLoop(cfg, env, target, stream, InitFlags, []);
    var r := Attempt(cfg, env, stream);
    assert r.outcome == Restarted;
    PayloadRun(chunks);
    assert Payload(stream) == first + Flatten(chunks);
    LengthIsBytesWritten(cfg, env, stream);
    AttemptCallCounts(cfg, env, stream);
    AttemptFollowsProtocol(cfg, env, stream);
    WrittenNeedsWrite(r.trace);
  }
}
