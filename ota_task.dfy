/**
 * The task body of download_new_firmware: the `while (1)` loop that repeats
 * the update attempt until one of them restarts the device. An attempt that
 * ends in a retry has already waited retry_delay_ms, and the next pass starts
 * afresh; an attempt that restarts, or whose `assert` on the update
 * partition fires, ends the task, and so does running out of modelled reads
 * (the device is still reading when the model stops looking).
 */
module OtaTask {
  import opened OtaTypes
  import opened OtaCalls
  import opened OtaAttempt
  import AttemptProperties

  /** What ESP-IDF and the server answer during one pass of the task's loop. */
  datatype Round = Round(env: Env, stream: seq<ReadEvent>)

  /** The attempts the task makes over `rounds`: every one that retries, and then the one that does not. */
  function Run(cfg: Config, rounds: seq<Round>): seq<AttemptResult>
  {
    if rounds == [] then []
    else
      var r := Attempt(cfg, rounds[0].env, rounds[0].stream);
      if r.outcome.Retry? then [r] + Run(cfg, rounds[1..]) else [r]
  }

  /** The calls of all the attempts, one after the other. */
  function AllCalls(results: seq<AttemptResult>): seq<Call>
  {
    if results == [] then [] else results[0].trace + AllCalls(results[1..])
  }

  /** The task's loop, over as many passes as `rounds` describes. */
  method DownloadNewFirmware(cfg: Config, rounds: seq<Round>) returns (results: seq<AttemptResult>)
    ensures results == Run(cfg, rounds)
  {
    results := [];
    var i := 0;
    while i < |rounds|
      invariant 0 <= i <= |rounds|
      invariant Run(cfg, rounds) == results + Run(cfg, rounds[i..])
    {
      ghost var rest := rounds[i..];
      assert rest[0] == rounds[i] && rest[1..] == rounds[i + 1..];
      var r := DownloadAttempt(cfg, rounds[i].env, rounds[i].stream);
      assert Run(cfg, rest) == if r.outcome.Retry? then [r] + Run(cfg, rounds[i + 1..]) else [r];
      results := results + [r];
      if !r.outcome.Retry? {
        return;
      }
      i := i + 1;
    }
    assert rounds[i..] == [];
    assert results + [] == results;
  }

  /**
   * The passes the task makes: one per round until the first attempt that does
   * not retry, which is the last; every earlier attempt retried, and the task
   * stops before the rounds run out only after an attempt that did not retry.
   */
  lemma {:induction false} RunStopsAtFirstNonRetry(cfg: Config, rounds: seq<Round>)
    ensures var rs := Run(cfg, rounds);
      && |rs| <= |rounds|
      && (forall k :: 0 <= k < |rs| ==> rs[k] == Attempt(cfg, rounds[k].env, rounds[k].stream))
      && (forall k :: 0 <= k < |rs| - 1 ==> rs[k].outcome.Retry?)
      && (rounds != [] ==> rs != [])
      && (|rs| < |rounds| ==> !rs[|rs| - 1].outcome.Retry?)
    decreases |rounds|
  {
    if rounds != [] {
      var r := Attempt(cfg, rounds[0].env, rounds[0].stream);
      if r.outcome.Retry? {
        RunStopsAtFirstNonRetry(cfg, rounds[1..]);
        var rest := Run(cfg, rounds[1..]);
        assert Run(cfg, rounds) == [r] + rest;
        forall k | 0 < k < |rest| + 1
          ensures ([r] + rest)[k] == rest[k - 1] && rounds[k] == rounds[1..][k - 1]
        {
        }
      }
    }
  }

  /** What one pass leaves for the next: no open session after a retry, and a restart only when it restarted. */
  lemma PassFacts(cfg: Config, round: Round)
    ensures var r := Attempt(cfg, round.env, round.stream);
      && Replay(r.trace).Some?
      && (r.outcome.Retry? ==> Replay(r.trace) == Some(Closed))
      && Count(r.trace, RestartK) == (if r.outcome == Restarted then 1 else 0)
  {
    AttemptProperties.AttemptFollowsProtocol(cfg, round.env, round.stream);
    AttemptProperties.AttemptCallCounts(cfg, round.env, round.stream);
  }

  /**
   * Across all passes the calls keep the OTA protocol: every retry leaves no
   * write session open for the next pass, and the device restarts at most
   * once, in the last pass, exactly when that pass restarted it.
   */
  lemma {:induction false} RunFollowsProtocol(cfg: Config, rounds: seq<Round>)
    ensures var rs := Run(cfg, rounds);
      && Replay(AllCalls(rs)).Some?
      && Count(AllCalls(rs), RestartK) == (if rs != [] && rs[|rs| - 1].outcome == Restarted then 1 else 0)
    decreases |rounds|
  {
    if rounds != [] {
      var r := Attempt(cfg, rounds[0].env, rounds[0].stream);
      PassFacts(cfg, rounds[0]);
      if r.outcome.Retry? {
        RunFollowsProtocol(cfg, rounds[1..]);
        var rest := Run(cfg, rounds[1..]);
        assert Run(cfg, rounds) == [r] + rest;
        assert ([r] + rest)[0] == r && ([r] + rest)[1..] == rest;
        assert AllCalls([r] + rest) == r.trace + AllCalls(rest);
        AppendCalls(r.trace, AllCalls(rest));
        if rest != [] {
          assert ([r] + rest)[|[r] + rest| - 1] == rest[|rest| - 1];
        }
      } else {
        assert Run(cfg, rounds) == [r];
        assert AllCalls([r]) == r.trace + AllCalls([]);
        assert r.trace + [] == r.trace;
      }
    }
  }
}
