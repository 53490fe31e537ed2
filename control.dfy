/**
 * The polling loop both agents end in: each iteration sends a heartbeat when at
 * least ten seconds have passed since the last one, then polls for a job when
 * the engine is ready. Wall-clock readings are inputs.
 */
module Control {
  import opened Wrappers
  import opened Protocol

  /** Seconds between heartbeats. */
  const HeartbeatInterval: real := 10.0

  /**
   * What one iteration of `while True` observes: the clock at the heartbeat check,
   * the tags reply of the heartbeat's readiness probe, the clock read again after
   * the heartbeat was sent, and the tags reply of the probe before polling.
   */
  datatype Tick = Tick(now: real, heartbeatTags: TagsReply, sentAt: real, pollTags: TagsReply)

  /** What one iteration did: the heartbeat report it sent, if any, and whether it polled. */
  datatype Round = Round(heartbeat: Option<Readiness>, polled: bool)

  /** `time.time() - last_heartbeat >= 10` */
  predicate Due(last: real, now: real) { now - last >= HeartbeatInterval }

  /** `last_heartbeat` after the iterations `ticks`, starting from `start`. */
  function LastHeartbeat(start: real, ticks: seq<Tick>): real {
    if ticks == [] then start
    else
      var last := LastHeartbeat(start, ticks[..|ticks| - 1]);
      var t := ticks[|ticks| - 1];
      if Due(last, t.now) then t.sentAt else last
  }

  /** Iteration `k` of `ticks` sends a heartbeat. */
  predicate Beats(start: real, ticks: seq<Tick>, k: nat)
    requires k < |ticks|
  {
    Due(LastHeartbeat(start, ticks[..k]), ticks[k].now)
  }

  /**
   * The rounds of `ticks`, iteration by iteration: a heartbeat carrying the
   * probe's report exactly when one is due, and a poll exactly when the probe
   * before it says the engine is ready.
   */
  ghost predicate Scheduled(probe: TagsReply -> Readiness, start: real, ticks: seq<Tick>, rounds: seq<Round>) {
    && |rounds| == |ticks|
    && (forall k :: 0 <= k < |ticks| ==>
          rounds[k].heartbeat == (if Beats(start, ticks, k) then Some(probe(ticks[k].heartbeatTags)) else None))
    && (forall k :: 0 <= k < |ticks| ==> rounds[k].polled == probe(ticks[k].pollTags).ready)
  }

  /** The first |ticks| iterations of the `while True` loop in `main`. */
  method PollingLoop(probe: TagsReply -> Readiness, start: real, ticks: seq<Tick>) returns (rounds: seq<Round>, last: real)
    ensures Scheduled(probe, start, ticks, rounds)
    ensures last == LastHeartbeat(start, ticks)
  {
    rounds := [];
    last := start;
    for i := 0 to |ticks|
      invariant last == LastHeartbeat(start, ticks[..i])
      invariant |rounds| == i
      invariant forall k :: 0 <= k < i ==>
        rounds[k].heartbeat == (if Beats(start, ticks, k) then Some(probe(ticks[k].heartbeatTags)) else None)
      invariant forall k :: 0 <= k < i ==> rounds[k].polled == probe(ticks[k].pollTags).ready
    {
      var t := ticks[i];
      var heartbeat := None;
      assert ticks[..i + 1][..i] == ticks[..i];
      if t.now - last >= HeartbeatInterval {
        heartbeat := Some(probe(t.heartbeatTags));
        last := t.sentAt;
      }
      var status := probe(t.pollTags);
      rounds := rounds + [Round(heartbeat, status.ready)];
    }
    assert ticks[..|ticks|] == ticks;
  }

  /**
   * A clock that never runs backwards: every reading is at least `start`, the
   * reading after a heartbeat is not before the check, and every reading of an
   * earlier iteration precedes every reading of a later one.
   */
  ghost predicate Monotone(start: real, ticks: seq<Tick>) {
    && (forall k :: 0 <= k < |ticks| ==> start <= ticks[k].now <= ticks[k].sentAt)
    && (forall j, k :: 0 <= j < k < |ticks| ==> ticks[j].sentAt <= ticks[k].now)
  }

  /** Before the first heartbeat, `last_heartbeat` keeps its starting value. */
  lemma {:induction false} NoHeartbeatKeepsStart(start: real, ticks: seq<Tick>, k: nat)
    requires k <= |ticks|
    requires forall m :: 0 <= m < k ==> !Beats(start, ticks, m)
    ensures LastHeartbeat(start, ticks[..k]) == start
  {
    if k > 0 {
      assert ticks[..k][..k - 1] == ticks[..k - 1];
      assert !Beats(start, ticks, k - 1);
      NoHeartbeatKeepsStart(start, ticks, k - 1);
    }
  }

  /**
   * `last_heartbeat` changes only at a heartbeat: after the heartbeat of
   * iteration `i` it holds the clock reading taken right after that heartbeat
   * until the next one.
   */
  lemma {:induction false} LastHeartbeatIsLatest(start: real, ticks: seq<Tick>, i: nat, k: nat)
    requires i < k <= |ticks|
    requires Beats(start, ticks, i)
    requires forall m :: i < m < k ==> !Beats(start, ticks, m)
    ensures LastHeartbeat(start, ticks[..k]) == ticks[i].sentAt
  {
    assert ticks[..k][..k - 1] == ticks[..k - 1];
    if k - 1 > i {
      assert !Beats(start, ticks, k - 1);
      LastHeartbeatIsLatest(start, ticks, i, k - 1);
    }
  }

  /** With a monotone clock, `last_heartbeat` never decreases once a heartbeat is sent. */
  lemma {:induction false} LastHeartbeatAtLeast(start: real, ticks: seq<Tick>, i: nat, k: nat)
    requires Monotone(start, ticks)
    requires i < k <= |ticks| && Beats(start, ticks, i)
    ensures LastHeartbeat(start, ticks[..k]) >= ticks[i].sentAt
  {
    assert ticks[..k][..k - 1] == ticks[..k - 1];
    if k - 1 > i {
      LastHeartbeatAtLeast(start, ticks, i, k - 1);
    }
  }

  /**
   * With a monotone clock, two heartbeats are at least ten seconds apart: the
   * later check comes at least ten seconds after the earlier heartbeat was sent.
   */
  lemma HeartbeatsSpaced(start: real, ticks: seq<Tick>, i: nat, j: nat)
    requires Monotone(start, ticks)
    requires i < j < |ticks| && Beats(start, ticks, i) && Beats(start, ticks, j)
    ensures ticks[j].now - ticks[i].sentAt >= HeartbeatInterval
    ensures ticks[j].now - ticks[i].now >= HeartbeatInterval
  {
    LastHeartbeatAtLeast(start, ticks, i, j);
  }
}
