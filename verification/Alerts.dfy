/** The alert plugin's throttle: at most one notification per interval. */
module Alerts {
  import Arithmetic

  /** `level` "warn" alerts on 4xx and 5xx, anything else on 5xx only. */
  function Threshold(level: string): int {
    if level == "warn" then 400 else 500
  }

  datatype Config = Config(level: string, throttleMs: int)

  datatype Response = Response(status: int, now: int)

  /** Whether a response is sent an alert for, given the time of the last alert. */
  predicate Sends(c: Config, lastSentAt: int, r: Response) {
    r.status >= Threshold(c.level) && r.now - lastSentAt >= c.throttleMs
  }

  class Throttle {
    const config: Config
    var lastSentAt: int

    constructor (config: Config)
      ensures this.config == config && lastSentAt == 0
    {
      this.config := config;
      lastSentAt := 0;
    }

    method OnResponse(r: Response) returns (sent: bool)
      modifies this
      ensures sent == Sends(config, old(lastSentAt), r)
      ensures lastSentAt == if sent then r.now else old(lastSentAt)
    {
      if r.status < Threshold(config.level) {
        return false;
      }
      if r.now - lastSentAt < config.throttleMs {
        return false;
      }
      lastSentAt := r.now;
      return true;
    }

    /** A whole run of responses. */
    method OnResponses(run: seq<Response>) returns (sent: seq<int>)
      requires lastSentAt == 0
      modifies this
      ensures sent == Sent(config, run) && lastSentAt == LastSentAt(config, run)
    {
      sent := [];
      for i := 0 to |run|
        invariant sent == Sent(config, run[..i]) && lastSentAt == LastSentAt(config, run[..i])
      {
        var now := OnResponse(run[i]);
        assert run[..i + 1][..i] == run[..i];
        if now {
          sent := sent + [run[i].now];
        }
      }
      assert run[..|run|] == run;
    }
  }

  // ---------- Runs ----------

  /** The closure variable after a run from boot. */
  function LastSentAt(c: Config, run: seq<Response>): int {
    if run == [] then 0
    else
      var prior, r := run[..|run| - 1], run[|run| - 1];
      if Sends(c, LastSentAt(c, prior), r) then r.now else LastSentAt(c, prior)
  }

  /** The instants at which a run sent alerts. */
  function Sent(c: Config, run: seq<Response>): seq<int> {
    if run == [] then []
    else
      var prior, r := run[..|run| - 1], run[|run| - 1];
      Sent(c, prior) + if Sends(c, LastSentAt(c, prior), r) then [r.now] else []
  }

  ghost predicate Spaced(times: seq<int>, gap: int) {
    forall i :: 0 <= i < |times| - 1 ==> times[i + 1] - times[i] >= gap
  }

  /** Consecutive alerts are at least the interval apart, and the variable is the time of the last one. */
  lemma {:induction false} AlertsAreSpaced(c: Config, run: seq<Response>)
    ensures Spaced(Sent(c, run), c.throttleMs)
    ensures LastSentAt(c, run) == if Sent(c, run) == [] then 0 else Sent(c, run)[|Sent(c, run)| - 1]
  {
    if run != [] {
      AlertsAreSpaced(c, run[..|run| - 1]);
    }
  }

  /** How many of `times` fall in the closed window from `low` to `high`. */
  function CountIn(times: seq<int>, low: int, high: int): nat {
    if times == [] then 0
    else CountIn(times[1..], low, high) + if low <= times[0] <= high then 1 else 0
  }

  /** Times beyond the window do not count. */
  lemma {:induction false} BeyondWindow(times: seq<int>, gap: int, low: int, high: int)
    requires gap > 0 && Spaced(times, gap)
    requires low > high || (times != [] && times[0] > high)
    ensures CountIn(times, low, high) == 0
  {
    if times != [] {
      if |times| > 1 || low > high {
        BeyondWindow(times[1..], gap, low, high);
      }
    }
  }

  /** A window shorter than k + 1 gaps holds at most k + 1 of the times. */
  lemma {:induction false} SpacedWindow(times: seq<int>, gap: int, low: int, high: int, k: nat)
    requires gap > 0 && Spaced(times, gap) && high - low < k * gap + gap
    ensures CountIn(times, low, high) <= k + 1
    decreases |times|
  {
    if times != [] {
      var rest, next := times[1..], times[0] + gap;
      assert rest != [] ==> rest[0] >= next;
      if !(low <= times[0] <= high) {
        SpacedWindow(rest, gap, low, high, k);
      } else if k == 0 || next > high {
        SameWindow(rest, gap, low, next, high);
        BeyondWindow(rest, gap, next, high);
      } else {
        SameWindow(rest, gap, low, next, high);
        assert k * gap == (k - 1) * gap + gap;
        SpacedWindow(rest, gap, next, high, k - 1);
      }
    }
  }

  lemma {:induction false} SameWindow(times: seq<int>, gap: int, low: int, next: int, high: int)
    requires gap > 0 && Spaced(times, gap) && low <= next && (times != [] ==> times[0] >= next)
    ensures CountIn(times, low, high) == CountIn(times, next, high)
  {
    if times != [] {
      SameWindow(times[1..], gap, low, next, high);
    }
  }

  /** Any window of length W sees at most W / interval + 1 alerts. */
  lemma AlertsPerWindow(c: Config, run: seq<Response>, low: int, length: nat)
    requires c.throttleMs > 0
    ensures CountIn(Sent(c, run), low, low + length) <= length / c.throttleMs + 1
  {
    AlertsAreSpaced(c, run);
    var k := length / c.throttleMs;
    Arithmetic.Below(length, c.throttleMs);
    SpacedWindow(Sent(c, run), c.throttleMs, low, low + length, k);
  }

  ghost predicate ClockRuns(run: seq<Response>) {
    forall i, j :: 0 <= i < j < |run| ==> run[i].now <= run[j].now
  }

  /** The alert levels: "warn" for 4xx and 5xx, any other for 5xx. */
  predicate Qualifies(level: string, status: int) {
    status >= 500 || (level == "warn" && status >= 400)
  }

  /**
   A response is alerted on exactly when it qualifies and comes no less than the interval after every earlier alert,
   or, before any alert, after time zero. So one that qualifies is suppressed just when an alert is that recent.
   */
  lemma {:induction false} SuppressedExactly(c: Config, run: seq<Response>, r: Response)
    requires ClockRuns(run + [r])
    ensures Sends(c, LastSentAt(c, run), r) <==>
      Qualifies(c.level, r.status)
      && if Sent(c, run) == [] then r.now >= c.throttleMs
         else forall s :: s in Sent(c, run) ==> r.now - s >= c.throttleMs
    ensures forall s :: s in Sent(c, run) ==> s <= r.now
  {
    AlertsAreSpaced(c, run);
    SentByResponses(c, run);
    assert forall i :: 0 <= i < |run| ==> (run + [r])[i] == run[i] && run[i].now <= (run + [r])[|run|].now;
    var sent := Sent(c, run);
    if sent != [] {
      SentInOrder(c, run);
      assert sent[|sent| - 1] in sent;
      assert forall s :: s in sent ==> s <= sent[|sent| - 1];
    }
  }

  /** Every alert of a run stands for a response that qualifies, at its instant. */
  lemma AlertsQualify(c: Config, run: seq<Response>, s: int)
    requires s in Sent(c, run)
    ensures exists i :: 0 <= i < |run| && run[i].now == s && Qualifies(c.level, run[i].status)
  {
    SentByResponses(c, run);
    var i :| 0 <= i < |run| && run[i].now == s && run[i].status >= Threshold(c.level);
    assert Qualifies(c.level, run[i].status);
  }

  lemma {:induction false} SentByResponses(c: Config, run: seq<Response>)
    ensures forall s :: s in Sent(c, run) ==>
      exists i :: 0 <= i < |run| && run[i].now == s && run[i].status >= Threshold(c.level)
  {
    if run != [] {
      SentByResponses(c, run[..|run| - 1]);
    }
  }

  lemma {:induction false} SentInOrder(c: Config, run: seq<Response>)
    requires ClockRuns(run)
    ensures forall i, j :: 0 <= i < j < |Sent(c, run)| ==> Sent(c, run)[i] <= Sent(c, run)[j]
  {
    if run != [] {
      var prior := run[..|run| - 1];
      SentInOrder(c, prior);
      SentByResponses(c, prior);
      forall i | 0 <= i < |Sent(c, prior)|
        ensures Sent(c, prior)[i] <= run[|run| - 1].now
      {
        assert Sent(c, prior)[i] in Sent(c, prior);
        var k :| 0 <= k < |prior| && prior[k].now == Sent(c, prior)[i];
        assert run[k] == prior[k];
      }
    }
  }

  // ---------- No schedule does better ----------

  /** A choice of responses to alert on; its last alert, if it obeys the interval and the threshold throughout. */
  function LastChosen(c: Config, run: seq<Response>, picks: seq<bool>): int
    requires |picks| == |run|
  {
    if run == [] then 0
    else if picks[|run| - 1] then run[|run| - 1].now
    else LastChosen(c, run[..|run| - 1], picks[..|run| - 1])
  }

  ghost predicate Obeys(c: Config, run: seq<Response>, picks: seq<bool>)
    requires |picks| == |run|
  {
    run != [] ==>
      var n := |run| - 1;
      Obeys(c, run[..n], picks[..n]) && (picks[n] ==> Sends(c, LastChosen(c, run[..n], picks[..n]), run[n]))
  }

  function Chosen(picks: seq<bool>): nat {
    if picks == [] then 0 else Chosen(picks[..|picks| - 1]) + if picks[|picks| - 1] then 1 else 0
  }

  /** Sending as soon as allowed is optimal: no choice that obeys the interval sends more alerts. */
  lemma {:induction false} GreedyIsMaximal(c: Config, run: seq<Response>, picks: seq<bool>)
    requires c.throttleMs >= 0 && ClockRuns([Response(0, 0)] + run)
    requires |picks| == |run| && Obeys(c, run, picks)
    ensures Chosen(picks) <= |Sent(c, run)|
    ensures Chosen(picks) == |Sent(c, run)| ==> LastSentAt(c, run) <= LastChosen(c, run, picks)
    ensures run != [] ==> LastSentAt(c, run) <= run[|run| - 1].now && LastChosen(c, run, picks) <= run[|run| - 1].now
  {
    if run != [] {
      var n := |run| - 1;
      var booted := [Response(0, 0)] + run;
      assert booted[n + 1] == run[n] && booted[n] == if n == 0 then Response(0, 0) else run[n - 1];
      assert [Response(0, 0)] + run[..n] == booted[..n + 1];
      GreedyIsMaximal(c, run[..n], picks[..n]);
    }
  }
}
