/** The sliding-window rate limiter of `NoteApiClient.checkRateLimit` and
    `getRequestStats` (src/core/note-api/client.ts), on the log of request times in
    milliseconds. The clock reading `now` is a parameter. */
module RateLimit {

  import opened Wrappers
  import opened Text

  /** The window: one minute in milliseconds. */
  const Window: int := 60000

  /** `filter((timestamp) => timestamp > now - 60000)`: the requests of the last minute,
      in their original order. */
  function Prune(log: seq<int>, now: int): (kept: seq<int>)
    ensures IsSubsequence(kept, log)
    ensures forall k :: 0 <= k < |kept| ==> kept[k] > now - Window
    ensures forall k :: 0 <= k < |log| && log[k] > now - Window ==> log[k] in kept
    ensures forall x :: multiset(kept)[x] == if x > now - Window then multiset(log)[x] else 0
    decreases |log|
  {
    if log == [] then []
    else
      var rest := Prune(log[1..], now);
      assert log == [log[0]] + log[1..];
      if log[0] > now - Window then
        assert ([log[0]] + rest)[1..] == rest;
        [log[0]] + rest
      else
        SubsequenceExtendFront(rest, log[1..], [log[0]]);
        assert [log[0]] + log[1..] == log;
        rest
  }

  /** Pruning never lengthens the log. */
  lemma PruneShrinks(log: seq<int>, now: int)
    ensures |Prune(log, now)| <= |log|
  {
    SubsequenceLength(Prune(log, now), log);
  }

  /** A request exactly one minute old is dropped. */
  lemma ExpiredDropped(log: seq<int>, now: int)
    ensures now - Window !in Prune(log, now)
  {
  }

  /** A log whose times are all within the last minute is kept as it is. */
  lemma {:induction false} PruneRecent(log: seq<int>, now: int)
    requires forall k :: 0 <= k < |log| ==> log[k] > now - Window
    ensures Prune(log, now) == log
    decreases |log|
  {
    if log != [] {
      PruneRecent(log[1..], now);
      assert [log[0]] + log[1..] == log;
    }
  }

  /** `Math.ceil(ms / 1000)` for a whole number of milliseconds. */
  function CeilSeconds(ms: int): (s: int)
    ensures (s - 1) * 1000 < ms <= s * 1000
  {
    -((-ms) / 1000)
  }

  /** The wait the rejection message reports: `ceil((log[0] + 60000 - now) / 1000)`
      seconds. With an empty log `log[0]` is `undefined` and the wait is `NaN`, here
      `None`. */
  function WaitSeconds(kept: seq<int>, now: int): (w: Option<int>)
    ensures w.None? <==> kept == []
    ensures w.Some? ==> (w.value - 1) * 1000 < kept[0] + Window - now <= w.value * 1000
  {
    if kept == [] then None else Some(CeilSeconds(kept[0] + Window - now))
  }

  /** The result of one `checkRateLimit`: whether the request may go, the reported wait
      when it may not, and the log afterwards. */
  datatype Gate = Gate(admitted: bool, wait: Option<int>, log: seq<int>)

  /** `checkRateLimit` at time `now`: the log is pruned in every case; a full log rejects
      the request and is kept as pruned, otherwise `now` is appended. */
  function Admit(log: seq<int>, limit: int, now: int): (g: Gate)
    ensures g.admitted <==> |Prune(log, now)| < limit
    ensures g.admitted ==> g.log == Prune(log, now) + [now]
    ensures !g.admitted ==> g.log == Prune(log, now) && g.wait == WaitSeconds(Prune(log, now), now)
  {
    var kept := Prune(log, now);
    if |kept| >= limit then Gate(false, WaitSeconds(kept, now), kept)
    else Gate(true, None, kept + [now])
  }

  /** The bound the log keeps: never more entries than the limit, and none at all when
      the limit is not positive. */
  predicate WithinLimit(log: seq<int>, limit: int) {
    |log| <= if limit < 0 then 0 else limit
  }

  /** `checkRateLimit` keeps the log within the limit. */
  lemma AdmitKeepsLimit(log: seq<int>, limit: int, now: int)
    requires WithinLimit(log, limit)
    ensures WithinLimit(Admit(log, limit, now).log, limit)
  {
    PruneShrinks(log, now);
  }

  /** After `checkRateLimit`, admitted or not, every logged time is within the last
      minute. */
  lemma AdmitKeepsRecent(log: seq<int>, limit: int, now: int)
    ensures forall k :: 0 <= k < |Admit(log, limit, now).log| ==> Admit(log, limit, now).log[k] > now - Window
  {
  }

  /** A rejection reports a wait of at least one second, and of at most sixty when no
      logged time is later than `now`; the wait is `NaN` only when the limit is not
      positive. */
  lemma RejectionWait(log: seq<int>, limit: int, now: int)
    requires !Admit(log, limit, now).admitted
    ensures Admit(log, limit, now).wait.None? ==> limit <= 0
    ensures Admit(log, limit, now).wait.Some? ==> Admit(log, limit, now).wait.value >= 1
    ensures (forall k :: 0 <= k < |log| ==> log[k] <= now) && Admit(log, limit, now).wait.Some? ==>
              Admit(log, limit, now).wait.value <= 60
  {
    var kept := Prune(log, now);
    if kept != [] {
      assert kept[0] > now - Window;
      if forall k :: 0 <= k < |log| ==> log[k] <= now {
        assert kept[0] in log by {
          SubsequenceMembers(kept, log, kept[0]);
        }
      }
    }
  }
}
