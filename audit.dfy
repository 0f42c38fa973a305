/**
 * The in-memory audit log of the verification API (`InMemoryAuditLog`): a
 * first-in first-out queue of events capped at 5000 entries, dropping the
 * oldest, read back newest first.
 */
module Audit {
  import opened Wrappers
  import opened IntMath

  /** An audit record; the timestamp is in ticks and the duration in milliseconds. */
  datatype AuditEvent = AuditEvent(
    id: string, timestamp: int, actor: string, action: string,
    details: Option<string>, durationMs: Option<real>)

  const MaxItems: int := 5000

  /** The entries kept once `evt` is enqueued behind `events`: the newest `MaxItems`. */
  function Retained(events: seq<AuditEvent>, evt: AuditEvent): (r: seq<AuditEvent>)
    ensures |r| == Min(|events| + 1, MaxItems)
    ensures r[|r| - 1] == evt
    ensures r == (events + [evt])[|events| + 1 - |r|..]
    ensures |events| < MaxItems ==> r == events + [evt]
  {
    var all := events + [evt];
    if |all| > MaxItems then all[|all| - MaxItems..] else all
  }

  /** The sequence backwards (`Enumerable.Reverse`). */
  function Reverse(s: seq<AuditEvent>): (r: seq<AuditEvent>)
    ensures |r| == |s|
    ensures forall i :: 0 <= i < |s| ==> r[i] == s[|s| - 1 - i]
  {
    if |s| == 0 then [] else [s[|s| - 1]] + Reverse(s[..|s| - 1])
  }

  /** `Take(n)`: the first `n` entries, none for a negative `n`. */
  function Take(s: seq<AuditEvent>, n: int): (r: seq<AuditEvent>)
    ensures |r| == Min(Max(n, 0), |s|)
    ensures r == s[..|r|]
  {
    s[..Min(Max(n, 0), |s|)]
  }

  class InMemoryAuditLog {
    /** The queue, oldest entry first. */
    var events: seq<AuditEvent>

    constructor ()
      ensures events == []
    {
      events := [];
    }

    /** The number of entries held; reading that many returns them all, newest first. */
    function Count(): (n: int)
      reads this
      ensures n >= 0
      ensures Read(n) == Reverse(events)
    {
      |events|
    }

    /**
     * `Write`: enqueue the event, then dequeue from the front while the
     * queue holds more than `MaxItems`.
     */
    method Write(evt: AuditEvent)
      modifies this
      ensures events == Retained(old(events), evt)
      ensures Count() <= MaxItems
      ensures Read(1) == [evt]
      ensures old(Count()) < MaxItems ==> events == old(events) + [evt]
    {
      events := events + [evt];
      ghost var all := events;
      ghost var dropped := 0;
      while |events| > MaxItems
        invariant 0 <= dropped <= |all| && events == all[dropped..]
        invariant dropped > 0 ==> |events| >= MaxItems
        decreases |events|
      {
        events := events[1..];
        dropped := dropped + 1;
      }
    }

    /** `Read(take)`: the newest `take` entries, newest first. */
    function Read(take: int): (r: seq<AuditEvent>)
      reads this
      ensures |r| == Min(Max(take, 0), |events|)
      ensures forall i :: 0 <= i < |r| ==> r[i] == events[|events| - 1 - i]
    {
      Take(Reverse(events), take)
    }
  }
}
