/** The sliding-window request limiter used by the structure resolution
    and the generation loop: timestamps older than the window are dropped,
    and when the limit is reached the caller sleeps until the oldest one
    leaves the window. Time is an integer clock reading; `time.sleep` is not
    performed, the model only reports how long would be slept. */
module RateWindow {

  const WindowSeconds: int := 60
  const MaxRequestsPerMinute: nat := 10

  ghost predicate Ascending(ts: seq<int>) {
    forall i, j :: 0 <= i < j < |ts| ==> ts[i] <= ts[j]
  }

  /** The list comprehension `[ts for ts in ... if now - ts < 60]`. */
  function Purge(ts: seq<int>, now: int): seq<int> {
    if |ts| == 0 then []
    else (if now - ts[0] < WindowSeconds then [ts[0]] else []) + Purge(ts[1..], now)
  }

  /** The outcome of the admission step before a request: the window left,
      the time slept (0 for none) and how many clock readings were taken. */
  datatype Admission = Admission(window: seq<int>, slept: int, readings: nat)

  /** Purge at `now`; at the limit, compute the wait from the oldest
      timestamp, sleep it when positive, read the clock again (`later`) and
      purge once more. */
  function Admit(ts: seq<int>, now: int, later: int): Admission {
    var p := Purge(ts, now);
    if |p| >= MaxRequestsPerMinute then
      var wait := p[0] + WindowSeconds - now;
      Admission(Purge(p, later), Max0(wait), 2)
    else Admission(p, 0, 1)
  }

  // ---------------------------------------------------------------------
  // Purge

  /** A timestamp survives exactly when it is younger than the window. */
  lemma {:induction false} PurgeMembers(ts: seq<int>, now: int)
    ensures forall t :: t in Purge(ts, now) <==> t in ts && now - t < WindowSeconds
    decreases |ts|
  {
    if |ts| > 0 {
      PurgeMembers(ts[1..], now);
      assert ts == [ts[0]] + ts[1..];
    }
  }

  /** Purging works element by element, so it keeps the order. */
  lemma {:induction false} PurgeAppend(a: seq<int>, b: seq<int>, now: int)
    ensures Purge(a + b, now) == Purge(a, now) + Purge(b, now)
    decreases |a|
  {
    if |a| > 0 {
      PurgeAppend(a[1..], b, now);
      assert (a + b)[1..] == a[1..] + b;
    } else {
      assert a + b == b;
    }
  }

  lemma {:induction false} PurgeShrinks(ts: seq<int>, now: int)
    ensures |Purge(ts, now)| <= |ts|
    decreases |ts|
  {
    if |ts| > 0 {
      PurgeShrinks(ts[1..], now);
    }
  }

  /** On timestamps in ascending order the purge drops a prefix: the oldest
      entries go first. */
  lemma {:induction false} PurgeDropsOldest(ts: seq<int>, now: int)
    requires Ascending(ts)
    ensures exists k :: 0 <= k <= |ts| && Purge(ts, now) == ts[k..]
    decreases |ts|
  {
    if |ts| == 0 {
      assert Purge(ts, now) == ts[0..];
    } else if now - ts[0] < WindowSeconds {
      PurgeAllYoung(ts, now);
      assert Purge(ts, now) == ts[0..];
    } else {
      PurgeDropsOldest(ts[1..], now);
      var k :| 0 <= k <= |ts[1..]| && Purge(ts[1..], now) == ts[1..][k..];
      assert ts[1..][k..] == ts[k + 1..];
    }
  }

  /** When the oldest timestamp is still young, every later one is too. */
  lemma {:induction false} PurgeAllYoung(ts: seq<int>, now: int)
    requires Ascending(ts) && |ts| > 0 && now - ts[0] < WindowSeconds
    ensures Purge(ts, now) == ts
    decreases |ts|
  {
    if |ts| > 1 {
      PurgeAllYoung(ts[1..], now);
    }
  }

  /** Purging twice at the same instant changes nothing more. */
  lemma {:induction false} PurgeIdempotent(ts: seq<int>, now: int)
    ensures Purge(Purge(ts, now), now) == Purge(ts, now)
    decreases |ts|
  {
    if |ts| > 0 {
      PurgeIdempotent(ts[1..], now);
      var head := if now - ts[0] < WindowSeconds then [ts[0]] else [];
      PurgeAppend(head, Purge(ts[1..], now), now);
    }
  }

  // ---------------------------------------------------------------------
  // Admission

  /** Below the limit nothing is slept, the clock is read once, and the
      window kept is exactly the timestamps younger than the window. */
  lemma AdmitBelowLimit(ts: seq<int>, now: int, later: int)
    requires |Purge(ts, now)| < MaxRequestsPerMinute
    ensures Admit(ts, now, later) == Admission(Purge(ts, now), 0, 1)
    ensures forall t :: t in Admit(ts, now, later).window <==> t in ts && now - t < WindowSeconds
  {
    PurgeMembers(ts, now);
  }

  /** At the limit the sleep is the time until the oldest surviving
      timestamp leaves the window, or nothing when that is already past. */
  lemma AdmitAtLimit(ts: seq<int>, now: int, later: int)
    requires |Purge(ts, now)| >= MaxRequestsPerMinute
    ensures var p := Purge(ts, now); var a := Admit(ts, now, later);
      && a.slept == Max0(p[0] + WindowSeconds - now)
      && a.readings == 2
      && a.window == Purge(p, later)
    ensures var p := Purge(ts, now); var a := Admit(ts, now, later);
      && a.slept >= 0
      && now + a.slept - p[0] >= WindowSeconds
      && (a.slept > 0 ==> now + a.slept - p[0] == WindowSeconds)
  {
  }

  function Max0(x: int): int {
    if x > 0 then x else 0
  }

  /** Admission never adds a timestamp and keeps the order. */
  lemma AdmitShrinks(ts: seq<int>, now: int, later: int)
    ensures forall t :: t in Admit(ts, now, later).window ==> t in ts
    ensures |Admit(ts, now, later).window| <= |ts|
  {
    PurgeMembers(ts, now);
    PurgeMembers(Purge(ts, now), later);
    PurgeShrinks(ts, now);
    PurgeShrinks(Purge(ts, now), later);
  }

  /** A window holding fewer timestamps than the limit never waits: this is
      the case of the structure resolution, which starts from an empty
      window and records at most one request before its second call. */
  lemma AdmitSmallWindow(ts: seq<int>, now: int, later: int)
    requires |ts| < MaxRequestsPerMinute
    ensures Admit(ts, now, later).slept == 0 && Admit(ts, now, later).readings == 1
  {
    PurgeShrinks(ts, now);
  }

  /** If the clock has really advanced by the time slept, the oldest
      timestamp has left the window after the second purge, so a window that
      held at most the limit is now below it. */
  lemma AdmitFreesSlot(ts: seq<int>, now: int, later: int)
    requires Ascending(ts) && |ts| <= MaxRequestsPerMinute
    requires |Purge(ts, now)| >= MaxRequestsPerMinute
    requires later >= now + Admit(ts, now, later).slept
    ensures |Admit(ts, now, later).window| < MaxRequestsPerMinute
  {
    var p := Purge(ts, now);
    AdmitAtLimit(ts, now, later);
    assert later - p[0] >= WindowSeconds;
    PurgeShrinks(ts, now);
    assert |p| == |ts|;
    OldestLeaves(p, later);
  }

  /** Once the clock has passed the oldest timestamp plus the window, that
      timestamp is purged. */
  lemma OldestLeaves(p: seq<int>, later: int)
    requires |p| > 0 && later - p[0] >= WindowSeconds
    ensures |Purge(p, later)| < |p|
  {
    PurgeShrinks(p[1..], later);
  }
}
