/** What a breaker's fields say about everything that happened to it. */
module BreakerHistory {
  import opened CircuitBreakers
  import opened Bits
  import opened Arithmetic

  /** `Tick` is a look at the clock, by cb_allow_send or by cb_maybe_recover; the rest are outcomes. */
  datatype Event = Tick(now: int) | Success | Transient(now: int) | Persistent(now: int)

  function After(b: Breaker, e: Event, s: Settings): Breaker {
    match e
    case Tick(now) => Ticked(b, now)
    case Success => Succeeded(b)
    case Transient(now) => TransientFailed(b, s, now)
    case Persistent(now) => PersistentFailed(b, s, now)
  }

  function Run(h: seq<Event>, s: Settings): Breaker {
    if h == [] then Initial else After(Run(h[..|h| - 1], s), h[|h| - 1], s)
  }

  /** The daemon reports an outcome only when sending was allowed: never while the breaker is open. */
  ghost predicate Guarded(h: seq<Event>, s: Settings) {
    h == [] || (Guarded(h[..|h| - 1], s) && (h[|h| - 1].Tick? || Run(h[..|h| - 1], s).state != Open))
  }

  // ---- The closed form ----

  /** A failure: whether it was transient, and when. */
  datatype Failure = Failure(transient: bool, at: int)

  /** The failures since the last success. */
  function Failures(h: seq<Event>): seq<Failure> {
    if h == [] then []
    else
      var before := Failures(h[..|h| - 1]);
      match h[|h| - 1]
      case Tick(_) => before
      case Success => []
      case Transient(now) => before + [Failure(true, now)]
      case Persistent(now) => before + [Failure(false, now)]
  }

  /** Enough to open: one persistent failure, or as many transient ones as the threshold. */
  predicate Trips(f: seq<Failure>, s: Settings) {
    |f| >= s.failThreshold || exists i :: 0 <= i < |f| && !f[i].transient
  }

  /** The transient failures since the last persistent one. */
  function TransientRun(f: seq<Failure>): nat {
    if f == [] || !f[|f| - 1].transient then 0 else 1 + TransientRun(f[..|f| - 1])
  }

  /** How many of the failures opened the breaker: the first that trips it and all after that. */
  function Openings(f: seq<Failure>, s: Settings): nat {
    if f == [] then 0 else Openings(f[..|f| - 1], s) + (if Trips(f, s) then 1 else 0)
  }

  /** The timeout of the k-th opening. The cap applies to doublings only, not to the first timeout. */
  function Timeout(k: nat, s: Settings): nat {
    if k == 0 then 0 else if k == 1 then s.openTimeout else Min(s.openTimeout * Pow2(k - 1), s.backoffMax)
  }

  /** The clock was read at or after `t` since the last failure. */
  predicate TickedSinceFailure(h: seq<Event>, t: int) {
    h != [] && h[|h| - 1].Tick? && (h[|h| - 1].now >= t || TickedSinceFailure(h[..|h| - 1], t))
  }

  /** When the timeout of the last opening ends, whatever has happened since; 0 before any opening. */
  function RetryTime(h: seq<Event>, s: Settings): int {
    if h == [] then 0
    else
      var last, f := h[|h| - 1], Failures(h);
      if (last.Transient? || last.Persistent?) && Trips(f, s) then last.now + Timeout(Openings(f, s), s)
      else RetryTime(h[..|h| - 1], s)
  }

  ghost predicate ClosedForm(h: seq<Event>, s: Settings, b: Breaker) {
    var f := Failures(h);
    && b.nextRetry == RetryTime(h, s)
    && b.failCount == TransientRun(f)
    && b.currentTimeout == Timeout(Openings(f, s), s)
    && (b.state == Closed <==> !Trips(f, s))
    && (Trips(f, s) ==>
          && f != []
          && b.nextRetry == f[|f| - 1].at + b.currentTimeout
          && (b.state == HalfOpen <==> TickedSinceFailure(h, b.nextRetry)))
  }

  lemma OpeningsTrip(f: seq<Failure>, s: Settings)
    requires s.Valid()
    ensures Openings(f, s) > 0 <==> Trips(f, s)
    ensures Trips(f, s) ==> f != []
  {
    if f != [] {
      OpeningsTrip(f[..|f| - 1], s);
    }
  }

  /** Doubling with a cap computes the capped power, and never leaves 32 bits. */
  lemma DoublingStep(k: nat, s: Settings)
    requires s.Valid() && k >= 1
    ensures var t := Timeout(k, s);
      && 10 <= t <= 86400 && t * 2 % UINT32_RANGE == t * 2
      && Timeout(k + 1, s) == Min(t * 2, s.backoffMax)
  {
    var p := Pow2(k - 1);
    assert Pow2(k) == 2 * p;
    DoubleProduct(s.openTimeout, p);
  }

  lemma FailureOpens(f: seq<Failure>, x: Failure, s: Settings)
    requires s.Valid()
    ensures var g := f + [x];
      && g[..|g| - 1] == f
      && (Trips(g, s) <==> Trips(f, s) || !x.transient || |f| + 1 >= s.failThreshold)
      && Openings(g, s) == Openings(f, s) + (if Trips(g, s) then 1 else 0)
      && TransientRun(g) == if x.transient then 1 + TransientRun(f) else 0
  {
    var g := f + [x];
    assert g[..|g| - 1] == f;
    if Trips(g, s) && !(|g| >= s.failThreshold) && x.transient {
      var i :| 0 <= i < |g| && !g[i].transient;
      assert f[i] == g[i];
    }
    if Trips(f, s) && !(|f| >= s.failThreshold) {
      var i :| 0 <= i < |f| && !f[i].transient;
      assert g[i] == f[i];
    }
    assert g[|f|] == x;
  }

  /** Untripped failures are all transient and so all counted. */
  lemma {:induction false} UntrippedCount(f: seq<Failure>, s: Settings)
    requires !Trips(f, s)
    ensures TransientRun(f) == |f|
  {
    if f != [] {
      var g := f[..|f| - 1];
      assert !Trips(g, s) by {
        if i :| 0 <= i < |g| && !g[i].transient {
          assert !f[i].transient;
        }
      }
      UntrippedCount(g, s);
    }
  }

  lemma {:induction false} BreakerClosedForm(h: seq<Event>, s: Settings)
    requires s.Valid() && Guarded(h, s)
    ensures ClosedForm(h, s, Run(h, s))
  {
    if h != [] {
      var g, e := h[..|h| - 1], h[|h| - 1];
      BreakerClosedForm(g, s);
      var f, b := Failures(g), Run(g, s);
      OpeningsTrip(f, s);
      if e.Transient? || e.Persistent? {
        ClosedFormFailure(g, e, s);
      }
    }
  }

  lemma ClosedFormFailure(g: seq<Event>, e: Event, s: Settings)
    requires s.Valid() && (e.Transient? || e.Persistent?)
    requires ClosedForm(g, s, Run(g, s)) && Run(g, s).state != Open
    ensures ClosedForm(g + [e], s, After(Run(g, s), e, s))
  {
    var f, b := Failures(g), Run(g, s);
    var x := Failure(e.Transient?, e.now);
    assert (g + [e])[..|g|] == g;
    assert Failures(g + [e]) == f + [x];
    OpeningsTrip(f, s);
    FailureOpens(f, x, s);
    if Trips(f, s) {
      DoublingStep(Openings(f, s), s);
    } else {
      UntrippedCount(f, s);
    }
  }

  /** Every timeout of every run respects the documented limit exactly when the first timeout does. */
  lemma BackoffLimitHolds(s: Settings)
    requires s.Valid()
    ensures (forall h :: Guarded(h, s) ==> Run(h, s).currentTimeout <= s.backoffMax) <==> s.openTimeout <= s.backoffMax
  {
    hide Run, Guarded;
    if s.openTimeout <= s.backoffMax {
      forall h | Guarded(h, s)
        ensures Run(h, s).currentTimeout <= s.backoffMax
      {
        BreakerClosedForm(h, s);
      }
    } else {
      FirstOpening(s);
    }
  }

  lemma FirstOpening(s: Settings)
    requires s.Valid()
    ensures Guarded([Persistent(0)], s) && Run([Persistent(0)], s).currentTimeout == s.openTimeout
  {
    assert [Persistent(0)][..0] == [];
    assert Run([], s) == Initial;
  }

  /** A configuration within the accepted ranges under which the first timeout is 360 times the limit. */
  lemma FirstTimeoutIsNotCapped()
    ensures var s := Settings(1, 3600, 10);
      s.Valid() && Run([Transient(0)], s).currentTimeout == 3600 > s.backoffMax
  {
    assert [Transient(0)][..0] == [];
    assert Run([], Settings(1, 3600, 10)) == Initial;
  }

  // ---- Pacing ----

  ghost predicate NonDecreasing(h: seq<Event>) {
    forall i, j :: 0 <= i < j < |h| && !h[i].Success? && !h[j].Success? ==> h[i].now <= h[j].now
  }

  /** Each failure after an opening comes no sooner than the timeout of that opening. */
  ghost predicate Paced(f: seq<Failure>, s: Settings) {
    f == [] ||
    var g := f[..|f| - 1];
    && Paced(g, s)
    && (Trips(g, s) && g != [] ==> f[|f| - 1].at >= g[|g| - 1].at + Timeout(Openings(g, s), s))
  }

  lemma {:induction false} RetryWasReached(h: seq<Event>, t: int, now: int)
    requires TickedSinceFailure(h, t)
    requires forall i :: 0 <= i < |h| && !h[i].Success? ==> h[i].now <= now
    ensures t <= now
  {
    var last := h[|h| - 1];
    if last.now < t {
      RetryWasReached(h[..|h| - 1], t, now);
    }
  }

  /** With a clock that never goes back, the failures of every run are paced. */
  lemma {:induction false} FailuresArePaced(h: seq<Event>, s: Settings)
    requires s.Valid() && Guarded(h, s) && NonDecreasing(h)
    ensures Paced(Failures(h), s)
  {
    if h != [] {
      var g, e := h[..|h| - 1], h[|h| - 1];
      assert NonDecreasing(g);
      FailuresArePaced(g, s);
      if e.Transient? || e.Persistent? {
        var f := Failures(g);
        assert Failures(h)[..|f|] == f;
        BreakerClosedForm(g, s);
        if Trips(f, s) {
          assert forall i :: 0 <= i < |g| && !g[i].Success? ==> h[i].now <= e.now;
          RetryWasReached(g, Run(g, s).nextRetry, e.now);
        }
      }
    }
  }

  /** The timeouts of all openings but the last. */
  function TotalWait(k: nat, s: Settings): nat {
    if k <= 1 then 0 else TotalWait(k - 1, s) + Timeout(k - 1, s)
  }

  /** From the failure that trips the breaker, n openings in a row take at least the n - 1 timeouts
    * between them. */
  lemma {:induction false} OpeningsTakeTime(f: seq<Failure>, s: Settings)
    requires s.Valid() && Paced(f, s) && Openings(f, s) > 0
    ensures Openings(f, s) <= |f|
    ensures f[|f| - 1].at - f[|f| - Openings(f, s)].at >= TotalWait(Openings(f, s), s)
  {
    var g := f[..|f| - 1];
    OpeningsTrip(f, s);
    OpeningsTrip(g, s);
    if Openings(g, s) > 0 {
      OpeningsTakeTime(g, s);
    }
  }

  /** Over whole runs: an interface that fails n times from the trip on keeps the daemon off for at
    * least the sum of the n - 1 timeouts in between. */
  lemma RunsArePaced(h: seq<Event>, s: Settings)
    requires s.Valid() && Guarded(h, s) && NonDecreasing(h) && Openings(Failures(h), s) > 0
    ensures var f := Failures(h);
      var n := Openings(f, s);
      && 0 < n <= |f| && !Trips(f[..|f| - n], s) && Trips(f[..|f| - n + 1], s)
      && f[|f| - 1].at - f[|f| - n].at >= TotalWait(n, s)
  {
    FailuresArePaced(h, s);
    OpeningsTakeTime(Failures(h), s);
    TripIsFirst(Failures(h), s);
  }

  /** Openings count from the first failure that trips. */
  lemma {:induction false} TripIsFirst(f: seq<Failure>, s: Settings)
    requires s.Valid() && Openings(f, s) > 0
    ensures var n := Openings(f, s);
      n <= |f| && !Trips(f[..|f| - n], s) && Trips(f[..|f| - n + 1], s)
  {
    var g := f[..|f| - 1];
    OpeningsTrip(f, s);
    OpeningsTrip(g, s);
    if Openings(g, s) > 0 {
      TripIsFirst(g, s);
      var n := Openings(g, s);
      assert g[..|g| - n] == f[..|g| - n];
      assert g[..|g| - n + 1] == f[..|g| - n + 1];
    } else {
      assert f[..|f|] == f;
    }
  }
}
