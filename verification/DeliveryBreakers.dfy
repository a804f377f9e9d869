/** The breakers over whole runs of the daemon: their histories, pacing, failover and failback. */
module DeliveryBreakers {
  import opened FileNames
  import opened CircuitBreakers
  import opened Delivery
  import H = BreakerHistory

  function AnswerEvent(answer: Answer, now: int): H.Event {
    match answer
    case Ok => H.Success
    case TransientError => H.Transient(now)
    case PersistentError => H.Persistent(now)
  }

  /** What one entry means to the breaker of `i`: nothing or one event. */
  function EventOf(e: Entry, i: Interface): seq<H.Event> {
    match e
    case Looked(j, now) => if j == i then [H.Tick(now)] else []
    case Attempted(j, _, _, answer, now) => if j == i then [AnswerEvent(answer, now)] else []
    case _ => []
  }

  /** What the breaker of one interface saw. */
  function Events(log: seq<Entry>, i: Interface): seq<H.Event> {
    if log == [] then [] else Events(log[..|log| - 1], i) + EventOf(log[|log| - 1], i)
  }

  /** The breakers are what their histories make them, and every attempt was allowed by its breaker. */
  ghost predicate Tracked(w: World, cfg: Config, log: seq<Entry>) {
    forall i :: TrackedOn(w, cfg, log, i)
  }

  ghost predicate TrackedOn(w: World, cfg: Config, log: seq<Entry>, i: Interface) {
    w.BreakerOf(i) == H.Run(Events(log, i), cfg.settings) && H.Guarded(Events(log, i), cfg.settings)
  }

  lemma EventsAppend(log: seq<Entry>, e: Entry, i: Interface)
    ensures Events(log + [e], i) == Events(log, i) + EventOf(e, i)
    ensures EventOf(e, i) == [] ==> Events(log + [e], i) == Events(log, i)
  {
    assert (log + [e])[..|log|] == log;
  }

  lemma RunAppend(h: seq<H.Event>, e: H.Event, s: Settings)
    ensures H.Run(h + [e], s) == H.After(H.Run(h, s), e, s)
    ensures H.Guarded(h + [e], s) <==> H.Guarded(h, s) && (e.Tick? || H.Run(h, s).state != Open)
  {
    assert (h + [e])[..|h|] == h;
  }

  /** One look at the clock. */
  lemma TickTracked(w: World, cfg: Config, log: seq<Entry>, i: Interface, now: int)
    requires Tracked(w, cfg, log)
    ensures Tracked(w.Tick(i, now), cfg, log + [Looked(i, now)])
  {
    forall j ensures TrackedOn(w.Tick(i, now), cfg, log + [Looked(i, now)], j) {
      assert TrackedOn(w, cfg, log, j);
      EventsAppend(log, Looked(i, now), j);
      RunAppend(Events(log, i), H.Tick(now), cfg.settings);
    }
  }

  /** One attempt, by an interface whose breaker is not open. */
  lemma AttemptTracked(w: World, w': World, cfg: Config, log: seq<Entry>, attempt: Entry)
    requires Tracked(w, cfg, log) && attempt.Attempted? && w.BreakerOf(attempt.iface).state != Open
    requires w'.BreakerOf(Other(attempt.iface)) == w.BreakerOf(Other(attempt.iface))
    requires var b := w.BreakerOf(attempt.iface);
      w'.BreakerOf(attempt.iface) == H.After(b, AnswerEvent(attempt.answer, attempt.now), cfg.settings)
    ensures Tracked(w', cfg, log + [attempt])
  {
    var i := attempt.iface;
    forall j ensures TrackedOn(w', cfg, log + [attempt], j) {
      assert TrackedOn(w, cfg, log, j);
      assert j == i || j == Other(i);
      EventsAppend(log, attempt, j);
      RunAppend(Events(log, i), AnswerEvent(attempt.answer, attempt.now), cfg.settings);
    }
  }

  lemma {:induction false} FilesUntracked(w: World, cfg: Config, log: seq<Entry>, more: seq<Entry>)
    requires Tracked(w, cfg, log) && forall k :: 0 <= k < |more| ==> !more[k].Looked? && !more[k].Attempted?
    ensures Tracked(w, cfg, log + more)
  {
    if more == [] {
      assert log + more == log;
    } else {
      var init, e := more[..|more| - 1], more[|more| - 1];
      FilesUntracked(w, cfg, log, init);
      assert log + more == (log + init) + [e];
      forall j ensures TrackedOn(w, cfg, log + more, j) {
        assert TrackedOn(w, cfg, log + init, j);
        EventsAppend(log + init, e, j);
      }
    }
  }

  lemma SameBreakersTracked(w: World, w': World, cfg: Config, log: seq<Entry>)
    requires Tracked(w, cfg, log) && w.api == w'.api && w.mqtt == w'.mqtt
    ensures Tracked(w', cfg, log)
  {
    forall j ensures TrackedOn(w', cfg, log, j) {
      assert TrackedOn(w, cfg, log, j);
    }
  }

  lemma {:induction false} SendBatchTracked(
    w: World, cfg: Config, i: Interface, batch: seq<Name>, env: Env, log: seq<Entry>)
    requires Tracked(w, cfg, log) && w.BreakerOf(i).state != Open
    ensures var o := Prefixed(log, SendBatch(w, cfg, i, batch, env)); Tracked(o.world, cfg, o.log)
    decreases batch
  {
    hide SendBatch, Tracked;
    if batch == [] {
      BatchEnd(w, cfg, i, env, log);
    } else {
      var n := batch[0];
      BatchTurn(w, cfg, i, batch, env, log);
      if !(n in w.pending && env.readable(n)) {
        SendBatchTracked(w, cfg, i, batch[1..], env, log);
      } else if cfg.Enabled(i) {
        var attempt := Attempted(i, n, w.pending[n], env.answers(n), env.failAt);
        if env.answers(n) == Ok {
          var w' := Filed(w, cfg, n, env).With(i, Succeeded(w.BreakerOf(i)));
          DeliveredTracked(w, cfg, i, n, env, log);
          SendBatchTracked(w', cfg, i, batch[1..], env, log + ([attempt] + FiledLog(w, cfg, n, env)));
        } else {
          AttemptTracked(w, SendBatch(w, cfg, i, batch, env).world, cfg, log, attempt);
        }
      }
    }
  }

  lemma DeliveredTracked(w: World, cfg: Config, i: Interface, n: Name, env: Env, log: seq<Entry>)
    requires Tracked(w, cfg, log) && w.BreakerOf(i).state != Open && n in w.pending && env.answers(n) == Ok
    ensures var attempt := Attempted(i, n, w.pending[n], Ok, env.failAt);
      Tracked(Filed(w, cfg, n, env).With(i, Succeeded(w.BreakerOf(i))), cfg,
              log + ([attempt] + FiledLog(w, cfg, n, env)))
  {
    hide Tracked;
    var attempt := Attempted(i, n, w.pending[n], Ok, env.failAt);
    var w' := Filed(w, cfg, n, env).With(i, Succeeded(w.BreakerOf(i)));
    AttemptTracked(w, w', cfg, log, attempt);
    FilesUntracked(w', cfg, log + [attempt], FiledLog(w, cfg, n, env));
    assert log + [attempt] + FiledLog(w, cfg, n, env) == log + ([attempt] + FiledLog(w, cfg, n, env));
  }

  lemma TrySendTracked(w: World, cfg: Config, env: Env, log: seq<Entry>)
    requires Tracked(w, cfg, log)
    ensures var o := Prefixed(log, TrySend(w, cfg, env)); Tracked(o.world, cfg, o.log)
  {
    hide SendBatch, Tracked, Batch;
    var w1 := w.Tick(cfg.primary, env.recoverAt);
    var i := Select(cfg, w1);
    var first, second := Looked(cfg.primary, env.recoverAt), Looked(i, env.allowAt);
    TickTracked(w, cfg, log, cfg.primary, env.recoverAt);
    if !(i == Mqtt && !cfg.mqttEnabled) {
      var w2 := w1.Tick(i, env.allowAt);
      TickTracked(w1, cfg, log + [first], i, env.allowAt);
      assert log + [first] + [second] == log + [first, second];
      if w2.BreakerOf(i).state != Open {
        SendBatchTracked(w2, cfg, i, Batch(cfg, w2.BreakerOf(i), env), env, log + [first, second]);
        PrefixedTwice(log, [first, second], SendBatch(w2, cfg, i, Batch(cfg, w2.BreakerOf(i), env), env));
      }
    }
  }

  /** Whatever a process finds when it starts: in every state it reaches, each breaker is what its history
    * in this process makes it, and sending happened only while its breaker allowed it. */
  lemma {:induction false} RunTracked(w: World, cfg: Config, envs: seq<Env>)
    ensures var o := Run(Booted(w), cfg, envs); Tracked(o.world, cfg, o.log)
    decreases |envs|
  {
    if envs == [] {
      forall i ensures TrackedOn(Booted(w), cfg, [], i) {
      }
    } else {
      var earlier, env := envs[..|envs| - 1], envs[|envs| - 1];
      RunTracked(w, cfg, earlier);
      var before := Run(Booted(w), cfg, earlier);
      CycleTracked(before.world, cfg, env, before.log);
    }
  }

  /** The same in the fields of the state. */
  lemma RunTrackedInFields(w: World, cfg: Config, envs: seq<Env>)
    ensures var o := Run(Booted(w), cfg, envs);
      && o.world.api == H.Run(Events(o.log, Api), cfg.settings)
      && o.world.mqtt == H.Run(Events(o.log, Mqtt), cfg.settings)
  {
    hide Run, Events;
    RunTracked(w, cfg, envs);
    var o := Run(Booted(w), cfg, envs);
    assert TrackedOn(o.world, cfg, o.log, Api) && TrackedOn(o.world, cfg, o.log, Mqtt);
  }

  lemma CycleTracked(w: World, cfg: Config, env: Env, log: seq<Entry>)
    requires Tracked(w, cfg, log)
    ensures var o := Prefixed(log, Cycle(w, cfg, env)); Tracked(o.world, cfg, o.log)
  {
    hide TrySend, Tracked;
    var stored := Stored(w, env);
    FilesUntracked(w, cfg, log, stored.log);
    SameBreakersTracked(w, stored.world, cfg, log + stored.log);
    TrySendTracked(stored.world, cfg, env, log + stored.log);
    PrefixedTwice(log, stored.log, TrySend(stored.world, cfg, env));
  }

  // ---- The clock over a run ----

  /** The clock never goes back, within a cycle or from one to the next. */
  ghost predicate SteadyClock(envs: seq<Env>) {
    && (forall k :: 0 <= k < |envs| ==> envs[k].recoverAt <= envs[k].allowAt <= envs[k].failAt)
    && (forall j, k :: 0 <= j < k < |envs| ==> envs[j].failAt <= envs[k].recoverAt)
  }

  /** The times in a log, in order, and none after `now`. */
  ghost predicate InOrder(log: seq<Entry>, now: int) {
    && (forall e :: e in log && Timed(e) ==> e.now <= now)
    && (forall j, k :: 0 <= j < k < |log| && Timed(log[j]) && Timed(log[k]) ==> log[j].now <= log[k].now)
  }

  lemma {:induction false} EventsInOrder(log: seq<Entry>, now: int, i: Interface)
    requires InOrder(log, now)
    ensures H.NonDecreasing(Events(log, i))
    ensures forall k :: 0 <= k < |Events(log, i)| && !Events(log, i)[k].Success? ==> Events(log, i)[k].now <= now
  {
    if log != [] {
      var init, e := log[..|log| - 1], log[|log| - 1];
      var last := if e.Looked? || e.Attempted? then e.now else now;
      assert InOrder(init, last) by {
        forall x | x in init && Timed(x) ensures x.now <= last {
          var k :| 0 <= k < |init| && init[k] == x;
          assert log[k] == x && log[|init|] == e;
        }
      }
      EventsInOrder(init, last, i);
    }
  }

  predicate Timed(e: Entry) {
    e.Looked? || e.Attempted?
  }

  lemma {:induction false} SendBatchTimes(w: World, cfg: Config, i: Interface, batch: seq<Name>, env: Env)
    ensures forall e :: e in SendBatch(w, cfg, i, batch, env).log && Timed(e) ==> e.now == env.failAt
    decreases batch
  {
    if batch != [] {
      var n := batch[0];
      if !(n in w.pending && env.readable(n)) {
        SendBatchTimes(w, cfg, i, batch[1..], env);
      } else if cfg.Enabled(i) && env.answers(n) == Ok {
        SendBatchTimes(Filed(w, cfg, n, env).With(i, Succeeded(w.BreakerOf(i))), cfg, i, batch[1..], env);
      }
    }
  }

  lemma AllAt(log: seq<Entry>, now: int)
    requires forall e :: e in log && Timed(e) ==> e.now == now
    ensures InOrder(log, now)
  {
  }

  lemma InOrderConcat(a: seq<Entry>, b: seq<Entry>, middle: int, now: int)
    requires InOrder(a, middle) && InOrder(b, now) && middle <= now
    requires forall e :: e in b && Timed(e) ==> middle <= e.now
    ensures InOrder(a + b, now)
  {
    var c := a + b;
    forall j, k | 0 <= j < k < |c| && Timed(c[j]) && Timed(c[k]) ensures c[j].now <= c[k].now {
      if j < |a| <= k {
        assert c[k] in b;
      }
    }
  }

  /** A cycle looks at the clock once or twice and dates its attempts after that. */
  lemma CycleTimes(w: World, cfg: Config, env: Env)
    requires env.recoverAt <= env.allowAt <= env.failAt
    ensures InOrder(Cycle(w, cfg, env).log, env.failAt)
    ensures forall e :: e in Cycle(w, cfg, env).log && Timed(e) ==> env.recoverAt <= e.now
  {
    hide SendBatch, Batch, InOrder;
    var stored := Stored(w, env);
    var w1 := stored.world.Tick(cfg.primary, env.recoverAt);
    var i := Select(cfg, w1);
    var w2 := w1.Tick(i, env.allowAt);
    var sent := SendBatch(w2, cfg, i, Batch(cfg, w2.BreakerOf(i), env), env).log;
    SendBatchTimes(w2, cfg, i, Batch(cfg, w2.BreakerOf(i), env), env);
    var first, second := [Looked(cfg.primary, env.recoverAt)], [Looked(i, env.allowAt)];
    AllAt(stored.log, env.recoverAt);
    AllAt(first, env.recoverAt);
    AllAt(second, env.allowAt);
    AllAt(sent, env.failAt);
    LaterBound(first, env.recoverAt, env.failAt);
    InOrderConcat(first, second, env.recoverAt, env.allowAt);
    assert first + second == [Looked(cfg.primary, env.recoverAt), Looked(i, env.allowAt)];
    LaterBound(first + second, env.allowAt, env.failAt);
    InOrderConcat(first + second, sent, env.allowAt, env.failAt);
    InOrderConcat(stored.log, first, env.recoverAt, env.failAt);
    InOrderConcat(stored.log, first + second, env.recoverAt, env.failAt);
    InOrderConcat(stored.log, first + second + sent, env.recoverAt, env.failAt);
  }

  lemma LaterBound(log: seq<Entry>, now: int, later: int)
    requires InOrder(log, now) && now <= later
    ensures InOrder(log, later)
  {
  }

  lemma {:induction false} RunInOrder(w: World, cfg: Config, envs: seq<Env>)
    requires SteadyClock(envs)
    ensures envs != [] ==> InOrder(Run(w, cfg, envs).log, envs[|envs| - 1].failAt)
    decreases |envs|
  {
    hide InOrder, Cycle;
    if envs != [] {
      var earlier, env := envs[..|envs| - 1], envs[|envs| - 1];
      assert SteadyClock(earlier) by {
        assert forall k :: 0 <= k < |earlier| ==> earlier[k] == envs[k];
      }
      RunInOrder(w, cfg, earlier);
      var before := Run(w, cfg, earlier);
      CycleTimes(before.world, cfg, env);
      var last := Cycle(before.world, cfg, env).log;
      if earlier == [] {
        assert [] + last == last;
      } else {
        assert earlier[|earlier| - 1] == envs[|earlier| - 1];
        InOrderConcat(before.log, last, earlier[|earlier| - 1].failAt, env.failAt);
      }
    }
  }

  /** A whole process, whatever it finds when it starts: the fields of each breaker have their closed form,
    * and from the failure that trips an interface, n openings in a row take at least the n - 1 timeouts
    * between them. */
  lemma RunIsPaced(w: World, cfg: Config, envs: seq<Env>, i: Interface)
    requires cfg.Valid() && SteadyClock(envs)
    ensures var o := Run(Booted(w), cfg, envs);
      var h := Events(o.log, i);
      var f := H.Failures(h);
      var n := H.Openings(f, cfg.settings);
      && H.ClosedForm(h, cfg.settings, o.world.BreakerOf(i))
      && H.Paced(f, cfg.settings)
      && (n > 0 ==> n <= |f| && f[|f| - 1].at - f[|f| - n].at >= H.TotalWait(n, cfg.settings))
  {
    hide H.ClosedForm, H.Paced, H.Openings, H.TotalWait, H.Failures, H.Trips, H.Guarded, H.Run, Events, Run, InOrder;
    var o := Run(Booted(w), cfg, envs);
    var h := Events(o.log, i);
    RunTracked(w, cfg, envs);
    assert TrackedOn(o.world, cfg, o.log, i);
    RunInOrder(Booted(w), cfg, envs);
    if envs == [] {
      NoEvents(w, cfg, i);
    } else {
      EventsInOrder(o.log, envs[|envs| - 1].failAt, i);
    }
    H.BreakerClosedForm(h, cfg.settings);
    H.FailuresArePaced(h, cfg.settings);
    if H.Openings(H.Failures(h), cfg.settings) > 0 {
      H.RunsArePaced(h, cfg.settings);
    }
  }

  lemma NoEvents(w: World, cfg: Config, i: Interface)
    ensures H.NonDecreasing(Events(Run(Booted(w), cfg, []).log, i))
  {
  }
}
