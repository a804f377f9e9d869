/** How often a record is delivered: at least once, and again only when it could not be moved away. */
module DeliveryRepeats {
  import opened Options
  import opened Bytes
  import opened FileNames
  import opened Persist
  import opened CircuitBreakers
  import opened Delivery
  import opened DeliveryRuns

  /** The records that were waiting at some time. */
  function Ever(start: World, log: seq<Entry>): set<Name> {
    start.pending.Keys + CreatedFiles(log).Keys
  }

  /** A record waits until it is moved, and nothing is attempted with it after that. */
  ghost predicate WaitsUntilMoved(start: World, w: World, log: seq<Entry>) {
    && (forall n :: n in w.pending <==> n in Ever(start, log) && Moved(n) !in log)
    && (forall n :: Moved(n) in log ==> n in Ever(start, log))
    && (forall j, k :: 0 <= j < k < |log| && log[j].Moved? && log[k].Attempted? ==> log[j].name != log[k].name)
  }

  /** A delivery is followed at once by its move, which works or fails. */
  ghost predicate MovesFollow(log: seq<Entry>) {
    forall j :: 0 <= j < |log| && OkAttempt(log[j]) ==>
      j + 1 < |log| && (log[j + 1] == Moved(log[j].name) || log[j + 1] == MoveFailed(log[j].name))
  }

  ghost predicate Settled(start: World, w: World, log: seq<Entry>) {
    WaitsUntilMoved(start, w, log) && MovesFollow(log)
  }

  lemma EverAppend(start: World, log: seq<Entry>, e: Entry)
    ensures Ever(start, log + [e]) == Ever(start, log) + (if e.Created? then {e.name} else {})
  {
    hide CreatedFiles;
    CreatedAppend(log, [e]);
    SingleEntry(e);
  }

  lemma MovesFollowAppend(log: seq<Entry>, e: Entry)
    requires MovesFollow(log) && !OkAttempt(e)
    ensures MovesFollow(log + [e])
  {
    assert forall j :: 0 <= j < |log| ==> (log + [e])[j] == log[j];
  }

  lemma MovesFollowDelivery(log: seq<Entry>, attempt: Entry, move: Entry)
    requires MovesFollow(log) && OkAttempt(attempt)
    requires move == Moved(attempt.name) || move == MoveFailed(attempt.name)
    ensures MovesFollow(log + [attempt] + [move])
  {
    var more := log + [attempt] + [move];
    assert forall j :: 0 <= j < |log| ==> more[j] == log[j];
  }

  /** A look at the clock, an attempt with a waiting record, a failed move or a rotation. */
  lemma WaitsQuietly(start: World, w: World, w': World, log: seq<Entry>, e: Entry)
    requires WaitsUntilMoved(start, w, log) && w'.pending == w.pending
    requires !e.Created? && !e.Moved? && (e.Attempted? ==> e.name in w.pending)
    ensures WaitsUntilMoved(start, w', log + [e]) && Ever(start, log + [e]) == Ever(start, log)
  {
    hide Ever;
    EverAppend(start, log, e);
    var more := log + [e];
    assert forall n :: Moved(n) in more <==> Moved(n) in log;
    forall j, k | 0 <= j < k < |more| && more[j].Moved? && more[k].Attempted?
      ensures more[j].name != more[k].name
    {
      if k == |log| {
        assert Moved(more[j].name) in log;
      }
    }
  }

  lemma WaitsAfterMove(start: World, w: World, w': World, log: seq<Entry>, n: Name)
    requires WaitsUntilMoved(start, w, log) && n in w.pending && w'.pending == w.pending - {n}
    ensures WaitsUntilMoved(start, w', log + [Moved(n)]) && Ever(start, log + [Moved(n)]) == Ever(start, log)
  {
    hide Ever;
    EverAppend(start, log, Moved(n));
    assert forall m :: Moved(m) in log + [Moved(n)] <==> Moved(m) in log || m == n;
  }

  lemma WaitsAfterCreation(start: World, w: World, w': World, log: seq<Entry>, n: Name, content: ByteString)
    requires WaitsUntilMoved(start, w, log) && n !in Ever(start, log) && w'.pending == w.pending[n := content]
    ensures WaitsUntilMoved(start, w', log + [Created(n, content)])
    ensures Ever(start, log + [Created(n, content)]) == Ever(start, log) + {n}
  {
    hide Ever;
    EverAppend(start, log, Created(n, content));
    assert forall m :: Moved(m) in log + [Created(n, content)] <==> Moved(m) in log;
  }

  lemma QuietSettles(start: World, w: World, w': World, log: seq<Entry>, e: Entry)
    requires Settled(start, w, log) && w'.pending == w.pending
    requires !e.Created? && !e.Moved? && (e.Attempted? ==> e.name in w.pending && e.answer != Ok)
    ensures Settled(start, w', log + [e]) && Ever(start, log + [e]) == Ever(start, log)
  {
    hide WaitsUntilMoved, MovesFollow, Ever;
    WaitsQuietly(start, w, w', log, e);
    MovesFollowAppend(log, e);
  }

  lemma FiledSettles(start: World, w: World, cfg: Config, i: Interface, n: Name, env: Env, log: seq<Entry>)
    requires Settled(start, w, log) && n in w.pending && env.answers(n) == Ok
    ensures var more := [Attempted(i, n, w.pending[n], Ok, env.failAt)] + FiledLog(w, cfg, n, env);
      Settled(start, Filed(w, cfg, n, env).With(i, Succeeded(w.BreakerOf(i))), log + more)
      && Ever(start, log + more) == Ever(start, log)
  {
    hide WaitsUntilMoved, MovesFollow, Ever, Filed;
    var attempt := Attempted(i, n, w.pending[n], Ok, env.failAt);
    var move := if env.moves(n) then Moved(n) else MoveFailed(n);
    var out := FiledLog(w, cfg, n, env)[1];
    var after := Filed(w, cfg, n, env).With(i, Succeeded(w.BreakerOf(i)));
    FiledPlaces(w, cfg, n, env);
    WaitsQuietly(start, w, w, log, attempt);
    if env.moves(n) {
      WaitsAfterMove(start, w, after, log + [attempt], n);
    } else {
      WaitsQuietly(start, w, after, log + [attempt], move);
    }
    WaitsQuietly(start, after, after, log + [attempt] + [move], out);
    MovesFollowDelivery(log, attempt, move);
    MovesFollowAppend(log + [attempt] + [move], out);
    assert log + ([attempt] + FiledLog(w, cfg, n, env)) == log + [attempt] + [move] + [out];
  }

  lemma {:induction false} SendBatchSettles(
    start: World, w: World, cfg: Config, i: Interface, batch: seq<Name>, env: Env, log: seq<Entry>)
    requires Settled(start, w, log)
    ensures var o := Prefixed(log, SendBatch(w, cfg, i, batch, env));
      Settled(start, o.world, o.log) && Ever(start, o.log) == Ever(start, log)
    decreases batch
  {
    hide SendBatch, Filed, FiledLog, Settled, Ever;
    if batch == [] {
      BatchEnd(w, cfg, i, env, log);
    } else {
      var n := batch[0];
      BatchTurn(w, cfg, i, batch, env, log);
      if !(n in w.pending && env.readable(n)) {
        SendBatchSettles(start, w, cfg, i, batch[1..], env, log);
      } else if cfg.Enabled(i) {
        var attempt := Attempted(i, n, w.pending[n], env.answers(n), env.failAt);
        if env.answers(n) == Ok {
          FiledSettles(start, w, cfg, i, n, env, log);
          SendBatchSettles(start, Filed(w, cfg, n, env).With(i, Succeeded(w.BreakerOf(i))), cfg, i, batch[1..], env,
                           log + ([attempt] + FiledLog(w, cfg, n, env)));
        } else {
          QuietSettles(start, w, SendBatch(w, cfg, i, batch, env).world, log, attempt);
        }
      }
    }
  }

  lemma TrySendSettles(start: World, w: World, cfg: Config, env: Env, log: seq<Entry>)
    requires Settled(start, w, log)
    ensures var o := Prefixed(log, TrySend(w, cfg, env));
      Settled(start, o.world, o.log) && Ever(start, o.log) == Ever(start, log)
  {
    hide SendBatch, Settled, Ever, Batch;
    var w1 := w.Tick(cfg.primary, env.recoverAt);
    var i := Select(cfg, w1);
    var first, second := Looked(cfg.primary, env.recoverAt), Looked(i, env.allowAt);
    QuietSettles(start, w, w1, log, first);
    if !(i == Mqtt && !cfg.mqttEnabled) {
      var w2 := w1.Tick(i, env.allowAt);
      QuietSettles(start, w1, w2, log + [first], second);
      assert log + [first] + [second] == log + [first, second];
      if w2.BreakerOf(i).state != Open {
        var batch := Batch(cfg, w2.BreakerOf(i), env);
        SendBatchSettles(start, w2, cfg, i, batch, env, log + [first, second]);
        PrefixedTwice(log, [first, second], SendBatch(w2, cfg, i, batch, env));
      }
    }
  }

  lemma StoredSettles(start: World, w: World, env: Env, log: seq<Entry>)
    requires Settled(start, w, log) && RecordName(env.ts) !in Ever(start, log)
    ensures var stored := Stored(w, env);
      Settled(start, stored.world, log + stored.log)
      && Ever(start, log + stored.log) <= Ever(start, log) + {RecordName(env.ts)}
  {
    hide WaitsUntilMoved, MovesFollow, Ever;
    var stored := Stored(w, env);
    if env.write.NotOpened? {
      assert log + [] == log;
    } else {
      var e := stored.log[0];
      WaitsAfterCreation(start, w, stored.world, log, e.name, e.content);
      MovesFollowAppend(log, e);
      assert stored.log == [e];
    }
  }

  lemma CycleSettles(start: World, w: World, cfg: Config, env: Env, log: seq<Entry>)
    requires Settled(start, w, log) && RecordName(env.ts) !in Ever(start, log)
    ensures var o := Prefixed(log, Cycle(w, cfg, env));
      Settled(start, o.world, o.log) && Ever(start, o.log) <= Ever(start, log) + {RecordName(env.ts)}
  {
    hide TrySend, Stored, Settled, Ever;
    var stored := Stored(w, env);
    StoredSettles(start, w, env, log);
    TrySendSettles(start, stored.world, cfg, env, log + stored.log);
    PrefixedTwice(log, stored.log, TrySend(stored.world, cfg, env));
  }

  lemma {:induction false} RunSettles(start: World, w: World, cfg: Config, envs: seq<Env>, log: seq<Entry>)
    requires Settled(start, w, log) && FreshTimestamps(envs, Ever(start, log))
    ensures var o := Prefixed(log, Run(w, cfg, envs));
      Settled(start, o.world, o.log) && Ever(start, o.log) <= Ever(start, log) + NamesOf(envs)
    decreases |envs|
  {
    hide Settled, Ever, Run, Cycle, Prefixed, FreshTimestamps, NamesOf;
    if envs == [] {
      RunNothing(w, cfg, log);
    } else {
      var earlier, env := envs[..|envs| - 1], envs[|envs| - 1];
      FreshPrefix(envs, Ever(start, log));
      RunSettles(start, w, cfg, earlier, log);
      RunStep(w, cfg, envs, log);
      var before := Prefixed(log, Run(w, cfg, earlier));
      CycleSettles(start, before.world, cfg, env, before.log);
    }
  }

  /** From directories that hold anything, over any number of processes: a record is waiting exactly when it
    * has been there and no move of it has worked, whatever was answered to it. */
  lemma {:induction false} LivesSettle(start: World, lives: seq<Life>)
    requires FreshLives(lives, start.pending.Keys + start.sent.Keys)
    ensures var o := Lives(start, lives);
      Settled(start, o.world, o.log) && Ever(start, o.log) <= start.pending.Keys + LivesNames(lives)
    decreases |lives|
  {
    hide Settled, Ever, Run, Lives, Prefixed, FreshTimestamps, NamesOf;
    if lives == [] {
      LivesNone(start);
      StartIsSettled(start);
    } else {
      var earlier, life := lives[..|lives| - 1], lives[|lives| - 1];
      var before := Lives(start, earlier);
      LivesSettle(start, earlier);
      BootSettles(start, before.world, before.log);
      FewerUsed(life.envs, Ever(start, before.log), start.pending.Keys + start.sent.Keys + LivesNames(earlier));
      RunSettles(start, Booted(before.world), life.cfg, life.envs, before.log);
      LivesStep(start, lives);
    }
  }

  lemma StartIsSettled(start: World)
    ensures Settled(start, start, []) && Ever(start, []) == start.pending.Keys
  {
    assert CreatedFiles([]) == map[];
  }

  lemma BootSettles(start: World, w: World, log: seq<Entry>)
    requires Settled(start, w, log)
    ensures Settled(start, Booted(w), log)
  {
  }

  /** A record that is delivered a second time could not be moved after the first. */
  lemma DeliveredAgain(start: World, lives: seq<Life>, j: nat, k: nat)
    requires FreshLives(lives, start.pending.Keys + start.sent.Keys)
    requires j < k < |Lives(start, lives).log|
    requires var log := Lives(start, lives).log;
      OkAttempt(log[j]) && OkAttempt(log[k]) && log[j].name == log[k].name
    ensures var log := Lives(start, lives).log; log[j + 1] == MoveFailed(log[j].name)
  {
    hide Lives, FreshLives, Ever;
    LivesSettle(start, lives);
    var log := Lives(start, lives).log;
    assert j + 1 < k;
  }

  /** When no move fails, no record is delivered twice. */
  lemma DeliveredOnce(start: World, lives: seq<Life>, j: nat, k: nat)
    requires FreshLives(lives, start.pending.Keys + start.sent.Keys)
    requires j <= k < |Lives(start, lives).log|
    requires forall e :: e in Lives(start, lives).log ==> !e.MoveFailed?
    requires var log := Lives(start, lives).log;
      OkAttempt(log[j]) && OkAttempt(log[k]) && log[j].name == log[k].name
    ensures j == k
  {
    hide Lives, FreshLives, Ever;
    if j < k {
      DeliveredAgain(start, lives, j, k);
      LivesSettle(start, lives);
    }
  }

  /** Right after an OK answer, the record is still waiting exactly when its move failed. */
  lemma WaitingAfterDelivery(w: World, cfg: Config, n: Name, env: Env)
    requires n in w.pending
    ensures n in Filed(w, cfg, n, env).pending <==> !env.moves(n)
    ensures FiledLog(w, cfg, n, env)[0] == if env.moves(n) then Moved(n) else MoveFailed(n)
  {
  }

  /** The move fails, and the next cycle sends the same record again. */
  lemma DeliveredTwice()
    ensures var r := RecordName(5);
      var first := Env(5, [1], Complete, 0, 0, 0, Some([r]), _ => true, _ => Ok, _ => false,
                       _ => Rotation(true, true, _ => true));
      var cfg := Config(Api, true, true, 10, 1000, Settings(5, 60, 300));
      var log := Run(World(map[], map[], Initial, Initial), cfg, [first, first.(write := NotOpened)]).log;
      |log| == 11 && log[3] == log[8] == Attempted(Api, r, [1], Ok, 0)
  {
    hide Cycle;
    var r := RecordName(5);
    var first := Env(5, [1], Complete, 0, 0, 0, Some([r]), _ => true, _ => Ok, _ => false,
                     _ => Rotation(true, true, _ => true));
    var second := first.(write := NotOpened);
    var cfg := Config(Api, true, true, 10, 1000, Settings(5, 60, 300));
    var empty, w := World(map[], map[], Initial, Initial), World(map[r := [1]], map[], Initial, Initial);
    var sending := [Looked(Api, 0), Looked(Api, 0), Attempted(Api, r, [1], Ok, 0), MoveFailed(r), RotatedOut({})];
    assert Cycle(empty, cfg, first) == Outcome(w, [Created(r, [1])] + sending) by {
      StuckCycle(cfg, first, r);
    }
    assert Cycle(w, cfg, second) == Outcome(w, [] + sending) by {
      StuckCycle(cfg, second, r);
    }
    assert [first, second][..1] == [first] && [first][..0] == [];
    assert Run(empty, cfg, [first]) == Outcome(w, [] + ([Created(r, [1])] + sending));
  }

  lemma StuckCycle(cfg: Config, env: Env, r: Name)
    requires cfg.primary == Api && cfg.apiEnabled && cfg.fifoMax >= 1 && r == RecordName(5)
    requires env.ts == 5 && env.json == [1] && env.listing == Some([r]) && env.readable(r) && env.answers(r) == Ok
    requires !env.moves(r) && env.recoverAt == env.allowAt == env.failAt == 0
    ensures var w := World(map[r := [1]], map[], Initial, Initial);
      var sending := [Looked(Api, 0), Looked(Api, 0), Attempted(Api, r, [1], Ok, 0), MoveFailed(r), RotatedOut({})];
      && (env.write == Complete ==>
            Cycle(World(map[], map[], Initial, Initial), cfg, env) == Outcome(w, [Created(r, [1])] + sending))
      && (env.write == NotOpened ==> Cycle(w, cfg, env) == Outcome(w, [] + sending))
  {
    var w := World(map[r := [1]], map[], Initial, Initial);
    RecordNameIsListable(5);
    ListingOfOne(r, cfg.fifoMax);
    assert map[][r := [1]] == w.pending;
    assert Filed(w, cfg, r, env) == w by {
      assert AfterRotation(map[], cfg, env.rotations(r)) == map[];
    }
    assert [r][1..] == [];
    var looked, attempt := [Looked(Api, 0), Looked(Api, 0)], Attempted(Api, r, [1], Ok, 0);
    var filed := [MoveFailed(r), RotatedOut({})];
    assert w.sent.Keys - Filed(w, cfg, r, env).sent.Keys == {};
    assert FiledLog(w, cfg, r, env) == filed;
    assert TrySend(w, cfg, env) == Outcome(w, looked + ([attempt] + filed)) by {
      BatchTurn(w, cfg, Api, [r], env, looked);
      BatchEnd(w, cfg, Api, env, looked + ([attempt] + filed));
    }
  }
}
