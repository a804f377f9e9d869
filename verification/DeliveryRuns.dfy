/** Where the records are, over whole runs and over one process after the other. */
module DeliveryRuns {
  import opened Options
  import opened Bytes
  import opened FileNames
  import opened Persist
  import opened CircuitBreakers
  import opened Delivery

  // ---- Conservation ----

  /** The files that were created, with their latest content. */
  function CreatedFiles(log: seq<Entry>): Files {
    if log == [] then map[]
    else
      var before := CreatedFiles(log[..|log| - 1]);
      match log[|log| - 1]
      case Created(name, content) => before[name := content]
      case _ => before
  }

  function Gone(log: seq<Entry>): set<Name> {
    if log == [] then {}
    else
      var before := Gone(log[..|log| - 1]);
      match log[|log| - 1]
      case RotatedOut(names) => before + names
      case _ => before
  }

  /** The files there have ever been: those found at the start and those created since. */
  function Account(start: World, log: seq<Entry>): Files {
    start.pending + start.sent + CreatedFiles(log)
  }

  /** The record was sent with this content and the answer was OK. */
  ghost predicate WasDelivered(log: seq<Entry>, n: Name, content: ByteString) {
    exists k :: 0 <= k < |log| && OkAttempt(log[k]) && log[k].name == n && log[k].content == content
  }

  predicate OkAttempt(e: Entry) {
    e.Attempted? && e.answer == Ok
  }

  /** Every file is in exactly one of pending, sent and rotated-out, with its content. */
  ghost predicate Placed(pending: Files, sent: Files, gone: set<Name>, all: Files) {
    && all.Keys == pending.Keys + sent.Keys + gone
    && pending.Keys !! sent.Keys && pending.Keys !! gone && sent.Keys !! gone
    && (forall n :: n in pending ==> all[n] == pending[n])
    && (forall n :: n in sent ==> all[n] == sent[n])
  }

  /** And only delivered files have left pending, but for those that were in sent from the start. */
  ghost predicate Conserved(start: World, w: World, log: seq<Entry>) {
    var all := Account(start, log);
    && Placed(w.pending, w.sent, Gone(log), all)
    && (forall n :: n in w.sent.Keys + Gone(log) ==> n in start.sent || WasDelivered(log, n, all[n]))
  }

  lemma {:induction false} CreatedAppend(log: seq<Entry>, more: seq<Entry>)
    ensures CreatedFiles(log + more) == CreatedFiles(log) + CreatedFiles(more)
  {
    if more == [] {
      assert log + more == log;
    } else {
      CreatedAppend(log, more[..|more| - 1]);
      assert (log + more)[..|log + more| - 1] == log + more[..|more| - 1];
    }
  }

  lemma {:induction false} GoneAppend(log: seq<Entry>, more: seq<Entry>)
    ensures Gone(log + more) == Gone(log) + Gone(more)
  {
    if more == [] {
      assert log + more == log;
    } else {
      GoneAppend(log, more[..|more| - 1]);
      assert (log + more)[..|log + more| - 1] == log + more[..|more| - 1];
    }
  }

  lemma AccountAppend(start: World, log: seq<Entry>, more: seq<Entry>)
    ensures Account(start, log + more) == Account(start, log) + CreatedFiles(more)
  {
    hide CreatedFiles;
    CreatedAppend(log, more);
  }

  lemma DeliveredAppend(log: seq<Entry>, more: seq<Entry>)
    ensures forall n, c :: WasDelivered(log, n, c) ==> WasDelivered(log + more, n, c)
  {
    forall n, c | WasDelivered(log, n, c) ensures WasDelivered(log + more, n, c) {
      var k :| 0 <= k < |log| && OkAttempt(log[k]) && log[k].name == n && log[k].content == c;
      assert (log + more)[k] == log[k];
    }
  }

  /** Entries that create nothing and remove nothing leave the account as it is. */
  lemma QuietEntries(start: World, w: World, w': World, log: seq<Entry>, more: seq<Entry>)
    requires Conserved(start, w, log) && w'.pending == w.pending && w'.sent == w.sent
    requires CreatedFiles(more) == map[] && Gone(more) == {}
    ensures Conserved(start, w', log + more) && Account(start, log + more) == Account(start, log)
  {
    hide CreatedFiles, Gone, WasDelivered;
    AccountAppend(start, log, more);
    GoneAppend(log, more);
    DeliveredAppend(log, more);
    assert Account(start, log) + map[] == Account(start, log);
  }

  lemma SingleEntry(e: Entry)
    ensures CreatedFiles([e]) == if e.Created? then map[e.name := e.content] else map[]
    ensures Gone([e]) == if e.RotatedOut? then e.names else {}
  {
    assert [e][..0] == [];
    assert CreatedFiles([]) == map[] && Gone([]) == {};
  }

  lemma FiledConserves(start: World, w: World, cfg: Config, i: Interface, n: Name, env: Env, log: seq<Entry>)
    requires Conserved(start, w, log) && n in w.pending && env.answers(n) == Ok
    ensures var attempt := Attempted(i, n, w.pending[n], Ok, env.failAt);
      var more := [attempt] + FiledLog(w, cfg, n, env);
      Conserved(start, Filed(w, cfg, n, env).With(i, Succeeded(w.BreakerOf(i))), log + more)
      && Account(start, log + more) == Account(start, log)
  {
    hide Filed, FiledLog, CreatedFiles, Gone, WasDelivered, Placed, Account;
    var attempt := Attempted(i, n, w.pending[n], Ok, env.failAt);
    var more, after := [attempt] + FiledLog(w, cfg, n, env), Filed(w, cfg, n, env);
    var all := Account(start, log);
    FiledLogAccount(w, cfg, n, env, attempt);
    AccountAppend(start, log, more);
    assert all + map[] == all;
    GoneAppend(log, more);
    FiledPlaces(w, cfg, n, env);
    PlacedContents(w, Gone(log), all, n);
    PlacedAfterFiling(w, after, Gone(log), all, n, env.moves(n));
    DeliveredAppend(log, more);
    AttemptDelivers(log, more, attempt);
  }

  lemma PlacedContents(w: World, gone: set<Name>, all: Files, n: Name)
    requires Placed(w.pending, w.sent, gone, all) && n in w.pending
    ensures n in all && all[n] == w.pending[n] && n !in w.sent
  {
  }

  lemma AttemptDelivers(log: seq<Entry>, more: seq<Entry>, attempt: Entry)
    requires more != [] && more[0] == attempt && OkAttempt(attempt)
    ensures WasDelivered(log + more, attempt.name, attempt.content)
  {
    assert (log + more)[|log|] == attempt;
  }

  lemma PlacedAfterFiling(w: World, after: World, gone: set<Name>, all: Files, n: Name, moves: bool)
    requires Placed(w.pending, w.sent, gone, all) && n in w.pending
    requires after.pending == if moves then w.pending - {n} else w.pending
    requires after.sent.Keys <= SentNames(w, n, moves)
    requires forall m :: m in after.sent ==> after.sent[m] == if m in w.sent then w.sent[m] else w.pending[n]
    ensures Placed(after.pending, after.sent, gone + (SentNames(w, n, moves) - after.sent.Keys), all)
  {
  }

  /** What is in sent between the move and the rotation. */
  function SentNames(w: World, n: Name, moves: bool): set<Name> {
    if moves then w.sent.Keys + {n} else w.sent.Keys
  }

  lemma FiledLogAccount(w: World, cfg: Config, n: Name, env: Env, attempt: Entry)
    requires n in w.pending && attempt.Attempted?
    ensures var more := [attempt] + FiledLog(w, cfg, n, env);
      CreatedFiles(more) == map[] && Gone(more) == SentNames(w, n, env.moves(n)) - Filed(w, cfg, n, env).sent.Keys
  {
    hide CreatedFiles, Gone, Filed;
    var move := if env.moves(n) then Moved(n) else MoveFailed(n);
    var out := RotatedOut(SentNames(w, n, env.moves(n)) - Filed(w, cfg, n, env).sent.Keys);
    SingleEntry(attempt);
    SingleEntry(move);
    SingleEntry(out);
    assert FiledLog(w, cfg, n, env) == [move] + [out];
    CreatedAppend([move], [out]);
    GoneAppend([move], [out]);
    CreatedAppend([attempt], [move] + [out]);
    GoneAppend([attempt], [move] + [out]);
  }

  /** Moving and rotating: where the files of `w` are afterwards. */
  lemma FiledPlaces(w: World, cfg: Config, n: Name, env: Env)
    requires n in w.pending
    ensures var after := Filed(w, cfg, n, env);
      && after.pending == (if env.moves(n) then w.pending - {n} else w.pending)
      && after.sent.Keys <= SentNames(w, n, env.moves(n))
      && (n !in w.sent ==>
           forall m :: m in after.sent ==> after.sent[m] == if m in w.sent then w.sent[m] else w.pending[n])
  {
  }

  lemma {:induction false} SendBatchConserves(
    start: World, w: World, cfg: Config, i: Interface, batch: seq<Name>, env: Env, log: seq<Entry>)
    requires Conserved(start, w, log)
    ensures var o := Prefixed(log, SendBatch(w, cfg, i, batch, env));
      Conserved(start, o.world, o.log) && Account(start, o.log) == Account(start, log)
    decreases batch
  {
    hide SendBatch, Filed, FiledLog, CreatedFiles, Gone, Account, Placed;
    if batch == [] {
      BatchEnd(w, cfg, i, env, log);
    } else {
      var n := batch[0];
      BatchTurn(w, cfg, i, batch, env, log);
      if !(n in w.pending && env.readable(n)) {
        SendBatchConserves(start, w, cfg, i, batch[1..], env, log);
      } else if cfg.Enabled(i) {
        var attempt := Attempted(i, n, w.pending[n], env.answers(n), env.failAt);
        if env.answers(n) == Ok {
          FiledConserves(start, w, cfg, i, n, env, log);
          SendBatchConserves(start, Filed(w, cfg, n, env).With(i, Succeeded(w.BreakerOf(i))), cfg, i, batch[1..], env,
                             log + ([attempt] + FiledLog(w, cfg, n, env)));
        } else {
          SingleEntry(attempt);
          QuietEntries(start, w, SendBatch(w, cfg, i, batch, env).world, log, [attempt]);
        }
      }
    }
  }

  lemma TrySendConserves(start: World, w: World, cfg: Config, env: Env, log: seq<Entry>)
    requires Conserved(start, w, log)
    ensures var o := Prefixed(log, TrySend(w, cfg, env));
      Conserved(start, o.world, o.log) && Account(start, o.log) == Account(start, log)
  {
    hide SendBatch, CreatedFiles, Gone, Account, Placed, Batch;
    var w1 := w.Tick(cfg.primary, env.recoverAt);
    var i := Select(cfg, w1);
    var first, second := Looked(cfg.primary, env.recoverAt), Looked(i, env.allowAt);
    SingleEntry(first);
    QuietEntries(start, w, w1, log, [first]);
    if !(i == Mqtt && !cfg.mqttEnabled) {
      var w2 := w1.Tick(i, env.allowAt);
      SingleEntry(second);
      QuietEntries(start, w1, w2, log + [first], [second]);
      assert log + [first] + [second] == log + [first, second];
      if w2.BreakerOf(i).state != Open {
        var batch := Batch(cfg, w2.BreakerOf(i), env);
        SendBatchConserves(start, w2, cfg, i, batch, env, log + [first, second]);
        PrefixedTwice(log, [first, second], SendBatch(w2, cfg, i, batch, env));
      }
    }
  }

  /** One cycle, from any state that is accounted for, with a timestamp that is new. */
  lemma CycleConserves(start: World, w: World, cfg: Config, env: Env, log: seq<Entry>)
    requires Conserved(start, w, log) && RecordName(env.ts) !in Account(start, log)
    ensures var o := Prefixed(log, Cycle(w, cfg, env));
      Conserved(start, o.world, o.log)
      && Account(start, o.log).Keys <= Account(start, log).Keys + {RecordName(env.ts)}
  {
    hide TrySend, Stored, CreatedFiles, Conserved, Account;
    var stored := Stored(w, env);
    StoredConserves(start, w, env, log);
    TrySendConserves(start, stored.world, cfg, env, log + stored.log);
    PrefixedTwice(log, stored.log, TrySend(stored.world, cfg, env));
  }

  lemma StoredConserves(start: World, w: World, env: Env, log: seq<Entry>)
    requires Conserved(start, w, log) && RecordName(env.ts) !in Account(start, log)
    ensures var stored := Stored(w, env);
      Conserved(start, stored.world, log + stored.log)
      && Account(start, log + stored.log).Keys <= Account(start, log).Keys + {RecordName(env.ts)}
  {
    hide CreatedFiles, Conserved, Account;
    match env.write
    case NotOpened => assert log + [] == log;
    case Complete => CreationConserves(start, w, log, RecordName(env.ts), env.json);
    case Partial(written, _) => CreationConserves(start, w, log, RecordName(env.ts), written);
  }

  lemma CreationConserves(start: World, w: World, log: seq<Entry>, n: Name, content: ByteString)
    requires Conserved(start, w, log) && n !in Account(start, log)
    ensures Conserved(start, w.(pending := w.pending[n := content]), log + [Created(n, content)])
    ensures Account(start, log + [Created(n, content)]).Keys == Account(start, log).Keys + {n}
  {
    hide CreatedFiles, Gone, WasDelivered, Account, Placed;
    var e := Created(n, content);
    SingleEntry(e);
    AccountAppend(start, log, [e]);
    GoneAppend(log, [e]);
    DeliveredAppend(log, [e]);
    assert Gone(log + [e]) == Gone(log);
    assert Account(start, log + [e]) == Account(start, log)[n := content];
    PlacedAfterStoring(w, Gone(log), Account(start, log), n, content);
    var after := w.(pending := w.pending[n := content]);
    forall m | m in after.sent.Keys + Gone(log + [e])
      ensures m in start.sent || WasDelivered(log + [e], m, Account(start, log + [e])[m])
    {
      assert m != n && m in w.sent.Keys + Gone(log);
    }
  }

  lemma PlacedAfterStoring(w: World, gone: set<Name>, all: Files, n: Name, content: ByteString)
    requires Placed(w.pending, w.sent, gone, all) && n !in all
    ensures Placed(w.pending[n := content], w.sent, gone, all[n := content])
    ensures n !in w.sent.Keys + gone && w.sent.Keys + gone <= all.Keys
  {
  }

  // ---- Whole runs ----

  function NamesOf(envs: seq<Env>): set<Name> {
    set k | 0 <= k < |envs| :: RecordName(envs[k].ts)
  }

  /** No two cycles use the same timestamp, and none a timestamp used before. */
  ghost predicate FreshTimestamps(envs: seq<Env>, used: set<Name>) {
    && (forall i, j :: 0 <= i < j < |envs| ==> envs[i].ts != envs[j].ts)
    && (forall k :: 0 <= k < |envs| ==> RecordName(envs[k].ts) !in used)
  }

  lemma FreshPrefix(envs: seq<Env>, used: set<Name>)
    requires FreshTimestamps(envs, used) && envs != []
    ensures var earlier, n := envs[..|envs| - 1], RecordName(envs[|envs| - 1].ts);
      FreshTimestamps(earlier, used) && n !in used + NamesOf(earlier) && NamesOf(envs) == NamesOf(earlier) + {n}
  {
    var earlier, last := envs[..|envs| - 1], envs[|envs| - 1];
    forall k | 0 <= k < |earlier| ensures RecordName(earlier[k].ts) != RecordName(last.ts) {
      assert earlier[k] == envs[k];
      RecordNamesDiffer(earlier[k].ts, last.ts);
    }
    assert forall k :: 0 <= k < |earlier| ==> earlier[k] == envs[k];
    assert NamesOf(envs) == NamesOf(earlier) + {RecordName(last.ts)};
  }

  lemma RunStep(w: World, cfg: Config, envs: seq<Env>, log: seq<Entry>)
    requires envs != []
    ensures var before := Prefixed(log, Run(w, cfg, envs[..|envs| - 1]));
      Prefixed(log, Run(w, cfg, envs)) == Prefixed(before.log, Cycle(before.world, cfg, envs[|envs| - 1]))
  {
    hide Cycle;
    var before := Run(w, cfg, envs[..|envs| - 1]);
    PrefixedTwice(log, before.log, Cycle(before.world, cfg, envs[|envs| - 1]));
  }

  lemma RunNothing(w: World, cfg: Config, log: seq<Entry>)
    ensures Prefixed(log, Run(w, cfg, [])) == Outcome(w, log)
  {
    assert log + [] == log;
  }

  /** Whatever fails to be sent, read, moved or deleted in whatever cycle, no record is lost and none is
    * in two places. */
  lemma {:induction false} RunConserves(start: World, w: World, cfg: Config, envs: seq<Env>, log: seq<Entry>)
    requires Conserved(start, w, log) && FreshTimestamps(envs, Account(start, log).Keys)
    ensures var o := Prefixed(log, Run(w, cfg, envs));
      Conserved(start, o.world, o.log) && Account(start, o.log).Keys <= Account(start, log).Keys + NamesOf(envs)
    decreases |envs|
  {
    hide Conserved, Account, Run, Cycle, Prefixed, FreshTimestamps, NamesOf;
    if envs == [] {
      RunNothing(w, cfg, log);
    } else {
      var earlier, env := envs[..|envs| - 1], envs[|envs| - 1];
      FreshPrefix(envs, Account(start, log).Keys);
      RunConserves(start, w, cfg, earlier, log);
      RunStep(w, cfg, envs, log);
      var before := Prefixed(log, Run(w, cfg, earlier));
      CycleConserves(start, before.world, cfg, env, before.log);
    }
  }

  // ---- One process after the other ----

  function LivesNames(lives: seq<Life>): set<Name> {
    if lives == [] then {} else LivesNames(lives[..|lives| - 1]) + NamesOf(lives[|lives| - 1].envs)
  }

  /** No cycle of any process uses a timestamp that was used before, or that the directories held. */
  ghost predicate FreshLives(lives: seq<Life>, used: set<Name>) {
    lives == [] ||
    var earlier := lives[..|lives| - 1];
    FreshLives(earlier, used) && FreshTimestamps(lives[|lives| - 1].envs, used + LivesNames(earlier))
  }

  lemma StartIsConserved(start: World)
    requires start.pending.Keys !! start.sent.Keys
    ensures Conserved(start, start, []) && Account(start, []).Keys == start.pending.Keys + start.sent.Keys
  {
    assert CreatedFiles([]) == map[] && Gone([]) == {};
  }

  lemma BootConserves(start: World, w: World, log: seq<Entry>)
    requires Conserved(start, w, log)
    ensures Conserved(start, Booted(w), log)
  {
    hide Account, Gone, WasDelivered;
  }

  lemma LivesStep(start: World, lives: seq<Life>)
    requires lives != []
    ensures var before, life := Lives(start, lives[..|lives| - 1]), lives[|lives| - 1];
      Lives(start, lives) == Prefixed(before.log, Run(Booted(before.world), life.cfg, life.envs))
  {
  }

  /** From directories that hold anything, over any number of processes one after the other: every file is
    * in one place, with its content, and left pending only when it was delivered. */
  lemma {:induction false} LivesConserve(start: World, lives: seq<Life>)
    requires start.pending.Keys !! start.sent.Keys
    requires FreshLives(lives, start.pending.Keys + start.sent.Keys)
    ensures var o := Lives(start, lives);
      && Conserved(start, o.world, o.log)
      && Account(start, o.log).Keys <= start.pending.Keys + start.sent.Keys + LivesNames(lives)
    decreases |lives|
  {
    hide Conserved, Account, Run, Lives, Prefixed, FreshTimestamps, NamesOf;
    if lives == [] {
      StartIsConserved(start);
      assert Lives(start, []) == Outcome(start, []) by { LivesNone(start); }
    } else {
      var earlier, life := lives[..|lives| - 1], lives[|lives| - 1];
      var before := Lives(start, earlier);
      LivesConserve(start, earlier);
      BootConserves(start, before.world, before.log);
      FewerUsed(life.envs, Account(start, before.log).Keys, start.pending.Keys + start.sent.Keys + LivesNames(earlier));
      RunConserves(start, Booted(before.world), life.cfg, life.envs, before.log);
      LivesStep(start, lives);
    }
  }

  lemma LivesNone(start: World)
    ensures Lives(start, []) == Outcome(start, [])
  {
  }

  lemma FewerUsed(envs: seq<Env>, used: set<Name>, more: set<Name>)
    requires FreshTimestamps(envs, more) && used <= more
    ensures FreshTimestamps(envs, used)
  {
  }

  // ---- Repeated timestamps ----

  /** A write keeps every pending record exactly when it does not replace one of them by another text. */
  lemma StoreKeepsPending(w: World, env: Env)
    ensures var after, n := Stored(w, env).world, RecordName(env.ts);
      (forall m :: m in w.pending ==> m in after.pending && after.pending[m] == w.pending[m])
      <==> env.write.NotOpened? || n !in w.pending
           || w.pending[n] == (if env.write.Complete? then env.json else env.write.written)
  {
    var after, n := Stored(w, env).world, RecordName(env.ts);
    if !env.write.NotOpened? && n in w.pending {
      assert n in after.pending;
    }
  }

  /** The clock was set back to a second that had a record, while the network was away: that record is gone
    * although nobody ever received it. */
  lemma RepeatedTimestampLoses()
    ensures var r := RecordName(5);
      var away := Env(5, [1], Complete, 5, 5, 5, Some([r]), _ => true, _ => TransientError, _ => true,
                      _ => Rotation(true, true, _ => true));
      var cfg := Config(Api, true, true, 10, 1000, Settings(5, 60, 300));
      var o := Run(World(map[], map[], Initial, Initial), cfg, [away, away.(json := [2])]);
      && o.world.pending == map[r := [2]] && o.world.sent == map[]
      && Created(r, [1]) in o.log && (forall e :: e in o.log ==> !OkAttempt(e))
  {
    hide Cycle;
    var r := RecordName(5);
    var away := Env(5, [1], Complete, 5, 5, 5, Some([r]), _ => true, _ => TransientError, _ => true,
                    _ => Rotation(true, true, _ => true));
    var second := away.(json := [2]);
    var cfg := Config(Api, true, true, 10, 1000, Settings(5, 60, 300));
    var empty := World(map[], map[], Initial, Initial);
    var w1 := World(map[r := [1]], map[], Breaker(Closed, 1, 0, 0), Initial);
    var w2 := World(map[r := [2]], map[], Breaker(Closed, 2, 0, 0), Initial);
    var log1, log2 := AwayLog(r, [1]), AwayLog(r, [2]);
    assert Cycle(empty, cfg, away) == Outcome(w1, log1) by {
      AwayCycle(empty, cfg, away, r);
    }
    assert Cycle(w1, cfg, second) == Outcome(w2, log2) by {
      AwayCycle(w1, cfg, second, r);
    }
    assert [away, second][..1] == [away] && [away][..0] == [];
    assert Run(empty, cfg, [away]) == Outcome(w1, [] + log1);
    assert Run(empty, cfg, [away, second]) == Outcome(w2, [] + log1 + log2);
    assert ([] + log1 + log2)[0] == Created(r, [1]);
  }

  function AwayLog(r: Name, json: ByteString): seq<Entry> {
    [Created(r, json)] + [Looked(Api, 5), Looked(Api, 5), Attempted(Api, r, json, TransientError, 5)]
  }

  lemma AwayCycle(w: World, cfg: Config, env: Env, r: Name)
    requires cfg.primary == Api && cfg.apiEnabled && cfg.fifoMax >= 1 && r == RecordName(5)
    requires env.ts == 5 && env.write == Complete && env.listing == Some([r]) && env.readable(r)
    requires env.answers(r) == TransientError && env.recoverAt == env.allowAt == env.failAt == 5
    requires w.pending.Keys <= {r} && w.api.state == Closed && w.api.failCount + 1 < cfg.settings.failThreshold
    ensures var api := w.api.(failCount := w.api.failCount + 1);
      Cycle(w, cfg, env) == Outcome(World(map[r := env.json], w.sent, api, w.mqtt), AwayLog(r, env.json))
  {
    var stored := World(map[r := env.json], w.sent, w.api, w.mqtt);
    RecordNameIsListable(5);
    ListingOfOne(r, cfg.fifoMax);
    assert w.pending[r := env.json] == stored.pending;
    assert SendBatch(stored, cfg, Api, [r], env)
        == Outcome(stored.(api := w.api.(failCount := w.api.failCount + 1)),
                   [Attempted(Api, r, env.json, TransientError, 5)]);
  }

  lemma ListingOfOne(n: Name, max: nat)
    requires Listable(n) && |n| <= NAME_LIMIT && max > 0
    ensures Listing([n], max) == [n]
  {
    assert [n][1..] == [];
    assert FirstListable([n], max) == [n];
    assert Clipped([n]) == [n] && Sort([]) == [] && Sort([n]) == [n];
  }
}
