/** Which interface a cycle uses, which files it attempts and in what order, and how a backlog drains. */
module DeliveryOrder {
  import opened Options
  import opened Arithmetic
  import opened FileNames
  import opened Persist
  import opened CircuitBreakers
  import opened Delivery
  import opened DeliveryRuns

  // ---- Failover and failback ----

  predicate Unexpired(b: Breaker, now: int) {
    b.state == Open && now < b.nextRetry
  }

  /** The interface of every attempt in the log. */
  ghost predicate AttemptsOnlyOn(log: seq<Entry>, i: Interface) {
    forall e :: e in log && e.Attempted? ==> e.iface == i
  }

  lemma {:induction false} SendBatchInterface(w: World, cfg: Config, i: Interface, batch: seq<Name>, env: Env)
    ensures var log := SendBatch(w, cfg, i, batch, env).log;
      AttemptsOnlyOn(log, i) && (!cfg.Enabled(i) ==> log == [])
    decreases batch
  {
    if batch != [] {
      var n := batch[0];
      if !(n in w.pending && env.readable(n)) {
        SendBatchInterface(w, cfg, i, batch[1..], env);
      } else if cfg.Enabled(i) && env.answers(n) == Ok {
        SendBatchInterface(Filed(w, cfg, n, env).With(i, Succeeded(w.BreakerOf(i))), cfg, i, batch[1..], env);
      }
    }
  }

  /** The secondary interface, exactly when it is enabled and the primary is open with time to wait. */
  function Active(w: World, cfg: Config, now: int): Interface {
    if Unexpired(w.BreakerOf(cfg.primary), now) && cfg.Enabled(Other(cfg.primary)) then Other(cfg.primary)
    else cfg.primary
  }

  /** The rule in the fields of the configuration and the breakers. */
  lemma ActiveInFields(w: World, cfg: Config, now: int)
    ensures cfg.primary == Api ==>
      (Active(w, cfg, now) == Mqtt <==> w.api.state == Open && now < w.api.nextRetry && cfg.mqttEnabled)
    ensures cfg.primary == Mqtt ==>
      (Active(w, cfg, now) == Api <==> w.mqtt.state == Open && now < w.mqtt.nextRetry && cfg.apiEnabled)
  {
  }

  /** Nothing is attempted on an interface that is switched off. */
  ghost predicate OnlyEnabled(log: seq<Entry>, cfg: Config) {
    forall e :: e in log && e.Attempted? ==>
      (e.iface == Api ==> cfg.apiEnabled) && (e.iface == Mqtt ==> cfg.mqttEnabled)
  }

  lemma TrySendOnlyEnabled(w: World, cfg: Config, env: Env)
    ensures OnlyEnabled(TrySend(w, cfg, env).log, cfg)
  {
    hide SendBatch, Batch;
    var w1 := w.Tick(cfg.primary, env.recoverAt);
    var i := Select(cfg, w1);
    var w2 := w1.Tick(i, env.allowAt);
    SendBatchInterface(w2, cfg, i, Batch(cfg, w2.BreakerOf(i), env), env);
  }

  /** Where MQTT is to be used and is switched off, a cycle looks at the primary breaker and does nothing else. */
  lemma DisabledMqttIsLeftAlone(w: World, cfg: Config, env: Env)
    requires Active(w, cfg, env.recoverAt) == Mqtt && !cfg.mqttEnabled
    ensures cfg.primary == Mqtt && TrySend(w, cfg, env).log == [Looked(Mqtt, env.recoverAt)]
    ensures var after := TrySend(w, cfg, env).world;
      && after.pending == w.pending && after.sent == w.sent && after.api == w.api
      && (after.mqtt == w.mqtt || (after.mqtt == w.mqtt.(state := HalfOpen) && w.mqtt.nextRetry <= env.recoverAt))
  {
    hide SendBatch, Batch;
  }

  /** From any directories and breakers, over every run, whatever the answers are. */
  lemma {:induction false} RunOnlyEnabled(w: World, cfg: Config, envs: seq<Env>)
    ensures OnlyEnabled(Run(w, cfg, envs).log, cfg)
    decreases |envs|
  {
    hide TrySend;
    if envs != [] {
      var earlier := envs[..|envs| - 1];
      RunOnlyEnabled(w, cfg, earlier);
      TrySendOnlyEnabled(Stored(Run(w, cfg, earlier).world, envs[|envs| - 1]).world, cfg, envs[|envs| - 1]);
    }
  }

  // ---- The order of attempts ----

  /** The names attempted, in order. */
  function AttemptedNames(log: seq<Entry>): seq<Name> {
    if log == [] then []
    else (if log[0].Attempted? then [log[0].name] else []) + AttemptedNames(log[1..])
  }

  /** The files of a batch that are there and can be read. */
  function ReadableOf(batch: seq<Name>, pending: Files, env: Env): seq<Name> {
    if batch == [] then []
    else
      (if batch[0] in pending && env.readable(batch[0]) then [batch[0]] else [])
      + ReadableOf(batch[1..], pending, env)
  }

  lemma {:induction false} AttemptedAppend(a: seq<Entry>, b: seq<Entry>)
    ensures AttemptedNames(a + b) == AttemptedNames(a) + AttemptedNames(b)
  {
    if a == [] {
      assert a + b == b;
    } else {
      AttemptedAppend(a[1..], b);
      assert (a + b)[0] == a[0] && (a + b)[1..] == a[1..] + b;
      var first := if a[0].Attempted? then [a[0].name] else [];
      var rest, behind := AttemptedNames(a[1..]), AttemptedNames(b);
      assert first + (rest + behind) == (first + rest) + behind;
    }
  }

  lemma {:induction false} ReadableWithout(batch: seq<Name>, pending: Files, n: Name, env: Env)
    requires n !in batch
    ensures ReadableOf(batch, pending - {n}, env) == ReadableOf(batch, pending, env)
  {
    if batch != [] {
      ReadableWithout(batch[1..], pending, n, env);
    }
  }

  lemma NoAttemptInFiling(w: World, cfg: Config, n: Name, env: Env)
    requires n in w.pending
    ensures AttemptedNames(FiledLog(w, cfg, n, env)) == []
  {
    var log := FiledLog(w, cfg, n, env);
    QuietNames(log);
  }

  lemma {:induction false} QuietNames(log: seq<Entry>)
    requires forall e :: e in log ==> !e.Attempted?
    ensures AttemptedNames(log) == []
  {
    if log != [] {
      QuietNames(log[1..]);
    }
  }

  /** The attempts of a cycle are the readable files of the batch, in the order of the batch, up to the
    * first one that is not answered with OK. */
  function UpToFailure(names: seq<Name>, env: Env): seq<Name> {
    if names == [] then []
    else [names[0]] + (if env.answers(names[0]) == Ok then UpToFailure(names[1..], env) else [])
  }

  lemma {:induction false} AttemptsFollowBatch(w: World, cfg: Config, i: Interface, batch: seq<Name>, env: Env)
    requires Distinct(batch)
    ensures AttemptedNames(SendBatch(w, cfg, i, batch, env).log)
         == if cfg.Enabled(i) then UpToFailure(ReadableOf(batch, w.pending, env), env) else []
    decreases batch
  {
    if batch != [] {
      var n, rest := batch[0], batch[1..];
      assert n !in rest;
      if !(n in w.pending && env.readable(n)) {
        AttemptsFollowBatch(w, cfg, i, rest, env);
        assert ReadableOf(batch, w.pending, env) == ReadableOf(rest, w.pending, env);
      } else if cfg.Enabled(i) {
        AttemptsFollowFile(w, cfg, i, batch, env);
      }
    }
  }

  lemma {:induction false} AttemptsFollowFile(w: World, cfg: Config, i: Interface, batch: seq<Name>, env: Env)
    requires Distinct(batch) && batch != [] && cfg.Enabled(i) && batch[0] in w.pending && env.readable(batch[0])
    ensures AttemptedNames(SendBatch(w, cfg, i, batch, env).log) == UpToFailure(ReadableOf(batch, w.pending, env), env)
    decreases batch, 0
  {
    var n, rest := batch[0], batch[1..];
    assert n !in rest;
    var attempt := Attempted(i, n, w.pending[n], env.answers(n), env.failAt);
    assert ReadableOf(batch, w.pending, env)[1..] == ReadableOf(rest, w.pending, env);
    assert AttemptedNames([attempt]) == [n] by {
      assert [attempt][1..] == [];
    }
    if env.answers(n) == Ok {
      var w' := Filed(w, cfg, n, env).With(i, Succeeded(w.BreakerOf(i)));
      AttemptsFollowBatch(w', cfg, i, rest, env);
      ReadableWithout(rest, w.pending, n, env);
      NoAttemptInFiling(w, cfg, n, env);
      AttemptedAppend([attempt], FiledLog(w, cfg, n, env));
      AttemptedAppend([attempt] + FiledLog(w, cfg, n, env), SendBatch(w', cfg, i, rest, env).log);
    }
  }

  /** All attempts but the last were answered with OK. */
  lemma {:induction false} OnlyLastFails(names: seq<Name>, env: Env)
    ensures var r := UpToFailure(names, env);
      r <= names && (forall k :: 0 <= k < |r| - 1 ==> env.answers(r[k]) == Ok)
      && (r != names ==> r != [] && env.answers(r[|r| - 1]) != Ok)
  {
    if names != [] && env.answers(names[0]) == Ok {
      OnlyLastFails(names[1..], env);
      var r, s := UpToFailure(names, env), UpToFailure(names[1..], env);
      assert r == [names[0]] + s;
      assert forall k :: 0 < k < |r| ==> r[k] == s[k - 1];
    }
  }

  lemma {:induction false} ReadableSubsequence(batch: seq<Name>, pending: Files, env: Env)
    ensures |ReadableOf(batch, pending, env)| <= |batch|
    ensures Ascending(batch) ==> Ascending(ReadableOf(batch, pending, env))
    ensures forall n :: n in ReadableOf(batch, pending, env) ==> n in batch
  {
    if batch != [] {
      ReadableSubsequence(batch[1..], pending, env);
      var rest := ReadableOf(batch[1..], pending, env);
      if Ascending(batch) {
        forall n | n in rest ensures !Less(n, batch[0]) {
          var k :| 0 <= k < |batch[1..]| && batch[1..][k] == n;
          assert batch[k + 1] == n;
        }
      }
    }
  }

  /** A batch has no duplicates, is oldest first and keeps its limit. */
  lemma BatchIsSound(cfg: Config, b: Breaker, env: Env, pending: Files)
    requires cfg.Valid() && ShortNames(pending.Keys)
    requires env.listing.Some? ==> Lists(env.listing.value, pending.Keys)
    ensures var batch := Batch(cfg, b, env);
      Distinct(batch) && Ascending(batch) && |batch| <= BatchLimit(cfg, b)
      && forall n :: n in batch ==> n in pending && Listable(n)
  {
    if env.listing.Some? {
      var order, max := env.listing.value, BatchLimit(cfg, b);
      var found := FirstListable(order, max);
      assert Clipped(found) == found by {
        forall k | 0 <= k < |found| ensures Clip(found[k]) == found[k] {
          assert found[k] in found;
        }
      }
      FirstListableDistinct(order, max);
      SortSorts(found);
      SortMembers(found);
    }
  }

  /** When the whole backlog fits the limit, the batch is the whole backlog; a batch that leaves files
    * out is picked by the order of the directory. */
  lemma BatchIsGlobal(cfg: Config, b: Breaker, env: Env, pending: Files)
    requires cfg.Valid() && ShortNames(pending.Keys)
    requires env.listing.Some? && Lists(env.listing.value, pending.Keys)
    ensures |Batch(cfg, b, env)| == Min(|ListableOf(pending.Keys)|, BatchLimit(cfg, b))
    ensures |ListableOf(pending.Keys)| <= BatchLimit(cfg, b) ==> Lists(Batch(cfg, b, env), ListableOf(pending.Keys))
  {
    var order, max := env.listing.value, BatchLimit(cfg, b);
    FullListing(order, pending.Keys);
    ListingSize(Listing(order, 0), ListableOf(pending.Keys));
    SortSorts(Clipped(FirstListable(order, 0)));
    SortSorts(Clipped(FirstListable(order, max)));
    FirstListableSize(order, max);
    if |ListableOf(pending.Keys)| <= max {
      FirstListableFits(order, max);
    }
  }

  lemma {:induction false} FirstListableSize(order: seq<Name>, max: nat)
    requires max > 0
    ensures |FirstListable(order, max)| == Min(|FirstListable(order, 0)|, max)
  {
    if order != [] {
      if !Listable(order[0]) {
        FirstListableSize(order[1..], max);
      } else if max > 1 {
        FirstListableSize(order[1..], max - 1);
      }
    }
  }

  /** No listable name is older than one of the batch and not in it. */
  ghost predicate OldestOf(batch: seq<Name>, names: set<Name>) {
    forall m, n :: n in batch && m in ListableOf(names) && Less(m, n) ==> m in batch
  }

  /** Every order in which the directory may give its entries makes the batch the oldest part of the backlog
    * if and only if the whole backlog fits the batch. */
  lemma OldestIffFits(names: set<Name>, cfg: Config, b: Breaker)
    requires cfg.Valid() && ShortNames(names)
    ensures (forall order :: Lists(order, names) ==> OldestOf(Listing(order, BatchLimit(cfg, b)), names))
       <==> |ListableOf(names)| <= BatchLimit(cfg, b)
  {
    hide Listing, OldestOf, ListableOf, ShortNames;
    var max := BatchLimit(cfg, b);
    if |ListableOf(names)| <= max {
      forall order | Lists(order, names) ensures OldestOf(Listing(order, max), names) {
        FittingIsOldest(order, names, max);
      }
    } else {
      var order := OldestLast(names, max);
    }
  }

  lemma FittingIsOldest(order: seq<Name>, names: set<Name>, max: nat)
    requires Lists(order, names) && ShortNames(names) && |ListableOf(names)| <= max
    ensures OldestOf(Listing(order, max), names)
  {
    hide ListableOf, ShortNames;
    ListingCounts(order, names);
    FirstListableFits(order, max);
    FullListing(order, names);
  }

  lemma ListsWith(others: seq<Name>, names: set<Name>, n: Name)
    requires n in names && Lists(others, names - {n})
    ensures Lists(others + [n], names)
  {
  }

  /** When the backlog does not fit, a directory that gives its oldest file last keeps it out of the batch. */
  lemma OldestLast(names: set<Name>, max: nat) returns (order: seq<Name>)
    requires ShortNames(names) && 0 < max < |ListableOf(names)|
    ensures Lists(order, names) && !OldestOf(Listing(order, max), names)
  {
    hide Less, Sort;
    var some := SomeListing(names);
    var listing, listable := Listing(some, 0), ListableOf(names);
    FullListing(some, names);
    ListingSize(listing, listable);
    var oldest := listing[0];
    IndexIsAge(listing, listable, 0);
    var others := SomeListing(names - {oldest});
    order := others + [oldest];
    assert oldest in listing && oldest in listable;
    ListsWith(others, names, oldest);
    assert ListableOf(names - {oldest}) == listable - {oldest};
    ListingCounts(others, names - {oldest});
    FirstListableOfFront(others, [oldest], max);
    var found := FirstListable(order, max);
    FirstListableSize(others, max);
    assert forall x :: x in found ==> x in others && Listable(x);
    assert forall x :: x in found ==> x in listable;
    ClippedShort(found);
    SortSorts(found);
    SortMembers(found);
    var n := found[0];
    assert n in listable && n != oldest && n in Listing(order, max);
    LessTotal(n, oldest);
    assert n !in Older(oldest, listable);
  }

  lemma {:induction false} FirstListableOfFront(front: seq<Name>, back: seq<Name>, max: nat)
    requires 0 < max <= |FirstListable(front, 0)|
    ensures FirstListable(front + back, max) == FirstListable(front, max)
  {
    assert (front + back)[0] == front[0] && (front + back)[1..] == front[1..] + back;
    if !Listable(front[0]) {
      FirstListableOfFront(front[1..], back, max);
    } else if max > 1 {
      FirstListableOfFront(front[1..], back, max - 1);
    }
  }

  /** What a cycle may assume of the listing it is given. */
  ghost predicate Fits(w: World, env: Env) {
    ShortNames(w.pending.Keys) && (env.listing.Some? ==> Lists(env.listing.value, w.pending.Keys))
  }

  /** What the two looks at the clock leave. */
  function Looks(w: World, cfg: Config, env: Env): World {
    w.Tick(cfg.primary, env.recoverAt).Tick(Active(w, cfg, env.recoverAt), env.allowAt)
  }

  /** The breaker that a cycle consults, after its looks at the clock. */
  function Consulted(w: World, cfg: Config, env: Env): Breaker {
    Looks(w, cfg, env).BreakerOf(Active(w, cfg, env.recoverAt))
  }

  /** Whether a cycle gets as far as sending. */
  predicate Sends(w: World, cfg: Config, env: Env) {
    cfg.Enabled(Active(w, cfg, env.recoverAt)) && Consulted(w, cfg, env).state != Open
  }

  lemma LooksAreSimple(w: World, cfg: Config, env: Env)
    ensures var i, w2 := Active(w, cfg, env.recoverAt), Looks(w, cfg, env);
      && Select(cfg, w.Tick(cfg.primary, env.recoverAt)) == i
      && w2.pending == w.pending && w2.sent == w.sent && w2.BreakerOf(i) == Consulted(w, cfg, env)
      && (w2.BreakerOf(i).state == Closed <==> w.BreakerOf(i).state == Closed)
      && (i != cfg.primary ==> w2.BreakerOf(cfg.primary) == w.BreakerOf(cfg.primary))
  {
  }

  /** While the clock does not go back between the two looks, only the second one counts. */
  lemma SecondLookCounts(w: World, cfg: Config, env: Env)
    requires env.recoverAt <= env.allowAt
    ensures var i := Active(w, cfg, env.recoverAt);
      && Consulted(w, cfg, env) == Ticked(w.BreakerOf(i), env.allowAt)
      && (Sends(w, cfg, env) <==> cfg.Enabled(i) && !Unexpired(w.BreakerOf(i), env.allowAt))
  {
  }

  /** A cycle in terms of the state it starts from. */
  lemma TrySendIs(w: World, cfg: Config, env: Env)
    ensures var i, w2 := Active(w, cfg, env.recoverAt), Looks(w, cfg, env);
      var sent := SendBatch(w2, cfg, i, Batch(cfg, w2.BreakerOf(i), env), env);
      if Sends(w, cfg, env) then
        TrySend(w, cfg, env) == Prefixed([Looked(cfg.primary, env.recoverAt), Looked(i, env.allowAt)], sent)
      else
        TrySend(w, cfg, env).world.pending == w.pending && (forall e :: e in TrySend(w, cfg, env).log ==> e.Looked?)
  {
    hide SendBatch, Batch, Ticked, Active;
    LooksAreSimple(w, cfg, env);
    var i, w2 := Active(w, cfg, env.recoverAt), Looks(w, cfg, env);
    if !cfg.Enabled(i) {
      DisabledSends(w2, cfg, i, Batch(cfg, w2.BreakerOf(i), env), env);
    }
  }

  lemma {:induction false} DisabledSends(w: World, cfg: Config, i: Interface, batch: seq<Name>, env: Env)
    requires !cfg.Enabled(i)
    ensures SendBatch(w, cfg, i, batch, env) == Outcome(w, [])
    decreases batch
  {
    if batch != [] {
      DisabledSends(w, cfg, i, batch[1..], env);
    }
  }

  /** The attempts of a cycle, exactly: on the active interface, the readable part of the batch up to the
    * first failure, when that interface is enabled and its breaker is not waiting; none otherwise. */
  lemma CycleAttempts(w: World, cfg: Config, env: Env)
    requires cfg.Valid() && Fits(w, env)
    ensures AttemptsOnlyOn(TrySend(w, cfg, env).log, Active(w, cfg, env.recoverAt))
    ensures AttemptedNames(TrySend(w, cfg, env).log)
         == if Sends(w, cfg, env)
            then UpToFailure(ReadableOf(Batch(cfg, Consulted(w, cfg, env), env), w.pending, env), env)
            else []
  {
    hide SendBatch, Batch, Ticked, UpToFailure, AttemptedNames, TrySend, Sends, Consulted, Looks, Active;
    TrySendIs(w, cfg, env);
    LooksAreSimple(w, cfg, env);
    if Sends(w, cfg, env) {
      assert cfg.Enabled(Active(w, cfg, env.recoverAt)) by { SendsEnabled(w, cfg, env); }
      var i, w2 := Active(w, cfg, env.recoverAt), Looks(w, cfg, env);
      var looks := [Looked(cfg.primary, env.recoverAt), Looked(i, env.allowAt)];
      var batch := Batch(cfg, w2.BreakerOf(i), env);
      BatchIsSound(cfg, w2.BreakerOf(i), env, w.pending);
      SendBatchInterface(w2, cfg, i, batch, env);
      AttemptsFollowBatch(w2, cfg, i, batch, env);
      QuietNames(looks);
      AttemptedAppend(looks, SendBatch(w2, cfg, i, batch, env).log);
    } else {
      QuietNames(TrySend(w, cfg, env).log);
    }
  }

  /** In a cycle from any state: one interface at most is attempted, and it is enabled; the secondary one
    * exactly when it is enabled and the primary is open with time to wait; and no interface whose own
    * breaker is open with time to wait. Otherwise, something is attempted as soon as something can be read. */
  lemma FailoverRules(w: World, cfg: Config, env: Env)
    requires env.recoverAt <= env.allowAt
    ensures var log, primary, secondary := TrySend(w, cfg, env).log, cfg.primary, Other(cfg.primary);
      var i := if Unexpired(w.BreakerOf(primary), env.recoverAt) && cfg.Enabled(secondary) then secondary else primary;
      && AttemptsOnlyOn(log, i)
      && (forall e :: e in log && e.Attempted? ==>
            cfg.Enabled(e.iface) && !Unexpired(w.BreakerOf(e.iface), env.allowAt))
      && (cfg.Valid() && Fits(w, env) ==>
            ((exists e :: e in log && e.Attempted?)
             <==> cfg.Enabled(i) && !Unexpired(w.BreakerOf(i), env.allowAt)
                  && ReadableOf(Batch(cfg, Consulted(w, cfg, env), env), w.pending, env) != []))
  {
    hide TrySend, SendBatch, Batch, ReadableOf, AttemptedNames, Consulted, Looks, Fits, Sends;
    TrySendIs(w, cfg, env);
    SecondLookCounts(w, cfg, env);
    var i, w2 := Active(w, cfg, env.recoverAt), Looks(w, cfg, env);
    SendBatchInterface(w2, cfg, i, Batch(cfg, w2.BreakerOf(i), env), env);
    if cfg.Valid() && Fits(w, env) {
      CycleAttempts(w, cfg, env);
      AttemptedSome(TrySend(w, cfg, env).log);
    }
  }

  lemma {:induction false} AttemptedSome(log: seq<Entry>)
    ensures AttemptedNames(log) == [] <==> forall e :: e in log ==> !e.Attempted?
  {
    if log != [] {
      AttemptedSome(log[1..]);
    }
  }

  lemma SendsEnabled(w: World, cfg: Config, env: Env)
    requires Sends(w, cfg, env)
    ensures cfg.Enabled(Active(w, cfg, env.recoverAt)) && Consulted(w, cfg, env).state != Open
  {
  }

  /** Attempts go from older to newer, at most `fifoMax` and so at most 50 of them, one on a half-open
    * breaker; all but the last one succeeded. */
  lemma CycleAttemptsOrdered(w: World, cfg: Config, env: Env)
    requires cfg.Valid() && Fits(w, env)
    ensures var names := AttemptedNames(TrySend(w, cfg, env).log);
      && Ascending(names) && |names| <= BatchLimit(cfg, Consulted(w, cfg, env)) <= 50
      && forall k :: 0 <= k < |names| - 1 ==> env.answers(names[k]) == Ok
  {
    hide UpToFailure, ReadableOf, Batch, TrySend, Consulted, AttemptedNames, Sends, Active;
    var batch := Batch(cfg, Consulted(w, cfg, env), env);
    CycleAttempts(w, cfg, env);
    BatchIsSound(cfg, Consulted(w, cfg, env), env, w.pending);
    ReadableSubsequence(batch, w.pending, env);
    OnlyLastFails(ReadableOf(batch, w.pending, env), env);
  }

  /** The first cycle at or after the primary's retry time goes back to the primary: if that is enabled it
    * attempts the one file of its batch, when it can be read, and nothing else. */
  lemma Failback(w: World, cfg: Config, env: Env)
    requires cfg.Valid() && Fits(w, env) && env.recoverAt <= env.allowAt
    requires var b := w.BreakerOf(cfg.primary); b.state == Open && b.nextRetry <= env.recoverAt
    ensures AttemptsOnlyOn(TrySend(w, cfg, env).log, cfg.primary)
    ensures var batch := Batch(cfg, w.BreakerOf(cfg.primary).(state := HalfOpen), env);
      && |batch| == (if env.listing.Some? then Min(|ListableOf(w.pending.Keys)|, 1) else 0)
      && AttemptedNames(TrySend(w, cfg, env).log)
         == if cfg.Enabled(cfg.primary) then ReadableOf(batch, w.pending, env) else []
  {
    hide TrySend, AttemptedNames, Batch, ReadableOf;
    var b := w.BreakerOf(cfg.primary).(state := HalfOpen);
    CycleAttempts(w, cfg, env);
    assert Consulted(w, cfg, env) == b;
    BatchIsSound(cfg, b, env, w.pending);
    if env.listing.Some? {
      BatchIsGlobal(cfg, b, env, w.pending);
    } else {
      assert Batch(cfg, b, env) == [] by { NoListing(cfg, b, env); }
    }
    var readable := ReadableOf(Batch(cfg, b, env), w.pending, env);
    ReadableSubsequence(Batch(cfg, b, env), w.pending, env);
    OnlyLastFails(readable, env);
  }

  lemma NoListing(cfg: Config, b: Breaker, env: Env)
    requires env.listing.None?
    ensures Batch(cfg, b, env) == []
  {
  }

  lemma {:induction false} ReadableComplete(batch: seq<Name>, pending: Files, env: Env)
    ensures forall n :: n in batch && n in pending && env.readable(n) ==> n in ReadableOf(batch, pending, env)
  {
    if batch != [] {
      ReadableComplete(batch[1..], pending, env);
    }
  }

  /** When the backlog fits the batch, no file is attempted before an older one that can be read. */
  lemma OldestFirst(w: World, cfg: Config, env: Env)
    requires cfg.Valid() && Fits(w, env) && env.listing.Some?
    requires |ListableOf(w.pending.Keys)| <= BatchLimit(cfg, Consulted(w, cfg, env))
    ensures var names := AttemptedNames(TrySend(w, cfg, env).log);
      forall m, n :: n in names && m in w.pending && Listable(m) && env.readable(m) && Less(m, n) ==> m in names
  {
    hide UpToFailure, ReadableOf, Batch, TrySend, Consulted, AttemptedNames, Sends, Less;
    var b := Consulted(w, cfg, env);
    var names, batch := AttemptedNames(TrySend(w, cfg, env).log), Batch(cfg, b, env);
    var readable := ReadableOf(batch, w.pending, env);
    CycleAttempts(w, cfg, env);
    BatchIsSound(cfg, b, env, w.pending);
    BatchIsGlobal(cfg, b, env, w.pending);
    ReadableSubsequence(batch, w.pending, env);
    ReadableComplete(batch, w.pending, env);
    OnlyLastFails(readable, env);
    forall m, n | n in names && m in w.pending && Listable(m) && env.readable(m) && Less(m, n)
      ensures m in names
    {
      OlderInPrefix(names, readable, m, n);
    }
  }

  lemma OlderInPrefix(names: seq<Name>, all: seq<Name>, m: Name, n: Name)
    requires names <= all && Ascending(all) && n in names && m in all && Less(m, n)
    ensures m in names
  {
    var j :| 0 <= j < |names| && names[j] == n;
    var k :| 0 <= k < |all| && all[k] == m;
    assert all[j] == n;
    LessIrreflexive(m);
    assert k < j;
    assert names[k] == m;
  }

  /** Two records and a batch of one: the directory gives the newer one first, and that one is sent. */
  lemma NewerIsSentFirst()
    ensures var older, newer := RecordName(1), RecordName(2);
      var w := World(map[older := [1], newer := [2]], map[], Initial, Initial);
      var cfg := Config(Api, true, true, 1, 1000, Settings(5, 60, 300));
      forall env: Env :: env.listing == Some([newer, older]) && env.readable(newer) ==>
        Fits(w, env) && Less(older, newer) && AttemptedNames(TrySend(w, cfg, env).log) == [newer]
  {
    var older, newer := RecordName(1), RecordName(2);
    var w := World(map[older := [1], newer := [2]], map[], Initial, Initial);
    var cfg := Config(Api, true, true, 1, 1000, Settings(5, 60, 300));
    RecordNameIsListable(1);
    RecordNameIsListable(2);
    RecordNamesDiffer(1, 2);
    NameOrder(1, 2);
    ListingOfTwo(newer, older);
    forall env: Env | env.listing == Some([newer, older]) && env.readable(newer)
      ensures Fits(w, env) && AttemptedNames(TrySend(w, cfg, env).log) == [newer]
    {
      assert forall n :: n in [newer, older] <==> n in w.pending.Keys;
      assert Fits(w, env);
      CycleAttempts(w, cfg, env);
      assert Sends(w, cfg, env) && Batch(cfg, Consulted(w, cfg, env), env) == [newer];
      var batch: seq<Name> := [newer];
      assert batch[1..] == [];
      assert ReadableOf(batch, w.pending, env) == batch;
    }
  }

  lemma ListingOfTwo(first: Name, second: Name)
    requires Listable(first) && |first| <= NAME_LIMIT
    ensures Listing([first, second], 1) == [first]
  {
    assert FirstListable([first, second], 1) == [first];
    assert Clipped([first]) == [first] && Sort([]) == [] && Sort([first]) == [first];
  }

  // ---- Draining a backlog ----

  /** Storage and the interface work. */
  ghost predicate Healthy(env: Env) {
    && (forall n :: env.readable(n) && env.answers(n) == Ok && env.moves(n))
    && env.listing.Some? && env.recoverAt <= env.allowAt
  }

  lemma {:induction false} HealthyBatch(w: World, cfg: Config, i: Interface, batch: seq<Name>, env: Env)
    requires Healthy(env) && cfg.Enabled(i) && Distinct(batch)
    requires forall n :: n in batch ==> n in w.pending
    ensures var after := SendBatch(w, cfg, i, batch, env).world;
      && after.pending.Keys == w.pending.Keys - (set n | n in batch)
      && after.BreakerOf(Other(i)) == w.BreakerOf(Other(i))
      && after.BreakerOf(i).state == if batch == [] then w.BreakerOf(i).state else Closed
    decreases batch
  {
    hide Rotated, FiledLog, AfterRotation;
    if batch != [] {
      var n, rest := batch[0], batch[1..];
      assert n !in rest;
      var w' := Filed(w, cfg, n, env).With(i, Succeeded(w.BreakerOf(i)));
      HealthyBatch(w', cfg, i, rest, env);
      assert (set m | m in batch) == (set m | m in rest) + {n};
    }
  }

  function FullBatches(cycles: nat, fifoMax: nat): nat {
    cycles * fifoMax
  }

  lemma MinusTwice(n: nat, m: nat, k: nat)
    ensures Minus(Minus(n, m), FullBatches(k, m)) == Minus(n, FullBatches(k + 1, m))
    ensures Minus(0, FullBatches(k, m)) == 0 && Minus(0, FullBatches(k + 1, m)) == 0 && Minus(n, FullBatches(0, m)) == n
  {
    assert (k + 1) * m == k * m + m;
  }

  /** Only records are pending. */
  predicate OnlyRecords(w: World) {
    ListableOf(w.pending.Keys) == w.pending.Keys
  }

  /** A healthy cycle that gets as far as sending, on whichever interface, shortens the backlog by its batch
    * limit, closes the breaker of that interface and leaves the other one alone. */
  lemma HealthyCycle(w: World, cfg: Config, env: Env)
    requires cfg.Valid() && Healthy(env) && Fits(w, env) && Sends(w, cfg, env)
    requires OnlyRecords(w) && w.pending != map[]
    ensures var after, i := TrySend(w, cfg, env).world, Active(w, cfg, env.recoverAt);
      && OnlyRecords(after) && after.BreakerOf(i).state == Closed
      && |after.pending| == Minus(|w.pending|, if w.BreakerOf(i).state == Closed then cfg.fifoMax else 1)
      && (i != cfg.primary ==> after.BreakerOf(cfg.primary) == w.BreakerOf(cfg.primary))
  {
    hide SendBatch, Batch, TrySend, Ticked, Consulted, Looks, Active, Sends, ShortNames, ListableOf;
    TrySendIs(w, cfg, env);
    LooksAreSimple(w, cfg, env);
    SendsEnabled(w, cfg, env);
    var i, w2 := Active(w, cfg, env.recoverAt), Looks(w, cfg, env);
    var batch := Batch(cfg, w2.BreakerOf(i), env);
    BatchIsSound(cfg, w2.BreakerOf(i), env, w.pending);
    BatchIsGlobal(cfg, w2.BreakerOf(i), env, w.pending);
    HealthyBatch(w2, cfg, i, batch, env);
    BatchRemoved(batch, w.pending.Keys);
    FewerRecords(w, TrySend(w, cfg, env).world);
  }

  lemma FewerRecords(w: World, after: World)
    requires OnlyRecords(w) && after.pending.Keys <= w.pending.Keys
    ensures OnlyRecords(after)
  {
    assert forall n :: n in after.pending.Keys ==> n in ListableOf(w.pending.Keys);
  }

  lemma BatchRemoved(batch: seq<Name>, names: set<Name>)
    requires Distinct(batch) && forall n :: n in batch ==> n in names
    ensures |names - (set n | n in batch)| == |names| - |batch|
  {
    var taken := set n | n in batch;
    ListingSize(batch, taken);
    SubsetSize(taken, names);
  }

  /** Sending cycles without new captures. */
  function TrySends(w: World, cfg: Config, envs: seq<Env>): World
    decreases |envs|
  {
    if envs == [] then w else TrySends(TrySend(w, cfg, envs[0]).world, cfg, envs[1..])
  }

  ghost predicate HealthyRun(w: World, cfg: Config, envs: seq<Env>)
    decreases |envs|
  {
    envs == [] || (Healthy(envs[0]) && Fits(w, envs[0]) && HealthyRun(TrySend(w, cfg, envs[0]).world, cfg, envs[1..]))
  }

  lemma TrySendsStep(w: World, cfg: Config, envs: seq<Env>)
    requires envs != []
    ensures TrySends(w, cfg, envs) == TrySends(TrySend(w, cfg, envs[0]).world, cfg, envs[1..])
    ensures HealthyRun(w, cfg, envs) ==>
      Healthy(envs[0]) && Fits(w, envs[0]) && HealthyRun(TrySend(w, cfg, envs[0]).world, cfg, envs[1..])
  {
    hide TrySend;
  }

  lemma TrySendsNone(w: World, cfg: Config)
    ensures TrySends(w, cfg, []) == w
  {
  }

  /** The primary serves while it is closed; the secondary, while the primary is open and waits longer than
    * the run. */
  ghost predicate Serves(i: Interface, w: World, cfg: Config, envs: seq<Env>) {
    && cfg.Enabled(i)
    && (i != cfg.primary ==> forall k :: 0 <= k < |envs| ==> Unexpired(w.BreakerOf(cfg.primary), envs[k].recoverAt))
  }

  lemma ServesRest(i: Interface, w: World, w': World, cfg: Config, envs: seq<Env>)
    requires Serves(i, w, cfg, envs) && envs != []
    requires i != cfg.primary ==> w'.BreakerOf(cfg.primary) == w.BreakerOf(cfg.primary)
    ensures Serves(i, w', cfg, envs[1..])
  {
    assert forall k :: 0 <= k < |envs| - 1 ==> envs[1..][k] == envs[k + 1];
  }

  /** A serving interface is used, if its own breaker is not waiting. */
  lemma ServingSends(i: Interface, w: World, cfg: Config, envs: seq<Env>)
    requires Serves(i, w, cfg, envs) && envs != [] && Healthy(envs[0])
    requires !Unexpired(w.BreakerOf(i), envs[0].recoverAt)
    ensures Active(w, cfg, envs[0].recoverAt) == i && Sends(w, cfg, envs[0])
  {
  }

  /** A backlog behind a closed interface, primary or secondary, shrinks by a full batch each cycle. */
  lemma {:induction false} DrainClosed(i: Interface, w: World, cfg: Config, envs: seq<Env>)
    requires cfg.Valid() && OnlyRecords(w) && HealthyRun(w, cfg, envs) && Serves(i, w, cfg, envs)
    requires w.pending != map[] ==> w.BreakerOf(i).state == Closed
    ensures |TrySends(w, cfg, envs).pending| == Minus(|w.pending|, FullBatches(|envs|, cfg.fifoMax))
    decreases |envs|
  {
    hide TrySend, TrySends, HealthyRun, Healthy, Minus, FullBatches, Serves, Sends, Active, OnlyRecords;
    if envs == [] {
      TrySendsNone(w, cfg);
      MinusTwice(|w.pending|, cfg.fifoMax, 0);
    } else {
      var w' := TrySend(w, cfg, envs[0]).world;
      TrySendsStep(w, cfg, envs);
      if w.pending == map[] {
        NothingToSend(i, w, cfg, envs);
      } else {
        ServingSends(i, w, cfg, envs);
        HealthyCycle(w, cfg, envs[0]);
      }
      ServesRest(i, w, w', cfg, envs);
      DrainClosed(i, w', cfg, envs[1..]);
      MinusTwice(|w.pending|, cfg.fifoMax, |envs[1..]|);
      assert |envs| == |envs[1..]| + 1;
    }
  }

  lemma {:induction false} NothingInBatch(w: World, cfg: Config, i: Interface, batch: seq<Name>, env: Env)
    requires w.pending == map[]
    ensures SendBatch(w, cfg, i, batch, env).world == w
    decreases batch
  {
    if batch != [] {
      NothingInBatch(w, cfg, i, batch[1..], env);
    }
  }

  lemma NothingToSend(i: Interface, w: World, cfg: Config, envs: seq<Env>)
    requires w.pending == map[] && envs != [] && Serves(i, w, cfg, envs)
    ensures var after := TrySend(w, cfg, envs[0]).world;
      && after.pending == map[] && OnlyRecords(after)
      && (i != cfg.primary ==> after.BreakerOf(cfg.primary) == w.BreakerOf(cfg.primary))
  {
    var env := envs[0];
    var w1 := w.Tick(cfg.primary, env.recoverAt);
    var j := Select(cfg, w1);
    var w2 := w1.Tick(j, env.allowAt);
    NothingInBatch(w2, cfg, j, Batch(cfg, w2.BreakerOf(j), env), env);
  }

  /** One file through the half-open breaker, then full batches. */
  function SentAfter(cycles: nat, fifoMax: nat): nat {
    if cycles == 0 then 0 else 1 + FullBatches(cycles - 1, fifoMax)
  }

  /** 1 + ceil((n - 1) / fifoMax). */
  function CyclesToDrain(n: nat, fifoMax: nat): nat {
    if n == 0 || fifoMax == 0 then 0 else 1 + (n - 1 + fifoMax - 1) / fifoMax
  }

  /** A backlog behind an interface that is not closed but may be tried: healthy cycles shorten it by what
    * SentAfter says, so it drains in CyclesToDrain cycles and no fewer. The interface is the primary whose
    * time has come, or the secondary while the primary waits. */
  lemma BacklogDrains(i: Interface, w: World, cfg: Config, envs: seq<Env>)
    requires cfg.Valid() && OnlyRecords(w) && w.pending != map[]
    requires envs != [] && HealthyRun(w, cfg, envs) && Serves(i, w, cfg, envs)
    requires w.BreakerOf(i).state != Closed && !Unexpired(w.BreakerOf(i), envs[0].recoverAt)
    ensures |TrySends(w, cfg, envs).pending| == Minus(|w.pending|, SentAfter(|envs|, cfg.fifoMax))
    ensures TrySends(w, cfg, envs).pending == map[] <==> |envs| >= CyclesToDrain(|w.pending|, cfg.fifoMax)
  {
    hide TrySend, TrySends, HealthyRun, Healthy, FullBatches, Serves, Sends, Active, OnlyRecords;
    var w' := TrySend(w, cfg, envs[0]).world;
    TrySendsStep(w, cfg, envs);
    ServingSends(i, w, cfg, envs);
    HealthyCycle(w, cfg, envs[0]);
    ServesRest(i, w, w', cfg, envs);
    DrainClosed(i, w', cfg, envs[1..]);
    DrainedWhen(|w.pending|, cfg.fifoMax, |envs|);
  }

  lemma DrainedWhen(n: nat, m: nat, k: nat)
    requires n > 0 && m > 0 && k > 0
    ensures Minus(Minus(n, 1), FullBatches(k - 1, m)) == Minus(n, SentAfter(k, m))
    ensures Minus(n, SentAfter(k, m)) == 0 <==> k >= CyclesToDrain(n, m)
  {
    assert (k - 1) * m >= 0;
    CeilingDivision(n - 1, m, k - 1);
  }

  lemma CeilingDivision(a: nat, m: nat, k: nat)
    requires m > 0
    ensures a <= k * m <==> (a + m - 1) / m <= k
  {
    var q := (a + m - 1) / m;
    DivisionBounds(a + m - 1, m);
    if q <= k {
      ProductGrows(q, k, m);
    } else {
      ProductGrows(k + 1, q, m);
      OneMore(k, m);
    }
  }

  lemma DivisionBounds(a: nat, m: nat)
    requires m > 0
    ensures (a / m) * m <= a < (a / m) * m + m
  {
    assert a == m * (a / m) + a % m;
  }

  lemma OneMore(k: nat, m: nat)
    ensures (k + 1) * m == k * m + m
  {
  }

  lemma {:induction false} ProductGrows(x: nat, y: nat, m: nat)
    requires x <= y
    ensures x * m <= y * m
    decreases y
  {
    if x < y {
      ProductGrows(x, y - 1, m);
      OneMore(y - 1, m);
    }
  }

  // ---- Retention ----

  /** Directories can be listed and files deleted; everything else may fail. */
  ghost predicate RotationsWork(env: Env) {
    forall n :: env.rotations(n).counts && env.rotations(n).lists && forall m :: env.rotations(n).deletes(m)
  }

  /** Names in both directories that a listing does not cut. */
  ghost predicate Tidy(w: World) {
    ShortNames(w.pending.Keys) && ShortNames(w.sent.Keys)
  }

  /** A delivery whose rotation works leaves at most `retention` records in sent, the newest ones; one whose
    * listings fail removes nothing. */
  lemma RetentionHolds(w: World, cfg: Config, n: Name, env: Env)
    requires n in w.pending && Tidy(w)
    ensures var after, r := Filed(w, cfg, n, env).sent.Keys, env.rotations(n);
      && (!r.counts || !r.lists ==> after == SentNames(w, n, env.moves(n)))
      && (r.counts && r.lists && (forall m :: r.deletes(m)) ==>
            && |ListableOf(after)| <= cfg.retention
            && forall x, y :: x in SentNames(w, n, env.moves(n)) - after && y in ListableOf(after) ==> Less(x, y))
  {
    hide Rotated, ShortNames, ListableOf, Less;
    var moved := if env.moves(n) then w.sent[n := w.pending[n]] else w.sent;
    ShortAfterMove(w.pending.Keys, w.sent.Keys, n);
    assert moved.Keys == SentNames(w, n, env.moves(n));
    if forall m :: env.rotations(n).deletes(m) {
      RotationKeepsNewest(moved, cfg.retention, env.rotations(n).deletes);
    }
  }

  /** What a cycle keeps of sent: it is as it was found, or within the retention since the first delivery. */
  ghost predicate Bounded(found: Files, cfg: Config, w: World, log: seq<Entry>) {
    && Tidy(w)
    && if exists e :: e in log && e.RotatedOut? then |ListableOf(w.sent.Keys)| <= cfg.retention else w.sent == found
  }

  lemma BoundedQuietly(found: Files, cfg: Config, w: World, w': World, log: seq<Entry>, more: seq<Entry>)
    requires Bounded(found, cfg, w, log) && w'.sent == w.sent && ShortNames(w'.pending.Keys)
    requires forall e :: e in more ==> !e.RotatedOut?
    ensures Bounded(found, cfg, w', log + more)
  {
    hide ShortNames, ListableOf;
    assert (exists e :: e in log + more && e.RotatedOut?) <==> (exists e :: e in log && e.RotatedOut?);
  }

  lemma FiledIsBounded(found: Files, w: World, cfg: Config, i: Interface, n: Name, env: Env, log: seq<Entry>)
    requires Bounded(found, cfg, w, log) && RotationsWork(env) && n in w.pending && env.answers(n) == Ok
    ensures var more := [Attempted(i, n, w.pending[n], Ok, env.failAt)] + FiledLog(w, cfg, n, env);
      Bounded(found, cfg, Filed(w, cfg, n, env).With(i, Succeeded(w.BreakerOf(i))), log + more)
  {
    hide ShortNames, ListableOf, Filed;
    RetentionHolds(w, cfg, n, env);
    FiledIsTidy(w, cfg, n, env);
    var more := [Attempted(i, n, w.pending[n], Ok, env.failAt)] + FiledLog(w, cfg, n, env);
    assert more[2].RotatedOut? && more[2] in log + more;
  }

  lemma FiledIsTidy(w: World, cfg: Config, n: Name, env: Env)
    requires Tidy(w) && n in w.pending
    ensures Tidy(Filed(w, cfg, n, env))
  {
    hide ShortNames, Rotated;
    ShortAfterMove(w.pending.Keys, w.sent.Keys, n);
    var moved := if env.moves(n) then w.sent[n := w.pending[n]] else w.sent;
    assert moved.Keys == SentNames(w, n, env.moves(n));
    ShortAfterRotation(moved, cfg.retention, env.rotations(n).deletes);
  }

  lemma {:induction false} SendBatchIsBounded(
    found: Files, w: World, cfg: Config, i: Interface, batch: seq<Name>, env: Env, log: seq<Entry>)
    requires Bounded(found, cfg, w, log) && RotationsWork(env)
    ensures var o := Prefixed(log, SendBatch(w, cfg, i, batch, env)); Bounded(found, cfg, o.world, o.log)
    decreases batch
  {
    hide SendBatch, Filed, FiledLog, ShortNames, ListableOf;
    if batch == [] {
      BatchEnd(w, cfg, i, env, log);
    } else {
      var n := batch[0];
      BatchTurn(w, cfg, i, batch, env, log);
      if !(n in w.pending && env.readable(n)) {
        SendBatchIsBounded(found, w, cfg, i, batch[1..], env, log);
      } else if cfg.Enabled(i) {
        var attempt := Attempted(i, n, w.pending[n], env.answers(n), env.failAt);
        if env.answers(n) == Ok {
          FiledIsBounded(found, w, cfg, i, n, env, log);
          SendBatchIsBounded(found, Filed(w, cfg, n, env).With(i, Succeeded(w.BreakerOf(i))), cfg, i, batch[1..], env,
                             log + ([attempt] + FiledLog(w, cfg, n, env)));
        } else {
          BoundedQuietly(found, cfg, w, SendBatch(w, cfg, i, batch, env).world, log, [attempt]);
        }
      }
    }
  }

  lemma TrySendIsBounded(found: Files, w: World, cfg: Config, env: Env, log: seq<Entry>)
    requires Bounded(found, cfg, w, log) && RotationsWork(env)
    ensures var o := Prefixed(log, TrySend(w, cfg, env)); Bounded(found, cfg, o.world, o.log)
  {
    hide SendBatch, Batch, Ticked, Bounded;
    var w1 := w.Tick(cfg.primary, env.recoverAt);
    var i := Select(cfg, w1);
    var w2 := w1.Tick(i, env.allowAt);
    var first := [Looked(cfg.primary, env.recoverAt)];
    var both := [Looked(cfg.primary, env.recoverAt), Looked(i, env.allowAt)];
    assert ShortNames(w.pending.Keys) by { BoundedIsTidy(found, cfg, w, log); }
    BoundedQuietly(found, cfg, w, w1, log, first);
    BoundedQuietly(found, cfg, w, w2, log, both);
    if !(i == Mqtt && !cfg.mqttEnabled) && w2.BreakerOf(i).state != Open {
      var batch := Batch(cfg, w2.BreakerOf(i), env);
      SendBatchIsBounded(found, w2, cfg, i, batch, env, log + both);
      PrefixedTwice(log, both, SendBatch(w2, cfg, i, batch, env));
    }
  }

  lemma BoundedIsTidy(found: Files, cfg: Config, w: World, log: seq<Entry>)
    requires Bounded(found, cfg, w, log)
    ensures Tidy(w)
  {
  }

  lemma StoredIsBounded(found: Files, w: World, cfg: Config, env: Env, log: seq<Entry>)
    requires Bounded(found, cfg, w, log) && LONG_MIN <= env.ts <= LONG_MAX
    ensures var stored := Stored(w, env); Bounded(found, cfg, stored.world, log + stored.log)
  {
    hide RecordName, Listable, Bounded;
    var stored := Stored(w, env);
    RecordNameIsListable(env.ts);
    assert stored.world.pending.Keys <= w.pending.Keys + {RecordName(env.ts)};
    assert ShortNames(stored.world.pending.Keys) by { BoundedIsTidy(found, cfg, w, log); }
    BoundedQuietly(found, cfg, w, stored.world, log, stored.log);
  }

  lemma CycleIsBounded(found: Files, w: World, cfg: Config, env: Env, log: seq<Entry>)
    requires Bounded(found, cfg, w, log) && RotationsWork(env) && LONG_MIN <= env.ts <= LONG_MAX
    ensures var o := Prefixed(log, Cycle(w, cfg, env)); Bounded(found, cfg, o.world, o.log)
  {
    hide TrySend, Stored, Bounded;
    var stored := Stored(w, env);
    StoredIsBounded(found, w, cfg, env, log);
    TrySendIsBounded(found, stored.world, cfg, env, log + stored.log);
    PrefixedTwice(log, stored.log, TrySend(stored.world, cfg, env));
  }

  /** From directories that hold anything with short names, over every run in which rotations work, whatever
    * else fails: sent is untouched until the first delivery, and within the retention from then on. */
  lemma {:induction false} SentIsBounded(w: World, cfg: Config, envs: seq<Env>)
    requires cfg.Valid() && Tidy(w)
    requires forall k :: 0 <= k < |envs| ==> RotationsWork(envs[k]) && LONG_MIN <= envs[k].ts <= LONG_MAX
    ensures var o := Run(w, cfg, envs); Bounded(w.sent, cfg, o.world, o.log)
    decreases |envs|
  {
    hide Cycle, Tidy, ListableOf;
    if envs != [] {
      var earlier := envs[..|envs| - 1];
      SentIsBounded(w, cfg, earlier);
      var before := Run(w, cfg, earlier);
      CycleIsBounded(w.sent, before.world, cfg, envs[|envs| - 1], before.log);
    }
  }
}
