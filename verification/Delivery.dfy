/** One cycle of the daemon: store the new record, pick an interface, send a batch, file what was delivered. */
module Delivery {
  import opened Options
  import opened Bytes
  import opened FileNames
  import opened Persist
  import opened CircuitBreakers

  datatype Interface = Api | Mqtt

  datatype Config = Config(
    primary: Interface, apiEnabled: bool, mqttEnabled: bool,
    fifoMax: nat, retention: nat, settings: Settings)
  {
    predicate Valid() {
      1 <= fifoMax <= 50 && 1 <= retention <= 65535 && settings.Valid()
    }

    predicate Enabled(i: Interface) {
      if i == Api then apiEnabled else mqttEnabled
    }
  }

  /** How an enabled interface answers: HTTP and MQTT results fall into these three classes. */
  datatype Answer = Ok | TransientError | PersistentError

  /** What one rotation meets: whether its two listings open and which files can be removed. */
  datatype Rotation = Rotation(counts: bool, lists: bool, deletes: Name -> bool)

  /** Everything that the outside decides during a cycle. */
  datatype Env = Env(
    ts: int, json: ByteString, write: WriteOutcome,
    recoverAt: int, allowAt: int, failAt: int,
    listing: Option<seq<Name>>,
    readable: Name -> bool, answers: Name -> Answer, moves: Name -> bool, rotations: Name -> Rotation)

  datatype World = World(pending: Files, sent: Files, api: Breaker, mqtt: Breaker) {
    function BreakerOf(i: Interface): Breaker {
      if i == Api then api else mqtt
    }

    function With(i: Interface, b: Breaker): World {
      if i == Api then this.(api := b) else this.(mqtt := b)
    }

    function Tick(i: Interface, now: int): World {
      With(i, Ticked(BreakerOf(i), now))
    }
  }

  /** What happened, in order. */
  datatype Entry =
    | Created(name: Name, content: ByteString)
    | Looked(iface: Interface, now: int)
    | Attempted(iface: Interface, name: Name, content: ByteString, answer: Answer, now: int)
    | Moved(name: Name)
    | MoveFailed(name: Name)
    | RotatedOut(names: set<Name>)

  datatype Outcome = Outcome(world: World, log: seq<Entry>)

  function Prefixed(log: seq<Entry>, o: Outcome): Outcome {
    Outcome(o.world, log + o.log)
  }

  function Other(i: Interface): Interface {
    if i == Api then Mqtt else Api
  }

  /** The primary interface, unless its breaker is open and the other one is enabled. */
  function Select(cfg: Config, w: World): Interface {
    if w.BreakerOf(cfg.primary).state == Open && cfg.Enabled(Other(cfg.primary)) then Other(cfg.primary)
    else cfg.primary
  }

  /** The files of `w` after the delivery of `n`: moved if the rename works, then rotated. */
  function Filed(w: World, cfg: Config, n: Name, env: Env): World
    requires n in w.pending
  {
    var moved := if env.moves(n) then w.(pending := w.pending - {n}, sent := w.sent[n := w.pending[n]]) else w;
    moved.(sent := AfterRotation(moved.sent, cfg, env.rotations(n)))
  }

  function AfterRotation(sent: Files, cfg: Config, r: Rotation): Files {
    if r.counts && r.lists then Rotated(sent, cfg.retention, r.deletes) else sent
  }

  function FiledLog(w: World, cfg: Config, n: Name, env: Env): seq<Entry>
    requires n in w.pending
  {
    var before := if env.moves(n) then w.sent.Keys + {n} else w.sent.Keys;
    [if env.moves(n) then Moved(n) else MoveFailed(n), RotatedOut(before - Filed(w, cfg, n, env).sent.Keys)]
  }

  /** Sends the batch in its order and stops at the first failure. */
  function SendBatch(w: World, cfg: Config, i: Interface, batch: seq<Name>, env: Env): Outcome
    decreases batch
  {
    if batch == [] then Outcome(w, [])
    else
      var n := batch[0];
      if !(n in w.pending && env.readable(n)) then SendBatch(w, cfg, i, batch[1..], env)
      else if !cfg.Enabled(i) then Outcome(w, [])
      else
        var b, attempt := w.BreakerOf(i), Attempted(i, n, w.pending[n], env.answers(n), env.failAt);
        match env.answers(n)
        case TransientError => Outcome(w.With(i, TransientFailed(b, cfg.settings, env.failAt)), [attempt])
        case PersistentError => Outcome(w.With(i, PersistentFailed(b, cfg.settings, env.failAt)), [attempt])
        case Ok =>
          var rest := SendBatch(Filed(w, cfg, n, env).With(i, Succeeded(b)), cfg, i, batch[1..], env);
          Outcome(rest.world, [attempt] + FiledLog(w, cfg, n, env) + rest.log)
  }

  /** A half-open breaker lets one file through. */
  function BatchLimit(cfg: Config, b: Breaker): nat {
    if b.state == HalfOpen then 1 else cfg.fifoMax
  }

  function Batch(cfg: Config, b: Breaker, env: Env): seq<Name> {
    match env.listing
    case None => []
    case Some(order) => Listing(order, BatchLimit(cfg, b))
  }

  function TrySend(w: World, cfg: Config, env: Env): Outcome {
    var w1 := w.Tick(cfg.primary, env.recoverAt);
    var i := Select(cfg, w1);
    var looked := [Looked(cfg.primary, env.recoverAt)];
    if i == Mqtt && !cfg.mqttEnabled then Outcome(w1, looked)
    else
      var w2 := w1.Tick(i, env.allowAt);
      var lookedTwice := [Looked(cfg.primary, env.recoverAt), Looked(i, env.allowAt)];
      if w2.BreakerOf(i).state == Open then Outcome(w2, lookedTwice)
      else Prefixed(lookedTwice, SendBatch(w2, cfg, i, Batch(cfg, w2.BreakerOf(i), env), env))
  }

  function Stored(w: World, env: Env): Outcome {
    Outcome(w.(pending := Written(w.pending, env.ts, env.json, env.write)),
            match env.write
            case NotOpened => []
            case Complete => [Created(RecordName(env.ts), env.json)]
            case Partial(written, _) => [Created(RecordName(env.ts), written)])
  }

  function Cycle(w: World, cfg: Config, env: Env): Outcome {
    var stored := Stored(w, env);
    var sent := TrySend(stored.world, cfg, env);
    Outcome(sent.world, stored.log + sent.log)
  }

  /** The cycles of one process, from whatever it finds. */
  function Run(w: World, cfg: Config, envs: seq<Env>): Outcome {
    if envs == [] then Outcome(w, [])
    else
      var before := Run(w, cfg, envs[..|envs| - 1]);
      var last := Cycle(before.world, cfg, envs[|envs| - 1]);
      Outcome(last.world, before.log + last.log)
  }

  /** A new process knows nothing of earlier failures, and finds the directories as they were left. */
  function Booted(w: World): World {
    w.(api := Initial, mqtt := Initial)
  }

  /** One process: the configuration it read and the cycles until it was stopped. */
  datatype Life = Life(cfg: Config, envs: seq<Env>)

  /** One process after the other, on the same directories. */
  function Lives(w: World, lives: seq<Life>): Outcome {
    if lives == [] then Outcome(w, [])
    else
      var before, life := Lives(w, lives[..|lives| - 1]), lives[|lives| - 1];
      var last := Run(Booted(before.world), life.cfg, life.envs);
      Outcome(last.world, before.log + last.log)
  }

  // ---- The daemon ----

  lemma PrefixedTwice(a: seq<Entry>, b: seq<Entry>, o: Outcome)
    ensures Prefixed(a, Prefixed(b, o)) == Prefixed(a + b, o)
  {
    assert a + (b + o.log) == (a + b) + o.log;
  }

  /** One turn of the sending loop: the file cannot be read, the interface is disabled, or an attempt. */
  lemma BatchTurn(w: World, cfg: Config, i: Interface, batch: seq<Name>, env: Env, log: seq<Entry>)
    requires batch != []
    ensures var n, all := batch[0], Prefixed(log, SendBatch(w, cfg, i, batch, env));
      if !(n in w.pending && env.readable(n)) then all == Prefixed(log, SendBatch(w, cfg, i, batch[1..], env))
      else if !cfg.Enabled(i) then all == Outcome(w, log)
      else
        var b, attempt := w.BreakerOf(i), Attempted(i, n, w.pending[n], env.answers(n), env.failAt);
        match env.answers(n)
        case TransientError =>
          all == Outcome(w.With(i, TransientFailed(b, cfg.settings, env.failAt)), log + [attempt])
        case PersistentError =>
          all == Outcome(w.With(i, PersistentFailed(b, cfg.settings, env.failAt)), log + [attempt])
        case Ok =>
          all == Prefixed(log + ([attempt] + FiledLog(w, cfg, n, env)),
                          SendBatch(Filed(w, cfg, n, env).With(i, Succeeded(b)), cfg, i, batch[1..], env))
  {
    hide Filed, FiledLog, Succeeded, TransientFailed, PersistentFailed;
    var n := batch[0];
    assert log + [] == log;
    if n in w.pending && env.readable(n) && cfg.Enabled(i) && env.answers(n) == Ok {
      var attempt := Attempted(i, n, w.pending[n], env.answers(n), env.failAt);
      PrefixedTwice(log, [attempt] + FiledLog(w, cfg, n, env),
                    SendBatch(Filed(w, cfg, n, env).With(i, Succeeded(w.BreakerOf(i))), cfg, i, batch[1..], env));
    }
  }

  lemma BatchEnd(w: World, cfg: Config, i: Interface, env: Env, log: seq<Entry>)
    ensures Prefixed(log, SendBatch(w, cfg, i, [], env)) == Outcome(w, log)
  {
    assert log + [] == log;
  }

  lemma ShortAfterMove(pending: set<Name>, sent: set<Name>, n: Name)
    requires ShortNames(pending) && ShortNames(sent) && n in pending
    ensures ShortNames(pending - {n}) && ShortNames(sent + {n})
  {
    assert ListableOf(sent + {n}) <= ListableOf(sent) + ListableOf(pending);
  }

  lemma ShortAfterRotation(sent: Files, max: nat, deletes: Name -> bool)
    requires ShortNames(sent.Keys)
    ensures ShortNames(Rotated(sent, max, deletes).Keys)
  {
    assert ListableOf(Rotated(sent, max, deletes).Keys) <= ListableOf(sent.Keys);
  }

  class Daemon {
    const cfg: Config
    const pending: Directory
    const sent: Directory
    const cbApi: CircuitBreaker
    const cbMqtt: CircuitBreaker
    ghost var log: seq<Entry>

    /** The directories hold names that fit a PendingFileName, as record names do. */
    ghost predicate Valid()
      reads this, pending, sent, cbApi, cbMqtt
    {
      cfg.Valid() && pending != sent && cbApi != cbMqtt && ShortNames(pending.files.Keys) && ShortNames(sent.files.Keys)
    }

    ghost function State(): World
      reads pending, sent, cbApi, cbMqtt
    {
      World(pending.files, sent.files, cbApi.Value(), cbMqtt.Value())
    }

    /** The start of a process on two directories that may hold anything. */
    constructor (cfg: Config, pending: Directory, sent: Directory)
      requires cfg.Valid() && pending != sent && ShortNames(pending.files.Keys) && ShortNames(sent.files.Keys)
      ensures Valid() && this.cfg == cfg && this.pending == pending && this.sent == sent
      ensures State() == World(pending.files, sent.files, Initial, Initial) && log == []
    {
      this.cfg := cfg;
      this.pending := pending;
      this.sent := sent;
      cbApi := new CircuitBreaker();
      cbMqtt := new CircuitBreaker();
      log := [];
    }

    method SelectInterface() returns (iface: Interface, cb: CircuitBreaker)
      requires Valid()
      ensures iface == Select(cfg, State()) && cb == if iface == Api then cbApi else cbMqtt
      ensures cfg.primary == Api ==> (iface == Mqtt <==> cbApi.state == Open && cfg.mqttEnabled)
      ensures cfg.primary == Mqtt ==> (iface == Api <==> cbMqtt.state == Open && cfg.apiEnabled)
    {
      if cfg.primary == Api {
        if cbApi.state == Open && cfg.mqttEnabled {
          return Mqtt, cbMqtt;
        }
        return Api, cbApi;
      }
      if cbMqtt.state == Open && cfg.apiEnabled {
        return Api, cbApi;
      }
      return Mqtt, cbMqtt;
    }

    method TrySendPending(env: Env)
      requires Valid() && (env.listing.Some? ==> Lists(env.listing.value, pending.files.Keys))
      modifies this, pending, sent, cbApi, cbMqtt
      ensures Valid()
      ensures Outcome(State(), log) == Prefixed(old(log), TrySend(old(State()), cfg, env))
    {
      hide SendBatch, Batch, Ticked;
      ghost var start := log;
      var primaryCb := if cfg.primary == Api then cbApi else cbMqtt;
      primaryCb.MaybeRecover(env.recoverAt);
      log := start + [Looked(cfg.primary, env.recoverAt)];
      var iface, cb := SelectInterface();
      if iface == Mqtt && !cfg.mqttEnabled {
        return;
      }
      var allowed := cb.AllowSend(env.allowAt);
      ghost var looked := [Looked(cfg.primary, env.recoverAt), Looked(iface, env.allowAt)];
      log := start + looked;
      if !allowed {
        return;
      }
      ghost var w2 := State();
      SendFiles(iface, cb, env);
      PrefixedTwice(start, looked, SendBatch(w2, cfg, iface, Batch(cfg, w2.BreakerOf(iface), env), env));
    }

    method SendFiles(iface: Interface, cb: CircuitBreaker, env: Env)
      requires Valid() && cb == if iface == Api then cbApi else cbMqtt
      requires env.listing.Some? ==> Lists(env.listing.value, pending.files.Keys)
      modifies this, pending, sent, cb
      ensures Valid()
      ensures Outcome(State(), log)
           == Prefixed(old(log), SendBatch(old(State()), cfg, iface, Batch(cfg, old(cb.Value()), env), env))
    {
      hide SendBatch, Filed, FiledLog, Prefixed, Listing, ShortNames;
      var max := if cb.state == HalfOpen then 1 else cfg.fifoMax;
      var files := new Name[50];
      var count := pending.ListPending(env.listing, files, max);
      if count <= 0 {
        BatchEnd(State(), cfg, iface, env, log);
        return;
      }
      ghost var batch := files[..count];
      ghost var all := Prefixed(log, SendBatch(State(), cfg, iface, batch, env));
      var i := 0;
      assert batch[0..] == batch;
      while i < count
        invariant 0 <= i <= count
        invariant Valid() && files[..count] == batch
        invariant Prefixed(log, SendBatch(State(), cfg, iface, batch[i..], env)) == all
      {
        var name := files[i];
        assert name == batch[i..][0] && batch[i..][1..] == batch[i + 1..];
        BatchTurn(State(), cfg, iface, batch[i..], env, log);
        i := i + 1;
        if !(name in pending.files && env.readable(name)) {
          continue;
        }
        if !cfg.Enabled(iface) {
          return;
        }
        var stop := SendFile(iface, cb, name, env);
        if stop {
          return;
        }
      }
      assert batch[count..] == [];
      BatchEnd(State(), cfg, iface, env, log);
    }

    /** One attempt, with a file that could be read on an interface that is enabled. */
    method SendFile(iface: Interface, cb: CircuitBreaker, name: Name, env: Env) returns (stop: bool)
      requires Valid() && cb == (if iface == Api then cbApi else cbMqtt) && name in pending.files
      modifies this, pending, sent, cb
      ensures Valid()
      ensures stop <==> !env.answers(name).Ok?
      ensures var w, attempt :=
          old(State()), Attempted(iface, name, old(pending.files)[name], env.answers(name), env.failAt);
        match env.answers(name)
        case Ok =>
          State() == Filed(w, cfg, name, env).With(iface, Succeeded(w.BreakerOf(iface)))
          && log == old(log) + ([attempt] + FiledLog(w, cfg, name, env))
        case TransientError =>
          State() == w.With(iface, TransientFailed(w.BreakerOf(iface), cfg.settings, env.failAt))
          && log == old(log) + [attempt]
        case PersistentError =>
          State() == w.With(iface, PersistentFailed(w.BreakerOf(iface), cfg.settings, env.failAt))
          && log == old(log) + [attempt]
    {
      hide ShortNames, ListableOf, Filed, FiledLog;
      ghost var w := State();
      log := log + [Attempted(iface, name, pending.files[name], env.answers(name), env.failAt)];
      match env.answers(name)
      case Ok =>
        File(name, env);
        cb.OnSuccess();
        log := log + FiledLog(w, cfg, name, env);
        stop := false;
      case TransientError =>
        cb.OnTransientFail(cfg.settings, env.failAt);
        stop := true;
      case PersistentError =>
        cb.OnPersistentFail(cfg.settings, env.failAt);
        stop := true;
    }

    /** Moves the delivered file and rotates the others out; what either of them answers is ignored. */
    method File(name: Name, env: Env)
      requires Valid() && name in pending.files
      modifies pending, sent
      ensures Valid() && State() == Filed(old(State()), cfg, name, env)
    {
      hide ListableOf, Rotated;
      ShortAfterMove(pending.files.Keys, sent.files.Keys, name);
      ghost var before := sent.files[name := pending.files[name]];
      assert before.Keys == sent.files.Keys + {name};
      var _ := pending.MoveTo(sent, name, env.moves(name));
      var r := env.rotations(name);
      assert ShortNames(sent.files.Keys);
      ShortAfterRotation(sent.files, cfg.retention, r.deletes);
      var _ := sent.RotateSent(cfg.retention, r.counts, r.lists, r.deletes);
    }

    /** The main loop's body, once a record has been built. */
    method RunCycle(env: Env)
      requires Valid() && LONG_MIN <= env.ts <= LONG_MAX
      requires env.listing.Some? ==> Lists(env.listing.value, Stored(State(), env).world.pending.Keys)
      modifies this, pending, sent, cbApi, cbMqtt
      ensures Valid()
      ensures Outcome(State(), log) == Prefixed(old(log), Cycle(old(State()), cfg, env))
    {
      RecordNameIsListable(env.ts);
      ghost var stored := Stored(State(), env);
      var _ := pending.Write(env.ts, env.json, env.write);
      log := log + stored.log;
      PrefixedTwice(old(log), stored.log, TrySend(stored.world, cfg, env));
      TrySendPending(env);
    }
  }
}
