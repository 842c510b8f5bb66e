/**
 Reloads and rollbacks as small steps that may interleave.  Each operation touches the served
 configuration and its router in one critical section and the version store in another.
 */
module Swap {
  import opened Text
  import opened Config
  import R = Router

  /** What is served, and the configurations in the version log, of which the newest max are retained. */
  datatype Core = Core(lib: Library, served: Config, router: R.Index, log: seq<Config>, max: nat)

  /** Of n versions, number v is among the newest max. */
  predicate Retained(n: nat, max: nat, v: int)
  {
    1 <= v <= n && n - v < max
  }

  /** Where an operation stands between its steps. */
  datatype Thread =
    | Idle
    | Loaded(op: nat, config: Config)              // reload: read and validated, not yet served
    | Served(op: nat, config: Config)              // reload: served, not yet recorded
    | Checked(op: nat, version: int)               // rollback: version found, store untouched
    | Recorded(op: nat, config: Config)            // rollback: recorded, not yet served

  /** swappedBy and recordedBy name the operations that last changed what is served and what is recorded. */
  datatype State = State(
    core: Core,
    threads: map<nat, Thread>,
    nextOp: nat,
    swappedBy: nat,
    recordedBy: nat)

  datatype Step =
    | BeginReload(t: nat, loaded: Option<Config>)
    | BeginRollback(t: nat, version: int)
    | Advance(t: nat)

  function ThreadOf(s: State, t: nat): Thread
  {
    if t in s.threads then s.threads[t] else Idle
  }

  function Serve(c: Core, config: Config): Core
  {
    c.(served := config, router := R.Build(c.lib, config.rules))
  }

  function Record(c: Core, config: Config): Core
  {
    c.(log := c.log + [config])
  }

  /** One step; a step that is not enabled changes nothing. */
  function Exec(s: State, step: Step): State
  {
    match step
    case BeginReload(t, loaded) =>
      if !ThreadOf(s, t).Idle? || loaded.None? then s
      else s.(threads := s.threads[t := Loaded(s.nextOp, loaded.value)], nextOp := s.nextOp + 1)
    case BeginRollback(t, v) =>
      if !ThreadOf(s, t).Idle? || v < 1 || !Retained(|s.core.log|, s.core.max, v) then s
      else s.(threads := s.threads[t := Checked(s.nextOp, v)], nextOp := s.nextOp + 1)
    case Advance(t) =>
      match ThreadOf(s, t)
      case Idle => s
      case Loaded(op, c) =>
        s.(core := Serve(s.core, c), swappedBy := op, threads := s.threads[t := Served(op, c)])
      case Served(op, c) =>
        s.(core := Record(s.core, c), recordedBy := op, threads := s.threads[t := Idle])
      case Checked(op, v) =>
        if !Retained(|s.core.log|, s.core.max, v) then s.(threads := s.threads[t := Idle])
        else
          var c := s.core.log[v - 1];
          s.(core := Record(s.core, c), recordedBy := op, threads := s.threads[t := Recorded(op, c)])
      case Recorded(op, c) =>
        s.(core := Serve(s.core, c), swappedBy := op, threads := s.threads[t := Idle])
  }

  function ExecAll(s: State, steps: seq<Step>): State
    decreases |steps|
  {
    if steps == [] then s else ExecAll(Exec(s, steps[0]), steps[1..])
  }

  /** A new server serves its first configuration and has it recorded. */
  function Initial(lib: Library, config: Config, max: nat): State
  {
    State(Core(lib, config, R.Build(lib, config.rules), [config], max), map[], 1, 0, 0)
  }

  // ---------- safety over every interleaving ----------

  predicate Carries(th: Thread, op: nat, config: Config)
  {
    (th.Loaded? || th.Served? || th.Recorded?) && th.op == op && th.config == config
  }

  /** The router always belongs to the served rules, and nothing unvalidated is served, recorded or in flight. */
  ghost predicate Sound(lib: Library, s: State)
  {
    && s.core.lib == lib
    && s.core.router == R.Build(lib, s.core.served.rules)
    && PassedValidation(lib, s.core.served)
    && s.core.log != []
    && (forall i :: 0 <= i < |s.core.log| ==> PassedValidation(lib, s.core.log[i]))
    && forall t, op, c :: t in s.threads && Carries(s.threads[t], op, c) ==> PassedValidation(lib, c)
  }

  /** Loading yields validated configurations. */
  ghost predicate Validated(lib: Library, steps: seq<Step>)
  {
    forall i :: 0 <= i < |steps| && steps[i].BeginReload? && steps[i].loaded.Some? ==>
                  PassedValidation(lib, steps[i].loaded.value)
  }

  lemma ExecSound(lib: Library, s: State, step: Step)
    requires Sound(lib, s) && Validated(lib, [step])
    ensures Sound(lib, Exec(s, step))
  {
    hide PassedValidation, R.Build;
    assert [step][0] == step;
    var s' := Exec(s, step);
    match step
    case BeginReload(t, loaded) =>
      assert forall u :: u in s'.threads && u != t ==> u in s.threads && s'.threads[u] == s.threads[u];
    case BeginRollback(t, v) =>
      assert forall u :: u in s'.threads && u != t ==> u in s.threads && s'.threads[u] == s.threads[u];
    case Advance(t) =>
      if t in s.threads && s.threads[t].Loaded? {
        assert Carries(s.threads[t], s.threads[t].op, s.threads[t].config);
      } else if t in s.threads && s.threads[t].Served? {
        assert Carries(s.threads[t], s.threads[t].op, s.threads[t].config);
      } else if t in s.threads && s.threads[t].Recorded? {
        assert Carries(s.threads[t], s.threads[t].op, s.threads[t].config);
      }
      assert forall u :: u in s'.threads && u != t ==> u in s.threads && s'.threads[u] == s.threads[u];
  }

  /** Every reachable state, whatever the interleaving, is sound. */
  lemma {:induction false} RunsSound(lib: Library, s: State, steps: seq<Step>)
    requires Sound(lib, s) && Validated(lib, steps)
    ensures Sound(lib, ExecAll(s, steps))
    decreases |steps|
  {
    if steps != [] {
      hide Sound, Exec;
      ExecSound(lib, s, steps[0]);
      RunsSound(lib, Exec(s, steps[0]), steps[1..]);
    }
  }

  lemma InitialSound(lib: Library, config: Config, max: nat)
    requires PassedValidation(lib, config)
    ensures Sound(lib, Initial(lib, config, max))
  {
  }

  /** From a new server on, everything served, recorded or in flight is validated, in every interleaving. */
  lemma ServerStaysSound(lib: Library, config: Config, max: nat, steps: seq<Step>)
    requires PassedValidation(lib, config) && Validated(lib, steps)
    ensures Sound(lib, ExecAll(Initial(lib, config, max), steps))
  {
    hide Sound, Exec, Initial;
    InitialSound(lib, config, max);
    RunsSound(lib, Initial(lib, config, max), steps);
  }

  // ---------- when the store and the served configuration agree ----------

  predicate Agree(c: Core)
  {
    c.log != [] && c.log[|c.log| - 1] == c.served
  }

  /** The configuration each started operation is about, once known. */
  ghost predicate Attributed(s: State, configs: map<nat, Config>)
  {
    && s.core.log != []
    && s.swappedBy in configs && configs[s.swappedBy] == s.core.served
    && s.recordedBy in configs && configs[s.recordedBy] == s.core.log[|s.core.log| - 1]
    && (forall op :: op in configs ==> op < s.nextOp)
    && (forall t, op, c :: t in s.threads && Carries(s.threads[t], op, c) ==> op in configs && configs[op] == c)
    && (forall t :: t in s.threads && s.threads[t].Checked? ==> s.threads[t].op !in configs && s.threads[t].op < s.nextOp)
    && forall t, u :: t in s.threads && u in s.threads && t != u && s.threads[t].Checked? && s.threads[u].Checked?
                      ==> s.threads[t].op != s.threads[u].op
  }

  lemma ExecAttributed(s: State, step: Step, configs: map<nat, Config>) returns (configs': map<nat, Config>)
    requires Attributed(s, configs)
    ensures Attributed(Exec(s, step), configs')
  {
    configs' := configs;
    match step
    case BeginReload(t, loaded) =>
      if Exec(s, step) != s {
        configs' := configs[s.nextOp := loaded.value];
        assert forall u :: u in Exec(s, step).threads && u != t ==> u in s.threads;
      }
    case BeginRollback(t, v) =>
      hide R.Build, Retained;
      assert forall u :: u in Exec(s, step).threads && u != t ==> u in s.threads;
    case Advance(t) =>
      configs' := AdvanceAttributed(s, t, configs);
  }

  lemma AdvanceAttributed(s: State, t: nat, configs: map<nat, Config>) returns (configs': map<nat, Config>)
    requires Attributed(s, configs)
    ensures Attributed(Exec(s, Advance(t)), configs')
  {
    hide R.Build, Retained;
    configs' := configs;
    assert forall u :: u in Exec(s, Advance(t)).threads && u != t ==> u in s.threads;
    match ThreadOf(s, t)
    case Idle =>
    case Loaded(op, c) => assert Carries(s.threads[t], op, c);
    case Served(op, c) => assert Carries(s.threads[t], op, c);
    case Recorded(op, c) => assert Carries(s.threads[t], op, c);
    case Checked(op, v) =>
      if Retained(|s.core.log|, s.core.max, v) {
        configs' := configs[op := RecordedConfig(s, v)];
      }
  }

  function RecordedConfig(s: State, v: int): Config
    requires Retained(|s.core.log|, s.core.max, v)
  {
    s.core.log[v - 1]
  }

  /**
   In every reachable state the store's current configuration is the served one exactly when the
   operation that last served and the operation that last recorded are about the same configuration;
   in particular whenever they are the same operation.
   */
  lemma {:induction false} AgreementTraced(s: State, steps: seq<Step>, configs: map<nat, Config>)
    returns (traced: map<nat, Config>)
    requires Attributed(s, configs)
    ensures Attributed(ExecAll(s, steps), traced)
    ensures var e := ExecAll(s, steps);
            && (Agree(e.core) <==> traced[e.swappedBy] == traced[e.recordedBy])
            && (e.swappedBy == e.recordedBy ==> Agree(e.core))
    decreases |steps|
  {
    if steps == [] {
      traced := configs;
    } else {
      var next := ExecAttributed(s, steps[0], configs);
      traced := AgreementTraced(Exec(s, steps[0]), steps[1..], next);
    }
  }

  lemma InitialAttributed(lib: Library, config: Config, max: nat)
    ensures Attributed(Initial(lib, config, max), map[0 := config])
  {
  }

  /** From a new server on: store and server agree exactly when the two last operations were about one configuration. */
  lemma ServerAgreementTraced(lib: Library, config: Config, max: nat, steps: seq<Step>) returns (traced: map<nat, Config>)
    ensures var e := ExecAll(Initial(lib, config, max), steps);
            && Attributed(e, traced)
            && (Agree(e.core) <==> traced[e.swappedBy] == traced[e.recordedBy])
            && (e.swappedBy == e.recordedBy ==> Agree(e.core))
  {
    hide Exec, Initial;
    InitialAttributed(lib, config, max);
    traced := AgreementTraced(Initial(lib, config, max), steps, map[0 := config]);
  }

  // ---------- operations that do not overlap ----------

  datatype Op = Reload(loaded: Option<Config>) | Rollback(version: int)

  function StepsOf(t: nat, op: Op): seq<Step>
  {
    match op
    case Reload(loaded) => [BeginReload(t, loaded), Advance(t), Advance(t)]
    case Rollback(v) => [BeginRollback(t, v), Advance(t), Advance(t)]
  }

  /** One operation from start to end with nothing in between. */
  function Alone(c: Core, op: Op): Core
  {
    match op
    case Reload(loaded) => if loaded.None? then c else Record(Serve(c, loaded.value), loaded.value)
    case Rollback(v) =>
      if v < 1 || !Retained(|c.log|, c.max, v) then c
      else Serve(Record(c, c.log[v - 1]), c.log[v - 1])
  }

  lemma AloneSteps(s: State, t: nat, op: Op)
    requires ThreadOf(s, t).Idle?
    ensures ExecAll(s, StepsOf(t, op)).core == Alone(s.core, op)
    ensures ThreadOf(ExecAll(s, StepsOf(t, op)), t).Idle?
    ensures forall u :: u != t ==> ThreadOf(ExecAll(s, StepsOf(t, op)), u) == ThreadOf(s, u)
  {
    hide R.Build;
    var steps := StepsOf(t, op);
    Unroll3(s, steps[0], steps[1], steps[2]);
  }

  function AloneAll(c: Core, ops: seq<Op>): Core
    decreases |ops|
  {
    if ops == [] then c else AloneAll(Alone(c, ops[0]), ops[1..])
  }

  lemma {:induction false} ExecAppend(s: State, a: seq<Step>, b: seq<Step>)
    ensures ExecAll(s, a + b) == ExecAll(ExecAll(s, a), b)
    decreases |a|
  {
    if a == [] {
      assert a + b == b;
    } else {
      assert (a + b)[1..] == a[1..] + b;
      ExecAppend(Exec(s, a[0]), a[1..], b);
    }
  }

  /** The steps of operations that wait for each other, each by some thread. */
  function StepsInTurn(ops: seq<(nat, Op)>): seq<Step>
  {
    if ops == [] then [] else StepsOf(ops[0].0, ops[0].1) + StepsInTurn(ops[1..])
  }

  function Operations(ops: seq<(nat, Op)>): seq<Op>
  {
    if ops == [] then [] else [ops[0].1] + Operations(ops[1..])
  }

  ghost predicate AllIdle(s: State)
  {
    forall t :: ThreadOf(s, t).Idle?
  }

  /**
   Stepped one after another, whichever threads run them, operations have their whole effects in turn, and keep
   the store's current configuration and the served one the same.
   */
  lemma {:induction false} SequentialAgrees(s: State, ops: seq<(nat, Op)>)
    requires AllIdle(s)
    ensures AllIdle(ExecAll(s, StepsInTurn(ops)))
    ensures ExecAll(s, StepsInTurn(ops)).core == AloneAll(s.core, Operations(ops))
    ensures Agree(s.core) ==> Agree(ExecAll(s, StepsInTurn(ops)).core)
    decreases |ops|
  {
    if ops != [] {
      var (t, op) := ops[0];
      hide ThreadOf, StepsOf, Exec;
      var next := ExecAll(s, StepsOf(t, op));
      AloneSteps(s, t, op);
      assert AllIdle(next) by {
        forall u ensures ThreadOf(next, u).Idle? {
          assert ThreadOf(s, u).Idle?;
          assert u != t ==> ThreadOf(next, u) == ThreadOf(s, u);
        }
      }
      ExecAppend(s, StepsOf(t, op), StepsInTurn(ops[1..]));
      assert ([op] + Operations(ops[1..]))[1..] == Operations(ops[1..]);
      SequentialAgrees(next, ops[1..]);
    }
  }

  /** Rolling back and then back again to what was current before restores what is served. */
  lemma RollbackUndone(c: Core, v: int)
    requires Agree(c) && c.max >= 1 && v >= 1 && Retained(|c.log|, c.max, v)
    ensures Alone(Alone(c, Rollback(v)), Rollback(|c.log|)).served == c.served
    ensures Alone(Alone(c, Rollback(v)), Rollback(|c.log|)).router == R.Build(c.lib, c.served.rules)
  {
    hide R.Build;
    var rolled := Alone(c, Rollback(v));
    assert rolled.log[|c.log| - 1] == c.log[|c.log| - 1];
    if c.max == 1 {
      assert v == |c.log|;
    }
  }

  /** Overlapping: the reload serves b, the rollback records and serves a, and only then the reload records b. */
  lemma OverlapDisagrees(lib: Library, a: Config, b: Config)
    requires a != b
    ensures var s := ExecAll(Initial(lib, a, 10), [BeginReload(1, Some(b)), Advance(1),
                                              BeginRollback(2, 1), Advance(2), Advance(2), Advance(1)]);
            && ThreadOf(s, 1).Idle? && ThreadOf(s, 2).Idle?
            && !Agree(s.core) && s.core.served == a && s.core.log == [a, a, b]
  {
    hide R.Build;
    var s0 := Initial(lib, a, 10);
    var s1 := Exec(s0, BeginReload(1, Some(b)));
    var s2 := Exec(s1, Advance(1));
    var s3 := Exec(s2, BeginRollback(2, 1));
    var s4 := Exec(s3, Advance(2));
    var s5 := Exec(s4, Advance(2));
    var s6 := Exec(s5, Advance(1));
    assert s2.core.log == [a];
    assert s4.core.log == [a, a];
    assert s6.core.log == [a, a, b];
    Unroll6(s0, BeginReload(1, Some(b)), Advance(1), BeginRollback(2, 1), Advance(2), Advance(2), Advance(1));
  }

  lemma Unroll6(s: State, a: Step, b: Step, c: Step, d: Step, e: Step, f: Step)
    ensures ExecAll(s, [a, b, c, d, e, f]) == Exec(Exec(Exec(Exec(Exec(Exec(s, a), b), c), d), e), f)
  {
    hide Exec;
    var s1, s2, s3 := Exec(s, a), Exec(Exec(s, a), b), Exec(Exec(Exec(s, a), b), c);
    assert [a, b, c, d, e, f][1..] == [b, c, d, e, f] && [b, c, d, e, f][1..] == [c, d, e, f];
    assert [c, d, e, f][1..] == [d, e, f];
    assert ExecAll(s, [a, b, c, d, e, f]) == ExecAll(s1, [b, c, d, e, f]);
    assert ExecAll(s1, [b, c, d, e, f]) == ExecAll(s2, [c, d, e, f]) == ExecAll(s3, [d, e, f]);
    Unroll3(s3, d, e, f);
  }

  lemma Unroll3(s: State, a: Step, b: Step, c: Step)
    ensures ExecAll(s, [a, b, c]) == Exec(Exec(Exec(s, a), b), c)
  {
    hide Exec;
    assert [a, b, c][1..] == [b, c] && [b, c][1..] == [c] && [c][1..] == [];
    assert ExecAll(s, [a, b, c]) == ExecAll(Exec(s, a), [b, c]) == ExecAll(Exec(Exec(s, a), b), [c]);
  }
}
