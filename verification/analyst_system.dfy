/** The plan-driven agent pipeline of `DataAnalyst`: registration of agent signatures,
    then `forward`, which asks the planner for a plan, runs the named agents in plan
    order on the same dataset text and goal, and hands their concatenated code to the
    combiner. The three language-model calls (planner, agents, combiner) are
    uninterpreted functions; every call the pipeline makes is recorded in a log so
    that the order and number of calls can be stated. */
module AnalystSystem {
  import opened Text
  import opened LastWins
  import opened Plan

  /** An agent signature: the name the registry keys it by and the description the
      planner is shown. */
  datatype AgentSpec = AgentSpec(name: string, description: string)

  /** What an agent call returns; the pipeline reads only `code`. */
  datatype AgentResult = AgentResult(commentary: string, code: string)

  /** What the planner returns: the arrow-separated plan and its rationale. */
  datatype PlanResult = PlanResult(plan: string, rationale: string)

  /** The language-model calls. `planner` receives the description list and the goal,
      `agent` the signature being run, the dataset text, the goal and the position of
      the call in the plan, and `combiner` the concatenated code; each answers with
      whatever the model produces. A model need not answer the same prompt the same
      way twice, so the position is an argument: two runs of one agent in a plan may
      return different results. */
  datatype Oracles = Oracles(
    planner: (seq<string>, string) -> PlanResult,
    agent: (AgentSpec, string, string, nat) -> AgentResult,
    combiner: string -> string)

  /** The registry built by `__init__`: name-to-agent map and description list. */
  datatype DataAnalyst = DataAnalyst(agents: map<string, AgentSpec>, descriptions: seq<string>)

  /** One call to a language model, as the log records it. */
  datatype Call =
    | PlannerCall(descriptions: seq<string>, goal: string)
    | AgentCall(name: string, agent: AgentSpec, dataset: string, goal: string)
    | CombinerCall(code: string)

  /** The local state of `forward`: `agent_outputs`, `combined_code` and the call log. */
  datatype Progress = Progress(outputs: map<string, AgentResult>, combined: string, calls: seq<Call>)

  /** How the agent loop ends: it runs out of names, or a lookup raises `KeyError`. */
  datatype Loop = Completed(progress: Progress) | Stopped(missing: string, progress: Progress)

  /** How `forward` ends. `Finished` carries the combiner's code and, in `progress`, the
      returned `agent_outputs`. `KeyError` carries the name that was not registered
      and the state `forward` had reached when the lookup raised. */
  datatype Outcome =
    | Finished(finalCode: string, progress: Progress)
    | KeyError(missing: string, progress: Progress)

  // ---------------------------------------------------------------- registration

  function Names(specs: seq<AgentSpec>): seq<string> {
    seq(|specs|, i requires 0 <= i < |specs| => specs[i].name)
  }

  /** One iteration of the `__init__` loop: overwrite the map entry, append the description. */
  function Register(a: DataAnalyst, spec: AgentSpec): (r: DataAnalyst)
    ensures r.agents.Keys == a.agents.Keys + {spec.name} && r.agents[spec.name] == spec
    ensures forall n :: n in a.agents && n != spec.name ==> r.agents[n] == a.agents[n]
    ensures r.descriptions == a.descriptions + [spec.description]
  {
    DataAnalyst(a.agents[spec.name := spec], a.descriptions + [spec.description])
  }

  /** `DataAnalyst(agents)`: one description per signature in input order, and each
      name bound to the last signature registered under it. */
  function Init(specs: seq<AgentSpec>): (a: DataAnalyst)
    ensures |a.descriptions| == |specs|
    ensures forall i :: 0 <= i < |specs| ==> a.descriptions[i] == specs[i].description
    ensures a.agents == Latest(Names(specs), specs)
    decreases |specs|
  {
    if |specs| == 0 then
      DataAnalyst(map[], [])
    else
      var init, last := specs[..|specs| - 1], specs[|specs| - 1];
      assert Names(specs) == Names(init) + [last.name];
      assert specs == init + [last];
      LatestSnoc(Names(init), init, last.name, last);
      Register(Init(init), last)
  }

  /** After `__init__`, the registered names are exactly the distinct input names, and a
      name given twice is bound to the later signature. */
  lemma {:induction false} InitRegistry(specs: seq<AgentSpec>)
    ensures Init(specs).agents.Keys == set i | 0 <= i < |specs| :: specs[i].name
    ensures forall i :: (0 <= i < |specs| && (forall j :: i < j < |specs| ==> specs[j].name != specs[i].name))
                ==> Init(specs).agents[specs[i].name] == specs[i]
  {
    LatestNames(specs, Init(specs).agents);
  }

  lemma {:induction false} LatestNames(specs: seq<AgentSpec>, m: map<string, AgentSpec>)
    requires m == Latest(Names(specs), specs)
    ensures m.Keys == set i | 0 <= i < |specs| :: specs[i].name
    ensures forall i :: (0 <= i < |specs| && (forall j :: i < j < |specs| ==> specs[j].name != specs[i].name))
                ==> m[specs[i].name] == specs[i]
  {
    var names := Names(specs);
    LatestAt(names, specs);
    assert (set j | 0 <= j < |names| :: names[j]) == set i | 0 <= i < |specs| :: specs[i].name;
  }

  /** Registering the same name twice keeps both descriptions but only one map entry,
      so the description list is then longer than the registry. */
  lemma {:induction false} DuplicateRegistration(specs: seq<AgentSpec>, i: nat, j: nat)
    requires i < j < |specs| && specs[i].name == specs[j].name
    ensures |Init(specs).agents| < |Init(specs).descriptions| == |specs|
  {
    var names := Names(specs);
    assert names[i] == names[j];
    DistinctKeysBound(names);
    LatestAt(names, specs);
    assert |Init(specs).agents| == |Init(specs).agents.Keys|;
  }

  // ---------------------------------------------------------------- forward

  /** The `for agent_name in agent_list` loop from position `i` on: look the name up
      (raising `KeyError` when it is absent), call the agent on the dataset text and
      the goal, store the result under the name and append its code. */
  function Execute(a: DataAnalyst, o: Oracles, dataset: string, goal: string,
                   names: seq<string>, i: nat, acc: Progress): (r: Loop)
    requires i <= |names|
    ensures r.Completed? <==> forall j :: i <= j < |names| ==> names[j] in a.agents
    ensures r.Stopped? ==> r.missing !in a.agents && r.missing in names[i..]
    ensures acc.calls <= r.progress.calls
    decreases |names| - i
  {
    if i == |names| then Completed(acc)
    else if names[i] !in a.agents then Stopped(names[i], acc)
    else
      var spec := a.agents[names[i]];
      var result := o.agent(spec, dataset, goal, i);
      Execute(a, o, dataset, goal, names, i + 1,
              Progress(acc.outputs[names[i] := result],
                       acc.combined + result.code,
                       acc.calls + [AgentCall(names[i], spec, dataset, goal)]))
  }

  /** `DataAnalyst.forward(dataset, query)`: ask the planner, parse its plan, run it. */
  function Forward(a: DataAnalyst, o: Oracles, dataset: string, query: string): (r: Outcome)
    ensures |r.progress.calls| >= 1 && r.progress.calls[0] == PlannerCall(a.descriptions, query)
    ensures r.KeyError? ==> r.missing !in a.agents
  {
    RunPlan(a, o, dataset, query, Tokens(o.planner(a.descriptions, query).plan))
  }

  /** The rest of `forward` once the plan is parsed into `names`: the agent loop, which
      starts with empty outputs and code and with the planner call already logged,
      then, if the loop completes, one combiner call on the accumulated code. */
  function RunPlan(a: DataAnalyst, o: Oracles, dataset: string, goal: string, names: seq<string>): (r: Outcome)
    ensures r.Finished? <==> forall j :: 0 <= j < |names| ==> names[j] in a.agents
    ensures r.KeyError? ==> r.missing !in a.agents && r.missing in names
    ensures |r.progress.calls| >= 1 && r.progress.calls[0] == PlannerCall(a.descriptions, goal)
  {
    var start := Progress(map[], "", [PlannerCall(a.descriptions, goal)]);
    match Execute(a, o, dataset, goal, names, 0, start)
    case Completed(p) =>
      Finished(o.combiner(p.combined), p.(calls := p.calls + [CombinerCall(p.combined)]))
    case Stopped(name, p) => KeyError(name, p)
  }

  // ---------------------------------------------------------------- reference run

  /** The position of the first name that is not registered, or `|names|`. */
  function FirstUnregistered(agents: map<string, AgentSpec>, names: seq<string>): (k: nat)
    ensures k <= |names|
    ensures forall j :: 0 <= j < k ==> names[j] in agents
    ensures k < |names| ==> names[k] !in agents
    decreases |names|
  {
    if |names| == 0 || names[0] !in agents then 0
    else 1 + FirstUnregistered(agents, names[1..])
  }

  /** The result of running each name's agent on the dataset text and the goal, at its
      position in the plan. */
  function Results(a: DataAnalyst, o: Oracles, dataset: string, goal: string,
                   names: seq<string>): seq<AgentResult>
    requires forall j :: 0 <= j < |names| ==> names[j] in a.agents
  {
    seq(|names|, j requires 0 <= j < |names| => o.agent(a.agents[names[j]], dataset, goal, j))
  }

  /** One agent call per name, in order, all on the same dataset text and goal. */
  function AgentCalls(a: DataAnalyst, dataset: string, goal: string, names: seq<string>): seq<Call>
    requires forall j :: 0 <= j < |names| ==> names[j] in a.agents
  {
    seq(|names|, j requires 0 <= j < |names| => AgentCall(names[j], a.agents[names[j]], dataset, goal))
  }

  /** The `code` fields of `rs`, concatenated left to right. */
  function Codes(rs: seq<AgentResult>): string
    decreases |rs|
  {
    if |rs| == 0 then "" else Codes(rs[..|rs| - 1]) + rs[|rs| - 1].code
  }

  /** The state of `forward` once the first `k` names have been run. */
  function Snapshot(a: DataAnalyst, o: Oracles, dataset: string, goal: string,
                    names: seq<string>, k: nat): Progress
    requires k <= |names|
    requires forall j :: 0 <= j < k ==> names[j] in a.agents
  {
    var done := names[..k];
    var rs := Results(a, o, dataset, goal, done);
    Progress(Latest(done, rs), Codes(rs), [PlannerCall(a.descriptions, goal)] + AgentCalls(a, dataset, goal, done))
  }

  lemma {:induction false} SnapshotStart(a: DataAnalyst, o: Oracles, dataset: string, goal: string,
                                         names: seq<string>)
    ensures Snapshot(a, o, dataset, goal, names, 0) == Progress(map[], "", [PlannerCall(a.descriptions, goal)])
  {
    var none: seq<string>, noResults: seq<AgentResult> := [], [];
    assert names[..0] == none;
    assert Latest(none, noResults) == map[];
  }

  /** Running name `i` takes the snapshot after `i` names to the snapshot after `i + 1`. */
  lemma {:induction false} SnapshotStep(a: DataAnalyst, o: Oracles, dataset: string, goal: string,
                                        names: seq<string>, i: nat)
    requires i < |names|
    requires forall j :: 0 <= j <= i ==> names[j] in a.agents
    ensures var s := Snapshot(a, o, dataset, goal, names, i);
            var spec := a.agents[names[i]];
            var r := o.agent(spec, dataset, goal, i);
            Snapshot(a, o, dataset, goal, names, i + 1)
              == Progress(s.outputs[names[i] := r], s.combined + r.code,
                          s.calls + [AgentCall(names[i], spec, dataset, goal)])
  {
    var done, done' := names[..i], names[..i + 1];
    assert done' == done + [names[i]];
    var spec := a.agents[names[i]];
    var r := o.agent(spec, dataset, goal, i);
    var rs, rs' := Results(a, o, dataset, goal, done), Results(a, o, dataset, goal, done');
    assert rs' == rs + [r];
    assert rs'[..|rs'| - 1] == rs;
    LatestSnoc(done, rs, names[i], r);
    assert AgentCalls(a, dataset, goal, done') == AgentCalls(a, dataset, goal, done) + [AgentCall(names[i], spec, dataset, goal)];
  }

  /** From the snapshot after `i` names, the loop ends at the first unregistered name,
      or completes, in the snapshot after the names before it. */
  lemma {:induction false} ExecuteFrom(a: DataAnalyst, o: Oracles, dataset: string, goal: string,
                                       names: seq<string>, i: nat)
    requires i <= FirstUnregistered(a.agents, names)
    ensures var k := FirstUnregistered(a.agents, names);
            Execute(a, o, dataset, goal, names, i, Snapshot(a, o, dataset, goal, names, i))
              == if k == |names| then Completed(Snapshot(a, o, dataset, goal, names, k))
                 else Stopped(names[k], Snapshot(a, o, dataset, goal, names, k))
    decreases |names| - i
  {
    var k := FirstUnregistered(a.agents, names);
    if i < k {
      SnapshotStep(a, o, dataset, goal, names, i);
      ExecuteFrom(a, o, dataset, goal, names, i + 1);
    }
  }

  /** A plan either completes every name and calls the combiner once on the
      accumulated code, or stops with `KeyError` at the first unregistered name,
      holding what the names before it produced. */
  lemma {:induction false} RunPlanOutcome(a: DataAnalyst, o: Oracles, dataset: string, goal: string,
                                          names: seq<string>)
    ensures var k := FirstUnregistered(a.agents, names);
            var s := Snapshot(a, o, dataset, goal, names, k);
            RunPlan(a, o, dataset, goal, names)
              == if k == |names| then Finished(o.combiner(s.combined), s.(calls := s.calls + [CombinerCall(s.combined)]))
                 else KeyError(names[k], s)
  {
    SnapshotStart(a, o, dataset, goal, names);
    ExecuteFrom(a, o, dataset, goal, names, 0);
  }

  /** Before the loop ends, the log holds the planner call and one call per name run,
      and no combiner call. */
  lemma {:induction false} NoCombinerBefore(a: DataAnalyst, o: Oracles, dataset: string, goal: string,
                                            names: seq<string>, k: nat)
    requires k <= |names|
    requires forall j :: 0 <= j < k ==> names[j] in a.agents
    ensures var calls := Snapshot(a, o, dataset, goal, names, k).calls;
            |calls| == k + 1 && forall j :: 0 <= j < |calls| ==> !calls[j].CombinerCall?
  {
  }

  // ---------------------------------------------------------------- properties

  /** When every planned name is registered, the planner is called first, then each
      planned agent exactly once in plan order (repeats included) on the same dataset
      text and goal, then the combiner once on the concatenation of their code in plan
      order; `forward` returns the combiner's code. */
  lemma {:induction false} PlanCompletes(a: DataAnalyst, o: Oracles, dataset: string, goal: string,
                                         names: seq<string>)
    requires forall j :: 0 <= j < |names| ==> names[j] in a.agents
    ensures var code := Codes(Results(a, o, dataset, goal, names));
            var out := RunPlan(a, o, dataset, goal, names);
            && out.Finished?
            && out.progress.combined == code
            && out.finalCode == o.combiner(code)
            && out.progress.calls == [PlannerCall(a.descriptions, goal)]
                                     + AgentCalls(a, dataset, goal, names) + [CombinerCall(code)]
  {
    RunPlanOutcome(a, o, dataset, goal, names);
    assert names[..|names|] == names;
  }

  /** When some planned name is not registered, `forward` raises `KeyError` for the
      first such name `names[k]`: only the `k` agents before it have been called, the
      accumulated code is exactly theirs, and the combiner has not been called. */
  lemma {:induction false} PlanStops(a: DataAnalyst, o: Oracles, dataset: string, goal: string,
                                     names: seq<string>)
    requires exists i :: 0 <= i < |names| && names[i] !in a.agents
    ensures var k := FirstUnregistered(a.agents, names);
            var out := RunPlan(a, o, dataset, goal, names);
            && k < |names|
            && out == KeyError(names[k], out.progress)
            && out.progress.combined == Codes(Results(a, o, dataset, goal, names[..k]))
            && out.progress.calls == [PlannerCall(a.descriptions, goal)] + AgentCalls(a, dataset, goal, names[..k])
            && forall j :: 0 <= j < |out.progress.calls| ==> !out.progress.calls[j].CombinerCall?
  {
    var k := FirstUnregistered(a.agents, names);
    RunPlanOutcome(a, o, dataset, goal, names);
    NoCombinerBefore(a, o, dataset, goal, names, k);
  }

  /** The combiner is called at most once, only when the run completes, last, and on the
      complete accumulated code. */
  lemma {:induction false} CombinerOnce(a: DataAnalyst, o: Oracles, dataset: string, goal: string,
                                        names: seq<string>)
    ensures var out := RunPlan(a, o, dataset, goal, names);
            var calls := out.progress.calls;
            && (out.Finished? ==> |calls| >= 2 && calls[|calls| - 1] == CombinerCall(out.progress.combined)
                                  && out.finalCode == o.combiner(out.progress.combined))
            && (forall j :: 0 <= j < |calls| && calls[j].CombinerCall? ==> out.Finished? && j == |calls| - 1)
  {
    var k := FirstUnregistered(a.agents, names);
    RunPlanOutcome(a, o, dataset, goal, names);
    NoCombinerBefore(a, o, dataset, goal, names, k);
  }

  /** `agent_outputs`, whether returned or abandoned by `KeyError`, maps exactly the
      names that were run, each to the result of its last run. */
  lemma {:induction false} OutputsLastWins(a: DataAnalyst, o: Oracles, dataset: string, goal: string,
                                           names: seq<string>)
    ensures var k := FirstUnregistered(a.agents, names);
            var rs := Results(a, o, dataset, goal, names[..k]);
            var outputs := RunPlan(a, o, dataset, goal, names).progress.outputs;
            && outputs.Keys == (set j | 0 <= j < k :: names[j])
            && forall j :: (0 <= j < k && (forall l :: j < l < k ==> names[l] != names[j]))
                             ==> outputs[names[j]] == rs[j]
  {
    var k := FirstUnregistered(a.agents, names);
    var done := names[..k];
    var rs := Results(a, o, dataset, goal, done);
    RunPlanOutcome(a, o, dataset, goal, names);
    LatestPrefix(names, k, rs, RunPlan(a, o, dataset, goal, names).progress.outputs);
  }

  /** `Latest` over the first `k` names, stated with positions in the whole sequence. */
  lemma {:induction false} LatestPrefix<V>(names: seq<string>, k: nat, rs: seq<V>, m: map<string, V>)
    requires k <= |names| && |rs| == k && m == Latest(names[..k], rs)
    ensures m.Keys == (set j | 0 <= j < k :: names[j])
    ensures forall j :: (0 <= j < k && (forall l :: j < l < k ==> names[l] != names[j]))
                          ==> m[names[j]] == rs[j]
  {
    var done := names[..k];
    LatestAt(done, rs);
    assert (set j | 0 <= j < |done| :: done[j]) == set j | 0 <= j < k :: names[j];
  }

  /** An empty plan is the single empty name, so it raises `KeyError("")` before any
      agent runs, unless an agent is registered under the empty name. */
  lemma {:induction false} EmptyPlanFails(a: DataAnalyst, o: Oracles, dataset: string, query: string)
    requires o.planner(a.descriptions, query).plan == ""
    requires "" !in a.agents
    ensures Forward(a, o, dataset, query)
              == KeyError("", Progress(map[], "", [PlannerCall(a.descriptions, query)]))
  {
    var names := Tokens(o.planner(a.descriptions, query).plan);
    EmptyPlan();
    assert names == [""];
    assert FirstUnregistered(a.agents, names) == 0;
    RunPlanOutcome(a, o, dataset, query, names);
    SnapshotStart(a, o, dataset, query, names);
  }

  /** A plan that ends with an arrow ends with the empty name, so `forward` raises
      `KeyError` unless an agent is registered under the empty name. */
  lemma {:induction false} TrailingArrowFails(a: DataAnalyst, o: Oracles, dataset: string, query: string, p: string)
    requires o.planner(a.descriptions, query).plan == p + Arrow
    requires "" !in a.agents
    ensures Forward(a, o, dataset, query).KeyError?
  {
    var names := Tokens(o.planner(a.descriptions, query).plan);
    TrailingArrow(p);
    PlanStops(a, o, dataset, query, names);
  }

  /** A two-step plan such as `"PreProcess -> Stats"` with both agents registered: the
      combined code is the first agent's code followed by the second's, and the
      outputs map each name to its result, the second overwriting the first when the
      plan names the same agent twice. */
  lemma {:induction false} TwoStepPlan(a: DataAnalyst, o: Oracles, dataset: string, query: string,
                                       n1: string, n2: string)
    requires Tokens(o.planner(a.descriptions, query).plan) == [n1, n2]
    requires n1 in a.agents && n2 in a.agents
    ensures var r1, r2 := o.agent(a.agents[n1], dataset, query, 0), o.agent(a.agents[n2], dataset, query, 1);
            var out := Forward(a, o, dataset, query);
            && out.Finished?
            && out.progress.combined == r1.code + r2.code
            && out.finalCode == o.combiner(r1.code + r2.code)
            && out.progress.outputs == map[n1 := r1][n2 := r2]
  {
    TwoNames(a, o, dataset, query, [n1, n2]);
  }

  /** A plan naming one agent twice keeps only the second run's result, although both
      runs' code is concatenated. */
  lemma {:induction false} RepeatOverwrites(a: DataAnalyst, o: Oracles, dataset: string, goal: string, n: string)
    requires n in a.agents
    ensures var r1, r2 := o.agent(a.agents[n], dataset, goal, 0), o.agent(a.agents[n], dataset, goal, 1);
            var out := RunPlan(a, o, dataset, goal, [n, n]);
            && out.progress.outputs == map[n := r2]
            && out.progress.combined == r1.code + r2.code
  {
    TwoNames(a, o, dataset, goal, [n, n]);
    var r1, r2 := o.agent(a.agents[n], dataset, goal, 0), o.agent(a.agents[n], dataset, goal, 1);
    assert map[n := r1][n := r2] == map[n := r2];
  }

  lemma {:induction false} TwoNames(a: DataAnalyst, o: Oracles, dataset: string, goal: string,
                                    names: seq<string>)
    requires |names| == 2 && names[0] in a.agents && names[1] in a.agents
    ensures var r1, r2 := o.agent(a.agents[names[0]], dataset, goal, 0), o.agent(a.agents[names[1]], dataset, goal, 1);
            var out := RunPlan(a, o, dataset, goal, names);
            && out.Finished?
            && out.progress.combined == r1.code + r2.code
            && out.finalCode == o.combiner(r1.code + r2.code)
            && out.progress.outputs == map[names[0] := r1][names[1] := r2]
  {
    assert FirstUnregistered(a.agents, names) == 2 by {
      assert names[1..] == [names[1]];
      assert names[1..][1..] == [];
    }
    SnapshotStart(a, o, dataset, goal, names);
    SnapshotStep(a, o, dataset, goal, names, 0);
    SnapshotStep(a, o, dataset, goal, names, 1);
    RunPlanOutcome(a, o, dataset, goal, names);
  }
}
