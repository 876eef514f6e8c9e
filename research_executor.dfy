/** The research agent's orchestration: the fence cleaner applied to a
    model's JSON reply, and the executor that runs a plan step by step,
    routing each step to a registered agent and recording one history entry
    per step. */
module ResearchExecutor {
  import opened PyBase
  import opened PyStr

  const Fence := "```"

  /** `re.sub(r"^```(?:json)?\n?", "", s)` on a string that starts with the
      fence: the fence, then `json` if it follows, then one line break if it
      follows, are cut off the front. */
  function DropOpeningFence(s: string): (t: string)
    requires StartsWith(s, Fence)
    ensures |t| <= |s| - |Fence| && t == s[|s| - |t|..]
  {
    var afterFence := |Fence|;
    var afterTag := if StartsWith(s[afterFence..], "json") then afterFence + 4 else afterFence;
    var afterBreak := if afterTag < |s| && s[afterTag] == '\n' then afterTag + 1 else afterTag;
    s[afterBreak..]
  }

  /** `re.sub(r"\n?```$", "", t)`. `$` matches at the end and also before a
      final line break, and the leftmost match wins, so at most one of these
      endings is removed, tried from the leftmost possible start: a fence
      with a line break before it and one after it, then a fence at the very
      end with a line break before it or a fence followed by a final line
      break, then a bare fence at the very end. */
  function DropClosingFence(t: string): (u: string)
    ensures |u| <= |t|
  {
    if EndsWith(t, "\n```\n") then t[..|t| - 5] + "\n"
    else if EndsWith(t, "\n```") then t[..|t| - 4]
    else if EndsWith(t, "```\n") then t[..|t| - 4] + "\n"
    else if EndsWith(t, "```") then t[..|t| - 3]
    else t
  }

  /** What the opening pattern cuts off is the fence, then `json` exactly
      when it follows, then a line break whenever one follows. */
  lemma OpeningFenceCut(s: string)
    requires StartsWith(s, Fence)
    ensures var t := DropOpeningFence(s); var cut := s[..|s| - |t|];
      && cut in {"```", "```\n", "```json", "```json\n"}
      && (StartsWith(cut, "```json") <==> StartsWith(s[|Fence|..], "json"))
      && (!EndsWith(cut, "\n") ==> t == [] || t[0] != '\n')
  {
    var t := DropOpeningFence(s);
    var cut := s[..|s| - |t|];
    assert s[..3] == Fence;
    if StartsWith(s[3..], "json") {
      assert s[3..][..4] == s[3..7];
      if 7 < |s| && s[7] == '\n' {
        assert cut == s[..3] + s[3..7] + [s[7]];
        assert cut == "```json\n" && cut[..7] == "```json";
      } else {
        assert cut == s[..3] + s[3..7];
        assert cut == "```json" && cut[..7] == "```json";
      }
    } else {
      if 3 < |s| && s[3] == '\n' {
        assert cut == s[..3] + [s[3]];
        assert cut == "```\n";
      } else {
        assert cut == s[..3];
        assert cut == "```";
      }
    }
  }

  /** The closing pattern leaves the text alone exactly when it ends in
      no fence, either at the very end or before a final line break. */
  lemma ClosingFenceKeeps(t: string)
    ensures DropClosingFence(t) == t <==> !EndsWith(t, "```") && !EndsWith(t, "```\n")
  {
    if EndsWith(t, "```\n") || EndsWith(t, "```") {
      assert |DropClosingFence(t)| < |t|;
    }
  }

  /** Otherwise it removes exactly one of its four matches, the leftmost
      one: a fence with a line break before it is taken with that line
      break, and a fence before a final line break keeps that line break. */
  lemma ClosingFenceRemoves(t: string)
    requires EndsWith(t, "```") || EndsWith(t, "```\n")
    ensures var u := DropClosingFence(t);
      || t == u + "\n```"
      || (t == u + "```" && !EndsWith(t, "\n```"))
      || (EndsWith(u, "\n") && t == u[..|u| - 1] + "\n```\n")
      || (EndsWith(u, "\n") && t == u[..|u| - 1] + "```\n" && !EndsWith(t, "\n```\n"))
  {
    var u := DropClosingFence(t);
    if EndsWith(t, "\n```\n") {
      var v := t[..|t| - 5];
      assert t == v + "\n```\n";
      assert u == v + "\n" && u[..|u| - 1] == v;
    } else if EndsWith(t, "\n```") {
      assert t == t[..|t| - 4] + "\n```";
    } else if EndsWith(t, "```\n") {
      var v := t[..|t| - 4];
      assert t == v + "```\n";
      assert u == v + "\n" && u[..|u| - 1] == v;
    } else {
      assert t == t[..|t| - 3] + "```";
    }
  }

  /** `clean_json_block`: strip, remove a leading fence (with an optional
      `json` tag and line break) and a trailing fence, strip again. The
      result never has whitespace at either end, and text that does not
      start with a fence once stripped comes back only stripped. */
  function CleanJsonBlock(raw: string): (r: string)
    ensures Trimmed(r)
    ensures !StartsWith(Strip(raw), Fence) ==> r == Strip(raw)
  {
    var s := Strip(raw);
    if StartsWith(s, Fence) then Strip(DropClosingFence(DropOpeningFence(s))) else s
  }

  /** A fenced reply: since the stripped reply ends in no whitespace,
      neither of the closing matches that keep a final line break applies,
      so the cleaned text is what is left once a final fence (with the line
      break before it, if any) is gone, stripped. */
  lemma CleanFencedReply(raw: string)
    requires StartsWith(Strip(raw), Fence)
    ensures var t := DropOpeningFence(Strip(raw)); var u := DropClosingFence(t);
      && CleanJsonBlock(raw) == Strip(u)
      && ((u == t && !EndsWith(t, "```"))
          || t == u + "\n```"
          || (t == u + "```" && !EndsWith(t, "\n```")))
  {
    var s := Strip(raw);
    var t := DropOpeningFence(s);
    var u := DropClosingFence(t);
    assert t == [] || !IsSpace(t[|t| - 1]) by {
      assert t == [] || t[|t| - 1] == s[|s| - 1];
    }
    assert !EndsWith(t, "```\n");
    ClosingFenceKeeps(t);
    if u != t {
      ClosingFenceRemoves(t);
    }
  }

  /** A reply fenced inline, ```` ```json{...}``` ````, cleans to its
      trimmed body. */
  lemma CleanInlineFence(b: string)
    requires Trimmed(b)
    ensures CleanJsonBlock("```json" + b + "```") == b
  {
    var s := "```json" + b + "```";
    assert s[0] == '`' && s[|s| - 1] == '`';
    assert Strip(s) == s;
    assert s[..3] == Fence;
    InlineOpening(b);
    assert b == [] || b[|b| - 1] != '\n';
    InlineClosing(b);
  }

  /** The opening pattern takes the fence and the tag of an inline fence,
      and no more: the body starts with no line break. */
  lemma InlineOpening(b: string)
    requires Trimmed(b)
    ensures StartsWith("```json" + b + "```", Fence)
    ensures DropOpeningFence("```json" + b + "```") == b + "```"
  {
    var s := "```json" + b + "```";
    assert s[..3] == Fence;
    assert s[3..][..4] == "json";
    assert 7 < |s| && s[7] != '\n' by {
      if b == [] {
        assert s[7] == '`';
      } else {
        assert s[7] == b[0];
      }
    }
    assert s[7..] == b + "```";
  }

  /** The closing pattern takes the bare fence after a body that ends in
      no line break. */
  lemma InlineClosing(b: string)
    requires b == [] || b[|b| - 1] != '\n'
    ensures DropClosingFence(b + "```") == b
  {
    var t := b + "```";
    assert t[|t| - 1] == '`';
    assert !EndsWith(t, "\n```\n") && !EndsWith(t, "```\n") by {
      assert t[|t| - 1] != '\n';
    }
    assert !EndsWith(t, "\n```") by {
      if b != [] {
        assert t[|t| - 4] == b[|b| - 1];
      }
    }
    assert t[|t| - 3..] == "```";
    assert t[..|t| - 3] == b;
  }

  /** A fence-free text that starts and ends with no whitespace. */
  lemma FencedIsTrimmed(prefix: string, b: string)
    requires |prefix| > 0 && prefix[0] == '`'
    ensures Trimmed(prefix + b + "\n```")
  {
    var s := prefix + b + "\n```";
    assert s[0] == '`' && s[|s| - 1] == '`';
  }

  /** A reply fenced as ```` ```json ```` on its own line, the body, and a
      closing fence on its own line cleans to the trimmed body. */
  lemma {:induction false} CleanJsonFence(b: string)
    ensures CleanJsonBlock("```json\n" + b + "\n```") == Strip(b)
  {
    var s := "```json\n" + b + "\n```";
    FencedIsTrimmed("```json\n", b);
    assert Strip(s) == s;
    assert s[..3] == Fence;
    assert s[3..][..4] == "json";
    assert s[7] == '\n';
    var t := s[8..];
    assert t == b + "\n```";
    assert DropOpeningFence(s) == t;
    assert !EndsWith(t, "\n```\n") by {
      assert t[|t| - 1] == '`';
    }
    assert t[|t| - 4..] == "\n```";
    assert t[..|t| - 4] == b;
  }

  /** The same for a bare opening fence on its own line. */
  lemma {:induction false} CleanBareFence(b: string)
    ensures CleanJsonBlock("```\n" + b + "\n```") == Strip(b)
  {
    var s := "```\n" + b + "\n```";
    FencedIsTrimmed("```\n", b);
    assert Strip(s) == s;
    assert s[..3] == Fence;
    assert s[3] == '\n';
    assert !StartsWith(s[3..], "json") by {
      assert s[3..][0] == '\n';
    }
    var t := s[4..];
    assert t == b + "\n```";
    assert DropOpeningFence(s) == t;
    assert !EndsWith(t, "\n```\n") by {
      assert t[|t| - 1] == '`';
    }
    assert t[|t| - 4..] == "\n```";
    assert t[..|t| - 4] == b;
  }

  /** One entry of the executor's history: `(step, agent_name, output)`. */
  datatype HistoryEntry = HistoryEntry(step: string, agent: Json, output: string)

  /** The agents by name; each takes the enriched task and returns its
      output. */
  type Registry = map<string, string -> string>

  /** The routing model's raw reply for a plan step. */
  type Decide = string -> string

  const MaxSteps := 4

  /** The steps the executor runs: with `limit_steps`, the first
      `min(len(plan_steps), 4)`; otherwise all of them. */
  function PlanSteps(plan: seq<string>, limitSteps: bool): (r: seq<string>)
    ensures |r| <= |plan| && r == plan[..|r|]
    ensures limitSteps ==> |r| == if |plan| < MaxSteps then |plan| else MaxSteps
    ensures !limitSteps ==> r == plan
  {
    if limitSteps then plan[..if |plan| < MaxSteps then |plan| else MaxSteps] else plan
  }

  /** `f"Step {j+1} executed by {a}:\n{r}"` */
  function ContextLine(j: nat, e: HistoryEntry): string {
    "Step " + NatStr(j + 1) + " executed by " + Str(e.agent) + ":\n" + e.output
  }

  /** The context lines of the entries `h[from..]`, numbered from `from`. */
  function ContextLines(h: seq<HistoryEntry>, from: nat): (lines: seq<string>)
    requires from <= |h|
    ensures |lines| == |h| - from
    ensures forall k :: 0 <= k < |lines| ==> lines[k] == ContextLine(from + k, h[from + k])
    decreases |h| - from
  {
    if from == |h| then [] else [ContextLine(from, h[from])] + ContextLines(h, from + 1)
  }

  /** `"\n".join(...)` of one line per history entry, in order. */
  function Context(h: seq<HistoryEntry>): string {
    Join("\n", ContextLines(h, 0))
  }

  /** The lines of a longer history start with the lines of the shorter. */
  lemma {:induction false} ContextLinesAppend(h: seq<HistoryEntry>, e: HistoryEntry)
    ensures ContextLines(h + [e], 0) == ContextLines(h, 0) + [ContextLine(|h|, e)]
  {
    var a := ContextLines(h + [e], 0);
    var b := ContextLines(h, 0) + [ContextLine(|h|, e)];
    assert |a| == |b|;
    forall k | 0 <= k < |a| ensures a[k] == b[k] {
      if k < |h| {
        assert (h + [e])[k] == h[k];
      }
    }
  }

  /** Appending an entry appends its line to the context: the first step
      sees no context, and step `i` sees the `i` earlier entries as
      "Step 1 …" up to "Step i …", in order. */
  lemma ContextExtends(h: seq<HistoryEntry>, e: HistoryEntry)
    ensures Context([]) == ""
    ensures Context(h + [e]) == if h == [] then ContextLine(0, e) else Context(h) + "\n" + ContextLine(|h|, e)
  {
    ContextLinesAppend(h, e);
    if h != [] {
      JoinAppend("\n", ContextLines(h, 0), [ContextLine(|h|, e)]);
    }
  }

  /** The task handed to the chosen agent. */
  function EnrichedTask(agentName: string, context: string, task: string): string {
    "\n        You are " + agentName + ".\n\n        Here is the context of what has been done so far:\n        "
    + context + "\n\n        Your next task is:\n        " + task + "\n        "
  }

  /** `f"⚠️ Unknown agent: {agent_name}"` */
  function UnknownAgent(agent: Json): string {
    "⚠️ Unknown agent: " + Str(agent)
  }

  /** The routing decision for one step: the model's reply, cleaned and
      decoded, and the `agent` and `task` entries of the decoded object. */
  function Decision(step: string, decide: Decide, loads: JsonLoads): Result<(Json, Json), PyError> {
    match loads(CleanJsonBlock(decide(step)))
    case Failure(msg) => Failure(JSONDecodeError(msg))
    case Success(NonObject) => Failure(TypeError)
    case Success(Object(f)) =>
      if "agent" !in f then Failure(KeyError("agent"))
      else if "task" !in f then Failure(KeyError("task"))
      else Success((f["agent"], f["task"]))
  }

  /** A decoding failure raises the decoder's error; a decoded value that
      is not an object cannot be indexed by a string; an object must hold
      both keys, and `agent` is looked up first. */
  lemma DecisionRule(step: string, decide: Decide, loads: JsonLoads)
    ensures var parsed := loads(CleanJsonBlock(decide(step)));
      var d := Decision(step, decide, loads);
      && (parsed.Failure? ==> d == Failure(JSONDecodeError(parsed.error)))
      && (parsed == Success(NonObject) ==> d == Failure(TypeError))
      && (parsed.Success? && parsed.value.Object? ==>
            var f := parsed.value.fields;
            && (d.Success? <==> "agent" in f && "task" in f)
            && ("agent" !in f ==> d == Failure(KeyError("agent")))
            && ("agent" in f && "task" !in f ==> d == Failure(KeyError("task")))
            && (d.Success? ==> d.value == (f["agent"], f["task"])))
  {
  }

  /** Whether `agent_name in agent_registry` holds; a JSON array or object
      is unhashable and makes the test raise. */
  function Registered(agent: Json, registry: Registry): Result<bool, PyError> {
    match agent
    case JStr(n) => Success(n in registry)
    case JAtom(_) => Success(false)
    case JCompound(_) => Failure(TypeError)
  }

  /** One iteration of the executor loop over the history so far: route the
      step, then either run the registered agent on the enriched task or
      record the unknown-agent notice. */
  function StepEntry(step: string, history: seq<HistoryEntry>, decide: Decide, loads: JsonLoads,
                     registry: Registry): Result<HistoryEntry, PyError>
  {
    match Decision(step, decide, loads)
    case Failure(e) => Failure(e)
    case Success((agent, task)) =>
      var enriched := EnrichedTask(Str(agent), Context(history), Str(task));
      match Registered(agent, registry)
      case Failure(e) => Failure(e)
      case Success(known) =>
        if known then Success(HistoryEntry(step, agent, registry[agent.s](enriched)))
        else Success(HistoryEntry(step, agent, UnknownAgent(agent)))
  }

  /** A routing exception ends the step. Otherwise the step fails only on an
      unhashable agent name; a registered name runs that agent on the task
      enriched with the context of the history so far, and any other name
      still yields an entry, with the unknown-agent notice as its output.
      Every entry records the step and the agent name. */
  lemma StepEntryDispatch(step: string, history: seq<HistoryEntry>, decide: Decide, loads: JsonLoads,
                          registry: Registry)
    ensures var r := StepEntry(step, history, decide, loads, registry);
      var d := Decision(step, decide, loads);
      && (d.Failure? ==> r == Failure(d.error))
      && (d.Success? ==>
            var (agent, task) := d.value;
            && (r.Failure? <==> agent.JCompound?)
            && (r.Failure? ==> r.error == TypeError)
            && (r.Success? ==> r.value.step == step && r.value.agent == agent)
            && (agent.JStr? && agent.s in registry ==>
                  r == Success(HistoryEntry(step, agent, registry[agent.s](EnrichedTask(agent.s, Context(history), Str(task))))))
            && (agent.JAtom? || (agent.JStr? && agent.s !in registry) ==>
                  r == Success(HistoryEntry(step, agent, UnknownAgent(agent)))))
  {
  }

  /** One loop iteration as a function of the step and the history so far. */
  type StepFn = (string, seq<HistoryEntry>) -> Result<HistoryEntry, PyError>

  /** The iteration of `executor_agent` for a given model, decoder and
      registry. */
  function ExecutorStep(decide: Decide, loads: JsonLoads, registry: Registry): StepFn {
    (step, history) => StepEntry(step, history, decide, loads, registry)
  }

  /** The executor loop from the history `history` over the remaining
      steps; the first exception ends the run. */
  function RunSteps(steps: seq<string>, history: seq<HistoryEntry>, next: StepFn): Result<seq<HistoryEntry>, PyError>
    decreases |steps|
  {
    if steps == [] then Success(history)
    else
      match next(steps[0], history)
      case Failure(e) => Failure(e)
      case Success(entry) => RunSteps(steps[1..], history + [entry], next)
  }

  /** The first step of a run decides it: its exception ends the run, its
      entry is appended before the rest runs. */
  lemma RunStepsUnfold(steps: seq<string>, history: seq<HistoryEntry>, next: StepFn)
    requires steps != []
    ensures next(steps[0], history).Failure? ==>
      RunSteps(steps, history, next) == Failure(next(steps[0], history).error)
    ensures next(steps[0], history).Success? ==>
      RunSteps(steps, history, next) == RunSteps(steps[1..], history + [next(steps[0], history).value], next)
  {
  }

  /** A run that finishes adds exactly one entry per step and keeps the
      earlier entries; each new entry is the one its step yields against
      the entries before it. */
  lemma {:induction false} RunStepsShape(steps: seq<string>, history: seq<HistoryEntry>, next: StepFn)
    requires RunSteps(steps, history, next).Success?
    ensures var h := RunSteps(steps, history, next).value;
      && |h| == |history| + |steps|
      && h[..|history|] == history
      && forall k :: 0 <= k < |steps| ==> next(steps[k], h[..|history| + k]) == Success(h[|history| + k])
    decreases |steps|
  {
    if steps != [] {
      var entry := next(steps[0], history).value;
      var longer := history + [entry];
      RunStepsShape(steps[1..], longer, next);
      var h := RunSteps(steps, history, next).value;
      assert h == RunSteps(steps[1..], longer, next).value;
      assert h[..|history|] == h[..|longer|][..|history|];
      forall k | 0 <= k < |steps|
        ensures next(steps[k], h[..|history| + k]) == Success(h[|history| + k])
      {
        if k == 0 {
          assert h[..|history|] == history;
          assert h[|history|] == h[..|longer|][|history|] == entry;
        } else {
          assert steps[k] == steps[1..][k - 1];
          assert |history| + k == |longer| + (k - 1);
        }
      }
    }
  }

  /** A run fails exactly when some step fails against the entries of the
      steps before it, and then it fails with that step's exception. */
  lemma {:induction false} RunStepsFails(steps: seq<string>, history: seq<HistoryEntry>, next: StepFn)
    requires RunSteps(steps, history, next).Failure?
    ensures exists k, prefix ::
      && 0 <= k < |steps| && |prefix| == k
      && RunSteps(steps[..k], history, next) == Success(history + prefix)
      && next(steps[k], history + prefix) == Failure(RunSteps(steps, history, next).error)
    decreases |steps|
  {
    var first := next(steps[0], history);
    if first.Failure? {
      assert steps[..0] == [];
      assert history + [] == history;
    } else {
      var longer := history + [first.value];
      RunStepsUnfold(steps, history, next);
      RunStepsFails(steps[1..], longer, next);
      var e := RunSteps(steps, history, next).error;
      var k, prefix :| 0 <= k < |steps[1..]| && |prefix| == k
        && RunSteps(steps[1..][..k], longer, next) == Success(longer + prefix)
        && next(steps[1..][k], longer + prefix) == Failure(e);
      RunPrefixExtends(steps, history, next, k, prefix);
      assert steps[k + 1] == steps[1..][k];
      assert longer + prefix == history + ([first.value] + prefix);
    }
  }

  /** A successful run of the first `k` steps after a successful first step
      is a successful run of the first `k + 1` steps. */
  lemma RunPrefixExtends(steps: seq<string>, history: seq<HistoryEntry>, next: StepFn,
                         k: nat, prefix: seq<HistoryEntry>)
    requires k < |steps| - 1 && next(steps[0], history).Success?
    requires RunSteps(steps[1..][..k], history + [next(steps[0], history).value], next)
      == Success(history + [next(steps[0], history).value] + prefix)
    ensures RunSteps(steps[..k + 1], history, next) == Success(history + ([next(steps[0], history).value] + prefix))
  {
    var first := next(steps[0], history).value;
    assert steps[..k + 1][0] == steps[0];
    assert steps[..k + 1][1..] == steps[1..][..k];
    RunStepsUnfold(steps[..k + 1], history, next);
    assert history + [first] + prefix == history + ([first] + prefix);
  }

  /** From an empty history, a finished run of `executor_agent` holds one
      entry per executed step, at most four with `limit_steps`, recording
      the step at the same position of the plan; the entry for step `k` is
      the one that step yields with the first `k` entries as context. */
  lemma HistoryFollowsPlan(plan: seq<string>, limitSteps: bool, decide: Decide, loads: JsonLoads,
                           registry: Registry)
    requires RunSteps(PlanSteps(plan, limitSteps), [], ExecutorStep(decide, loads, registry)).Success?
    ensures var h := RunSteps(PlanSteps(plan, limitSteps), [], ExecutorStep(decide, loads, registry)).value;
      && |h| == |PlanSteps(plan, limitSteps)|
      && (limitSteps ==> |h| <= MaxSteps)
      && forall k :: 0 <= k < |h| ==>
           && h[k].step == plan[k]
           && StepEntry(plan[k], h[..k], decide, loads, registry) == Success(h[k])
  {
    var steps := PlanSteps(plan, limitSteps);
    var next := ExecutorStep(decide, loads, registry);
    RunStepsShape(steps, [], next);
    var h := RunSteps(steps, [], next).value;
    forall k | 0 <= k < |h|
      ensures h[k].step == plan[k]
      ensures StepEntry(plan[k], h[..k], decide, loads, registry) == Success(h[k])
    {
      assert steps[k] == plan[..|steps|][k] == plan[k];
      assert next(steps[k], h[..0 + k]) == Success(h[0 + k]);
      StepEntryDispatch(plan[k], h[..k], decide, loads, registry);
    }
  }

  /** The `for` loop of `executor_agent`, for any iteration `next`: each
      step appends its entry to the history, and an exception in a step
      ends the loop with that exception. */
  method RunLoop(steps: seq<string>, next: StepFn) returns (r: Result<seq<HistoryEntry>, PyError>)
    ensures r == RunSteps(steps, [], next)
  {
    var history: seq<HistoryEntry> := [];
    var i := 0;
    assert steps[0..] == steps;
    while i < |steps|
      invariant 0 <= i <= |steps|
      invariant RunSteps(steps[i..], history, next) == RunSteps(steps, [], next)
    {
      var entry := next(steps[i], history);
      RunStepsUnfold(steps[i..], history, next);
      if entry.Failure? {
        return Failure(entry.error);
      }
      assert steps[i..][1..] == steps[i + 1..];
      history := history + [entry.value];
      i := i + 1;
    }
    assert steps[i..] == [];
    return Success(history);
  }

  /** `executor_agent`: the plan's steps, at most four of them with
      `limit_steps` (on unless the caller turns it off), each routed and run in turn with the history of the
      earlier steps as context. An exception in a step ends the run with
      that exception. */
  method ExecutorAgent(planSteps: seq<string>, decide: Decide, loads: JsonLoads, registry: Registry,
                       limitSteps: bool := true)
    returns (r: Result<seq<HistoryEntry>, PyError>)
    ensures r == RunSteps(PlanSteps(planSteps, limitSteps), [], ExecutorStep(decide, loads, registry))
  {
    var steps := planSteps;
    if limitSteps {
      steps := steps[..if |steps| < MaxSteps then |steps| else MaxSteps];
    }
    r := RunLoop(steps, ExecutorStep(decide, loads, registry));
  }
}
