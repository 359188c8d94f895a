/**
  The tool decorator of `tools/generate_post_tools/generate_post_mixins.py`
  as used by the post-text generator: the stop checks around a tool run,
  the fixed order of the hooks, and the remarks loop of
  `human_check_results`.

  The generator's own event is both the stop event the decorator checks and
  the one `stop()` sets. What the tool returns, whether a stop is requested
  while it runs, and what the user has put on the remarks queue are inputs.
 */
module PostMixins {
  import opened Outcomes
  import opened PyStr

  // ---------------------------------------------------------------------
  // check_stopping

  const StopPrefix: string := "Stop on tool "
  const BeforeToolRun: string := "before tool run"
  const AfterToolRun: string := "after tool run"

  /** `"Stop on tool {}, {}".format(name, stage)`. */
  function StopMessage(name: string, stage: string): (m: string)
    ensures StartsWith(m, StopPrefix) && EndsWith(m, ", " + stage)
    ensures OccursAt(m, name, |StopPrefix|)
  {
    var m := StopPrefix + name + ", " + stage;
    assert m[..|StopPrefix|] == StopPrefix;
    assert m[|StopPrefix|..|StopPrefix| + |name|] == name;
    assert m[|m| - |", " + stage|..] == ", " + stage;
    m
  }

  /**
    `check_stopping(message)` on a stop event that is `None` (no event
    attached) or `Some(isSet)`. Returns the event afterwards and the
    exception raised, if any.
   */
  function CheckStopping(event: Option<bool>, message: string): (r: (Option<bool>, Option<Error>))
    ensures r.1.Some? <==> event == Some(true)
    ensures r.1.Some? ==> r.1.value == RunStop(message) && r.0 == Some(false)
    ensures r.1.None? ==> r.0 == event
    ensures r.0 != Some(true)
  {
    if event == Some(true) then (Some(false), Some(RunStop(message))) else (event, None)
  }

  /** The event is cleared when it fires, so a second check right after never raises. */
  lemma CheckStoppingOnce(event: Option<bool>, first: string, second: string)
    ensures var (after, _) := CheckStopping(event, first);
            CheckStopping(after, second) == (after, None)
  {
  }

  // ---------------------------------------------------------------------
  // The post generator's state and stop()

  /**
    The fields of a `PostTextGeneratorTool` that the decorator reads or
    writes. `remarkQueue` is `None` when no queue is attached and otherwise
    the items waiting on it, oldest first; `renderStops` counts the `None`s
    put on the render queue.
   */
  datatype ToolState = ToolState(
    streamlit: bool,
    remarkQueue: Option<seq<Option<string>>>,
    iterations: int,
    maxIterations: int,
    newPrompt: string,
    stopSet: bool,
    renderStops: nat,
    finished: bool)

  /** `PostTextGeneratorTool.stop`: ends the remarks queue and the render queue and sets the stop event. */
  function Stop(s: ToolState): (t: ToolState)
    requires s.remarkQueue.Some?
    ensures t.stopSet && t.renderStops == s.renderStops + 1
    ensures t.remarkQueue == Some(s.remarkQueue.value + [None])
    ensures t.(stopSet := s.stopSet, renderStops := s.renderStops, remarkQueue := s.remarkQueue) == s
  {
    s.(remarkQueue := Some(s.remarkQueue.value + [None]), renderStops := s.renderStops + 1, stopSet := true)
  }

  // ---------------------------------------------------------------------
  // human_check_results

  const RemarksHead: string := "Исправь следующий текст поста согласно замечаниям: '"
  const RemarksMiddle: string := "'. Вот текущий текст: '"
  const RemarksTail: string := "'"

  /** The regeneration prompt built from a remark and the current text. */
  function RemarkPrompt(remark: string, results: string): (p: string)
    ensures |p| == |RemarksHead| + |remark| + |RemarksMiddle| + |results| + |RemarksTail|
  {
    RemarksHead + remark + RemarksMiddle + results + RemarksTail
  }

  /** The remark and the current text can be read back from the prompt at fixed offsets. */
  lemma RemarkPromptReadBack(remark: string, results: string)
    ensures var p := RemarkPrompt(remark, results);
            StartsWith(p, RemarksHead) && EndsWith(p, RemarksTail)
            && OccursAt(p, remark, |RemarksHead|)
            && OccursAt(p, results, |RemarksHead| + |remark| + |RemarksMiddle|)
  {
    var p := RemarkPrompt(remark, results);
    var i := |RemarksHead| + |remark| + |RemarksMiddle|;
    assert p[..|RemarksHead|] == RemarksHead;
    assert p[|RemarksHead|..|RemarksHead| + |remark|] == remark;
    assert p[i..i + |results|] == results;
    assert p[|p| - |RemarksTail|..] == RemarksTail;
  }

  /** What `human_check_results` leaves behind and returns. */
  datatype Checked = Checked(state: ToolState, results: string)

  /** The check acts only with a remarks queue and a Streamlit viewer. */
  predicate Active(s: ToolState) {
    s.remarkQueue.Some? && s.streamlit
  }

  /**
    `human_check_results(results)`. `None` means the call waits forever on
    an empty queue.
   */
  function HumanCheckResults(s: ToolState, results: string): (r: Option<Checked>)
    ensures !Active(s) ==> r == Some(Checked(s, results))
    ensures Active(s) && s.iterations == s.maxIterations ==> r == Some(Checked(Stop(s), results))
    ensures Active(s) && s.iterations != s.maxIterations ==> (r.None? <==> s.remarkQueue.value == [])
    ensures r.Some? ==> r.value.results == results
    ensures r.Some? ==> r.value.state.finished == s.finished && r.value.state.maxIterations == s.maxIterations
  {
    if !Active(s) then Some(Checked(s, results))
    else if s.iterations == s.maxIterations then Some(Checked(Stop(s), results))
    else
      var queue := s.remarkQueue.value;
      if queue == [] then None
      else
        var remark := queue[0];
        var s1 := s.(remarkQueue := Some(queue[1..]));
        if remark.None? || remark.value == [] then Some(Checked(s1.(newPrompt := []), results))
        else Some(Checked(s1.(iterations := s.iterations + 1, newPrompt := RemarkPrompt(remark.value, results)), results))
  }

  /** An empty or `None` remark clears the prompt, consumes the remark and keeps the counter. */
  lemma EmptyRemarkClearsPrompt(s: ToolState, results: string)
    requires Active(s) && s.iterations != s.maxIterations
    requires s.remarkQueue.value != [] && (s.remarkQueue.value[0].None? || s.remarkQueue.value[0].value == [])
    ensures HumanCheckResults(s, results)
            == Some(Checked(s.(remarkQueue := Some(s.remarkQueue.value[1..]), newPrompt := []), results))
  {
  }

  /** A non-empty remark is consumed, counted once, and turned into the regeneration prompt. */
  lemma RemarkCounted(s: ToolState, results: string)
    requires Active(s) && s.iterations != s.maxIterations
    requires s.remarkQueue.value != [] && s.remarkQueue.value[0].Some? && s.remarkQueue.value[0].value != []
    ensures var r := HumanCheckResults(s, results);
            var remark := s.remarkQueue.value[0].value;
            r.Some? && r.value.state.iterations == s.iterations + 1
            && OccursAt(r.value.state.newPrompt, remark, |RemarksHead|)
            && OccursAt(r.value.state.newPrompt, results, |RemarksHead| + |remark| + |RemarksMiddle|)
            && r.value.state.remarkQueue == Some(s.remarkQueue.value[1..])
  {
    RemarkPromptReadBack(s.remarkQueue.value[0].value, results);
  }

  /** One check moves the counter by at most one and never past the maximum. */
  lemma HumanCheckKeepsBound(s: ToolState, results: string)
    requires s.iterations <= s.maxIterations
    ensures var r := HumanCheckResults(s, results);
            r.Some? ==> s.iterations <= r.value.state.iterations <= s.iterations + 1
                        && r.value.state.iterations <= r.value.state.maxIterations
  {
  }

  /**
    Successive checks of the texts `outputs`, one per generation round;
    `None` once a round waits forever.
   */
  function Rounds(s: ToolState, outputs: seq<string>): (r: Option<ToolState>)
    ensures outputs == [] ==> r == Some(s)
    ensures r.Some? ==> r.value.maxIterations == s.maxIterations
    decreases |outputs|
  {
    if outputs == [] then Some(s)
    else
      match HumanCheckResults(s, outputs[0])
      case None => None
      case Some(c) => Rounds(c.state, outputs[1..])
  }

  /**
    However many rounds run, the remarks counter stays within
    `max_remarks_iterations` and rises by at most one per round.
   */
  lemma {:induction false} RoundsKeepBound(s: ToolState, outputs: seq<string>)
    requires s.iterations <= s.maxIterations
    ensures var r := Rounds(s, outputs);
            r.Some? ==> s.iterations <= r.value.iterations <= s.maxIterations
                        && r.value.iterations <= s.iterations + |outputs|
    decreases |outputs|
  {
    if outputs != [] {
      HumanCheckKeepsBound(s, outputs[0]);
      var c := HumanCheckResults(s, outputs[0]);
      if c.Some? {
        RoundsKeepBound(c.value.state, outputs[1..]);
      }
    }
  }

  /** At the maximum, every round calls `stop()` and consumes no remark. */
  lemma {:induction false} AtMaximumEveryRoundStops(s: ToolState, outputs: seq<string>)
    requires Active(s) && s.iterations == s.maxIterations
    ensures var r := Rounds(s, outputs);
            r.Some? && r.value.iterations == s.iterations && r.value.renderStops == s.renderStops + |outputs|
            && r.value.remarkQueue.Some?
            && r.value.remarkQueue.value == s.remarkQueue.value + seq(|outputs|, _ => None)
            && (outputs != [] ==> r.value.stopSet)
    decreases |outputs|
  {
    if outputs != [] {
      var t := Stop(s);
      AtMaximumEveryRoundStops(t, outputs[1..]);
      var n := |outputs| - 1;
      assert t.remarkQueue.value + seq(n, _ => None) == s.remarkQueue.value + seq(|outputs|, _ => None);
      if n > 0 {
        StopStaysSet(t, outputs[1..]);
      }
    }
  }

  /** Once set at the maximum, the stop event stays set through later rounds. */
  lemma {:induction false} StopStaysSet(s: ToolState, outputs: seq<string>)
    requires Active(s) && s.iterations == s.maxIterations && outputs != []
    ensures Rounds(s, outputs).Some? && Rounds(s, outputs).value.stopSet
    decreases |outputs|
  {
    if |outputs| > 1 {
      StopStaysSet(Stop(s), outputs[1..]);
    }
  }

  // ---------------------------------------------------------------------
  // view_decorator

  /** The hooks the decorated `_run` calls. */
  datatype Hook =
    | StopCheck(stage: string)
    | BeforeRun
    | Execute
    | ProgramCheck
    | ViewResults
    | HumanCheck
    | SetFinished

  /** The order of a run that completes. */
  const FullOrder: seq<Hook> :=
    [StopCheck(BeforeToolRun), BeforeRun, Execute, StopCheck(AfterToolRun), ProgramCheck, ViewResults, HumanCheck, SetFinished]

  /**
    What one decorated run did: its outcome (`None` when it waits forever
    for a remark), the hooks called in order, and the state afterwards.
   */
  datatype Wrapped = Wrapped(outcome: Option<Result<string>>, hooks: seq<Hook>, state: ToolState)

  /**
    The decorated `_run` of the tool called `name`, whose undecorated run
    has outcome `tool`; `stopDuringRun` says whether a stop was requested
    while it ran.
   */
  function Wrapper(name: string, s: ToolState, tool: Result<string>, stopDuringRun: bool): (w: Wrapped)
    ensures 0 < |w.hooks| <= |FullOrder| && w.hooks == FullOrder[..|w.hooks|]
    ensures s.stopSet <==> |w.hooks| < 3
    ensures s.stopSet ==> w.outcome == Some(Failure(RunStop(StopMessage(name, BeforeToolRun)))) && !w.state.stopSet
    ensures tool.Failure? && !s.stopSet ==>
              w.outcome == Some(tool) && |w.hooks| == 3 && w.state == s.(stopSet := stopDuringRun)
    ensures w.state.finished <==> s.finished || (tool.Success? && w.outcome == Some(Success(tool.value)))
    ensures w.outcome.Some? && w.outcome.value.Success? ==>
              tool.Success? && w.outcome.value.value == tool.value && w.hooks == FullOrder
    ensures w.outcome.None? ==> |w.hooks| == 7 && Active(s) && s.iterations != s.maxIterations
  {
    var (event1, stop1) := CheckStopping(Some(s.stopSet), StopMessage(name, BeforeToolRun));
    if stop1.Some? then Wrapped(Some(Failure(stop1.value)), FullOrder[..1], s.(stopSet := event1.value))
    else if tool.Failure? then Wrapped(Some(tool), FullOrder[..3], s.(stopSet := stopDuringRun))
    else
      var (event2, stop2) := CheckStopping(Some(stopDuringRun), StopMessage(name, AfterToolRun));
      var s1 := s.(stopSet := event2.value);
      if stop2.Some? then Wrapped(Some(Failure(stop2.value)), FullOrder[..4], s1)
      else
        match HumanCheckResults(s1, tool.value)
        case None => Wrapped(None, FullOrder[..7], s1)
        case Some(c) => Wrapped(Some(Success(c.results)), FullOrder, c.state.(finished := true))
  }

  /** A stop requested during the run is reported after it, before any check of the results. */
  lemma StopDuringRunReported(name: string, s: ToolState, output: string)
    requires !s.stopSet
    ensures var w := Wrapper(name, s, Success(output), true);
            w.outcome == Some(Failure(RunStop(StopMessage(name, AfterToolRun))))
            && w.hooks == FullOrder[..4] && !w.state.stopSet && w.state.finished == s.finished
  {
  }

  /**
    A tool that raises skips the second stop check, so a stop requested
    while it ran stays pending: the next decorated run stops before running
    the tool.
   */
  lemma StopDuringFailedRunCarriesOver(name: string, s: ToolState, e: Error, next: Result<string>, stopAgain: bool)
    requires !s.stopSet
    ensures var w := Wrapper(name, s, Failure(e), true);
            var w2 := Wrapper(name, w.state, next, stopAgain);
            w.outcome == Some(Failure(e)) && w.state.stopSet
            && w2.outcome == Some(Failure(RunStop(StopMessage(name, BeforeToolRun))))
            && w2.hooks == [StopCheck(BeforeToolRun)] && !w2.state.stopSet
  {
    var w := Wrapper(name, s, Failure(e), true);
    assert w.state.stopSet;
    assert FullOrder[..1] == [StopCheck(BeforeToolRun)];
  }

  /** A completed run leaves the counter within its bound. */
  lemma WrapperKeepsBound(name: string, s: ToolState, tool: Result<string>, stopDuringRun: bool)
    requires s.iterations <= s.maxIterations
    ensures var w := Wrapper(name, s, tool, stopDuringRun);
            s.iterations <= w.state.iterations <= s.iterations + 1 && w.state.iterations <= s.maxIterations
  {
    if !s.stopSet && tool.Success? && !stopDuringRun {
      HumanCheckKeepsBound(s.(stopSet := false), tool.value);
    }
  }
}
