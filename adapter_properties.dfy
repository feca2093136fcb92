/**
 * What the adapter's handlers promise, stated over the transition functions of
 * AdapterModel: the step-result rules, create-or-adopt by name, rendering each
 * Examples block once, the scenario's parent and categories, step naming, the
 * embed filter and counter, and the write guard.
 */
module AdapterProperties {
  import opened Wrappers
  import opened JavaText
  import opened ReportModel
  import opened Gherkin
  import opened AdapterModel

  // ---------------------------------------------------------------- updateResult

  /** failed and pending mark the step Fail with the result's error, undefined
    * with "Step undefined". */
  lemma FailureResultsLogFail(s: State, w: Worker, result: StepResult)
    requires Valid(s) && s.Ctx(w).step.Some?
    requires result.status == Failed || result.status == Pending || result.status == Undefined
    ensures var id := s.Ctx(w).step.value;
            var detail := if result.status == Undefined then Text("Step undefined") else Thrown(result.error);
            AfterUpdateResult(s, w, result) == Transition(s.(nodes := AddLog(s.nodes, id, Log(Fail, detail, None))), Completed)
  {
  }

  /** A status the switch has no case for changes nothing. */
  lemma UnrecognisedResultsChangeNothing(s: State, w: Worker, result: StepResult)
    requires Valid(s) && s.Ctx(w).step.Some?
    requires result.status == Ambiguous || result.status == Unused
    ensures AfterUpdateResult(s, w, result) == Transition(s, Completed)
  {
  }

  /** With no current step, every result throws and nothing changes. */
  lemma ResultWithoutStepThrows(s: State, w: Worker, result: StepResult)
    requires Valid(s) && s.Ctx(w).step.None?
    ensures AfterUpdateResult(s, w, result) == Transition(s, Threw(NullPointer))
  {
  }

  /** A skipped hook leaves the tree, with no log entry added: it is no longer
    * anyone's child, and every other child list keeps its order. */
  lemma SkippedHookRemoved(s: State, w: Worker, result: StepResult)
    requires Valid(s) && s.Ctx(w).step.Some? && s.Ctx(w).isHook == Some(true)
    requires result.status == Skipped
    ensures var id := s.Ctx(w).step.value;
            var r := AfterUpdateResult(s, w, result);
            && r.outcome == Completed
            && r.after.nodes == Detach(s.nodes, id)
            && r.after.nodes[id].logs == s.nodes[id].logs
            && (forall p :: id !in ChildrenOf(r.after.nodes, p))
            && (forall p :: ChildrenOf(r.after.nodes, p) == Without(ChildrenOf(s.nodes, p), id))
  {
    var id := s.Ctx(w).step.value;
    var ns := AfterUpdateResult(s, w, result).after.nodes;
    assert ns == Detach(s.nodes, id);
    forall p ensures ChildrenOf(ns, p) == Without(ChildrenOf(s.nodes, p), id) {
      ChildrenOfDetach(s.nodes, id, p);
    }
  }

  /** A skip with an error is always logged with that error. */
  lemma SkipWithErrorLogged(s: State, w: Worker, result: StepResult)
    requires Valid(s) && s.Ctx(w).step.Some? && s.Ctx(w).isHook == Some(false)
    requires result.status == Skipped && result.error.Some?
    ensures var id := s.Ctx(w).step.value;
            AfterUpdateResult(s, w, result)
              == Transition(s.(nodes := AddLog(s.nodes, id, Log(Skip, Thrown(result.error), None))), Completed)
  {
  }

  /** A skip without an error adds "Step skipped" unless the step's last entry is
    * already a Skip, so repeating the result adds nothing more. */
  lemma SkipNotRepeated(s: State, w: Worker, result: StepResult)
    requires Valid(s) && s.Ctx(w).step.Some? && s.Ctx(w).isHook == Some(false)
    requires result.status == Skipped && result.error.None?
    ensures Valid(AfterUpdateResult(s, w, result).after)
    ensures var id := s.Ctx(w).step.value;
            var r := AfterUpdateResult(s, w, result);
            && r.outcome == Completed
            && EndsWithSkip(r.after.nodes[id].logs)
            && (r.after == s <==> EndsWithSkip(s.nodes[id].logs))
            && (!EndsWithSkip(s.nodes[id].logs) ==>
                  r.after.nodes == AddLog(s.nodes, id, Log(Skip, Text("Step skipped"), None)))
            && AfterUpdateResult(r.after, w, result) == Transition(r.after, Completed)
  {
    UpdateResultKeepsInvariant(s, w, result);
    CtxValid(s, w);
    var id := s.Ctx(w).step.value;
    var logs := s.nodes[id].logs;
    var r := AfterUpdateResult(s, w, result);
    if EndsWithSkip(logs) {
      assert ResultVerdict(result, Some(false), logs) == Unchanged;
      assert r.after == s;
    } else {
      var e := Log(Skip, Text("Step skipped"), None);
      assert ResultVerdict(result, Some(false), logs) == Append(e);
      var ns := AddLog(s.nodes, id, e);
      assert r.after == s.(nodes := ns);
      assert ns[id].logs == logs + [e];
      assert |ns[id].logs| != |logs|;
      assert r.after.Ctx(w) == s.Ctx(w);
      assert ResultVerdict(result, Some(false), ns[id].logs) == Unchanged;
    }
  }

  /** A passed hook is removed exactly when it has no log entries (and so no
    * media), and it is given a Pass entry either way. */
  lemma PassedHookRule(s: State, w: Worker, result: StepResult)
    requires Valid(s) && s.Ctx(w).step.Some? && s.Ctx(w).isHook == Some(true)
    requires result.status == Passed
    ensures var id := s.Ctx(w).step.value;
            var r := AfterUpdateResult(s, w, result);
            && r.outcome == Completed
            && r.after.nodes[id].logs == s.nodes[id].logs + [PassEntry]
            && (r.after.nodes[id].attached <==> s.nodes[id].attached && |s.nodes[id].logs| > 0)
            && (forall i :: 0 <= i < |s.nodes| && i != id ==> r.after.nodes[i] == s.nodes[i])
  {
    var id := s.Ctx(w).step.value;
    if |s.nodes[id].logs| == 0 {
      assert !HasMedia(s.nodes[id].logs);
    }
  }

  /** Any result on a step that is not a hook appends at most one entry and
    * removes nothing: every child list stays as it was. */
  lemma StepResultsKeepChildren(s: State, w: Worker, result: StepResult, p: Option<nat>)
    requires Valid(s) && s.Ctx(w).isHook == Some(false)
    ensures ChildrenOf(AfterUpdateResult(s, w, result).after.nodes, p) == ChildrenOf(s.nodes, p)
  {
    var ns := AfterUpdateResult(s, w, result).after.nodes;
    if s.Ctx(w).step.Some? {
      var id := s.Ctx(w).step.value;
      assert forall i :: 0 <= i < |s.nodes| ==> ns[i].parent == s.nodes[i].parent && ns[i].attached == s.nodes[i].attached;
      ChildrenOfSameShape(s.nodes, ns, p);
    }
  }

  // ---------------------------------------------------------------- features and outlines

  /** An unknown document throws at the feature's language, after the file is recorded. */
  lemma UnknownFeatureThrows(s: State, w: Worker, src: Sources, lib: Library, uri: Uri)
    requires Valid(s) && GetFeature(src, uri).None?
    ensures AfterStartOfFeature(s, w, src, lib, uri)
              == Transition(s.WithCtx(w, s.Ctx(w).(featureFile := Some(uri))), Threw(NullPointer))
  {
  }

  /** Every case start adopts the registered feature of that name or creates and
    * registers exactly one; afterwards the worker's feature is the only Feature
    * node with that name. */
  lemma FeatureCreatedOrAdopted(s: State, w: Worker, src: Sources, lib: Library, uri: Uri)
    requires Valid(s) && GetFeature(src, uri).Some?
    ensures Valid(AfterStartOfFeature(s, w, src, lib, uri).after)
    ensures var f := GetFeature(src, uri).value;
            var r := AfterStartOfFeature(s, w, src, lib, uri);
            var c := r.after.Ctx(w);
            && r.outcome == Completed
            && c.featureFile == Some(uri)
            && c.feature.Some? && c.feature.value < |r.after.nodes|
            && r.after.nodes[c.feature.value].kind == Feature
            && r.after.nodes[c.feature.value].name == f.name
            && (forall i :: 0 <= i < |r.after.nodes| && r.after.nodes[i].kind == Feature && r.after.nodes[i].name == f.name
                  ==> c.feature == Some(i))
            && (f.name in s.featureMap ==>
                  r.after.nodes == s.nodes && r.after.featureMap == s.featureMap
                  && c.featureTags == s.Ctx(w).featureTags)
            && (f.name !in s.featureMap ==>
                  r.after.nodes == s.nodes + [NewNode(Feature, f.name, f.description, None)]
                  && r.after.featureMap == s.featureMap[f.name := |s.nodes|]
                  && c.featureTags == Some(TagSet(f.tags))
                  && ChildrenOf(r.after.nodes, None) == ChildrenOf(s.nodes, None) + [|s.nodes|])
  {
    StartOfFeatureKeepsInvariant(s, w, src, lib, uri);
    var f := GetFeature(src, uri).value;
    if f.name !in s.featureMap {
      ChildrenOfAppend(s.nodes, NewNode(Feature, f.name, f.description, None), None);
    }
  }

  /** createScenarioOutline with no current outline: adopt the registered outline
    * of that name, or create one under the current feature whose categories are
    * the feature tags and the outline's own tags. */
  lemma OutlineCreatedOrAdopted(s: State, w: Worker, sc: ScenarioDef)
    requires Valid(s) && s.Ctx(w).outline.None?
    requires sc.name in s.outlineMap || s.Ctx(w).feature.Some?
    ensures Valid(AfterCreateScenarioOutline(s, w, sc).after)
    ensures var r := AfterCreateScenarioOutline(s, w, sc);
            var c0 := s.Ctx(w);
            var c := r.after.Ctx(w);
            && r.outcome == Completed
            && c.outline.Some? && c.outline.value < |r.after.nodes|
            && r.after.nodes[c.outline.value].kind == ScenarioOutline
            && r.after.nodes[c.outline.value].name == sc.name
            && (forall i :: 0 <= i < |r.after.nodes| && r.after.nodes[i].kind == ScenarioOutline && r.after.nodes[i].name == sc.name
                  ==> c.outline == Some(i))
            && (sc.name in s.outlineMap ==>
                  r.after.nodes == s.nodes && c.outlineTags == c0.outlineTags)
            && (sc.name !in s.outlineMap ==>
                  var id := |s.nodes|;
                  && |r.after.nodes| == id + 1 && r.after.nodes[..id] == s.nodes
                  && r.after.nodes[id].parent == c0.feature
                  && r.after.nodes[id].categories == Tags(c0.featureTags) + TagSet(sc.tags)
                  && r.after.outlineMap == s.outlineMap[sc.name := id]
                  && c.outlineTags == Some(TagSet(sc.tags))
                  && ChildrenOf(r.after.nodes, c0.feature) == ChildrenOf(s.nodes, c0.feature) + [id])
  {
    CreateScenarioOutlineKeepsInvariant(s, w, sc);
    var c0 := s.Ctx(w);
    if sc.name !in s.outlineMap {
      var n := NewNode(ScenarioOutline, sc.name, sc.description, c0.feature)
                 .(categories := Tags(c0.featureTags) + TagSet(sc.tags));
      ChildrenOfAppend(s.nodes, n, c0.feature);
      assert (s.nodes + [n])[..|s.nodes|] == s.nodes;
    }
  }

  /** A case whose scenario has no Examples clears the three outline cursors and
    * changes nothing else. */
  lemma PlainScenarioClearsOutline(s: State, w: Worker, src: Sources, lib: Library, line: int)
    requires Valid(s)
    requires GetAstNode(src, s.Ctx(w).featureFile, line).Some?
    requires |GetAstNode(src, s.Ctx(w).featureFile, line).value.scenario.examples| == 0
    ensures AfterScenarioOutline(s, w, src, lib, line)
              == Transition(s.WithCtx(w, s.Ctx(w).(outline := None, outlineDefinition := None, examples := None)), Completed)
  {
  }

  /** Meeting the Examples block already tracked, under the outline already
    * tracked, changes nothing: the description is not rendered again. */
  lemma SameExamplesNotRenderedAgain(s: State, w: Worker, src: Sources, lib: Library, line: int)
    requires Valid(s)
    requires GetAstNode(src, s.Ctx(w).featureFile, line).Some?
    requires GetAstNode(src, s.Ctx(w).featureFile, line).value.ExamplesRowAt?
    requires var node := GetAstNode(src, s.Ctx(w).featureFile, line).value;
             && |node.scenario.examples| > 0
             && s.Ctx(w).outlineDefinition.Some? && s.Ctx(w).outlineDefinition.value.name == node.scenario.name
             && s.Ctx(w).examples == Some(node.examples)
    ensures AfterScenarioOutline(s, w, src, lib, line) == Transition(s, Completed)
  {
  }

  /** Rendering an Examples block rewrites only the current outline's
    * description: the old one, a separator and the new markup. */
  lemma ExamplesAppendedToDescription(s: State, w: Worker, ex: ExamplesDef, lib: Library)
    requires Valid(s) && s.Ctx(w).outline.Some?
    ensures s.Ctx(w).outline.value < |s.nodes|
    ensures var id := s.Ctx(w).outline.value;
            var r := AfterCreateExamples(s, w, ex, lib);
            var before := s.nodes[id].description;
            && r.outcome == Completed
            && |r.after.nodes| == |s.nodes|
            && r.after.nodes[id].description == Some(ExamplesDescription(before, ex, lib))
            && (before.Some? ==> before.value + "<br><br>" <= r.after.nodes[id].description.value)
            && (before.None? ==> r.after.nodes[id].description == Some(ExamplesMarkup(ex, lib)))
            && (forall i :: 0 <= i < |s.nodes| && i != id ==> r.after.nodes[i] == s.nodes[i])
  {
    CtxValid(s, w);
    var id := s.Ctx(w).outline.value;
    var before := s.nodes[id].description;
    ExamplesDescriptionExtends(before, ex, lib);
    if before.Some? {
      var d := before.value + "<br><br>";
      assert (d + ExamplesMarkup(ex, lib))[..|d|] == d;
    }
  }

  /** Tracking an outline keeps the feature file and, when it completes, leaves
    * the definition of that name tracked. */
  lemma TrackOutlineCursors(s: State, w: Worker, sc: ScenarioDef)
    requires Valid(s)
    ensures var t := AfterTrackOutline(s, w, sc);
            && t.after.Ctx(w).featureFile == s.Ctx(w).featureFile
            && (t.outcome.Completed? ==>
                  t.after.Ctx(w).outlineDefinition.Some? && t.after.Ctx(w).outlineDefinition.value.name == sc.name)
  {
    var c := s.Ctx(w);
    if !(c.outlineDefinition.Some? && c.outlineDefinition.value.name == sc.name) {
      var s0 := s.WithCtx(w, c.(outline := None));
      assert AfterCreateScenarioOutline(s0, w, sc).after.Ctx(w).featureFile == c.featureFile;
    }
  }

  /** Where the cursors stand after handleScenarioOutline completes on an outline case. */
  lemma ScenarioOutlineTracks(s: State, w: Worker, src: Sources, lib: Library, line: int)
    requires Valid(s)
    ensures Valid(AfterScenarioOutline(s, w, src, lib, line).after)
    ensures var r := AfterScenarioOutline(s, w, src, lib, line);
            var node := GetAstNode(src, s.Ctx(w).featureFile, line);
            var c := r.after.Ctx(w);
            && c.featureFile == s.Ctx(w).featureFile
            && (r.outcome.Completed? && node.Some? && |node.value.scenario.examples| > 0 ==>
                  && node.value.ExamplesRowAt?
                  && c.outlineDefinition.Some? && c.outlineDefinition.value.name == node.value.scenario.name
                  && c.examples == Some(node.value.examples))
  {
    ScenarioOutlineKeepsInvariant(s, w, src, lib, line);
    var node := GetAstNode(src, s.Ctx(w).featureFile, line);
    if node.Some? && |node.value.scenario.examples| > 0 {
      var sc := node.value.scenario;
      TrackOutlineKeepsInvariant(s, w, sc);
      TrackOutlineCursors(s, w, sc);
      OpenExamplesCursors(AfterTrackOutline(s, w, sc), w, node.value, lib);
    }
  }

  /** What the second half of handleScenarioOutline leaves in the cursors: the
    * Examples block of the row, with the rest as the first half left them. */
  lemma OpenExamplesCursors(t: Transition, w: Worker, node: AstNode, lib: Library)
    requires Valid(t.after)
    ensures var r := OpenExamples(t, w, node, lib);
            var c := r.after.Ctx(w);
            && c.featureFile == t.after.Ctx(w).featureFile
            && c.outlineDefinition == t.after.Ctx(w).outlineDefinition
            && (r.outcome.Completed? ==>
                  t.outcome.Completed? && node.ExamplesRowAt? && c.examples == Some(node.examples))
  {
    if t.outcome.Completed? && node.ExamplesRowAt? {
      var ex := node.examples;
      var c1 := t.after.Ctx(w);
      if c1.examples != Some(ex) {
        CtxValid(t.after, w);
        ValidWithCtx(t.after, w, c1.(examples := Some(ex)));
        var t1 := t.after.WithCtx(w, c1.(examples := Some(ex)));
        assert AfterCreateExamples(t1, w, ex, lib).after.contexts == t1.contexts;
      }
    }
  }

  /** handleScenarioOutline is idempotent: repeating a case that completed
    * changes nothing, so on one worker an Examples block is not rendered again
    * straight after itself. Other workers track their own Examples block. */
  lemma ScenarioOutlineIdempotent(s: State, w: Worker, src: Sources, lib: Library, line: int)
    requires Valid(s)
    ensures Valid(AfterScenarioOutline(s, w, src, lib, line).after)
    ensures var r := AfterScenarioOutline(s, w, src, lib, line);
            r.outcome.Completed? ==>
              AfterScenarioOutline(r.after, w, src, lib, line) == Transition(r.after, Completed)
  {
    ScenarioOutlineTracks(s, w, src, lib, line);
    var node := GetAstNode(src, s.Ctx(w).featureFile, line);
    if node.Some? && |node.value.scenario.examples| == 0 {
      PlainScenarioIdempotent(s, w, src, lib, line);
    } else if node.Some? && AfterScenarioOutline(s, w, src, lib, line).outcome.Completed? {
      SameExamplesNotRenderedAgain(AfterScenarioOutline(s, w, src, lib, line).after, w, src, lib, line);
    }
  }

  /** A case that is not an outline clears the outline cursors; clearing them
    * again changes nothing. */
  lemma PlainScenarioIdempotent(s: State, w: Worker, src: Sources, lib: Library, line: int)
    requires Valid(s)
    requires var node := GetAstNode(src, s.Ctx(w).featureFile, line);
             node.Some? && |node.value.scenario.examples| == 0
    ensures Valid(AfterScenarioOutline(s, w, src, lib, line).after)
    ensures var r := AfterScenarioOutline(s, w, src, lib, line);
            AfterScenarioOutline(r.after, w, src, lib, line) == Transition(r.after, Completed)
  {
    ScenarioOutlineKeepsInvariant(s, w, src, lib, line);
    var c := s.Ctx(w);
    var c1 := c.(outline := None, outlineDefinition := None, examples := None);
    var s1 := s.WithCtx(w, c1);
    assert s1.Ctx(w) == c1;
    assert s1.WithCtx(w, c1.(outline := None, outlineDefinition := None, examples := None)) == s1;
  }

  // ---------------------------------------------------------------- scenarios

  /** createTestCase on a resolved line, written out: the new scenario node with
    * its categories, and the worker's scenario cursor on it. */
  lemma ResolvedCaseTransition(s: State, w: Worker, src: Sources, tc: TestCase)
    requires Valid(s)
    requires GetAstNode(src, s.Ctx(w).featureFile, tc.line).Some?
    requires s.Ctx(w).outline.Some? || s.Ctx(w).feature.Some?
    ensures var c := s.Ctx(w);
            var parent := if c.outline.Some? then c.outline else c.feature;
            var n := NewNode(Scenario, tc.name, GetAstNode(src, c.featureFile, tc.line).value.scenario.description, parent);
            var cats := TagSet(tc.tags) + Tags(c.featureTags) + (if c.outline.Some? then Tags(c.outlineTags) else {});
            AfterCreateTestCase(s, w, src, tc)
              == Transition(s.(nodes := AddCategories(s.nodes + [n], |s.nodes|, cats)).WithCtx(w, c.(scenario := Some(|s.nodes|))), Completed)
  {
    CtxValid(s, w);
    var c := s.Ctx(w);
    var parent := if c.outline.Some? then c.outline else c.feature;
    var n := NewNode(Scenario, tc.name, GetAstNode(src, c.featureFile, tc.line).value.scenario.description, parent);
    assert (s.nodes + [n])[parent.value] == s.nodes[parent.value];
  }

  /** The scenario node goes under the current outline when there is one and
    * under the current feature otherwise; its categories are the case's tags and
    * the feature tags, and the outline tags when its parent is an outline. */
  lemma ScenarioParentAndTags(s: State, w: Worker, src: Sources, tc: TestCase)
    requires Valid(s)
    requires GetAstNode(src, s.Ctx(w).featureFile, tc.line).Some?
    requires s.Ctx(w).outline.Some? || s.Ctx(w).feature.Some?
    ensures var c0 := s.Ctx(w);
            var r := AfterCreateTestCase(s, w, src, tc);
            var parent := if c0.outline.Some? then c0.outline else c0.feature;
            var id := |s.nodes|;
            && r.outcome == Completed
            && |r.after.nodes| == id + 1 && r.after.nodes[..id] == s.nodes
            && r.after.Ctx(w).scenario == Some(id)
            && r.after.nodes[id].kind == Scenario
            && r.after.nodes[id].name == tc.name
            && r.after.nodes[id].parent == parent
            && r.after.nodes[id].categories ==
                 TagSet(tc.tags) + Tags(c0.featureTags) + (if c0.outline.Some? then Tags(c0.outlineTags) else {})
            && ChildrenOf(r.after.nodes, parent) == ChildrenOf(s.nodes, parent) + [id]
  {
    ResolvedCaseTransition(s, w, src, tc);
    var c0 := s.Ctx(w);
    var parent := if c0.outline.Some? then c0.outline else c0.feature;
    var n := NewNode(Scenario, tc.name, GetAstNode(src, c0.featureFile, tc.line).value.scenario.description, parent);
    var cats := TagSet(tc.tags) + Tags(c0.featureTags) + (if c0.outline.Some? then Tags(c0.outlineTags) else {});
    AppendWithCategories(s.nodes, n, cats, parent);
    CtxValid(s, w);
  }

  /** A case line the resolver does not know creates no scenario: the previous
    * one stays current and collects the categories. */
  lemma UnresolvedCaseTagsPreviousScenario(s: State, w: Worker, src: Sources, tc: TestCase)
    requires Valid(s)
    requires GetAstNode(src, s.Ctx(w).featureFile, tc.line).None? && s.Ctx(w).scenario.Some?
    ensures var id := s.Ctx(w).scenario.value;
            var r := AfterCreateTestCase(s, w, src, tc);
            && r.outcome == Completed
            && |r.after.nodes| == |s.nodes|
            && TagSet(tc.tags) + Tags(s.Ctx(w).featureTags) <= r.after.nodes[id].categories
            && r.after.Ctx(w) == s.Ctx(w)
  {
    CtxValid(s, w);
  }

  // ---------------------------------------------------------------- steps

  /** Every step start resets the hook flag; it ends true exactly when a hook
    * node was created. */
  lemma StepStartSetsHookFlag(s: State, w: Worker, src: Sources, lib: Library, step: TestStep)
    requires Valid(s)
    requires step.PickleStep? && step.argument.Some? ==> ArgumentWellFormed(step.argument.value)
    ensures var r := AfterTestStepStarted(s, w, src, lib, step);
            r.after.Ctx(w).isHook == Some(step.HookStep? && r.outcome.Completed?)
  {
    var c := s.Ctx(w).(isHook := Some(false));
    var s0 := s.WithCtx(w, c);
    ValidWithCtx(s, w, c);
    if step.PickleStep? {
      PickleStepKeepsHookFlag(s0, w, src, lib, step);
    }
  }

  /** A Gherkin step leaves the hook flag as it found it. */
  lemma PickleStepKeepsHookFlag(s: State, w: Worker, src: Sources, lib: Library, step: TestStep)
    requires Valid(s) && step.PickleStep?
    requires step.argument.Some? ==> ArgumentWellFormed(step.argument.value)
    ensures AfterCreateTestStep(s, w, src, lib, step).after.Ctx(w).isHook == s.Ctx(w).isHook
  {
    StepNodeKeepsInvariant(s, w, src, lib, step);
    StepNodeKeepsCursors(s, w, src, lib, step);
    var t := AfterStepNode(s, w, src, lib, step);
    if t.outcome.Completed? {
      StepArgumentKeepsCursors(t.after, w, step.argument);
    }
  }

  /** The step node moves only the step cursor. */
  lemma StepNodeKeepsCursors(s: State, w: Worker, src: Sources, lib: Library, step: TestStep)
    requires Valid(s) && step.PickleStep?
    ensures AfterStepNode(s, w, src, lib, step).after.Ctx(w) == s.Ctx(w).(step := AfterStepNode(s, w, src, lib, step).after.Ctx(w).step)
  {
  }

  /** A step argument only adds a log entry. */
  lemma StepArgumentKeepsCursors(s: State, w: Worker, argument: Option<StepArgument>)
    requires Valid(s)
    requires argument.Some? ==> ArgumentWellFormed(argument.value)
    ensures AfterStepArgument(s, w, argument).after.contexts == s.contexts
  {
  }

  /** A hook becomes an Asterisk child of the current scenario, named by its code
    * location, described by its hook type, and it becomes the current step. */
  lemma HookStepCreatesNode(s: State, w: Worker, src: Sources, lib: Library, step: TestStep)
    requires Valid(s) && step.HookStep? && s.Ctx(w).scenario.Some?
    ensures var r := AfterTestStepStarted(s, w, src, lib, step);
            var id := |s.nodes|;
            && r.outcome == Completed
            && r.after.nodes == s.nodes + [NewNode(Asterisk, step.codeLocation, Some(HookLabel(step.hookType)), s.Ctx(w).scenario)]
            && r.after.Ctx(w).step == Some(id)
            && ChildrenOf(r.after.nodes, s.Ctx(w).scenario) == ChildrenOf(s.nodes, s.Ctx(w).scenario) + [id]
  {
    ChildrenOfAppend(s.nodes, NewNode(Asterisk, step.codeLocation, Some(HookLabel(step.hookType)), s.Ctx(w).scenario), s.Ctx(w).scenario);
  }

  /** A resolved step with a keyword of the dialect becomes a child of the
    * current scenario named keyword + text, where an empty pickle text is
    * replaced by the AST text with its angle brackets escaped; an argument adds
    * one Pass entry to it. */
  lemma PickleStepCreatesNode(s: State, w: Worker, src: Sources, lib: Library, step: TestStep)
    requires Valid(s) && step.PickleStep?
    requires step.argument.Some? ==> ArgumentWellFormed(step.argument.value)
    requires s.Ctx(w).scenario.Some?
    requires GetAstNode(src, s.Ctx(w).featureFile, step.line).Some?
    requires GetAstNode(src, s.Ctx(w).featureFile, step.line).value.StepAt?
    requires Trim(GetAstNode(src, s.Ctx(w).featureFile, step.line).value.step.keyword) in Keywords(lib, s.dialect)
    ensures var sd := GetAstNode(src, s.Ctx(w).featureFile, step.line).value.step;
            var r := AfterCreateTestStep(s, w, src, lib, step);
            var id := |s.nodes|;
            var name := StepName(step.text, sd.text);
            && r.outcome == Completed
            && |r.after.nodes| == id + 1 && r.after.nodes[..id] == s.nodes
            && r.after.Ctx(w).step == Some(id)
            && r.after.nodes[id].kind == Step(Trim(sd.keyword))
            && r.after.nodes[id].name == sd.keyword + name
            && r.after.nodes[id].description == Some(step.codeLocation)
            && r.after.nodes[id].parent == s.Ctx(w).scenario
            && (step.text == "" ==> '<' !in name && '>' !in name)
            && (step.text != "" ==> name == step.text)
            && r.after.nodes[id].logs == (if step.argument.Some? then [ArgumentLog(step.argument.value)] else [])
            && (forall e :: e in r.after.nodes[id].logs ==> e.status == Pass)
  {
    var sd := GetAstNode(src, s.Ctx(w).featureFile, step.line).value.step;
    EscapeAnglesRemovesBrackets(sd.text);
    var r := AfterCreateTestStep(s, w, src, lib, step);
    var n := NewNode(Step(Trim(sd.keyword)), sd.keyword + StepName(step.text, sd.text), Some(step.codeLocation), s.Ctx(w).scenario);
    assert (s.nodes + [n])[..|s.nodes|] == s.nodes;
  }

  /** The grid a data table is rendered from has the table's rows and the first
    * row's width, and every cell is the table's value. */
  lemma DataTableArgumentCopied(cells: seq<seq<string>>)
    requires ArgumentWellFormed(DataTable(cells))
    ensures var g := ArgumentLog(DataTable(cells)).detail.markup.cells;
            && |g| == |cells|
            && (forall i :: 0 <= i < |g| ==> |g[i]| == |cells[0]|)
            && (forall i, j :: 0 <= i < |g| && 0 <= j < |cells[0]| ==> g[i][j] == Some(cells[i][j]))
  {
    DataTableGridComplete(cells);
  }

  // ---------------------------------------------------------------- embeds and writes

  /** A media type outside the six image types adds nothing and leaves the counter. */
  lemma EmbedIgnoresUnknownTypes(s: State, w: Worker, ev: EmbedEvent, base64: bool, relativePath: string,
                                 persist: PersistResult)
    requires Valid(s) && ev.mediaType !in MimeTypesExtensions
    ensures AfterEmbed(s, w, ev, base64, relativePath, persist) == Transition(s, Completed)
  {
  }

  /** With base64 sources enabled every accepted embed is an image and is
    * attached inline; the counter does not move. */
  lemma EmbedInlineWithBase64(s: State, w: Worker, ev: EmbedEvent, relativePath: string, persist: PersistResult)
    requires Valid(s) && ev.mediaType in MimeTypesExtensions
    requires s.Ctx(w).step.Some?
    ensures var r := AfterEmbed(s, w, ev, true, relativePath, persist);
            var id := s.Ctx(w).step.value;
            && r.outcome == Completed
            && r.after.embedded == s.embedded
            && r.after.nodes == AddLog(s.nodes, id, Log(Info, Text(ev.name.GetOr("")), Some(ScreenCaptureBase64(ev.data))))
  {
    MimeTypesAreImages(ev.mediaType);
  }

  /** Without base64 sources each accepted embed takes the next counter value
    * and, once stored, is attached as embedded<N>.<ext> under the relative
    * path; a failed write attaches nothing but still uses up the number. */
  lemma EmbedFileNamed(s: State, w: Worker, ev: EmbedEvent, relativePath: string, persist: PersistResult)
    requires Valid(s) && ev.mediaType in MimeTypesExtensions
    requires s.Ctx(w).step.Some?
    ensures var r := AfterEmbed(s, w, ev, false, relativePath, persist);
            var id := s.Ctx(w).step.value;
            var file := EmbeddedFileName(s.embedded + 1, MimeTypesExtensions[ev.mediaType]);
            && r.after.embedded == s.embedded + 1
            && r.outcome == (if persist.StreamFailed? then Threw(CucumberFailure) else Completed)
            && r.after.nodes == (if persist.Written?
                                 then AddLog(s.nodes, id, Log(Info, Text(ev.name.GetOr("")), Some(ScreenCapturePath(relativePath + file))))
                                 else s.nodes)
  {
  }

  /** Two file embeds in a row store under different names. */
  lemma SuccessiveEmbedsDistinct(s: State, w: Worker, ev1: EmbedEvent, ev2: EmbedEvent, relativePath: string,
                                 p1: PersistResult)
    requires Valid(s) && ev1.mediaType in MimeTypesExtensions && ev2.mediaType in MimeTypesExtensions
    requires s.Ctx(w).step.Some?
    ensures Valid(AfterEmbed(s, w, ev1, false, relativePath, p1).after)
    ensures var s1 := AfterEmbed(s, w, ev1, false, relativePath, p1).after;
            && s1.embedded == s.embedded + 1
            && EmbeddedFileName(s.embedded + 1, MimeTypesExtensions[ev1.mediaType])
                 != EmbeddedFileName(s1.embedded + 1, MimeTypesExtensions[ev2.mediaType])
  {
    EmbedKeepsInvariant(s, w, ev1, false, relativePath, p1);
    EmbeddedFileNamesDistinct(s.embedded + 1, s.embedded + 2, MimeTypesExtensions[ev1.mediaType], MimeTypesExtensions[ev2.mediaType]);
  }

  /** A write with null or empty text changes nothing; other text is an Info
    * entry on the current step. */
  lemma WriteRule(s: State, w: Worker, text: Option<string>)
    requires Valid(s)
    ensures text.None? || text.value == "" ==> AfterWrite(s, w, text) == Transition(s, Completed)
    ensures text.Some? && text.value != "" && s.Ctx(w).step.Some? ==>
              s.Ctx(w).step.value < |s.nodes|
              && AfterWrite(s, w, text)
                   == Transition(s.(nodes := AddLog(s.nodes, s.Ctx(w).step.value, Log(Info, Text(text.value), None))), Completed)
  {
    CtxValid(s, w);
  }
}
