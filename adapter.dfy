/**
 * ExtentCucumberAdapter as an object: the shared registries, counter and
 * dialect are its fields, the per-worker cursors a map field, and the report
 * tree the Report it writes to. Each handler is a method proved to do what the
 * matching function of AdapterModel says and to keep the invariant.
 *
 * The resolver's tables (`src`) and the library's dialect and table renderer
 * (`lib`) are given to each handler; whether base64 image sources are enabled,
 * the screenshot path and the outcome of storing an embedded file come from
 * ExtentService and the file system and are parameters of HandleEmbed.
 */
module CucumberAdapter {
  import opened Wrappers
  import opened JavaText
  import opened ReportModel
  import opened Gherkin
  import opened AdapterModel

  /** The String[][] an array holds, row by row. */
  function Grid(a: array2<Option<string>>): (g: seq<seq<Option<string>>>)
    reads a
    ensures |g| == a.Length0
    ensures forall i :: 0 <= i < |g| ==> |g[i]| == a.Length1
    ensures forall i, j :: 0 <= i < a.Length0 && 0 <= j < a.Length1 ==> g[i][j] == a[i, j]
  {
    seq(a.Length0, i requires 0 <= i < a.Length0 reads a =>
      seq(a.Length1, j requires 0 <= j < a.Length1 reads a => a[i, j]))
  }

  /** Two grids of the same shape and cells are equal. */
  lemma GridsEqual(g: seq<seq<Option<string>>>, h: seq<seq<Option<string>>>, width: nat)
    requires |g| == |h|
    requires forall i :: 0 <= i < |g| ==> |g[i]| == width && |h[i]| == width
    requires forall i, j :: 0 <= i < |g| && 0 <= j < width ==> g[i][j] == h[i][j]
    ensures g == h
  {
    forall i | 0 <= i < |g| ensures g[i] == h[i] {
    }
  }

  class ExtentCucumberAdapter {
    const report: Report
    var featureMap: map<string, nat>
    var outlineMap: map<string, nat>
    var embedded: nat
    var dialect: string
    var contexts: map<Worker, Context>

    /** The adapter and its report as one value. */
    function Now(): State
      reads this, report
    {
      State(report.nodes, featureMap, outlineMap, embedded, dialect, contexts)
    }

    ghost predicate Valid()
      reads this, report
    {
      AdapterModel.Valid(Now())
    }

    /** Nothing registered, nothing counted, no worker has cursors, and the
      * library starts in its default dialect. */
    constructor ()
      ensures Now() == State([], map[], map[], 0, "en", map[])
      ensures Valid()
    {
      report := new Report();
      featureMap := map[];
      outlineMap := map[];
      embedded := 0;
      dialect := "en";
      contexts := map[];
    }

    /** Replace worker `w`'s cursors. */
    method SetCtx(w: Worker, c: Context)
      modifies this
      ensures Now() == old(Now()).WithCtx(w, c)
    {
      contexts := contexts[w := c];
    }

    // ---------------------------------------------------------------- test cases

    /** handleTestCaseStarted (lines 159-163). */
    method HandleTestCaseStarted(w: Worker, src: Sources, lib: Library, tc: TestCase) returns (outcome: Outcome)
      requires Valid() && TablesWellFormed(src)
      modifies this, report
      ensures Transition(Now(), outcome) == AfterTestCaseStarted(old(Now()), w, src, lib, tc)
      ensures Valid()
    {
      outcome := HandleStartOfFeature(w, src, lib, tc.uri);
      if outcome.Threw? {
        return;
      }
      outcome := HandleScenarioOutline(w, src, lib, tc.line);
      if outcome.Threw? {
        return;
      }
      outcome := CreateTestCase(w, src, tc);
    }

    /** handleStartOfFeature (lines 303-308). */
    method HandleStartOfFeature(w: Worker, src: Sources, lib: Library, uri: Uri) returns (outcome: Outcome)
      requires Valid()
      modifies this, report
      ensures Transition(Now(), outcome) == AfterStartOfFeature(old(Now()), w, src, lib, uri)
      ensures Valid()
    {
      var c := Now().Ctx(w);
      CtxValid(Now(), w);
      ValidWithCtx(Now(), w, c.(featureFile := Some(uri)));
      SetCtx(w, c.(featureFile := Some(uri)));
      outcome := CreateFeature(w, GetFeature(src, uri), lib);
    }

    /** createFeature (lines 310-336). */
    method CreateFeature(w: Worker, feature: Option<FeatureDef>, lib: Library) returns (outcome: Outcome)
      requires Valid()
      modifies this, report
      ensures Transition(Now(), outcome) == AfterCreateFeature(old(Now()), w, feature, lib)
      ensures Valid()
    {
      CreateFeatureKeepsInvariant(Now(), w, feature, lib);
      if feature.None? {
        return Threw(NullPointer);
      }
      var f := feature.value;
      if f.language in lib.dialects {
        dialect := f.language;
      }
      outcome := OpenFeatureOf(w, f);
    }

    /** The registry lookup and node creation of createFeature (lines 319-335). */
    method OpenFeatureOf(w: Worker, f: FeatureDef) returns (outcome: Outcome)
      requires Valid()
      modifies this, report
      ensures Transition(Now(), outcome) == OpenFeature(old(Now()), w, f)
      ensures Valid()
    {
      FeatureOpenedKeepsInvariant(Now(), w, f);
      var c := Now().Ctx(w);
      if f.name in featureMap {
        SetCtx(w, c.(feature := Some(featureMap[f.name])));
        return Completed;
      }
      var t := report.CreateNode(NewNode(Feature, f.name, f.description, None));
      featureMap := featureMap[f.name := t];
      SetCtx(w, c.(feature := Some(t), featureTags := Some(TagSet(f.tags))));
      outcome := Completed;
    }

    /** handleScenarioOutline (lines 338-361). Gherkin gives every Examples table
      * rows no wider than its header. */
    method HandleScenarioOutline(w: Worker, src: Sources, lib: Library, line: int) returns (outcome: Outcome)
      requires Valid() && TablesWellFormed(src)
      modifies this, report
      ensures Transition(Now(), outcome) == AfterScenarioOutline(old(Now()), w, src, lib, line)
      ensures Valid()
    {
      ghost var s := Now();
      ScenarioOutlineKeepsInvariant(s, w, src, lib, line);
      CtxValid(s, w);
      var c := Now().Ctx(w);
      var node := GetAstNode(src, c.featureFile, line);
      if node.None? {
        return Threw(NullPointer);
      }
      var sc := node.value.scenario;
      if |sc.examples| == 0 {
        SetCtx(w, c.(outline := None, outlineDefinition := None, examples := None));
        return Completed;
      }
      outcome := TrackOutline(w, sc);
      if outcome.Threw? {
        return;
      }
      outcome := OpenExamplesOf(w, node.value, lib);
    }

    /** The first half of handleScenarioOutline (lines 345-350). */
    method TrackOutline(w: Worker, sc: ScenarioDef) returns (outcome: Outcome)
      requires Valid()
      modifies this, report
      ensures Transition(Now(), outcome) == AfterTrackOutline(old(Now()), w, sc)
      ensures Valid()
    {
      TrackOutlineKeepsInvariant(Now(), w, sc);
      CtxValid(Now(), w);
      var c := Now().Ctx(w);
      if c.outlineDefinition.Some? && c.outlineDefinition.value.name == sc.name {
        return Completed;
      }
      ValidWithCtx(Now(), w, c.(outline := None));
      SetCtx(w, c.(outline := None));
      outcome := CreateScenarioOutline(w, sc);
      if outcome.Threw? {
        return;
      }
      var c1 := Now().Ctx(w);
      SetCtx(w, c1.(outlineDefinition := Some(sc)));
    }

    /** The second half of handleScenarioOutline (lines 351-355), once the
      * outline is tracked. */
    method OpenExamplesOf(w: Worker, node: AstNode, lib: Library) returns (outcome: Outcome)
      requires Valid() && (node.ExamplesRowAt? ==> ExamplesWellFormed(node.examples))
      modifies this, report
      ensures Transition(Now(), outcome) == OpenExamples(Transition(old(Now()), Completed), w, node, lib)
      ensures Valid()
    {
      OpenExamplesKeepsInvariant(Transition(Now(), Completed), w, node, lib);
      if !node.ExamplesRowAt? {
        return Threw(ClassCast);
      }
      var ex := node.examples;
      var c := Now().Ctx(w);
      if c.examples == Some(ex) {
        return Completed;
      }
      CtxValid(Now(), w);
      ValidWithCtx(Now(), w, c.(examples := Some(ex)));
      SetCtx(w, c.(examples := Some(ex)));
      outcome := CreateExamples(w, ex, lib);
    }

    /** createScenarioOutline (lines 363-384). */
    method CreateScenarioOutline(w: Worker, sc: ScenarioDef) returns (outcome: Outcome)
      requires Valid()
      modifies this, report
      ensures Transition(Now(), outcome) == AfterCreateScenarioOutline(old(Now()), w, sc)
      ensures Valid()
    {
      CreateScenarioOutlineKeepsInvariant(Now(), w, sc);
      var c := Now().Ctx(w);
      if sc.name in outlineMap {
        SetCtx(w, c.(outline := Some(outlineMap[sc.name])));
        return Completed;
      }
      if c.outline.Some? {
        return Completed;
      }
      if c.feature.None? {
        return Threw(NullPointer);
      }
      var t := CreateOutlineNode(sc, c);
      outlineMap := outlineMap[sc.name := t];
      SetCtx(w, c.(outline := Some(t), outlineTags := Some(TagSet(sc.tags))));
      outcome := Completed;
    }

    /** Lines 369-378: the outline node under the current feature, with the
      * feature tags and its own. */
    method CreateOutlineNode(sc: ScenarioDef, c: Context) returns (t: nat)
      modifies report
      ensures t == |old(report.nodes)|
      ensures report.nodes == old(report.nodes) + [NewNode(ScenarioOutline, sc.name, sc.description, c.feature)
                                                   .(categories := Tags(c.featureTags) + TagSet(sc.tags))]
    {
      t := report.CreateNode(NewNode(ScenarioOutline, sc.name, sc.description, c.feature));
      if c.featureTags.Some? {
        report.AssignCategories(t, c.featureTags.value);
      }
      report.AssignCategories(t, TagSet(sc.tags));
      assert report.nodes[t].categories == Tags(c.featureTags) + TagSet(sc.tags);
    }

    /** createExamples (lines 386-398). */
    method CreateExamples(w: Worker, ex: ExamplesDef, lib: Library) returns (outcome: Outcome)
      requires Valid() && ExamplesWellFormed(ex)
      modifies this, report
      ensures Transition(Now(), outcome) == AfterCreateExamples(old(Now()), w, ex, lib)
      ensures Valid()
    {
      CreateExamplesKeepsInvariant(Now(), w, ex, lib);
      CtxValid(Now(), w);
      var rows := [ex.header] + ex.body;
      var data := GetTable(rows);
      var markup := lib.renderTable(Grid(data));
      if ex.name != "" {
        markup := ex.name + markup;
      }
      assert markup == ExamplesMarkup(ex, lib);
      var c := Now().Ctx(w);
      if c.outline.None? {
        return Threw(NullPointer);
      }
      var id := c.outline.value;
      var previous := report.nodes[id].description;
      markup := (if previous.None? then "" else previous.value + "<br><br>") + markup;
      assert markup == ExamplesDescription(previous, ex, lib);
      report.SetTestDescription(id, markup);
      outcome := Completed;
    }

    /** getTable (lines 400-415): a grid as wide as the first row; a cell a
      * shorter row does not reach stays null. */
    method GetTable(rows: seq<seq<string>>) returns (data: array2<Option<string>>)
      requires |rows| > 0
      requires forall i :: 0 <= i < |rows| ==> |rows[i]| <= |rows[0]|
      ensures Grid(data) == TableGrid(rows)
    {
      data := new Option<string>[|rows|, |rows[0]|]((i, j) => None);
      var i := 0;
      while i < |rows|
        invariant 0 <= i <= |rows|
        invariant data.Length0 == |rows| && data.Length1 == |rows[0]|
        invariant forall a, b :: 0 <= a < i && 0 <= b < |rows[0]| ==>
                    data[a, b] == if b < |rows[a]| then Some(rows[a][b]) else None
        invariant forall a, b :: i <= a < |rows| && 0 <= b < |rows[0]| ==> data[a, b] == None
      {
        var cells := rows[i];
        var j := 0;
        while j < |cells|
          invariant 0 <= j <= |cells|
          invariant forall a, b :: 0 <= a < i && 0 <= b < |rows[0]| ==>
                      data[a, b] == if b < |rows[a]| then Some(rows[a][b]) else None
          invariant forall b :: 0 <= b < |rows[0]| ==> data[i, b] == if b < j then Some(cells[b]) else None
          invariant forall a, b :: i < a < |rows| && 0 <= b < |rows[0]| ==> data[a, b] == None
        {
          data[i, j] := Some(cells[j]);
          j := j + 1;
        }
        i := i + 1;
      }
      GridsEqual(Grid(data), TableGrid(rows), |rows[0]|);
    }

    /** createTestCase (lines 417-439). */
    method CreateTestCase(w: Worker, src: Sources, tc: TestCase) returns (outcome: Outcome)
      requires Valid()
      modifies this, report
      ensures Transition(Now(), outcome) == AfterCreateTestCase(old(Now()), w, src, tc)
      ensures Valid()
    {
      OpenScenarioKeepsInvariant(Now(), w, src, tc);
      outcome := OpenScenarioOf(w, src, tc);
      if outcome.Threw? {
        return;
      }
      TagScenario(w, tc.tags);
    }

    /** The first half of createTestCase (lines 418-427). */
    method OpenScenarioOf(w: Worker, src: Sources, tc: TestCase) returns (outcome: Outcome)
      requires Valid()
      modifies this, report
      ensures Transition(Now(), outcome) == OpenScenario(old(Now()), w, src, tc)
      ensures Valid()
    {
      ghost var s := Now();
      OpenScenarioKeepsInvariant(s, w, src, tc);
      CtxValid(s, w);
      var c := Now().Ctx(w);
      var node := GetAstNode(src, c.featureFile, tc.line);
      if node.Some? {
        var parent := if c.outline.Some? then c.outline else c.feature;
        if parent.None? {
          return Threw(NullPointer);
        }
        var id := report.CreateNode(NewNode(Scenario, tc.name, node.value.scenario.description, parent));
        SetCtx(w, c.(scenario := Some(id)));
        return Completed;
      }
      if c.scenario.None? {
        return Threw(NullPointer);
      }
      outcome := Completed;
    }

    /** The tagging half of createTestCase (lines 428-438). */
    method TagScenario(w: Worker, tags: seq<string>)
      requires Valid() && Now().Ctx(w).scenario.Some?
      modifies report
      ensures Transition(Now(), Completed) == TagScenarioOf(old(Now()), w, tags)
      ensures Valid()
    {
      TagScenarioKeepsInvariant(Now(), w, tags);
      CtxValid(Now(), w);
      var c := Now().Ctx(w);
      AssignCaseCategories(c.scenario.value, tags, c);
    }

    /** The three assignCategory calls of lines 428-438 on node `id`. */
    method AssignCaseCategories(id: nat, tags: seq<string>, c: Context)
      requires id < |report.nodes| && report.nodes[id].parent.Some? && report.nodes[id].parent.value < |report.nodes|
      modifies report
      ensures var p := old(report.nodes)[id].parent.value;
              var outlineTags := if old(report.nodes)[p].kind == ScenarioOutline then Tags(c.outlineTags) else {};
              report.nodes == AddCategories(old(report.nodes), id, TagSet(tags) + Tags(c.featureTags) + outlineTags)
    {
      ghost var tagged := report.nodes;
      var p := report.nodes[id].parent.value;
      ghost var outlineTags := if tagged[p].kind == ScenarioOutline then Tags(c.outlineTags) else {};
      if |tags| > 0 {
        report.AssignCategories(id, TagSet(tags));
      } else {
        assert TagSet(tags) == {};
        AddNoCategories(tagged, id);
      }
      assert report.nodes == AddCategories(tagged, id, TagSet(tags));
      if c.featureTags.Some? {
        report.AssignCategories(id, c.featureTags.value);
      } else {
        AddNoCategories(report.nodes, id);
      }
      AddCategoriesTwice(tagged, id, TagSet(tags), Tags(c.featureTags));
      assert report.nodes[p].kind == tagged[p].kind;
      if report.nodes[p].kind == ScenarioOutline && c.outlineTags.Some? {
        report.AssignCategories(id, c.outlineTags.value);
      } else {
        AddNoCategories(report.nodes, id);
      }
      AddCategoriesTwice(tagged, id, TagSet(tags) + Tags(c.featureTags), outlineTags);
    }

    // ---------------------------------------------------------------- steps

    /** handleTestStepStarted (lines 165-179). */
    method HandleTestStepStarted(w: Worker, src: Sources, lib: Library, step: TestStep) returns (outcome: Outcome)
      requires Valid()
      requires step.PickleStep? && step.argument.Some? ==> ArgumentWellFormed(step.argument.value)
      modifies this, report
      ensures Transition(Now(), outcome) == AfterTestStepStarted(old(Now()), w, src, lib, step)
      ensures Valid()
    {
      CtxValid(Now(), w);
      ValidWithCtx(Now(), w, Now().Ctx(w).(isHook := Some(false)));
      SetCtx(w, Now().Ctx(w).(isHook := Some(false)));
      if step.HookStep? {
        outcome := StartHook(w, step.hookType, step.codeLocation);
      } else {
        outcome := CreateTestStep(w, src, lib, step);
      }
    }

    /** The hook branch of handleTestStepStarted (lines 168-173). */
    method StartHook(w: Worker, h: HookType, location: string) returns (outcome: Outcome)
      requires Valid()
      modifies this, report
      ensures Transition(Now(), outcome) == AfterHookStep(old(Now()), w, h, location)
      ensures Valid()
    {
      HookStepKeepsInvariant(Now(), w, h, location);
      var c := Now().Ctx(w);
      if c.scenario.None? {
        return Threw(NullPointer);
      }
      var t := report.CreateNode(NewNode(Asterisk, location, Some(HookLabel(h)), c.scenario));
      SetCtx(w, c.(step := Some(t), isHook := Some(true)));
      return Completed;
    }

    /** createTestStep (lines 441-468). */
    method CreateTestStep(w: Worker, src: Sources, lib: Library, step: TestStep) returns (outcome: Outcome)
      requires Valid() && step.PickleStep?
      requires step.argument.Some? ==> ArgumentWellFormed(step.argument.value)
      modifies this, report
      ensures Transition(Now(), outcome) == AfterCreateTestStep(old(Now()), w, src, lib, step)
      ensures Valid()
    {
      outcome := CreateStepNode(w, src, lib, step);
      if outcome.Completed? {
        outcome := LogStepArgument(w, step.argument);
      }
    }

    /** Lines 442-457: the step's node, for a keyword the dialect knows. */
    method CreateStepNode(w: Worker, src: Sources, lib: Library, step: TestStep) returns (outcome: Outcome)
      requires Valid() && step.PickleStep?
      modifies this, report
      ensures Transition(Now(), outcome) == AfterStepNode(old(Now()), w, src, lib, step)
      ensures Valid()
    {
      StepNodeKeepsInvariant(Now(), w, src, lib, step);
      var c := Now().Ctx(w);
      var node := GetAstNode(src, c.featureFile, step.line);
      if node.None? {
        return Completed;
      }
      if !node.value.StepAt? {
        return Threw(ClassCast);
      }
      var sd := node.value.step;
      var name := if step.text == "" then EscapeAngles(sd.text) else step.text;
      if Trim(sd.keyword) !in Keywords(lib, dialect) {
        return Completed;
      }
      if c.scenario.None? {
        return Threw(NullPointer);
      }
      var t := report.CreateNode(NewNode(Step(Trim(sd.keyword)), sd.keyword + name, Some(step.codeLocation), c.scenario));
      SetCtx(w, c.(step := Some(t)));
      return Completed;
    }

    /** Lines 458-467: the argument's Pass entry on the current step. */
    method LogStepArgument(w: Worker, argument: Option<StepArgument>) returns (outcome: Outcome)
      requires Valid()
      requires argument.Some? ==> ArgumentWellFormed(argument.value)
      modifies this, report
      ensures Transition(Now(), outcome) == AfterStepArgument(old(Now()), w, argument)
      ensures Valid()
    {
      StepArgumentKeepsInvariant(Now(), w, argument);
      CtxValid(Now(), w);
      if argument.None? {
        return Completed;
      }
      var target := Now().Ctx(w).step;
      if target.None? {
        return Threw(NullPointer);
      }
      match argument.value {
        case DocString(content) =>
          report.AddEntry(target.value, Log(Pass, Rendered(CodeBlock(content)), None));
        case DataTable(cells) =>
          var data := CreateDataTableList(cells);
          report.AddEntry(target.value, Log(Pass, Rendered(Table(Grid(data))), None));
      }
      outcome := Completed;
    }

    /** createDataTableList (lines 470-481): every row copied up to the first
      * row's width. */
    method CreateDataTableList(cells: seq<seq<string>>) returns (data: array2<Option<string>>)
      requires ArgumentWellFormed(DataTable(cells))
      ensures Grid(data) == TableGrid(cells)
    {
      var rowSize := |cells|;
      var cellSize := |cells[0]|;
      data := new Option<string>[rowSize, cellSize]((i, j) => None);
      for i := 0 to rowSize
        invariant data.Length0 == rowSize && data.Length1 == cellSize
        invariant forall a, b :: 0 <= a < i && 0 <= b < cellSize ==> data[a, b] == Some(cells[a][b])
      {
        for j := 0 to cellSize
          invariant forall a, b :: 0 <= a < i && 0 <= b < cellSize ==> data[a, b] == Some(cells[a][b])
          invariant forall b :: 0 <= b < j ==> data[i, b] == Some(cells[i][b])
        {
          data[i, j] := Some(cells[i][j]);
        }
      }
      GridsEqual(Grid(data), TableGrid(cells), cellSize);
    }

    /** handleTestStepFinished and updateResult (lines 181-226). */
    method UpdateResult(w: Worker, result: StepResult) returns (outcome: Outcome)
      requires Valid()
      modifies this, report
      ensures Transition(Now(), outcome) == AfterUpdateResult(old(Now()), w, result)
      ensures Valid()
    {
      UpdateResultKeepsInvariant(Now(), w, result);
      CtxValid(Now(), w);
      var c := Now().Ctx(w);
      if c.step.None? {
        return Threw(NullPointer);
      }
      var id := c.step.value;
      var v := ResultVerdict(result, c.isHook, report.nodes[id].logs);
      ApplyTo(id, v);
      outcome := if v.HookFlagUnset? then Threw(NullPointer) else Completed;
    }

    /** removeTest and the log call the verdict asks for, on step `id`. */
    method ApplyTo(id: nat, v: Verdict)
      requires id < |report.nodes|
      modifies report
      ensures report.nodes == ApplyVerdict(old(report.nodes), id, v)
    {
      match v {
        case Unchanged =>
        case HookFlagUnset =>
        case Append(e) =>
          report.AddEntry(id, e);
        case Remove =>
          report.RemoveTest(id);
        case RemoveThenAppend(e) =>
          report.RemoveTest(id);
          report.AddEntry(id, e);
      }
    }

    // ---------------------------------------------------------------- embeds and writes

    /** handleEmbed (lines 228-264). */
    method HandleEmbed(w: Worker, ev: EmbedEvent, base64: bool, relativePath: string, persist: PersistResult)
      returns (outcome: Outcome)
      requires Valid()
      modifies this, report
      ensures Transition(Now(), outcome) == AfterEmbed(old(Now()), w, ev, base64, relativePath, persist)
      ensures Valid()
    {
      if ev.mediaType !in MimeTypesExtensions {
        return Completed;
      }
      outcome := EmbedStep(w);
      if outcome.Completed? {
        outcome := AttachEmbed(w, ev, base64, relativePath, persist);
      }
    }

    /** Lines 233-236: make sure there is a current step to attach to. */
    method EmbedStep(w: Worker) returns (outcome: Outcome)
      requires Valid()
      modifies this, report
      ensures Transition(Now(), outcome) == AfterEmbedStep(old(Now()), w)
      ensures Valid()
    {
      EmbedStepKeepsInvariant(Now(), w);
      var c := Now().Ctx(w);
      if c.step.Some? {
        return Completed;
      }
      if c.scenario.None? {
        return Threw(NullPointer);
      }
      var t := report.CreateNode(NewNode(Asterisk, "Embed", None, c.scenario));
      SetCtx(w, c.(step := Some(t)));
      return Completed;
    }

    /** Lines 238-262: attach the embed, inline or as embedded<N>.<ext>. */
    method AttachEmbed(w: Worker, ev: EmbedEvent, base64: bool, relativePath: string, persist: PersistResult)
      returns (outcome: Outcome)
      requires Valid() && Now().Ctx(w).step.Some? && ev.mediaType in MimeTypesExtensions
      modifies this, report
      ensures Transition(Now(), outcome) == AfterAttachEmbed(old(Now()), w, ev, base64, relativePath, persist)
      ensures Valid()
    {
      AttachEmbedKeepsInvariant(Now(), w, ev, base64, relativePath, persist);
      CtxValid(Now(), w);
      var target := Now().Ctx(w).step.value;
      var title := if ev.name.None? then "" else ev.name.value;
      if base64 && StartsWith(ev.mediaType, "image/") {
        report.AddEntry(target, Log(Info, Text(title), Some(ScreenCaptureBase64(ev.data))));
        return Completed;
      }
      embedded := embedded + 1;
      var fileName := "embedded" + DecimalString(embedded) + "." + MimeTypesExtensions[ev.mediaType];
      match persist {
        case StreamFailed =>
          return Threw(CucumberFailure);
        case WriteFailed =>
        case Written =>
          report.AddEntry(target, Log(Info, Text(title), Some(ScreenCapturePath(relativePath + fileName))));
      }
      outcome := Completed;
    }

    /** handleWrite (lines 292-297). */
    method HandleWrite(w: Worker, text: Option<string>) returns (outcome: Outcome)
      requires Valid()
      modifies this, report
      ensures Transition(Now(), outcome) == AfterWrite(old(Now()), w, text)
      ensures Valid()
    {
      WriteKeepsInvariant(Now(), w, text);
      CtxValid(Now(), w);
      if text.Some? && text.value != "" {
        var step := Now().Ctx(w).step;
        if step.None? {
          return Threw(NullPointer);
        }
        report.AddEntry(step.value, Log(Info, Text(text.value), None));
      }
      outcome := Completed;
    }
  }
}
