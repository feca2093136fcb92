/**
 * The state of ExtentCucumberAdapter as values, and one function per handler
 * that says what the handler does to it. The class in CucumberAdapter is proved
 * against these functions; the properties the adapter promises are lemmas here.
 *
 * A worker is a test-runner thread. Each worker has its own cursors (the
 * adapter's ThreadLocal fields), kept in `contexts`; a worker with no entry has
 * every cursor null. The two name registries, the embed counter, the current
 * Gherkin dialect and the report tree are shared by all workers.
 */
module AdapterModel {
  import opened Wrappers
  import opened JavaText
  import opened ReportModel
  import opened Gherkin

  type Worker = nat

  /** One worker's cursors. Node cursors are arena indices; None is null. */
  datatype Context = Context(
    featureFile: Option<Uri>,
    feature: Option<nat>,
    outlineDefinition: Option<ScenarioDef>,
    examples: Option<ExamplesDef>,
    outline: Option<nat>,
    scenario: Option<nat>,
    step: Option<nat>,
    isHook: Option<bool>,
    featureTags: Option<set<string>>,
    outlineTags: Option<set<string>>)

  const NoContext := Context(None, None, None, None, None, None, None, None, None, None)

  /** The unchecked exceptions a handler lets escape. */
  datatype JavaException = NullPointer | ClassCast | CucumberFailure

  datatype Outcome = Completed | Threw(exception: JavaException)

  /** How the attempt to store an embedded file ends: written; an IOException or
    * URISyntaxException that handleEmbed catches; or a CucumberException from
    * building the URL or opening the stream, which escapes. */
  datatype PersistResult = Written | WriteFailed | StreamFailed

  /** What the adapter takes from the ExtentReports library besides the tree: the
    * trimmed step keywords GherkinKeyword accepts in each dialect that
    * setGherkinDialect knows, and the HTML MarkupHelper.createTable renders. */
  datatype Library = Library(
    dialects: map<string, set<string>>,
    renderTable: seq<seq<Option<string>>> -> string)

  datatype State = State(
    nodes: seq<Node>,
    featureMap: map<string, nat>,
    outlineMap: map<string, nat>,
    embedded: nat,
    dialect: string,
    contexts: map<Worker, Context>)
  {
    function Ctx(w: Worker): Context {
      if w in contexts then contexts[w] else NoContext
    }

    function WithCtx(w: Worker, c: Context): State {
      this.(contexts := contexts[w := c])
    }
  }

  /** The state after a handler, and how the handler ended. */
  datatype Transition = Transition(after: State, outcome: Outcome)

  function Tags(snapshot: Option<set<string>>): set<string> {
    snapshot.GetOr({})
  }

  function TagSet(tags: seq<string>): set<string> {
    set t | t in tags
  }

  // ---------------------------------------------------------------- invariant

  predicate IsNodeOf(ns: seq<Node>, id: Option<nat>, k: Kind) {
    id.Some? ==> id.value < |ns| && ns[id.value].kind == k
  }

  /** Every cursor points at a node of the kind its field holds. */
  ghost predicate ContextValid(ns: seq<Node>, c: Context) {
    && IsNodeOf(ns, c.feature, Feature)
    && IsNodeOf(ns, c.outline, ScenarioOutline)
    && IsNodeOf(ns, c.scenario, Scenario)
    && (c.step.Some? ==> c.step.value < |ns|)
  }

  /** A registry maps each name to the one node of kind `k` with that name, and
    * every node of kind `k` is registered. */
  ghost predicate RegistryValid(ns: seq<Node>, m: map<string, nat>, k: Kind) {
    && (forall name :: name in m ==> m[name] < |ns| && ns[m[name]].kind == k && ns[m[name]].name == name)
    && (forall i :: 0 <= i < |ns| && ns[i].kind == k ==> ns[i].name in m && m[ns[i].name] == i)
  }

  ghost predicate ScenariosHaveParents(ns: seq<Node>) {
    forall i :: 0 <= i < |ns| && ns[i].kind == Scenario ==> ns[i].parent.Some?
  }

  ghost predicate Valid(s: State) {
    && WellFormed(s.nodes)
    && ScenariosHaveParents(s.nodes)
    && RegistryValid(s.nodes, s.featureMap, Feature)
    && RegistryValid(s.nodes, s.outlineMap, ScenarioOutline)
    && (forall w :: w in s.contexts ==> ContextValid(s.nodes, s.contexts[w]))
  }

  ghost predicate Extends(m0: map<string, nat>, m1: map<string, nat>) {
    forall k :: k in m0 ==> k in m1 && m1[k] == m0[k]
  }

  /** What any handler run by worker `w` may do: grow the tree, add
    * registrations, advance the counter, and change no other worker's cursors. */
  ghost predicate Evolves(s0: State, s1: State, w: Worker) {
    && Grows(s0.nodes, s1.nodes)
    && Extends(s0.featureMap, s1.featureMap)
    && Extends(s0.outlineMap, s1.outlineMap)
    && s0.embedded <= s1.embedded
    && (forall v :: v != w ==> s1.Ctx(v) == s0.Ctx(v))
  }

  lemma EvolvesReflexive(s: State, w: Worker)
    ensures Evolves(s, s, w)
  {
    GrowsReflexive(s.nodes);
  }

  lemma EvolvesTransitive(s0: State, s1: State, s2: State, w: Worker)
    requires Evolves(s0, s1, w) && Evolves(s1, s2, w)
    ensures Evolves(s0, s2, w)
  {
    GrowsTransitive(s0.nodes, s1.nodes, s2.nodes);
  }

  /** Replacing the tree by a grown one, nothing else changed. */
  lemma EvolvesByNodes(s: State, ns: seq<Node>, w: Worker)
    requires Grows(s.nodes, ns)
    ensures Evolves(s, s.(nodes := ns), w)
  {
  }

  lemma CtxValid(s: State, w: Worker)
    requires Valid(s)
    ensures ContextValid(s.nodes, s.Ctx(w))
  {
  }

  lemma ValidWithCtx(s: State, w: Worker, c: Context)
    requires Valid(s) && ContextValid(s.nodes, c)
    ensures Valid(s.WithCtx(w, c)) && Evolves(s, s.WithCtx(w, c), w)
  {
    GrowsReflexive(s.nodes);
  }

  /** Edits that keep every node's kind, name and parent keep the invariant. */
  lemma ValidSameShape(s: State, ns: seq<Node>)
    requires Valid(s)
    requires |ns| == |s.nodes|
    requires forall i :: 0 <= i < |ns| ==>
               ns[i].kind == s.nodes[i].kind && ns[i].name == s.nodes[i].name && ns[i].parent == s.nodes[i].parent
    ensures Valid(s.(nodes := ns))
  {
    var t := s.(nodes := ns);
    forall w | w in t.contexts ensures ContextValid(ns, t.contexts[w]) {
      assert ContextValid(s.nodes, s.contexts[w]);
    }
  }

  /** Creating a node that is neither a feature nor an outline, under an existing parent. */
  lemma ValidAppend(s: State, n: Node)
    requires Valid(s)
    requires n.kind != Feature && n.kind != ScenarioOutline
    requires n.parent.Some? && n.parent.value < |s.nodes|
    ensures Valid(s.(nodes := s.nodes + [n]))
  {
    var t := s.(nodes := s.nodes + [n]);
    forall w | w in t.contexts ensures ContextValid(t.nodes, t.contexts[w]) {
      assert ContextValid(s.nodes, s.contexts[w]);
    }
  }

  /** Appending a node leaves every cursor pointing where it did. */
  lemma ContextValidAppend(ns: seq<Node>, n: Node, c: Context)
    requires ContextValid(ns, c)
    ensures ContextValid(ns + [n], c)
  {
    assert forall i :: 0 <= i < |ns| ==> (ns + [n])[i] == ns[i];
  }

  /** Creating a child node and pointing a cursor of worker `w` at it. */
  lemma ChildCreatedKeepsInvariant(s: State, w: Worker, n: Node, c: Context)
    requires Valid(s)
    requires n.kind != Feature && n.kind != ScenarioOutline
    requires n.parent.Some? && n.parent.value < |s.nodes|
    requires ContextValid(s.nodes + [n], c)
    ensures Valid(s.(nodes := s.nodes + [n]).WithCtx(w, c))
    ensures Evolves(s, s.(nodes := s.nodes + [n]).WithCtx(w, c), w)
  {
    var sa := s.(nodes := s.nodes + [n]);
    ValidAppend(s, n);
    GrowsAppend(s.nodes, n);
    EvolvesByNodes(s, sa.nodes, w);
    ValidWithCtx(sa, w, c);
    EvolvesTransitive(s, sa, sa.WithCtx(w, c), w);
  }

  /** Adding logs, categories or a longer description to nodes. */
  lemma NodesEditedKeepsInvariant(s: State, ns: seq<Node>, w: Worker)
    requires Valid(s) && Grows(s.nodes, ns) && |ns| == |s.nodes|
    ensures Valid(s.(nodes := ns)) && Evolves(s, s.(nodes := ns), w)
  {
    ValidSameShape(s, ns);
    EvolvesByNodes(s, ns, w);
  }

  /** Creating and registering a top-level feature under a new name. */
  lemma ValidAppendFeature(s: State, n: Node)
    requires Valid(s)
    requires n.kind == Feature && n.parent == None && n.name !in s.featureMap
    ensures Valid(s.(nodes := s.nodes + [n], featureMap := s.featureMap[n.name := |s.nodes|]))
  {
    var t := s.(nodes := s.nodes + [n], featureMap := s.featureMap[n.name := |s.nodes|]);
    forall w | w in t.contexts ensures ContextValid(t.nodes, t.contexts[w]) {
      assert ContextValid(s.nodes, s.contexts[w]);
    }
  }

  /** Creating and registering an outline under a new name. */
  lemma ValidAppendOutline(s: State, n: Node)
    requires Valid(s)
    requires n.kind == ScenarioOutline && n.name !in s.outlineMap
    requires n.parent.Some? && n.parent.value < |s.nodes|
    ensures Valid(s.(nodes := s.nodes + [n], outlineMap := s.outlineMap[n.name := |s.nodes|]))
  {
    var t := s.(nodes := s.nodes + [n], outlineMap := s.outlineMap[n.name := |s.nodes|]);
    forall w | w in t.contexts ensures ContextValid(t.nodes, t.contexts[w]) {
      assert ContextValid(s.nodes, s.contexts[w]);
    }
  }

  /** The check at lines 323-326 of createFeature never succeeds: a worker's
    * current feature is registered under its name, so when the name is not in
    * the registry the current feature has another name. */
  lemma CurrentFeatureIsRegistered(s: State, w: Worker, name: string)
    requires Valid(s) && name !in s.featureMap
    ensures s.Ctx(w).feature.Some? ==> s.nodes[s.Ctx(w).feature.value].name != name
  {
    CtxValid(s, w);
  }

  // ---------------------------------------------------------------- tables and text

  /** The grid getTable and createDataTableList fill: one row per table row, as
    * wide as the first row; a cell its row does not reach stays null. */
  function TableGrid(rows: seq<seq<string>>): (g: seq<seq<Option<string>>>)
    requires |rows| > 0
    ensures |g| == |rows|
    ensures forall i :: 0 <= i < |g| ==> |g[i]| == |rows[0]|
    ensures forall i, j :: 0 <= i < |g| && 0 <= j < |rows[0]| ==>
              g[i][j] == if j < |rows[i]| then Some(rows[i][j]) else None
  {
    seq(|rows|, i requires 0 <= i < |rows| =>
      seq(|rows[0]|, j requires 0 <= j < |rows[0]| =>
        if j < |rows[i]| then Some(rows[i][j]) else None))
  }

  /** A data table whose rows are all at least as wide as the first is copied
    * completely: no null cell, and each cell is the table's value. */
  lemma DataTableGridComplete(cells: seq<seq<string>>)
    requires ArgumentWellFormed(DataTable(cells))
    ensures forall i, j :: 0 <= i < |cells| && 0 <= j < |cells[0]| ==>
              TableGrid(cells)[i][j] == Some(cells[i][j])
  {
  }

  /** The rows of an Examples block: header first, then the body. */
  function ExamplesRows(ex: ExamplesDef): seq<seq<string>> {
    [ex.header] + ex.body
  }

  /** createExamples' markup: the Examples name, if any, then the rendered table. */
  function ExamplesMarkup(ex: ExamplesDef, lib: Library): string {
    ex.name + lib.renderTable(TableGrid(ExamplesRows(ex)))
  }

  /** The outline description after rendering `ex` into it. */
  function ExamplesDescription(previous: Option<string>, ex: ExamplesDef, lib: Library): string {
    (if previous.Some? then previous.value + "<br><br>" else "") + ExamplesMarkup(ex, lib)
  }

  /** The old description is kept as a prefix, followed by a separator and the
    * new markup; with no old description the markup stands alone. */
  lemma ExamplesDescriptionExtends(previous: Option<string>, ex: ExamplesDef, lib: Library)
    ensures previous.Some? ==>
              ExamplesDescription(previous, ex, lib) == previous.value + "<br><br>" + ExamplesMarkup(ex, lib)
              && previous.value <= ExamplesDescription(previous, ex, lib)
    ensures previous.None? ==> ExamplesDescription(previous, ex, lib) == ExamplesMarkup(ex, lib)
  {
    if previous.Some? {
      var d := previous.value;
      assert (d + "<br><br>" + ExamplesMarkup(ex, lib))[..|d|] == d;
    }
  }

  function HookLabel(h: HookType): string {
    match h
    case Before => "BEFORE"
    case After => "AFTER"
    case BeforeStep => "BEFORE_STEP"
    case AfterStep => "AFTER_STEP"
  }

  /** replace("<", "&lt;").replace(">", "&gt;"). */
  function EscapeAngles(s: string): string {
    ReplaceChar(ReplaceChar(s, '<', "&lt;"), '>', "&gt;")
  }

  /** Escaping leaves no angle bracket, and leaves text without them as it was. */
  lemma EscapeAnglesRemovesBrackets(s: string)
    ensures '<' !in EscapeAngles(s) && '>' !in EscapeAngles(s)
    ensures '<' !in s && '>' !in s ==> EscapeAngles(s) == s
  {
    var once := ReplaceChar(s, '<', "&lt;");
    ReplaceCharOccurrence(s, '<', "&lt;", '<');
    ReplaceCharOccurrence(once, '>', "&gt;", '<');
    ReplaceCharOccurrence(once, '>', "&gt;", '>');
    if '<' !in s && '>' !in s {
      ReplaceAbsent(s, '<', "&lt;");
      ReplaceAbsent(s, '>', "&gt;");
    }
  }

  /** The text after the keyword in a step node's name: the pickle text, or the
    * escaped AST text when the pickle text is empty. */
  function StepName(pickleText: string, astText: string): string {
    if pickleText == "" then EscapeAngles(astText) else pickleText
  }

  function Keywords(lib: Library, dialect: string): set<string> {
    if dialect in lib.dialects then lib.dialects[dialect] else {}
  }

  /** The Pass entry a doc-string or data-table argument adds to its step. */
  function ArgumentLog(arg: StepArgument): Log
    requires ArgumentWellFormed(arg)
  {
    match arg
    case DocString(content) => Log(Pass, Rendered(CodeBlock(content)), None)
    case DataTable(cells) => Log(Pass, Rendered(Table(TableGrid(cells))), None)
  }

  // ---------------------------------------------------------------- embeds

  const MimeTypesExtensions: map<string, string> := map[
    "image/bmp" := "bmp",
    "image/gif" := "gif",
    "image/jpeg" := "jpeg",
    "image/jpg" := "jpg",
    "image/png" := "png",
    "image/svg+xml" := "svg"]

  /** Only the six image types are embedded, so every embed is an image. */
  lemma MimeTypesAreImages(mediaType: string)
    ensures mediaType in MimeTypesExtensions <==>
              mediaType in {"image/bmp", "image/gif", "image/jpeg", "image/jpg", "image/png", "image/svg+xml"}
    ensures mediaType in MimeTypesExtensions ==> StartsWith(mediaType, "image/")
  {
  }

  /** "embedded" + n + "." + extension. */
  function EmbeddedFileName(n: nat, extension: string): string {
    "embedded" + DecimalString(n) + "." + extension
  }

  /** Different counter values give different file names, whatever the extensions. */
  lemma EmbeddedFileNamesDistinct(m: nat, n: nat, e1: string, e2: string)
    requires m != n
    ensures EmbeddedFileName(m, e1) != EmbeddedFileName(n, e2)
  {
    var a, b := DecimalString(m), DecimalString(n);
    if EmbeddedFileName(m, e1) == EmbeddedFileName(n, e2) {
      var x, y := a + "." + e1, b + "." + e2;
      assert EmbeddedFileName(m, e1) == "embedded" + x;
      assert EmbeddedFileName(n, e2) == "embedded" + y;
      assert x == EmbeddedFileName(m, e1)[8..] == y;
      IndexOfAfter(a, '.', e1);
      IndexOfAfter(b, '.', e2);
      assert x[..|a|] == a && y[..|b|] == b;
      DecimalInjective(m, n);
    }
  }

  // ---------------------------------------------------------------- step results

  /** What updateResult does to the current step node, decided from the result,
    * the hook flag (None: the flag was never set) and the node's logs. */
  datatype Verdict =
    | Unchanged
    | Append(entry: Log)
    | Remove
    | RemoveThenAppend(entry: Log)
    | HookFlagUnset

  predicate EndsWithSkip(logs: seq<Log>) {
    |logs| > 0 && logs[|logs| - 1].status == Skip
  }

  predicate HasMedia(logs: seq<Log>) {
    exists k :: 0 <= k < |logs| && logs[k].media.Some?
  }

  const PassEntry := Log(Pass, Text(""), None)

  function ResultVerdict(result: StepResult, isHook: Option<bool>, logs: seq<Log>): Verdict {
    match result.status
    case Failed => Append(Log(Fail, Thrown(result.error), None))
    case Undefined => Append(Log(Fail, Text("Step undefined"), None))
    case Pending => Append(Log(Fail, Thrown(result.error), None))
    case Skipped =>
      if isHook.None? then HookFlagUnset
      else if isHook.value then Remove
      else if result.error.Some? then Append(Log(Skip, Thrown(result.error), None))
      else if !EndsWithSkip(logs) then Append(Log(Skip, Text("Step skipped"), None))
      else Unchanged
    case Passed =>
      if isHook.None? then HookFlagUnset
      else if isHook.value && |logs| == 0 && !HasMedia(logs) then RemoveThenAppend(PassEntry)
      else Append(PassEntry)
    case Ambiguous => Unchanged
    case Unused => Unchanged
  }

  function ApplyVerdict(ns: seq<Node>, id: nat, v: Verdict): (r: seq<Node>)
    requires id < |ns|
    ensures Grows(ns, r)
  {
    match v
    case Unchanged => GrowsReflexive(ns); ns
    case HookFlagUnset => GrowsReflexive(ns); ns
    case Append(e) => AddLog(ns, id, e)
    case Remove => Detach(ns, id)
    case RemoveThenAppend(e) =>
      var d := Detach(ns, id);
      var r := AddLog(d, id, e);
      GrowsTransitive(ns, d, r);
      r
  }

  // ---------------------------------------------------------------- handlers

  /** createFeature (lines 310-336). The null check at line 318 comes after the
    * feature's language has been read, so an unknown document throws. A dialect
    * the library does not know leaves the current one (the exception is caught).
    * The adoption check at lines 323-326 is left out: CurrentFeatureIsRegistered
    * shows it never succeeds. */
  function AfterCreateFeature(s: State, w: Worker, feature: Option<FeatureDef>, lib: Library): Transition {
    match feature
    case None => Transition(s, Threw(NullPointer))
    case Some(f) =>
      OpenFeature(s.(dialect := if f.language in lib.dialects then f.language else s.dialect), w, f)
  }

  /** createFeature once the dialect is set (lines 319-335): adopt the node
    * registered under the feature's name, or create and register one. */
  function OpenFeature(s: State, w: Worker, f: FeatureDef): Transition {
    var c := s.Ctx(w);
    if f.name in s.featureMap then
      Transition(s.WithCtx(w, c.(feature := Some(s.featureMap[f.name]))), Completed)
    else
      Transition(NewFeature(s, w, f), Completed)
  }

  /** Lines 327-334: a top-level feature node, registered under its name and
    * made current with the feature's tags. */
  function NewFeature(s: State, w: Worker, f: FeatureDef): State {
    var id := |s.nodes|;
    var s1 := s.(nodes := s.nodes + [NewNode(Feature, f.name, f.description, None)],
                 featureMap := s.featureMap[f.name := id]);
    s1.WithCtx(w, s.Ctx(w).(feature := Some(id), featureTags := Some(TagSet(f.tags))))
  }

  /** handleStartOfFeature (lines 303-308): the guard is always true, so the
    * feature file is recorded and createFeature runs on every case start. */
  function AfterStartOfFeature(s: State, w: Worker, src: Sources, lib: Library, uri: Uri): Transition {
    AfterCreateFeature(s.WithCtx(w, s.Ctx(w).(featureFile := Some(uri))), w, GetFeature(src, uri), lib)
  }

  /** createScenarioOutline (lines 363-384). */
  function AfterCreateScenarioOutline(s: State, w: Worker, sc: ScenarioDef): Transition {
    var c := s.Ctx(w);
    if sc.name in s.outlineMap then
      Transition(s.WithCtx(w, c.(outline := Some(s.outlineMap[sc.name]))), Completed)
    else if c.outline.Some? then
      Transition(s, Completed)
    else if c.feature.None? then
      Transition(s, Threw(NullPointer))
    else
      Transition(NewOutline(s, w, sc), Completed)
  }

  /** Lines 369-382: the outline node under the current feature, with the
    * feature tags and its own, registered under its name and made current. */
  function NewOutline(s: State, w: Worker, sc: ScenarioDef): State {
    var c := s.Ctx(w);
    var id := |s.nodes|;
    var n := NewNode(ScenarioOutline, sc.name, sc.description, c.feature)
               .(categories := Tags(c.featureTags) + TagSet(sc.tags));
    var s1 := s.(nodes := s.nodes + [n], outlineMap := s.outlineMap[sc.name := id]);
    s1.WithCtx(w, c.(outline := Some(id), outlineTags := Some(TagSet(sc.tags))))
  }

  /** createExamples (lines 386-398). */
  function AfterCreateExamples(s: State, w: Worker, ex: ExamplesDef, lib: Library): Transition
    requires Valid(s)
  {
    CtxValid(s, w);
    var c := s.Ctx(w);
    if c.outline.None? then Transition(s, Threw(NullPointer))
    else
      var id := c.outline.value;
      var d := ExamplesDescription(s.nodes[id].description, ex, lib);
      Transition(s.(nodes := SetDescription(s.nodes, id, d)), Completed)
  }

  /** The first half of handleScenarioOutline (lines 345-350): track the outline,
    * creating or adopting its node when the tracked outline has another name. */
  function AfterTrackOutline(s: State, w: Worker, sc: ScenarioDef): Transition {
    var c := s.Ctx(w);
    if c.outlineDefinition.Some? && c.outlineDefinition.value.name == sc.name then
      Transition(s, Completed)
    else
      TrackDefinition(AfterCreateScenarioOutline(s.WithCtx(w, c.(outline := None)), w, sc), w, sc)
  }

  /** Line 349: once the outline node is current, its definition is tracked. */
  function TrackDefinition(t: Transition, w: Worker, sc: ScenarioDef): Transition {
    if t.outcome.Threw? then t
    else Transition(t.after.WithCtx(w, t.after.Ctx(w).(outlineDefinition := Some(sc))), Completed)
  }

  /** handleScenarioOutline (lines 338-361). An unresolved line throws; so does an
    * outline case whose node is not a row of an Examples table, at the cast on
    * line 352, after the outline has been tracked. */
  function AfterScenarioOutline(s: State, w: Worker, src: Sources, lib: Library, line: int): Transition
    requires Valid(s)
  {
    var c := s.Ctx(w);
    var node := GetAstNode(src, c.featureFile, line);
    if node.None? then Transition(s, Threw(NullPointer))
    else
      var sc := node.value.scenario;
      if |sc.examples| == 0 then
        Transition(s.WithCtx(w, c.(outline := None, outlineDefinition := None, examples := None)), Completed)
      else
        TrackOutlineKeepsInvariant(s, w, sc);
        OpenExamples(AfterTrackOutline(s, w, sc), w, node.value, lib)
  }

  /** The second half of handleScenarioOutline (lines 351-355): the cast to an
    * Examples row, then createExamples when the block is not the tracked one. */
  function OpenExamples(t: Transition, w: Worker, node: AstNode, lib: Library): Transition
    requires Valid(t.after)
  {
    if t.outcome.Threw? then t
    else if !node.ExamplesRowAt? then Transition(t.after, Threw(ClassCast))
    else
      var ex := node.examples;
      var c1 := t.after.Ctx(w);
      if c1.examples == Some(ex) then t
      else
        CtxValid(t.after, w);
        ValidWithCtx(t.after, w, c1.(examples := Some(ex)));
        AfterCreateExamples(t.after.WithCtx(w, c1.(examples := Some(ex))), w, ex, lib)
  }

  /** createTestCase (lines 417-439). A line the resolver does not know leaves the
    * previous scenario current; its categories still get this case's tags. */
  function AfterCreateTestCase(s: State, w: Worker, src: Sources, tc: TestCase): Transition
    requires Valid(s)
  {
    OpenScenarioKeepsInvariant(s, w, src, tc);
    var t := OpenScenario(s, w, src, tc);
    if t.outcome.Threw? then t else TagScenarioOf(t.after, w, tc.tags)
  }

  /** The first half of createTestCase (lines 418-427): a scenario node under the
    * current outline, or else the current feature, made current; an unresolved
    * line keeps the current scenario. */
  function OpenScenario(s: State, w: Worker, src: Sources, tc: TestCase): Transition
    requires Valid(s)
  {
    CtxValid(s, w);
    var c := s.Ctx(w);
    var node := GetAstNode(src, c.featureFile, tc.line);
    var parent := if c.outline.Some? then c.outline else c.feature;
    if node.Some? && parent.None? then Transition(s, Threw(NullPointer))
    else if node.None? && c.scenario.None? then Transition(s, Threw(NullPointer))
    else if node.Some? then
      var n := NewNode(Scenario, tc.name, node.value.scenario.description, parent);
      Transition(s.(nodes := s.nodes + [n]).WithCtx(w, c.(scenario := Some(|s.nodes|))), Completed)
    else
      Transition(s, Completed)
  }

  /** The tagging half of createTestCase (lines 428-438), on the current
    * scenario: the case's tags, the feature tags, and the outline tags when the
    * scenario's parent is an outline. */
  function TagScenarioOf(s: State, w: Worker, tags: seq<string>): Transition
    requires Valid(s) && s.Ctx(w).scenario.Some?
  {
    CtxValid(s, w);
    var c := s.Ctx(w);
    var id := c.scenario.value;
    var p := s.nodes[id].parent.value;
    var outlineTags := if s.nodes[p].kind == ScenarioOutline then Tags(c.outlineTags) else {};
    Transition(s.(nodes := AddCategories(s.nodes, id, TagSet(tags) + Tags(c.featureTags) + outlineTags)), Completed)
  }

  /** handleTestCaseStarted (lines 159-163). */
  function AfterTestCaseStarted(s: State, w: Worker, src: Sources, lib: Library, tc: TestCase): Transition
    requires Valid(s)
  {
    StartOfFeatureKeepsInvariant(s, w, src, lib, tc.uri);
    var t1 := AfterStartOfFeature(s, w, src, lib, tc.uri);
    if t1.outcome.Threw? then t1
    else
      ScenarioOutlineKeepsInvariant(t1.after, w, src, lib, tc.line);
      var t2 := AfterScenarioOutline(t1.after, w, src, lib, tc.line);
      if t2.outcome.Threw? then t2
      else AfterCreateTestCase(t2.after, w, src, tc)
  }

  /** The first half of createTestStep (lines 442-457): resolve the step and,
    * for a keyword the dialect knows, create its node under the scenario. A
    * resolved line that is not a step throws at the cast; an unknown keyword
    * creates no node (the exception is caught). */
  function AfterStepNode(s: State, w: Worker, src: Sources, lib: Library, step: TestStep): Transition
    requires step.PickleStep? && Valid(s)
  {
    var c := s.Ctx(w);
    var node := GetAstNode(src, c.featureFile, step.line);
    if node.Some? && !node.value.StepAt? then Transition(s, Threw(ClassCast))
    else if !(node.Some? && Trim(node.value.step.keyword) in Keywords(lib, s.dialect)) then Transition(s, Completed)
    else if c.scenario.None? then Transition(s, Threw(NullPointer))
    else
      var sd := node.value.step;
      var n := NewNode(Step(Trim(sd.keyword)), sd.keyword + StepName(step.text, sd.text),
                       Some(step.codeLocation), c.scenario);
      Transition(s.(nodes := s.nodes + [n]).WithCtx(w, c.(step := Some(|s.nodes|))), Completed)
  }

  /** The second half of createTestStep (lines 458-467): a doc string or data
    * table adds its Pass entry to the current step, which must exist. */
  function AfterStepArgument(s: State, w: Worker, argument: Option<StepArgument>): Transition
    requires Valid(s)
    requires argument.Some? ==> ArgumentWellFormed(argument.value)
  {
    CtxValid(s, w);
    var target := s.Ctx(w).step;
    if argument.None? then Transition(s, Completed)
    else if target.None? then Transition(s, Threw(NullPointer))
    else Transition(s.(nodes := AddLog(s.nodes, target.value, ArgumentLog(argument.value))), Completed)
  }

  /** createTestStep (lines 441-468). The argument then goes to the previous
    * step when no node was created. */
  function AfterCreateTestStep(s: State, w: Worker, src: Sources, lib: Library, step: TestStep): Transition
    requires step.PickleStep? && Valid(s)
    requires step.argument.Some? ==> ArgumentWellFormed(step.argument.value)
  {
    StepNodeKeepsInvariant(s, w, src, lib, step);
    var t := AfterStepNode(s, w, src, lib, step);
    if t.outcome.Threw? then t else AfterStepArgument(t.after, w, step.argument)
  }

  /** A hook step (lines 168-173): an Asterisk node under the scenario, named by
    * its code location and described by its hook type, flagged as a hook. */
  function AfterHookStep(s: State, w: Worker, h: HookType, location: string): Transition {
    var c := s.Ctx(w);
    if c.scenario.None? then Transition(s, Threw(NullPointer))
    else
      var n := NewNode(Asterisk, location, Some(HookLabel(h)), c.scenario);
      Transition(s.(nodes := s.nodes + [n]).WithCtx(w, c.(step := Some(|s.nodes|), isHook := Some(true))), Completed)
  }

  /** handleTestStepStarted (lines 165-179). */
  function AfterTestStepStarted(s: State, w: Worker, src: Sources, lib: Library, step: TestStep): Transition
    requires Valid(s)
    requires step.PickleStep? && step.argument.Some? ==> ArgumentWellFormed(step.argument.value)
  {
    CtxValid(s, w);
    var c := s.Ctx(w).(isHook := Some(false));
    var s0 := s.WithCtx(w, c);
    ValidWithCtx(s, w, c);
    match step
    case HookStep(h, location) => AfterHookStep(s0, w, h, location)
    case PickleStep(_, _, _, _) => AfterCreateTestStep(s0, w, src, lib, step)
  }

  /** updateResult (lines 185-226). */
  function AfterUpdateResult(s: State, w: Worker, result: StepResult): Transition
    requires Valid(s)
  {
    CtxValid(s, w);
    var c := s.Ctx(w);
    if c.step.None? then Transition(s, Threw(NullPointer))
    else
      var id := c.step.value;
      var v := ResultVerdict(result, c.isHook, s.nodes[id].logs);
      Transition(s.(nodes := ApplyVerdict(s.nodes, id, v)), if v.HookFlagUnset? then Threw(NullPointer) else Completed)
  }

  /** handleEmbed (lines 228-264): `base64` is isBase64ImageSrcEnabled and
    * `relativePath` getScreenshotReportRelatvePath. The counter advances before
    * the file is stored, whatever then happens. */
  function AfterEmbed(s: State, w: Worker, ev: EmbedEvent, base64: bool, relativePath: string,
                      persist: PersistResult): Transition
    requires Valid(s)
  {
    if ev.mediaType !in MimeTypesExtensions then Transition(s, Completed)
    else
      EmbedStepKeepsInvariant(s, w);
      var t := AfterEmbedStep(s, w);
      if t.outcome.Threw? then t else AfterAttachEmbed(t.after, w, ev, base64, relativePath, persist)
  }

  /** Lines 233-236: the current step, or else a new "Embed" Asterisk node under
    * the scenario, which becomes the current step. */
  function AfterEmbedStep(s: State, w: Worker): Transition {
    var c := s.Ctx(w);
    if c.step.Some? then Transition(s, Completed)
    else if c.scenario.None? then Transition(s, Threw(NullPointer))
    else Transition(s.(nodes := s.nodes + [NewNode(Asterisk, "Embed", None, c.scenario)])
                     .WithCtx(w, c.(step := Some(|s.nodes|))), Completed)
  }

  /** Lines 238-262: an accepted embed attached to the current step, inline or
    * as a stored file; the counter advances before the file is stored. */
  function AfterAttachEmbed(s: State, w: Worker, ev: EmbedEvent, base64: bool, relativePath: string,
                            persist: PersistResult): Transition
    requires Valid(s) && s.Ctx(w).step.Some? && ev.mediaType in MimeTypesExtensions
  {
    CtxValid(s, w);
    var target := s.Ctx(w).step.value;
    var title := ev.name.GetOr("");
    if base64 && StartsWith(ev.mediaType, "image/") then
      Transition(s.(nodes := AddLog(s.nodes, target, Log(Info, Text(title), Some(ScreenCaptureBase64(ev.data))))), Completed)
    else
      var n := s.embedded + 1;
      var s2 := s.(embedded := n);
      match persist
      case Written =>
        var media := ScreenCapturePath(relativePath + EmbeddedFileName(n, MimeTypesExtensions[ev.mediaType]));
        Transition(s2.(nodes := AddLog(s2.nodes, target, Log(Info, Text(title), Some(media)))), Completed)
      case WriteFailed => Transition(s2, Completed)
      case StreamFailed => Transition(s2, Threw(CucumberFailure))
  }

  /** handleWrite (lines 292-297). */
  function AfterWrite(s: State, w: Worker, text: Option<string>): Transition
    requires Valid(s)
  {
    CtxValid(s, w);
    var c := s.Ctx(w);
    if text.None? || text.value == "" then Transition(s, Completed)
    else if c.step.None? then Transition(s, Threw(NullPointer))
    else Transition(s.(nodes := AddLog(s.nodes, c.step.value, Log(Info, Text(text.value), None))), Completed)
  }

  // ---------------------------------------------------------------- every handler keeps the invariant

  lemma CreateFeatureKeepsInvariant(s: State, w: Worker, feature: Option<FeatureDef>, lib: Library)
    requires Valid(s)
    ensures Valid(AfterCreateFeature(s, w, feature, lib).after)
    ensures Evolves(s, AfterCreateFeature(s, w, feature, lib).after, w)
  {
    if feature.None? {
      EvolvesReflexive(s, w);
    } else {
      var f := feature.value;
      var s1 := s.(dialect := if f.language in lib.dialects then f.language else s.dialect);
      GrowsReflexive(s.nodes);
      EvolvesByNodes(s, s1.nodes, w);
      FeatureOpenedKeepsInvariant(s1, w, f);
      EvolvesTransitive(s, s1, AfterCreateFeature(s, w, feature, lib).after, w);
    }
  }

  /** Both branches of createFeature after the dialect is set. */
  lemma FeatureOpenedKeepsInvariant(s: State, w: Worker, f: FeatureDef)
    requires Valid(s)
    ensures Valid(OpenFeature(s, w, f).after) && Evolves(s, OpenFeature(s, w, f).after, w)
  {
    CtxValid(s, w);
    var c := s.Ctx(w);
    if f.name in s.featureMap {
      ValidWithCtx(s, w, c.(feature := Some(s.featureMap[f.name])));
    } else {
      NewFeatureKeepsInvariant(s, w, f);
    }
  }

  lemma NewFeatureKeepsInvariant(s: State, w: Worker, f: FeatureDef)
    requires Valid(s) && f.name !in s.featureMap
    ensures Valid(NewFeature(s, w, f)) && Evolves(s, NewFeature(s, w, f), w)
  {
    CtxValid(s, w);
    var c := s.Ctx(w);
    var n := NewNode(Feature, f.name, f.description, None);
    var s2 := s.(nodes := s.nodes + [n], featureMap := s.featureMap[f.name := |s.nodes|]);
    ValidAppendFeature(s, n);
    GrowsAppend(s.nodes, n);
    assert Evolves(s, s2, w);
    var c1 := c.(feature := Some(|s.nodes|), featureTags := Some(TagSet(f.tags)));
    CtxValid(s2, w);
    ValidWithCtx(s2, w, c1);
    EvolvesTransitive(s, s2, s2.WithCtx(w, c1), w);
  }

  lemma StartOfFeatureKeepsInvariant(s: State, w: Worker, src: Sources, lib: Library, uri: Uri)
    requires Valid(s)
    ensures Valid(AfterStartOfFeature(s, w, src, lib, uri).after)
    ensures Evolves(s, AfterStartOfFeature(s, w, src, lib, uri).after, w)
  {
    CtxValid(s, w);
    var s0 := s.WithCtx(w, s.Ctx(w).(featureFile := Some(uri)));
    ValidWithCtx(s, w, s.Ctx(w).(featureFile := Some(uri)));
    CreateFeatureKeepsInvariant(s0, w, GetFeature(src, uri), lib);
    EvolvesTransitive(s, s0, AfterStartOfFeature(s, w, src, lib, uri).after, w);
  }

  lemma CreateScenarioOutlineKeepsInvariant(s: State, w: Worker, sc: ScenarioDef)
    requires Valid(s)
    ensures Valid(AfterCreateScenarioOutline(s, w, sc).after)
    ensures Evolves(s, AfterCreateScenarioOutline(s, w, sc).after, w)
  {
    CtxValid(s, w);
    var c := s.Ctx(w);
    if sc.name in s.outlineMap {
      ValidWithCtx(s, w, c.(outline := Some(s.outlineMap[sc.name])));
    } else if c.outline.Some? || c.feature.None? {
      EvolvesReflexive(s, w);
    } else {
      NewOutlineKeepsInvariant(s, w, sc);
    }
  }

  lemma NewOutlineKeepsInvariant(s: State, w: Worker, sc: ScenarioDef)
    requires Valid(s) && sc.name !in s.outlineMap && s.Ctx(w).feature.Some?
    ensures Valid(NewOutline(s, w, sc)) && Evolves(s, NewOutline(s, w, sc), w)
  {
    CtxValid(s, w);
    var c := s.Ctx(w);
    var n := NewNode(ScenarioOutline, sc.name, sc.description, c.feature)
               .(categories := Tags(c.featureTags) + TagSet(sc.tags));
    ValidAppendOutline(s, n);
    var s1 := s.(nodes := s.nodes + [n], outlineMap := s.outlineMap[sc.name := |s.nodes|]);
    GrowsAppend(s.nodes, n);
    assert Evolves(s, s1, w);
    var c1 := c.(outline := Some(|s.nodes|), outlineTags := Some(TagSet(sc.tags)));
    CtxValid(s1, w);
    ValidWithCtx(s1, w, c1);
    EvolvesTransitive(s, s1, s1.WithCtx(w, c1), w);
  }

  lemma CreateExamplesKeepsInvariant(s: State, w: Worker, ex: ExamplesDef, lib: Library)
    requires Valid(s)
    ensures Valid(AfterCreateExamples(s, w, ex, lib).after)
    ensures Evolves(s, AfterCreateExamples(s, w, ex, lib).after, w)
  {
    CtxValid(s, w);
    var c := s.Ctx(w);
    if c.outline.None? {
      EvolvesReflexive(s, w);
    } else {
      var id := c.outline.value;
      var d := ExamplesDescription(s.nodes[id].description, ex, lib);
      ExamplesDescriptionExtends(s.nodes[id].description, ex, lib);
      ValidSameShape(s, SetDescription(s.nodes, id, d));
      GrowsExtendDescription(s.nodes, id, d);
    }
  }

  lemma TrackDefinitionKeepsInvariant(t: Transition, w: Worker, sc: ScenarioDef)
    requires Valid(t.after)
    ensures Valid(TrackDefinition(t, w, sc).after)
    ensures Evolves(t.after, TrackDefinition(t, w, sc).after, w)
  {
    CtxValid(t.after, w);
    ValidWithCtx(t.after, w, t.after.Ctx(w).(outlineDefinition := Some(sc)));
    EvolvesReflexive(t.after, w);
  }

  lemma TrackOutlineKeepsInvariant(s: State, w: Worker, sc: ScenarioDef)
    requires Valid(s)
    ensures Valid(AfterTrackOutline(s, w, sc).after)
    ensures Evolves(s, AfterTrackOutline(s, w, sc).after, w)
  {
    CtxValid(s, w);
    var c := s.Ctx(w);
    if c.outlineDefinition.Some? && c.outlineDefinition.value.name == sc.name {
      EvolvesReflexive(s, w);
    } else {
      var s0 := s.WithCtx(w, c.(outline := None));
      ValidWithCtx(s, w, c.(outline := None));
      CreateScenarioOutlineKeepsInvariant(s0, w, sc);
      var t := AfterCreateScenarioOutline(s0, w, sc);
      EvolvesTransitive(s, s0, t.after, w);
      TrackDefinitionKeepsInvariant(t, w, sc);
      EvolvesTransitive(s, t.after, TrackDefinition(t, w, sc).after, w);
    }
  }

  lemma OpenExamplesKeepsInvariant(t: Transition, w: Worker, node: AstNode, lib: Library)
    requires Valid(t.after)
    ensures Valid(OpenExamples(t, w, node, lib).after)
    ensures Evolves(t.after, OpenExamples(t, w, node, lib).after, w)
  {
    EvolvesReflexive(t.after, w);
    if t.outcome.Completed? && node.ExamplesRowAt? {
      var ex := node.examples;
      var c1 := t.after.Ctx(w);
      if c1.examples != Some(ex) {
        CtxValid(t.after, w);
        var t1 := t.after.WithCtx(w, c1.(examples := Some(ex)));
        ValidWithCtx(t.after, w, c1.(examples := Some(ex)));
        CreateExamplesKeepsInvariant(t1, w, ex, lib);
        EvolvesTransitive(t.after, t1, AfterCreateExamples(t1, w, ex, lib).after, w);
      }
    }
  }

  lemma ScenarioOutlineKeepsInvariant(s: State, w: Worker, src: Sources, lib: Library, line: int)
    requires Valid(s)
    ensures Valid(AfterScenarioOutline(s, w, src, lib, line).after)
    ensures Evolves(s, AfterScenarioOutline(s, w, src, lib, line).after, w)
  {
    CtxValid(s, w);
    var c := s.Ctx(w);
    var node := GetAstNode(src, c.featureFile, line);
    if node.None? {
      EvolvesReflexive(s, w);
    } else if |node.value.scenario.examples| == 0 {
      ValidWithCtx(s, w, c.(outline := None, outlineDefinition := None, examples := None));
    } else {
      var sc := node.value.scenario;
      TrackOutlineKeepsInvariant(s, w, sc);
      var t := AfterTrackOutline(s, w, sc);
      OpenExamplesKeepsInvariant(t, w, node.value, lib);
      EvolvesTransitive(s, t.after, OpenExamples(t, w, node.value, lib).after, w);
    }
  }

  lemma TagScenarioKeepsInvariant(s: State, w: Worker, tags: seq<string>)
    requires Valid(s) && s.Ctx(w).scenario.Some?
    ensures Valid(TagScenarioOf(s, w, tags).after)
    ensures Evolves(s, TagScenarioOf(s, w, tags).after, w)
  {
    CtxValid(s, w);
    var c := s.Ctx(w);
    var id := c.scenario.value;
    var p := s.nodes[id].parent.value;
    var outlineTags := if s.nodes[p].kind == ScenarioOutline then Tags(c.outlineTags) else {};
    NodesEditedKeepsInvariant(s, AddCategories(s.nodes, id, TagSet(tags) + Tags(c.featureTags) + outlineTags), w);
  }

  lemma OpenScenarioKeepsInvariant(s: State, w: Worker, src: Sources, tc: TestCase)
    requires Valid(s)
    ensures var t := OpenScenario(s, w, src, tc);
            && Valid(t.after) && Evolves(s, t.after, w)
            && (t.outcome.Completed? ==> t.after.Ctx(w).scenario.Some?)
  {
    CtxValid(s, w);
    var c := s.Ctx(w);
    var node := GetAstNode(src, c.featureFile, tc.line);
    var parent := if c.outline.Some? then c.outline else c.feature;
    if node.Some? && parent.Some? {
      var n := NewNode(Scenario, tc.name, node.value.scenario.description, parent);
      var c1 := c.(scenario := Some(|s.nodes|));
      ContextValidAppend(s.nodes, n, c);
      ChildCreatedKeepsInvariant(s, w, n, c1);
      assert OpenScenario(s, w, src, tc).after == s.(nodes := s.nodes + [n]).WithCtx(w, c1);
    } else {
      EvolvesReflexive(s, w);
    }
  }

  lemma CreateTestCaseKeepsInvariant(s: State, w: Worker, src: Sources, tc: TestCase)
    requires Valid(s)
    ensures Valid(AfterCreateTestCase(s, w, src, tc).after)
    ensures Evolves(s, AfterCreateTestCase(s, w, src, tc).after, w)
  {
    OpenScenarioKeepsInvariant(s, w, src, tc);
    var t := OpenScenario(s, w, src, tc);
    if t.outcome.Completed? {
      TagScenarioKeepsInvariant(t.after, w, tc.tags);
      EvolvesTransitive(s, t.after, TagScenarioOf(t.after, w, tc.tags).after, w);
    }
  }

  lemma TestCaseStartedKeepsInvariant(s: State, w: Worker, src: Sources, lib: Library, tc: TestCase)
    requires Valid(s)
    ensures Valid(AfterTestCaseStarted(s, w, src, lib, tc).after)
    ensures Evolves(s, AfterTestCaseStarted(s, w, src, lib, tc).after, w)
  {
    StartOfFeatureKeepsInvariant(s, w, src, lib, tc.uri);
    var t1 := AfterStartOfFeature(s, w, src, lib, tc.uri);
    if t1.outcome.Completed? {
      ScenarioOutlineKeepsInvariant(t1.after, w, src, lib, tc.line);
      var t2 := AfterScenarioOutline(t1.after, w, src, lib, tc.line);
      EvolvesTransitive(s, t1.after, t2.after, w);
      if t2.outcome.Completed? {
        CreateTestCaseKeepsInvariant(t2.after, w, src, tc);
        EvolvesTransitive(s, t2.after, AfterCreateTestCase(t2.after, w, src, tc).after, w);
      }
    }
  }

  lemma StepNodeKeepsInvariant(s: State, w: Worker, src: Sources, lib: Library, step: TestStep)
    requires step.PickleStep? && Valid(s)
    ensures Valid(AfterStepNode(s, w, src, lib, step).after)
    ensures Evolves(s, AfterStepNode(s, w, src, lib, step).after, w)
  {
    CtxValid(s, w);
    var c := s.Ctx(w);
    var node := GetAstNode(src, c.featureFile, step.line);
    if node.Some? && node.value.StepAt? && Trim(node.value.step.keyword) in Keywords(lib, s.dialect) && c.scenario.Some? {
      var sd := node.value.step;
      var n := NewNode(Step(Trim(sd.keyword)), sd.keyword + StepName(step.text, sd.text),
                       Some(step.codeLocation), c.scenario);
      ChildCreatedKeepsInvariant(s, w, n, c.(step := Some(|s.nodes|)));
    } else {
      EvolvesReflexive(s, w);
    }
  }

  lemma StepArgumentKeepsInvariant(s: State, w: Worker, argument: Option<StepArgument>)
    requires Valid(s)
    requires argument.Some? ==> ArgumentWellFormed(argument.value)
    ensures Valid(AfterStepArgument(s, w, argument).after)
    ensures Evolves(s, AfterStepArgument(s, w, argument).after, w)
  {
    CtxValid(s, w);
    var target := s.Ctx(w).step;
    if argument.Some? && target.Some? {
      NodesEditedKeepsInvariant(s, AddLog(s.nodes, target.value, ArgumentLog(argument.value)), w);
    } else {
      EvolvesReflexive(s, w);
    }
  }

  lemma CreateTestStepKeepsInvariant(s: State, w: Worker, src: Sources, lib: Library, step: TestStep)
    requires step.PickleStep? && Valid(s)
    requires step.argument.Some? ==> ArgumentWellFormed(step.argument.value)
    ensures Valid(AfterCreateTestStep(s, w, src, lib, step).after)
    ensures Evolves(s, AfterCreateTestStep(s, w, src, lib, step).after, w)
  {
    StepNodeKeepsInvariant(s, w, src, lib, step);
    var t := AfterStepNode(s, w, src, lib, step);
    if t.outcome.Completed? {
      StepArgumentKeepsInvariant(t.after, w, step.argument);
      EvolvesTransitive(s, t.after, AfterStepArgument(t.after, w, step.argument).after, w);
    }
  }

  lemma HookStepKeepsInvariant(s: State, w: Worker, h: HookType, location: string)
    requires Valid(s)
    ensures Valid(AfterHookStep(s, w, h, location).after)
    ensures Evolves(s, AfterHookStep(s, w, h, location).after, w)
  {
    CtxValid(s, w);
    var c := s.Ctx(w);
    if c.scenario.Some? {
      var n := NewNode(Asterisk, location, Some(HookLabel(h)), c.scenario);
      ChildCreatedKeepsInvariant(s, w, n, c.(step := Some(|s.nodes|), isHook := Some(true)));
    } else {
      EvolvesReflexive(s, w);
    }
  }

  lemma TestStepStartedKeepsInvariant(s: State, w: Worker, src: Sources, lib: Library, step: TestStep)
    requires Valid(s)
    requires step.PickleStep? && step.argument.Some? ==> ArgumentWellFormed(step.argument.value)
    ensures Valid(AfterTestStepStarted(s, w, src, lib, step).after)
    ensures Evolves(s, AfterTestStepStarted(s, w, src, lib, step).after, w)
  {
    CtxValid(s, w);
    var c := s.Ctx(w).(isHook := Some(false));
    var s0 := s.WithCtx(w, c);
    ValidWithCtx(s, w, c);
    if step.HookStep? {
      HookStepKeepsInvariant(s0, w, step.hookType, step.codeLocation);
      EvolvesTransitive(s, s0, AfterHookStep(s0, w, step.hookType, step.codeLocation).after, w);
    } else {
      CreateTestStepKeepsInvariant(s0, w, src, lib, step);
      EvolvesTransitive(s, s0, AfterCreateTestStep(s0, w, src, lib, step).after, w);
    }
  }

  lemma UpdateResultKeepsInvariant(s: State, w: Worker, result: StepResult)
    requires Valid(s)
    ensures Valid(AfterUpdateResult(s, w, result).after)
    ensures Evolves(s, AfterUpdateResult(s, w, result).after, w)
  {
    CtxValid(s, w);
    var c := s.Ctx(w);
    if c.step.None? {
      EvolvesReflexive(s, w);
    } else {
      var id := c.step.value;
      var ns := ApplyVerdict(s.nodes, id, ResultVerdict(result, c.isHook, s.nodes[id].logs));
      ValidSameShape(s, ns);
    }
  }

  lemma EmbedStepKeepsInvariant(s: State, w: Worker)
    requires Valid(s)
    ensures Valid(AfterEmbedStep(s, w).after)
    ensures Evolves(s, AfterEmbedStep(s, w).after, w)
    ensures AfterEmbedStep(s, w).outcome.Completed? ==> AfterEmbedStep(s, w).after.Ctx(w).step.Some?
  {
    CtxValid(s, w);
    var c := s.Ctx(w);
    if c.step.None? && c.scenario.Some? {
      ChildCreatedKeepsInvariant(s, w, NewNode(Asterisk, "Embed", None, c.scenario), c.(step := Some(|s.nodes|)));
    } else {
      EvolvesReflexive(s, w);
    }
  }

  lemma AttachEmbedKeepsInvariant(s: State, w: Worker, ev: EmbedEvent, base64: bool, relativePath: string,
                                  persist: PersistResult)
    requires Valid(s) && s.Ctx(w).step.Some? && ev.mediaType in MimeTypesExtensions
    ensures Valid(AfterAttachEmbed(s, w, ev, base64, relativePath, persist).after)
    ensures Evolves(s, AfterAttachEmbed(s, w, ev, base64, relativePath, persist).after, w)
  {
    CtxValid(s, w);
    var target := s.Ctx(w).step.value;
    var title := ev.name.GetOr("");
    var s2 := s.(embedded := s.embedded + 1);
    if base64 && StartsWith(ev.mediaType, "image/") {
      NodesEditedKeepsInvariant(s, AddLog(s.nodes, target, Log(Info, Text(title), Some(ScreenCaptureBase64(ev.data)))), w);
    } else {
      assert Valid(s2) && Evolves(s, s2, w) by {
        GrowsReflexive(s.nodes);
      }
      if persist.Written? {
        var media := ScreenCapturePath(relativePath + EmbeddedFileName(s2.embedded, MimeTypesExtensions[ev.mediaType]));
        var ns := AddLog(s2.nodes, target, Log(Info, Text(title), Some(media)));
        NodesEditedKeepsInvariant(s2, ns, w);
        EvolvesTransitive(s, s2, s2.(nodes := ns), w);
      }
    }
  }

  lemma EmbedKeepsInvariant(s: State, w: Worker, ev: EmbedEvent, base64: bool, relativePath: string,
                            persist: PersistResult)
    requires Valid(s)
    ensures Valid(AfterEmbed(s, w, ev, base64, relativePath, persist).after)
    ensures Evolves(s, AfterEmbed(s, w, ev, base64, relativePath, persist).after, w)
  {
    if ev.mediaType !in MimeTypesExtensions {
      EvolvesReflexive(s, w);
    } else {
      EmbedStepKeepsInvariant(s, w);
      var t := AfterEmbedStep(s, w);
      if t.outcome.Completed? {
        AttachEmbedKeepsInvariant(t.after, w, ev, base64, relativePath, persist);
        EvolvesTransitive(s, t.after, AfterAttachEmbed(t.after, w, ev, base64, relativePath, persist).after, w);
      }
    }
  }

  lemma WriteKeepsInvariant(s: State, w: Worker, text: Option<string>)
    requires Valid(s)
    ensures Valid(AfterWrite(s, w, text).after)
    ensures Evolves(s, AfterWrite(s, w, text).after, w)
  {
    CtxValid(s, w);
    var c := s.Ctx(w);
    if text.None? || text.value == "" || c.step.None? {
      EvolvesReflexive(s, w);
    } else {
      ValidSameShape(s, AddLog(s.nodes, c.step.value, Log(Info, Text(text.value), None)));
    }
  }
}
