/**
 * What the adapter receives from Cucumber: the parsed feature files, as the
 * source-model resolver (TestSourcesModel) hands them out, and the payloads of
 * the runner's events. The resolver itself is not part of this model; it is
 * given as the lookup tables in `Sources`.
 */
module Gherkin {
  import opened Wrappers
  import opened ReportModel

  type Uri = string

  datatype FeatureDef = FeatureDef(name: string, description: Option<string>, language: string, tags: seq<string>)

  /** An Examples block of a Scenario Outline. Equality compares `id` (the
    * message id), the name, the header and the rows. */
  datatype ExamplesDef = ExamplesDef(id: string, name: string, header: seq<string>, body: seq<seq<string>>)

  /** A Scenario or Scenario Outline definition; an outline has Examples. */
  datatype ScenarioDef = ScenarioDef(name: string, description: Option<string>, tags: seq<string>, examples: seq<ExamplesDef>)

  datatype StepDef = StepDef(keyword: string, text: string)

  /** The AST node at a line, with what the adapter reads from its ancestors:
    * the enclosing scenario definition and, for a row of an Examples table,
    * the Examples block that is its parent. */
  datatype AstNode =
    | ScenarioAt(scenario: ScenarioDef)
    | ExamplesRowAt(scenario: ScenarioDef, examples: ExamplesDef)
    | StepAt(scenario: ScenarioDef, step: StepDef)

  /** The resolver's tables: the feature of each document and the AST node at
    * each (document, line). */
  datatype Sources = Sources(features: map<Uri, FeatureDef>, nodes: map<(Uri, int), AstNode>)

  /** TestSourcesModel.getFeature: null for an unknown document. */
  function GetFeature(src: Sources, uri: Uri): Option<FeatureDef> {
    if uri in src.features then Some(src.features[uri]) else None
  }

  /** TestSourcesModel.getAstNode: null for an unknown document or line. */
  function GetAstNode(src: Sources, uri: Option<Uri>, line: int): Option<AstNode> {
    if uri.Some? && (uri.value, line) in src.nodes then Some(src.nodes[(uri.value, line)]) else None
  }

  /** Gherkin refuses a table whose rows differ in width, so no body row of an
    * Examples block is wider than its header. */
  predicate ExamplesWellFormed(ex: ExamplesDef) {
    forall i :: 0 <= i < |ex.body| ==> |ex.body[i]| <= |ex.header|
  }

  predicate TablesWellFormed(src: Sources) {
    forall key :: key in src.nodes && src.nodes[key].ExamplesRowAt? ==> ExamplesWellFormed(src.nodes[key].examples)
  }

  // ---------------------------------------------------------------- events

  datatype TestCase = TestCase(uri: Uri, line: int, name: string, tags: seq<string>)

  datatype HookType = Before | After | BeforeStep | AfterStep

  datatype StepArgument = DocString(content: string) | DataTable(cells: seq<seq<string>>)

  /** A data table argument as Cucumber builds it: at least one row, and no row
    * narrower than the first. */
  predicate ArgumentWellFormed(arg: StepArgument) {
    arg.DataTable? ==> |arg.cells| > 0 && forall i :: 0 <= i < |arg.cells| ==> |arg.cells[0]| <= |arg.cells[i]|
  }

  datatype TestStep =
    | HookStep(hookType: HookType, codeLocation: string)
    | PickleStep(codeLocation: string, text: string, line: int, argument: Option<StepArgument>)

  datatype StepStatus = Passed | Skipped | Pending | Undefined | Ambiguous | Failed | Unused

  datatype StepResult = StepResult(status: StepStatus, error: Option<Throwable>)

  datatype EmbedEvent = EmbedEvent(mediaType: string, data: seq<bv8>, name: Option<string>)
}
