# ExtentReports Cucumber 7 adapter, modelled in Dafny

This project models the core of the ExtentReports Cucumber 7 adapter.

- The **ExtentCucumberAdapter** listener turns Cucumber events into ExtentReports tests:
  - a test case start becomes a feature node, scenario-outline and Examples nodes, and a scenario node;
  - a step start becomes a hook or step node;
  - a step result becomes a log entry, or removes a hook;
  - an embed becomes a screenshot entry;
  - a write becomes an Info entry.
- **ExtentService** finds configuration values, derives report and screenshot paths from them, and records system info. It also converts status names, and flushes the report only when the last declared runner finishes.

## Files

- **wrappers.dfy, java_text.dfy:** an Option type, and the Java string operations the source relies on:
  - toLowerCase and equalsIgnoreCase;
  - startsWith and indexOf;
  - trim and replace;
  - split with a one-character pattern;
  - Integer.parseInt and Integer.toString.
- **report_model.dfy:** the report is an arena of nodes. Each node has a kind, a name, a description, logs, categories and a parent index. `Report` is the ExtentReports instance, and its methods are createTest/createNode, the log calls, assignCategory, setDescription, removeTest and setSystemInfo. removeTest detaches a node from its parent's children.
- **gherkin.dfy:** what the adapter reads from Cucumber:
  - the parsed feature files, resolved by URI and line (the role TestSourcesModel plays in the source);
  - test cases, test steps and their arguments;
  - step results and embed events.
- **adapter_model.dfy:** the adapter's state as a value. The state holds:
  - the tree;
  - the feature and outline registries;
  - the embed counter;
  - the library's dialect;
  - one cursor record per worker thread.

  It defines one transition function per handler, each returning the new state and whether a Java exception escaped. It also states the invariant every handler keeps (registries are one node per name, and each cursor points at a node of the right kind), with one preservation lemma per handler. A larger handler is the composition of smaller transition functions, one per part of the Java method, and each part has its own preservation lemma.
- **adapter_properties.dfy:** the adapter's promises, stated over those transition functions.
- **adapter.dfy:** `ExtentCucumberAdapter` as a class.
  - The registries, counter, dialect and per-worker cursors are its fields.
  - Every handler is a method whose `ensures` says its new state and outcome are the transition function's, and that the invariant holds.
  - A handler built from parts calls one method per part, each proved against that part's transition function.
  - getTable and createDataTableList fill a `String[][]` (an `array2`) with loops, and are proved to produce the table grid.
- **service.dfy:** ExtentService.
  - The pure lookups and path computations are functions, with lemmas.
  - The static fields of its nested ExtentReportsLoader are fields of a class, which the configuration methods assign. addSystemInfo is a loop into the report instance.
  - The flush barrier is specified by a count of flushes over successive calls.

Notes on how the code behaves, which the model follows:

- **The feature-file guard never skips.** handleStartOfFeature's guard at line 304 compares a ThreadLocal with a URI, so it is always true and createFeature runs for every test case. The later check at lines 323-326 can never succeed, because the worker's current feature is always registered under its name; `AdapterModel.CurrentFeatureIsRegistered` proves this, so the model leaves that branch out.
- **Adoption keeps old tags.** When a feature is adopted from the registry, its tags are not re-read. The worker keeps the feature tags it had before.
- **Outline adoption keeps old outline tags.** When createScenarioOutline adopts a registered outline, it returns at line 366, before the tag snapshot at line 382. The worker keeps the outline tags of the outline it tracked before, and createTestCase adds those to the scenario (lines 434-436). `AdapterProperties.OutlineCreatedOrAdopted` states that the snapshot is unchanged on adoption.
- **Examples blocks per worker.** The tracked Examples block is per worker (lines 94 and 352). Two workers running rows of one Examples block each render it into the shared outline's description. So each distinct Examples table is not rendered exactly once overall. It is only not rendered again straight after itself on the same worker.
- **Hook nodes.** A hook node is named by its code location and described by the upper-cased hook type. A passed hook that is removed still gets its `pass("")` entry.
- **Unknown keywords.** When a step's keyword is not a GherkinKeyword of the current dialect, no node is created (the ClassNotFoundException is caught). The step's argument is then logged on the previous step.
- **Output path lookup.** getOutputPath reads the properties it is given, and otherwise System.getProperty. It does not fall back to the properties file through getProperty.
- **Non-positive runner counts.** A declared runner count of 0 or less never flushes once the count is available.

## Model

| member | source | states |
|---|---|---|
| CucumberAdapter.ExtentCucumberAdapter.constructor | extentreports-cucumber7-adapter/src/main/java/com/aventstack/extentreports/cucumber/adapter/ExtentCucumberAdapter.java:62-95 | the adapter starts with no registered features or outlines, an embed counter of 0, no worker cursors, and the invariant holding |
| CucumberAdapter.ExtentCucumberAdapter.HandleTestCaseStarted | extentreports-cucumber7-adapter/src/main/java/com/aventstack/extentreports/cucumber/adapter/ExtentCucumberAdapter.java:159-163 | a case start runs handleStartOfFeature, then handleScenarioOutline, then createTestCase, stopping at the first exception; new state and outcome are AfterTestCaseStarted's and the invariant is kept |
| CucumberAdapter.ExtentCucumberAdapter.HandleStartOfFeature | extentreports-cucumber7-adapter/src/main/java/com/aventstack/extentreports/cucumber/adapter/ExtentCucumberAdapter.java:303-308 | records the case's URI as the worker's feature file, then always runs createFeature |
| CucumberAdapter.ExtentCucumberAdapter.CreateFeature | extentreports-cucumber7-adapter/src/main/java/com/aventstack/extentreports/cucumber/adapter/ExtentCucumberAdapter.java:310-336 | sets the dialect, throws on an unknown document, otherwise adopts the registered feature of that name or creates and registers a new top-level Feature and takes its tags |
| CucumberAdapter.ExtentCucumberAdapter.OpenFeatureOf | extentreports-cucumber7-adapter/src/main/java/com/aventstack/extentreports/cucumber/adapter/ExtentCucumberAdapter.java:319-335 | a registered feature name makes that node current; an unregistered one gets a new top-level Feature node, registered, current and with the feature tags; the invariant is kept |
| CucumberAdapter.ExtentCucumberAdapter.HandleScenarioOutline | extentreports-cucumber7-adapter/src/main/java/com/aventstack/extentreports/cucumber/adapter/ExtentCucumberAdapter.java:338-361 | an outline case tracks the outline (creating or adopting it) and renders its Examples block when it is not the one already tracked; a plain case clears the three outline cursors |
| CucumberAdapter.ExtentCucumberAdapter.TrackOutline | extentreports-cucumber7-adapter/src/main/java/com/aventstack/extentreports/cucumber/adapter/ExtentCucumberAdapter.java:345-350 | the tracked outline is kept when its name matches; otherwise the outline cursor is cleared, createScenarioOutline runs, and on completion the definition is tracked |
| CucumberAdapter.ExtentCucumberAdapter.OpenExamplesOf | extentreports-cucumber7-adapter/src/main/java/com/aventstack/extentreports/cucumber/adapter/ExtentCucumberAdapter.java:351-355 | a case that is not an Examples row throws ClassCast; an Examples block other than the tracked one becomes current and is rendered; the tracked one changes nothing |
| CucumberAdapter.ExtentCucumberAdapter.CreateScenarioOutline | extentreports-cucumber7-adapter/src/main/java/com/aventstack/extentreports/cucumber/adapter/ExtentCucumberAdapter.java:363-384 | adopts the registered outline of that name, or (with no current outline) creates one under the current feature, with the feature tags and the outline tags as categories |
| CucumberAdapter.ExtentCucumberAdapter.CreateOutlineNode | extentreports-cucumber7-adapter/src/main/java/com/aventstack/extentreports/cucumber/adapter/ExtentCucumberAdapter.java:369-378 | appends one ScenarioOutline node under the current feature whose categories are the feature tags and the outline tags, and returns its index |
| CucumberAdapter.ExtentCucumberAdapter.CreateExamples | extentreports-cucumber7-adapter/src/main/java/com/aventstack/extentreports/cucumber/adapter/ExtentCucumberAdapter.java:386-398 | the current outline's description becomes the old description + "<br><br>" (if any), then the Examples name, then the rendered header-and-body table |
| CucumberAdapter.ExtentCucumberAdapter.GetTable | extentreports-cucumber7-adapter/src/main/java/com/aventstack/extentreports/cucumber/adapter/ExtentCucumberAdapter.java:400-415 | fills a rows × first-row-width array whose cell (i, j) is row i's j-th value, null where the row is shorter: the array equals TableGrid(rows) |
| CucumberAdapter.ExtentCucumberAdapter.CreateTestCase | extentreports-cucumber7-adapter/src/main/java/com/aventstack/extentreports/cucumber/adapter/ExtentCucumberAdapter.java:417-439 | creates the scenario under the current outline or else the feature, and assigns it the case tags, the feature tags and (under an outline) the outline tags |
| CucumberAdapter.ExtentCucumberAdapter.OpenScenarioOf | extentreports-cucumber7-adapter/src/main/java/com/aventstack/extentreports/cucumber/adapter/ExtentCucumberAdapter.java:418-427 | a resolved line appends a Scenario node under the outline, or else the feature, and makes it current; with neither it throws; an unresolved line keeps the current scenario and throws when there is none |
| CucumberAdapter.ExtentCucumberAdapter.TagScenario | extentreports-cucumber7-adapter/src/main/java/com/aventstack/extentreports/cucumber/adapter/ExtentCucumberAdapter.java:428-438 | the scenario's categories grow by exactly the case tags, the feature tags, and the outline tags when its parent is an outline |
| CucumberAdapter.ExtentCucumberAdapter.AssignCaseCategories | extentreports-cucumber7-adapter/src/main/java/com/aventstack/extentreports/cucumber/adapter/ExtentCucumberAdapter.java:428-438 | the three assignCategory passes add exactly the case tags, the feature tags and, under an outline, the outline tags to that node |
| CucumberAdapter.ExtentCucumberAdapter.HandleTestStepStarted | extentreports-cucumber7-adapter/src/main/java/com/aventstack/extentreports/cucumber/adapter/ExtentCucumberAdapter.java:165-179 | resets the hook flag, and creates an Asterisk hook node under the scenario (flag set) or delegates a pickle step to createTestStep |
| CucumberAdapter.ExtentCucumberAdapter.StartHook | extentreports-cucumber7-adapter/src/main/java/com/aventstack/extentreports/cucumber/adapter/ExtentCucumberAdapter.java:168-173 | a hook becomes an Asterisk node under the current scenario named by its code location, current and flagged as a hook; with no scenario it throws |
| CucumberAdapter.ExtentCucumberAdapter.CreateTestStep | extentreports-cucumber7-adapter/src/main/java/com/aventstack/extentreports/cucumber/adapter/ExtentCucumberAdapter.java:441-468 | a resolved step with a known keyword becomes the current step, named keyword + text (escaped AST text when the pickle text is empty); an argument adds a Pass code block or table |
| CucumberAdapter.ExtentCucumberAdapter.CreateStepNode | extentreports-cucumber7-adapter/src/main/java/com/aventstack/extentreports/cucumber/adapter/ExtentCucumberAdapter.java:442-457 | a node that is not a step throws ClassCast; an unknown keyword adds nothing; a known one with no scenario throws; otherwise the step node is appended and made current |
| CucumberAdapter.ExtentCucumberAdapter.LogStepArgument | extentreports-cucumber7-adapter/src/main/java/com/aventstack/extentreports/cucumber/adapter/ExtentCucumberAdapter.java:458-467 | a doc string or data table adds its Pass entry to the current step, throws with no step, and no argument changes nothing |
| CucumberAdapter.ExtentCucumberAdapter.CreateDataTableList | extentreports-cucumber7-adapter/src/main/java/com/aventstack/extentreports/cucumber/adapter/ExtentCucumberAdapter.java:470-481 | copies a rectangular data table into a rows × first-row-width array: the array equals TableGrid(cells) |
| CucumberAdapter.ExtentCucumberAdapter.UpdateResult | extentreports-cucumber7-adapter/src/main/java/com/aventstack/extentreports/cucumber/adapter/ExtentCucumberAdapter.java:185-226 | applies the status rules of updateResult to the current step; new state and outcome are AfterUpdateResult's |
| CucumberAdapter.ExtentCucumberAdapter.ApplyTo | extentreports-cucumber7-adapter/src/main/java/com/aventstack/extentreports/cucumber/adapter/ExtentCucumberAdapter.java:189-220 | the report ends as ApplyVerdict says: nothing, one entry, removal, or removal then an entry |
| CucumberAdapter.ExtentCucumberAdapter.HandleEmbed | extentreports-cucumber7-adapter/src/main/java/com/aventstack/extentreports/cucumber/adapter/ExtentCucumberAdapter.java:228-264 | an embed of one of the six image types is attached inline (base64) or stored as embedded<N>.<ext> under the relative path; other types change nothing |
| CucumberAdapter.ExtentCucumberAdapter.EmbedStep | extentreports-cucumber7-adapter/src/main/java/com/aventstack/extentreports/cucumber/adapter/ExtentCucumberAdapter.java:233-236 | with no current step an "Embed" Asterisk node under the scenario becomes the step; with a step nothing changes; with neither it throws |
| CucumberAdapter.ExtentCucumberAdapter.AttachEmbed | extentreports-cucumber7-adapter/src/main/java/com/aventstack/extentreports/cucumber/adapter/ExtentCucumberAdapter.java:238-262 | base64 images are logged inline; otherwise the counter advances, a stored file is logged by its relative path, a failed write logs nothing, a failed stream throws |
| CucumberAdapter.ExtentCucumberAdapter.HandleWrite | extentreports-cucumber7-adapter/src/main/java/com/aventstack/extentreports/cucumber/adapter/ExtentCucumberAdapter.java:292-297 | non-empty text becomes an Info entry on the current step; null or empty text changes nothing |
| CucumberAdapter.Grid | extentreports-cucumber7-adapter/src/main/java/com/aventstack/extentreports/cucumber/adapter/ExtentCucumberAdapter.java:400-415 | the array's contents as a grid with the array's dimensions |
| AdapterModel.CurrentFeatureIsRegistered | extentreports-cucumber7-adapter/src/main/java/com/aventstack/extentreports/cucumber/adapter/ExtentCucumberAdapter.java:323-326 | with the name unregistered, the worker's current feature never has that name, so the early return never happens |
| AdapterModel.TableGrid | extentreports-cucumber7-adapter/src/main/java/com/aventstack/extentreports/cucumber/adapter/ExtentCucumberAdapter.java:400-415 | the grid has one row per table row, each as wide as the first row, holding the row's value or null beyond its end |
| AdapterModel.DataTableGridComplete | extentreports-cucumber7-adapter/src/main/java/com/aventstack/extentreports/cucumber/adapter/ExtentCucumberAdapter.java:470-481 | a rectangular data table is copied with no null cell |
| AdapterModel.ExamplesDescriptionExtends | extentreports-cucumber7-adapter/src/main/java/com/aventstack/extentreports/cucumber/adapter/ExtentCucumberAdapter.java:395-397 | the old description is kept as a prefix followed by "<br><br>" and the markup; with none the markup stands alone |
| AdapterModel.EscapeAnglesRemovesBrackets | extentreports-cucumber7-adapter/src/main/java/com/aventstack/extentreports/cucumber/adapter/ExtentCucumberAdapter.java:448-450 | the escaped text has no '<' or '>', and text without them is unchanged |
| AdapterModel.MimeTypesAreImages | extentreports-cucumber7-adapter/src/main/java/com/aventstack/extentreports/cucumber/adapter/ExtentCucumberAdapter.java:75-87 | exactly the six image media types have an extension, and each starts with "image/" |
| AdapterModel.EmbeddedFileNamesDistinct | extentreports-cucumber7-adapter/src/main/java/com/aventstack/extentreports/cucumber/adapter/ExtentCucumberAdapter.java:244-245 | different counter values give different embedded<N>.<ext> names regardless of extension |
| AdapterModel.ApplyVerdict | extentreports-cucumber7-adapter/src/main/java/com/aventstack/extentreports/cucumber/adapter/ExtentCucumberAdapter.java:185-226 | applying a step result only grows the tree: nodes stay, logs only get longer |
| AdapterModel.CreateFeatureKeepsInvariant | extentreports-cucumber7-adapter/src/main/java/com/aventstack/extentreports/cucumber/adapter/ExtentCucumberAdapter.java:310-336 | createFeature keeps the invariant, evolves only worker w's cursors and extends the registries |
| AdapterModel.FeatureOpenedKeepsInvariant | extentreports-cucumber7-adapter/src/main/java/com/aventstack/extentreports/cucumber/adapter/ExtentCucumberAdapter.java:319-335 | opening a feature by name keeps the invariant and changes only this worker's cursors |
| AdapterModel.NewFeatureKeepsInvariant | extentreports-cucumber7-adapter/src/main/java/com/aventstack/extentreports/cucumber/adapter/ExtentCucumberAdapter.java:327-334 | a new feature node under an unused name keeps both registries exact and the tree well formed |
| AdapterModel.StartOfFeatureKeepsInvariant | extentreports-cucumber7-adapter/src/main/java/com/aventstack/extentreports/cucumber/adapter/ExtentCucumberAdapter.java:303-308 | handleStartOfFeature keeps the invariant and evolves only worker w's cursors |
| AdapterModel.CreateScenarioOutlineKeepsInvariant | extentreports-cucumber7-adapter/src/main/java/com/aventstack/extentreports/cucumber/adapter/ExtentCucumberAdapter.java:363-384 | createScenarioOutline keeps the invariant and evolves only worker w's cursors |
| AdapterModel.NewOutlineKeepsInvariant | extentreports-cucumber7-adapter/src/main/java/com/aventstack/extentreports/cucumber/adapter/ExtentCucumberAdapter.java:369-382 | a new outline node under the current feature keeps the registries exact and the tree well formed |
| AdapterModel.CreateExamplesKeepsInvariant | extentreports-cucumber7-adapter/src/main/java/com/aventstack/extentreports/cucumber/adapter/ExtentCucumberAdapter.java:386-398 | createExamples keeps the invariant and evolves only worker w's cursors |
| AdapterModel.ScenarioOutlineKeepsInvariant | extentreports-cucumber7-adapter/src/main/java/com/aventstack/extentreports/cucumber/adapter/ExtentCucumberAdapter.java:338-361 | handleScenarioOutline keeps the invariant and evolves only worker w's cursors |
| AdapterModel.TrackOutlineKeepsInvariant | extentreports-cucumber7-adapter/src/main/java/com/aventstack/extentreports/cucumber/adapter/ExtentCucumberAdapter.java:345-350 | tracking an outline keeps the invariant and changes only this worker's cursors |
| AdapterModel.TrackDefinitionKeepsInvariant | extentreports-cucumber7-adapter/src/main/java/com/aventstack/extentreports/cucumber/adapter/ExtentCucumberAdapter.java:349 | recording the tracked definition keeps the invariant and touches only this worker's cursors |
| AdapterModel.OpenExamplesKeepsInvariant | extentreports-cucumber7-adapter/src/main/java/com/aventstack/extentreports/cucumber/adapter/ExtentCucumberAdapter.java:351-355 | entering an Examples block keeps the invariant and only grows the tree |
| AdapterModel.CreateTestCaseKeepsInvariant | extentreports-cucumber7-adapter/src/main/java/com/aventstack/extentreports/cucumber/adapter/ExtentCucumberAdapter.java:417-439 | createTestCase keeps the invariant and evolves only worker w's cursors |
| AdapterModel.OpenScenarioKeepsInvariant | extentreports-cucumber7-adapter/src/main/java/com/aventstack/extentreports/cucumber/adapter/ExtentCucumberAdapter.java:418-427 | the scenario half keeps the invariant, and on completion the worker has a current scenario |
| AdapterModel.TagScenarioKeepsInvariant | extentreports-cucumber7-adapter/src/main/java/com/aventstack/extentreports/cucumber/adapter/ExtentCucumberAdapter.java:428-438 | tagging keeps the invariant and only grows the scenario's categories |
| AdapterModel.TestCaseStartedKeepsInvariant | extentreports-cucumber7-adapter/src/main/java/com/aventstack/extentreports/cucumber/adapter/ExtentCucumberAdapter.java:159-163 | handleTestCaseStarted keeps the invariant and evolves only worker w's cursors |
| AdapterModel.CreateTestStepKeepsInvariant | extentreports-cucumber7-adapter/src/main/java/com/aventstack/extentreports/cucumber/adapter/ExtentCucumberAdapter.java:441-468 | createTestStep keeps the invariant and evolves only worker w's cursors |
| AdapterModel.StepNodeKeepsInvariant | extentreports-cucumber7-adapter/src/main/java/com/aventstack/extentreports/cucumber/adapter/ExtentCucumberAdapter.java:442-457 | the step-node half keeps the invariant and changes only this worker's cursors |
| AdapterModel.StepArgumentKeepsInvariant | extentreports-cucumber7-adapter/src/main/java/com/aventstack/extentreports/cucumber/adapter/ExtentCucumberAdapter.java:458-467 | the argument half keeps the invariant and only adds a log entry |
| AdapterModel.TestStepStartedKeepsInvariant | extentreports-cucumber7-adapter/src/main/java/com/aventstack/extentreports/cucumber/adapter/ExtentCucumberAdapter.java:165-179 | handleTestStepStarted keeps the invariant and evolves only worker w's cursors |
| AdapterModel.HookStepKeepsInvariant | extentreports-cucumber7-adapter/src/main/java/com/aventstack/extentreports/cucumber/adapter/ExtentCucumberAdapter.java:168-173 | a hook node keeps the invariant and changes only this worker's cursors |
| AdapterModel.UpdateResultKeepsInvariant | extentreports-cucumber7-adapter/src/main/java/com/aventstack/extentreports/cucumber/adapter/ExtentCucumberAdapter.java:185-226 | updateResult keeps the invariant and evolves only worker w's cursors |
| AdapterModel.EmbedKeepsInvariant | extentreports-cucumber7-adapter/src/main/java/com/aventstack/extentreports/cucumber/adapter/ExtentCucumberAdapter.java:228-264 | handleEmbed keeps the invariant, only advances the counter and evolves only worker w's cursors |
| AdapterModel.EmbedStepKeepsInvariant | extentreports-cucumber7-adapter/src/main/java/com/aventstack/extentreports/cucumber/adapter/ExtentCucumberAdapter.java:233-236 | providing the step keeps the invariant and, on completion, leaves a current step |
| AdapterModel.AttachEmbedKeepsInvariant | extentreports-cucumber7-adapter/src/main/java/com/aventstack/extentreports/cucumber/adapter/ExtentCucumberAdapter.java:238-262 | attaching the embed keeps the invariant and only grows the tree and the counter |
| AdapterModel.WriteKeepsInvariant | extentreports-cucumber7-adapter/src/main/java/com/aventstack/extentreports/cucumber/adapter/ExtentCucumberAdapter.java:292-297 | handleWrite keeps the invariant and evolves only worker w's cursors |
| AdapterProperties.FailureResultsLogFail | extentreports-cucumber7-adapter/src/main/java/com/aventstack/extentreports/cucumber/adapter/ExtentCucumberAdapter.java:188-196 | failed and pending add a Fail entry with the result's error; undefined adds Fail "Step undefined" |
| AdapterProperties.UnrecognisedResultsChangeNothing | extentreports-cucumber7-adapter/src/main/java/com/aventstack/extentreports/cucumber/adapter/ExtentCucumberAdapter.java:223-224 | ambiguous and unused results change nothing |
| AdapterProperties.ResultWithoutStepThrows | extentreports-cucumber7-adapter/src/main/java/com/aventstack/extentreports/cucumber/adapter/ExtentCucumberAdapter.java:186 | with no current step every result throws a NullPointerException and changes nothing |
| AdapterProperties.SkippedHookRemoved | extentreports-cucumber7-adapter/src/main/java/com/aventstack/extentreports/cucumber/adapter/ExtentCucumberAdapter.java:197-201 | a skipped hook is removed: no entry is added, it is no longer anyone's child, and every child list otherwise keeps its order |
| AdapterProperties.SkipWithErrorLogged | extentreports-cucumber7-adapter/src/main/java/com/aventstack/extentreports/cucumber/adapter/ExtentCucumberAdapter.java:205-206 | a skip with an error is logged as Skip with that error |
| AdapterProperties.SkipNotRepeated | extentreports-cucumber7-adapter/src/main/java/com/aventstack/extentreports/cucumber/adapter/ExtentCucumberAdapter.java:202-210 | a skip without error adds "Step skipped" exactly when the last entry is not already a Skip, so the step ends with a Skip and a repeat changes nothing |
| AdapterProperties.PassedHookRule | extentreports-cucumber7-adapter/src/main/java/com/aventstack/extentreports/cucumber/adapter/ExtentCucumberAdapter.java:212-221 | a passed hook gets a Pass("") entry and stays attached exactly when it already had log entries; no other node changes |
| AdapterProperties.StepResultsKeepChildren | extentreports-cucumber7-adapter/src/main/java/com/aventstack/extentreports/cucumber/adapter/ExtentCucumberAdapter.java:185-226 | a result on a step that is not a hook leaves every node's children as they were |
| AdapterProperties.UnknownFeatureThrows | extentreports-cucumber7-adapter/src/main/java/com/aventstack/extentreports/cucumber/adapter/ExtentCucumberAdapter.java:310-313 | an unknown document records the feature file and then throws a NullPointerException |
| AdapterProperties.FeatureCreatedOrAdopted | extentreports-cucumber7-adapter/src/main/java/com/aventstack/extentreports/cucumber/adapter/ExtentCucumberAdapter.java:303-336 | after a case start the worker's feature is the only Feature node of that name; a registered name is adopted with nothing created, a new name adds one registered top-level node and takes the feature's tags |
| AdapterProperties.OutlineCreatedOrAdopted | extentreports-cucumber7-adapter/src/main/java/com/aventstack/extentreports/cucumber/adapter/ExtentCucumberAdapter.java:363-384 | the worker's outline is then the only ScenarioOutline node of that name; a new one is the feature's last child, with the feature and outline tags as categories |
| AdapterProperties.PlainScenarioClearsOutline | extentreports-cucumber7-adapter/src/main/java/com/aventstack/extentreports/cucumber/adapter/ExtentCucumberAdapter.java:356-360 | a scenario without Examples clears the outline, outline-definition and Examples cursors and changes nothing else |
| AdapterProperties.SameExamplesNotRenderedAgain | extentreports-cucumber7-adapter/src/main/java/com/aventstack/extentreports/cucumber/adapter/ExtentCucumberAdapter.java:345-355 | the outline and Examples already tracked are not created or rendered again |
| AdapterProperties.OpenExamplesCursors | extentreports-cucumber7-adapter/src/main/java/com/aventstack/extentreports/cucumber/adapter/ExtentCucumberAdapter.java:351-355 | entering Examples keeps the feature file and tracked outline and, on completion, the row's block is the current one |
| AdapterProperties.ExamplesAppendedToDescription | extentreports-cucumber7-adapter/src/main/java/com/aventstack/extentreports/cucumber/adapter/ExtentCucumberAdapter.java:386-398 | rendering Examples rewrites only the outline's description, keeping the old one followed by "<br><br>" as a prefix |
| AdapterProperties.TrackOutlineCursors | extentreports-cucumber7-adapter/src/main/java/com/aventstack/extentreports/cucumber/adapter/ExtentCucumberAdapter.java:345-350 | tracking keeps the feature file and, on completion, records the outline definition of that name |
| AdapterProperties.ScenarioOutlineTracks | extentreports-cucumber7-adapter/src/main/java/com/aventstack/extentreports/cucumber/adapter/ExtentCucumberAdapter.java:338-355 | after an outline case completes, the worker's outline definition and Examples cursors are the case's |
| AdapterProperties.ScenarioOutlineIdempotent | extentreports-cucumber7-adapter/src/main/java/com/aventstack/extentreports/cucumber/adapter/ExtentCucumberAdapter.java:338-361 | repeating handleScenarioOutline for the same line after it completed changes nothing, so on that worker an Examples block is not rendered again straight after itself |
| AdapterProperties.PlainScenarioIdempotent | extentreports-cucumber7-adapter/src/main/java/com/aventstack/extentreports/cucumber/adapter/ExtentCucumberAdapter.java:356-360 | clearing the outline cursors a second time changes nothing |
| AdapterProperties.ScenarioParentAndTags | extentreports-cucumber7-adapter/src/main/java/com/aventstack/extentreports/cucumber/adapter/ExtentCucumberAdapter.java:417-439 | the scenario is the last child of the outline if there is one and of the feature otherwise; its categories are the union of the case, feature and (under an outline) outline tags |
| AdapterProperties.ResolvedCaseTransition | extentreports-cucumber7-adapter/src/main/java/com/aventstack/extentreports/cucumber/adapter/ExtentCucumberAdapter.java:417-439 | a resolved case with a parent produces exactly: the tree plus the tagged scenario node, and that node as the current scenario |
| AdapterProperties.UnresolvedCaseTagsPreviousScenario | extentreports-cucumber7-adapter/src/main/java/com/aventstack/extentreports/cucumber/adapter/ExtentCucumberAdapter.java:420-433 | an unresolved case line creates no node; the previous scenario stays current and receives the tags |
| AdapterProperties.StepStartSetsHookFlag | extentreports-cucumber7-adapter/src/main/java/com/aventstack/extentreports/cucumber/adapter/ExtentCucumberAdapter.java:165-178 | after a step start the hook flag is true exactly when a hook node was created |
| AdapterProperties.PickleStepKeepsHookFlag | extentreports-cucumber7-adapter/src/main/java/com/aventstack/extentreports/cucumber/adapter/ExtentCucumberAdapter.java:441-468 | a Gherkin step leaves the hook flag as the step start set it |
| AdapterProperties.StepNodeKeepsCursors | extentreports-cucumber7-adapter/src/main/java/com/aventstack/extentreports/cucumber/adapter/ExtentCucumberAdapter.java:442-457 | the step-node half moves only the step cursor |
| AdapterProperties.StepArgumentKeepsCursors | extentreports-cucumber7-adapter/src/main/java/com/aventstack/extentreports/cucumber/adapter/ExtentCucumberAdapter.java:458-467 | the argument half changes no cursor |
| AdapterProperties.HookStepCreatesNode | extentreports-cucumber7-adapter/src/main/java/com/aventstack/extentreports/cucumber/adapter/ExtentCucumberAdapter.java:168-172 | a hook becomes the scenario's last child, an Asterisk named by its code location and described by its hook type, and the current step |
| AdapterProperties.PickleStepCreatesNode | extentreports-cucumber7-adapter/src/main/java/com/aventstack/extentreports/cucumber/adapter/ExtentCucumberAdapter.java:441-468 | a resolved step becomes the scenario's last child, named keyword + pickle text (or escaped AST text, free of angle brackets), described by its code location; its only entries are the argument's single Pass entry |
| AdapterProperties.DataTableArgumentCopied | extentreports-cucumber7-adapter/src/main/java/com/aventstack/extentreports/cucumber/adapter/ExtentCucumberAdapter.java:463-481 | the rendered data table has the table's rows, the first row's width and every cell's value |
| AdapterProperties.EmbedIgnoresUnknownTypes | extentreports-cucumber7-adapter/src/main/java/com/aventstack/extentreports/cucumber/adapter/ExtentCucumberAdapter.java:230-232 | a media type outside the six images changes nothing, not even the counter |
| AdapterProperties.EmbedInlineWithBase64 | extentreports-cucumber7-adapter/src/main/java/com/aventstack/extentreports/cucumber/adapter/ExtentCucumberAdapter.java:238-242 | with base64 sources, an accepted embed adds an Info entry titled by its name (or "") with a base64 capture, and the counter stays |
| AdapterProperties.EmbedFileNamed | extentreports-cucumber7-adapter/src/main/java/com/aventstack/extentreports/cucumber/adapter/ExtentCucumberAdapter.java:243-262 | without base64 the counter advances; a stored file is attached as relative path + embedded<N>.<ext>, and a failed write attaches nothing or throws |
| AdapterProperties.SuccessiveEmbedsDistinct | extentreports-cucumber7-adapter/src/main/java/com/aventstack/extentreports/cucumber/adapter/ExtentCucumberAdapter.java:244-245 | two file embeds in a row get different file names |
| AdapterProperties.WriteRule | extentreports-cucumber7-adapter/src/main/java/com/aventstack/extentreports/cucumber/adapter/ExtentCucumberAdapter.java:292-297 | a null or empty write changes nothing; other text is appended as an Info entry on the current step |
| ReportModel.AddCategoriesTwice | extentreports-cucumber7-adapter/src/main/java/com/aventstack/extentreports/cucumber/adapter/ExtentCucumberAdapter.java:428-438 | assigning two sets of categories in turn is assigning their union |
| ReportModel.ChildrenOfDetach | extentreports-cucumber7-adapter/src/main/java/com/aventstack/extentreports/cucumber/adapter/ExtentCucumberAdapter.java:199 | removing a test takes it out of its parent's children and keeps every other child list in order |
| ReportModel.ChildrenOfDetachLast | extentreports-cucumber7-adapter/src/main/java/com/aventstack/extentreports/cucumber/adapter/ExtentCucumberAdapter.java:199 | removing the newest node takes it out of its parent's children and leaves every other list as it was |
| ReportModel.AppendWithCategories | extentreports-cucumber7-adapter/src/main/java/com/aventstack/extentreports/cucumber/adapter/ExtentCucumberAdapter.java:424-438 | a created and tagged node keeps the old tree as a prefix and becomes the last child of its parent |
| ReportModel.Report.CreateNode | extentreports-cucumber7-adapter/src/main/java/com/aventstack/extentreports/cucumber/adapter/ExtentCucumberAdapter.java:327-330 | a created node is appended and its index returned |
| ReportModel.Report.AddEntry | extentreports-cucumber7-adapter/src/main/java/com/aventstack/extentreports/cucumber/adapter/ExtentCucumberAdapter.java:189-220 | a log call appends one entry to that node |
| ReportModel.Report.RemoveTest | extentreports-cucumber7-adapter/src/main/java/com/aventstack/extentreports/cucumber/adapter/ExtentCucumberAdapter.java:199 | removeTest detaches exactly that node |
| ReportModel.Report.AssignCategories | extentreports-cucumber7-adapter/src/main/java/com/aventstack/extentreports/cucumber/adapter/ExtentCucumberAdapter.java:376-378 | assignCategory adds the given categories to that node and changes nothing else |
| ReportModel.Report.SetTestDescription | extentreports-cucumber7-adapter/src/main/java/com/aventstack/extentreports/cucumber/adapter/ExtentCucumberAdapter.java:397 | setDescription replaces that node's description and changes nothing else |
| ReportModel.Report.SetSystemInfo | extentreports-cucumber7-adapter/src/main/java/com/aventstack/extentreports/service/ExtentService.java:432 | setSystemInfo appends one name/value row |
| ExtentService.GetProperty | extentreports-cucumber7-adapter/src/main/java/com/aventstack/extentreports/service/ExtentService.java:53-56 | the lookup is null exactly when neither the system properties nor the properties file define the key |
| ExtentService.SystemPropertyFirst | extentreports-cucumber7-adapter/src/main/java/com/aventstack/extentreports/service/ExtentService.java:53-56 | a system property hides the file's value; a key the system lacks is read from the file alone |
| ExtentService.DefaultExactlyWhenUnset | extentreports-cucumber7-adapter/src/main/java/com/aventstack/extentreports/service/ExtentService.java:58-61 | getPropertyOrDefault returns every default unchanged exactly when the key is unset, and otherwise the value whatever the default |
| ExtentService.Delimiter | extentreports-cucumber7-adapter/src/main/java/com/aventstack/extentreports/service/ExtentService.java:274-278 | the delimiter is "" when the enable flag equalsIgnoreCase "false", and " " when neither key is set |
| ExtentService.BaseFolderNameRules | extentreports-cucumber7-adapter/src/main/java/com/aventstack/extentreports/service/ExtentService.java:270-286 | with name and pattern both non-empty the base folder is name + delimiter + timestamp + "/"; otherwise it is "", and "" occurs exactly then |
| ExtentService.OutputPath | extentreports-cucumber7-adapter/src/main/java/com/aventstack/extentreports/service/ExtentService.java:288-296 | every output path starts with the base folder name |
| ExtentService.ThirdSegment | extentreports-cucumber7-adapter/src/main/java/com/aventstack/extentreports/service/ExtentService.java:294 | split on "." of a.b.c.d gives c as the third field |
| ExtentService.ConfiguredOutputUsed | extentreports-cucumber7-adapter/src/main/java/com/aventstack/extentreports/service/ExtentService.java:289-295 | a configured output other than null, "null" and "" is used as-is behind the base folder |
| ExtentService.DefaultReporterOutput | extentreports-cucumber7-adapter/src/main/java/com/aventstack/extentreports/service/ExtentService.java:294-295 | an unconfigured extent.reporter.<r>.out defaults to base folder + "test-output/" + r + "/" |
| ExtentService.DefaultOutputFromThirdSegment | extentreports-cucumber7-adapter/src/main/java/com/aventstack/extentreports/service/ExtentService.java:294-295 | an unconfigured key a.b.c.d defaults to the base folder + "test-output/" + c + "/" |
| ExtentService.UndottedKeyHasNoDefault | extentreports-cucumber7-adapter/src/main/java/com/aventstack/extentreports/service/ExtentService.java:294 | a key with no dot cannot build its default (index out of bounds) |
| ExtentService.ScreenshotDir | extentreports-cucumber7-adapter/src/main/java/com/aventstack/extentreports/service/ExtentService.java:299-302 | the directory is never empty: the property, or "test-output/" when unset or empty |
| ExtentService.ScreenshotRules | extentreports-cucumber7-adapter/src/main/java/com/aventstack/extentreports/service/ExtentService.java:298-309 | the screenshot folder starts with the base folder (base + "test-output/" by default); the relative path is the rel.path property when set and non-empty, the folder when unset |
| ExtentService.NamePrefixRules | extentreports-cucumber7-adapter/src/main/java/com/aventstack/extentreports/service/ExtentService.java:311-328 | disabled leaves the prefix as it was; enabled uses the configured prefix or "@dev_"/"@aut_" by default, and never assigns "" |
| ExtentService.SystemInfoKeyStripsMarker | extentreports-cucumber7-adapter/src/main/java/com/aventstack/extentreports/service/ExtentService.java:430-431 | only keys starting with "systeminfo." are recorded, each under exactly the text after that marker |
| ExtentService.SystemInfoEntriesSound | extentreports-cucumber7-adapter/src/main/java/com/aventstack/extentreports/service/ExtentService.java:427-435 | every recorded entry comes from a "systeminfo." property, carrying that property's value |
| ExtentService.SystemInfoEntries | extentreports-cucumber7-adapter/src/main/java/com/aventstack/extentreports/service/ExtentService.java:427-435 | the loop records at most one row per property |
| ExtentService.SystemInfoEntriesComplete | extentreports-cucumber7-adapter/src/main/java/com/aventstack/extentreports/service/ExtentService.java:427-435 | every "systeminfo." property is recorded under the key with the marker stripped |
| ExtentService.WarningUnreachable | extentreports-cucumber7-adapter/src/main/java/com/aventstack/extentreports/service/ExtentService.java:437-454 | as written no input converts to WARNING, and "warning" throws |
| ExtentService.ConvertToStatusIntendedExact | extentreports-cucumber7-adapter/src/main/java/com/aventstack/extentreports/service/ExtentService.java:437-454 | the corrected conversion accepts each of the five status names in any letter case, and nothing else |
| ExtentService.ConvertToStatusDiffersOnlyOnWarning | extentreports-cucumber7-adapter/src/main/java/com/aventstack/extentreports/service/ExtentService.java:445-446 | the code as written and the corrected conversion differ exactly on case variants of "warning" |
| ExtentService.StatusNameIsLower | extentreports-cucumber7-adapter/src/main/java/com/aventstack/extentreports/service/ExtentService.java:441-450 | the status names are in lower case, so toLowerCase keeps them |
| ExtentService.DeclaredRunnerCount | extentreports-cucumber7-adapter/src/main/java/com/aventstack/extentreports/service/ExtentService.java:254-260 | the declared count is a 32-bit int |
| ExtentService.DeclaredRunnerCountRules | extentreports-cucumber7-adapter/src/main/java/com/aventstack/extentreports/service/ExtentService.java:254-260 | a decimal count is read back as itself; an empty or non-numeric value gives 1 |
| ExtentService.FlushBarrier | extentreports-cucumber7-adapter/src/main/java/com/aventstack/extentreports/service/ExtentService.java:44-51 | without a declared count every flush call flushes; with one, exactly one call flushes, the one that brings the counter to the declared count |
| ExtentService.ExtentReportsLoader.constructor | extentreports-cucumber7-adapter/src/main/java/com/aventstack/extentreports/service/ExtentService.java:148-179 | the static fields start as declared: runner count available, counters 0, base64, device and author off, prefixes and screenshot paths null |
| ExtentService.ExtentReportsLoader.ConfigureRunnerCount | extentreports-cucumber7-adapter/src/main/java/com/aventstack/extentreports/service/ExtentService.java:247-261 | an unset runner.count makes the count unavailable; a set one is parsed, and a value that does not parse gives 1; only the two runner-count fields may change |
| ExtentService.ExtentReportsLoader.IsRunnerLast | extentreports-cucumber7-adapter/src/main/java/com/aventstack/extentreports/service/ExtentService.java:263-268 | when available, increments the counter and answers whether it reached the declared count; otherwise false with no increment; only the counter may change |
| ExtentService.ExtentReportsLoader.Flush | extentreports-cucumber7-adapter/src/main/java/com/aventstack/extentreports/service/ExtentService.java:44-51 | flushes as one step of FlushBarrier's count, advancing the counter only when the count is available; only the counter and the flush count may change |
| ExtentService.ExtentReportsLoader.Base64PngImageStyle | extentreports-cucumber7-adapter/src/main/java/com/aventstack/extentreports/service/ExtentService.java:394-398 | base64 image sources are switched on exactly by the value "true", and are never switched off; no other field changes |
| ExtentService.ExtentReportsLoader.ConfigureScreenshotProperties | extentreports-cucumber7-adapter/src/main/java/com/aventstack/extentreports/service/ExtentService.java:298-309 | the folder and relative path are those of ScreenshotFolder and ScreenshotRelativePath; a rejected base-folder pattern leaves the bare directory and escapes; only the two screenshot fields may change |
| ExtentService.ExtentReportsLoader.ConfigureDeviceAndAuthorProperties | extentreports-cucumber7-adapter/src/main/java/com/aventstack/extentreports/service/ExtentService.java:311-328 | device and author are enabled by exactly "true", and the prefixes follow NamePrefix; only the device and author fields may change |
| ExtentService.ExtentReportsLoader.AddSystemInfo | extentreports-cucumber7-adapter/src/main/java/com/aventstack/extentreports/service/ExtentService.java:427-435 | appends SystemInfoEntries(props) to the instance's system info, in visiting order, and touches no test |

## Left out

- **Event wiring.** setEventPublisher, the handler objects, handleTestSourceRead and handleTestStepFinished (lines 97-157, 181-183 of ExtentCucumberAdapter.java) only forward events. The handlers are called directly, and the parsed sources are given as tables.
- **finishReport** (lines 299-301) only calls ExtentService.flush, which is ExtentReportsLoader.Flush.
- **addTestStepLog and similar helpers.** addTestStepLog, addTestStepScreenCaptureFromPath, getCurrentStep and getCurrentScenario (lines 483-506) are helpers for user step code.
- **Concurrency.** Synchronisation and interleaving are not modelled; each handler is atomic. ThreadLocal and InheritableThreadLocal state is one cursor record per worker, with no inheritance by child threads.
- **Library and environment as parameters.**
  - GherkinKeyword and setGherkinDialect are a map from dialect to accepted keywords.
  - MarkupHelper's table and code-block rendering, and Base64 encoding, stay symbolic.
  - The time stamp formatter is a function that may reject its pattern.
  - Writing embedded files is a parameter that says how the write ended.
- **Node status.** How ExtentReports derives a node's status from its logs is not modelled; nodes keep their log entries.
- **CucumberAdapter.ExtentCucumberAdapter.HandleScenarioOutline, CreateExamples:** an Examples table with no header (getTableHeader null) is not modelled. TablesWellFormed/ExamplesWellFormed require rows no wider than the header, which the Gherkin parser enforces for the tables it accepts.
- **Examples equality.** Line 352 compares Examples objects with equals. Here that is value equality of (id, name, header, rows). The message id is part of the value, so two blocks are equal exactly when they carry the same id and contents. Parsed objects have no identity in the model.
- **CucumberAdapter.ExtentCucumberAdapter.CreateDataTableList:** requires a non-empty rectangular table, which Cucumber's DataTable guarantees.
- **AdapterModel.EmbeddedFileNamesDistinct:** EMBEDDED_INT and CURRENT_RUNNER_COUNT are unbounded here. The AtomicInteger wrap-around after 2^31 increments is not modelled.
- **JavaText:** toLowerCase and equalsIgnoreCase map ASCII letters only, and parseInt accepts ASCII digits only.
- **ExtentService.ExtentReportsLoader.AddSystemInfo:** Properties.forEach visits entries in hash order. Here the order is the order of the given sequence.
- **Reporter set-up.** createViaProperties, createViaSystem, the static initialiser, and classpath loading of the properties file (lines 63-100 and 181-245 of ExtentService.java) are not modelled. The same goes for initKlov, initSpark, initHtml, initJsonf, initPdf, attach, filterReportStatus and sparkReportViewOrder (lines 330-425). Their inputs are the given property maps.
- **Console output.** System.out messages are left out.
- **Base-folder failure.** A rejected date-time pattern escapes from static initialisation. It is modelled as a None result or a false `ok`.

## Findings

| source | as written | input that shows it | evidently intended | confidence | as-written member | corrected member |
|---|---|---|---|---|---|---|
| extentreports-cucumber7-adapter/src/main/java/com/aventstack/extentreports/service/ExtentService.java:445 | `case "Warning"` is compared with `status.toLowerCase()`, which never contains an upper-case letter | convertToStatus("warning") (or "WARNING") throws IllegalArgumentException instead of returning WARNING | `case "warning"`, like the other four labels | high, not executed | ExtentService.WarningUnreachable | ExtentService.ConvertToStatusIntendedExact |
