/**
 * ExtentService: how configuration is looked up, the paths derived from it,
 * and the loader that owns the ExtentReports instance and decides when to
 * flush it. System properties and the properties file are given as maps; the
 * timestamp formatter is a parameter that may reject its pattern.
 */
module ExtentService {
  import opened Wrappers
  import opened JavaText
  import opened ReportModel

  // ---------------------------------------------------------------- property lookup

  /** System.getProperties and the properties file (None: no file was found). */
  datatype PropertySources = PropertySources(system: map<string, string>, file: Option<map<string, string>>)

  /** getProperty (lines 53-56): the system property, else the file's, else null. */
  function GetProperty(p: PropertySources, key: string): (r: Option<string>)
    ensures r.None? <==> key !in p.system && (p.file.None? || key !in p.file.value)
  {
    if key in p.system then Some(p.system[key])
    else if p.file.Some? && key in p.file.value then Some(p.file.value[key])
    else None
  }

  /** getPropertyOrDefault (lines 58-61). */
  function GetPropertyOrDefault(p: PropertySources, key: string, default: string): string {
    GetProperty(p, key).GetOr(default)
  }

  /** A system property hides the file's value of the same key; a key the system
    * does not define is read from the file alone. */
  lemma SystemPropertyFirst(system: map<string, string>, file: Option<map<string, string>>, key: string)
    ensures key in system ==>
              forall other: Option<map<string, string>> ::
                GetProperty(PropertySources(system, other), key) == GetProperty(PropertySources(system, file), key)
    ensures key !in system ==>
              GetProperty(PropertySources(system, file), key) == GetProperty(PropertySources(map[], file), key)
  {
  }

  /** The default is what comes back whatever it is exactly when the key is unset;
    * a set key gives its value whatever the default. */
  lemma DefaultExactlyWhenUnset(p: PropertySources, key: string)
    ensures (forall d :: GetPropertyOrDefault(p, key, d) == d) <==> GetProperty(p, key).None?
    ensures GetProperty(p, key).Some? ==> forall d :: GetPropertyOrDefault(p, key, d) == GetProperty(p, key).value
  {
    if GetProperty(p, key).Some? {
      var v := GetProperty(p, key).value;
      assert GetPropertyOrDefault(p, key, v + "x") != v + "x" by {
        assert |v + "x"| != |v|;
      }
    }
  }

  // ---------------------------------------------------------------- keys and defaults

  const SysInfoMarker := "systeminfo."
  const DefaultOutputPath := "test-output/"
  const DefaultScreenshotFolderName := "test-output/"
  const ScreenshotDirProperty := "screenshot.dir"
  const ScreenshotRelPathProperty := "screenshot.rel.path"

  const BaseFolderNameKey := "basefolder.name"
  const BaseFolderDateTimePatternKey := "basefolder.datetimepattern"
  const BaseFolderEnableDelimiterKey := "basefolder.enable.delimiter"
  const BaseFolderDelimiterKey := "basefolder.delimiter"

  const ExtentReporter := "extent.reporter"
  const Delim := "."

  /** extent.reporter.<reporter>.<setting> */
  function ReporterKey(reporter: string, setting: string): string {
    ExtentReporter + Delim + reporter + Delim + setting
  }

  const OutSparkKey := ReporterKey("spark", "out")
  const OutJsonfKey := ReporterKey("json", "out")
  const OutPdfKey := ReporterKey("pdf", "out")
  const OutHtmlKey := ReporterKey("html", "out")

  const Base64ImageSrcSparkKey := ReporterKey("spark", "base64imagesrc")
  const DeviceEnableSparkKey := ReporterKey("spark", "enable.device")
  const AuthorEnableSparkKey := ReporterKey("spark", "enable.author")
  const DevicePrefixSparkKey := ReporterKey("spark", "prefix.device")
  const AuthorPrefixSparkKey := ReporterKey("spark", "prefix.author")
  const DefaultDevicePrefix := "@dev_"
  const DefaultAuthorPrefix := "@aut_"

  const RunnerCountKey := "runner.count"

  // ---------------------------------------------------------------- base folder and output paths

  /** The delimiter between the base folder name and its timestamp (lines 274-278). */
  function Delimiter(p: PropertySources): (r: string)
    ensures var enable := GetProperty(p, BaseFolderEnableDelimiterKey);
            enable.Some? && EqualsIgnoreCase(enable.value, "false") ==> r == ""
    ensures GetProperty(p, BaseFolderEnableDelimiterKey).None? && GetProperty(p, BaseFolderDelimiterKey).None? ==> r == " "
  {
    var enableDelimiter := GetPropertyOrDefault(p, BaseFolderEnableDelimiterKey, "true");
    var delimiter := GetPropertyOrDefault(p, BaseFolderDelimiterKey, " ");
    if EqualsIgnoreCase(enableDelimiter, "false") then "" else delimiter
  }

  /** getBaseFolderName (lines 270-286). `formatTimestamp` formats the load-time
    * timestamp with a pattern, None when DateTimeFormatter rejects the pattern. */
  function BaseFolderName(p: PropertySources, formatTimestamp: string -> Option<string>): Option<string> {
    var prefix := GetProperty(p, BaseFolderNameKey);
    var pattern := GetProperty(p, BaseFolderDateTimePatternKey);
    if prefix.Some? && prefix.value != "" && pattern.Some? && pattern.value != "" then
      match formatTimestamp(pattern.value)
      case None => None
      case Some(stamp) => Some(prefix.value + Delimiter(p) + stamp + "/")
    else Some("")
  }

  /** Both configured  means  name + delimiter + timestamp + "/"; otherwise there
    * is no base folder, and the name is "" exactly then. */
  lemma BaseFolderNameRules(p: PropertySources, formatTimestamp: string -> Option<string>)
    ensures var prefix := GetProperty(p, BaseFolderNameKey);
            var pattern := GetProperty(p, BaseFolderDateTimePatternKey);
            var both := prefix.Some? && prefix.value != "" && pattern.Some? && pattern.value != "";
            && (!both ==> BaseFolderName(p, formatTimestamp) == Some(""))
            && (both && formatTimestamp(pattern.value).Some? ==>
                  var r := BaseFolderName(p, formatTimestamp).value;
                  && StartsWith(r, prefix.value)
                  && r[|r| - 1] == '/'
                  && r == prefix.value + Delimiter(p) + formatTimestamp(pattern.value).value + "/")
            && (BaseFolderName(p, formatTimestamp) == Some("") <==> !both)
  {
    var prefix := GetProperty(p, BaseFolderNameKey);
    var pattern := GetProperty(p, BaseFolderDateTimePatternKey);
    if prefix.Some? && prefix.value != "" && pattern.Some? && pattern.value != "" {
      if formatTimestamp(pattern.value).Some? {
        var r := prefix.value + Delimiter(p) + formatTimestamp(pattern.value).value + "/";
        assert r[..|prefix.value|] == prefix.value;
        assert |r| > 0;
      }
    }
  }

  /** The value getOutputPath starts from (lines 289-293): the given properties'
    * value if they hold the key, else the system property itself. */
  function ConfiguredOutput(p: PropertySources, given: Option<map<string, string>>, key: string): Option<string> {
    if given.Some? && key in given.value then Some(given.value[key])
    else if key in p.system then Some(p.system[key])
    else None
  }

  /** getOutputPath (lines 288-296). None is an exception: fewer than three
    * dot-separated segments in the key when the default is needed, or a
    * rejected timestamp pattern. */
  function OutputPath(p: PropertySources, given: Option<map<string, string>>, key: string,
                      formatTimestamp: string -> Option<string>): (r: Option<string>)
    ensures r.Some? ==> BaseFolderName(p, formatTimestamp).Some? && StartsWith(r.value, BaseFolderName(p, formatTimestamp).value)
  {
    var configured := ConfiguredOutput(p, given, key);
    var segments := JavaSplit(key, '.');
    var out := if configured.None? || configured.value == "null" || configured.value == ""
               then (if |segments| < 3 then None else Some(DefaultOutputPath + segments[2] + "/"))
               else configured;
    if out.None? then None
    else match BaseFolderName(p, formatTimestamp)
      case None => None
      case Some(base) =>
        assert (base + out.value)[..|base|] == base;
        Some(base + out.value)
  }

  /** JavaSplit over a key a.b.c.d whose first three segments have no dot finds c third. */
  lemma ThirdSegment(a: string, b: string, c: string, d: string)
    requires '.' !in a && '.' !in b && '.' !in c && c != ""
    ensures var fields := JavaSplit(a + ['.'] + (b + ['.'] + (c + ['.'] + d)), '.');
            |fields| >= 3 && fields[2] == c
  {
    var s2 := c + ['.'] + d;
    var s1 := b + ['.'] + s2;
    var s := a + ['.'] + s1;
    SplitFieldsAfter(c, '.', d);
    SplitFieldsAfter(b, '.', s2);
    SplitFieldsAfter(a, '.', s1);
    var fields := SplitFields(s, '.');
    var fields1 := SplitFields(s1, '.');
    var fields2 := SplitFields(s2, '.');
    assert fields2[0] == c;
    assert fields1[1] == fields2[0];
    assert fields[2] == fields1[1];
    assert s[|a|] == '.';
  }

  /** With the key unconfigured, the default is built from its third segment. */
  lemma DefaultOutputFromThirdSegment(p: PropertySources, given: Option<map<string, string>>,
                                      formatTimestamp: string -> Option<string>, a: string, b: string, c: string, d: string)
    requires '.' !in a && '.' !in b && '.' !in c && c != ""
    requires var v := ConfiguredOutput(p, given, a + ['.'] + (b + ['.'] + (c + ['.'] + d)));
             v.None? || v.value == "null" || v.value == ""
    requires BaseFolderName(p, formatTimestamp).Some?
    ensures OutputPath(p, given, a + ['.'] + (b + ['.'] + (c + ['.'] + d)), formatTimestamp)
              == Some(BaseFolderName(p, formatTimestamp).value + "test-output/" + c + "/")
  {
    var key := a + ['.'] + (b + ['.'] + (c + ['.'] + d));
    ThirdSegment(a, b, c, d);
    var base := BaseFolderName(p, formatTimestamp).value;
    assert base + (DefaultOutputPath + c + "/") == base + "test-output/" + c + "/";
  }

  /** A configured value other than "null" and "" is used as given, under the base folder. */
  lemma ConfiguredOutputUsed(p: PropertySources, given: Option<map<string, string>>, key: string,
                             formatTimestamp: string -> Option<string>)
    requires ConfiguredOutput(p, given, key).Some?
    requires ConfiguredOutput(p, given, key).value != "null" && ConfiguredOutput(p, given, key).value != ""
    requires BaseFolderName(p, formatTimestamp).Some?
    ensures OutputPath(p, given, key, formatTimestamp)
              == Some(BaseFolderName(p, formatTimestamp).value + ConfiguredOutput(p, given, key).value)
  {
  }

  /** An unconfigured (null, "null" or "") reporter output defaults to
    * test-output/<reporter>/ under the base folder. */
  lemma DefaultReporterOutput(p: PropertySources, given: Option<map<string, string>>,
                              formatTimestamp: string -> Option<string>, reporter: string)
    requires '.' !in reporter && reporter != ""
    requires var v := ConfiguredOutput(p, given, ReporterKey(reporter, "out")); v.None? || v.value == "null" || v.value == ""
    requires BaseFolderName(p, formatTimestamp).Some?
    ensures OutputPath(p, given, ReporterKey(reporter, "out"), formatTimestamp)
              == Some(BaseFolderName(p, formatTimestamp).value + "test-output/" + reporter + "/")
  {
    assert ExtentReporter == "extent" + ['.'] + "reporter";
    assert ReporterKey(reporter, "out") == "extent" + ['.'] + ("reporter" + ['.'] + (reporter + ['.'] + "out"));
    DefaultOutputFromThirdSegment(p, given, formatTimestamp, "extent", "reporter", reporter, "out");
  }

  /** A key with no dot has no third segment: the default cannot be built. */
  lemma UndottedKeyHasNoDefault(p: PropertySources, given: Option<map<string, string>>, key: string,
                                formatTimestamp: string -> Option<string>)
    requires '.' !in key && ConfiguredOutput(p, given, key).None?
    ensures OutputPath(p, given, key, formatTimestamp).None?
  {
  }

  // ---------------------------------------------------------------- screenshots, prefixes

  /** screenshot.dir, or the default when unset or empty (lines 299-302). */
  function ScreenshotDir(p: PropertySources): (r: string)
    ensures r != ""
  {
    var property := GetProperty(p, ScreenshotDirProperty);
    if property.None? || property.value == "" then DefaultScreenshotFolderName else property.value
  }

  /** The screenshot folder (line 303): the base folder, then the directory. */
  function ScreenshotFolder(p: PropertySources, formatTimestamp: string -> Option<string>): Option<string> {
    match BaseFolderName(p, formatTimestamp)
    case None => None
    case Some(base) => Some(base + ScreenshotDir(p))
  }

  /** The path media are referenced by (lines 305-308): screenshot.rel.path, or
    * the screenshot folder when that is unset or empty. */
  function ScreenshotRelativePath(p: PropertySources, folder: string): string {
    var property := GetProperty(p, ScreenshotRelPathProperty);
    if property.None? || property.value == "" then folder else property.value
  }

  lemma ScreenshotRules(p: PropertySources, formatTimestamp: string -> Option<string>)
    requires BaseFolderName(p, formatTimestamp).Some?
    ensures var folder := ScreenshotFolder(p, formatTimestamp).value;
            var base := BaseFolderName(p, formatTimestamp).value;
            && StartsWith(folder, base)
            && (GetProperty(p, ScreenshotDirProperty).None? ==> folder == base + "test-output/")
            && (GetProperty(p, ScreenshotRelPathProperty).None? ==> ScreenshotRelativePath(p, folder) == folder)
            && (GetProperty(p, ScreenshotRelPathProperty).Some? && GetProperty(p, ScreenshotRelPathProperty).value != "" ==>
                  ScreenshotRelativePath(p, folder) == GetProperty(p, ScreenshotRelPathProperty).value)
  {
    var base := BaseFolderName(p, formatTimestamp).value;
    assert (base + ScreenshotDir(p))[..|base|] == base;
  }

  /** A device or author prefix (lines 317-327): set only when enabled, to the
    * configured value or the default, and never to "". */
  function NamePrefix(enabled: bool, p: PropertySources, key: string, default: string, previous: Option<string>): Option<string> {
    var property := GetPropertyOrDefault(p, key, default);
    if enabled && property != "" then Some(property) else previous
  }

  lemma NamePrefixRules(p: PropertySources, key: string, default: string, previous: Option<string>)
    requires default != ""
    ensures NamePrefix(false, p, key, default, previous) == previous
    ensures GetProperty(p, key).None? ==> NamePrefix(true, p, key, default, previous) == Some(default)
    ensures GetProperty(p, key) == Some("") ==> NamePrefix(true, p, key, default, previous) == previous
    ensures NamePrefix(true, p, key, default, previous).Some? && NamePrefix(true, p, key, default, previous) != previous ==>
              NamePrefix(true, p, key, default, previous).value != ""
  {
  }

  // ---------------------------------------------------------------- system info

  /** The system-info name of a property key (lines 430-431): what follows the
    * first '.', for keys that start with "systeminfo.". */
  function SystemInfoKey(key: string): Option<string> {
    if StartsWith(key, SysInfoMarker) then Some(key[IndexOf(key, '.') + 1..]) else None
  }

  /** Only marked keys are recorded, each under exactly the text after the marker. */
  lemma SystemInfoKeyStripsMarker(key: string)
    ensures SystemInfoKey(key).Some? <==> StartsWith(key, SysInfoMarker)
    ensures StartsWith(key, SysInfoMarker) ==> SysInfoMarker + SystemInfoKey(key).value == key
  {
    if StartsWith(key, SysInfoMarker) {
      var rest := key[|SysInfoMarker|..];
      assert key == "systeminfo" + ['.'] + rest;
      IndexOfAfter("systeminfo", '.', rest);
    }
  }

  /** The entries addSystemInfo records, in the order the properties are visited. */
  function SystemInfoEntries(props: seq<(string, string)>): (r: seq<(string, string)>)
    ensures |r| <= |props|
    decreases |props|
  {
    if |props| == 0 then []
    else
      var init := SystemInfoEntries(props[..|props| - 1]);
      var (k, v) := props[|props| - 1];
      match SystemInfoKey(k)
      case None => init
      case Some(name) => init + [(name, v)]
  }

  /** Every recorded entry comes from a marked property with the same value. */
  lemma {:induction false} SystemInfoEntriesSound(props: seq<(string, string)>)
    ensures forall e :: e in SystemInfoEntries(props) ==> (SysInfoMarker + e.0, e.1) in props
    decreases |props|
  {
    if |props| > 0 {
      var pre, last := props[..|props| - 1], props[|props| - 1];
      assert props == pre + [last];
      SystemInfoEntriesSound(pre);
      SystemInfoKeyStripsMarker(last.0);
      forall e | e in SystemInfoEntries(props) ensures (SysInfoMarker + e.0, e.1) in props {
        if e !in SystemInfoEntries(pre) {
          assert e == (SystemInfoKey(last.0).value, last.1);
        }
      }
    }
  }

  /** Every marked property is recorded, under its stripped key. */
  lemma {:induction false} SystemInfoEntriesComplete(props: seq<(string, string)>)
    ensures forall k, v :: (k, v) in props && StartsWith(k, SysInfoMarker) ==> (SystemInfoKey(k).value, v) in SystemInfoEntries(props)
    decreases |props|
  {
    if |props| > 0 {
      var pre, last := props[..|props| - 1], props[|props| - 1];
      assert props == pre + [last];
      SystemInfoEntriesComplete(pre);
      forall k, v | (k, v) in props && StartsWith(k, SysInfoMarker)
        ensures (SystemInfoKey(k).value, v) in SystemInfoEntries(props)
      {
        if (k, v) in pre {
          assert (SystemInfoKey(k).value, v) in SystemInfoEntries(pre);
        } else {
          assert (k, v) == last;
        }
      }
    }
  }

  // ---------------------------------------------------------------- status names

  /** convertToStatus (lines 437-454) as written; None is the
    * IllegalArgumentException. The "Warning" label is compared with a lower-cased
    * string, so it never matches. */
  function ConvertToStatus(status: string): Option<Status> {
    var lowerStatus := ToLower(status);
    if lowerStatus == "info" then Some(Info)
    else if lowerStatus == "pass" then Some(Pass)
    else if lowerStatus == "Warning" then Some(Warning)
    else if lowerStatus == "skip" then Some(Skip)
    else if lowerStatus == "fail" then Some(Fail)
    else None
  }

  /** No input converts to Warning; "warning" itself is refused. */
  lemma WarningUnreachable(status: string)
    ensures ConvertToStatus(status) != Some(Warning)
    ensures ConvertToStatus("warning") == None
  {
    LowerNeverHasUpper(status, "Warning", 0);
    assert ToLower("warning") == "warning";
  }

  function StatusName(s: Status): string {
    match s
    case Info => "info"
    case Pass => "pass"
    case Warning => "warning"
    case Skip => "skip"
    case Fail => "fail"
  }

  /** convertToStatus with the label written in lower case, as the other four are. */
  function ConvertToStatusIntended(status: string): Option<Status> {
    var lowerStatus := ToLower(status);
    if lowerStatus == "info" then Some(Info)
    else if lowerStatus == "pass" then Some(Pass)
    else if lowerStatus == "warning" then Some(Warning)
    else if lowerStatus == "skip" then Some(Skip)
    else if lowerStatus == "fail" then Some(Fail)
    else None
  }

  lemma StatusNameIsLower(s: Status)
    ensures ToLower(StatusName(s)) == StatusName(s)
  {
    var n := StatusName(s);
    assert forall i :: 0 <= i < |n| ==> !IsAsciiUpper(n[i]);
  }

  /** The corrected parser accepts each of the five status names in any letter
    * case, and nothing else. */
  lemma ConvertToStatusIntendedExact(status: string, s: Status)
    ensures ConvertToStatusIntended(status) == Some(s) <==> EqualsIgnoreCase(status, StatusName(s))
  {
    StatusNameIsLower(s);
    StatusNameIsLower(Info);
    StatusNameIsLower(Pass);
    StatusNameIsLower(Warning);
    StatusNameIsLower(Skip);
    StatusNameIsLower(Fail);
  }

  /** The two parsers differ only on the warning names. */
  lemma ConvertToStatusDiffersOnlyOnWarning(status: string)
    ensures ConvertToStatus(status) != ConvertToStatusIntended(status) <==> EqualsIgnoreCase(status, "warning")
  {
    WarningUnreachable(status);
    StatusNameIsLower(Warning);
  }

  // ---------------------------------------------------------------- runner count

  /** Integer.parseInt of the declared count, 1 when it does not parse (lines 254-260). */
  function DeclaredRunnerCount(value: string): (n: int)
    ensures MinInt <= n <= MaxInt
  {
    match ParseInt(value)
    case None => 1
    case Some(v) => v
  }

  lemma DeclaredRunnerCountRules(value: string, n: nat)
    requires n <= MaxInt
    ensures DeclaredRunnerCount(DecimalString(n)) == n
    ensures !AllDigits(value) && |value| > 0 && value[0] != '-' && value[0] != '+' ==> DeclaredRunnerCount(value) == 1
    ensures DeclaredRunnerCount("") == 1
  {
    ParseIntOfDecimal(n);
  }

  /** How many of `calls` successive flush calls flush the report, starting with
    * the counter at `count`. */
  function Flushes(available: bool, declared: int, count: int, calls: nat): nat
    decreases calls
  {
    if calls == 0 then 0
    else
      var next := if available then count + 1 else count;
      (if !available || next == declared then 1 else 0) + Flushes(available, declared, next, calls - 1)
  }

  /** Without a declared count every call flushes; with one, exactly the call
    * that brings the counter to the declared count flushes, once. */
  lemma {:induction false} FlushBarrier(available: bool, declared: int, count: int, calls: nat)
    ensures !available ==> Flushes(available, declared, count, calls) == calls
    ensures available ==>
              Flushes(available, declared, count, calls) == if count < declared <= count + calls then 1 else 0
    decreases calls
  {
    if calls > 0 {
      FlushBarrier(available, declared, if available then count + 1 else count, calls - 1);
    }
  }

  // ---------------------------------------------------------------- the loader

  /** ExtentReportsLoader: the report instance and the static fields the
    * configuration steps write. */
  class ExtentReportsLoader {
    const instance: Report
    var runnerCountAvailable: bool
    var declaredRunnerCount: int
    var currentRunnerCount: int
    /** How many times the instance has been flushed. */
    var flushed: nat
    var base64ImageSrc: bool
    var screenshotFolder: Option<string>
    var screenshotRelativePath: Option<string>
    var deviceEnabled: bool
    var authorEnabled: bool
    var devicePrefix: Option<string>
    var authorPrefix: Option<string>

    /** The static fields before the initialiser runs. */
    constructor ()
      ensures instance.nodes == [] && instance.systemInfo == []
      ensures runnerCountAvailable && declaredRunnerCount == 0 && currentRunnerCount == 0 && flushed == 0
      ensures !base64ImageSrc && !deviceEnabled && !authorEnabled
      ensures screenshotFolder == None && screenshotRelativePath == None
      ensures devicePrefix == None && authorPrefix == None
    {
      instance := new Report();
      runnerCountAvailable := true;
      declaredRunnerCount := 0;
      currentRunnerCount := 0;
      flushed := 0;
      base64ImageSrc := false;
      screenshotFolder := None;
      screenshotRelativePath := None;
      deviceEnabled := false;
      authorEnabled := false;
      devicePrefix := None;
      authorPrefix := None;
    }

    /** configureRunnerCount (lines 247-261). */
    method ConfigureRunnerCount(p: PropertySources)
      modifies `runnerCountAvailable, `declaredRunnerCount
      ensures GetProperty(p, RunnerCountKey).None? ==>
                !runnerCountAvailable && declaredRunnerCount == old(declaredRunnerCount)
      ensures GetProperty(p, RunnerCountKey).Some? ==>
                runnerCountAvailable == old(runnerCountAvailable)
                && declaredRunnerCount == DeclaredRunnerCount(GetProperty(p, RunnerCountKey).value)
    {
      if GetProperty(p, RunnerCountKey).None? {
        runnerCountAvailable := false;
        return;
      }
      var parsed := ParseInt(GetPropertyOrDefault(p, RunnerCountKey, "1"));
      if parsed.None? {
        declaredRunnerCount := 1;
      } else {
        declaredRunnerCount := parsed.value;
      }
    }

    /** isRunnerLast (lines 263-268). */
    method IsRunnerLast() returns (last: bool)
      modifies `currentRunnerCount
      ensures currentRunnerCount == if runnerCountAvailable then old(currentRunnerCount) + 1 else old(currentRunnerCount)
      ensures last <==> runnerCountAvailable && currentRunnerCount == declaredRunnerCount
    {
      if runnerCountAvailable {
        currentRunnerCount := currentRunnerCount + 1;
        if currentRunnerCount == declaredRunnerCount {
          return true;
        }
      }
      return false;
    }

    /** ExtentService.flush (lines 44-51): one step of Flushes. */
    method Flush()
      modifies `currentRunnerCount, `flushed
      ensures flushed == old(flushed) + Flushes(runnerCountAvailable, declaredRunnerCount, old(currentRunnerCount), 1)
      ensures currentRunnerCount == if runnerCountAvailable then old(currentRunnerCount) + 1 else old(currentRunnerCount)
    {
      var last := false;
      if runnerCountAvailable {
        last := IsRunnerLast();
      }
      if !runnerCountAvailable || last {
        flushed := flushed + 1;
      }
    }

    /** base64PngImageStyle (lines 394-398): once enabled, stays enabled. */
    method Base64PngImageStyle(p: PropertySources)
      modifies `base64ImageSrc
      ensures base64ImageSrc == (old(base64ImageSrc) || GetPropertyOrDefault(p, Base64ImageSrcSparkKey, "false") == "true")
    {
      if GetPropertyOrDefault(p, Base64ImageSrcSparkKey, "false") == "true" {
        base64ImageSrc := true;
      }
    }

    /** configureScreenshotProperties (lines 298-309). When the base folder's
      * pattern is rejected the folder holds the bare directory and the exception
      * escapes (`ok` false). */
    method ConfigureScreenshotProperties(p: PropertySources, formatTimestamp: string -> Option<string>)
      returns (ok: bool)
      modifies `screenshotFolder, `screenshotRelativePath
      ensures ok == BaseFolderName(p, formatTimestamp).Some?
      ensures ok ==> screenshotFolder == ScreenshotFolder(p, formatTimestamp)
                     && screenshotRelativePath == Some(ScreenshotRelativePath(p, screenshotFolder.value))
      ensures !ok ==> screenshotFolder == Some(ScreenshotDir(p)) && screenshotRelativePath == old(screenshotRelativePath)
    {
      var property := GetProperty(p, ScreenshotDirProperty);
      screenshotFolder := Some(if property.None? || property.value == "" then DefaultScreenshotFolderName else property.value);
      var base := BaseFolderName(p, formatTimestamp);
      if base.None? {
        return false;
      }
      screenshotFolder := Some(base.value + screenshotFolder.value);
      property := GetProperty(p, ScreenshotRelPathProperty);
      screenshotRelativePath := Some(if property.None? || property.value == "" then screenshotFolder.value else property.value);
      ok := true;
    }

    /** configureDeviceAndAuthorProperties (lines 311-328). */
    method ConfigureDeviceAndAuthorProperties(p: PropertySources)
      modifies `deviceEnabled, `authorEnabled, `devicePrefix, `authorPrefix
      ensures deviceEnabled == (old(deviceEnabled) || GetPropertyOrDefault(p, DeviceEnableSparkKey, "false") == "true")
      ensures authorEnabled == (old(authorEnabled) || GetPropertyOrDefault(p, AuthorEnableSparkKey, "false") == "true")
      ensures devicePrefix == NamePrefix(deviceEnabled, p, DevicePrefixSparkKey, DefaultDevicePrefix, old(devicePrefix))
      ensures authorPrefix == NamePrefix(authorEnabled, p, AuthorPrefixSparkKey, DefaultAuthorPrefix, old(authorPrefix))
    {
      if GetPropertyOrDefault(p, DeviceEnableSparkKey, "false") == "true" {
        deviceEnabled := true;
      }
      if GetPropertyOrDefault(p, AuthorEnableSparkKey, "false") == "true" {
        authorEnabled := true;
      }
      if deviceEnabled {
        var property := GetPropertyOrDefault(p, DevicePrefixSparkKey, DefaultDevicePrefix);
        if property != "" {
          devicePrefix := Some(property);
        }
      }
      if authorEnabled {
        var property := GetPropertyOrDefault(p, AuthorPrefixSparkKey, DefaultAuthorPrefix);
        if property != "" {
          authorPrefix := Some(property);
        }
      }
    }

    /** addSystemInfo (lines 427-435): one setSystemInfo per marked key. */
    method AddSystemInfo(props: seq<(string, string)>)
      modifies instance
      ensures instance.systemInfo == old(instance.systemInfo) + SystemInfoEntries(props)
      ensures instance.nodes == old(instance.nodes)
    {
      for i := 0 to |props|
        invariant instance.systemInfo == old(instance.systemInfo) + SystemInfoEntries(props[..i])
        invariant instance.nodes == old(instance.nodes)
      {
        var (k, v) := props[i];
        if StartsWith(k, SysInfoMarker) {
          var key := k[IndexOf(k, '.') + 1..];
          instance.SetSystemInfo(key, v);
        }
        assert props[..i + 1][..i] == props[..i];
      }
      assert props[..|props|] == props;
    }
  }
}
