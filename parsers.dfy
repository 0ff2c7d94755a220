/**
  Extraction of metric records from a `results_*.json` file and of samples
  from a `samples_*` file (parsers.py).

  A file is given by its decoded text, or as `Unreadable` when opening or
  decoding it raises. Python's JSON parser is a parameter `loads` that
  returns `None` where `json.load`/`json.loads` raises. Both parsers catch
  every exception and then return an empty list; the specification
  functions below say `None` for "this raised" and the parsers map it to [].
 */
module Parsers {
  import opened Wrappers
  import opened Collecting
  import opened Json
  import opened PyStr

  datatype TextFile = Unreadable | Text(content: string)

  /** `json.loads`: the parsed value, or `None` when the text is not JSON. */
  type Loader = string -> Option<Json>

  /** One row of the comparison table. */
  datatype MetricRecord = MetricRecord(
    model: string,
    benchmark: string,
    language: string,
    task: string,
    metric: string,
    value: Json)

  // ---------------------------------------------------------------------------
  // Task names

  /** (benchmark, language) of a task name: the language is the last `_`-piece, the benchmark the rest. */
  function SplitTaskName(task: string): (bl: (string, string))
  {
    var parts := Split(task, "_");
    if |parts| > 1 then (Join(parts[..|parts| - 1], "_"), parts[|parts| - 1])
    else (task, "unknown")
  }

  /** With an underscore, the task name is benchmark + "_" + language, and the language holds no underscore. */
  lemma TaskNameWithUnderscore(task: string)
    requires '_' in task
    ensures SplitTaskName(task).0 + "_" + SplitTaskName(task).1 == task
    ensures '_' !in SplitTaskName(task).1
  {
    var parts := Split(task, "_");
    NoOccurrenceOfChar(task, '_');
    SplitIsTrivialIffNoSeparator(task, "_");
    var n := |parts| - 1;
    assert parts == parts[..n] + [parts[n]];
    JoinSnoc(parts[..n], parts[n], "_");
    JoinSplit(task, "_");
    SplitPiecesHaveNoSeparator(task, "_", n);
    NoOccurrenceOfChar(parts[n], '_');
  }

  /** Without an underscore, the language is "unknown" and the benchmark is the whole task name. */
  lemma TaskNameWithoutUnderscore(task: string)
    requires '_' !in task
    ensures SplitTaskName(task) == (task, "unknown")
  {
    NoOccurrenceOfChar(task, '_');
    SplitIsTrivialIffNoSeparator(task, "_");
  }

  // ---------------------------------------------------------------------------
  // Metric choice

  /** The metrics preferred over any other, best first. */
  const PriorityMetrics: seq<string> := ["acc,none", "exact_match,none", "bleu,none"]

  /** The first of `keys` that the dict holds. */
  function FirstPresent(keys: seq<string>, members: Members): Option<string>
    decreases |keys|
  {
    if keys == [] then None
    else if HasKey(members, keys[0]) then Some(keys[0])
    else FirstPresent(keys[1..], members)
  }

  /** FirstPresent finds a key of the list that the dict holds, none before it is held, and it fails only when none is. */
  lemma {:induction false} FirstPresentIsFirst(keys: seq<string>, members: Members)
    ensures var r := FirstPresent(keys, members);
      (r.Some? ==> exists i :: 0 <= i < |keys| && keys[i] == r.value && HasKey(members, r.value) &&
                     forall j :: 0 <= j < i ==> !HasKey(members, keys[j])) &&
      (r.None? ==> forall i :: 0 <= i < |keys| ==> !HasKey(members, keys[i]))
    decreases |keys|
  {
    if keys != [] && !HasKey(members, keys[0]) {
      FirstPresentIsFirst(keys[1..], members);
      var r := FirstPresent(keys[1..], members);
      if r.Some? {
        var i :| 0 <= i < |keys[1..]| && keys[1..][i] == r.value && HasKey(members, r.value) &&
                 forall j :: 0 <= j < i ==> !HasKey(members, keys[1..][j]);
        assert keys[i + 1] == r.value;
      } else {
        assert forall i :: 1 <= i < |keys| ==> keys[i] == keys[1..][i - 1];
      }
    }
  }

  /** The first key, in iteration order, whose value is a float. */
  function FirstFloatKey(members: Members): Option<string>
    decreases |members|
  {
    if members == [] then None
    else if members[0].1.JFloat? then Some(members[0].0)
    else FirstFloatKey(members[1..])
  }

  /** FirstFloatKey fails exactly when no value is a float, and otherwise names the first float-valued item. */
  lemma {:induction false} FirstFloatKeyIsFirst(members: Members)
    ensures var r := FirstFloatKey(members);
      (r.None? <==> forall i :: 0 <= i < |members| ==> !members[i].1.JFloat?) &&
      (r.Some? ==> exists i :: 0 <= i < |members| && members[i].0 == r.value && members[i].1.JFloat? &&
                     forall j :: 0 <= j < i ==> !members[j].1.JFloat?)
    decreases |members|
  {
    if members != [] && !members[0].1.JFloat? {
      FirstFloatKeyIsFirst(members[1..]);
      assert forall i :: 0 < i < |members| ==> members[i] == members[1..][i - 1];
      var r := FirstFloatKey(members[1..]);
      if r.Some? {
        var i :| 0 <= i < |members[1..]| && members[1..][i].0 == r.value && members[1..][i].1.JFloat? &&
                 forall j :: 0 <= j < i ==> !members[1..][j].1.JFloat?;
        assert members[i + 1].0 == r.value;
      }
    }
  }

  /** The metric key a task reports: the first priority key present, else the first float-valued key. */
  function ChooseMetric(members: Members): Option<string>
  {
    match FirstPresent(PriorityMetrics, members)
    case Some(k) => Some(k)
    case None => FirstFloatKey(members)
  }

  /** The priority list decides first; only when none of its keys is present does the first float-valued key win. */
  lemma MetricPriority(members: Members)
    ensures HasKey(members, "acc,none") ==> ChooseMetric(members) == Some("acc,none")
    ensures !HasKey(members, "acc,none") && HasKey(members, "exact_match,none") ==>
              ChooseMetric(members) == Some("exact_match,none")
    ensures !HasKey(members, "acc,none") && !HasKey(members, "exact_match,none") && HasKey(members, "bleu,none") ==>
              ChooseMetric(members) == Some("bleu,none")
    ensures !HasKey(members, "acc,none") && !HasKey(members, "exact_match,none") && !HasKey(members, "bleu,none") ==>
              ChooseMetric(members) == FirstFloatKey(members)
  {
    var ks := PriorityMetrics;
    assert ks[1..] == ["exact_match,none", "bleu,none"];
    assert ks[1..][1..] == ["bleu,none"];
    assert ks[1..][1..][1..] == [];
  }

  /** A chosen key is always present, and one outside the priority list always holds a float. */
  lemma ChosenMetricIsPresent(members: Members)
    requires DistinctKeys(members)
    requires ChooseMetric(members).Some?
    ensures HasKey(members, ChooseMetric(members).value)
    ensures ChooseMetric(members).value !in PriorityMetrics ==>
              Get(members, ChooseMetric(members).value).Some? && Get(members, ChooseMetric(members).value).value.JFloat?
  {
    var k := ChooseMetric(members).value;
    FirstPresentIsFirst(PriorityMetrics, members);
    FirstFloatKeyIsFirst(members);
    if FirstPresent(PriorityMetrics, members).None? {
      var i :| 0 <= i < |members| && members[i].0 == k && members[i].1.JFloat? &&
               forall j :: 0 <= j < i ==> !members[j].1.JFloat?;
      FirstKeyWins(members, i);
    }
  }

  /** In a dict, `d.get(k)` finds the value of the one item under `k`. */
  lemma {:induction false} FirstKeyWins(members: Members, i: nat)
    requires DistinctKeys(members)
    requires i < |members|
    ensures Get(members, members[i].0) == Some(members[i].1)
    decreases i
  {
    if i > 0 {
      assert members[0].0 != members[i].0;
      FirstKeyWins(members[1..], i - 1);
    }
  }

  /** `key.split(',')[0]`: the metric name without its filter suffix. */
  function MetricName(key: string): string
  {
    Split(key, ",")[0]
  }

  /** The metric name has no comma and is either the whole key or the part before its first comma. */
  lemma MetricNameIsPrefixBeforeComma(key: string)
    ensures ',' !in MetricName(key)
    ensures MetricName(key) == key || StartsWith(key, MetricName(key) + ",")
  {
    SplitPiecesHaveNoSeparator(key, ",", 0);
    NoOccurrenceOfChar(MetricName(key), ',');
    match FindFrom(key, ",", 0)
    case None =>
    case Some(i) =>
      assert key[..i + 1] == key[..i] + key[i..i + 1];
  }

  // ---------------------------------------------------------------------------
  // parse_results_file

  /** The record a task contributes, if any: none without a chosen key, for the (falsy) empty key, or when its value is null. */
  function TaskRecord(model: string, taskName: string, taskData: Members): Option<MetricRecord>
  {
    var (benchmark, language) := SplitTaskName(taskName);
    match ChooseMetric(taskData)
    case None => None
    case Some(key) =>
      var value := Get(taskData, key);
      if key != "" && value.Some? && !value.value.JNull? then
        Some(MetricRecord(model, benchmark, language, taskName, MetricName(key), value.value))
      else None
  }

  /** The records of one `(task_name, task_data)` item; task data that is not a dict raises, see ResultsOfDocument. */
  function RecordsOfTask(model: string, task: (string, Json)): seq<MetricRecord>
  {
    match task.1
    case JObject(taskData) =>
      (match TaskRecord(model, task.0, taskData)
       case Some(r) => [r]
       case None => [])
    case _ => []
  }

  /** Each task's records, in task order. */
  function TaskChunks(model: string, tasks: Members): (chunks: seq<seq<MetricRecord>>)
    ensures |chunks| == |tasks|
    ensures forall i :: 0 <= i < |tasks| ==> chunks[i] == RecordsOfTask(model, tasks[i])
  {
    seq(|tasks|, i requires 0 <= i < |tasks| => RecordsOfTask(model, tasks[i]))
  }

  /** The records the loop appends over the given tasks, in task order. */
  function RecordsOf(model: string, tasks: Members): seq<MetricRecord>
  {
    Flatten(TaskChunks(model, tasks))
  }

  /** Every task's data is a dict; otherwise `task_data.items()` raises. */
  predicate AllTasksAreDicts(tasks: Members)
  {
    forall i :: 0 <= i < |tasks| ==> tasks[i].1.JObject?
  }

  /** What one `(task_name, task_data)` iteration gives: its records, or `None` when `task_data.items()` raises. */
  function TaskOutcome(model: string, task: (string, Json)): Option<seq<MetricRecord>>
  {
    if task.1.JObject? then Some(RecordsOfTask(model, task)) else None
  }

  function TaskOutcomes(model: string, tasks: Members): (outcomes: seq<Option<seq<MetricRecord>>>)
    ensures |outcomes| == |tasks|
    ensures forall i :: 0 <= i < |tasks| ==> outcomes[i] == TaskOutcome(model, tasks[i])
  {
    seq(|tasks|, i requires 0 <= i < |tasks| => TaskOutcome(model, tasks[i]))
  }

  /** The records the loop appends over the given tasks, or `None` once a task's data is not a dict. */
  function TaskRecords(model: string, tasks: Members): Option<seq<MetricRecord>>
  {
    match Collect(TaskOutcomes(model, tasks))
    case None => None
    case Some(chunks) => Some(Flatten(chunks))
  }

  /** The loop gets through the tasks exactly when every task's data is a dict, and then it has appended RecordsOf. */
  lemma TaskRecordsSucceedIffAllDicts(model: string, tasks: Members)
    ensures TaskRecords(model, tasks).Some? <==> AllTasksAreDicts(tasks)
    ensures TaskRecords(model, tasks).Some? ==> TaskRecords(model, tasks).value == RecordsOf(model, tasks)
  {
    var outcomes := TaskOutcomes(model, tasks);
    CollectAllSome(outcomes);
    if Collect(outcomes).Some? {
      assert Collect(outcomes).value == TaskChunks(model, tasks);
    }
  }

  /** The items of `data.get('results', {})`, or `None` when `get` or `items()` raises. */
  function TaskItems(data: Json): Option<Members>
  {
    match data
    case JObject(top) =>
      (match Get(top, "results")
       case None => Some([])
       case Some(JObject(tasks)) => Some(tasks)
       case Some(_) => None)
    case _ => None
  }

  /** The records of a parsed results document, or `None` when the `try` body raises. */
  function ResultsOfDocument(model: string, data: Json): Option<seq<MetricRecord>>
  {
    match TaskItems(data)
    case None => None
    case Some(tasks) => TaskRecords(model, tasks)
  }

  /** parse_results_file: the records of the file, or [] when anything raised. */
  function ParseResults(file: TextFile, model: string, loads: Loader): seq<MetricRecord>
  {
    match file
    case Unreadable => []
    case Text(text) =>
      match loads(text)
      case None => []
      case Some(data) =>
        match ResultsOfDocument(model, data)
        case None => []
        case Some(records) => records
  }

  /** The tasks of two halves give the records of each half, one after the other. */
  lemma RecordsOfAppend(model: string, t1: Members, t2: Members)
    ensures RecordsOf(model, t1 + t2) == RecordsOf(model, t1) + RecordsOf(model, t2)
  {
    TaskChunksAppend(model, t1, t2);
    FlattenAppend(TaskChunks(model, t1), TaskChunks(model, t2));
  }

  lemma TaskChunksAppend(model: string, t1: Members, t2: Members)
    ensures TaskChunks(model, t1 + t2) == TaskChunks(model, t1) + TaskChunks(model, t2)
  {
    var c, c1, c2 := TaskChunks(model, t1 + t2), TaskChunks(model, t1), TaskChunks(model, t2);
    forall i | 0 <= i < |c| ensures c[i] == (c1 + c2)[i] {
      if i < |t1| {
        assert (t1 + t2)[i] == t1[i];
      } else {
        assert (t1 + t2)[i] == t2[i - |t1|];
      }
    }
  }

  /** At most one record per task, and every record is about one of the tasks and well formed. */
  lemma RecordsAreWellFormed(model: string, tasks: Members)
    ensures |RecordsOf(model, tasks)| <= |tasks|
    ensures forall r :: r in RecordsOf(model, tasks) ==>
              r.model == model &&
              (exists i :: 0 <= i < |tasks| && tasks[i].0 == r.task) &&
              (r.benchmark, r.language) == SplitTaskName(r.task) &&
              ',' !in r.metric &&
              r.value != JNull
  {
    var chunks := TaskChunks(model, tasks);
    FlattenOfSingletons(chunks);
    forall r | r in RecordsOf(model, tasks)
      ensures r.model == model && (exists i :: 0 <= i < |tasks| && tasks[i].0 == r.task)
      ensures (r.benchmark, r.language) == SplitTaskName(r.task) && ',' !in r.metric && r.value != JNull
    {
      FlattenMember(chunks, r);
      var i :| 0 <= i < |tasks| && r in chunks[i];
      var key := ChooseMetric(tasks[i].1.members).value;
      MetricNameIsPrefixBeforeComma(key);
    }
  }

  /** Every record parse_results_file returns carries the given model name and is well formed. */
  lemma ParsedRecordsAreWellFormed(file: TextFile, model: string, loads: Loader)
    ensures forall r :: r in ParseResults(file, model, loads) ==>
              r.model == model &&
              (r.benchmark, r.language) == SplitTaskName(r.task) &&
              ',' !in r.metric &&
              r.value != JNull
  {
    if file.Text? && loads(file.content).Some? {
      var items := TaskItems(loads(file.content).value);
      if items.Some? {
        TaskRecordsSucceedIffAllDicts(model, items.value);
        RecordsAreWellFormed(model, items.value);
      }
    }
  }

  /**
    A task gives no record exactly when no key qualifies, the chosen key is
    the (falsy) empty string, or its value is null; otherwise its record
    carries the model, the task name, the chosen key's metric name and the
    value stored under that key.
   */
  lemma TaskRecordOfChosenMetric(model: string, taskName: string, taskData: Members)
    ensures TaskRecord(model, taskName, taskData).None? <==>
              ChooseMetric(taskData).None? || ChooseMetric(taskData).value == "" ||
              Get(taskData, ChooseMetric(taskData).value) == Some(JNull)
    ensures TaskRecord(model, taskName, taskData).Some? ==>
              var r := TaskRecord(model, taskName, taskData).value;
              var key := ChooseMetric(taskData).value;
              r.model == model && r.task == taskName && r.metric == MetricName(key) &&
              (key, r.value) in taskData && Get(taskData, key) == Some(r.value)
  {
    FirstPresentIsFirst(PriorityMetrics, taskData);
    FirstFloatKeyIsFirst(taskData);
    var chosen := ChooseMetric(taskData);
    if chosen.Some? {
      assert HasKey(taskData, chosen.value);
      GetFindsKey(taskData, chosen.value);
    }
  }

  /** One task whose data is not a dict makes the whole results file give nothing. */
  lemma NonDictTaskGivesNothing(text: string, model: string, loads: Loader, i: nat)
    requires loads(text).Some? && TaskItems(loads(text).value).Some?
    requires i < |TaskItems(loads(text).value).value|
    requires !TaskItems(loads(text).value).value[i].1.JObject?
    ensures ParseResults(Text(text), model, loads) == []
  {
    TaskRecordsSucceedIffAllDicts(model, TaskItems(loads(text).value).value);
  }

  /** A task whose data holds both "acc,none" and "bleu,none" reports accuracy. */
  lemma AccuracyBeatsBleu(model: string, taskName: string, taskData: Members)
    requires HasKey(taskData, "acc,none") && HasKey(taskData, "bleu,none")
    requires Get(taskData, "acc,none") != Some(JNull)
    ensures TaskRecord(model, taskName, taskData).Some?
    ensures TaskRecord(model, taskName, taskData).value.metric == "acc"
  {
    MetricPriority(taskData);
    GetFindsKey(taskData, "acc,none");
    AccuracyMetricName();
  }

  /** The metric name of "acc,none" is "acc". */
  lemma AccuracyMetricName()
    ensures MetricName("acc,none") == "acc"
  {
    var key := "acc,none";
    forall k: nat | k < 3 ensures !OccursAt(key, ",", k) {
      OccursAtChar(key, ',', k);
    }
    OccursAtChar(key, ',', 3);
    SplitAtFirst(key, ",", 3);
  }

  lemma ExampleFirstUnderscore()
    ensures forall k: nat :: k < 4 ==> !OccursAt("mmlu_en", "_", k)
    ensures OccursAt("mmlu_en", "_", 4)
  {
    forall k: nat | k < 4 ensures !OccursAt("mmlu_en", "_", k) {
      OccursAtChar("mmlu_en", '_', k);
    }
    OccursAtChar("mmlu_en", '_', 4);
  }

  /** "mmlu_en" splits at its one underscore. */
  lemma ExampleTaskNamePieces()
    ensures Split("mmlu_en", "_") == ["mmlu", "en"]
  {
    var task := "mmlu_en";
    ExampleFirstUnderscore();
    SplitAtFirst(task, "_", 4);
    assert task[..4] == "mmlu" && task[5..] == "en";
    NoOccurrenceOfChar("en", '_');
    SplitIsTrivialIffNoSeparator("en", "_");
  }

  /** "mmlu_en" is the task "mmlu" in language "en". */
  lemma ExampleTaskName()
    ensures SplitTaskName("mmlu_en") == ("mmlu", "en")
  {
    ExampleTaskNamePieces();
    assert ["mmlu", "en"][..1] == ["mmlu"];
  }

  /** The example of a single results file: one task "mmlu_en" with accuracy 0.42. */
  lemma SingleResultExample(text: string, loads: Loader)
    requires loads(text) == Some(JObject([("results", JObject([("mmlu_en", JObject([("acc,none", JFloat("0.42"))]))]))]))
    ensures ParseResults(Text(text), "modelA", loads) ==
              [MetricRecord("modelA", "mmlu", "en", "mmlu_en", "acc", JFloat("0.42"))]
  {
    var tasks := [("mmlu_en", JObject([("acc,none", JFloat("0.42"))]))];
    var record := MetricRecord("modelA", "mmlu", "en", "mmlu_en", "acc", JFloat("0.42"));
    var top := [("results", JObject(tasks))];
    assert Get(top, "results") == Some(JObject(tasks));
    assert TaskItems(JObject(top)) == Some(tasks);
    ExampleTaskRecord();
    TaskRecordsSucceedIffAllDicts("modelA", tasks);
    assert TaskChunks("modelA", tasks) == [[record]];
    assert [[record]][..0] == [];
    assert RecordsOf("modelA", tasks) == [record];
  }

  lemma ExampleTaskRecord()
    ensures TaskRecord("modelA", "mmlu_en", [("acc,none", JFloat("0.42"))]) ==
              Some(MetricRecord("modelA", "mmlu", "en", "mmlu_en", "acc", JFloat("0.42")))
  {
    var taskData := [("acc,none", JFloat("0.42"))];
    assert taskData[0].0 == "acc,none";
    MetricPriority(taskData);
    ExampleTaskName();
    AccuracyMetricName();
  }

  /**
    parse_results_file: walks the tasks in order and appends at most one
    record per task; a task whose data is not a dict, an unreadable file or a
    document that is not shaped as expected yields [] and never a prefix.
   */
  method ParseResultsFile(file: TextFile, model: string, loads: Loader) returns (results: seq<MetricRecord>)
    ensures results == ParseResults(file, model, loads)
  {
    if file.Unreadable? {
      return [];
    }
    var data := loads(file.content);
    if data.None? {
      return [];
    }
    var items := TaskItems(data.value);
    if items.None? {
      return [];
    }
    var tasks := items.value;
    results := [];
    ghost var outcomes := TaskOutcomes(model, tasks);
    ghost var chunks: seq<seq<MetricRecord>> := [];
    var i := 0;
    while i < |tasks|
      invariant 0 <= i <= |tasks|
      invariant Collect(outcomes[..i]) == Some(chunks)
      invariant results == Flatten(chunks)
    {
      var taskName := tasks[i].0;
      var taskData := tasks[i].1;
      CollectStep(outcomes, i);
      if !taskData.JObject? {
        CollectFailedPrefix(outcomes, i + 1);
        return [];
      }
      var record := TaskRecord(model, taskName, taskData.members);
      ghost var chunk := if record.Some? then [record.value] else [];
      assert outcomes[i] == Some(chunk);
      FlattenSnoc(chunks, chunk);
      chunks := chunks + [chunk];
      if record.Some? {
        results := results + [record.value];
      }
      i := i + 1;
    }
    assert outcomes[..i] == outcomes;
  }

  // ---------------------------------------------------------------------------
  // parse_samples_file

  /** The keys popped from every JSON-Lines sample, in the order they are popped; one carries a stray leading quote. */
  const DroppedSampleKeys: seq<string> := ["doc", "\"doc_hash", "prompt_hash", "target_hash", "doc_hash"]

  /** One JSON-Lines line as a sample: parsed after `strip()`, then stripped of the dropped keys; `None` if anything raises. */
  function LineSample(line: string, loads: Loader): Option<Json>
  {
    match loads(Strip(line))
    case Some(JObject(members)) => Some(JObject(WithoutAll(members, DroppedSampleKeys)))
    case _ => None
  }

  predicate AllLinesParse(lines: seq<string>, loads: Loader)
  {
    forall i :: 0 <= i < |lines| ==> LineSample(lines[i], loads).Some?
  }

  /** What each line's loop iteration gives, in line order. */
  function LineOutcomes(lines: seq<string>, loads: Loader): (outcomes: seq<Option<Json>>)
    ensures |outcomes| == |lines|
    ensures forall i :: 0 <= i < |lines| ==> outcomes[i] == LineSample(lines[i], loads)
  {
    seq(|lines|, i requires 0 <= i < |lines| => LineSample(lines[i], loads))
  }

  /** The samples the loop appends over the given lines, or `None` once a line raised. */
  function LineSamples(lines: seq<string>, loads: Loader): Option<seq<Json>>
  {
    Collect(LineOutcomes(lines, loads))
  }

  /** parse_samples_file: the samples of the file, or [] when anything raised. */
  function ParseSamples(path: string, file: TextFile, loads: Loader): seq<Json>
  {
    match file
    case Unreadable => []
    case Text(text) =>
      if EndsWith(path, ".jsonl") then
        match LineSamples(Lines(text), loads)
        case None => []
        case Some(samples) => samples
      else
        match loads(text)
        case None => []
        case Some(JArray(items)) => items
        case Some(doc) => [doc]
  }

  /** The lines give samples exactly when each line does, and then one sample per line, in line order. */
  lemma LineSamplesOnePerLine(lines: seq<string>, loads: Loader)
    ensures LineSamples(lines, loads).Some? <==> AllLinesParse(lines, loads)
    ensures LineSamples(lines, loads).Some? ==>
              |LineSamples(lines, loads).value| == |lines| &&
              forall i :: 0 <= i < |lines| ==> LineSamples(lines, loads).value[i] == LineSample(lines[i], loads).value
  {
    CollectAllSome(LineOutcomes(lines, loads));
  }

  /**
    A JSON-Lines file whose every line parses to a dict gives exactly one
    sample per line, in line order: that dict without the dropped keys and
    with every other key's value untouched.
   */
  lemma JsonLinesSamples(path: string, text: string, loads: Loader)
    requires EndsWith(path, ".jsonl")
    requires AllLinesParse(Lines(text), loads)
    ensures |ParseSamples(path, Text(text), loads)| == |Lines(text)|
    ensures forall i :: 0 <= i < |Lines(text)| ==>
              var parsed := loads(Strip(Lines(text)[i]));
              var sample := ParseSamples(path, Text(text), loads)[i];
              parsed.Some? && parsed.value.JObject? && sample.JObject? &&
              (forall k :: k in DroppedSampleKeys ==> !HasKey(sample.members, k)) &&
              (forall k :: k !in DroppedSampleKeys ==> Get(sample.members, k) == Get(parsed.value.members, k))
  {
    var lines := Lines(text);
    LineSamplesOnePerLine(lines, loads);
    forall i | 0 <= i < |lines|
      ensures var parsed := loads(Strip(lines[i]));
              var sample := ParseSamples(path, Text(text), loads)[i];
              parsed.Some? && parsed.value.JObject? && sample.JObject? &&
              (forall k :: k in DroppedSampleKeys ==> !HasKey(sample.members, k)) &&
              (forall k :: k !in DroppedSampleKeys ==> Get(sample.members, k) == Get(parsed.value.members, k))
    {
      assert LineSample(lines[i], loads).Some?;
      WithoutAllRemovesKeys(loads(Strip(lines[i])).value.members, DroppedSampleKeys);
    }
  }

  /** One line of a JSON-Lines file that does not give a sample makes the whole file give nothing. */
  lemma BadLineGivesNothing(path: string, text: string, loads: Loader, i: nat)
    requires EndsWith(path, ".jsonl")
    requires i < |Lines(text)| && LineSample(Lines(text)[i], loads).None?
    ensures ParseSamples(path, Text(text), loads) == []
  {
    LineSamplesOnePerLine(Lines(text), loads);
  }

  /** For any other path, a list document yields its elements and anything else yields itself, untouched. */
  lemma WholeDocumentSamples(path: string, text: string, loads: Loader)
    requires !EndsWith(path, ".jsonl")
    requires loads(text).Some?
    ensures loads(text).value.JArray? ==> ParseSamples(path, Text(text), loads) == loads(text).value.items
    ensures !loads(text).value.JArray? ==> ParseSamples(path, Text(text), loads) == [loads(text).value]
  {
  }

  /** Popping the dropped keys one statement at a time is WithoutAll over the list. */
  lemma DroppingKeysOneByOne(members: Members)
    ensures WithoutAll(members, DroppedSampleKeys) ==
      Without(Without(Without(Without(Without(members, "doc"), "\"doc_hash"), "prompt_hash"), "target_hash"), "doc_hash")
  {
    var ks := DroppedSampleKeys;
    assert ks[1..] == ["\"doc_hash", "prompt_hash", "target_hash", "doc_hash"];
    assert ks[1..][1..] == ["prompt_hash", "target_hash", "doc_hash"];
    assert ks[1..][1..][1..] == ["target_hash", "doc_hash"];
    assert ks[1..][1..][1..][1..] == ["doc_hash"];
    assert ks[1..][1..][1..][1..][1..] == [];
  }

  /**
    parse_samples_file: reads the lines one by one, popping the dropped keys
    from each parsed dict and appending it; a line that does not parse, or
    parses to something other than a dict, discards everything read so far.
   */
  method ParseSamplesFile(path: string, file: TextFile, loads: Loader) returns (samples: seq<Json>)
    ensures samples == ParseSamples(path, file, loads)
    ensures file.Unreadable? ==> samples == []
    ensures file.Text? && EndsWith(path, ".jsonl") && LineSamples(Lines(file.content), loads).None? ==> samples == []
    ensures file.Text? && !EndsWith(path, ".jsonl") && loads(file.content).None? ==> samples == []
  {
    if file.Unreadable? {
      return [];
    }
    samples := [];
    if EndsWith(path, ".jsonl") {
      var lines := Lines(file.content);
      ghost var outcomes := LineOutcomes(lines, loads);
      var i := 0;
      while i < |lines|
        invariant 0 <= i <= |lines|
        invariant Collect(outcomes[..i]) == Some(samples)
      {
        CollectStep(outcomes, i);
        var jsonLine := loads(Strip(lines[i]));
        if jsonLine.None? || !jsonLine.value.JObject? {
          CollectFailedPrefix(outcomes, i + 1);
          return [];
        }
        var members := jsonLine.value.members;
        members := Without(members, "doc");
        members := Without(members, "\"doc_hash");
        members := Without(members, "prompt_hash");
        members := Without(members, "target_hash");
        members := Without(members, "doc_hash");
        DroppingKeysOneByOne(jsonLine.value.members);
        assert outcomes[i] == Some(JObject(members));
        samples := samples + [JObject(members)];
        i := i + 1;
      }
      assert outcomes[..i] == outcomes;
    } else {
      var content := loads(file.content);
      if content.None? {
        return [];
      }
      if content.value.JArray? {
        samples := samples + content.value.items;
      } else {
        samples := samples + [content.value];
      }
    }
  }
}
