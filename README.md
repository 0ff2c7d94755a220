# lm-evaluation-harness results dashboard: loading and parsing core

This project models, in Dafny, how the dashboard turns a directory of
lm-evaluation-harness outputs into a table of metric records and an index of
per-task samples, and it proves what that loading promises.

- `parsers.py`, `parse_results_file`: each task of a results document gives
  at most one record `(model, benchmark, language, task, metric, value)`.
  - The task name is split on `_`: the last piece is the language and the
    rest, rejoined with `_`, is the benchmark. A task name without `_` has
    language `"unknown"`.
  - The metric key is the first present of `acc,none`, `exact_match,none`
    and `bleu,none`. Otherwise it is the first key, in dict order, whose
    value is a float.
  - The metric name is the key up to its first comma.
  - Any exception gives `[]`: a task whose data is not a dict, a document
    that is not a dict, or `results` that is not a dict.
- `parsers.py`, `parse_samples_file`:
  - For a `.jsonl` path, each stripped line is parsed as one sample and
    loses the keys `doc`, `"doc_hash` (sic), `prompt_hash`, `target_hash`
    and `doc_hash`.
  - For any other path, a list document gives its elements and any other
    document gives one sample.
  - One bad line discards the whole file.
- `data_loader.py`, `load_data_from_root`:
  - The root's entries are visited in name order and non-directories are
    skipped.
  - Every `results_*.json` file's records are appended and its timestamp is
    collected.
  - A `samples_*.jsonl` file is kept only when its timestamp is one of its
    model's result timestamps. Its task key is the group of
    `samples_(.*)_\d{4}-\d{2}-\d{2}T`.
  - Samples accumulate under `(model, task key)`.
- `data_loader.py`, `load_data_results`: the same scan without samples. It
  returns a `(DataFrame(), {})` pair for a root that is not a directory,
  and a bare table otherwise. The model keeps that difference as
  `ResultsReturn = EmptyPair | Table(rows)`.
- `data_loader.py`, `load_data_samples`: picks, among the model directory's
  `samples_{benchmark}_{language}_*.jsonl` files, the one with the greatest
  name and returns its samples.

The file system, file contents and the JSON parser are inputs:
- a `Root` is `NotADirectory` or a listing of entries (name, is-directory,
  files in listing order);
- a file's content is its decoded text, or `Unreadable`;
- `json.loads` is a parameter `loads: string -> Option<Json>`, where
  `None` means "raised".

JSON objects keep their key order (`JObject(seq<(string, Json)>)`), because
dict order decides the fallback metric. Floats are tagged (`JFloat`) and
never computed with.

The record value is whatever JSON value the file holds under the chosen
key. A priority key can hold a non-number, and the code copies it as it is.

Files:
- `wrappers.dfy`: `Option`.
- `collecting.dfy`: accumulation loops that give up as a whole on a failure
  (`Collect`), and list flattening.
- `pystr.dfy`: the Python `str` operations used: `split`, `join`, `strip`,
  line iteration, and code-point order.
- `json.dfy`: JSON values, `dict.get` and `dict.pop`.
- `sorting.dfy`: `sorted` by name, as a stable insertion sort.
- `parsers.dfy`: both parsers, as specification functions and as the
  imperative loops of the source proved against them.
- `data_loader.dfy`: globs, timestamps, the task-key regex, the sample
  index, the root scan, and the three loaders as methods proved against
  their specification functions.

## Model

| member | source | states |
|---|---|---|
| Parsers.TaskNameWithUnderscore | parsers.py:15-17 | with an `_` in the task name, benchmark + "_" + language is the task name and the language holds no `_` |
| Parsers.TaskNameWithoutUnderscore | parsers.py:15-17 | without `_`, the pair is (task name, "unknown") |
| Parsers.ExampleTaskName | parsers.py:15-17 | "mmlu_en" is benchmark "mmlu" in language "en" |
| Parsers.FirstPresentIsFirst | parsers.py:20-21 | the priority scan returns a listed key that the dict holds, with none before it held; it fails only when no listed key is held |
| Parsers.FirstFloatKeyIsFirst | parsers.py:22 | the fallback returns the first key in dict order whose value is a float, and fails exactly when no value is a float (ints, bools and strings never qualify) |
| Parsers.MetricPriority | parsers.py:20-23 | "acc,none" beats "exact_match,none", which beats "bleu,none"; the float fallback applies only when none of them is present |
| Parsers.ChosenMetricIsPresent | parsers.py:20-23 | a chosen key is always in the dict, and one outside the priority list always holds a float |
| Parsers.FirstKeyWins | parsers.py:25 | in a dict with distinct keys, `get` of an item's key returns that item's value |
| Parsers.AccuracyBeatsBleu | parsers.py:20-31 | a task holding both "acc,none" (not null) and "bleu,none" gives a record with metric "acc" |
| Parsers.MetricNameIsPrefixBeforeComma | parsers.py:31 | the metric name holds no comma and is the whole key or the part before its first comma |
| Parsers.TaskRecordOfChosenMetric | parsers.py:19-33 | a task gives no record exactly when no key qualifies, the key is empty or its value is null; otherwise the record has the model, the task name, the key's metric name and the value stored under the key |
| Parsers.TaskRecordsSucceedIffAllDicts | parsers.py:14-33 | the loop over tasks gets through exactly when every task's data is a dict, and then it has built RecordsOf, one task's records after another |
| Parsers.RecordsOfAppend | parsers.py:14-33 | records follow task order: the records of two runs of tasks are the first run's followed by the second's |
| Parsers.RecordsAreWellFormed | parsers.py:14-33 | at most one record per task; each record names one of the tasks, has the given model, the task's (benchmark, language), a comma-free metric and a non-null value |
| Parsers.ParsedRecordsAreWellFormed | parsers.py:6-37 | every record of a results file has the given model, the (benchmark, language) of its task, a comma-free metric and a non-null value |
| Parsers.NonDictTaskGivesNothing | parsers.py:14-37 | one task whose data is not a dict makes the whole file give [] |
| Parsers.SingleResultExample | parsers.py:6-34 | a document with one task "mmlu_en" holding "acc,none": 0.42 gives exactly one record (modelA, mmlu, en, mmlu_en, acc, 0.42) |
| Parsers.ParseResultsFile | parsers.py:6-37 | the loop returns exactly ParseResults: all the tasks' records in order, or [] when the file, the document or any task raises |
| Parsers.LineSamplesOnePerLine | parsers.py:47-56 | the lines give samples exactly when every line does, and then one sample per line in line order |
| Parsers.JsonLinesSamples | parsers.py:47-56 | for a `.jsonl` path whose lines all parse to dicts: one sample per line, none of the dropped keys left, every other key's value untouched |
| Parsers.BadLineGivesNothing | parsers.py:47-56 | for a `.jsonl` path, one line that fails to parse or is not a dict makes the whole file give [] |
| Parsers.WholeDocumentSamples | parsers.py:57-62 | for any other path, a list gives its elements and any other document gives itself as the one sample |
| Parsers.DroppingKeysOneByOne | parsers.py:51-55 | the five `pop` statements in order amount to removing the whole list of dropped keys |
| Parsers.ParseSamplesFile | parsers.py:40-66 | the loop returns exactly ParseSamples, and [] for an unreadable file, a bad line or a bad document |
| Json.GetFindsKey | parsers.py:25 | `d.get(k)` finds a value exactly when `k in d`, and that value is stored under `k` |
| Json.WithoutRemovesKey | parsers.py:51 | `pop(k, None)` removes `k`, leaves every other key's value, and leaves a dict without `k` unchanged |
| Json.WithoutAllRemovesKeys | parsers.py:51-55 | after popping a list of keys none is left and every other key reads as before |
| PyStr.JoinSplit | parsers.py:15-17 | `sep.join(s.split(sep)) == s` |
| PyStr.SplitPiecesHaveNoSeparator | parsers.py:15 | no piece of a split contains the separator |
| PyStr.SplitIsTrivialIffNoSeparator | parsers.py:16 | a split gives one piece (the string itself) exactly when the separator does not occur |
| PyStr.StripKeepsMiddle | parsers.py:49 | `strip()` keeps a slice that neither starts nor ends with whitespace and drops only whitespace |
| PyStr.LinesPartitionText | parsers.py:48 | the lines of a file concatenate to its text; each is non-empty, has no newline before its end, and all but the last end with one |
| PyStr.StrLeqTotal | data_loader.py:27 | any two names are ordered one way or the other |
| PyStr.StrLeqTransitive | data_loader.py:27 | name order is transitive |
| PyStr.StrLeqAntisymmetric | data_loader.py:27 | two names ordered both ways are equal |
| Sorting.SortByPermutes | data_loader.py:27 | `sorted` returns a permutation of the entries |
| Sorting.SortByIsSorted | data_loader.py:27 | `sorted` returns the entries in name order |
| Sorting.LastOfSortIsGreatest | data_loader.py:118 | the last element of the sorted files is one of them and has the greatest name |
| DataLoader.GlobSelectsMatches | data_loader.py:34 | a glob keeps exactly the files whose name has the pattern's prefix and suffix |
| DataLoader.ResultTimestampIsAfterLastMarker | data_loader.py:37 | a result file's timestamp is the text after its last "results_" up to the first "." |
| DataLoader.ResultTimestampOf | data_loader.py:37 | `results_<stamp>.<rest>` has timestamp `<stamp>` when neither part holds `_` and the stamp holds no `.` |
| DataLoader.SampleTimestampIsAfterLastUnderscore | data_loader.py:45 | a sample file's timestamp is the text after its last "_" up to the first "." |
| DataLoader.SampleTimestampOf | data_loader.py:45 | `<prefix>_<stamp>.<rest>` has timestamp `<stamp>` whatever the prefix holds, when neither stamp nor rest holds `_` and the stamp holds no `.` |
| DataLoader.RunFilesShareTimestamp | data_loader.py:37-46 | the results file and a samples file of one run give the same timestamp, so the sample file is kept |
| DataLoader.MatchAtIsGreedy | data_loader.py:50 | at a given start the regex group ends at the last date mark before the first newline, and there is no longer match |
| DataLoader.SearchFromIsLeftmost | data_loader.py:50 | the search reports the leftmost start at which the pattern matches |
| DataLoader.TaskKeyIsLeftmostGreedyGroup | data_loader.py:50-52 | the task key is the group of the leftmost, greedy match, and there is none exactly when the pattern matches nowhere |
| DataLoader.TaskKeyOfSampleFile | data_loader.py:50-52 | `samples_<task>` followed by one date mark (and none later) is filed under `<task>` |
| DataLoader.ModelRowsAreTheModels | data_loader.py:36-38 | every record from a model's result files carries that model's name and is well formed |
| DataLoader.GatherResults | data_loader.py:34-39 | the loop appends every result file's records in file order and collects exactly the files' timestamps |
| DataLoader.ExtendAppends | data_loader.py:54 | `setdefault(key, []).extend(s)` appends under `key` and leaves every other key as it was |
| DataLoader.FileAllAccumulates | data_loader.py:53-54 | under every key of the model the index ends with what it held followed by every filed file's samples, in file order; other keys are untouched |
| DataLoader.FileAllKeys | data_loader.py:53-54 | a key is present exactly when it was before or some file was filed under it |
| DataLoader.SamplesAccumulate | data_loader.py:43-56 | the same for the sample files of one model: accepted files are appended, never replaced, and a key exists exactly when some accepted file names it |
| DataLoader.SkippedSampleFileContributesNothing | data_loader.py:44-56 | a sample file with an unknown timestamp, or whose name does not match the pattern, leaves the index as if it were absent |
| DataLoader.GatherSamples | data_loader.py:43-56 | the loop builds exactly IndexSamples |
| DataLoader.ScanSkipsNonDirectories | data_loader.py:27-29 | entries that are not directories play no part in the scan |
| DataLoader.RowsComeFromModelDirectories | data_loader.py:27-39 | every record of the table names a directory entry as its model and is well formed |
| DataLoader.SampleKeysComeFromModelDirectories | data_loader.py:27-56 | every key of the sample index names a directory entry as its model |
| DataLoader.LoadedComesFromRoot | data_loader.py:10-60 | everything load_data_from_root returns is about the root's own directories; nothing comes from a root that is not a directory |
| DataLoader.LoadDataFromRoot | data_loader.py:10-60 | the method returns exactly LoadFromRoot: empty for a root that is not a directory, else the scan of the entries in name order |
| DataLoader.LoadDataResults | data_loader.py:63-94 | the empty pair for a root that is not a directory, otherwise the same table load_data_from_root builds |
| DataLoader.FindDirectoryFinds | data_loader.py:108-109 | the model directory found is a directory entry with the model's name, and none is found only when no such entry exists |
| DataLoader.LoadDataSamples | data_loader.py:97-126 | [] when the model directory is missing or no file matches; otherwise the samples of a matching file whose name no other match exceeds, unchanged (so [] when that file gives none) |

## Left out

- Streamlit calls (`st.error`, `st.warning`, `st.sidebar.info`), the `@st.cache_data` cache and `print` logging are UI side effects with no effect on the results.
- Real file-system access, `open`, `Path.iterdir`/`glob` and the JSON text parser are inputs. The directory listing and the `loads` parameter stand in for them, and decoding is assumed to have applied universal-newline translation.
- `pd.DataFrame` construction: the table is the list of records.
- The order in which `Path.glob` lists files is the listing order given in the input; the operating system fixes it in the source.
- Glob metacharacters inside `benchmark` or `language` (data_loader.py:112) are taken literally.
- `\d` in the task-key regex is read as an ASCII digit; Python also accepts other Unicode decimal digits.
- `os.path.join(root_path, model_name)` (data_loader.py:108) is modelled as looking up an entry named `model_name` in the root. An absolute, empty or `..` model name, or one holding a path separator, is not modelled.
- The sample parser receives the file's name where the source passes its full path. Both end in `.jsonl` for every globbed sample file.
- A sub-directory whose name matches a glob is modelled as an `Unreadable` file. Opening it raises, so it gives no records; its result timestamp is still collected, as in the source.
- Key order of the `all_samples` dict is not modelled: the index is a map.
- DataLoader.LoadDataSamples: states that the chosen file has a greatest name among the matches, not which of two equal names is taken; names within one directory are distinct.
