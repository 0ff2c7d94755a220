/**
  The directory scan of data_loader.py: which model directories are visited,
  which result and sample files are read, how sample files are matched to
  result files by timestamp and filed under a task key, and which sample file
  `load_data_samples` picks.

  The file system is an input value: the root is either not a directory or a
  listing of entries, each with a name, an is-directory flag and (for a
  directory) its files in listing order, each with its text. `Path.glob`
  keeps the files whose name has the pattern's fixed prefix and suffix.
 */
module DataLoader {
  import opened Wrappers
  import opened Collecting
  import opened Json
  import opened PyStr
  import opened Sorting
  import opened Parsers

  /** A file of a model directory: its name and its text (or `Unreadable`, which also stands for a sub-directory). */
  datatype FileEntry = FileEntry(name: string, content: TextFile)

  /** An entry of the root directory. */
  datatype DirEntry = DirEntry(name: string, isDir: bool, files: seq<FileEntry>)

  datatype Root = NotADirectory | Directory(entries: seq<DirEntry>)

  /** `(model_name, task_key)` */
  type SampleKey = (string, string)

  /** `all_samples` */
  type SampleIndex = map<SampleKey, seq<Json>>

  function EntryName(e: DirEntry): string { e.name }

  function FileName(f: FileEntry): string { f.name }

  // ---------------------------------------------------------------------------
  // Globs

  /** `name` matches the glob `prefix*suffix` (the `*` may match the empty string). */
  predicate GlobMatch(name: string, prefix: string, suffix: string)
  {
    |prefix| + |suffix| <= |name| && StartsWith(name, prefix) && EndsWith(name, suffix)
  }

  /** `list(dir.glob(prefix + '*' + suffix))`: the matching files, in listing order. */
  function Glob(files: seq<FileEntry>, prefix: string, suffix: string): seq<FileEntry>
    decreases |files|
  {
    if files == [] then []
    else
      var f := files[|files| - 1];
      Glob(files[..|files| - 1], prefix, suffix) + (if GlobMatch(f.name, prefix, suffix) then [f] else [])
  }

  /** The glob keeps exactly the matching files. */
  lemma {:induction false} GlobSelectsMatches(files: seq<FileEntry>, prefix: string, suffix: string)
    ensures forall f :: f in Glob(files, prefix, suffix) <==> f in files && GlobMatch(f.name, prefix, suffix)
    decreases |files|
  {
    if files != [] {
      var n := |files| - 1;
      GlobSelectsMatches(files[..n], prefix, suffix);
      assert files == files[..n] + [files[n]];
    }
  }

  // ---------------------------------------------------------------------------
  // Timestamps

  /** `rf.name.split('results_')[-1].split('.')[0]` */
  function ResultTimestamp(name: string): string
  {
    var pieces := Split(name, "results_");
    Split(pieces[|pieces| - 1], ".")[0]
  }

  /** `sf.name.split('_')[-1].split('.')[0]` */
  function SampleTimestamp(name: string): string
  {
    var pieces := Split(name, "_");
    Split(pieces[|pieces| - 1], ".")[0]
  }

  /** `tail` is what follows the last `sep` in `s`, or all of `s` when `sep` does not occur. */
  predicate AfterLast(s: string, sep: string, tail: string)
  {
    EndsWith(s, tail) && NoOccurrence(tail, sep) &&
    (NoOccurrence(s, sep) ==> tail == s) &&
    (!NoOccurrence(s, sep) ==> EndsWith(s, sep + tail))
  }

  /** `stamp` is `tail` up to its first '.', or all of `tail` when it has none. */
  predicate UpToFirstDot(tail: string, stamp: string)
  {
    StartsWith(tail, stamp) && '.' !in stamp && (stamp == tail || tail[|stamp|] == '.')
  }

  lemma LastPieceIsAfterLast(s: string, sep: string)
    requires sep != []
    ensures var pieces := Split(s, sep); AfterLast(s, sep, pieces[|pieces| - 1])
  {
    SplitLastPiece(s, sep);
    SplitIsTrivialIffNoSeparator(s, sep);
  }

  lemma FirstPieceIsUpToFirstDot(tail: string)
    ensures UpToFirstDot(tail, Split(tail, ".")[0])
  {
    var stamp := Split(tail, ".")[0];
    SplitFirstPiece(tail, ".");
    NoOccurrenceOfChar(stamp, '.');
    OccursAtChar(tail, '.', |stamp|);
  }

  /** A result file's timestamp is the text after its last "results_", up to the first '.'. */
  lemma ResultTimestampIsAfterLastMarker(name: string)
    ensures exists tail :: AfterLast(name, "results_", tail) && UpToFirstDot(tail, ResultTimestamp(name))
  {
    var pieces := Split(name, "results_");
    LastPieceIsAfterLast(name, "results_");
    FirstPieceIsUpToFirstDot(pieces[|pieces| - 1]);
  }

  /** A sample file's timestamp is the text after its last '_', up to the first '.'. */
  lemma SampleTimestampIsAfterLastUnderscore(name: string)
    ensures exists tail :: AfterLast(name, "_", tail) && UpToFirstDot(tail, SampleTimestamp(name))
  {
    var pieces := Split(name, "_");
    LastPieceIsAfterLast(name, "_");
    FirstPieceIsUpToFirstDot(pieces[|pieces| - 1]);
  }

  /** `results_<stamp>.<rest>` has timestamp `stamp` when neither part holds '_' and `stamp` holds no '.'. */
  lemma ResultTimestampOf(stamp: string, rest: string)
    requires '_' !in stamp && '_' !in rest && '.' !in stamp
    ensures ResultTimestamp("results_" + stamp + "." + rest) == stamp
  {
    var name := "results_" + stamp + "." + rest;
    var tail := stamp + "." + rest;
    assert name[0..8] == "results_" && name[8..] == tail;
    SplitAtFirst(name, "results_", 0);
    NoOccurrenceOfMissingChar(tail, "results_", '_');
    SplitIsTrivialIffNoSeparator(tail, "results_");
    assert tail[..|stamp|] == stamp;
    SplitFirstPieceAtChar(tail, '.', |stamp|);
  }

  /** `<prefix>_<stamp>.<rest>` has timestamp `stamp` under the same conditions, whatever the prefix holds. */
  lemma SampleTimestampOf(prefix: string, stamp: string, rest: string)
    requires '_' !in stamp && '_' !in rest && '.' !in stamp
    ensures SampleTimestamp(prefix + "_" + stamp + "." + rest) == stamp
  {
    var name := prefix + "_" + stamp + "." + rest;
    var tail := stamp + "." + rest;
    assert name[|prefix|] == '_' && name[|prefix| + 1..] == tail;
    SplitLastPieceAfterChar(name, '_', |prefix|);
    assert tail[..|stamp|] == stamp;
    SplitFirstPieceAtChar(tail, '.', |stamp|);
  }

  /** The results file and a samples file of one run (same stamp) are correlated. */
  lemma RunFilesShareTimestamp(task: string, stamp: string, resultRest: string, sampleRest: string)
    requires '_' !in stamp && '.' !in stamp && '_' !in resultRest && '_' !in sampleRest
    ensures ResultTimestamp("results_" + stamp + "." + resultRest) ==
            SampleTimestamp("samples_" + task + "_" + stamp + "." + sampleRest)
  {
    ResultTimestampOf(stamp, resultRest);
    SampleTimestampOf("samples_" + task, stamp, sampleRest);
  }

  // ---------------------------------------------------------------------------
  // The task key: re.search(r'samples_(.*)_\d{4}-\d{2}-\d{2}T', name).group(1)

  /** `\d`, read as an ASCII digit. */
  predicate IsDigit(c: char)
  {
    '0' <= c <= '9'
  }

  /** `_\d{4}-\d{2}-\d{2}T` occurs at index `j` (twelve characters). */
  predicate DateMarkAt(s: string, j: nat)
  {
    j + 12 <= |s| &&
    s[j] == '_' && IsDigit(s[j + 1]) && IsDigit(s[j + 2]) && IsDigit(s[j + 3]) && IsDigit(s[j + 4]) &&
    s[j + 5] == '-' && IsDigit(s[j + 6]) && IsDigit(s[j + 7]) &&
    s[j + 8] == '-' && IsDigit(s[j + 9]) && IsDigit(s[j + 10]) &&
    s[j + 11] == 'T'
  }

  /** The pattern matches at `i` with the group spanning `i + 8` to `j` (`.` matches anything but a newline). */
  predicate RegexMatch(s: string, i: nat, j: nat)
  {
    i + 8 <= j && OccursAt(s, "samples_", i) && DateMarkAt(s, j) && NoNewline(s, i + 8, j)
  }

  /** No newline in `s[lo..hi]`. */
  predicate NoNewline(s: string, lo: nat, hi: nat)
    requires hi <= |s|
  {
    forall k :: lo <= k < hi ==> s[k] != '\n'
  }

  /** The match `re.search` reports: the leftmost start, and there the longest group (`.*` is greedy). */
  ghost predicate LeftmostGreedy(s: string, i: nat, j: nat)
  {
    RegexMatch(s, i, j) &&
    (forall i': nat, j': nat :: i' < i ==> !RegexMatch(s, i', j')) &&
    (forall j': nat :: j < j' ==> !RegexMatch(s, i, j'))
  }

  /** The first newline at or after `k`, or the end of `s`. */
  function LineEnd(s: string, k: nat): nat
    requires k <= |s|
    decreases |s| - k
  {
    if k == |s| || s[k] == '\n' then k else LineEnd(s, k + 1)
  }

  lemma {:induction false} LineEndIsFirstNewline(s: string, k: nat)
    requires k <= |s|
    ensures k <= LineEnd(s, k) <= |s|
    ensures forall m :: k <= m < LineEnd(s, k) ==> s[m] != '\n'
    ensures LineEnd(s, k) < |s| ==> s[LineEnd(s, k)] == '\n'
    decreases |s| - k
  {
    if k < |s| && s[k] != '\n' {
      LineEndIsFirstNewline(s, k + 1);
    }
  }

  /** The greatest `j` with `lo <= j <= hi` at which a date mark occurs. */
  function LastMarkIn(s: string, lo: nat, hi: nat): (r: Option<nat>)
    ensures r.Some? ==> lo <= r.value <= hi && DateMarkAt(s, r.value)
    decreases hi
  {
    if hi < lo then None
    else if DateMarkAt(s, hi) then Some(hi)
    else if hi == lo then None
    else LastMarkIn(s, lo, hi - 1)
  }

  lemma {:induction false} LastMarkInIsGreatest(s: string, lo: nat, hi: nat)
    ensures LastMarkIn(s, lo, hi).Some? ==> forall j': nat :: LastMarkIn(s, lo, hi).value < j' <= hi ==> !DateMarkAt(s, j')
    ensures LastMarkIn(s, lo, hi).None? ==> forall j': nat :: lo <= j' <= hi ==> !DateMarkAt(s, j')
    decreases hi
  {
    if lo <= hi && !DateMarkAt(s, hi) && hi != lo {
      LastMarkInIsGreatest(s, lo, hi - 1);
    }
  }

  /** The greedy group end for a match starting at `i`, if the pattern matches there. */
  function MatchAt(s: string, i: nat): (r: Option<nat>)
    ensures r.Some? ==> i + 8 <= r.value && r.value + 12 <= |s|
  {
    if OccursAt(s, "samples_", i) then LastMarkIn(s, i + 8, LineEnd(s, i + 8)) else None
  }

  lemma MatchAtIsGreedy(s: string, i: nat)
    ensures MatchAt(s, i).Some? ==>
              RegexMatch(s, i, MatchAt(s, i).value) && forall j': nat :: MatchAt(s, i).value < j' ==> !RegexMatch(s, i, j')
    ensures MatchAt(s, i).None? ==> forall j': nat :: !RegexMatch(s, i, j')
  {
    if OccursAt(s, "samples_", i) {
      var e := LineEnd(s, i + 8);
      LineEndIsFirstNewline(s, i + 8);
      LastMarkInIsGreatest(s, i + 8, e);
      assert forall j': nat :: RegexMatch(s, i, j') ==> j' <= e;
    }
  }

  /** The leftmost start at or after `i` where the pattern matches, with its greedy group end. */
  function SearchFrom(s: string, i: nat): (r: Option<(nat, nat)>)
    ensures r.Some? ==> r.value.0 + 8 <= r.value.1 <= |s|
    decreases |s| - i
  {
    if |s| < i + 8 then None
    else
      match MatchAt(s, i)
      case Some(j) => Some((i, j))
      case None => SearchFrom(s, i + 1)
  }

  lemma {:induction false} SearchFromIsLeftmost(s: string, i: nat)
    ensures SearchFrom(s, i).Some? ==>
              var (a, b) := SearchFrom(s, i).value;
              i <= a && MatchAt(s, a) == Some(b) && forall a': nat :: i <= a' < a ==> MatchAt(s, a').None?
    ensures SearchFrom(s, i).None? ==> forall a: nat :: i <= a ==> MatchAt(s, a).None?
    decreases |s| - i
  {
    if i + 8 <= |s| && MatchAt(s, i).None? {
      SearchFromIsLeftmost(s, i + 1);
    }
  }

  /** `match.group(1)` of the search, or `None` when the name does not match. */
  function TaskKeyOf(name: string): Option<string>
  {
    match SearchFrom(name, 0)
    case None => None
    case Some((i, j)) => Some(name[i + 8..j])
  }

  /** The task key is the group of the leftmost, greedy match, and there is none exactly when the pattern matches nowhere. */
  lemma TaskKeyIsLeftmostGreedyGroup(name: string)
    ensures TaskKeyOf(name).None? <==> forall i: nat, j: nat :: !RegexMatch(name, i, j)
    ensures TaskKeyOf(name).Some? ==>
              exists i: nat, j: nat :: LeftmostGreedy(name, i, j) && TaskKeyOf(name).value == name[i + 8..j]
  {
    SearchFromIsLeftmost(name, 0);
    if SearchFrom(name, 0).Some? {
      var (i, j) := SearchFrom(name, 0).value;
      MatchAtIsGreedy(name, i);
      forall i': nat, j': nat | i' < i ensures !RegexMatch(name, i', j') {
        MatchAtIsGreedy(name, i');
      }
      assert LeftmostGreedy(name, i, j);
    } else {
      forall i': nat, j': nat ensures !RegexMatch(name, i', j') {
        MatchAtIsGreedy(name, i');
      }
    }
  }

  /** With a mark at `j` and none after it up to `hi`, the backward scan stops at `j`. */
  lemma {:induction false} LastMarkInFinds(s: string, lo: nat, hi: nat, j: nat)
    requires lo <= j <= hi && DateMarkAt(s, j)
    requires forall j': nat :: j < j' <= hi ==> !DateMarkAt(s, j')
    ensures LastMarkIn(s, lo, hi) == Some(j)
    decreases hi
  {
    if j < hi {
      LastMarkInFinds(s, lo, hi - 1, j);
    }
  }

  /** A date mark in a suffix is a date mark in the whole string, shifted by the prefix. */
  lemma MarkInSuffix(p: string, t: string, j: nat)
    ensures DateMarkAt(p + t, |p| + j) <==> DateMarkAt(t, j)
  {
    if j + 12 <= |t| {
      assert (p + t)[|p| + j..] == t[j..];
    }
  }

  /**
    A sample file named `samples_<task>` followed by a date mark, with no
    further date mark after it, is filed under `<task>` (given `<task>` holds
    no newline).
   */
  lemma TaskKeyOfSampleFile(task: string, tail: string)
    requires '\n' !in task
    requires DateMarkAt(tail, 0)
    requires forall j: nat :: 0 < j ==> !DateMarkAt(tail, j)
    ensures TaskKeyOf("samples_" + task + tail) == Some(task)
  {
    var head := "samples_" + task;
    var name := head + tail;
    var j0 := |head|;
    assert name[0..8] == "samples_";
    assert name[8..j0] == task;
    MarkInSuffix(head, tail, 0);
    forall j': nat | j0 < j' ensures !DateMarkAt(name, j') {
      MarkInSuffix(head, tail, j' - j0);
    }
    var e := LineEnd(name, 8);
    LineEndIsFirstNewline(name, 8);
    assert forall k :: 8 <= k < j0 ==> name[k] == task[k - 8];
    assert j0 <= e;
    LastMarkInFinds(name, 8, e, j0);
    assert SearchFrom(name, 0) == Some((0, j0));
  }

  // ---------------------------------------------------------------------------
  // One model directory

  /** The records `all_results` gains from one model's result files, file after file. */
  function ModelRows(model: string, resultFiles: seq<FileEntry>, loads: Loader): seq<MetricRecord>
    decreases |resultFiles|
  {
    if resultFiles == [] then []
    else
      var n := |resultFiles| - 1;
      ModelRows(model, resultFiles[..n], loads) + ParseResults(resultFiles[n].content, model, loads)
  }

  /** `timestamps_to_consider` after the loop over the result files. */
  function ResultStamps(resultFiles: seq<FileEntry>): set<string>
  {
    set f | f in resultFiles :: ResultTimestamp(f.name)
  }

  /** One more result file adds its own timestamp and nothing else. */
  lemma ResultStampsSnoc(resultFiles: seq<FileEntry>, f: FileEntry)
    ensures ResultStamps(resultFiles + [f]) == ResultStamps(resultFiles) + {ResultTimestamp(f.name)}
  {
    assert forall g :: g in resultFiles + [f] <==> g in resultFiles || g == f;
  }

  /** Every record from a model's result files carries that model's name and is well formed. */
  lemma {:induction false} ModelRowsAreTheModels(model: string, resultFiles: seq<FileEntry>, loads: Loader)
    ensures forall r :: r in ModelRows(model, resultFiles, loads) ==>
              r.model == model && (r.benchmark, r.language) == SplitTaskName(r.task) && ',' !in r.metric && r.value != JNull
    decreases |resultFiles|
  {
    if resultFiles != [] {
      var n := |resultFiles| - 1;
      ModelRowsAreTheModels(model, resultFiles[..n], loads);
      ParsedRecordsAreWellFormed(resultFiles[n].content, model, loads);
    }
  }

  /**
    The task a sample file is filed under: none when its timestamp is not one
    of the model's result timestamps, or when its name does not match the
    task-key pattern.
   */
  function AcceptedTask(f: FileEntry, stamps: set<string>): Option<string>
  {
    if SampleTimestamp(f.name) !in stamps then None else TaskKeyOf(f.name)
  }

  /** The samples stored under `key`, reading a missing key as an empty list. */
  function Lookup(index: SampleIndex, key: SampleKey): seq<Json>
  {
    if key in index then index[key] else []
  }

  /** `all_samples.setdefault(key, []).extend(samples)` */
  function Extend(index: SampleIndex, key: SampleKey, samples: seq<Json>): SampleIndex
  {
    index[key := Lookup(index, key) + samples]
  }

  /** What one sample file does to the index: the task it is filed under and its samples, or nothing. */
  type Filing = Option<(string, seq<Json>)>

  function FilingOf(f: FileEntry, stamps: set<string>, loads: Loader): Filing
  {
    match AcceptedTask(f, stamps)
    case None => None
    case Some(task) => Some((task, ParseSamples(f.name, f.content, loads)))
  }

  function Filings(sampleFiles: seq<FileEntry>, stamps: set<string>, loads: Loader): (filings: seq<Filing>)
    ensures |filings| == |sampleFiles|
    ensures forall i :: 0 <= i < |sampleFiles| ==> filings[i] == FilingOf(sampleFiles[i], stamps, loads)
  {
    seq(|sampleFiles|, i requires 0 <= i < |sampleFiles| => FilingOf(sampleFiles[i], stamps, loads))
  }

  /** The index after the given filings of one model's sample files, in file order. */
  function FileAll(model: string, filings: seq<Filing>, index: SampleIndex): SampleIndex
    decreases |filings|
  {
    if filings == [] then index
    else
      var n := |filings| - 1;
      var before := FileAll(model, filings[..n], index);
      match filings[n]
      case None => before
      case Some((task, samples)) => Extend(before, (model, task), samples)
  }

  /** One more filing either leaves the index as it was or extends it under its task. */
  lemma FileAllStep(model: string, filings: seq<Filing>, index: SampleIndex, i: nat)
    requires i < |filings|
    ensures filings[i].None? ==> FileAll(model, filings[..i + 1], index) == FileAll(model, filings[..i], index)
    ensures filings[i].Some? ==>
              FileAll(model, filings[..i + 1], index) ==
              Extend(FileAll(model, filings[..i], index), (model, filings[i].value.0), filings[i].value.1)
  {
    assert filings[..i + 1][..i] == filings[..i];
  }

  /** `all_samples` after the loop over one model's sample files. */
  function IndexSamples(model: string, sampleFiles: seq<FileEntry>, stamps: set<string>, index: SampleIndex, loads: Loader): SampleIndex
  {
    FileAll(model, Filings(sampleFiles, stamps, loads), index)
  }

  /** The samples filed under `task`, in file order. */
  function FiledUnder(task: string, filings: seq<Filing>): seq<Json>
    decreases |filings|
  {
    if filings == [] then []
    else
      var n := |filings| - 1;
      FiledUnder(task, filings[..n]) +
        (if filings[n].Some? && filings[n].value.0 == task then filings[n].value.1 else [])
  }

  /** Some filing files a sample list under `task`. */
  predicate FilesTask(filings: seq<Filing>, task: string)
  {
    exists i :: 0 <= i < |filings| && filings[i].Some? && filings[i].value.0 == task
  }

  /** Extending under one key appends there and leaves every other key as it was. */
  lemma ExtendAppends(index: SampleIndex, key: SampleKey, samples: seq<Json>)
    ensures Lookup(Extend(index, key, samples), key) == Lookup(index, key) + samples
    ensures forall other: SampleKey :: other != key ==> Lookup(Extend(index, key, samples), other) == Lookup(index, other)
    ensures forall other: SampleKey :: other in Extend(index, key, samples) <==> other in index || other == key
  {
  }

  lemma {:induction false} FileAllAccumulates(model: string, filings: seq<Filing>, index: SampleIndex)
    ensures forall key: SampleKey :: Lookup(FileAll(model, filings, index), key) ==
              Lookup(index, key) + (if key.0 == model then FiledUnder(key.1, filings) else [])
    decreases |filings|
  {
    if filings != [] {
      var n := |filings| - 1;
      var prefix := filings[..n];
      var before := FileAll(model, prefix, index);
      FileAllAccumulates(model, prefix, index);
      forall key: SampleKey
        ensures Lookup(FileAll(model, filings, index), key) ==
                Lookup(index, key) + (if key.0 == model then FiledUnder(key.1, filings) else [])
      {
        var earlier := if key.0 == model then FiledUnder(key.1, prefix) else [];
        var added := if key.0 == model && filings[n].Some? && filings[n].value.0 == key.1 then filings[n].value.1 else [];
        assert (if key.0 == model then FiledUnder(key.1, filings) else []) == earlier + added;
        AppendAssociative(Lookup(index, key), earlier, added);
        match filings[n]
        case None =>
          assert Lookup(index, key) + earlier + added == Lookup(before, key);
        case Some((task, samples)) =>
          ExtendAppends(before, (model, task), samples);
      }
    }
  }

  lemma {:induction false} FileAllKeys(model: string, filings: seq<Filing>, index: SampleIndex)
    ensures forall key: SampleKey :: key in FileAll(model, filings, index) <==>
              key in index || (key.0 == model && FilesTask(filings, key.1))
    decreases |filings|
  {
    if filings != [] {
      var n := |filings| - 1;
      var prefix := filings[..n];
      var before := FileAll(model, prefix, index);
      FileAllKeys(model, prefix, index);
      assert forall i :: 0 <= i < n ==> prefix[i] == filings[i];
      forall task | FilesTask(filings, task) && !(filings[n].Some? && filings[n].value.0 == task)
        ensures FilesTask(prefix, task)
      {
        var i :| 0 <= i < |filings| && filings[i].Some? && filings[i].value.0 == task;
        assert prefix[i] == filings[i];
      }
      match filings[n]
      case None =>
        assert FileAll(model, filings, index) == before;
      case Some((task, samples)) =>
        assert FileAll(model, filings, index) == Extend(before, (model, task), samples);
        ExtendAppends(before, (model, task), samples);
    }
  }

  /** A filing that files nothing can be dropped. */
  lemma {:induction false} FileAllSkipsNothing(model: string, before: seq<Filing>, after: seq<Filing>, index: SampleIndex)
    ensures FileAll(model, before + [None] + after, index) == FileAll(model, before + after, index)
    decreases |after|
  {
    if after == [] {
      assert (before + [None] + after)[..|before|] == before;
      assert before + after == before;
    } else {
      var n := |after| - 1;
      FileAllSkipsNothing(model, before, after[..n], index);
      assert (before + [None] + after)[..|before| + 1 + n] == before + [None] + after[..n];
      assert (before + after)[..|before| + n] == before + after[..n];
    }
  }

  /**
    Samples accumulate: under every key of this model the index ends with the
    samples of every file filed there, in file order, after what it already
    held; keys of other models are untouched; and a key is present exactly
    when it was before or some file was filed under it (even one that gave no
    samples, as `setdefault` inserts the key first).
   */
  lemma SamplesAccumulate(model: string, sampleFiles: seq<FileEntry>, stamps: set<string>, index: SampleIndex, loads: Loader)
    ensures var filings := Filings(sampleFiles, stamps, loads);
      forall key: SampleKey :: Lookup(IndexSamples(model, sampleFiles, stamps, index, loads), key) ==
        Lookup(index, key) + (if key.0 == model then FiledUnder(key.1, filings) else [])
    ensures forall key: SampleKey :: key in IndexSamples(model, sampleFiles, stamps, index, loads) <==>
              key in index ||
              (key.0 == model && exists i :: 0 <= i < |sampleFiles| && AcceptedTask(sampleFiles[i], stamps) == Some(key.1))
  {
    var filings := Filings(sampleFiles, stamps, loads);
    FileAllAccumulates(model, filings, index);
    FileAllKeys(model, filings, index);
    forall task ensures FilesTask(filings, task) <==>
      exists i :: 0 <= i < |sampleFiles| && AcceptedTask(sampleFiles[i], stamps) == Some(task)
    {
      if FilesTask(filings, task) {
        var i :| 0 <= i < |filings| && filings[i].Some? && filings[i].value.0 == task;
        assert AcceptedTask(sampleFiles[i], stamps) == Some(task);
      }
      if exists i :: 0 <= i < |sampleFiles| && AcceptedTask(sampleFiles[i], stamps) == Some(task) {
        var i :| 0 <= i < |sampleFiles| && AcceptedTask(sampleFiles[i], stamps) == Some(task);
        assert filings[i].Some? && filings[i].value.0 == task;
      }
    }
  }

  lemma FilingsAppend(xs: seq<FileEntry>, ys: seq<FileEntry>, stamps: set<string>, loads: Loader)
    ensures Filings(xs + ys, stamps, loads) == Filings(xs, stamps, loads) + Filings(ys, stamps, loads)
  {
    var all := xs + ys;
    assert forall i :: 0 <= i < |xs| ==> all[i] == xs[i];
    assert forall i :: 0 <= i < |ys| ==> all[|xs| + i] == ys[i];
  }

  lemma FilingOfSkipped(f: FileEntry, stamps: set<string>, loads: Loader)
    requires SampleTimestamp(f.name) !in stamps || TaskKeyOf(f.name).None?
    ensures Filings([f], stamps, loads) == [None]
  {
    assert AcceptedTask(f, stamps).None?;
  }

  /**
    A sample file whose timestamp matches no result file, or whose name does
    not match the task-key pattern, contributes nothing: the index is what it
    would be without that file.
   */
  lemma SkippedSampleFileContributesNothing(
    model: string, before: seq<FileEntry>, f: FileEntry, after: seq<FileEntry>,
    stamps: set<string>, index: SampleIndex, loads: Loader)
    requires SampleTimestamp(f.name) !in stamps || TaskKeyOf(f.name).None?
    ensures IndexSamples(model, before + [f] + after, stamps, index, loads) ==
            IndexSamples(model, before + after, stamps, index, loads)
  {
    var fb, fa := Filings(before, stamps, loads), Filings(after, stamps, loads);
    FilingOfSkipped(f, stamps, loads);
    FilingsAppend(before, [f], stamps, loads);
    FilingsAppend(before + [f], after, stamps, loads);
    FilingsAppend(before, after, stamps, loads);
    FileAllSkipsNothing(model, fb, fa, index);
  }

  // ---------------------------------------------------------------------------
  // load_data_from_root

  /** `(df, all_samples)`, with the table as its list of records. */
  datatype Loaded = Loaded(rows: seq<MetricRecord>, samples: SampleIndex)

  /** One pass of the loop over the root's entries: a directory adds its model's records and samples, anything else is skipped. */
  function LoadModel(acc: Loaded, sub: DirEntry, loads: Loader): Loaded
  {
    if !sub.isDir then acc
    else
      var resultFiles := Glob(sub.files, "results_", ".json");
      var sampleFiles := Glob(sub.files, "samples_", ".jsonl");
      Loaded(acc.rows + ModelRows(sub.name, resultFiles, loads),
             IndexSamples(sub.name, sampleFiles, ResultStamps(resultFiles), acc.samples, loads))
  }

  /** The table and the index after visiting the given entries in order. */
  function Scan(subs: seq<DirEntry>, loads: Loader): Loaded
    decreases |subs|
  {
    if subs == [] then Loaded([], map[])
    else LoadModel(Scan(subs[..|subs| - 1], loads), subs[|subs| - 1], loads)
  }

  /** What load_data_from_root returns: nothing for a root that is not a directory, else the scan of its entries sorted by name. */
  function LoadFromRoot(root: Root, loads: Loader): Loaded
  {
    match root
    case NotADirectory => Loaded([], map[])
    case Directory(entries) => Scan(SortBy(entries, EntryName), loads)
  }

  /** The directory entries, in order. */
  function Directories(subs: seq<DirEntry>): seq<DirEntry>
    decreases |subs|
  {
    if subs == [] then []
    else
      var n := |subs| - 1;
      Directories(subs[..n]) + (if subs[n].isDir then [subs[n]] else [])
  }

  /** Entries that are not directories play no part: the scan is the scan of the directories alone. */
  lemma {:induction false} ScanSkipsNonDirectories(subs: seq<DirEntry>, loads: Loader)
    ensures Scan(subs, loads) == Scan(Directories(subs), loads)
    decreases |subs|
  {
    if subs != [] {
      var n := |subs| - 1;
      ScanSkipsNonDirectories(subs[..n], loads);
      if subs[n].isDir {
        var dirs := Directories(subs[..n]) + [subs[n]];
        assert dirs[..|dirs| - 1] == Directories(subs[..n]);
      } else {
        assert Directories(subs) == Directories(subs[..n]) + [];
        assert Directories(subs[..n]) + [] == Directories(subs[..n]);
      }
    }
  }

  /** Every record of the table comes from a directory entry named after its model. */
  lemma {:induction false} RowsComeFromModelDirectories(subs: seq<DirEntry>, loads: Loader)
    ensures forall r :: r in Scan(subs, loads).rows ==>
              (exists e :: e in subs && e.isDir && e.name == r.model) &&
              (r.benchmark, r.language) == SplitTaskName(r.task) && ',' !in r.metric && r.value != JNull
    decreases |subs|
  {
    if subs != [] {
      var n := |subs| - 1;
      var sub := subs[n];
      RowsComeFromModelDirectories(subs[..n], loads);
      forall r | r in Scan(subs, loads).rows
        ensures (exists e :: e in subs && e.isDir && e.name == r.model) &&
                (r.benchmark, r.language) == SplitTaskName(r.task) && ',' !in r.metric && r.value != JNull
      {
        if r in Scan(subs[..n], loads).rows {
          var e :| e in subs[..n] && e.isDir && e.name == r.model;
          assert e in subs;
        } else {
          ModelRowsAreTheModels(sub.name, Glob(sub.files, "results_", ".json"), loads);
          assert sub in subs;
        }
      }
    }
  }

  /** Every key of the sample index names a directory entry as its model. */
  lemma {:induction false} SampleKeysComeFromModelDirectories(subs: seq<DirEntry>, loads: Loader)
    ensures forall key :: key in Scan(subs, loads).samples ==> exists e :: e in subs && e.isDir && e.name == key.0
    decreases |subs|
  {
    if subs != [] {
      var n := |subs| - 1;
      var sub := subs[n];
      var before := Scan(subs[..n], loads);
      SampleKeysComeFromModelDirectories(subs[..n], loads);
      if sub.isDir {
        var resultFiles := Glob(sub.files, "results_", ".json");
        SamplesAccumulate(sub.name, Glob(sub.files, "samples_", ".jsonl"), ResultStamps(resultFiles), before.samples, loads);
      }
      forall key | key in Scan(subs, loads).samples ensures exists e :: e in subs && e.isDir && e.name == key.0 {
        if key in before.samples {
          var e :| e in subs[..n] && e.isDir && e.name == key.0;
          assert e in subs;
        } else {
          assert sub in subs;
        }
      }
    }
  }

  /**
    Whatever load_data_from_root returns is about the root's own model
    directories: every record names one as its model and is well formed, and
    every sample key names one as its model.
   */
  lemma LoadedComesFromRoot(root: Root, loads: Loader)
    ensures forall r :: r in LoadFromRoot(root, loads).rows ==>
              root.Directory? && (exists e :: e in root.entries && e.isDir && e.name == r.model) &&
              (r.benchmark, r.language) == SplitTaskName(r.task) && ',' !in r.metric && r.value != JNull
    ensures forall key :: key in LoadFromRoot(root, loads).samples ==>
              root.Directory? && exists e :: e in root.entries && e.isDir && e.name == key.0
  {
    if root.Directory? {
      var subs := SortBy(root.entries, EntryName);
      SortByPermutes(root.entries, EntryName);
      RowsComeFromModelDirectories(subs, loads);
      SampleKeysComeFromModelDirectories(subs, loads);
      assert forall e :: e in subs ==> e in root.entries by {
        forall e | e in subs ensures e in root.entries {
          assert e in multiset(subs);
        }
      }
    }
  }

  /**
    The loop over one model's result files: extends the table with each
    file's records and collects each file's timestamp.
   */
  method GatherResults(model: string, resultFiles: seq<FileEntry>, loads: Loader, rows0: seq<MetricRecord>)
    returns (rows: seq<MetricRecord>, stamps: set<string>)
    ensures rows == rows0 + ModelRows(model, resultFiles, loads)
    ensures stamps == ResultStamps(resultFiles)
  {
    rows := rows0;
    stamps := {};
    var i := 0;
    while i < |resultFiles|
      invariant 0 <= i <= |resultFiles|
      invariant rows == rows0 + ModelRows(model, resultFiles[..i], loads)
      invariant stamps == ResultStamps(resultFiles[..i])
    {
      var rf := resultFiles[i];
      var timeStamp := ResultTimestamp(rf.name);
      var parsed := ParseResultsFile(rf.content, model, loads);
      GatherResultsStep(model, resultFiles, loads, i);
      AppendAssociative(rows0, ModelRows(model, resultFiles[..i], loads), parsed);
      rows := rows + parsed;
      stamps := stamps + {timeStamp};
      i := i + 1;
    }
    assert resultFiles[..i] == resultFiles;
  }

  /** One step of the loop over result files, on the specification side. */
  lemma GatherResultsStep(model: string, resultFiles: seq<FileEntry>, loads: Loader, i: nat)
    requires i < |resultFiles|
    ensures ModelRows(model, resultFiles[..i + 1], loads) ==
            ModelRows(model, resultFiles[..i], loads) + ParseResults(resultFiles[i].content, model, loads)
    ensures ResultStamps(resultFiles[..i + 1]) == ResultStamps(resultFiles[..i]) + {ResultTimestamp(resultFiles[i].name)}
  {
    PrefixSnoc(resultFiles, i);
    ResultStampsSnoc(resultFiles[..i], resultFiles[i]);
    assert resultFiles[..i + 1][..i] == resultFiles[..i];
  }

  /**
    The loop over one model's sample files: a file whose timestamp is among
    the model's result timestamps and whose name yields a task key has its
    samples appended under `(model, task key)`.
   */
  method GatherSamples(model: string, sampleFiles: seq<FileEntry>, stamps: set<string>, samples0: SampleIndex, loads: Loader)
    returns (samples: SampleIndex)
    ensures samples == IndexSamples(model, sampleFiles, stamps, samples0, loads)
  {
    samples := samples0;
    ghost var filings := Filings(sampleFiles, stamps, loads);
    var i := 0;
    while i < |sampleFiles|
      invariant 0 <= i <= |sampleFiles|
      invariant samples == FileAll(model, filings[..i], samples0)
    {
      var sf := sampleFiles[i];
      FileAllStep(model, filings, samples0, i);
      var timestamp := SampleTimestamp(sf.name);
      if timestamp !in stamps {
        assert filings[i] == None;
        i := i + 1;
        continue;
      }
      var taskKey := TaskKeyOf(sf.name);
      if taskKey.Some? {
        var key := (model, taskKey.value);
        var parsed := ParseSamplesFile(sf.name, sf.content, loads);
        assert filings[i] == Some((taskKey.value, parsed));
        samples := samples[key := (if key in samples then samples[key] else []) + parsed];
      } else {
        assert filings[i] == None;
      }
      i := i + 1;
    }
    assert filings[..i] == filings;
  }

  /**
    load_data_from_root: nothing for a root that is not a directory;
    otherwise the entries in name order, each directory read as one model.
   */
  method LoadDataFromRoot(root: Root, loads: Loader) returns (rows: seq<MetricRecord>, samples: SampleIndex)
    ensures Loaded(rows, samples) == LoadFromRoot(root, loads)
    ensures root.NotADirectory? ==> rows == [] && samples == map[]
  {
    rows := [];
    samples := map[];
    if root.NotADirectory? {
      return;
    }
    var subs := SortBy(root.entries, EntryName);
    var i := 0;
    while i < |subs|
      invariant 0 <= i <= |subs|
      invariant Loaded(rows, samples) == Scan(subs[..i], loads)
    {
      var sub := subs[i];
      assert subs[..i + 1][..i] == subs[..i];
      if sub.isDir {
        var modelName := sub.name;
        var resultFiles := Glob(sub.files, "results_", ".json");
        var timestampsToConsider;
        rows, timestampsToConsider := GatherResults(modelName, resultFiles, loads, rows);
        var sampleFiles := Glob(sub.files, "samples_", ".jsonl");
        samples := GatherSamples(modelName, sampleFiles, timestampsToConsider, samples, loads);
      }
      i := i + 1;
    }
    assert subs[..i] == subs;
  }

  /** What load_data_results returns: a pair `(DataFrame(), {})` for a bad root, a bare table otherwise. */
  datatype ResultsReturn = EmptyPair | Table(rows: seq<MetricRecord>)

  /** load_data_results: the same scan without the samples; the table is the one load_data_from_root builds. */
  method LoadDataResults(root: Root, loads: Loader) returns (r: ResultsReturn)
    ensures root.NotADirectory? ==> r == EmptyPair
    ensures root.Directory? ==> r == Table(LoadFromRoot(root, loads).rows)
  {
    if root.NotADirectory? {
      return EmptyPair;
    }
    var rows := [];
    var subs := SortBy(root.entries, EntryName);
    var i := 0;
    while i < |subs|
      invariant 0 <= i <= |subs|
      invariant rows == Scan(subs[..i], loads).rows
    {
      var sub := subs[i];
      assert subs[..i + 1][..i] == subs[..i];
      if sub.isDir {
        var resultFiles := Glob(sub.files, "results_", ".json");
        var timestampsToConsider;
        rows, timestampsToConsider := GatherResults(sub.name, resultFiles, loads, rows);
      }
      i := i + 1;
    }
    assert subs[..i] == subs;
    return Table(rows);
  }

  // ---------------------------------------------------------------------------
  // load_data_samples

  /** The first directory entry named `name`. */
  function FindDirectory(entries: seq<DirEntry>, name: string): Option<DirEntry>
    decreases |entries|
  {
    if entries == [] then None
    else if entries[0].isDir && entries[0].name == name then Some(entries[0])
    else FindDirectory(entries[1..], name)
  }

  lemma {:induction false} FindDirectoryFinds(entries: seq<DirEntry>, name: string)
    ensures FindDirectory(entries, name).Some? ==>
              var e := FindDirectory(entries, name).value; e in entries && e.isDir && e.name == name
    ensures FindDirectory(entries, name).None? ==> forall e :: e in entries ==> !(e.isDir && e.name == name)
    decreases |entries|
  {
    if entries != [] && !(entries[0].isDir && entries[0].name == name) {
      FindDirectoryFinds(entries[1..], name);
      assert entries == [entries[0]] + entries[1..];
    }
  }

  /** `Path(os.path.join(root_path, model_name))` when it is a directory. */
  function ModelDirectory(root: Root, model: string): Option<DirEntry>
  {
    match root
    case NotADirectory => None
    case Directory(entries) => FindDirectory(entries, model)
  }

  /** The fixed prefix of the glob `samples_{benchmark}_{language}_*.jsonl`. */
  function SamplePrefix(benchmark: string, language: string): string
  {
    "samples_" + benchmark + "_" + language + "_"
  }

  /** `f` is a sample file of the glob whose name no other match exceeds. */
  ghost predicate IsLatestSampleFile(files: seq<FileEntry>, prefix: string, f: FileEntry)
  {
    f in files && GlobMatch(f.name, prefix, ".jsonl") &&
    forall g :: g in files && GlobMatch(g.name, prefix, ".jsonl") ==> StrLeq(g.name, f.name)
  }

  /**
    load_data_samples: [] when the model directory is missing or no file
    matches; otherwise the samples of the matching file with the greatest
    name, unchanged ([] when it yields none).
   */
  method LoadDataSamples(root: Root, model: string, benchmark: string, language: string, loads: Loader)
    returns (samples: seq<Json>)
    ensures ModelDirectory(root, model).None? ==> samples == []
    ensures ModelDirectory(root, model).Some? ==>
              var files := ModelDirectory(root, model).value.files;
              var prefix := SamplePrefix(benchmark, language);
              ((forall g :: g in files ==> !GlobMatch(g.name, prefix, ".jsonl")) ==> samples == []) &&
              ((exists g :: g in files && GlobMatch(g.name, prefix, ".jsonl")) ==>
                 exists f :: IsLatestSampleFile(files, prefix, f) && samples == ParseSamples(f.name, f.content, loads))
  {
    var modelResultsBase := ModelDirectory(root, model);
    if modelResultsBase.None? {
      return [];
    }
    var files := modelResultsBase.value.files;
    var prefix := SamplePrefix(benchmark, language);
    var sampleFiles := Glob(files, prefix, ".jsonl");
    GlobSelectsMatches(files, prefix, ".jsonl");
    if sampleFiles == [] {
      return [];
    }
    var sortedFiles := SortBy(sampleFiles, FileName);
    LastOfSortIsGreatest(sampleFiles, FileName);
    var latestFile := sortedFiles[|sortedFiles| - 1];
    assert IsLatestSampleFile(files, prefix, latestFile);
    samples := ParseSamplesFile(latestFile.name, latestFile.content, loads);
    if samples == [] {
      return [];
    }
  }
}
