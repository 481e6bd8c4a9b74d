/** The service's trainer: ".json" files anywhere below the data directory,
    labelled by their path relative to it ("WORK/FOCUS.json" is
    "WORK/FOCUS"), plus the label mapping and model information it saves. */
module Train {
  import opened Wrappers
  import opened Strings
  import opened Sorting
  import opened Dicts
  import opened Paths
  import opened Samples
  import Config
  import FlatTrain

  /** One directory of the walk: its path relative to the data directory
      ("" for the data directory itself) and its files. */
  datatype Dir = Dir(rel: string, files: seq<JsonFile>)

  /** The `dirpath` the walk reports for a directory. */
  function DirPath(dataDir: string, rel: string): string {
    if rel == [] then dataDir else dataDir + "/" + rel
  }

  /** `sorted(os.walk(data_dir))`: the directories ordered by their path. */
  function WalkOrder(dataDir: string, dirs: seq<Dir>): (r: seq<Dir>)
    ensures multiset(r) == multiset(dirs)
    ensures SortedBy(r, (d: Dir) => DirPath(dataDir, d.rel))
  {
    SortBy(dirs, (d: Dir) => DirPath(dataDir, d.rel))
  }

  /** The samples of the directories in the given order. */
  function CollectTree(dirs: seq<Dir>): seq<EmailSample> {
    if dirs == [] then []
    else
      var d := dirs[|dirs| - 1];
      CollectTree(dirs[..|dirs| - 1]) + CollectFiles(d.rel, SortBy(d.files, FileName))
  }

  /** What `load_training_data` returns for a walk of the data directory:
      no directory is `FileNotFoundError`, no samples is `ValueError`,
      otherwise the samples of every directory in path order. */
  function LoadSpec(dataDir: string, walk: Option<seq<Dir>>): (r: Result<seq<EmailSample>, LoadError>)
    ensures r.Success? ==> r.value != []
    ensures walk.None? <==> r == Failure(DirectoryNotFound)
    ensures walk.Some? ==> (r == Failure(NoTrainingData) <==> NoJsonEntriesAnywhere(walk.value))
  {
    if walk.None? then Failure(DirectoryNotFound)
    else
      var dirs := WalkOrder(dataDir, walk.value);
      var samples := CollectTree(dirs);
      CollectTreeEmpty(dirs);
      NoJsonEntriesAnywhereReordered(dirs, walk.value);
      if samples == [] then Failure(NoTrainingData) else Success(samples)
  }

  /** No ".json" file in any directory of the walk has an entry. */
  ghost predicate NoJsonEntriesAnywhere(dirs: seq<Dir>) {
    forall d :: d in dirs ==> NoJsonEntries(d.files)
  }

  /** The walk yields no sample exactly when no ".json" file anywhere has an
      entry. */
  lemma {:induction false} CollectTreeEmpty(dirs: seq<Dir>)
    ensures CollectTree(dirs) == [] <==> NoJsonEntriesAnywhere(dirs)
  {
    if dirs != [] {
      var init := dirs[..|dirs| - 1];
      var last := dirs[|dirs| - 1];
      var sorted := SortBy(last.files, FileName);
      assert CollectTree(dirs) == CollectTree(init) + CollectFiles(last.rel, sorted);
      assert CollectTree(init) == [] <==> NoJsonEntriesAnywhere(init) by {
        CollectTreeEmpty(init);
      }
      assert CollectFiles(last.rel, sorted) == [] <==> NoJsonEntries(last.files) by {
        CollectFilesEmpty(last.rel, sorted);
        NoJsonEntriesReordered(sorted, last.files);
      }
      assert NoJsonEntriesAnywhere(dirs) <==> NoJsonEntriesAnywhere(init) && NoJsonEntries(last.files) by {
        SnocMembers(dirs);
      }
    }
  }

  lemma NoJsonEntriesAnywhereReordered(a: seq<Dir>, b: seq<Dir>)
    requires multiset(a) == multiset(b)
    ensures NoJsonEntriesAnywhere(a) <==> NoJsonEntriesAnywhere(b)
  {
    assert forall d :: d in a <==> d in multiset(a);
    assert forall d :: d in b <==> d in multiset(b);
  }

  /** `load_training_data`, with the walk (or the directory's absence) as
      the input in place of the file system. */
  method LoadTrainingData(dataDir: string, walk: Option<seq<Dir>>) returns (r: Result<seq<EmailSample>, LoadError>)
    ensures r == LoadSpec(dataDir, walk)
  {
    if walk.None? {
      return Failure(DirectoryNotFound);
    }
    var dirs := WalkOrder(dataDir, walk.value);
    var samples := [];
    for i := 0 to |dirs|
      invariant samples == CollectTree(dirs[..i])
    {
      CollectTreeStep(dirs, i);
      var more := CollectDir(dirs[i].rel, dirs[i].files);
      samples := samples + more;
    }
    assert dirs[..|dirs|] == dirs;
    if samples == [] {
      return Failure(NoTrainingData);
    }
    return Success(samples);
  }

  lemma CollectTreeStep(dirs: seq<Dir>, i: nat)
    requires i < |dirs|
    ensures CollectTree(dirs[..i + 1]) == CollectTree(dirs[..i]) + CollectFiles(dirs[i].rel, SortBy(dirs[i].files, FileName))
  {
    assert dirs[..i + 1][..i] == dirs[..i];
  }

  /** A data directory without sub-directories loads exactly as the flat
      trainer loads it. */
  lemma AgreesWithFlat(dataDir: string, files: seq<JsonFile>)
    ensures LoadSpec(dataDir, Some([Dir("", files)])) == FlatTrain.LoadSpec(Some(files))
  {
    var d := Dir("", files);
    SortBySingleton(d, (d: Dir) => DirPath(dataDir, d.rel));
    TreeOfOneDir(d);
  }

  lemma TreeOfOneDir(d: Dir)
    ensures CollectTree([d]) == CollectFiles(d.rel, SortBy(d.files, FileName))
  {
    assert [d][..0] == [];
  }

  /** A file below a sub-directory is labelled with the sub-directory path,
      a '/', and the file's name without ".json". */
  lemma NestedLabel(rel: string, stem: string)
    requires rel != [] && '/' !in stem && HasNonDot(stem)
    ensures FileLabel(rel, stem + ".json") == rel + "/" + stem
  {
    var p := rel + "/" + stem;
    assert p + ".json" == JoinPath(rel, stem + ".json");
    LastIndexOfAppend(rel + "/", stem, '/');
    assert LastIndexOf(rel + "/", '/') == |rel|;
    assert p[|rel| + 1..] == stem;
    assert Basename(p) == stem;
    SplitExtJson(p);
  }

  /** Ordering the walk by full path is ordering it by relative path: the
      data directory itself first, sub-directories by their relative
      names. */
  lemma WalkOrderIsRelativeOrder(dataDir: string, a: string, b: string)
    ensures Less(DirPath(dataDir, a), DirPath(dataDir, b)) <==> Less(a, b)
  {
    var pre := dataDir + "/";
    if a != [] && b != [] {
      assert DirPath(dataDir, a) == pre + a && DirPath(dataDir, b) == pre + b;
      LessCommonPrefix(pre, a, b);
    } else if a == [] && b != [] {
      assert DirPath(dataDir, b) == dataDir + ("/" + b);
      LessProperPrefix(dataDir, "/" + b);
    } else if a != [] && b == [] {
      assert DirPath(dataDir, a) == dataDir + ("/" + a);
      LessProperPrefix(dataDir, "/" + a);
      LessAsymmetric(dataDir, dataDir + ("/" + a));
    } else {
      LessIrreflexive(dataDir);
    }
  }

  /** The text the service's trainer formats a sample into. */
  function FormatSample(myEmails: seq<string>, s: EmailSample): string {
    Config.FormatModelInput(myEmails, s.subject, s.body, s.sender, s.to, s.cc, s.massMail, Some(s.attachmentTypes))
  }

  /** The fields of `MODEL_INFO.json` that do not come from git or the
      clock. */
  datatype ModelInfo = ModelInfo(categories: seq<string>, sampleCount: nat)

  /** `categories` is the sorted list of the mapping's values and
      `sample_count` the number of samples trained on. */
  function ModelInfoOf(mapping: Dict<int, string>, sampleCount: nat): (r: ModelInfo)
    ensures r.sampleCount == sampleCount
    ensures multiset(r.categories) == multiset(Values(mapping))
    ensures forall i, j :: 0 <= i < j < |r.categories| ==> LessEq(r.categories[i], r.categories[j])
  {
    ModelInfo(Sort(Values(mapping)), sampleCount)
  }

  /** After training, the categories recorded are exactly the distinct
      labels of the samples, sorted, and the count is the number of
      samples. */
  lemma TrainedModelInfo(myEmails: seq<string>, samples: seq<EmailSample>)
    ensures ModelInfoOf(BuildDataset(samples, s => FormatSample(myEmails, s)).1, |samples|)
         == ModelInfo(UniqueLabels(samples), |samples|)
  {
    IndexToLabelItems(samples);
    SortStrictlySorted(UniqueLabels(samples));
  }

  /** `json.dump` of the mapping: the integer keys become decimal strings,
      the values stay as they are. */
  function DumpLabelMapping(mapping: Dict<int, string>): (r: Dict<string, string>)
    ensures Values(r) == Values(mapping)
    ensures forall i :: 0 <= i < |r| ==> r[i].0 == IntToString(mapping[i].0)
  {
    seq(|mapping|, i requires 0 <= i < |mapping| => (IntToString(mapping[i].0), mapping[i].1))
  }

  /** Every dumped key reads back as the integer it was written from. */
  lemma DumpedKeysParse(mapping: Dict<int, string>)
    ensures forall i :: 0 <= i < |mapping| ==> ParseInt(DumpLabelMapping(mapping)[i].0) == Some(mapping[i].0)
  {
    forall i | 0 <= i < |mapping| ensures ParseInt(DumpLabelMapping(mapping)[i].0) == Some(mapping[i].0) {
      IntStringRoundTrip(mapping[i].0);
    }
  }
}
