/** The single-directory trainer: one ".json" file per category, its name
    without the extension being the label. */
module FlatTrain {
  import opened Wrappers
  import opened Strings
  import opened Sorting
  import opened Dicts
  import opened Paths
  import opened Samples
  import FlatConfig

  /** What `load_training_data` returns for a directory listing: no
      directory is `FileNotFoundError`, no samples is `ValueError`,
      otherwise the samples of the ".json" files in sorted name order. */
  function LoadSpec(listing: Option<seq<JsonFile>>): (r: Result<seq<EmailSample>, LoadError>)
    ensures r.Success? ==> r.value != []
    ensures listing.None? <==> r == Failure(DirectoryNotFound)
    ensures listing.Some? ==> (r == Failure(NoTrainingData) <==> NoJsonEntries(listing.value))
  {
    if listing.None? then Failure(DirectoryNotFound)
    else
      var sorted := SortBy(listing.value, FileName);
      var samples := CollectFiles("", sorted);
      CollectFilesEmpty("", sorted);
      NoJsonEntriesReordered(sorted, listing.value);
      if samples == [] then Failure(NoTrainingData) else Success(samples)
  }

  /** `load_training_data`, with the directory's files (or its absence) as
      the input in place of the file system. */
  method LoadTrainingData(listing: Option<seq<JsonFile>>) returns (r: Result<seq<EmailSample>, LoadError>)
    ensures r == LoadSpec(listing)
  {
    if listing.None? {
      return Failure(DirectoryNotFound);
    }
    var samples := CollectDir("", listing.value);
    if samples == [] {
      return Failure(NoTrainingData);
    }
    return Success(samples);
  }

  /** `s` is labelled after the name of a ".json" file of `files`. */
  ghost predicate NamedAfterJsonFile(files: seq<JsonFile>, s: EmailSample) {
    exists f :: f in files && IsJsonName(f.name) && s.labelName == SplitExt(f.name).0
  }

  /** The label of a loaded sample is the name of a ".json" file of the
      directory without its extension. */
  lemma LoadedLabels(listing: Option<seq<JsonFile>>)
    requires LoadSpec(listing).Success?
    ensures forall i :: 0 <= i < |LoadSpec(listing).value| ==>
              NamedAfterJsonFile(listing.value, LoadSpec(listing).value[i])
  {
    var sorted := SortBy(listing.value, FileName);
    var c := CollectFiles("", sorted);
    CollectedLabels("", sorted);
    assert c == LoadSpec(listing).value;
    forall i | 0 <= i < |c|
      ensures NamedAfterJsonFile(listing.value, c[i])
    {
      NamedAfterSortedFile(listing.value, sorted, c[i]);
    }
  }

  /** Sorting the listing does not change which files a label can come
      from. */
  lemma NamedAfterSortedFile(files: seq<JsonFile>, sorted: seq<JsonFile>, s: EmailSample)
    requires multiset(sorted) == multiset(files)
    requires LabelledAfterFile("", sorted, s)
    ensures NamedAfterJsonFile(files, s)
  {
    var k :| 0 <= k < |sorted| && IsJsonName(sorted[k].name) && s.labelName == FileLabel("", sorted[k].name);
    assert sorted[k] in multiset(sorted);
    assert sorted[k] in files;
    assert JoinPath("", sorted[k].name) == sorted[k].name;
  }

  /** "URGENT.json" gives the label "URGENT". */
  lemma JsonFileLabel(stem: string)
    requires '/' !in stem && HasNonDot(stem)
    ensures FileLabel("", stem + ".json") == stem
  {
    assert LastIndexOf(stem, '/') == -1;
    assert Basename(stem) == stem;
    SplitExtJson(stem);
  }

  /** The text the flat trainer formats a sample into. */
  function FormatSample(s: EmailSample): string {
    FlatConfig.FormatModelInput(s.subject, s.body, s.sender, s.to, s.cc, s.massMail, Some(s.attachmentTypes))
  }

  /** `build_dataset` of the flat trainer. */
  function BuildFlatDataset(samples: seq<EmailSample>): (Dataset, Dict<int, string>) {
    BuildDataset(samples, FormatSample)
  }
}
