/** The training records both trainers share: one `EmailSample` per JSON
    entry, and `build_dataset`, which formats every sample and numbers the
    labels in sorted order. */
module Samples {
  import opened Wrappers
  import opened Strings
  import opened Sorting
  import opened Dicts
  import opened Paths

  /** One training e-mail with its category label. */
  datatype EmailSample = EmailSample(
    subject: string, body: string, labelName: string,
    sender: string, to: string, cc: string,
    massMail: bool, attachmentTypes: seq<string>)

  /** The dataclass constructor with only the required fields: empty
      headers, no mass mail, no attachments. */
  function NewSample(subject: string, body: string, labelName: string): (s: EmailSample)
    ensures s.subject == subject && s.body == body && s.labelName == labelName
    ensures s.sender == "" && s.to == "" && s.cc == ""
    ensures !s.massMail && s.attachmentTypes == []
  {
    EmailSample(subject, body, labelName, "", "", "", false, [])
  }

  /** One object of a training file: each key may be missing. */
  datatype Entry = Entry(
    subject: Option<string>, body: Option<string>, sender: Option<string>,
    to: Option<string>, cc: Option<string>,
    massMail: Option<bool>, attachmentTypes: Option<seq<string>>)

  const EMPTY_ENTRY: Entry := Entry(None, None, None, None, None, None, None)

  /** The sample built from an entry with `entry.get(key, default)`: a
      missing key gives "" for the texts, False for the mass-mail flag and
      [] for the attachment types. */
  function FromEntry(e: Entry, labelName: string): (s: EmailSample)
    ensures s.labelName == labelName
  {
    EmailSample(e.subject.GetOr(""), e.body.GetOr(""), labelName,
                e.sender.GetOr(""), e.to.GetOr(""), e.cc.GetOr(""),
                e.massMail.GetOr(false), e.attachmentTypes.GetOr([]))
  }

  /** The entry a sample would be written as, every key present. */
  function ToEntry(s: EmailSample): (e: Entry)
    ensures e.subject.Some? && e.body.Some? && e.sender.Some? && e.to.Some?
    ensures e.cc.Some? && e.massMail.Some? && e.attachmentTypes.Some?
  {
    Entry(Some(s.subject), Some(s.body), Some(s.sender), Some(s.to), Some(s.cc),
          Some(s.massMail), Some(s.attachmentTypes))
  }

  /** An entry with every key present loads back into the sample it came
      from. */
  lemma FromToEntry(s: EmailSample)
    ensures FromEntry(ToEntry(s), s.labelName) == s
  {
  }

  /** An entry with no keys at all gives the dataclass defaults. */
  lemma EmptyEntryDefaults(labelName: string)
    ensures FromEntry(EMPTY_ENTRY, labelName) == NewSample("", "", labelName)
  {
  }

  /** A key written out with its default value is the same as a missing
      key. */
  lemma DefaultsAreMissingKeys(labelName: string)
    ensures FromEntry(Entry(Some(""), Some(""), Some(""), Some(""), Some(""), Some(false), Some([])), labelName)
         == FromEntry(EMPTY_ENTRY, labelName)
  {
  }

  /** The samples of one file's entries, in entry order. */
  function EntrySamples(entries: seq<Entry>, labelName: string): (r: seq<EmailSample>)
    ensures |r| == |entries|
    ensures forall i :: 0 <= i < |r| ==> r[i] == FromEntry(entries[i], labelName)
  {
    if entries == [] then []
    else EntrySamples(entries[..|entries| - 1], labelName) + [FromEntry(entries[|entries| - 1], labelName)]
  }

  /** A training file as listed in its directory, with its parsed JSON
      array. */
  datatype JsonFile = JsonFile(name: string, entries: seq<Entry>)

  function FileName(f: JsonFile): string { f.name }

  predicate IsJsonName(name: string) {
    EndsWith(name, ".json")
  }

  /** The label of a file at `rel`/`name` below the data directory: that
      relative path without its last extension. With POSIX separators the
      `replace(os.sep, '/')` changes nothing. */
  function FileLabel(rel: string, name: string): (r: string)
    ensures StartsWith(JoinPath(rel, name), r)
  {
    var p := JoinPath(rel, name);
    var r := SplitExt(p).0;
    assert p[..|r|] == r;
    r
  }

  /** The samples of the files of one directory, taken in the given order:
      the ".json" files contribute their entries in order, other files
      nothing. */
  function CollectFiles(rel: string, files: seq<JsonFile>): (r: seq<EmailSample>)
  {
    if files == [] then []
    else
      var f := files[|files| - 1];
      CollectFiles(rel, files[..|files| - 1]) + FileSamples(rel, f)
  }

  /** The samples one file adds. */
  function FileSamples(rel: string, f: JsonFile): seq<EmailSample> {
    if IsJsonName(f.name) then EntrySamples(f.entries, FileLabel(rel, f.name)) else []
  }

  lemma CollectStep(rel: string, files: seq<JsonFile>, i: nat)
    requires i < |files|
    ensures CollectFiles(rel, files[..i + 1]) == CollectFiles(rel, files[..i]) + FileSamples(rel, files[i])
  {
    assert files[..i + 1][..i] == files[..i];
  }

  lemma EntryStep(entries: seq<Entry>, labelName: string, j: nat)
    requires j < |entries|
    ensures EntrySamples(entries[..j + 1], labelName) == EntrySamples(entries[..j], labelName) + [FromEntry(entries[j], labelName)]
  {
    assert entries[..j + 1][..j] == entries[..j];
  }

  /** The inner loops of both loaders: the directory's files in sorted name
      order, skipping those not named ".json", appending one sample per
      entry. */
  method CollectDir(rel: string, files: seq<JsonFile>) returns (samples: seq<EmailSample>)
    ensures samples == CollectFiles(rel, SortBy(files, FileName))
  {
    samples := CollectInOrder(rel, SortBy(files, FileName));
  }

  /** The loop over the sorted files. */
  method CollectInOrder(rel: string, sorted: seq<JsonFile>) returns (samples: seq<EmailSample>)
    ensures samples == CollectFiles(rel, sorted)
  {
    samples := [];
    for i := 0 to |sorted|
      invariant samples == CollectFiles(rel, sorted[..i])
    {
      var f := sorted[i];
      CollectStep(rel, sorted, i);
      if !IsJsonName(f.name) {
        continue;
      }
      samples := AppendEntries(samples, f.entries, FileLabel(rel, f.name));
    }
    assert sorted[..|sorted|] == sorted;
  }

  /** The loop over one file's entries, appending a sample for each. */
  method AppendEntries(prefix: seq<EmailSample>, entries: seq<Entry>, labelName: string)
    returns (samples: seq<EmailSample>)
    ensures samples == prefix + EntrySamples(entries, labelName)
  {
    samples := prefix;
    for j := 0 to |entries|
      invariant samples == prefix + EntrySamples(entries[..j], labelName)
    {
      EntryStep(entries, labelName, j);
      samples := samples + [FromEntry(entries[j], labelName)];
    }
    assert entries[..|entries|] == entries;
  }

  /** Files not named ".json" contribute nothing. */
  lemma {:induction false} CollectSkipsOthers(rel: string, files: seq<JsonFile>, other: JsonFile)
    requires !IsJsonName(other.name)
    ensures CollectFiles(rel, files + [other]) == CollectFiles(rel, files)
  {
    assert (files + [other])[..|files|] == files;
  }

  /** `s` carries the label of one of the ".json" files of `files`. */
  ghost predicate LabelledAfterFile(rel: string, files: seq<JsonFile>, s: EmailSample) {
    exists k :: 0 <= k < |files| && IsJsonName(files[k].name) && s.labelName == FileLabel(rel, files[k].name)
  }

  /** Every collected sample is labelled after a ".json" file of the
      directory. */
  lemma {:induction false} CollectedLabels(rel: string, files: seq<JsonFile>)
    ensures forall i :: 0 <= i < |CollectFiles(rel, files)| ==>
              LabelledAfterFile(rel, files, CollectFiles(rel, files)[i])
  {
    if files != [] {
      var init := files[..|files| - 1];
      var last := files[|files| - 1];
      var c := CollectFiles(rel, files);
      var ci := CollectFiles(rel, init);
      CollectedLabels(rel, init);
      assert c == ci + FileSamples(rel, last);
      forall i | 0 <= i < |c| ensures LabelledAfterFile(rel, files, c[i]) {
        if i < |ci| {
          assert c[i] == ci[i];
          LabelledAfterPrefix(rel, init, files, ci[i]);
        } else {
          LabelledAfterLast(rel, files, i - |ci|);
          assert c[i] == FileSamples(rel, last)[i - |ci|];
        }
      }
    }
  }

  /** A sample labelled after a file of a prefix is labelled after a file of
      the whole listing. */
  lemma LabelledAfterPrefix(rel: string, init: seq<JsonFile>, files: seq<JsonFile>, s: EmailSample)
    requires |init| <= |files| && files[..|init|] == init
    requires LabelledAfterFile(rel, init, s)
    ensures LabelledAfterFile(rel, files, s)
  {
    var k :| 0 <= k < |init| && IsJsonName(init[k].name) && s.labelName == FileLabel(rel, init[k].name);
    assert files[k] == init[k];
  }

  /** The samples the last file adds are labelled after it. */
  lemma LabelledAfterLast(rel: string, files: seq<JsonFile>, j: nat)
    requires files != [] && j < |FileSamples(rel, files[|files| - 1])|
    ensures LabelledAfterFile(rel, files, FileSamples(rel, files[|files| - 1])[j])
  {
    var k := |files| - 1;
    assert IsJsonName(files[k].name);
    assert FileSamples(rel, files[k])[j].labelName == FileLabel(rel, files[k].name);
  }

  /** No ".json" file of the listing has an entry. */
  ghost predicate NoJsonEntries(files: seq<JsonFile>) {
    forall f :: f in files && IsJsonName(f.name) ==> f.entries == []
  }

  /** A run of files yields no sample exactly when none of its ".json"
      files has an entry. */
  lemma {:induction false} CollectFilesEmpty(rel: string, files: seq<JsonFile>)
    ensures CollectFiles(rel, files) == [] <==> NoJsonEntries(files)
  {
    if files != [] {
      var init := files[..|files| - 1];
      var last := files[|files| - 1];
      assert CollectFiles(rel, files) == CollectFiles(rel, init) + FileSamples(rel, last);
      assert CollectFiles(rel, init) == [] <==> NoJsonEntries(init) by {
        CollectFilesEmpty(rel, init);
      }
      assert FileSamples(rel, last) == [] <==> !IsJsonName(last.name) || last.entries == [] by {
        assert |FileSamples(rel, last)| == if IsJsonName(last.name) then |last.entries| else 0;
      }
      assert NoJsonEntries(files) <==> NoJsonEntries(init) && (IsJsonName(last.name) ==> last.entries == []) by {
        SnocMembers(files);
      }
    }
  }

  /** Reordering the files does not change whether a ".json" file has
      entries. */
  lemma NoJsonEntriesReordered(a: seq<JsonFile>, b: seq<JsonFile>)
    requires multiset(a) == multiset(b)
    ensures NoJsonEntries(a) <==> NoJsonEntries(b)
  {
    assert forall f :: f in a <==> f in multiset(a);
    assert forall f :: f in b <==> f in multiset(b);
  }

  /** Concatenating two runs of files concatenates their samples. */
  lemma {:induction false} CollectAppend(rel: string, a: seq<JsonFile>, b: seq<JsonFile>)
    ensures CollectFiles(rel, a + b) == CollectFiles(rel, a) + CollectFiles(rel, b)
  {
    if b != [] {
      var last := b[|b| - 1];
      CollectAppend(rel, a, b[..|b| - 1]);
      assert CollectFiles(rel, a + b) == CollectFiles(rel, a + b[..|b| - 1]) + FileSamples(rel, last) by {
        assert (a + b)[..|a + b| - 1] == a + b[..|b| - 1];
        assert (a + b)[|a + b| - 1] == last;
      }
      assert CollectFiles(rel, b) == CollectFiles(rel, b[..|b| - 1]) + FileSamples(rel, last);
    } else {
      assert a + b == a;
    }
  }

  /** Why loading can fail: `FileNotFoundError` or `ValueError`. */
  datatype LoadError = DirectoryNotFound | NoTrainingData

  /** The formatted texts, in sample order. */
  function Texts(samples: seq<EmailSample>, format: EmailSample -> string): (r: seq<string>)
    ensures |r| == |samples|
    ensures forall i :: 0 <= i < |r| ==> r[i] == format(samples[i])
  {
    seq(|samples|, i requires 0 <= i < |samples| => format(samples[i]))
  }

  function RawLabels(samples: seq<EmailSample>): (r: seq<string>)
    ensures |r| == |samples|
    ensures forall i :: 0 <= i < |r| ==> r[i] == samples[i].labelName
  {
    seq(|samples|, i requires 0 <= i < |samples| => samples[i].labelName)
  }

  /** The pairs of `enumerate(labels)`, label first. */
  function Enumerate(labels: seq<string>): (r: seq<(string, int)>)
    ensures |r| == |labels|
    ensures forall i :: 0 <= i < |r| ==> r[i] == (labels[i], i)
  {
    seq(|labels|, i requires 0 <= i < |labels| => (labels[i], i))
  }

  /** The `(idx, label)` pairs of a dict's items, in item order. */
  function Swapped(d: Dict<string, int>): (r: seq<(int, string)>)
    ensures |r| == |d|
    ensures forall i :: 0 <= i < |r| ==> r[i] == (d[i].1, d[i].0)
  {
    seq(|d|, i requires 0 <= i < |d| => (d[i].1, d[i].0))
  }

  /** `sorted(set(raw_labels))` */
  function UniqueLabels(samples: seq<EmailSample>): (r: seq<string>)
    ensures StrictlySorted(r)
    ensures Elems(r) == Elems(RawLabels(samples))
  {
    SortedSet(RawLabels(samples))
  }

  /** `label_to_index` */
  function LabelToIndex(samples: seq<EmailSample>): Dict<string, int> {
    FromPairs(Enumerate(UniqueLabels(samples)))
  }

  /** `index_to_label`, built from the items of `label_to_index`. */
  function IndexToLabel(samples: seq<EmailSample>): Dict<int, string> {
    FromPairs(Swapped(LabelToIndex(samples)))
  }

  /** The distinct labels give distinct keys, so the comprehension keeps the
      enumeration as it is. */
  lemma LabelToIndexIsEnumeration(samples: seq<EmailSample>)
    ensures LabelToIndex(samples) == Enumerate(UniqueLabels(samples))
  {
    var ul := UniqueLabels(samples);
    var ps := Enumerate(ul);
    forall i, j | 0 <= i < j < |ps| ensures ps[i].0 != ps[j].0 {
      LessAsymmetric(ul[i], ul[j]);
    }
    FromDistinctPairs(ps);
  }

  lemma IndexToLabelIsEnumeration(samples: seq<EmailSample>)
    ensures IndexToLabel(samples) == seq(|UniqueLabels(samples)|, i requires 0 <= i < |UniqueLabels(samples)| => (i, UniqueLabels(samples)[i]))
  {
    LabelToIndexIsEnumeration(samples);
    var ps := Swapped(LabelToIndex(samples));
    FromDistinctPairs(ps);
  }

  /** `label_to_index` numbers the sorted labels 0, 1, ... in order, and
      knows no other label. */
  lemma LabelToIndexNumbers(samples: seq<EmailSample>)
    ensures forall i :: 0 <= i < |UniqueLabels(samples)| ==>
              Get(LabelToIndex(samples), UniqueLabels(samples)[i]) == Some(i)
    ensures forall l :: Get(LabelToIndex(samples), l).Some? <==> l in UniqueLabels(samples)
  {
    var ul := UniqueLabels(samples);
    var d := LabelToIndex(samples);
    LabelToIndexIsEnumeration(samples);
    assert Keys(d) == ul;
    forall i | 0 <= i < |ul| ensures Get(d, ul[i]) == Some(i) {
      GetAt(d, i);
    }
  }

  /** `index_to_label` maps 0 .. n-1 to the sorted labels and nothing
      else. */
  lemma IndexToLabelNumbers(samples: seq<EmailSample>)
    ensures forall i :: 0 <= i < |UniqueLabels(samples)| ==>
              Get(IndexToLabel(samples), i) == Some(UniqueLabels(samples)[i])
    ensures forall j :: Get(IndexToLabel(samples), j).Some? <==> 0 <= j < |UniqueLabels(samples)|
  {
    var ul := UniqueLabels(samples);
    var d := IndexToLabel(samples);
    IndexToLabelIsEnumeration(samples);
    assert forall i :: 0 <= i < |d| ==> d[i] == (i, ul[i]);
    forall i | 0 <= i < |ul| ensures Get(d, i) == Some(ul[i]) {
      GetAt(d, i);
    }
    forall j ensures Get(d, j).Some? <==> 0 <= j < |ul| {
      if 0 <= j < |ul| {
        assert Keys(d)[j] == j;
      }
    }
  }

  /** `index_to_label` is the inverse of `label_to_index`. */
  lemma IndexToLabelInverse(samples: seq<EmailSample>, j: int, l: string)
    ensures Get(IndexToLabel(samples), j) == Some(l) <==> Get(LabelToIndex(samples), l) == Some(j)
  {
    var ul := UniqueLabels(samples);
    LabelToIndexNumbers(samples);
    IndexToLabelNumbers(samples);
    if Get(LabelToIndex(samples), l) == Some(j) {
      var i :| 0 <= i < |ul| && ul[i] == l;
      if i != j {
        assert Get(LabelToIndex(samples), ul[i]) == Some(i);
      }
    }
  }

  /** `label_to_index[lbl]` for each label, which every sample's label has. */
  function IntLabels(samples: seq<EmailSample>): (r: seq<int>)
    ensures |r| == |samples|
  {
    var d := LabelToIndex(samples);
    var raw := RawLabels(samples);
    LabelToIndexNumbers(samples);
    assert forall i :: 0 <= i < |raw| ==> raw[i] in Elems(raw);
    seq(|raw|, i requires 0 <= i < |raw| => Get(d, raw[i]).value)
  }

  /** Every integer label is in range and decodes to its sample's label. */
  lemma IntLabelsDecode(samples: seq<EmailSample>)
    ensures forall i :: 0 <= i < |samples| ==>
              0 <= IntLabels(samples)[i] < |UniqueLabels(samples)|
              && Get(IndexToLabel(samples), IntLabels(samples)[i]) == Some(samples[i].labelName)
  {
    forall i | 0 <= i < |samples|
      ensures 0 <= IntLabels(samples)[i] < |UniqueLabels(samples)|
      ensures Get(IndexToLabel(samples), IntLabels(samples)[i]) == Some(samples[i].labelName)
    {
      IntLabelDecodes(samples, i);
    }
  }

  lemma IntLabelDecodes(samples: seq<EmailSample>, i: nat)
    requires i < |samples|
    ensures 0 <= IntLabels(samples)[i] < |UniqueLabels(samples)|
    ensures Get(IndexToLabel(samples), IntLabels(samples)[i]) == Some(samples[i].labelName)
  {
    var ints := IntLabels(samples);
    LabelToIndexNumbers(samples);
    assert samples[i].labelName == RawLabels(samples)[i];
    IndexToLabelInverse(samples, ints[i], samples[i].labelName);
  }

  /** The mapping's keys are 0 .. n-1 in order and its values the sorted
      distinct labels. */
  lemma IndexToLabelItems(samples: seq<EmailSample>)
    ensures Keys(IndexToLabel(samples)) == seq(|IndexToLabel(samples)|, i requires 0 <= i < |IndexToLabel(samples)| => i)
    ensures Values(IndexToLabel(samples)) == UniqueLabels(samples)
  {
    IndexToLabelIsEnumeration(samples);
  }

  /** The two columns of the Hugging Face dataset. */
  datatype Dataset = Dataset(texts: seq<string>, labels: seq<int>)

  /** `build_dataset`, given the input formatter the trainer imports. Each
      text is the formatted sample; each integer label decodes, through the
      returned mapping, to that sample's label; the mapping numbers the
      distinct labels 0 .. n-1 in sorted order. */
  function BuildDataset(samples: seq<EmailSample>, format: EmailSample -> string)
    : (r: (Dataset, Dict<int, string>))
    ensures |r.0.texts| == |samples| && |r.0.labels| == |samples|
    ensures forall i :: 0 <= i < |samples| ==> r.0.texts[i] == format(samples[i])
    ensures forall i :: 0 <= i < |samples| ==> Get(r.1, r.0.labels[i]) == Some(samples[i].labelName)
    ensures forall i :: 0 <= i < |samples| ==> 0 <= r.0.labels[i] < |Values(r.1)|
    ensures Keys(r.1) == seq(|r.1|, i requires 0 <= i < |r.1| => i)
    ensures StrictlySorted(Values(r.1))
    ensures Elems(Values(r.1)) == Elems(RawLabels(samples))
  {
    IntLabelsDecode(samples);
    IndexToLabelItems(samples);
    (Dataset(Texts(samples, format), IntLabels(samples)), IndexToLabel(samples))
  }
}
