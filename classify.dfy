/** The classifier's pure logic: the label mapping read back from the
    trainer's JSON, the lookup of a predicted index with its "UNKNOWN(i)"
    fallback, and the features taken from a raw e-mail (headers, mass-mail
    flag, first plain-text body, attachment types without repeats). */
module Classify {
  import opened Wrappers
  import opened Strings
  import opened Sorting
  import opened Dicts
  import opened Paths
  import opened Samples
  import Config
  import Train

  /** Whether every key reads as an integer under `parse`. */
  ghost predicate ParsedKeys(raw: Dict<string, string>, parse: string -> Option<int>) {
    forall i :: 0 <= i < |raw| ==> parse(raw[i].0).Some?
  }

  /** `{int(k): v for k, v in raw.items()}` pair by pair, with `int` as the
      parameter `parse`; `None` when some key does not parse (Python's
      `ValueError`). */
  function ConvertKeys(raw: Dict<string, string>, parse: string -> Option<int>): (r: Option<seq<(int, string)>>)
    ensures r.Some? ==> |r.value| == |raw|
  {
    if raw == [] then Some([])
    else
      var init := ConvertKeys(raw[..|raw| - 1], parse);
      var k := parse(raw[|raw| - 1].0);
      if init.None? || k.None? then None
      else Some(init.value + [(k.value, raw[|raw| - 1].1)])
  }

  /** The conversion fails exactly on a key that does not parse. */
  lemma {:induction false} ConvertKeysFails(raw: Dict<string, string>, parse: string -> Option<int>)
    ensures ConvertKeys(raw, parse).Some? <==> ParsedKeys(raw, parse)
  {
    if raw != [] {
      var init := raw[..|raw| - 1];
      ConvertKeysFails(init, parse);
      assert forall i :: 0 <= i < |init| ==> raw[i] == init[i];
      if !ParsedKeys(init, parse) {
        var i :| 0 <= i < |init| && parse(init[i].0).None?;
        assert parse(raw[i].0).None?;
      }
    }
  }

  /** Otherwise it keeps every value, with its key parsed. */
  lemma {:induction false} ConvertKeysPairs(raw: Dict<string, string>, parse: string -> Option<int>)
    requires ConvertKeys(raw, parse).Some?
    ensures forall i :: 0 <= i < |raw| ==>
      parse(raw[i].0) == Some(ConvertKeys(raw, parse).value[i].0) && ConvertKeys(raw, parse).value[i].1 == raw[i].1
  {
    if raw != [] {
      var init := raw[..|raw| - 1];
      ConvertKeysPairs(init, parse);
      assert forall i :: 0 <= i < |init| ==> raw[i] == init[i];
    }
  }

  /** Whether every key reads as an integer. */
  ghost predicate IntegerKeys(raw: Dict<string, string>) {
    forall i :: 0 <= i < |raw| ==> ParseInt(raw[i].0).Some?
  }

  /** `_load_label_mapping` on the parsed JSON object. */
  function LoadLabelMapping(raw: Dict<string, string>): (r: Option<Dict<int, string>>)
    ensures r.Some? <==> IntegerKeys(raw)
    ensures r.Some? ==> DistinctKeys(r.value)
  {
    ConvertKeysFails(raw, ParseInt);
    var pairs := ConvertKeys(raw, ParseInt);
    if pairs.None? then None else Some(FromPairs(pairs.value))
  }

  /** The mapping the trainer dumps loads back unchanged: keys back to the
      same integers, values as they were. */
  lemma LabelMappingRoundTrip(mapping: Dict<int, string>)
    requires DistinctKeys(mapping)
    ensures LoadLabelMapping(Train.DumpLabelMapping(mapping)) == Some(mapping)
  {
    var raw := Train.DumpLabelMapping(mapping);
    forall i | 0 <= i < |raw| ensures ParseInt(raw[i].0) == Some(mapping[i].0) {
      IntStringRoundTrip(mapping[i].0);
    }
    ConvertKeysFails(raw, ParseInt);
    ConvertKeysPairs(raw, ParseInt);
    var pairs := ConvertKeys(raw, ParseInt);
    assert pairs.value == mapping by {
      forall i | 0 <= i < |mapping| ensures pairs.value[i] == mapping[i] {
        assert raw[i].1 == Values(raw)[i] == Values(mapping)[i] == mapping[i].1;
      }
    }
    FromDistinctPairs(mapping);
  }

  /** `_label_mapping.get(i, f"UNKNOWN({i})")`, the same on the path with a
      score and the one without. */
  function LabelFor(mapping: Dict<int, string>, i: int): (r: string)
    ensures Get(mapping, i).Some? ==> r == Get(mapping, i).value
    ensures Get(mapping, i).None? ==> r == "UNKNOWN(" + IntToString(i) + ")"
  {
    match Get(mapping, i)
    case Some(l) => l
    case None => "UNKNOWN(" + IntToString(i) + ")"
  }

  /** The fallback text names the index: reading the digits between the
      parentheses gives it back. */
  lemma UnknownNamesIndex(mapping: Dict<int, string>, i: int)
    requires Get(mapping, i).None?
    ensures StartsWith(LabelFor(mapping, i), "UNKNOWN(") && EndsWith(LabelFor(mapping, i), ")")
    ensures ParseInt(LabelFor(mapping, i)[8..|LabelFor(mapping, i)| - 1]) == Some(i)
  {
    var d := IntToString(i);
    assert LabelFor(mapping, i) == "UNKNOWN(" + d + ")";
    FallbackParts(d);
    IntStringRoundTrip(i);
  }

  lemma FallbackParts(d: string)
    ensures var r := "UNKNOWN(" + d + ")";
      StartsWith(r, "UNKNOWN(") && EndsWith(r, ")") && r[8..|r| - 1] == d
  {
    var r := "UNKNOWN(" + d + ")";
    assert r[..8] == "UNKNOWN(";
    assert r[|r| - 1..] == ")";
    assert r[8..|r| - 1] == d;
  }

  /** With the mapping of a training run, an index in range gives the
      label numbered so, and any other index the fallback text. */
  lemma TrainedLabelFor(samples: seq<EmailSample>, i: int)
    ensures 0 <= i < |UniqueLabels(samples)| ==> LabelFor(IndexToLabel(samples), i) == UniqueLabels(samples)[i]
    ensures !(0 <= i < |UniqueLabels(samples)|) ==> LabelFor(IndexToLabel(samples), i) == "UNKNOWN(" + IntToString(i) + ")"
  {
    IndexToLabelNumbers(samples);
  }

  /** `predict_email`: the model sees the formatted input and answers with
      an index, which is looked up in the mapping. The classifier model is
      the parameter `model`. */
  function PredictEmail(myEmails: seq<string>, mapping: Dict<int, string>, model: string -> int,
                        subject: string, body: string, sender: string, to: string, cc: string,
                        massMail: bool, attachmentTypes: Option<seq<string>>): (r: string)
    ensures Get(mapping, model(Config.FormatModelInput(myEmails, subject, body, sender, to, cc, massMail, attachmentTypes))).Some?
            ==> r in Values(mapping)
  {
    var i := model(Config.FormatModelInput(myEmails, subject, body, sender, to, cc, massMail, attachmentTypes));
    var r := LabelFor(mapping, i);
    assert Get(mapping, i).Some? ==> exists k :: 0 <= k < |mapping| && mapping[k] == (i, r) && Values(mapping)[k] == r;
    r
  }

  /** `get_available_categories`: the mapping's values in sorted order. */
  function AvailableCategories(mapping: Dict<int, string>): (r: seq<string>)
    ensures multiset(r) == multiset(Values(mapping))
    ensures forall i, j :: 0 <= i < j < |r| ==> LessEq(r[i], r[j])
  {
    Sort(Values(mapping))
  }

  /** The categories offered are the ones recorded in the model
      information. */
  lemma CategoriesMatchModelInfo(mapping: Dict<int, string>, sampleCount: nat)
    ensures AvailableCategories(mapping) == Train.ModelInfoOf(mapping, sampleCount).categories
  {
  }

  // ---------------------------------------------------------------------
  // Raw e-mail
  // ---------------------------------------------------------------------

  /** One part as `msg.walk()` yields it. `disposition` is the
      Content-Disposition header, `payload` the decoded payload text, and
      `guessedExtension` what the MIME-type table guesses for the content
      type. */
  datatype Part = Part(
    contentType: string, disposition: Option<string>, filename: Option<string>,
    guessedExtension: Option<string>, payload: Option<string>)

  /** A parsed e-mail: its headers in order; for a multipart message the
      parts in walk order, otherwise the decoded payload. */
  datatype Message = Message(
    headers: seq<(string, string)>, multipart: bool, parts: seq<Part>, payload: Option<string>)

  /** A header, looked up as `msg.get(name)` does: case-insensitively, the
      first occurrence. */
  function GetHeader(headers: seq<(string, string)>, name: string): (r: Option<string>)
    ensures r.None? <==> forall i :: 0 <= i < |headers| ==> Lower(headers[i].0) != Lower(name)
    ensures r.Some? ==> exists i :: 0 <= i < |headers| && Lower(headers[i].0) == Lower(name) && headers[i].1 == r.value &&
                                    forall j :: 0 <= j < i ==> Lower(headers[j].0) != Lower(name)
  {
    if headers == [] then None
    else if Lower(headers[0].0) == Lower(name) then Some(headers[0].1)
    else
      var r := GetHeader(headers[1..], name);
      assert forall i :: 1 <= i < |headers| ==> headers[i] == headers[1..][i - 1];
      r
  }

  /** The mass-mail flag: whether a List-Unsubscribe header is present. */
  function MassMail(msg: Message): (r: bool)
    ensures r <==> exists i :: 0 <= i < |msg.headers| && Lower(msg.headers[i].0) == Lower("List-Unsubscribe")
  {
    GetHeader(msg.headers, "List-Unsubscribe").Some?
  }

  predicate IsAttachment(p: Part) {
    Contains(p.disposition.GetOr(""), "attachment")
  }

  /** A part that supplies the body: not an attachment, plain text, with a
      non-empty payload. */
  predicate IsBodyPart(p: Part) {
    !IsAttachment(p) && p.contentType == "text/plain" && p.payload.Some? && p.payload.value != ""
  }

  /** The attachment type a part adds, if any: for a named attachment the
      upper-cased extension without its dots, unless that is empty; for an
      unnamed one the guessed extension, likewise. */
  function PartType(p: Part): (r: seq<string>)
    ensures |r| <= 1
    ensures r != [] ==> IsAttachment(p)
  {
    if !IsAttachment(p) then []
    else if p.filename.Some? && p.filename.value != "" then
      var ext := Upper(LStripChar(SplitExt(p.filename.value).1, '.'));
      if ext != "" then [ext] else []
    else if p.guessedExtension.Some? && p.guessedExtension.value != "" then
      [Upper(LStripChar(p.guessedExtension.value, '.'))]
    else []
  }

  /** A named attachment "stem.ext" has the type "EXT". */
  lemma NamedAttachmentType(p: Part, stem: string, ext: string)
    requires IsAttachment(p) && p.filename == Some(stem + "." + ext)
    requires HasNonDot(Basename(stem)) && ext != [] && '.' !in ext && '/' !in ext
    ensures PartType(p) == [Upper(ext)]
  {
    ExtensionOfName(stem, ext);
    assert Upper(ext) != "";
  }

  lemma ExtensionOfName(stem: string, ext: string)
    requires HasNonDot(Basename(stem)) && ext != [] && '.' !in ext && '/' !in ext
    ensures LStripChar(SplitExt(stem + "." + ext).1, '.') == ext
  {
    var tail := "." + ext;
    assert SplitExt(stem + "." + ext).1 == tail by {
      assert forall j :: 0 <= j < |ext| ==> ext[j] != '.' && ext[j] != '/' by {
        assert forall j :: 0 <= j < |ext| ==> ext[j] in ext;
      }
      SplitExtOf(stem, ext);
    }
    assert LStripChar(ext, '.') == ext by {
      assert ext[0] in ext;
    }
    assert tail[1..] == ext;
  }

  /** A named attachment without an extension adds no type. */
  lemma UnextendedAttachmentSkipped(p: Part)
    requires IsAttachment(p) && p.filename.Some? && p.filename.value != ""
    requires '.' !in p.filename.value
    ensures PartType(p) == []
  {
    var name := p.filename.value;
    assert LastIndexOf(name, '.') == -1;
  }

  /** What the walk has found so far. */
  datatype Features = Features(body: string, attachmentTypes: seq<string>)

  /** One iteration of the walk loop: an attachment adds its type; failing
      that, a plain-text part supplies the body while there is none yet. */
  function WalkStep(f: Features, p: Part): Features {
    if IsAttachment(p) then Features(f.body, f.attachmentTypes + PartType(p))
    else if p.contentType == "text/plain" && f.body == "" then
      if p.payload.Some? && p.payload.value != "" then Features(p.payload.value, f.attachmentTypes) else f
    else f
  }

  /** The walk loop over the first parts. */
  function Walk(parts: seq<Part>): Features {
    if parts == [] then Features("", [])
    else WalkStep(Walk(parts[..|parts| - 1]), parts[|parts| - 1])
  }

  /** The payload of the first part that can be the body, or "". */
  function FirstBody(parts: seq<Part>): (r: string)
    ensures r == "" <==> forall k :: 0 <= k < |parts| ==> !IsBodyPart(parts[k])
  {
    if parts == [] then ""
    else if IsBodyPart(parts[0]) then parts[0].payload.value
    else
      var r := FirstBody(parts[1..]);
      assert forall k :: 1 <= k < |parts| ==> parts[k] == parts[1..][k - 1];
      r
  }

  lemma {:induction false} FirstBodyAppend(parts: seq<Part>, p: Part)
    ensures FirstBody(parts + [p]) == if FirstBody(parts) != "" then FirstBody(parts) else FirstBody([p])
  {
    if parts != [] {
      FirstBodyAppend(parts[1..], p);
      assert (parts + [p])[1..] == parts[1..] + [p];
    }
  }

  /** The body the walk finds is the payload of the first non-attachment
      plain-text part with a non-empty payload; later ones are ignored. */
  lemma {:induction false} WalkBody(parts: seq<Part>)
    ensures Walk(parts).body == FirstBody(parts)
  {
    if parts != [] {
      var init := parts[..|parts| - 1];
      var last := parts[|parts| - 1];
      assert init + [last] == parts;
      assert Walk(init).body == FirstBody(init) by {
        WalkBody(init);
      }
      assert FirstBody(parts) == if FirstBody(init) != "" then FirstBody(init) else FirstBody([last]) by {
        FirstBodyAppend(init, last);
      }
      assert WalkStep(Walk(init), last).body == if Walk(init).body != "" then Walk(init).body else FirstBody([last]) by {
        StepBody(Walk(init), last);
      }
    }
  }

  /** One step keeps a body already found, and otherwise takes the part's
      payload when the part can be the body. */
  lemma StepBody(f: Features, p: Part)
    ensures WalkStep(f, p).body == if f.body != "" then f.body else FirstBody([p])
  {
    assert [p][1..] == [];
    assert FirstBody([p]) == if IsBodyPart(p) then p.payload.value else "";
  }

  /** The attachment types the walk finds, part by part. */
  function TypesOf(parts: seq<Part>): seq<string> {
    if parts == [] then [] else TypesOf(parts[..|parts| - 1]) + PartType(parts[|parts| - 1])
  }

  /** The types depend on the attachments alone, whatever the body. */
  lemma {:induction false} WalkTypes(parts: seq<Part>)
    ensures Walk(parts).attachmentTypes == TypesOf(parts)
    ensures |Walk(parts).attachmentTypes| <= |parts|
  {
    if parts != [] {
      WalkTypes(parts[..|parts| - 1]);
    }
  }

  /** The body and attachment types of a message: the walk for a multipart
      message, otherwise the payload as the body and no attachments. */
  function ExtractSpec(msg: Message): Features {
    if msg.multipart then Walk(msg.parts)
    else if msg.payload.Some? && msg.payload.value != "" then Features(msg.payload.value, [])
    else Features("", [])
  }

  /** One iteration of the walk loop, on the loop's variables. */
  method WalkPart(body: string, attachmentTypes: seq<string>, part: Part)
    returns (body': string, attachmentTypes': seq<string>)
    ensures Features(body', attachmentTypes') == WalkStep(Features(body, attachmentTypes), part)
  {
    body', attachmentTypes' := body, attachmentTypes;
    var disposition := part.disposition.GetOr("");
    if Contains(disposition, "attachment") {
      var filename := part.filename;
      if filename.Some? && filename.value != "" {
        var ext := Upper(LStripChar(SplitExt(filename.value).1, '.'));
        if ext != "" {
          attachmentTypes' := attachmentTypes + [ext];
        }
      } else {
        var ext := part.guessedExtension;
        if ext.Some? && ext.value != "" {
          attachmentTypes' := attachmentTypes + [Upper(LStripChar(ext.value, '.'))];
        }
      }
    } else if part.contentType == "text/plain" && body == "" {
      var payload := part.payload;
      if payload.Some? && payload.value != "" {
        body' := payload.value;
      }
    }
  }

  /** The walk over one more part takes one more step. */
  lemma WalkPrefix(parts: seq<Part>, i: nat)
    requires i < |parts|
    ensures Walk(parts[..i + 1]) == WalkStep(Walk(parts[..i]), parts[i])
  {
    assert parts[..i + 1][..i] == parts[..i];
  }

  /** The extraction loop of `predict_raw_email`. */
  method ExtractFeatures(msg: Message) returns (body: string, attachmentTypes: seq<string>)
    ensures Features(body, attachmentTypes) == ExtractSpec(msg)
  {
    body := "";
    attachmentTypes := [];
    if msg.multipart {
      var parts := msg.parts;
      for i := 0 to |parts|
        invariant Features(body, attachmentTypes) == Walk(parts[..i])
      {
        WalkPrefix(parts, i);
        body, attachmentTypes := WalkPart(body, attachmentTypes, parts[i]);
      }
      assert parts[..|parts|] == parts;
    } else {
      var payload := msg.payload;
      if payload.Some? && payload.value != "" {
        body := payload.value;
      }
    }
  }

  /** The de-duplicated list: each element at its first occurrence. */
  function Dedup(xs: seq<string>): (r: seq<string>)
    ensures Elems(r) == Elems(xs)
  {
    if xs == [] then []
    else
      var d := Dedup(xs[..|xs| - 1]);
      var x := xs[|xs| - 1];
      assert xs == xs[..|xs| - 1] + [x];
      assert Elems(xs) == Elems(xs[..|xs| - 1]) + {x};
      if x in Elems(d) then d else d + [x]
  }

  /** The de-duplication loop with its `seen` set. */
  method DedupTypes(types: seq<string>) returns (unique: seq<string>)
    ensures unique == Dedup(types)
  {
    var seen: set<string> := {};
    unique := [];
    for i := 0 to |types|
      invariant unique == Dedup(types[..i])
      invariant seen == Elems(unique)
    {
      assert types[..i + 1][..i] == types[..i];
      var t := types[i];
      if t !in seen {
        seen := seen + {t};
        unique := unique + [t];
      }
    }
    assert types[..|types|] == types;
  }

  /** No type appears twice. */
  lemma {:induction false} DedupDistinct(xs: seq<string>)
    ensures forall i, j :: 0 <= i < j < |Dedup(xs)| ==> Dedup(xs)[i] != Dedup(xs)[j]
  {
    if xs != [] {
      var d := Dedup(xs[..|xs| - 1]);
      DedupDistinct(xs[..|xs| - 1]);
      var x := xs[|xs| - 1];
      if x !in Elems(d) {
        assert forall i :: 0 <= i < |d| ==> d[i] in Elems(d);
      }
    }
  }

  lemma FirstIndexOfPrefix(s: seq<string>, t: seq<string>, y: string)
    requires y in s
    ensures FirstIndex(s + t, y) == FirstIndex(s, y)
  {
    var k := FirstIndex(s, y);
    assert (s + t)[k] == y;
    assert forall j :: 0 <= j < k ==> (s + t)[j] == s[j];
  }

  /** The kept types appear in the order of their first occurrence. */
  lemma {:induction false} DedupFirstOccurrenceOrder(xs: seq<string>)
    ensures forall i :: 0 <= i < |Dedup(xs)| ==> Dedup(xs)[i] in xs
    ensures forall i, j :: 0 <= i < j < |Dedup(xs)| ==> FirstIndex(xs, Dedup(xs)[i]) < FirstIndex(xs, Dedup(xs)[j])
  {
    if xs != [] {
      var init := xs[..|xs| - 1];
      var x := xs[|xs| - 1];
      var d := Dedup(init);
      DedupFirstOccurrenceOrder(init);
      assert xs == init + [x];
      forall i | 0 <= i < |d| ensures FirstIndex(xs, d[i]) == FirstIndex(init, d[i]) {
        FirstIndexOfPrefix(init, [x], d[i]);
      }
      if x in Elems(d) {
        assert Dedup(xs) == d;
      } else {
        assert Dedup(xs) == d + [x];
        assert x !in init by {
          assert Elems(d) == Elems(init);
        }
        FirstIndexOfNew(init, x);
      }
    }
  }

  /** A new last element is first found at the end. */
  lemma FirstIndexOfNew(init: seq<string>, x: string)
    requires x !in init
    ensures FirstIndex(init + [x], x) == |init|
  {
    assert (init + [x])[|init|] == x;
  }

  /** The raw features the classifier passes on, headers defaulting to "". */
  datatype RawFeatures = RawFeatures(
    subject: string, body: string, sender: string, to: string, cc: string,
    massMail: bool, attachmentTypes: seq<string>)

  function RawFeaturesSpec(msg: Message): RawFeatures {
    var f := ExtractSpec(msg);
    RawFeatures(GetHeader(msg.headers, "Subject").GetOr(""), f.body,
                GetHeader(msg.headers, "From").GetOr(""), GetHeader(msg.headers, "To").GetOr(""),
                GetHeader(msg.headers, "Cc").GetOr(""), MassMail(msg), Dedup(f.attachmentTypes))
  }

  /** `predict_raw_email`: the features of the message, classified by
      `predict_email`. */
  method PredictRawEmail(myEmails: seq<string>, mapping: Dict<int, string>, model: string -> int, msg: Message)
    returns (predicted: string)
    ensures var f := RawFeaturesSpec(msg);
            predicted == PredictEmail(myEmails, mapping, model, f.subject, f.body, f.sender, f.to, f.cc,
                                  f.massMail, Some(f.attachmentTypes))
  {
    var sender := GetHeader(msg.headers, "From").GetOr("");
    var to := GetHeader(msg.headers, "To").GetOr("");
    var cc := GetHeader(msg.headers, "Cc").GetOr("");
    var subject := GetHeader(msg.headers, "Subject").GetOr("");
    var massMail := GetHeader(msg.headers, "List-Unsubscribe").Some?;
    var body, attachmentTypes := ExtractFeatures(msg);
    var unique := DedupTypes(attachmentTypes);
    predicted := PredictEmail(myEmails, mapping, model, subject, body, sender, to, cc, massMail, Some(unique));
  }
}
