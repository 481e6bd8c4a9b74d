# Email classifier — a Dafny model

This project models the deterministic core of an e-mail classifier. The
classifier fine-tunes a sentence-embedding model on labelled example
e-mails. It then labels new e-mail pulled from a Gmail inbox and keeps a
log of what it classified. The model covers these parts:

- **Model input formatting.** This is the one text layout that training
  and inference share:
  `passage: Role: … | Mass Mail: … | Attachment Types: … | From: … | To: … | Subject: … | Body: …`.
  The role is Direct, CC or Hidden. It depends on whether one of the
  user's addresses occurs in the To or Cc header. There are two versions:
  - the single-address top-level `config.py` (module `FlatConfig`);
  - the multi-address `email_classifier_brain/config.py` (module `Config`).

  Module `InputFormat` holds the layout shared by both.
- **Training-data loading and dataset building.** The two `train.py`
  files are modelled.
  - The flat loader reads `<label>.json` files in name order (module
    `FlatTrain`). The nested loader walks directories, so that
    `WORK/FOCUS.json` gives the label `WORK/FOCUS` (module `Train`).
    Module `Samples` holds what both share: samples with their JSON
    defaults, and `build_dataset`.
  - `build_dataset` sorts the distinct labels and numbers them from 0. It
    encodes each sample's label by that numbering, and returns the inverse
    mapping. The saved label mapping and the `MODEL_INFO.json` category
    list are modelled as well.
- **Classification** (module `Classify`). The model covers:
  - loading the label mapping, whose string keys become integers;
  - mapping the predicted index back to a label, with an `UNKNOWN(<i>)`
    fallback;
  - extracting features from a parsed message: headers, mass-mail
    detection, the first plain-text body, attachment extensions and their
    first-occurrence de-duplication;
  - `get_available_categories`.
- **The classification log** (module `Database`). The SQLite table is
  modelled as an in-memory sequence of rows inside the class `LogStore`.
  The model covers inserts, per-category statistics over an optional time
  window, the unread and read-in-window queries (newest first),
  acknowledging by id list or all, and pop (read, then acknowledge what
  was read).
- **The Gmail IMAP client** (module `Imap`). The model covers:
  - choosing the user name;
  - connecting, which reuses a live connection and otherwise opens, logs
    in and selects INBOX;
  - disconnecting;
  - fetching unseen messages, which skips every message whose
    `X-GM-LABELS (…)` list names a known label as a whole token
    (possibly quoted);
  - the quoting `apply_label` uses.

Library behaviour the code relies on is written out in small modules:
- `Strings`: `lower`, `strip`, `split`, `join`, `int()` and `str()` of
  integers, and lexicographic string order;
- `Sorting`: `sorted`;
- `Dicts`: insertion-ordered dicts;
- `Paths`: `os.path.splitext`, `basename` and `join`;
- `Wrappers`: `Option` and `Result`.

The environment is an explicit parameter of the functions that read it:
environment variables, directory listings, JSON file contents, the
clock, the network outcome of each IMAP call and the trained network's
prediction. An exception in the source becomes a `Result` failure, or an
`Option` error value in the model.

## Model

| member | source | states |
|---|---|---|
| `FlatConfig.DetermineRole` | config.py:34-50 | Direct iff the lower-cased address occurs in the lower-cased To; CC iff it does not but occurs in Cc; Hidden iff it occurs in neither |
| `FlatConfig.FormatModelInput` | config.py:77-119 | the result starts with the `passage: ` prefix |
| `FlatConfig.FormatModelInputFields` | config.py:105-119 | for `|`-free fields, parsing the input back yields the role of To/Cc, Yes/No for mass mail, the attachment list and From, To, Subject, Body unchanged; Cc is not a field |
| `FlatConfig.CcOnlyThroughRole` | config.py:105-117 | two Cc values that give the same role give the same model input |
| `InputFormat.RoleText` | config.py:43-50 | a role is rendered as one of Direct, CC, Hidden |
| `InputFormat.YesNo` | config.py:106 | "Yes" exactly when mass mail, "No" exactly when not |
| `InputFormat.FormatAttachmentTypes` | config.py:57-70 | "None" exactly for the empty list |
| `InputFormat.AttachmentTypesRoundTrip` | config.py:68-70 | a list of comma-free types is read back unchanged from `[A, B, …]` / `None` |
| `InputFormat.FormatWithRole` | config.py:109-119 | the rendered input starts with the prefix |
| `InputFormat.ParseRender` | config.py:109-119 | reading the seven `Key: value` fields back from the rendered layout gives the same fields |
| `InputFormat.FormatWithRoleReadBack` | config.py:105-119 | the layout read back gives each argument in its field, and the attachment list when its entries are comma-free |
| `InputFormat.NoneSameAsEmpty` | config.py:107 | `attachment_types=None` and `[]` render identically |
| `Config.ParseMyEmails` | email_classifier_brain/config.py:28-32 | every address is non-empty, stripped and lower case |
| `Config.CleanAddressesAreClean` | email_classifier_brain/config.py:29-31 | each kept piece is non-empty, stripped and lower case |
| `Config.ParseMyEmailsRoundTrip` | email_classifier_brain/config.py:28-32 | a comma-joined list of clean addresses parses back to itself |
| `Config.BlankPiecesGiveNoAddress` | email_classifier_brain/config.py:31 | pieces that strip to nothing are all dropped |
| `Config.DefaultMyEmails` | email_classifier_brain/config.py:30 | with `MY_EMAIL` unset the list is exactly `["me@company.com"]` |
| `Config.EnvOr` | email_classifier_brain/config.py:39-40 | the variable's value when set and non-empty, else the default |
| `Config.ModelOutputDir` | email_classifier_brain/config.py:39 | never empty |
| `Config.TrainingDataDir` | email_classifier_brain/config.py:40 | never empty |
| `Config.AnyIn` | email_classifier_brain/config.py:64-70 | true iff some address occurs in the header |
| `Config.DetermineRole` | email_classifier_brain/config.py:48-72 | Direct iff some address occurs in lower-cased To; CC iff none does and some occurs in lower-cased Cc; Hidden when the address list is empty |
| `Config.RoleOfOneAddress` | email_classifier_brain/config.py:61-72 | with a single address the role is the flat version's rule for that address |
| `Config.DetermineRoleAgreesWithFlat` | email_classifier_brain/config.py:48-72 | with the default configuration both versions give the same role |
| `Config.FormatModelInput` | email_classifier_brain/config.py:99-141 | the result starts with the prefix |
| `Config.FormatModelInputFields` | email_classifier_brain/config.py:127-141 | parsing the input back yields the multi-address role and the other fields unchanged |
| `Config.FormatModelInputAgreesWithFlat` | email_classifier_brain/config.py:127-141 | with the default configuration both formatters produce the same string |
| `Samples.NewSample` | email_classifier_brain/train.py:71-82 | a sample built from subject, body and label has empty From/To/Cc, no mass mail and no attachments |
| `Samples.FromEntry` | email_classifier_brain/train.py:130-140 | the sample carries the file's label |
| `Samples.FromToEntry` | email_classifier_brain/train.py:130-140 | an entry with every key present gives back exactly the sample it was written from |
| `Samples.EmptyEntryDefaults` | email_classifier_brain/train.py:132-139 | an entry with no keys gives the default sample |
| `Samples.DefaultsAreMissingKeys` | email_classifier_brain/train.py:132-139 | a missing key and a key holding the default value give the same sample |
| `Samples.EntrySamples` | email_classifier_brain/train.py:130-140 | one sample per entry, in entry order, each read from its entry |
| `Samples.FileLabel` | email_classifier_brain/train.py:122-123 | the label is a prefix of the file's relative path |
| `Samples.CollectDir` | train.py:115-135 | the samples are those of the directory's files taken in name order |
| `Samples.CollectInOrder` | train.py:115-135 | the loop over files gives the specification's samples |
| `Samples.AppendEntries` | train.py:125-135 | the entry loop appends one sample per entry, in order |
| `Samples.CollectSkipsOthers` | train.py:116-117 | a file not ending in `.json` adds no sample |
| `Samples.CollectedLabels` | train.py:116-119 | every sample is labelled after some `.json` file of the listing |
| `Samples.CollectAppend` | train.py:115-135 | collecting two runs of files is collecting each in turn |
| `Samples.UniqueLabels` | email_classifier_brain/train.py:181 | strictly ascending, with exactly the labels that occur |
| `Samples.LabelToIndexIsEnumeration` | email_classifier_brain/train.py:182 | the label-to-index dict is the enumeration of the sorted labels |
| `Samples.IndexToLabelIsEnumeration` | email_classifier_brain/train.py:183 | the index-to-label dict maps 0, 1, … to the sorted labels in order |
| `Samples.LabelToIndexNumbers` | email_classifier_brain/train.py:182 | each sorted label maps to its position; exactly the occurring labels have an index |
| `Samples.IndexToLabelNumbers` | email_classifier_brain/train.py:183 | each index below the label count maps to its label; no other key exists |
| `Samples.IndexToLabelInverse` | email_classifier_brain/train.py:182-183 | the two dicts are inverse to each other |
| `Samples.IntLabels` | email_classifier_brain/train.py:185 | one integer per sample |
| `Samples.IntLabelsDecode` | email_classifier_brain/train.py:185 | each integer label is in range and decodes back to the sample's label |
| `Samples.IndexToLabelItems` | email_classifier_brain/train.py:183 | the mapping's keys are 0..n-1 in order and its values are the sorted labels |
| `Samples.BuildDataset` | email_classifier_brain/train.py:155-196 | texts are the formatted samples; every integer label decodes through the returned mapping to the sample's label; the keys are 0..n-1; the values are strictly sorted and are exactly the labels that occur |
| `FlatTrain.LoadSpec` | train.py:94-143 | a missing directory fails with not-found and only then; an existing directory fails with no-training-data exactly when none of its `.json` files has an entry; a success is never empty |
| `FlatTrain.LoadTrainingData` | train.py:94-143 | the loader method computes the specification's result |
| `FlatTrain.LoadedLabels` | train.py:115-135 | every loaded sample is labelled after a `.json` file of the directory |
| `FlatTrain.JsonFileLabel` | train.py:119 | `<stem>.json` gives the label `<stem>` |
| `Train.WalkOrder` | email_classifier_brain/train.py:116 | the walk is a reordering of the directories, sorted by their full paths |
| `Train.WalkOrderIsRelativeOrder` | email_classifier_brain/train.py:116 | sorting the walked directory paths orders them by their relative paths |
| `Train.LoadSpec` | email_classifier_brain/train.py:89-148 | a missing directory fails with not-found and only then; an existing directory fails with no-training-data exactly when no `.json` file in any of its directories has an entry; a success is never empty |
| `Train.LoadTrainingData` | email_classifier_brain/train.py:89-148 | the loader method computes the specification's result |
| `Train.AgreesWithFlat` | email_classifier_brain/train.py:116-140 | on a tree with no subdirectories the nested loader gives what the flat loader gives |
| `Train.NestedLabel` | email_classifier_brain/train.py:122-123 | `<rel>/<stem>.json` gives the label `<rel>/<stem>` |
| `Train.ModelInfoOf` | email_classifier_brain/train.py:243-251 | the categories are the mapping's values, sorted, and the sample count is carried through |
| `Train.TrainedModelInfo` | email_classifier_brain/train.py:311 | after training, the recorded categories are exactly the sorted labels and the count is the number of samples |
| `Train.DumpedKeysParse` | email_classifier_brain/train.py:304-306 | every key the mapping is dumped under parses back (as the loader parses it) to the integer label it was written from; `Train.DumpLabelMapping` itself keeps the values and their order |
| `Paths.SplitExt` | email_classifier_brain/train.py:123 | root + ext is the path; the extension is empty or starts with a dot and holds no further dot or slash |
| `Paths.SplitExtOf` | email_classifier_brain/classify.py:183 | `<stem>.<ext>` splits into the stem and `.<ext>` |
| `Paths.SplitExtJson` | train.py:119 | `<stem>.json` splits into the stem and `.json` |
| `Paths.SplitExtDotJson` | train.py:119 | a file named just `.json` has no extension, so its label is `.json` |
| `Paths.JoinPath` | email_classifier_brain/train.py:122 | the joined path ends with the file name |
| `Strings.IntStringRoundTrip` | email_classifier_brain/classify.py:76 | `int(str(i)) == i` for every integer |
| `Classify.ConvertKeys` | email_classifier_brain/classify.py:76 | a converted mapping has one pair per raw pair |
| `Classify.ConvertKeysFails` | email_classifier_brain/classify.py:76 | conversion succeeds iff every key parses |
| `Classify.ConvertKeysPairs` | email_classifier_brain/classify.py:76 | each converted key is its raw key parsed and each value is unchanged |
| `Classify.LoadLabelMapping` | email_classifier_brain/classify.py:70-76 | succeeds iff every key is an integer literal |
| `Classify.LabelMappingRoundTrip` | email_classifier_brain/classify.py:70-76 | loading the mapping training saved gives back the training mapping |
| `Classify.LabelFor` | email_classifier_brain/classify.py:137-144 | the mapped label when the index is a key, else `UNKNOWN(<index>)` |
| `Classify.UnknownNamesIndex` | email_classifier_brain/classify.py:137 | the fallback label has the `UNKNOWN(…)` shape and its inner text parses back to the index |
| `Classify.TrainedLabelFor` | email_classifier_brain/classify.py:137-144 | under the training mapping an in-range index gives that sorted label, any other the fallback |
| `Classify.PredictEmail` | email_classifier_brain/classify.py:88-145 | when the predicted index is a key, the label is one of the mapping's values |
| `Classify.AvailableCategories` | email_classifier_brain/classify.py:225-227 | a sorted permutation of the mapping's values |
| `Classify.CategoriesMatchModelInfo` | email_classifier_brain/classify.py:227 | the categories equal the list recorded in the model info |
| `Classify.GetHeader` | email_classifier_brain/classify.py:162-165 | absent iff no header has that name ignoring case; otherwise the value of the first header with that name |
| `Classify.MassMail` | email_classifier_brain/classify.py:168 | true iff a List-Unsubscribe header exists |
| `Classify.PartType` | email_classifier_brain/classify.py:179-190 | at most one type per part, and only for an attachment |
| `Classify.NamedAttachmentType` | email_classifier_brain/classify.py:180-185 | an attachment named `<stem>.<ext>` contributes the upper-cased extension |
| `Classify.UnextendedAttachmentSkipped` | email_classifier_brain/classify.py:182-185 | a named attachment without an extension contributes nothing, without a MIME guess |
| `Classify.FirstBody` | email_classifier_brain/classify.py:192-197 | empty iff no non-attachment text/plain part has a payload |
| `Classify.FirstBodyAppend` | email_classifier_brain/classify.py:193 | once a body is found, later parts do not change it |
| `Classify.WalkBody` | email_classifier_brain/classify.py:174-197 | the walk's body is the first plain-text body |
| `Classify.WalkTypes` | email_classifier_brain/classify.py:174-190 | the walk's types are the parts' types in order, at most one per part |
| `Classify.WalkPart` | email_classifier_brain/classify.py:176-197 | one loop step updates body and types as the walk step says |
| `Classify.ExtractFeatures` | email_classifier_brain/classify.py:170-203 | the loop computes the message's body and attachment types |
| `Classify.Dedup` | email_classifier_brain/classify.py:205-211 | the same set of types |
| `Classify.DedupTypes` | email_classifier_brain/classify.py:205-211 | the seen-set loop computes the de-duplicated list |
| `Classify.DedupDistinct` | email_classifier_brain/classify.py:205-211 | no type appears twice |
| `Classify.DedupFirstOccurrenceOrder` | email_classifier_brain/classify.py:205-211 | each kept type comes from the input, in order of first occurrence |
| `Classify.PredictRawEmail` | email_classifier_brain/classify.py:148-222 | the label is what `predict_email` gives for the message's headers, mass-mail flag, first body and de-duplicated attachment types |
| `Database.Select` | email_classifier_brain/database.py:95 | the kept rows are exactly the table's rows that satisfy the condition |
| `Database.SelectNothing` | email_classifier_brain/database.py:95 | a condition no row satisfies selects nothing |
| `Database.UnreadOf` | email_classifier_brain/database.py:91-98 | exactly the unread rows, each once, newest first |
| `Database.ReadBetween` | email_classifier_brain/database.py:125-140 | exactly the read rows with start ≤ timestamp ≤ end, each as often as it is stored (a reordering of the filtered rows), newest first |
| `Database.StatsOf` | email_classifier_brain/database.py:61-89 | one entry per category |
| `Database.StatsCounts` | email_classifier_brain/database.py:69-89 | a category's entry is its number of rows inside the window, present iff that number is positive |
| `Database.TallyGet` | email_classifier_brain/database.py:69-89 | a row inside the window adds one to its own category's count and leaves every other category as it was |
| `Database.StatsOfEmpty` | email_classifier_brain/database.py:89 | an empty log has no statistics |
| `Database.MarkRead` | email_classifier_brain/database.py:110 | the row becomes read |
| `Database.Mark` | email_classifier_brain/database.py:110-112 | each selected row becomes read, every other row is unchanged |
| `Database.AckSpec` | email_classifier_brain/database.py:100-114 | with a non-empty id list exactly the rows with those ids are marked; with none or an empty list all rows are read |
| `Database.AckAllLeavesNothingUnread` | email_classifier_brain/database.py:111-112 | after acknowledging all, nothing is unread |
| `Database.AckIdempotent` | email_classifier_brain/database.py:100-114 | acknowledging twice is acknowledging once |
| `Database.AckKeepsColumns` | email_classifier_brain/database.py:110-112 | acknowledging changes only the read flag |
| `Database.AckKeepsStats` | email_classifier_brain/database.py:100-114 | acknowledging does not change any statistics |
| `Database.IdsOfMember` | email_classifier_brain/database.py:121 | a row of a list has its id among that list's ids, so every unread row is acknowledged by pop |
| `Database.PopIsAckAll` | email_classifier_brain/database.py:116-123 | acknowledging the unread rows' ids has the effect of acknowledging all |
| `Database.PopLeavesNothingUnread` | email_classifier_brain/database.py:116-123 | after pop nothing is unread, and every row is otherwise unchanged |
| `Database.AddedRow` | email_classifier_brain/database.py:44-57 | a new row is unread and counts once more for its category in any window containing it |
| `Database.LogStore.constructor` | email_classifier_brain/database.py:16-42 | a new log is empty and valid |
| `Database.LogStore.AddLog` | email_classifier_brain/database.py:44-57 | appends one unread row with a fresh larger id and the given or current timestamp; ids stay increasing |
| `Database.LogStore.Ack` | email_classifier_brain/database.py:100-114 | the new table is the acknowledgement of the old, ids unchanged |
| `Database.LogStore.Pop` | email_classifier_brain/database.py:116-123 | returns the old unread rows newest first and leaves the table acknowledged |
| `Imap.SelectUser` | email_classifier_brain/imap_client.py:17 | a non-empty `IMAP_USER` is the user name as given |
| `Imap.FallbackUserShape` | email_classifier_brain/imap_client.py:17 | otherwise the user name holds no comma and no blank at either end |
| `Imap.UserIsFirstAddress` | email_classifier_brain/imap_client.py:17 | without `IMAP_USER`, the user name is the first configured address up to case |
| `Imap.ConnectSpec` | email_classifier_brain/imap_client.py:26-40 | missing credentials fail iff user or password is empty and leave the connection; with credentials, a live connection is kept as it is without error; otherwise the call succeeds iff the server is reachable and accepts the login, fails unreachable iff the server cannot be reached, and fails rejected iff it is reached but refuses the login; success leaves a session; every success that opens a connection (none before, or a dead one) is logged in with INBOX selected; an unreachable server leaves none; a rejected login leaves a session not logged in |
| `Imap.RejectedLoginIsReused` | email_classifier_brain/imap_client.py:30-39 | after a rejected login, the next connect with a live connection keeps that session, not logged in and with no mailbox selected |
| `Imap.CloseFrom` | email_classifier_brain/imap_client.py:87 | the lazy group stops at the first `)` (or line end) |
| `Imap.LabelsFrom` | email_classifier_brain/imap_client.py:87 | a matched labels list holds neither `)` nor a line break |
| `Imap.LabelsFromMatch` | email_classifier_brain/imap_client.py:87 | a match is the text between the leftmost `X-GM-LABELS (` that has a closing `)` and that `)`: no match starts earlier; no result means no match anywhere |
| `Imap.ExtractLabels` | email_classifier_brain/imap_client.py:86-89 | no labels iff the pattern matches nowhere |
| `Imap.LabelsFromSkips` | email_classifier_brain/imap_client.py:87 | searching past positions where the pattern cannot match finds the same labels |
| `Imap.MatchHere` | email_classifier_brain/imap_client.py:87 | a labels list closed by `)` is what the match at that position yields |
| `Imap.NoMatchBefore` | email_classifier_brain/imap_client.py:87 | no match starts before a position when no `X` occurs before it |
| `Imap.ExtractLabelsOf` | email_classifier_brain/imap_client.py:83-89 | the labels of a typical metadata line are read exactly |
| `Imap.ReadPartsData` | email_classifier_brain/imap_client.py:80-92 | a message is found iff some response part is a literal, and it is the data of the last literal |
| `Imap.TokenBetween` | email_classifier_brain/imap_client.py:111-113 | a label delimited by start, space or `(` and end, space or `)` is recognised |
| `Imap.QuotedTokenBetween` | email_classifier_brain/imap_client.py:111-113 | a quoted label between such delimiters is recognised |
| `Imap.PrefixIsNoToken` | email_classifier_brain/imap_client.py:111 | a label that only begins a longer word (neither holding a space, parenthesis or double quote) is not recognised in it |
| `Imap.FetchSpec` | email_classifier_brain/imap_client.py:70-121 | each id yields at most one result per time the search listed it: the result ids, counted with repetition, are contained in the listed ids |
| `Imap.FetchKeeps` | email_classifier_brain/imap_client.py:70-121 | a message is returned iff its fetch succeeded, it has a body and none of the known labels is among its labels |
| `Imap.FetchInIdOrder` | email_classifier_brain/imap_client.py:70 | the returned ids are a subsequence of the search result |
| `Imap.NoKnownLabels` | email_classifier_brain/imap_client.py:94-118 | with no known labels, every fetched message with a body is kept |
| `Imap.EmptySearch` | email_classifier_brain/imap_client.py:62-65 | a failed or empty search yields no messages |
| `Imap.QuoteLabel` | email_classifier_brain/imap_client.py:132 | a label with a space is wrapped in quotes, others go out unchanged |
| `Imap.SentLabelIsRecognised` | email_classifier_brain/imap_client.py:111-132 | a label applied by `apply_label` is recognised by the skip check |
| `Imap.FetchAll` | email_classifier_brain/imap_client.py:70-121 | the loop over ids computes the specification's result |
| `Imap.ReadResponse` | email_classifier_brain/imap_client.py:77-92 | the loop over response parts gives the last literal's data and labels |
| `Imap.IsKnown` | email_classifier_brain/imap_client.py:94-115 | the loop with early exit skips iff some known label is a token of the labels |
| `Imap.GmailClient.constructor` | email_classifier_brain/imap_client.py:15-24 | the user is selected from the environment, the password stored, no connection |
| `Imap.GmailClient.Connect` | email_classifier_brain/imap_client.py:26-40 | the new connection and error are those of the connect specification; credentials are unchanged |
| `Imap.GmailClient.Disconnect` | email_classifier_brain/imap_client.py:42-52 | the connection is dropped whatever the server answers |
| `Imap.GmailClient.FetchUnprocessed` | email_classifier_brain/imap_client.py:54-123 | connects as `connect` does; fails with the connect error when `connect` raises; fails as not-selected when the connection it is left with has no mailbox selected (a session kept after a rejected login), since SEARCH is then refused; otherwise returns exactly the unprocessed messages of the search |

## Left out

- Neural network training and inference (SetFit, the device choice, `predict_proba` and its float scores): the trained model is a parameter `model: string -> int`, and the `return_score` path is not modelled.
- Classify.PredictEmail: states only that a found index gives one of the mapping's values; which index the network predicts is outside the model.
- Reading and writing files (`json.load`, `json.dump`, `open`), `os.walk` and `os.listdir`: directory trees, file listings and JSON contents are inputs. A JSON `null` or a value of the wrong type in an entry is not modelled; every present key holds a value of the expected type.
- `_git_info`, `trained_at`, `BASE_MODEL` and `framework` in `MODEL_INFO.json`: they come from git, the clock or constants and say nothing about the data.
- `main.py` is not part of this model. This covers the scheduler, the lock, the HTTP endpoints, the per-run limit and the correction endpoints.
- The SQLite connection, the schema creation and the `recipient` column migration in `init_db`: the table is an in-memory sequence and every row has every column.
- Database.UnreadOf: SQL leaves the order of rows with equal timestamps open; the model fixes one stable order. Its statement is only the multiset, membership and descending-timestamp order.
- Database.StatsOf: the order of the `GROUP BY` result is unspecified in SQL; the model lists categories in order of first appearance. A NULL category is not modelled.
- Database.LogStore.AddLog: `datetime.isoformat()` is not modelled; the timestamp and the current time are given as their ISO strings.
- Database.LogStore.Pop: `pop_unread_notifications` is two separate transactions in the source, so rows inserted between them are not covered; the model performs both steps with no insert in between.
- Classify.PredictRawEmail: `message_from_bytes`, MIME header decoding, charset decoding of payloads and `mimetypes.guess_extension` are not modelled. A part carries its header values, its decoded payload and the guessed extension as data.
- Imap.GmailClient.FetchUnprocessed: the message is returned as its raw data, not as a parsed `Message`. The outcome of each IMAP command (NOOP, login, SELECT, SEARCH, FETCH) is an input. SELECT is taken to succeed. SEARCH fails only on a connection with no mailbox selected. Any other SEARCH or FETCH that raises is not modelled.
- `apply_label`: the STORE command and its printed failure are not modelled. Its connect step is `Connect`, and the quoting it applies is `QuoteLabel`.
- `Strings.ParseInt`: accepts ASCII decimal digits only. Python's `int` also accepts every other Unicode decimal digit (Arabic-Indic, full-width and so on), so a key written with such digits loads under Python but is `None` here. `Classify.LoadLabelMapping` inherits this. The trainer only writes ASCII keys (`Train.DumpedKeysParse`).
- `Strings.Lower` and `Strings.Upper` map ASCII letters only; Python's full Unicode case mapping is not modelled.
- `Strings.SplitWhitespace` splits at the characters `str.isspace` accepts. The SEARCH reply is split with `bytes.split()`, which splits at ASCII whitespace only. The two agree on the digits-and-spaces replies IMAP sends; other bytes are not modelled.
- `Paths`: POSIX separators are assumed (`os.sep == "/"`). `relpath` normalisation of `..` and of trailing slashes in the data directory is not modelled.
- `python-dotenv` loading: environment variables are explicit `Option<string>` inputs.
- The test files under `email_classifier_brain/tests/` describe behaviour of code that is not present in the modelled files and are not modelled.
