# Dataset upload and model recommendation, modelled in Dafny

The application lets a user upload tabular datasets (CSV or Excel) and then
walks them through a short questionnaire that recommends machine-learning
models. Beneath the rendering it has four small pieces of logic. This project
models each of them and proves what they promise:

- **Model recommendation** (`models_page.dfy`, module `ModelsPage`). The
  questionnaire asks whether the dataset is labeled and, if it is, whether the
  target is categorical or continuous. The answers select one of three fixed
  three-entry model catalogs. The page state (`loading`, `hasDatasets`,
  `step`, `isLabeled`, `targetType`) is a class. Its button handlers are
  methods, and the catalog lookup, continue guard and heading are pure
  functions.
- **Upload widget** (`upload_page.dfy`, module `UploadPage`). It covers:
  - validation of a picked or dropped file (type allow-list, then a 10 MiB limit);
  - the order-preserving filter of a batch;
  - the pending selection and removal by index;
  - the rounded progress percentage and the KB size label;
  - the idle/success/error status of one upload request.

  The widget state is a class. The batch filter is a loop, because validation
  writes the status and message as it goes.
- **Upload endpoint** (`upload_route.dfy`, module `UploadRoute`). It covers:
  - the file extension (the text after the last `.`);
  - timestamp sanitisation;
  - the stored-name template `<id>-<timestamp>.<extension>`;
  - the `POST` handler, which writes one directory entry per file and returns
    one metadata record per file.
- **Dataset presence check** (`datasets_check.dfy`, module `DatasetsCheck`).
  The `GET` handler reports whether the uploads directory holds anything, and
  how many entries. A lemma ties it to the upload endpoint: after `n` fresh
  files are stored in a directory of `k` entries, the check reports `k + n`.

`common.dfy` holds:

- the `Option` type used for `null`, `undefined` and absent values;
- the browser `File` record;
- the uploads directory, modelled as a map from entry name to bytes;
- the decimal rendering of a count.

Transport, the file system, the UUID generator and the clock are parameters:

- The directory is an `Option<map<string, seq<byte>>>`, with `None` meaning it
  does not exist.
- The identifiers and timestamps are sequences, one element per file.
- The failures the handlers catch are a `Faults` value.
- An upload request is represented by its progress events and how it settled
  (`Outcome`).

## Model

| member | source | states |
|---|---|---|
| Common.NatToString | app/api/upload/route.ts:57 | the decimal text of a count is non-empty, all digits, and has no leading zero |
| Common.NatToStringRoundTrip | app/api/upload/route.ts:57 | reading the rendered count back as a decimal gives the count |
| Common.NatToStringInjective | app/api/upload/route.ts:57 | different counts give different messages |
| ModelsPage.ModelsByType | app/models/page.tsx:41-161 | each of the three catalogs has exactly three entries (names, descriptions, tags and routes as in the table) |
| ModelsPage.ModelsToDisplay | app/models/page.tsx:251-262 | a null or false `isLabeled` selects the unsupervised list whatever the target type; labeled with categorical selects classification, with continuous regression, with no target the empty list |
| ModelsPage.ContinueDisabled | app/models/page.tsx:407-409 | definition of the button's `disabled` expression; its meaning is stated by ContinueEnabledGivesFullList |
| ModelsPage.ContinueEnabledGivesFullList | app/models/page.tsx:406-409 | continue is enabled exactly when the answer is "unlabeled", or "labeled" with a target type; when enabled the lookup has three entries |
| ModelsPage.HeadingCategory | app/models/page.tsx:453-476 | the heading is the unsupervised one exactly when `isLabeled` is not true, the classification one exactly when labeled and categorical, and the regression one otherwise |
| ModelsPage.HeadingTitle | app/models/page.tsx:453-458 | definition: the heading text of each category |
| ModelsPage.BadgeLabel | app/models/page.tsx:472-476 | definition: the badge text of each category |
| ModelsPage.HeadingTextsDistinct | app/models/page.tsx:453-476 | two different categories never share a heading text or a badge text |
| ModelsPage.HeadingAgreesWithList | app/models/page.tsx:453-479 | the heading/badge category and the list looked up disagree exactly when labeled with no target type, so they agree whenever continue is enabled |
| ModelsPage.CatalogEntriesDistinct | app/models/page.tsx:41-161 | the nine configure routes are pairwise distinct, so no entry belongs to two lists |
| ModelsPage.Page.constructor | app/models/page.tsx:24-30 | initial state: loading, no datasets, questionnaire step, both answers null |
| ModelsPage.Page.DatasetsChecked | app/models/page.tsx:163-180 | after the presence check, loading is off and `hasDatasets` is true exactly when the check answered with `hasDatasets` true; an error body or a thrown fetch gives false |
| ModelsPage.Page.ResetSelections | app/models/page.tsx:34-38 | both answers are null and the step is the questionnaire, so continue is disabled |
| ModelsPage.Page.AnswerLabeled | app/models/page.tsx:285-315 | only `isLabeled` changes; answering "unlabeled" keeps an earlier target type, yet the lookup is the unsupervised list |
| ModelsPage.Page.AnswerTargetType | app/models/page.tsx:335-378 | only `targetType` changes, and continue becomes enabled |
| ModelsPage.Page.Continue | app/models/page.tsx:405-409 | the step becomes models exactly when continue is enabled, and then the list has three entries |
| ModelsPage.Page.ChangeDatasetType | app/models/page.tsx:434-435 | back to the questionnaire with both answers kept |
| ModelsPage.Page.View | app/models/page.tsx:182-479 | loading skeleton, then the no-datasets screen, then the questionnaire (the target question shown only when labeled); in the models step the list shown is exactly the lookup for the two answers and the catalog of the heading category, the title and badge are those of that category, and the "N models available" count is 3 |
| UploadPage.ValidateFile | app/upload/page.tsx:44-60 | a file is accepted exactly when its type is one of the three allowed MIME types and its size is at most 10 MiB; a disallowed type is reported as such whatever the size; an allowed type over the limit is reported as too large |
| UploadPage.SizeLimitInclusive | app/upload/page.tsx:53-57 | a file of exactly 10 MiB is accepted and one byte more is rejected as too large |
| UploadPage.ValidFiles | app/upload/page.tsx:72 | the candidate selection is never longer than the batch; ValidFilesIsFilter says which files it holds |
| UploadPage.ValidFilesIsFilter | app/upload/page.tsx:72 | the candidate selection is a subsequence of the batch (order kept), every file in it passes validation, every passing file is in it, and each passing file occurs in it as many times as in the batch (a failing one not at all) |
| UploadPage.ValidFilesInOrder | app/upload/page.tsx:72 | the candidate selection keeps the batch's order: it is a subsequence of the batch |
| UploadPage.ValidFilesCounts | app/upload/page.tsx:72 | the candidate selection holds each passing file as many times as the batch does, and no failing file |
| UploadPage.LastRejection | app/upload/page.tsx:44-60 | a message left by a batch is one of the two validation messages |
| UploadPage.NoRejectionKeepsBatch | app/upload/page.tsx:72 | no message is left exactly when every file passes, exactly when the whole batch is kept |
| UploadPage.NoRejectionAllPass | app/upload/page.tsx:44-60 | no message is left exactly when every file of the batch passes |
| UploadPage.AllPassKeepsBatch | app/upload/page.tsx:72 | the whole batch is kept exactly when every file passes |
| UploadPage.LastRejectionIsLastRejected | app/upload/page.tsx:44-60 | the message left after a batch is that of a rejected file after which every file passed |
| UploadPage.RemoveAt | app/upload/page.tsx:94 | removing index i keeps the elements before and after it in order; an index out of range changes nothing |
| UploadPage.Percent | app/upload/page.tsx:125 | the progress value is the integer nearest to loaded*100/total, halves rounded up |
| UploadPage.PercentBounds | app/upload/page.tsx:125 | the percentage is at most 100 while loaded does not exceed total, and is 100 at the total |
| UploadPage.PercentMonotonic | app/upload/page.tsx:125 | more bytes sent never gives a smaller percentage |
| UploadPage.ProgressTrace | app/upload/page.tsx:123-128 | one percentage at most per progress event, an event without a computable length reporting none |
| UploadPage.LastProgress | app/upload/page.tsx:123-128 | definition: the progress value after a run of events; LastProgressIsLastReported relates it to ProgressTrace |
| UploadPage.LastProgressIsLastReported | app/upload/page.tsx:123-128 | the progress left after a run of events is the last value reported, or the starting value when no event was computable |
| UploadPage.ProgressTraceNonDecreasing | app/upload/page.tsx:123-128 | for one request (fixed total, growing loaded) every event sets a percentage in 0..100 and the sequence of values never decreases |
| UploadPage.FourEqualChunks | app/upload/page.tsx:123-128 | a body of 1,000,000 bytes sent in four equal chunks reports 25, 50, 75, 100 |
| UploadPage.KiloBytes | app/upload/page.tsx:232 | the KB figure is the integer nearest to size/1024, halves rounded up |
| UploadPage.KiloBytesOfWholeKiB | app/upload/page.tsx:232 | a size of k KiB is shown as k |
| UploadPage.SizeLabel | app/upload/page.tsx:232 | definition: the KB figure in decimal followed by " KB" |
| UploadPage.SizeLabelOfSmallFile | app/upload/page.tsx:232 | a 100-byte file is listed as "0 KB" |
| UploadPage.FailureMessage | app/upload/page.tsx:138-142 | a failed request always yields a non-empty message: the status text, else "Request failed", and "Network error" for a transport failure |
| UploadPage.Widget.constructor | app/upload/page.tsx:9-14 | no files, not uploading, progress 0, status idle, empty message |
| UploadPage.Widget.Validate | app/upload/page.tsx:44-60 | returns the verdict; a rejection writes its message and the error status, an acceptance leaves both alone |
| UploadPage.Widget.ApplyBatch | app/upload/page.tsx:72-75 | the selection becomes the valid files only if there is at least one, else it is kept; status and message are those of the last rejected file, or unchanged if none was rejected |
| UploadPage.Widget.OnDrop | app/upload/page.tsx:62-76 | as ApplyBatch after clearing: status idle and empty message when every file passes, else error with the last rejection's message |
| UploadPage.Widget.OnFileInputChange | app/upload/page.tsx:78-91 | as OnDrop; a missing or empty file list only clears the status and message |
| UploadPage.Widget.RemoveFile | app/upload/page.tsx:93-97 | exactly the file at the index is removed (out of range: none), status idle, message cleared |
| UploadPage.Widget.UploadDisabled | app/upload/page.tsx:288 | definition of the Upload button's `disabled` expression; StartUpload states when it holds |
| UploadPage.Widget.StartUpload | app/upload/page.tsx:99-104 | nothing happens with an empty selection; otherwise uploading, progress 0, status idle; in both cases the Upload button is disabled afterwards |
| UploadPage.Widget.OnProgress | app/upload/page.tsx:123-128 | a computable event sets the rounded percentage; another leaves progress as it was |
| UploadPage.Widget.OnSettled | app/upload/page.tsx:130-165 | a 2xx load gives success with the message untouched; any other outcome gives error with its message; uploading is off in every case |
| UploadPage.Widget.UploadFiles | app/upload/page.tsx:99-166 | an empty selection changes nothing; otherwise the selection is kept, progress is that of the last computable event, uploading ends off, and status/message follow the outcome |
| UploadRoute.LastIndexOf | app/api/upload/route.ts:32 | the position returned holds the character and none follows it; None means the character does not occur |
| UploadRoute.Extension | app/api/upload/route.ts:32 | a name without a dot is its own extension |
| UploadRoute.ExtensionIsLastPiece | app/api/upload/route.ts:32 | the extension is a dot-free suffix of the name that is either the whole name or directly preceded by a dot |
| UploadRoute.SplitLastIsLastPiece | app/api/upload/route.ts:32 | the last piece of `split` on a separator is the separator-free suffix that is the whole string or follows the separator; there is one piece exactly when that suffix is the whole string |
| UploadRoute.ExtensionIsLastSplitPiece | app/api/upload/route.ts:32 | the extension equals what `split('.').pop()` returns, for every name |
| UploadRoute.Sanitize | app/api/upload/route.ts:30 | same length as the timestamp; each `:` and `.` becomes `-` and every other character is kept |
| UploadRoute.SanitizeProperties | app/api/upload/route.ts:30 | the result has no `:` and no `.`, and sanitising again changes nothing |
| UploadRoute.StoredName | app/api/upload/route.ts:35 | definition of the stored-name template; its properties are the three lemmas that follow |
| UploadRoute.StoredNameFor | app/api/upload/route.ts:29-35 | definition: the stored name of a file from its UUID, its sanitised timestamp and its extension |
| UploadRoute.StoredNameStartsWithId | app/api/upload/route.ts:35 | the stored name begins with the dataset id followed by `-` |
| UploadRoute.StoredNameKeepsExtension | app/api/upload/route.ts:30-35 | the extension of the stored name is the extension of the original name |
| UploadRoute.StoredNamesDistinct | app/api/upload/route.ts:34-35 | ids of one length that differ give stored names that differ |
| UploadRoute.Entries | app/api/upload/route.ts:26-39 | definition: one entry per file, in file order, holding its stored name and its bytes |
| UploadRoute.StoreAll | app/api/upload/route.ts:39 | definition: the entries written in order into the directory; its properties are the StoreAll lemmas that follow |
| UploadRoute.StoreAllKeys | app/api/upload/route.ts:39 | after the writes, a name is in the directory exactly when it was before or one of the entries carries it |
| UploadRoute.StoreAllSize | app/api/upload/route.ts:39 | distinct new names grow the directory by exactly the number of entries |
| UploadRoute.StoreAllContent | app/api/upload/route.ts:39 | with distinct names, each entry's bytes are found under its name |
| UploadRoute.StoreAllKeeps | app/api/upload/route.ts:39 | entries already present are left untouched when the new names are fresh |
| UploadRoute.EntriesDistinct | app/api/upload/route.ts:29-35 | distinct UUIDs give the files of a batch distinct stored names |
| UploadRoute.BatchStoredInFull | app/api/upload/route.ts:26-52 | a batch with distinct UUIDs into untaken names stores every file's bytes under its stored name, keeps all earlier entries, and grows the directory by the number of files |
| UploadRoute.Surviving | app/api/upload/route.ts:26-52 | the entries whose writes land are never more than the batch's entries |
| UploadRoute.AllWritesSucceed | app/api/upload/route.ts:26-52 | definition: none of the first n writes throws |
| UploadRoute.SurvivingAll | app/api/upload/route.ts:26-52 | when no write throws, every entry is written |
| UploadRoute.SurvivingMembers | app/api/upload/route.ts:26-52 | the entry of each write that does not throw is written, and every written entry is that of a write that did not throw |
| UploadRoute.SurvivingDistinct | app/api/upload/route.ts:29-39 | the written entries keep the batch's distinct names |
| UploadRoute.SurvivingFresh | app/api/upload/route.ts:29-39 | names fresh in the directory stay fresh among the written entries |
| UploadRoute.FailedWriteAbsent | app/api/upload/route.ts:26-52 | with distinct fresh names, the name of a file whose write throws is not in the directory afterwards |
| UploadRoute.SurvivingWritten | app/api/upload/route.ts:26-52 | with distinct names, the bytes of a file whose write does not throw are stored under its name |
| UploadRoute.BatchStoredExceptFailed | app/api/upload/route.ts:26-52 | for a batch with distinct UUIDs into untaken names, a file's stored name is in the directory afterwards exactly when its write did not throw, its bytes are stored there, and earlier entries are kept |
| UploadRoute.RecordFor | app/api/upload/route.ts:42-50 | definition: the metadata record of one file |
| UploadRoute.Records | app/api/upload/route.ts:42-50 | definition: one metadata record per file, in file order |
| UploadRoute.SuccessMessage | app/api/upload/route.ts:57 | definition: the count followed by " file(s) uploaded successfully"; the Common.NatToString rows state what the count's text is |
| UploadRoute.WriteFiles | app/api/upload/route.ts:26-52 | the directory receives the entry of every write that does not throw, whether or not another write throws, and no other; success exactly when no write throws, and then the records are those of the whole batch |
| UploadRoute.Post | app/api/upload/route.ts:7-68 | an unreadable request or a failure gives 500 "File upload failed"; an empty batch gives 400 "No files uploaded" and writes nothing; the directory is created only when missing; every write that does not throw lands even when the response is 500; success exactly when every step succeeds, with the count message, `datasetIds` equal to the ids in file order, and each record copying name, size and type from its file |
| DatasetsCheck.Check | app/api/datasets/check/route.ts:6-30 | a missing directory gives `hasDatasets` false with no count; otherwise the count is the number of entries and `hasDatasets` holds exactly when it is positive; a listing failure gives 500 "Failed to check for datasets" |
| DatasetsCheck.CheckAfterUpload | app/api/datasets/check/route.ts:16-22 | after a non-empty batch with distinct UUIDs is stored into a directory of k entries (or a missing one), the check reports datasets present and a count of k + n |

## Left out

- The drag highlight (`isDragging`), the JSX, icons and class names, and the
  static home and about pages are presentational.
- The redirect after a successful upload (`router.push` after a two-second
  `setTimeout`) is navigation, not state.
- XMLHttpRequest and FormData are left out. A request is represented by its
  progress events and how it settled. `lengthComputable` is taken to hold
  exactly when the event's total is non-zero.
- The upload page's `!response.ok` branch and its "Failed to upload files"
  message are not modelled, because the promise only ever resolves with
  `ok: true`. The "An unexpected error occurred" message is not modelled
  either, because every rejection is an `Error`.
- UploadPage.Widget.OnSettled does not model a 2xx response whose body is not
  JSON. `response.json()` would then throw and the page would show the parse
  error.
- UploadPage.Percent and UploadPage.KiloBytes use exact integer round-half-up
  in place of floating-point `Math.round` and `toFixed(0)`. Sizes and byte
  counts beyond 2^53 are not modelled.
- ModelsPage.Page.DatasetsChecked: the body of the presence-check response
  is received already decoded. A missing `hasDatasets` field (the 500 body)
  is read as false, which is its JavaScript truthiness. A `fetch` or JSON
  failure is `None`.
- The file-system calls (`existsSync`, `mkdir`, `writeFile`, `readdir`) act
  on an optional map.
- `path.join` normalisation is not modelled. A stored file's path is the
  directory string, `/`, and the stored name.
- `process.cwd()` is not modelled; the directory path is a parameter.
- UploadRoute.Post: `uuidv4()` and the two `new Date().toISOString()`
  readings are per-file parameter sequences. Their uniqueness and their
  36-character length are assumptions of the lemmas (`UniqueUuids`), not
  facts that the model proves.
- UploadRoute.WriteFiles runs the writes of `Promise.all` one after the
  other rather than concurrently. A write that throws leaves no entry for its
  file, and every other write still lands, as `Promise.all` cancels nothing.
  A partly written file, the order in which concurrent writes finish, and
  requests racing on the directory are not modelled.
- Console logging is left out.
- Large request bodies are not modelled: the `bodyParser` configuration
  export has no effect on the model.
- DatasetsCheck.Check is a function of the directory. It therefore cannot
  change the directory, and two calls in a row give the same answer; no
  separate lemma states this.
