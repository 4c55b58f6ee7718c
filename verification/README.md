# CSV-to-JSON batch transform, modelled in Dafny

This project models the core of an AWS Lambda function that reacts to S3
"object created" notifications. For every new `.csv` object it streams the
CSV, turns each data row into a JSON object keyed by the header's column
names, writes those objects as newline-delimited JSON to a scratch file under
`/tmp`, uploads the scratch file next to the source under a rewritten key,
and deletes the scratch file. All of this logic sits in
`src/LambdaFunction/Function.cs`.

The model follows the code's structure:

- `Fields` (`fields.dfy`): the row parser, `line.Split(',')`, with its
  inverse `Join`, the one-character case of `Glue` (parts joined with a
  separator string, which `Keys` also uses).
- `Records` (`records.dfy`): the `Dictionary<string,string>` a row is
  turned into, as an association list with distinct keys in insertion
  order; `Assign` is `record[k] = v`; `Fill`/`BuildRecord` is the loop over
  the header.
- `Keys` (`keys.dfy`): the `.csv` suffix test and the destination key
  `csvKey.Replace(".csv", ".json").Replace("inputs", "outputs")`, with
  `ReplaceAll` modelling .NET's ordinal, left-to-right, all-occurrences
  `String.Replace`.
- `Transcode` (`transcode.dfy`): `ReadCsvStreaming` (header line, skipped
  empty lines, record per row, the exceptions that end the stream) and the
  `try`/`catch` of one object in `TransformCsvToJson`.
- `Batch` (`batch.dfy`): the loop of `TransformCsvToJson` over event records
  and the loop of `FunctionHandler` over outcomes, producing a trace of
  `Put` (upload attempt) and `Delete` (scratch-file removal) actions.
  `FunctionHandler` is a method whose loop interleaves the two, as the
  `await foreach` over the lazy generator does, and is proved equal to the
  functional composition.
- `Wrappers` (`wrappers.dfy`): `Option`.

Collaborators are parameters: `fetch(bucket, key)` returns the object's
lines, or the lines delivered before the read threw together with the
failure; `upload(bucket, key, file)` says whether
`PutObjectAsync` returned or threw; `serialize` is `JsonSerializer.Serialize`
of a record; `newGuid(n)` is the n-th `Guid.NewGuid()`.

Behaviour of the code as written, which the model keeps:

- A non-empty data row with fewer fields than the header throws
  (`values[i]` out of range); the object gets an `error` entry. No partial
  record is produced. Records already yielded were written to the scratch
  file, but it is never uploaded.
- A read that throws partway (a dropped storage stream) ends the object
  after the lines already delivered: their records were written to the
  scratch file, and the object gets an `error` entry.
- An object with no lines makes `headerLine!.Split` throw; the object gets
  an `error` entry (the header does not default to one empty name).
- A repeated header name keeps one key, in its first position, holding the
  value of its last position.
- On a transform error the handler `continue`s before its `try`/`finally`,
  so the scratch file of a failed object is not deleted.
- Both `Replace` calls rewrite every occurrence anywhere in the key:
  `my-inputs-2/x.csv` becomes `my-outputs-2/x.json`.
- Only newline-delimited JSON is written; there is no array framing.
- Since a rewritten `.csv` key ends with `.json`, an upload never replaces
  an object that a later record of the same batch reads
  (`Keys.DestinationNotSource`), provided the suffix test is ordinal (see
  "## Left out" for a key with a culture-ignorable character). This is why `fetch` may be a fixed function
  of bucket and key even though uploads happen between reads.

## Model

| member | source | states |
|---|---|---|
| Fields.Split | src/LambdaFunction/Function.cs:133 | a line splits into one more field than it has commas, no field contains a comma, and joining the fields with commas gives the line back |
| Fields.SplitJoin | src/LambdaFunction/Function.cs:124 | comma-free fields joined with commas split back into exactly those fields |
| Fields.SplitKeepsEmptyFields | src/LambdaFunction/Function.cs:133 | empty fields are kept (`a,,c` gives three fields) and the empty line gives one empty field |
| Records.AssignLookup | src/LambdaFunction/Function.cs:138 | after `record[k] = v`, `k` reads `v` and every other key reads as before |
| Records.AssignKeys | src/LambdaFunction/Function.cs:138 | `record[k] = v` keeps key order, adding `k` at the end only when it is new |
| Records.ZipContract | src/LambdaFunction/Function.cs:135-139 | after n iterations the keys are distinct, are the first n header names in first-occurrence order, and each maps to the value at its last position among them |
| Records.BuildRecordContract | src/LambdaFunction/Function.cs:135-139 | building fails exactly when the row is shorter than the header; otherwise the key set is the header name set in first-occurrence order and each name maps to the value at its last header position |
| Records.ExtraFieldsIgnored | src/LambdaFunction/Function.cs:136-138 | row fields beyond the header's length do not affect the record |
| Records.BuildRecordDistinct | src/LambdaFunction/Function.cs:135-139 | with distinct header names the record pairs every header with the value at the same position, in header order |
| Records.DuplicateHeaderOverwrites | src/LambdaFunction/Function.cs:138 | a repeated header keeps its first position and the later value |
| Keys.MatchCountOccurs | src/LambdaFunction/Function.cs:52 | the left-to-right replacement scan finds a match exactly when the pattern occurs in the key |
| Keys.ReplaceAllLength | src/LambdaFunction/Function.cs:52 | each rewritten match changes the key's length by the difference between replacement and pattern lengths |
| Keys.ReplaceAllUnchanged | src/LambdaFunction/Function.cs:52 | a rewrite with a different-length replacement leaves the key unchanged exactly when the pattern does not occur |
| Keys.ReplaceAllSplits | src/LambdaFunction/Function.cs:52 | when the second part starts with a character absent from the pattern, the two parts are rewritten independently |
| Keys.ReplaceAllKeepsSuffix | src/LambdaFunction/Function.cs:52 | a key ending with a pattern that cannot overlap itself ends with the replacement after rewriting |
| Keys.DestinationKeySuffix | src/LambdaFunction/Function.cs:52 | the destination of a `.csv` key ends with `.json` |
| Keys.DestinationNotSource | src/LambdaFunction/Function.cs:76 | the destination of a `.csv` key does not itself pass the `.csv` filter |
| Keys.ReplaceAllFirstMatch | src/LambdaFunction/Function.cs:52 | `Replace` copies everything before the first match, writes the replacement for it and carries on after it |
| Keys.ReplaceAllGlue | src/LambdaFunction/Function.cs:52 | for a pattern that cannot overlap itself, a key made of pattern-free parts joined by the pattern becomes the same parts joined by the replacement: every occurrence is rewritten and nothing else changes |
| Keys.ReplaceAllEveryMatch | src/LambdaFunction/Function.cs:52 | every key is its pattern-free pieces joined by the pattern, and for a pattern that cannot overlap itself `Replace` joins those same pieces with the replacement |
| Keys.CsvRewriteAddsNoInputs | src/LambdaFunction/Function.cs:52 | turning `.csv` into `.json` never creates an `inputs` the key did not already contain |
| Keys.KeyWithoutInputsRewrite | src/LambdaFunction/Function.cs:52 | for any key with no `inputs` anywhere, the second `Replace` changes nothing, so only the `.csv` are turned into `.json` |
| Keys.EmbeddedInputsRewrite | src/LambdaFunction/Function.cs:52 | for a key that is `inputs`-free parts joined by `inputs`, the destination joins those parts, each with its `.csv` turned into `.json`, by `outputs`: `inputs` becomes `outputs` wherever it stands |
| Keys.DestinationKeyPieces | src/LambdaFunction/Function.cs:52 | the destination of any key: cut it at every `inputs`, turn each piece's `.csv` into `.json`, join the pieces with `outputs` |
| Keys.RepeatedSuffixRewrite | src/LambdaFunction/Function.cs:52 | for any key that is `.csv`-free parts joined by `.csv`, the first `Replace` joins the same parts with `.json`: every `.csv` becomes `.json`, not only the trailing one |
| Keys.InputsKeyExample | src/LambdaFunction/Function.cs:13-14 | `inputs/data.csv` maps to `outputs/data.json` |
| Keys.ArchiveKeyExample | src/LambdaFunction/Function.cs:52 | `archive/data.csv` maps to `archive/data.json` |
| Keys.EmbeddedInputsExample | src/LambdaFunction/Function.cs:52 | `my-inputs-2/x.csv` maps to `my-outputs-2/x.json`: `inputs` is rewritten inside a longer path segment |
| Keys.RepeatedSuffixExample | src/LambdaFunction/Function.cs:52 | `inputs/a.csv.csv` becomes `inputs/a.json.json`: every `.csv` is rewritten, not only the trailing one |
| Transcode.ReadRowsYieldsPrefix | src/LambdaFunction/Function.cs:126-141 | the records yielded are those of a prefix of the non-empty data lines, in order: all of them when nothing fails, otherwise up to the first short line, where the stream stops with `RowTooShort` |
| Transcode.ReadRowsFailsIff | src/LambdaFunction/Function.cs:130-138 | the data loop fails exactly when some non-empty line has fewer fields than the header |
| Transcode.TransformFailsIff | src/LambdaFunction/Function.cs:91-106 | an object's outcome has an error exactly when the read fails, the object has no header line, or a non-empty data line is too short |
| Transcode.TransformOutput | src/LambdaFunction/Function.cs:91-124 | an object with no line at all writes nothing to the scratch file and gets an error; for every object with a header line delivered, the scratch file holds one serialised record per non-empty data line delivered, in input order, and on a short row only those before it; only a short row or a failed read gives an error |
| Transcode.ReadFailureKeepsEarlierRecords | src/LambdaFunction/Function.cs:123-141 | a read that throws partway keeps the records of the lines delivered before it, exactly as if they were the whole object, and then fails with the read error unless one of those lines was short |
| Transcode.TranscodeTwoRows | src/LambdaFunction/Function.cs:123-141 | a header and two full rows with an empty line between give exactly the two records, in order, and no error |
| Transcode.ShortRowStops | src/LambdaFunction/Function.cs:136-141 | a short row ends the stream with an error after the records before it; later rows yield nothing |
| Batch.TempFileInjective | src/LambdaFunction/Function.cs:79-83 | distinct identifiers give distinct scratch file names |
| Batch.CsvRecords | src/LambdaFunction/Function.cs:74-77 | every record kept ends with `.csv` and comes from the event |
| Batch.CsvRecordsComplete | src/LambdaFunction/Function.cs:74-77 | every event record whose key ends with `.csv` is kept |
| Batch.CsvRecordsAppend | src/LambdaFunction/Function.cs:74-77 | filtering a batch in two parts gives the two filtered parts one after the other, so the kept records keep their event order |
| Batch.TransformAllContract | src/LambdaFunction/Function.cs:74-89 | exactly one outcome per `.csv` record, in event order, with that record's bucket and key and the next identifier |
| Batch.OutcomeOfCsvRecord | src/LambdaFunction/Function.cs:74-108 | the k-th outcome is the transform of the k-th `.csv` record with the k-th identifier |
| Batch.Succeeded | src/LambdaFunction/Function.cs:44 | the outcomes kept are exactly those without an `error` entry |
| Batch.HandleOutcomesContract | src/LambdaFunction/Function.cs:38-68 | the trace is an upload then a deletion of the same scratch file per successful outcome, in order, whatever the uploads return; failed outcomes add nothing |
| Batch.SucceededIsHandled | src/LambdaFunction/Function.cs:52-67 | a successful outcome is uploaded to its rewritten key and its scratch file deleted right after |
| Batch.ActionOfSucceeded | src/LambdaFunction/Function.cs:44-67 | every action belongs to a successful outcome: its upload, followed at once by its deletion, or that deletion |
| Batch.FunctionHandler | src/LambdaFunction/Function.cs:33-70 | the interleaved loop produces the trace of handling all outcomes of the transform; a null record list produces no actions |
| Batch.BatchIsolation | src/LambdaFunction/Function.cs:38-68 | a `.csv` record whose own transform succeeds is uploaded from its scratch file to its rewritten key in its own bucket and the file deleted, whatever the other records do |
| Batch.ScratchFileDeletedIff | src/LambdaFunction/Function.cs:44-67 | with fresh identifiers, a record's scratch file is deleted exactly when its transform succeeded |
| Batch.UploadsComeFromCsvRecords | src/LambdaFunction/Function.cs:52-67 | every upload goes to the bucket of some `.csv` record under its rewritten `.json` key and is followed by deletion of its scratch file |

## Left out

- Storage adapters (`S3BucketStorage.cs`, `FileSystemStorage.cs`, `IBucketStorage.cs`), dependency wiring (`Startup.cs`, `Program.cs`), logging and tracing attributes: host plumbing with no logic; storage is the `fetch` and `upload` parameters.
- `JsonSerializer.Serialize`: its escaping rules are library behaviour; the model takes the serialiser as a parameter over records in key order.
- `StreamReader` decoding and newline handling: the object arrives as its sequence of lines.
- Async streams: modelled as sequential sequences and one loop, which is the order the `await foreach` runs in.
- `Guid.NewGuid()`: a parameter; freshness is an assumption of `Batch.ScratchFileDeletedIff`.
- Failures creating or writing the scratch file, and exceptions from `File.Delete` in `finally`: local file-system I/O is not modelled.
- Log messages and exception message texts: errors are kept as the kinds `ReadFailed`, `MissingHeader` and `RowTooShort`.
- Keys.EndsWith: compares ordinally, while `String.EndsWith(string)` without a comparison argument uses the current culture; the two agree on ordinary keys. They differ on a key that ends with `.csv` apart from a character the culture ignores, such as a soft hyphen inside `.csv`. The culture-sensitive filter keeps that key, but the ordinal `Replace` finds no `.csv` in it. If the key also holds no `inputs`, it maps to itself, and the upload overwrites the source object. `Keys.DestinationNotSource` and the claim that an upload never replaces an object a later record reads hold only for the ordinal test.
- The unused `GetObjectRequest` (lines 114-118) and the unused `jsonKey` (line 82): dead code.
- Transcode.TranscodeTwoRows: proved for any header of distinct comma-free names and two matching rows rather than for one literal file, whose direct evaluation is too costly for the verifier; header `a,b,c` with rows `1,2,3` and `4,5,6` is one instance.
- Running the transform twice on the same object gives the same output because every function of the model is deterministic; there is no separate lemma.
