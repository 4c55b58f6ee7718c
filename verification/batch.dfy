/**
 * The batch coordinator: `FunctionHandler` and the per-record loop of
 * `TransformCsvToJson` (src/LambdaFunction/Function.cs lines 33-89 and 108).
 *
 * Storage and the file system are parameters: `fetch` reads an object,
 * `upload` is `PutObjectAsync` (true when it returned, false when it threw)
 * and `newGuid(n)` is the n-th `Guid.NewGuid()` of the invocation. The
 * effects on storage and on the scratch directory are a trace of actions.
 */
module Batch {
  import opened Wrappers
  import opened Records
  import opened Keys
  import opened Transcode

  /** One S3 event notification record: the bucket and key of a new object. */
  datatype EventRecord = EventRecord(bucket: string, key: string)

  /**
   * The dictionary `TransformCsvToJson` yields per `.csv` object: bucket,
   * source key, scratch file, and an `error` entry when the transform threw.
   * `staged` is what was written to the scratch file.
   */
  datatype Outcome = Outcome(bucket: string, csvKey: string, tempFile: string, staged: seq<string>, error: Option<Error>)

  /**
   * A storage or scratch-directory effect: an upload attempt (whether it
   * returned normally is recorded in `uploaded`) or a scratch-file deletion.
   */
  datatype Action =
    | Put(bucket: string, key: string, file: string, body: seq<string>, uploaded: bool)
    | Delete(file: string)

  /** The scratch file `/tmp/{uuid}.json` (line 83). */
  function TempFile(guid: string): string
  {
    "/tmp/" + guid + ".json"
  }

  /** Distinct identifiers give distinct scratch files. */
  lemma TempFileInjective(g1: string, g2: string)
    requires TempFile(g1) == TempFile(g2)
    ensures g1 == g2
  {
    var t1, t2 := TempFile(g1), TempFile(g2);
    assert |g1| == |g2|;
    assert g1 == t1[5..5 + |g1|];
    assert g2 == t2[5..5 + |g2|];
  }

  /** The event records the transform does not skip, in event order (line 76). */
  function CsvRecords(records: seq<EventRecord>): (csv: seq<EventRecord>)
    ensures forall k :: 0 <= k < |csv| ==> EndsWith(csv[k].key, SourceSuffix) && csv[k] in records
  {
    if |records| == 0 then []
    else if EndsWith(records[0].key, SourceSuffix) then [records[0]] + CsvRecords(records[1..])
    else CsvRecords(records[1..])
  }

  /** The filter keeps every event record whose key ends with `.csv`. */
  lemma {:induction false} CsvRecordsComplete(records: seq<EventRecord>, r: EventRecord)
    ensures r in records && EndsWith(r.key, SourceSuffix) ==> r in CsvRecords(records)
  {
    if |records| > 0 {
      CsvRecordsComplete(records[1..], r);
      assert r in records ==> r == records[0] || r in records[1..];
    }
  }

  /** The outcome of one `.csv` record whose scratch identifier is `guid` (lines 79-108). */
  function TransformOne(r: EventRecord, fetch: (string, string) -> Fetched, serialize: Record -> string,
                        guid: string): Outcome
  {
    var t := TransformObject(fetch(r.bucket, r.key), serialize);
    Outcome(r.bucket, r.key, TempFile(guid), t.staged, t.error)
  }

  /**
   * `TransformCsvToJson` over `records`, with `n` identifiers already drawn:
   * a `.csv` record draws the next identifier and yields its outcome, any
   * other record is skipped without drawing one.
   */
  function TransformAll(records: seq<EventRecord>, fetch: (string, string) -> Fetched, serialize: Record -> string,
                        newGuid: nat -> string, n: nat): seq<Outcome>
  {
    if |records| == 0 then []
    else if EndsWith(records[0].key, SourceSuffix) then
      [TransformOne(records[0], fetch, serialize, newGuid(n))] + TransformAll(records[1..], fetch, serialize, newGuid, n + 1)
    else TransformAll(records[1..], fetch, serialize, newGuid, n)
  }

  /**
   * Exactly one outcome per `.csv` record, in event order, carrying that
   * record's bucket and key and the next identifier.
   */
  lemma {:induction false} TransformAllContract(records: seq<EventRecord>, fetch: (string, string) -> Fetched,
                                                serialize: Record -> string, newGuid: nat -> string, n: nat)
    ensures var outs := TransformAll(records, fetch, serialize, newGuid, n);
      && |outs| == |CsvRecords(records)|
      && forall k :: 0 <= k < |outs| ==> outs[k] == TransformOne(CsvRecords(records)[k], fetch, serialize, newGuid(n + k))
  {
    if |records| > 0 {
      if EndsWith(records[0].key, SourceSuffix) {
        TransformAllContract(records[1..], fetch, serialize, newGuid, n + 1);
        var one := (r, i) => TransformOne(r, fetch, serialize, newGuid(i));
        IndexedCons(one(records[0], n), TransformAll(records[1..], fetch, serialize, newGuid, n + 1),
                    records[0], CsvRecords(records[1..]), one, n);
      } else {
        TransformAllContract(records[1..], fetch, serialize, newGuid, n);
      }
    }
  }

  /**
   * If `rest` is `f` applied to `tail` with indices from `n + 1`, then `x`,
   * the value for `r` at index `n`, followed by `rest` is `f` applied to
   * `r` and `tail` with indices from `n`.
   */
  lemma IndexedCons<A, B>(x: B, rest: seq<B>, r: A, tail: seq<A>, f: (A, nat) -> B, n: nat)
    requires x == f(r, n)
    requires |rest| == |tail| && forall k :: 0 <= k < |rest| ==> rest[k] == f(tail[k], n + 1 + k)
    ensures |[x] + rest| == |[r] + tail|
    ensures forall k :: 0 <= k < |[x] + rest| ==> ([x] + rest)[k] == f(([r] + tail)[k], n + k)
  {
    forall k | 0 <= k < |[x] + rest|
      ensures ([x] + rest)[k] == f(([r] + tail)[k], n + k)
    {
      if k > 0 {
        assert ([x] + rest)[k] == rest[k - 1] && ([r] + tail)[k] == tail[k - 1];
        assert n + 1 + (k - 1) == n + k;
      }
    }
  }

  /** The outcomes without an `error` entry, in order. */
  function Succeeded(outs: seq<Outcome>): (ok: seq<Outcome>)
    ensures forall k :: 0 <= k < |ok| ==> ok[k].error.None? && ok[k] in outs
    ensures forall o :: o in outs && o.error.None? ==> o in ok
  {
    if |outs| == 0 then []
    else if outs[0].error.None? then [outs[0]] + Succeeded(outs[1..])
    else Succeeded(outs[1..])
  }

  /** The upload attempt for a successful outcome (line 56). */
  function Upload(o: Outcome, upload: (string, string, string) -> bool): Action
  {
    var key := DestinationKey(o.csvKey);
    Put(o.bucket, key, o.tempFile, o.staged, upload(o.bucket, key, o.tempFile))
  }

  /**
   * The body of the `await foreach` in `FunctionHandler` (lines 38-68), run
   * over all outcomes: an outcome with an error is logged and skipped by
   * `continue`, before the `try`, so its scratch file is left behind; any
   * other is uploaded, whatever the upload does, and its scratch file deleted
   * in `finally`.
   */
  function HandleOutcomes(outs: seq<Outcome>, upload: (string, string, string) -> bool): seq<Action>
  {
    if |outs| == 0 then []
    else if outs[0].error.Some? then HandleOutcomes(outs[1..], upload)
    else [Upload(outs[0], upload), Delete(outs[0].tempFile)] + HandleOutcomes(outs[1..], upload)
  }

  /** `trace` holds, for each outcome of `ok` in order, its upload and then its deletion. */
  predicate Paired(trace: seq<Action>, ok: seq<Outcome>, upload: (string, string, string) -> bool)
  {
    && |trace| == 2 * |ok|
    && forall j :: 0 <= j < |ok| ==> trace[2 * j] == Upload(ok[j], upload) && trace[2 * j + 1] == Delete(ok[j].tempFile)
  }

  /** Prepending one outcome's upload and deletion extends the pairing. */
  lemma PairedCons(o: Outcome, ok: seq<Outcome>, rest: seq<Action>, upload: (string, string, string) -> bool)
    requires Paired(rest, ok, upload)
    ensures Paired([Upload(o, upload), Delete(o.tempFile)] + rest, [o] + ok, upload)
  {
    var trace := [Upload(o, upload), Delete(o.tempFile)] + rest;
    var ok' := [o] + ok;
    forall j | 1 <= j < |ok'|
      ensures trace[2 * j] == Upload(ok'[j], upload) && trace[2 * j + 1] == Delete(ok'[j].tempFile)
    {
      assert ok'[j] == ok[j - 1];
      assert trace[2 * j] == rest[2 * (j - 1)];
      assert trace[2 * j + 1] == rest[2 * (j - 1) + 1];
    }
  }

  /**
   * The trace is one upload followed by one deletion of the same scratch file
   * per successful outcome, in outcome order; failed outcomes contribute
   * nothing, and an upload that throws does not keep later ones from running.
   */
  lemma {:induction false} HandleOutcomesContract(outs: seq<Outcome>, upload: (string, string, string) -> bool)
    ensures var trace := HandleOutcomes(outs, upload);
      var ok := Succeeded(outs);
      && |trace| == 2 * |ok|
      && forall j :: 0 <= j < |ok| ==> trace[2 * j] == Upload(ok[j], upload) && trace[2 * j + 1] == Delete(ok[j].tempFile)
  {
    if |outs| > 0 {
      HandleOutcomesContract(outs[1..], upload);
      if outs[0].error.None? {
        PairedCons(outs[0], Succeeded(outs[1..]), HandleOutcomes(outs[1..], upload), upload);
      }
    }
  }

  /** The `.csv` filter distributes over concatenation. */
  lemma {:induction false} CsvRecordsAppend(a: seq<EventRecord>, b: seq<EventRecord>)
    ensures CsvRecords(a + b) == CsvRecords(a) + CsvRecords(b)
  {
    if |a| > 0 {
      assert (a + b)[1..] == a[1..] + b;
      CsvRecordsAppend(a[1..], b);
    } else {
      assert a + b == b;
    }
  }

  /** Transforming a batch in two parts, the second drawing identifiers after the first. */
  lemma {:induction false} TransformAllAppend(a: seq<EventRecord>, b: seq<EventRecord>, fetch: (string, string) -> Fetched,
                                              serialize: Record -> string, newGuid: nat -> string, n: nat)
    ensures TransformAll(a + b, fetch, serialize, newGuid, n) ==
              TransformAll(a, fetch, serialize, newGuid, n) + TransformAll(b, fetch, serialize, newGuid, n + |CsvRecords(a)|)
  {
    if |a| > 0 {
      var ab := a + b;
      assert ab[0] == a[0];
      assert ab[1..] == a[1..] + b;
      if EndsWith(a[0].key, SourceSuffix) {
        var o := TransformOne(a[0], fetch, serialize, newGuid(n));
        assert |CsvRecords(a)| == 1 + |CsvRecords(a[1..])|;
        TransformAllAppend(a[1..], b, fetch, serialize, newGuid, n + 1);
        assert TransformAll(ab, fetch, serialize, newGuid, n) == [o] + TransformAll(ab[1..], fetch, serialize, newGuid, n + 1);
        assert TransformAll(a, fetch, serialize, newGuid, n) == [o] + TransformAll(a[1..], fetch, serialize, newGuid, n + 1);
      } else {
        assert |CsvRecords(a)| == |CsvRecords(a[1..])|;
        TransformAllAppend(a[1..], b, fetch, serialize, newGuid, n);
        assert TransformAll(ab, fetch, serialize, newGuid, n) == TransformAll(ab[1..], fetch, serialize, newGuid, n);
      }
    } else {
      assert a + b == b;
    }
  }

  /** Handling outcomes in two parts gives the two traces one after the other. */
  lemma {:induction false} HandleOutcomesAppend(x: seq<Outcome>, y: seq<Outcome>, upload: (string, string, string) -> bool)
    ensures HandleOutcomes(x + y, upload) == HandleOutcomes(x, upload) + HandleOutcomes(y, upload)
  {
    if |x| > 0 {
      assert (x + y)[1..] == x[1..] + y;
      HandleOutcomesAppend(x[1..], y, upload);
    } else {
      assert x + y == y;
    }
  }

  /**
   * `FunctionHandler`: a null record list counts as empty; each record is
   * transformed and its outcome handled before the next record is read, as
   * the `await foreach` over the lazy `TransformCsvToJson` does. The trace is
   * the handling of all outcomes, in order.
   */
  method FunctionHandler(records: Option<seq<EventRecord>>, fetch: (string, string) -> Fetched,
                         serialize: Record -> string, upload: (string, string, string) -> bool,
                         newGuid: nat -> string)
    returns (trace: seq<Action>)
    ensures trace == HandleOutcomes(TransformAll(records.GetOr([]), fetch, serialize, newGuid, 0), upload)
    ensures records.None? ==> trace == []
  {
    var rs := records.GetOr([]);
    var drawn := 0;
    ghost var outs: seq<Outcome> := [];
    trace := [];
    for i := 0 to |rs|
      invariant drawn == |CsvRecords(rs[..i])|
      invariant outs == TransformAll(rs[..i], fetch, serialize, newGuid, 0)
      invariant trace == HandleOutcomes(outs, upload)
    {
      assert rs[..i + 1] == rs[..i] + [rs[i]];
      CsvRecordsAppend(rs[..i], [rs[i]]);
      TransformAllAppend(rs[..i], [rs[i]], fetch, serialize, newGuid, 0);
      if !EndsWith(rs[i].key, SourceSuffix) {
        continue;
      }
      var o := TransformOne(rs[i], fetch, serialize, newGuid(drawn));
      drawn := drawn + 1;
      HandleOutcomesAppend(outs, [o], upload);
      outs := outs + [o];
      if o.error.Some? {
        continue;
      }
      var key := DestinationKey(o.csvKey);
      var uploaded := upload(o.bucket, key, o.tempFile);
      trace := trace + [Put(o.bucket, key, o.tempFile, o.staged, uploaded), Delete(o.tempFile)];
    }
    assert rs[..|rs|] == rs;
  }

  /** The trace of a whole invocation. */
  function Trace(records: seq<EventRecord>, fetch: (string, string) -> Fetched, serialize: Record -> string,
                 upload: (string, string, string) -> bool, newGuid: nat -> string): seq<Action>
  {
    HandleOutcomes(TransformAll(records, fetch, serialize, newGuid, 0), upload)
  }

  /** Every call of `Guid.NewGuid()` returns a fresh identifier. */
  ghost predicate Fresh(newGuid: nat -> string)
  {
    forall a: nat, b: nat :: newGuid(a) == newGuid(b) ==> a == b
  }

  /** A successful outcome is uploaded and its scratch file deleted right after. */
  lemma SucceededIsHandled(outs: seq<Outcome>, upload: (string, string, string) -> bool, o: Outcome)
    requires o in outs && o.error.None?
    ensures var trace := HandleOutcomes(outs, upload);
      exists j :: 0 <= j < |trace| - 1 && trace[j] == Upload(o, upload) && trace[j + 1] == Delete(o.tempFile)
  {
    HandleOutcomesContract(outs, upload);
    var ok := Succeeded(outs);
    var j :| 0 <= j < |ok| && ok[j] == o;
    var trace := HandleOutcomes(outs, upload);
    assert trace[2 * j] == Upload(o, upload) && trace[2 * j + 1] == Delete(o.tempFile);
  }

  /**
   * Every action belongs to a successful outcome: an upload of it, followed at
   * once by the deletion of its scratch file, or that deletion.
   */
  lemma ActionOfSucceeded(outs: seq<Outcome>, upload: (string, string, string) -> bool, i: nat)
    requires i < |HandleOutcomes(outs, upload)|
    ensures var trace := HandleOutcomes(outs, upload);
      exists o :: o in outs && o.error.None? &&
        if trace[i].Put? then trace[i] == Upload(o, upload) && i + 1 < |trace| && trace[i + 1] == Delete(o.tempFile)
        else trace[i] == Delete(o.tempFile)
  {
    HandleOutcomesContract(outs, upload);
    var trace := HandleOutcomes(outs, upload);
    var ok := Succeeded(outs);
    var j := i / 2;
    var o := ok[j];
    if i % 2 == 0 {
      assert i == 2 * j;
      assert trace[i] == Upload(o, upload) && trace[i + 1] == Delete(o.tempFile);
    } else {
      assert i == 2 * j + 1;
      assert trace[i] == Delete(o.tempFile);
    }
  }

  /** The k-th outcome of a batch belongs to the k-th `.csv` record and uses the k-th identifier. */
  lemma OutcomeOfCsvRecord(records: seq<EventRecord>, fetch: (string, string) -> Fetched, serialize: Record -> string,
                           newGuid: nat -> string, k: nat)
    requires k < |CsvRecords(records)|
    ensures var outs := TransformAll(records, fetch, serialize, newGuid, 0);
      k < |outs| && outs[k] == TransformOne(CsvRecords(records)[k], fetch, serialize, newGuid(k))
  {
    TransformAllContract(records, fetch, serialize, newGuid, 0);
  }

  /**
   * Batch isolation: the k-th `.csv` record, if its own transform succeeds, is
   * uploaded from its scratch file to its rewritten key in its own bucket and
   * the scratch file is then deleted, whatever happens to the other records.
   */
  lemma BatchIsolation(records: seq<EventRecord>, fetch: (string, string) -> Fetched, serialize: Record -> string,
                       upload: (string, string, string) -> bool, newGuid: nat -> string, k: nat)
    requires k < |CsvRecords(records)|
    requires TransformOne(CsvRecords(records)[k], fetch, serialize, newGuid(k)).error.None?
    ensures var c := CsvRecords(records)[k];
      var o := TransformOne(c, fetch, serialize, newGuid(k));
      var trace := Trace(records, fetch, serialize, upload, newGuid);
      exists j :: 0 <= j < |trace| - 1 &&
        trace[j] == Put(c.bucket, DestinationKey(c.key), TempFile(newGuid(k)), o.staged,
                        upload(c.bucket, DestinationKey(c.key), TempFile(newGuid(k)))) &&
        trace[j + 1] == Delete(TempFile(newGuid(k)))
  {
    var outs := TransformAll(records, fetch, serialize, newGuid, 0);
    var c := CsvRecords(records)[k];
    OutcomeOfCsvRecord(records, fetch, serialize, newGuid, k);
    var o := outs[k];
    assert o.bucket == c.bucket && o.csvKey == c.key && o.tempFile == TempFile(newGuid(k));
    assert Upload(o, upload) == Put(c.bucket, DestinationKey(c.key), TempFile(newGuid(k)), o.staged,
                                    upload(c.bucket, DestinationKey(c.key), TempFile(newGuid(k))));
    SucceededIsHandled(outs, upload, o);
    var trace := HandleOutcomes(outs, upload);
    assert trace == Trace(records, fetch, serialize, upload, newGuid);
    var j :| 0 <= j < |trace| - 1 && trace[j] == Upload(o, upload) && trace[j + 1] == Delete(o.tempFile);
  }

  /**
   * With fresh identifiers, the scratch file of the k-th `.csv` record is
   * deleted exactly when its transform succeeded: the `continue` on the
   * error path skips the `finally`, so a failed object's scratch file stays.
   */
  lemma ScratchFileDeletedIff(records: seq<EventRecord>, fetch: (string, string) -> Fetched, serialize: Record -> string,
                              upload: (string, string, string) -> bool, newGuid: nat -> string, k: nat)
    requires Fresh(newGuid)
    requires k < |CsvRecords(records)|
    ensures Delete(TempFile(newGuid(k))) in Trace(records, fetch, serialize, upload, newGuid) <==>
              TransformOne(CsvRecords(records)[k], fetch, serialize, newGuid(k)).error.None?
  {
    var outs := TransformAll(records, fetch, serialize, newGuid, 0);
    var trace := Trace(records, fetch, serialize, upload, newGuid);
    TransformAllContract(records, fetch, serialize, newGuid, 0);
    var o := outs[k];
    if o.error.None? {
      SucceededIsHandled(outs, upload, o);
    } else if Delete(o.tempFile) in trace {
      var i :| 0 <= i < |trace| && trace[i] == Delete(o.tempFile);
      ActionOfSucceeded(outs, upload, i);
      var o' :| o' in outs && o'.error.None? && trace[i] == Delete(o'.tempFile);
      var m :| 0 <= m < |outs| && outs[m] == o';
      TempFileInjective(newGuid(m), newGuid(k));
      assert false;
    }
  }

  /**
   * Nothing else is uploaded: every upload in the trace goes to the bucket of
   * some `.csv` record, under that record's rewritten key, which ends with
   * `.json`, and is followed at once by the deletion of its scratch file.
   */
  lemma UploadsComeFromCsvRecords(records: seq<EventRecord>, fetch: (string, string) -> Fetched, serialize: Record -> string,
                                  upload: (string, string, string) -> bool, newGuid: nat -> string, i: nat)
    requires i < |Trace(records, fetch, serialize, upload, newGuid)|
    requires Trace(records, fetch, serialize, upload, newGuid)[i].Put?
    ensures var trace := Trace(records, fetch, serialize, upload, newGuid);
      var csv := CsvRecords(records);
      && (exists k :: 0 <= k < |csv| && trace[i].bucket == csv[k].bucket && trace[i].key == DestinationKey(csv[k].key))
      && EndsWith(trace[i].key, TargetSuffix)
      && i + 1 < |trace| && trace[i + 1] == Delete(trace[i].file)
  {
    var outs := TransformAll(records, fetch, serialize, newGuid, 0);
    var trace := Trace(records, fetch, serialize, upload, newGuid);
    var csv := CsvRecords(records);
    TransformAllContract(records, fetch, serialize, newGuid, 0);
    ActionOfSucceeded(outs, upload, i);
    var o :| o in outs && o.error.None? && trace[i] == Upload(o, upload) && i + 1 < |trace| && trace[i + 1] == Delete(o.tempFile);
    var m :| 0 <= m < |outs| && outs[m] == o;
    assert o.bucket == csv[m].bucket && o.csvKey == csv[m].key;
    DestinationKeySuffix(csv[m].key);
  }
}
