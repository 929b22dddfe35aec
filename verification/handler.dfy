/**
 * The exported `handler` (index.mjs lines 16-130): read bucket and key from
 * the trigger event, fetch the object, run the row loop, publish a
 * completion notice and return a 200 result. Any exception inside the
 * `try` leads to one failure-notice attempt and is then rethrown; a
 * failure of that notice itself is swallowed.
 *
 * Every call into an external service is an input: the fetch result
 * (content or error message), the result of each table write, the
 * timestamp taken for each row, and the results of the two publishes.
 * The model records every call the handler makes, in order.
 */
module Handler {
  import opened Wrappers
  import opened UriDecode
  import opened Csv
  import opened RowLoop

  /** `event.Records[i].s3`: the bucket name and the raw object key, either possibly absent. */
  datatype S3Record = S3Record(bucketName: Option<string>, objectKey: Option<string>)

  datatype Event = Event(records: seq<S3Record>)

  datatype PublishResult = Published | PublishFailed(message: string)

  /** The answers of the external services to this invocation. */
  datatype Services = Services(
    fetch: Result<string, string>,
    put: nat -> PutResult,
    rowClock: nat -> string,
    noticeTime: string,
    completionPublish: PublishResult,
    failurePublish: PublishResult)

  /** The error thrown inside the `try`. */
  datatype Fault =
    | MalformedEvent            // `event.Records[0].s3...` or `key.replace` on a missing value
    | MalformedKey              // `decodeURIComponent` throws URIError
    | FetchFailed(message: string)
    | PublishRejected(message: string)

  datatype Notice =
    | CompletionNotice(file: string, bucket: Option<string>, processedCount: nat,
                       errors: seq<string>, timestamp: string)
    | FailureNotice(fault: Fault, fileLabel: string, bucketLabel: string)

  datatype Call =
    | GetObject(bucket: Option<string>, key: string)
    | PutItem(item: Item)
    | Publish(notice: Notice)

  datatype Outcome =
    | Returned(statusCode: int, recordsProcessed: nat, errorCount: nat)
    | Threw(fault: Fault)

  datatype Invocation = Invocation(outcome: Outcome, calls: seq<Call>)

  /** `v || 'unknown'`: an absent or empty value is reported as "unknown". */
  function OrUnknown(v: Option<string>): (r: string)
    ensures r != ""
    ensures v.Some? && v.value != "" ==> r == v.value
    ensures v.None? || v.value == "" ==> r == "unknown"
  {
    match v
    case Some(s) => if s != "" then s else "unknown"
    case None => "unknown"
  }

  /** One table write per item, in order. */
  function PutCalls(items: seq<Item>): seq<Call> {
    seq(|items|, j requires 0 <= j < |items| => PutItem(items[j]))
  }

  /** The `catch` block: one failure-notice attempt, then the original error is rethrown. */
  function Fatal(fault: Fault, bucket: Option<string>, key: Option<string>, calls: seq<Call>): Invocation {
    Invocation(Threw(fault), calls + [Publish(FailureNotice(fault, OrUnknown(key), OrUnknown(bucket)))])
  }

  /** The handler's behaviour as a function of the event and the services' answers. */
  function Invoke(event: Event, env: Services): Invocation {
    if |event.records| == 0 then Fatal(MalformedEvent, None, None, [])
    else
      var bucket := event.records[0].bucketName;
      match event.records[0].objectKey
      case None => Fatal(MalformedEvent, bucket, None, [])
      case Some(raw) =>
        match DecodeKey(raw)
        case None => Fatal(MalformedKey, bucket, None, [])
        case Some(key) => FromFetch(bucket, key, env)
  }

  /** From the fetch of the object (line 36) on. */
  function FromFetch(bucket: Option<string>, key: string, env: Services): Invocation {
    var fetched := [GetObject(bucket, key)];
    match env.fetch
    case Failure(m) => Fatal(FetchFailed(m), bucket, Some(key), fetched)
    case Success(content) =>
      var lines := Lines(content);
      var t := Run(lines, Headers(content), key, env.rowClock, env.put, |lines|);
      FromNotice(bucket, key, t, fetched + PutCalls(t.items), env)
  }

  /** From the completion notice (lines 80-98) on, once the loop has produced `t`. */
  function FromNotice(bucket: Option<string>, key: string, t: Tally, calls: seq<Call>, env: Services): Invocation {
    var published := calls + [Publish(CompletionNotice(key, bucket, t.processedCount, t.errors, env.noticeTime))];
    match env.completionPublish
    case Published => Invocation(Returned(200, t.processedCount, |t.errors|), published)
    case PublishFailed(m) => Fatal(PublishRejected(m), bucket, Some(key), published)
  }

  lemma FromFetchSucceeded(bucket: Option<string>, key: string, env: Services, content: string)
    requires env.fetch == Success(content)
    ensures var lines := Lines(content);
      var t := Run(lines, Headers(content), key, env.rowClock, env.put, |lines|);
      FromFetch(bucket, key, env) == FromNotice(bucket, key, t, [GetObject(bucket, key)] + PutCalls(t.items), env)
  {
  }

  /** Once the object is fetched, the loop runs over all its lines and the completion notice follows. */
  lemma PreparedShape(event: Event, env: Services)
    requires Prepared(event, env)
    ensures var content := env.fetch.value;
      var lines := Lines(content);
      var key := DecodedKey(event);
      var bucket := event.records[0].bucketName;
      var t := Run(lines, Headers(content), key, env.rowClock, env.put, |lines|);
      Invoke(event, env) == FromNotice(bucket, key, t, [GetObject(bucket, key)] + PutCalls(t.items), env)
  {
    FromFetchSucceeded(event.records[0].bucketName, DecodedKey(event), env, env.fetch.value);
  }

  /** The handler, statement by statement. */
  method Handle(event: Event, env: Services) returns (inv: Invocation)
    ensures inv == Invoke(event, env)
  {
    var calls: seq<Call> := [];
    var bucket: Option<string> := None;
    var key: Option<string> := None;
    var fault: Fault;
    // try
    if |event.records| == 0 {
      fault := MalformedEvent;
    } else {
      bucket := event.records[0].bucketName;
      match event.records[0].objectKey {
        case None =>
          fault := MalformedEvent;
        case Some(raw) =>
          match DecodeKey(raw) {
            case None =>
              fault := MalformedKey;
            case Some(k) =>
              key := Some(k);
              calls := [GetObject(bucket, k)];
              match env.fetch {
                case Failure(m) =>
                  fault := FetchFailed(m);
                case Success(content) =>
                  var lines := Lines(content);
                  var headers := Headers(content);
                  var processedCount, errors, items := ProcessRows(lines, headers, k, env.rowClock, env.put);
                  calls := calls + PutCalls(items);
                  FromFetchSucceeded(bucket, k, env, content);
                  calls := calls + [Publish(CompletionNotice(k, bucket, processedCount, errors, env.noticeTime))];
                  match env.completionPublish {
                    case Published =>
                      return Invocation(Returned(200, processedCount, |errors|), calls);
                    case PublishFailed(m) =>
                      fault := PublishRejected(m);
                  }
              }
          }
      }
    }
    // catch (error)
    calls := calls + [Publish(FailureNotice(fault, OrUnknown(key), OrUnknown(bucket)))];
    match env.failurePublish {
      case Published =>
      case PublishFailed(_) =>  // caught and only logged
    }
    inv := Invocation(Threw(fault), calls);
  }

  // ---- Properties of the outcome ----

  /** Everything the `try` needs before the row loop: a first record with a key that decodes, and a fetched object. */
  predicate Prepared(event: Event, env: Services) {
    && |event.records| > 0
    && event.records[0].objectKey.Some?
    && DecodeKey(event.records[0].objectKey.value).Some?
    && env.fetch.Success?
  }

  function DecodedKey(event: Event): string
    requires |event.records| > 0 && event.records[0].objectKey.Some?
    requires DecodeKey(event.records[0].objectKey.value).Some?
  {
    DecodeKey(event.records[0].objectKey.value).value
  }

  function CountPuts(calls: seq<Call>): nat {
    if calls == [] then 0 else (if calls[0].PutItem? then 1 else 0) + CountPuts(calls[1..])
  }

  function CountFailureNotices(calls: seq<Call>): nat {
    if calls == [] then 0
    else (if calls[0].Publish? && calls[0].notice.FailureNotice? then 1 else 0) + CountFailureNotices(calls[1..])
  }

  function CountPublishes(calls: seq<Call>): nat {
    if calls == [] then 0 else (if calls[0].Publish? then 1 else 0) + CountPublishes(calls[1..])
  }

  lemma {:induction false} CountsConcat(a: seq<Call>, b: seq<Call>)
    ensures CountPuts(a + b) == CountPuts(a) + CountPuts(b)
    ensures CountFailureNotices(a + b) == CountFailureNotices(a) + CountFailureNotices(b)
    ensures CountPublishes(a + b) == CountPublishes(a) + CountPublishes(b)
  {
    if a != [] {
      assert (a + b)[1..] == a[1..] + b;
      CountsConcat(a[1..], b);
    } else {
      assert a + b == b;
    }
  }

  lemma {:induction false} CountsOfPutCalls(items: seq<Item>)
    ensures CountPuts(PutCalls(items)) == |items|
    ensures CountFailureNotices(PutCalls(items)) == 0
    ensures CountPublishes(PutCalls(items)) == 0
  {
    if items != [] {
      assert PutCalls(items)[1..] == PutCalls(items[1..]);
      CountsOfPutCalls(items[1..]);
    }
  }

  /** The `catch` block adds exactly one call, the failure notice, and no write. */
  lemma FatalCalls(fault: Fault, bucket: Option<string>, key: Option<string>, calls: seq<Call>)
    ensures var inv := Fatal(fault, bucket, key, calls);
      && inv.outcome == Threw(fault)
      && |inv.calls| == |calls| + 1
      && inv.calls[..|calls|] == calls
      && inv.calls[|calls|] == Publish(FailureNotice(fault, OrUnknown(key), OrUnknown(bucket)))
      && CountPuts(inv.calls) == CountPuts(calls)
      && CountFailureNotices(inv.calls) == CountFailureNotices(calls) + 1
      && CountPublishes(inv.calls) == CountPublishes(calls) + 1
  {
    var last := Publish(FailureNotice(fault, OrUnknown(key), OrUnknown(bucket)));
    CountsConcat(calls, [last]);
    assert [last][1..] == [];
  }

  /** The calls made before any notice once the object is fetched: the fetch, then one write per item. */
  lemma CallsBeforeNotice(fetch: Call, items: seq<Item>)
    requires fetch.GetObject?
    ensures var calls := [fetch] + PutCalls(items);
      && CountPuts(calls) == |items|
      && CountFailureNotices(calls) == 0
      && CountPublishes(calls) == 0
  {
    CountsOfPutCalls(items);
    CountsConcat([fetch], PutCalls(items));
    assert [fetch][1..] == [];
  }

  /** What follows the row loop: the completion notice, then a return or the `catch` block. */
  lemma FromNoticeCalls(bucket: Option<string>, key: string, t: Tally, calls: seq<Call>, env: Services)
    ensures var inv := FromNotice(bucket, key, t, calls, env);
      var notice := Publish(CompletionNotice(key, bucket, t.processedCount, t.errors, env.noticeTime));
      && (env.completionPublish.Published? ==>
            inv == Invocation(Returned(200, t.processedCount, |t.errors|), calls + [notice]))
      && (env.completionPublish.PublishFailed? ==>
            inv == Fatal(PublishRejected(env.completionPublish.message), bucket, Some(key), calls + [notice]))
      && CountPuts(calls + [notice]) == CountPuts(calls)
      && CountFailureNotices(calls + [notice]) == CountFailureNotices(calls)
      && CountPublishes(calls + [notice]) == CountPublishes(calls) + 1
  {
    var notice := Publish(CompletionNotice(key, bucket, t.processedCount, t.errors, env.noticeTime));
    CountsConcat(calls, [notice]);
    assert [notice][1..] == [];
  }

  /** The fault raised inside the `try` when the object was never fetched. */
  function EarlyFault(event: Event, env: Services): Fault
    requires !Prepared(event, env)
  {
    if |event.records| == 0 || event.records[0].objectKey.None? then MalformedEvent
    else if DecodeKey(event.records[0].objectKey.value).None? then MalformedKey
    else FetchFailed(env.fetch.error)
  }

  /** `bucket` as the `catch` block sees it: set once the first record was read. */
  function BucketSeen(event: Event): Option<string> {
    if |event.records| == 0 then None else event.records[0].bucketName
  }

  /** `key` as the `catch` block sees it: set once the raw key was decoded. */
  function KeySeen(event: Event): Option<string> {
    if |event.records| > 0 && event.records[0].objectKey.Some?
       && DecodeKey(event.records[0].objectKey.value).Some?
    then Some(DecodedKey(event))
    else None
  }

  /** The handler when it fails before the row loop: at most the fetch, then the `catch` block. */
  lemma UnpreparedShape(event: Event, env: Services)
    requires !Prepared(event, env)
    ensures var calls := if KeySeen(event).Some? then [GetObject(BucketSeen(event), KeySeen(event).value)] else [];
      && CountPuts(calls) == 0 && CountFailureNotices(calls) == 0 && CountPublishes(calls) == 0
      && Invoke(event, env) == Fatal(EarlyFault(event, env), BucketSeen(event), KeySeen(event), calls)
  {
    if KeySeen(event).Some? {
      var bucket := event.records[0].bucketName;
      var key := DecodedKey(event);
      var calls := [GetObject(bucket, key)];
      assert Invoke(event, env) == FromFetch(bucket, key, env);
      assert calls[1..] == [];
    }
  }

  /**
   * The handler returns normally exactly when the event is well formed,
   * the key decodes, the fetch succeeds and the completion notice is
   * published; the result is then 200 with the loop's counts, which add up
   * to the number of data rows.
   */
  lemma ReturnsOnlyWhenAllSucceed(event: Event, env: Services)
    ensures Invoke(event, env).outcome.Returned? <==>
      Prepared(event, env) && env.completionPublish.Published?
    ensures Invoke(event, env).outcome.Returned? ==>
      var lines := Lines(env.fetch.value);
      var t := Run(lines, Headers(env.fetch.value), DecodedKey(event), env.rowClock, env.put, |lines|);
      && Invoke(event, env).outcome == Returned(200, t.processedCount, |t.errors|)
      && t.processedCount + |t.errors| == |lines| - 1
      && t.processedCount == StoredCount(env.put, |lines|)
      && |t.errors| == |FailedRows(env.put, |lines|)|
  {
    if Prepared(event, env) {
      var content := env.fetch.value;
      var lines := Lines(content);
      var key := DecodedKey(event);
      var bucket := event.records[0].bucketName;
      var headers := Headers(content);
      var t := Run(lines, headers, key, env.rowClock, env.put, |lines|);
      PreparedShape(event, env);
      FromNoticeCalls(bucket, key, t, [GetObject(bucket, key)] + PutCalls(t.items), env);
      RunAttemptsEveryRow(lines, headers, key, env.rowClock, env.put, |lines|);
      RunCountsStored(lines, headers, key, env.rowClock, env.put, |lines|);
      RunErrorsAreFailedRows(lines, headers, key, env.rowClock, env.put, |lines|);
    } else {
      UnpreparedShape(event, env);
    }
  }

  /**
   * A failure before the loop (bad event, undecodable key, failed fetch)
   * writes nothing: the only calls are the fetch, when it was reached, and
   * one failure notice carrying the original error.
   */
  lemma FailureBeforeLoopWritesNothing(event: Event, env: Services)
    requires !Prepared(event, env)
    ensures var inv := Invoke(event, env);
      && inv.outcome == Threw(EarlyFault(event, env))
      && CountPuts(inv.calls) == 0
      && 1 <= |inv.calls| <= 2
      && CountPublishes(inv.calls) == 1
      && inv.calls[|inv.calls| - 1]
           == Publish(FailureNotice(EarlyFault(event, env), OrUnknown(KeySeen(event)), OrUnknown(BucketSeen(event))))
      && (KeySeen(event).Some? <==> |inv.calls| == 2)
  {
    UnpreparedShape(event, env);
    var calls := if KeySeen(event).Some? then [GetObject(BucketSeen(event), KeySeen(event).value)] else [];
    FatalCalls(EarlyFault(event, env), BucketSeen(event), KeySeen(event), calls);
  }

  /**
   * Every thrown error gets exactly one failure-notice attempt, made last
   * and carrying that error, and a normal return gets none; one or two
   * notices are attempted in all.
   */
  lemma ThrowsIffOneFailureNotice(event: Event, env: Services)
    ensures var inv := Invoke(event, env);
      && (inv.outcome.Threw? <==> CountFailureNotices(inv.calls) == 1)
      && (inv.outcome.Returned? <==> CountFailureNotices(inv.calls) == 0)
      && 1 <= CountPublishes(inv.calls) <= 2
      && (inv.outcome.Threw? ==>
            && inv.calls[|inv.calls| - 1].Publish?
            && inv.calls[|inv.calls| - 1].notice.FailureNotice?
            && inv.calls[|inv.calls| - 1].notice.fault == inv.outcome.fault)
  {
    if Prepared(event, env) {
      var content := env.fetch.value;
      var lines := Lines(content);
      var key := DecodedKey(event);
      var bucket := event.records[0].bucketName;
      var t := Run(lines, Headers(content), key, env.rowClock, env.put, |lines|);
      var calls := [GetObject(bucket, key)] + PutCalls(t.items);
      var notice := Publish(CompletionNotice(key, bucket, t.processedCount, t.errors, env.noticeTime));
      PreparedShape(event, env);
      CallsBeforeNotice(GetObject(bucket, key), t.items);
      FromNoticeCalls(bucket, key, t, calls, env);
      if env.completionPublish.PublishFailed? {
        FatalCalls(PublishRejected(env.completionPublish.message), bucket, Some(key), calls + [notice]);
      }
    } else {
      UnpreparedShape(event, env);
      var calls := if KeySeen(event).Some? then [GetObject(BucketSeen(event), KeySeen(event).value)] else [];
      FatalCalls(EarlyFault(event, env), BucketSeen(event), KeySeen(event), calls);
    }
  }

  /**
   * Once the object is fetched, every data row is written exactly once and
   * in order, whatever the individual writes answer; every item carries the
   * decoded key as `sourceFile`.
   */
  lemma OneWritePerDataRow(event: Event, env: Services)
    requires Prepared(event, env)
    ensures var inv := Invoke(event, env);
      var lines := Lines(env.fetch.value);
      var key := DecodedKey(event);
      && CountPuts(inv.calls) == |lines| - 1
      && |inv.calls| > |lines|
      && inv.calls[0] == GetObject(event.records[0].bucketName, key)
      && forall j :: 1 <= j < |lines| ==>
           && inv.calls[j] == PutItem(RowObject(lines, Headers(env.fetch.value), key, env.rowClock, j))
           && inv.calls[j].item[SourceFile] == key
  {
    var content := env.fetch.value;
    var lines := Lines(content);
    var key := DecodedKey(event);
    var headers := Headers(content);
    var t := Run(lines, headers, key, env.rowClock, env.put, |lines|);
    PreparedShape(event, env);
    WritesPrecedeNotice(event.records[0].bucketName, key, t, env);
    RunAttemptsEveryRow(lines, headers, key, env.rowClock, env.put, |lines|);
    forall j | 1 <= j < |lines|
      ensures RowObject(lines, headers, key, env.rowClock, j)[SourceFile] == key
    {
      RowItemMetadata(headers, Fields(lines[j]), env.rowClock(j), key);
    }
  }

  /** Whatever the notice's fate, the calls start with the fetch and one write per item, in order. */
  lemma WritesPrecedeNotice(bucket: Option<string>, key: string, t: Tally, env: Services)
    ensures var inv := FromNotice(bucket, key, t, [GetObject(bucket, key)] + PutCalls(t.items), env);
      && CountPuts(inv.calls) == |t.items|
      && |inv.calls| > |t.items| + 1
      && inv.calls[0] == GetObject(bucket, key)
      && forall j :: 1 <= j <= |t.items| ==> inv.calls[j] == PutItem(t.items[j - 1])
  {
    var calls := [GetObject(bucket, key)] + PutCalls(t.items);
    var notice := Publish(CompletionNotice(key, bucket, t.processedCount, t.errors, env.noticeTime));
    var inv := FromNotice(bucket, key, t, calls, env);
    CallsBeforeNotice(GetObject(bucket, key), t.items);
    FromNoticeCalls(bucket, key, t, calls, env);
    if env.completionPublish.PublishFailed? {
      FatalCalls(PublishRejected(env.completionPublish.message), bucket, Some(key), calls + [notice]);
    }
    assert inv.calls[..|calls|] == calls by {
      assert inv.calls[..|calls| + 1] == calls + [notice];
    }
    forall j | 1 <= j <= |t.items|
      ensures inv.calls[j] == PutItem(t.items[j - 1])
    {
      IndexAfterFetch(GetObject(bucket, key), t.items, j);
      assert inv.calls[j] == inv.calls[..|calls|][j];
    }
  }

  lemma IndexAfterFetch(fetch: Call, items: seq<Item>, j: nat)
    requires 1 <= j <= |items|
    ensures ([fetch] + PutCalls(items))[j] == PutItem(items[j - 1])
  {
  }

  /**
   * A rejected completion notice (line 98 sits inside the `try`) turns a
   * finished batch into a thrown error: the completion notice is followed by
   * a failure notice and the publish error is rethrown.
   */
  lemma CompletionPublishFailureRethrows(event: Event, env: Services)
    requires Prepared(event, env) && env.completionPublish.PublishFailed?
    ensures var inv := Invoke(event, env);
      && inv.outcome == Threw(PublishRejected(env.completionPublish.message))
      && |inv.calls| >= 3
      && inv.calls[|inv.calls| - 2].Publish? && inv.calls[|inv.calls| - 2].notice.CompletionNotice?
      && inv.calls[|inv.calls| - 1].Publish? && inv.calls[|inv.calls| - 1].notice.FailureNotice?
  {
    var content := env.fetch.value;
    var lines := Lines(content);
    var key := DecodedKey(event);
    var bucket := event.records[0].bucketName;
    var t := Run(lines, Headers(content), key, env.rowClock, env.put, |lines|);
    var calls := [GetObject(bucket, key)] + PutCalls(t.items);
    var notice := Publish(CompletionNotice(key, bucket, t.processedCount, t.errors, env.noticeTime));
    PreparedShape(event, env);
    FromNoticeCalls(bucket, key, t, calls, env);
    FatalCalls(PublishRejected(env.completionPublish.message), bucket, Some(key), calls + [notice]);
  }

  /** The result of the failure-notice attempt never changes what the handler does. */
  lemma FailureNoticeResultIgnored(event: Event, env: Services, other: PublishResult)
    ensures Invoke(event, env) == Invoke(event, env.(failurePublish := other))
  {
  }
}
