/**
 * The object-storage client: credential validation, deletion, and the upload with bounded
 * retry and doubling backoff.
 * The storage service is seen only through the outcome of each request.
 */
module Uploader {
  import opened Common
  import opened Text
  import opened Paths
  import opened Files
  import opened UploadErrors
  import opened ObjectKeys

  const MaxRetries: nat := 3
  const InitialRetryDelayMs: nat := 1000

  /** The object written and removed again to validate credentials, and its body `b"test"`. */
  const TestKey := ".zipdrop-connection-test"
  const TestData: seq<byte> := [0x74, 0x65, 0x73, 0x74]

  datatype R2Config = R2Config(accessKey: string, secretKey: string, bucketName: string, accountId: string, publicUrlBase: string)

  datatype UploadResult = UploadResult(url: string, key: string, size: u64)

  /** Building the client: `Credentials::new` and `Bucket::new` may each fail. */
  datatype ClientSetup = ClientReady | CredentialsFailed(reason: string) | BucketFailed(reason: string)

  /** What one PUT returns: a response with its status code, or a transport error with its text. */
  datatype PutOutcome = Response(status: u16) | TransportError(message: string)

  /** What one DELETE returns. */
  datatype DeleteOutcome = Deleted(status: u16) | DeleteFailed(message: string)

  /** A request sent to the bucket; a PUT without content type uses the client's default. */
  datatype Request = Put(key: string, body: seq<byte>, contentType: Option<string>) | Delete(key: string)

  /** The result of an operation together with the requests it sent, in order. */
  datatype Exchange = Exchange(result: Result<(), string>, requests: seq<Request>)

  // ---------------------------------------------------------------------------------------
  // Credential validation and deletion
  // ---------------------------------------------------------------------------------------

  /**
   * `validate_r2_credentials`: write the test object; on status 200 delete it, ignoring the
   * outcome. Credentials are accepted exactly when the test write answers 200, only then is
   * the test object deleted, and every rejection is one of the three fixed messages.
   */
  function ValidateR2Credentials(client: ClientSetup, put: PutOutcome): (x: Exchange)
    ensures x.result.Ok? <==> client.ClientReady? && put == Response(200)
    ensures Delete(TestKey) in x.requests <==> x.result.Ok?
    ensures client.ClientReady? ==> |x.requests| >= 1 && x.requests[0] == Put(TestKey, TestData, None)
    ensures !client.ClientReady? ==> x.requests == []
    ensures x.result.Err? ==>
      x.result.error == TimedOutMessage || x.result.error == ConnectionFailedMessage ||
      x.result.error == InvalidCredentialsMessage
    ensures client.ClientReady? && put.Response? && put.status != 200 ==> x.result == Err(InvalidCredentialsMessage)
    ensures client.ClientReady? && put.TransportError? ==> x.result == Err(FriendlyError(put.message))
  {
    match client
    case CredentialsFailed(e) => Exchange(Err(FriendlyError(e)), [])
    case BucketFailed(e) => Exchange(Err(FriendlyError(e)), [])
    case ClientReady =>
      var write := Put(TestKey, TestData, None);
      match put
      case Response(status) =>
        if status == 200 then Exchange(Ok(()), [write, Delete(TestKey)])
        else Exchange(Err(InvalidCredentialsMessage), [write])
      case TransportError(e) => Exchange(Err(FriendlyError(e)), [write])
  }

  /** The error of a client that could not be built. */
  function ClientError(client: ClientSetup): string {
    match client
    case CredentialsFailed(e) => "Failed to create credentials: " + e
    case BucketFailed(e) => "Failed to create bucket: " + e
    case ClientReady => ""
  }

  /**
   * `delete_from_r2`: a single DELETE, which fails exactly when that attempt fails, its error
   * text kept behind a prefix.
   */
  function DeleteFromR2(client: ClientSetup, key: string, outcome: DeleteOutcome): (x: Exchange)
    ensures x.requests == if client.ClientReady? then [Delete(key)] else []
    ensures client.ClientReady? ==> (x.result.Err? <==> outcome.DeleteFailed?)
    ensures client.ClientReady? && outcome.DeleteFailed? ==>
      x.result == Err("Failed to delete from R2: " + outcome.message)
    ensures !client.ClientReady? ==> x.result.Err?
  {
    if !client.ClientReady? then Exchange(Err(ClientError(client)), [])
    else
      match outcome
      case Deleted(_) => Exchange(Ok(()), [Delete(key)])
      case DeleteFailed(e) => Exchange(Err("Failed to delete from R2: " + e), [Delete(key)])
  }

  // ---------------------------------------------------------------------------------------
  // Upload with retry
  // ---------------------------------------------------------------------------------------

  /** Whether the loop goes round again after this outcome, when attempts remain. */
  predicate ShouldRetry(outcome: PutOutcome): (b: bool)
    ensures outcome.Response? && b ==> 502 <= outcome.status <= 504
  {
    match outcome
    case Response(status) => status == 502 || status == 503 || status == 504
    case TransportError(e) => IsTransientError(UploadErrorPrefix + e)
  }

  /** A transport error is retried exactly when its own text is transient. */
  lemma RetryDecision(outcome: PutOutcome)
    ensures outcome.TransportError? ==> (ShouldRetry(outcome) <==> IsTransientError(outcome.message))
    ensures outcome.Response? ==> (ShouldRetry(outcome) <==> outcome.status in {502, 503, 504})
  {
    if outcome.TransportError? {
      PrefixedTransience(outcome.message);
    }
  }

  /** The error an unsuccessful attempt leaves. */
  function AttemptError(outcome: PutOutcome): string {
    match outcome
    case Response(status) => "R2 upload failed with status: " + NatToString(status)
    case TransportError(e) => UploadErrorPrefix + e
  }

  /** What the loop returns after its last attempt. */
  function AttemptResult(last: PutOutcome, base: string, key: string, size: u64): (r: Result<UploadResult, string>)
    ensures r.Ok? <==> last == Response(200)
    ensures r.Ok? ==> r.value.key == key && r.value.size == size
    ensures last.TransportError? ==> r == Err(UploadErrorPrefix + last.message)
  {
    if last == Response(200) then Ok(UploadResult(PublicUrl(base, key), key, size))
    else Err(AttemptError(last))
  }

  /** The wait before retry k + 1: the initial delay, doubled after every retry. */
  function Backoff(k: nat): nat {
    if k == 0 then InitialRetryDelayMs else 2 * Backoff(k - 1)
  }

  function Pow2(k: nat): nat {
    if k == 0 then 1 else 2 * Pow2(k - 1)
  }

  /** The k-th wait is 1000 ms times 2^k. */
  lemma {:induction false} BackoffIsExponential(k: nat)
    ensures Backoff(k) == InitialRetryDelayMs * Pow2(k)
  {
    if k > 0 {
      BackoffIsExponential(k - 1);
    }
  }

  /**
   * `upload_to_r2`. Attempt k is answered by `transport(k)`. Returns the result, the PUTs sent
   * and the delays slept between them, in milliseconds.
   */
  method UploadToR2(fs: FileSystem, file: Path, id: string, config: R2Config, client: ClientSetup,
                    transport: nat -> PutOutcome)
    returns (r: Result<UploadResult, string>, requests: seq<Request>, slept: seq<nat>)
    ensures ReadFile(fs, file).Err? ==>
      r == Err("Failed to read file for upload: " + ReadFile(fs, file).error) && requests == [] && slept == []
    ensures ReadFile(fs, file).Ok? && !client.ClientReady? ==>
      r == Err(ClientError(client)) && requests == [] && slept == []
    ensures ReadFile(fs, file).Ok? && client.ClientReady? ==>
      && 1 <= |requests| <= MaxRetries
      && (forall k :: 0 <= k < |requests| ==>
            requests[k] == Put(ObjectKey(id, file), ReadFile(fs, file).value, Some(ContentType(UploadExtension(file)))))
      && (forall k :: 0 <= k < |requests| - 1 ==> ShouldRetry(transport(k)))
      && |slept| == |requests| - 1
      && (forall k :: 0 <= k < |slept| ==> slept[k] == Backoff(k))
    ensures ReadFile(fs, file).Ok? && client.ClientReady? && |requests| < MaxRetries ==>
      !ShouldRetry(transport(|requests| - 1))
    ensures ReadFile(fs, file).Ok? && client.ClientReady? ==>
      r == AttemptResult(transport(|requests| - 1), config.publicUrlBase, ObjectKey(id, file), |ReadFile(fs, file).value|)
  {
    var fileData := ReadFile(fs, file);
    if fileData.Err? {
      return Err("Failed to read file for upload: " + fileData.error), [], [];
    }
    var data := fileData.value;
    var fileSize: u64 := |data|;
    var ext := UploadExtension(file);
    var key := ObjectKey(id, file);
    var contentType := ContentType(ext);
    if !client.ClientReady? {
      return Err(ClientError(client)), [], [];
    }
    r, requests, slept := RetryPut(Put(key, data, Some(contentType)), transport, config.publicUrlBase, key, fileSize);
  }

  /**
   * The retry loop of `upload_to_r2`: send `request` until it answers 200, fails in a way that
   * is not retried, or three attempts are used up, doubling the wait after each retry.
   */
  method RetryPut(request: Request, transport: nat -> PutOutcome, base: string, key: string, fileSize: u64)
    returns (r: Result<UploadResult, string>, requests: seq<Request>, slept: seq<nat>)
    ensures 1 <= |requests| <= MaxRetries
    ensures forall k :: 0 <= k < |requests| ==> requests[k] == request
    ensures forall k :: 0 <= k < |requests| - 1 ==> ShouldRetry(transport(k))
    ensures |requests| < MaxRetries ==> !ShouldRetry(transport(|requests| - 1))
    ensures |slept| == |requests| - 1
    ensures forall k :: 0 <= k < |slept| ==> slept[k] == Backoff(k)
    ensures r == AttemptResult(transport(|requests| - 1), base, key, fileSize)
  {
    requests, slept := [], [];
    var attempts: nat := 0;
    var delay: nat := InitialRetryDelayMs;
    while true
      invariant attempts < MaxRetries
      invariant |requests| == attempts && forall k :: 0 <= k < attempts ==> requests[k] == request
      invariant |slept| == attempts && forall k :: 0 <= k < attempts ==> slept[k] == Backoff(k)
      invariant delay == Backoff(attempts)
      invariant forall k :: 0 <= k < attempts ==> ShouldRetry(transport(k))
      decreases MaxRetries - attempts
    {
      attempts := attempts + 1;
      requests := requests + [request];
      var retry, result := HandleAnswer(transport(attempts - 1), attempts, base, key, fileSize);
      if !retry {
        return result, requests, slept;
      }
      slept := slept + [delay];
      delay := delay * 2;
    }
  }

  /**
   * The body of one round of the retry loop: given the answer to attempt number `attempts`,
   * whether to go round again, and otherwise what the upload returns.
   */
  method HandleAnswer(outcome: PutOutcome, attempts: nat, base: string, key: string, fileSize: u64)
    returns (retry: bool, result: Result<UploadResult, string>)
    ensures retry <==> ShouldRetry(outcome) && attempts < MaxRetries
    ensures !retry ==> result == AttemptResult(outcome, base, key, fileSize)
  {
    match outcome
    case Response(status) =>
      if status == 200 {
        return false, Ok(UploadResult(PublicUrl(base, key), key, fileSize));
      }
      var lastError := AttemptError(outcome);
      if (status == 502 || status == 503 || status == 504) && attempts < MaxRetries {
        return true, Err(lastError);
      }
      return false, Err(lastError);
    case TransportError(e) =>
      var lastError := AttemptError(outcome);
      if IsTransientError(lastError) && attempts < MaxRetries {
        return true, Err(lastError);
      }
      return false, Err(lastError);
  }

  /** Two 503 answers then a 200: success on the third attempt, after waiting 1000 ms and then 2000 ms. */
  method RecoversAfterTwoUnavailable(fs: FileSystem, file: Path, id: string, config: R2Config)
    returns (r: Result<UploadResult, string>, requests: seq<Request>, slept: seq<nat>)
    requires ReadFile(fs, file).Ok?
    ensures r.Ok? && r.value.key == ObjectKey(id, file)
    ensures |requests| == 3 && slept == [1000, 2000]
  {
    r, requests, slept := UploadToR2(fs, file, id, config, ClientReady,
                                     k => if k < 2 then Response(503) else Response(200));
    assert slept[0] == 1000 && slept[1] == 2000;
  }

  /** A 500 answer is not retried: one attempt, no wait, the status in the error. */
  method FailsFastOnServerError(fs: FileSystem, file: Path, id: string, config: R2Config)
    returns (r: Result<UploadResult, string>, requests: seq<Request>, slept: seq<nat>)
    requires ReadFile(fs, file).Ok?
    ensures r == Err("R2 upload failed with status: 500")
    ensures |requests| == 1 && slept == []
  {
    var transport: nat -> PutOutcome := k => Response(500);
    r, requests, slept := UploadToR2(fs, file, id, config, ClientReady, transport);
    assert !ShouldRetry(transport(0));
    assert |requests| == 1;
    assert r == Err(AttemptError(Response(500)));
    ServerErrorText();
  }

  lemma ServerErrorText()
    ensures AttemptError(Response(500)) == "R2 upload failed with status: 500"
  {
    assert NatToString(500) == "500" by {
      assert NatToString(5) == "5";
      assert NatToString(50) == NatToString(5) + "0";
      assert NatToString(500) == NatToString(50) + "0";
    }
    assert "R2 upload failed with status: " + "500" == "R2 upload failed with status: 500";
  }

  /** Three transient errors in a row use up the attempts: the third error is returned after 1000 ms and 2000 ms of waiting. */
  method GivesUpAfterThreeTransientErrors(fs: FileSystem, file: Path, id: string, config: R2Config, e: string)
    returns (r: Result<UploadResult, string>, requests: seq<Request>, slept: seq<nat>)
    requires ReadFile(fs, file).Ok? && IsTransientError(e)
    ensures r == Err(UploadErrorPrefix + e)
    ensures |requests| == 3 && slept == [1000, 2000]
  {
    RetryDecision(TransportError(e));
    r, requests, slept := UploadToR2(fs, file, id, config, ClientReady, k => TransportError(e));
    assert slept[0] == 1000 && slept[1] == 2000;
  }
}
