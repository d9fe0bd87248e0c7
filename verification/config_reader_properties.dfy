/** Properties of the configuration reader that relate several calls:
    the recognised-name table, exact matching, the role of the timestamp,
    the agreement of the two selection overloads, and the loaders'
    fail-fast/fail-soft rule. */
module ConfigReaderProperties {
  import opened Wrappers
  import opened JavaTypes
  import opened ParameterTool
  import opened OffsetsInitializer
  import opened ConfigReader

  // ---------------------------------------------------------------------------
  // Starting-offset selection
  // ---------------------------------------------------------------------------

  /** Each recognised name selects exactly its policy. */
  lemma RecognisedNamesSelectTheirPolicy(ts: Long)
    ensures GetOffsetsInitializer(Some("earliest"), ts) == Earliest
    ensures GetOffsetsInitializer(Some("latest"), ts) == Latest
    ensures GetOffsetsInitializer(Some("committedOffsetsLatest"), ts) == Committed(LATEST)
    ensures GetOffsetsInitializer(Some("committedOffsetsEarliest"), ts) == Committed(EARLIEST)
    ensures GetOffsetsInitializer(Some("committedOffsetsNone"), ts) == Committed(NONE)
    ensures GetOffsetsInitializer(Some("timestamp"), ts) == Timestamp(ts)
  {
    KindNameSelectsKind(EarliestKind, ts);
    KindNameSelectsKind(LatestKind, ts);
    KindNameSelectsKind(CommittedKind(LATEST), ts);
    KindNameSelectsKind(CommittedKind(EARLIEST), ts);
    KindNameSelectsKind(CommittedKind(NONE), ts);
    KindNameSelectsKind(TimestampKind, ts);
  }

  /** The name of any kind selects that kind, with the given timestamp. */
  lemma KindNameSelectsKind(k: PolicyKind, ts: Long)
    ensures GetOffsetsInitializer(Some(NameOf(k)), ts) == Instantiate(k, ts)
  {
  }

  /** Every policy is produced from its own configuration name (and, for a
      timestamp policy, its own timestamp): selection has an inverse. */
  lemma PolicyRoundTrip(p: OffsetPolicy, ts: Long)
    requires p.Timestamp? ==> ts == p.ts
    ensures GetOffsetsInitializer(Some(NameOf(KindOf(p))), ts) == p
  {
  }

  /** A null name and every name outside the table select `Latest`. */
  lemma UnrecognisedSelectsLatest(offset: Option<string>, ts: Long)
    requires !IsRecognised(offset)
    ensures GetOffsetsInitializer(offset, ts) == Latest
  {
  }

  /** `Latest` is selected exactly by the name `latest` and by every
      unrecognised or null name. */
  lemma LatestIffLatestOrUnrecognised(offset: Option<string>, ts: Long)
    ensures GetOffsetsInitializer(offset, ts) == Latest <==> offset == Some("latest") || !IsRecognised(offset)
  {
  }

  /** A recognised name is the one configuration name of the policy it selects:
      no two names select the same policy. */
  lemma SelectionDeterminesName(offset: Option<string>, ts: Long)
    requires IsRecognised(offset)
    ensures offset == Some(NameOf(KindOf(GetOffsetsInitializer(offset, ts))))
  {
  }

  /** For every name but `timestamp` the timestamp has no effect on the result. */
  lemma TimestampIrrelevantOtherwise(offset: Option<string>, ts1: Long, ts2: Long)
    requires offset != Some("timestamp")
    ensures GetOffsetsInitializer(offset, ts1) == GetOffsetsInitializer(offset, ts2)
    ensures !GetOffsetsInitializer(offset, ts1).Timestamp?
  {
  }

  /** The ASCII case folding used to state that matching is case-sensitive. */
  function LowerAscii(c: char): (lower: char) {
    if 'A' <= c <= 'Z' then (c as int + 32) as char else c
  }

  predicate EqualsIgnoringCase(a: string, b: string) {
    |a| == |b| && forall i :: 0 <= i < |a| ==> LowerAscii(a[i]) == LowerAscii(b[i])
  }

  /** Matching is case-sensitive: a name that differs from a recognised name
      only in letter case is not recognised and selects `Latest`. (The
      recognised names have pairwise different lengths, so a case variant of
      one of them cannot be another.) */
  lemma CaseVariantSelectsLatest(s: string, k: PolicyKind, ts: Long)
    requires EqualsIgnoringCase(s, NameOf(k))
    requires s != NameOf(k)
    ensures GetOffsetsInitializer(Some(s), ts) == Latest
  {
  }

  /** Two concrete near-misses: a capitalised and a space-padded name. */
  lemma NearMissesSelectLatest(ts: Long)
    ensures GetOffsetsInitializer(Some("Earliest"), ts) == Latest
    ensures GetOffsetsInitializer(Some(" earliest"), ts) == Latest
  {
  }

  // ---------------------------------------------------------------------------
  // The two overloads
  // ---------------------------------------------------------------------------

  /** When the timestamp property reads as a `long` (or is absent), the
      parameter overload is the string overload applied to the name looked up
      with default `earliest` and the timestamp looked up with default 0. */
  lemma ParameterOverloadAgrees(parameters: Parameters)
    requires GetLong(parameters, StartingOffsetsTimestampKey, DefaultTimestamp).Success?
    ensures GetOffsetsInitializerFromParameters(parameters)
            == Success(GetOffsetsInitializer(
                 Some(Get(parameters, StartingOffsetsKey, DefaultStartingOffsets)),
                 GetLong(parameters, StartingOffsetsTimestampKey, DefaultTimestamp).value))
  {
  }

  /** The timestamp property is consulted only for the `timestamp` policy:
      otherwise the parameter overload succeeds whatever that property holds,
      and agrees with the string overload for any timestamp. */
  lemma TimestampPropertyReadOnlyWhenSelected(parameters: Parameters, ts: Long)
    requires Get(parameters, StartingOffsetsKey, DefaultStartingOffsets) != "timestamp"
    ensures GetOffsetsInitializerFromParameters(parameters)
            == Success(GetOffsetsInitializer(Some(Get(parameters, StartingOffsetsKey, DefaultStartingOffsets)), ts))
  {
  }

  /** A missing `startingOffsets` key means `earliest`, whereas a null name
      passed to the string overload means `latest`; an empty value is an
      unrecognised name and also means `latest`. */
  lemma MissingKeyDiffersFromNullName(ts: Long, parameters: Parameters)
    requires StartingOffsetsKey !in parameters
    ensures GetOffsetsInitializerFromParameters(parameters) == Success(Earliest)
    ensures GetOffsetsInitializer(None, ts) == Latest
    ensures GetOffsetsInitializerFromParameters(parameters[StartingOffsetsKey := Property("", None)]) == Success(Latest)
  {
  }

  /** With `startingOffsets=timestamp` and no timestamp property, the policy
      starts at timestamp 0. */
  lemma MissingTimestampIsZero(parameters: Parameters)
    requires StartingOffsetsKey in parameters && parameters[StartingOffsetsKey].text == "timestamp"
    requires StartingOffsetsTimestampKey !in parameters
    ensures GetOffsetsInitializerFromParameters(parameters) == Success(Timestamp(0))
  {
  }

  /** A timestamp property that is not a `long` makes the parameter overload
      throw exactly when the `timestamp` policy is selected. */
  lemma MalformedTimestampThrowsIffSelected(parameters: Parameters)
    requires StartingOffsetsTimestampKey in parameters
    requires parameters[StartingOffsetsTimestampKey].asLong.None?
    ensures GetOffsetsInitializerFromParameters(parameters).Failure?
            <==> Get(parameters, StartingOffsetsKey, DefaultStartingOffsets) == "timestamp"
  {
  }

  // ---------------------------------------------------------------------------
  // Loaders
  // ---------------------------------------------------------------------------

  /** Fail-soft never throws an `IOException`; fail-fast throws it exactly when the read did. */
  lemma FailSoftAbsorbsIOFailures<T>(read: Result<T, Exception>, fallback: T)
    ensures !ThrowsIO(Recover(read, false, fallback))
    ensures ThrowsIO(Recover(read, true, fallback)) <==> ThrowsIO(read)
    ensures ThrowsIO(read) ==> Recover(read, false, fallback) == Success(fallback)
  {
  }

  /** Whenever fail-fast returns a value, fail-soft returns the same value. */
  lemma FailSoftExtendsFailFast<T>(read: Result<T, Exception>, fallback: T)
    requires Recover(read, true, fallback).Success?
    ensures Recover(read, false, fallback) == Recover(read, true, fallback)
  {
  }

  /** Only `IOException` is caught: any other exception, from whichever step
      of the read, escapes every loader whatever `failOnError` says. */
  lemma OtherExceptionsPropagate(e: Exception, failOnError: bool, systemProperties: Parameters,
                                 fetched: Outcome<Exception>, parsed: Result<Parameters, Exception>,
                                 closed: Outcome<Exception>, text: Result<string, Exception>)
    requires !e.IOException?
    ensures ReadConfigsFromFile(Failure(e), failOnError, systemProperties) == Failure(e)
    ensures ReadConfigsFromFileAsString(Failure(e), failOnError) == Failure(e)
    ensures S3ParametersRead(fetched, parsed, closed) == Failure(e)
            ==> ReadConfigsFromS3(fetched, parsed, closed, failOnError, systemProperties) == Failure(e)
    ensures S3TextRead(fetched, text) == Failure(e)
            ==> ReadConfigsFromS3AsString(fetched, text, failOnError) == Failure(e)
  {
  }

  /** A successful read is returned unchanged by every loader, whatever `failOnError` says. */
  lemma SuccessfulReadsUnchanged(p: Parameters, s: string, failOnError: bool, systemProperties: Parameters)
    ensures ReadConfigsFromFile(Success(p), failOnError, systemProperties) == Success(p)
    ensures ReadConfigsFromFileAsString(Success(s), failOnError) == Success(s)
    ensures ReadConfigsFromS3(Pass, Success(p), Pass, failOnError, systemProperties) == Success(p)
    ensures ReadConfigsFromS3AsString(Pass, Success(s), failOnError) == Success(s)
  {
  }

  /** Failing to close the S3 stream throws `IOException` after the
      properties were parsed; the parsed properties are then lost: fail-soft
      returns the system properties and fail-fast rethrows. */
  lemma S3CloseFailureDiscardsParsedProperties(p: Parameters, m: string, systemProperties: Parameters)
    ensures ReadConfigsFromS3(Pass, Success(p), Fail(IOException(m)), false, systemProperties) == Success(systemProperties)
    ensures ReadConfigsFromS3(Pass, Success(p), Fail(IOException(m)), true, systemProperties) == Failure(IOException(m))
  {
  }
}
