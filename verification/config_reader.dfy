/** The configuration reader: four loaders that share one fail-fast/fail-soft
    rule, and the selection of a Kafka starting-offset policy from its
    configured name. The reads themselves (file system, S3, properties
    parsing) are not modelled; each loader receives the outcome of its read. */
module ConfigReader {
  import opened Wrappers
  import opened JavaTypes
  import opened ParameterTool
  import opened OffsetsInitializer

  const StartingOffsetsKey: string := "startingOffsets"
  const StartingOffsetsTimestampKey: string := "startingOffsetsTimestamp"
  /** The name assumed when the parameters carry no `startingOffsets` key. */
  const DefaultStartingOffsets: string := "earliest"
  /** The timestamp assumed when the parameters carry no `startingOffsetsTimestamp` key. */
  const DefaultTimestamp: Long := 0

  /** The call ended by throwing an `IOException`. */
  predicate ThrowsIO<T>(r: Result<T, Exception>) {
    r.Failure? && r.error.IOException?
  }

  // ---------------------------------------------------------------------------
  // Loaders
  // ---------------------------------------------------------------------------

  /** The catch clause every loader shares: an `IOException` from the read is
      rethrown when `failOnError` holds and replaced by `fallback` otherwise;
      no other exception is caught. */
  function Recover<T>(read: Result<T, Exception>, failOnError: bool, fallback: T): (r: Result<T, Exception>)
    ensures read.Success? ==> r == read
    ensures failOnError ==> r == read
    ensures !failOnError ==> !ThrowsIO(r)
    ensures r.Failure? ==> r == read
    ensures r.Success? && read.Failure? ==> r.value == fallback && ThrowsIO(read)
  {
    match read
    case Success(_) => read
    case Failure(e) => if e.IOException? && !failOnError then Success(fallback) else read
  }

  /** `readConfigsFromFile`: the parsed properties file, or the system
      properties when the read fails with `IOException` and `failOnError` is false. */
  function ReadConfigsFromFile(read: Result<Parameters, Exception>, failOnError: bool,
                               systemProperties: Parameters): (r: Result<Parameters, Exception>)
    ensures read.Success? ==> r == read
    ensures ThrowsIO(read) ==> r == (if failOnError then read else Success(systemProperties))
    ensures read.Failure? && !ThrowsIO(read) ==> r == read
  {
    Recover(read, failOnError, systemProperties)
  }

  /** `readConfigsFromFileAsString`: the file's text, or `""` when the read
      fails with `IOException` and `failOnError` is false. */
  function ReadConfigsFromFileAsString(read: Result<string, Exception>, failOnError: bool): (r: Result<string, Exception>)
    ensures read.Success? ==> r == read
    ensures ThrowsIO(read) ==> r == (if failOnError then read else Success(""))
    ensures read.Failure? && !ThrowsIO(read) ==> r == read
  {
    Recover(read, failOnError, "")
  }

  /** The body of the `try` in `readConfigsFromS3`: resolve and fetch the
      object (`fetched`), parse its stream as properties (`parsed`), close the
      stream (`closed`). The first step that throws ends the body; a step after
      it never runs. */
  function S3ParametersRead(fetched: Outcome<Exception>, parsed: Result<Parameters, Exception>,
                            closed: Outcome<Exception>): (r: Result<Parameters, Exception>)
    ensures r.Success? <==> fetched.Pass? && parsed.Success? && closed.Pass?
    ensures r.Success? ==> r.value == parsed.value
    ensures fetched.Fail? ==> r == Failure(fetched.error)
    ensures fetched.Pass? && parsed.Failure? ==> r == parsed
    ensures fetched.Pass? && parsed.Success? && closed.Fail? ==> r == Failure(closed.error)
  {
    match fetched
    case Fail(e) => Failure(e)
    case Pass =>
      match parsed
      case Failure(e) => Failure(e)
      case Success(p) =>
        match closed
        case Fail(e) => Failure(e)
        case Pass => Success(p)
  }

  /** `readConfigsFromS3`: the S3 object parsed as properties, or the system
      properties when any step fails with `IOException` and `failOnError` is false. */
  function ReadConfigsFromS3(fetched: Outcome<Exception>, parsed: Result<Parameters, Exception>,
                             closed: Outcome<Exception>, failOnError: bool,
                             systemProperties: Parameters): (r: Result<Parameters, Exception>)
    ensures var t := S3ParametersRead(fetched, parsed, closed);
            t.Success? ==> r == t
    ensures var t := S3ParametersRead(fetched, parsed, closed);
            ThrowsIO(t) ==> r == (if failOnError then t else Success(systemProperties))
    ensures var t := S3ParametersRead(fetched, parsed, closed);
            t.Failure? && !ThrowsIO(t) ==> r == t
  {
    Recover(S3ParametersRead(fetched, parsed, closed), failOnError, systemProperties)
  }

  /** The body of the `try` in `readConfigsFromS3AsString`: resolve and fetch
      the object, then read its stream as text. The stream is not closed. */
  function S3TextRead(fetched: Outcome<Exception>, text: Result<string, Exception>): (r: Result<string, Exception>)
    ensures r.Success? <==> fetched.Pass? && text.Success?
    ensures fetched.Fail? ==> r == Failure(fetched.error)
    ensures fetched.Pass? ==> r == text
  {
    match fetched
    case Fail(e) => Failure(e)
    case Pass => text
  }

  /** `readConfigsFromS3AsString`: the S3 object's text, or `""` when any step
      fails with `IOException` and `failOnError` is false. */
  function ReadConfigsFromS3AsString(fetched: Outcome<Exception>, text: Result<string, Exception>,
                                     failOnError: bool): (r: Result<string, Exception>)
    ensures var t := S3TextRead(fetched, text);
            t.Success? ==> r == t
    ensures var t := S3TextRead(fetched, text);
            ThrowsIO(t) ==> r == (if failOnError then t else Success(""))
    ensures var t := S3TextRead(fetched, text);
            t.Failure? && !ThrowsIO(t) ==> r == t
  {
    Recover(S3TextRead(fetched, text), failOnError, "")
  }

  // ---------------------------------------------------------------------------
  // Starting-offset selection
  // ---------------------------------------------------------------------------

  /** `getOffsetsInitializer(String, long)`: the policy the recognised-name table
      gives the name (compared exactly, case included), `Latest` for a null or
      unrecognised name; the timestamp is used by the `timestamp` policy only. */
  function GetOffsetsInitializer(offset: Option<string>, startingOffsetsTimestamp: Long): (r: OffsetPolicy)
    ensures KindOf(r) == FirstMatch(Table, offset).GetOr(LatestKind)
    ensures r.Timestamp? ==> r.ts == startingOffsetsTimestamp
  {
    if offset == Some("earliest") then Earliest
    else if offset == Some("latest") then Latest
    else if offset == Some("committedOffsetsLatest") then Committed(LATEST)
    else if offset == Some("committedOffsetsEarliest") then Committed(EARLIEST)
    else if offset == Some("committedOffsetsNone") then Committed(NONE)
    else if offset == Some("timestamp") then Timestamp(startingOffsetsTimestamp)
    else Latest
  }

  /** `getOffsetsInitializer(ParameterTool)`: the same selection, with the name
      read from `startingOffsets` (default `earliest`) and, for the `timestamp`
      policy only, the timestamp read from `startingOffsetsTimestamp`
      (default 0), whose text may fail to read as a `long`. */
  function GetOffsetsInitializerFromParameters(parameters: Parameters): (r: Result<OffsetPolicy, Exception>)
    ensures StartingOffsetsKey !in parameters ==> r == Success(Earliest)
    ensures r.Failure? ==>
              && Get(parameters, StartingOffsetsKey, DefaultStartingOffsets) == "timestamp"
              && StartingOffsetsTimestampKey in parameters
              && parameters[StartingOffsetsTimestampKey].asLong.None?
              && r.error == NumberFormatException(parameters[StartingOffsetsTimestampKey].text)
    ensures r.Success? && r.value.Timestamp? ==>
              GetLong(parameters, StartingOffsetsTimestampKey, DefaultTimestamp) == Success(r.value.ts)
    ensures r.Success? ==>
              KindOf(r.value) == FirstMatch(Table, Some(Get(parameters, StartingOffsetsKey, DefaultStartingOffsets))).GetOr(LatestKind)
  {
    var offset := Get(parameters, StartingOffsetsKey, DefaultStartingOffsets);
    if offset == "earliest" then Success(Earliest)
    else if offset == "latest" then Success(Latest)
    else if offset == "committedOffsetsLatest" then Success(Committed(LATEST))
    else if offset == "committedOffsetsEarliest" then Success(Committed(EARLIEST))
    else if offset == "committedOffsetsNone" then Success(Committed(NONE))
    else if offset == "timestamp" then
      GetLong(parameters, StartingOffsetsTimestampKey, DefaultTimestamp).MapValue(ts => Timestamp(ts))
    else Success(Latest)
  }
}
