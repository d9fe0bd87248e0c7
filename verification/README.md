# easy-flink configuration reader, in Dafny

This project models `ConfigReader`, the configuration helper of the easy-flink
utilities. It has two parts:

- **Starting-offset selection.** `getOffsetsInitializer` turns a policy name
  into the Kafka source's starting-offset strategy. The name is either a string
  (which may be null) or the `startingOffsets` entry of a `ParameterTool`. There
  are six strategies: earliest, latest, committed offsets with reset
  LATEST/EARLIEST/NONE, and a timestamp. Names are compared exactly,
  case-sensitively, and any other name falls back to latest.
- **Loaders.** Four loaders read properties or raw text from a local file or
  from S3. They share one rule. An `IOException` is rethrown when `failOnError`
  holds. Otherwise it is replaced by a fixed fallback: the system properties for
  the two parameter loaders, `""` for the two text loaders. No other exception
  is caught.

Modules:

- `Wrappers`: `Option`, `Result`, `Outcome`.
- `JavaTypes`: the 64-bit `Long` and the `Exception` kinds.
- `ParameterTool`: the `get`/`getLong` accessors with defaults.
- `OffsetsInitializer`: the strategies, and the recognised-name table as a
  first-match lookup. That lookup is the reference definition the selector is
  proved against.
- `ConfigReader`: the six operations of the Java class.
- `ConfigReaderProperties`: lemmas that relate several calls.

The reads themselves are inputs to the model: a file read, an S3 fetch,
properties parsing, a text decode, a stream close, and the system properties.
Each loader receives the outcome of its read as a `Result`/`Outcome` value, so
every success and failure path can be stated.

## Model

| member | source | states |
|---|---|---|
| `ConfigReader.GetOffsetsInitializer` | src/main/java/io/github/devlibx/easy/flink/utils/ConfigReader.java:119-135 | the selected strategy is the one the recognised-name table gives the name (exact match), `latest` for a null or unlisted name; a timestamp strategy carries the given timestamp |
| `ConfigReader.GetOffsetsInitializerFromParameters` | src/main/java/io/github/devlibx/easy/flink/utils/ConfigReader.java:97-114 | an absent `startingOffsets` key gives `earliest`; a success is the table's strategy for the looked-up name, and a timestamp strategy carries the value `getLong` read; the only failure is a non-numeric `startingOffsetsTimestamp` when the name is `timestamp` |
| `ConfigReader.Recover` | src/main/java/io/github/devlibx/easy/flink/utils/ConfigReader.java:29-34 | a successful read is returned unchanged; with `failOnError` the read's outcome is returned as is; without it no `IOException` escapes, and a value that differs from the read came from the fallback after an `IOException` |
| `ConfigReader.ReadConfigsFromFile` | src/main/java/io/github/devlibx/easy/flink/utils/ConfigReader.java:26-36 | the parsed file, or on `IOException` a rethrow (`failOnError`) or the system properties; other exceptions pass through |
| `ConfigReader.ReadConfigsFromFileAsString` | src/main/java/io/github/devlibx/easy/flink/utils/ConfigReader.java:41-51 | the file's text, or on `IOException` a rethrow (`failOnError`) or `""`; other exceptions pass through |
| `ConfigReader.S3ParametersRead` | src/main/java/io/github/devlibx/easy/flink/utils/ConfigReader.java:57-65 | the try body succeeds exactly when fetch, parse and close all succeed, and then yields the parsed properties; otherwise it throws what the first failing step threw |
| `ConfigReader.ReadConfigsFromS3` | src/main/java/io/github/devlibx/easy/flink/utils/ConfigReader.java:56-73 | a fully successful fetch/parse/close returns the parsed properties; an `IOException` from any step is rethrown (`failOnError`) or replaced by the system properties; any other exception from any step passes through |
| `ConfigReader.S3TextRead` | src/main/java/io/github/devlibx/easy/flink/utils/ConfigReader.java:80-84 | the try body succeeds exactly when fetch and text read succeed; a fetch failure ends it before the read |
| `ConfigReader.ReadConfigsFromS3AsString` | src/main/java/io/github/devlibx/easy/flink/utils/ConfigReader.java:78-92 | a successful fetch and text read returns the text; an `IOException` from either step is rethrown (`failOnError`) or replaced by `""`; any other exception passes through |
| `ParameterTool.Get` | src/main/java/io/github/devlibx/easy/flink/utils/ConfigReader.java:98 | an absent key yields the default, a present key its property's text |
| `ParameterTool.GetLong` | src/main/java/io/github/devlibx/easy/flink/utils/ConfigReader.java:110 | an absent key yields the default, a numeric property its value, a non-numeric property a `NumberFormatException` |
| `OffsetsInitializer.Instantiate` | src/main/java/io/github/devlibx/easy/flink/utils/ConfigReader.java:120-131 | supplying the timestamp keeps the strategy's kind and sets the timestamp of a timestamp strategy |
| `OffsetsInitializer.FirstMatch` | src/main/java/io/github/devlibx/easy/flink/utils/ConfigReader.java:120-133 | the lookup fails exactly when no table entry has the name, and a found kind belongs to an entry with that name |
| `OffsetsInitializer.FirstMatchIsFirst` | src/main/java/io/github/devlibx/easy/flink/utils/ConfigReader.java:120-133 | the lookup finds the first entry with the name, as the if-chain tests the names in order |
| `OffsetsInitializer.FirstMatchOfDistinctKey` | src/main/java/io/github/devlibx/easy/flink/utils/ConfigReader.java:120-131 | in a table without repeated names, looking up an entry's name finds that entry, so the order of the tests does not matter |
| `OffsetsInitializer.TableIsWellFormed` | src/main/java/io/github/devlibx/easy/flink/utils/ConfigReader.java:120-131 | the six names are distinct, each is the configuration name of its kind, and every kind is listed |
| `OffsetsInitializer.NameRoundTrip` | src/main/java/io/github/devlibx/easy/flink/utils/ConfigReader.java:120-131 | looking up a kind's configuration name finds that kind |
| `OffsetsInitializer.RecognisedIffMatched` | src/main/java/io/github/devlibx/easy/flink/utils/ConfigReader.java:120-133 | a name is recognised exactly when the table lookup finds it |
| `ConfigReaderProperties.RecognisedNamesSelectTheirPolicy` | src/main/java/io/github/devlibx/easy/flink/utils/ConfigReader.java:119-131 | each of the six names selects exactly its strategy; `timestamp` carries the given timestamp unchanged |
| `ConfigReaderProperties.KindNameSelectsKind` | src/main/java/io/github/devlibx/easy/flink/utils/ConfigReader.java:119-131 | the configuration name of any kind selects that kind with the given timestamp |
| `ConfigReaderProperties.PolicyRoundTrip` | src/main/java/io/github/devlibx/easy/flink/utils/ConfigReader.java:119-131 | every strategy is produced from its own name (and its own timestamp): selection has an inverse |
| `ConfigReaderProperties.UnrecognisedSelectsLatest` | src/main/java/io/github/devlibx/easy/flink/utils/ConfigReader.java:132-133 | a null or unlisted name selects `latest` |
| `ConfigReaderProperties.LatestIffLatestOrUnrecognised` | src/main/java/io/github/devlibx/easy/flink/utils/ConfigReader.java:119-135 | `latest` is selected if and only if the name is `latest` or is not recognised |
| `ConfigReaderProperties.SelectionDeterminesName` | src/main/java/io/github/devlibx/easy/flink/utils/ConfigReader.java:120-131 | a recognised name is the one configuration name of the strategy it selects: no two names select the same strategy |
| `ConfigReaderProperties.TimestampIrrelevantOtherwise` | src/main/java/io/github/devlibx/easy/flink/utils/ConfigReader.java:119-135 | for every other name the timestamp does not affect the result, which is never a timestamp strategy |
| `ConfigReaderProperties.CaseVariantSelectsLatest` | src/main/java/io/github/devlibx/easy/flink/utils/ConfigReader.java:120-133 | a name differing from a configuration name only in letter case selects `latest` |
| `ConfigReaderProperties.NearMissesSelectLatest` | src/main/java/io/github/devlibx/easy/flink/utils/ConfigReader.java:120-133 | `Earliest` and ` earliest` select `latest` |
| `ConfigReaderProperties.ParameterOverloadAgrees` | src/main/java/io/github/devlibx/easy/flink/utils/ConfigReader.java:97-114 | when the timestamp lookup succeeds, the parameter overload equals the string overload applied to `get("startingOffsets","earliest")` and `getLong("startingOffsetsTimestamp",0)` |
| `ConfigReaderProperties.TimestampPropertyReadOnlyWhenSelected` | src/main/java/io/github/devlibx/easy/flink/utils/ConfigReader.java:109-110 | for any name but `timestamp` the parameter overload succeeds and agrees with the string overload for every timestamp |
| `ConfigReaderProperties.MissingKeyDiffersFromNullName` | src/main/java/io/github/devlibx/easy/flink/utils/ConfigReader.java:98-133 | an absent `startingOffsets` key gives `earliest`, while a null name gives `latest` and an empty value gives `latest` |
| `ConfigReaderProperties.MissingTimestampIsZero` | src/main/java/io/github/devlibx/easy/flink/utils/ConfigReader.java:109-110 | `startingOffsets=timestamp` without a timestamp property gives timestamp 0 |
| `ConfigReaderProperties.MalformedTimestampThrowsIffSelected` | src/main/java/io/github/devlibx/easy/flink/utils/ConfigReader.java:98-113 | a non-numeric timestamp property makes the parameter overload throw if and only if the name is `timestamp` |
| `ConfigReaderProperties.FailSoftAbsorbsIOFailures` | src/main/java/io/github/devlibx/easy/flink/utils/ConfigReader.java:26-92 | fail-soft never throws `IOException` and yields the fallback after one; fail-fast throws it exactly when the read did |
| `ConfigReaderProperties.FailSoftExtendsFailFast` | src/main/java/io/github/devlibx/easy/flink/utils/ConfigReader.java:26-92 | whenever fail-fast returns a value, fail-soft returns the same value |
| `ConfigReaderProperties.OtherExceptionsPropagate` | src/main/java/io/github/devlibx/easy/flink/utils/ConfigReader.java:26-92 | an exception other than `IOException` escapes all four loaders whatever `failOnError` says, from whichever step of the S3 reads (fetch, parse, close, text read) it comes |
| `ConfigReaderProperties.SuccessfulReadsUnchanged` | src/main/java/io/github/devlibx/easy/flink/utils/ConfigReader.java:26-92 | a successful read is returned unchanged by all four loaders whatever `failOnError` says |
| `ConfigReaderProperties.S3CloseFailureDiscardsParsedProperties` | src/main/java/io/github/devlibx/easy/flink/utils/ConfigReader.java:62-71 | an `IOException` from closing the S3 stream discards the parsed properties: fail-soft returns the system properties, fail-fast rethrows |

## Left out

- File reads, the S3 client and `AmazonS3URI` bucket/key parsing, charset decoding and properties parsing are library calls. Each is modelled only as the success or failure outcome it delivers.
- `ParameterTool.GetLong`: what `Long.parseLong` makes of a property's text is an input (`Property.asLong`), not a parser. The model does not tie `asLong` to `text`.
- `ConfigReader.S3ParametersRead`, `ConfigReader.S3TextRead`: the fetch step (URI parsing, client creation, `getObject`) declares no checked exception, so in the program it cannot throw `IOException`. The model lets the `fetched` outcome be any exception, which is a harmless over-approximation: an `IOException` there is treated like one from the later steps.
- Stream release. `readConfigsFromS3` closes the stream only after a successful parse. `readConfigsFromS3AsString` never closes it. `readConfigsFromFileAsString` never closes the stream `Files.newInputStream` opens. The model therefore makes no claim that handles are released on every path.
- The bookkeeping `ParameterTool` does on each lookup (recording defaults and requested keys) is left out. It does not affect the values returned.
- The system properties used as the fallback are an input, not read from the running process.
- `Configuration.java` is a data holder with no behaviour and is not part of this model.
