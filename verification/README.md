# XchangeCore OpenFeedProcessor — a Dafny model of the feed scan and the poll loop

The OpenFeedProcessor reads a Java properties file that describes numbered feeds
(`url1`, `username1`, `password1`, `outfile1`, `pollInterval1`, `url2`, ...). It
checks every entry and hands each valid one to a thread pool. There a `PollXCore`
task fetches the feed's URL with HTTP Basic authentication, copies the response
to the output file, sleeps for the poll interval and repeats.

This project models both parts:

- **`OpenFeedProcessor`** (`open_feed_processor.dfy`). `processURLs` is a pure
  function from the loaded properties (`map<string, string>`) to the ordered
  list of submitted feeds.
  - It walks `url1, url2, ...` up to the first missing index.
  - It examines every entry with the same branches, in the same order, as the
    Java code. `Integer.valueOf` can throw, and so can the null dereferences of
    a missing user name or password, and `Paths.get`. Each such exception skips
    only that entry.
  - It admits an entry exactly when all five checks pass.
- **`PollXCore`** (`poll_x_core.dfy`). The request is `getData`'s request: the
  Basic credentials header and the 30-second connect timeout. The `run` loop
  is a pure trace function over a finite sequence of rounds. Each round
  supplies:
  - what the connection, that is the server or the URL handler, does with the request;
  - whether `Files.copy` succeeds;
  - whether the sleep is interrupted.

  The trace records every fetch, write and sleep, why the loop stopped, and
  what the output file holds.
- **Java semantics the two need**, each as its own module:
  - `JavaInt`: 32-bit `int` wrap-around, `Integer.toString` and
    `Integer.parseInt`.
  - `UnixPath`: `Paths.get` on the Unix file-system provider.
  - `Utf8`: `String.getBytes()` with UTF-8 as the default charset.
  - `Base64`: commons-codec's `encodeBase64`, the encoding of section 4 of
    RFC 4648, with a strict decoder as its inverse.
  - `Wrappers`: `Option`.

Paths below are relative to the repository root.

## Behaviour worth knowing

These are points where the code does less than a reader might expect.

- A failed write ends polling for good. In `run` an `IOException` from
  `Files.copy` leaves the `while (true)` loop, so the feed is never polled
  again (`PollXCore.IterationShape`, `PollXCore.RunStopsAtFirstUnclean`).
- The output file is not replaced atomically. `Files.copy` with
  `REPLACE_EXISTING` can fail part-way, and that leaves the file
  `Indeterminate` (`PollXCore.RunFile`).
- Only the connect timeout is set. No read timeout is set, so a read can block
  forever (`PollXCore.RequestFor`: `readTimeoutMillis == None`).
- Fetch failures are not told apart. In `getData` every failure, including a
  malformed URL, an authentication error and a timeout, returns `null`
  (`PollXCore.GetData`).
- The poll interval is parsed but never range-checked
  (`OpenFeedProcessor.AnyParsedIntervalAccepted`). `pollInterval * 1000` is
  computed in `int` (`PollXCore.SleepMillisRange`):
  - From -2147483 to -1 seconds the sleep argument is negative.
  - From 2147484 to 4294967 seconds it wraps to a negative value.
  - In both cases `Thread.sleep` throws an `IllegalArgumentException` that
    `run` does not catch, so `run` ends after one fetch
    (`PollXCore.LongIntervalPollsOnce`).
  - From -4294967 to -2147484 seconds it wraps to a positive value, and
    polling goes on.
  - Intervals further out wrap again (`PollXCore.SleepMillisFarOut`). For
    example, -4294968 seconds gives -704 ms, and `run` ends. The most
    negative `int` gives 0 ms, so polling goes on with no pause at all.
- The user name `"username"` is refused as a placeholder. The password
  `"password"` is not (`OpenFeedProcessor.PlaceholderPasswordAccepted`).

## Model

| member | source | states |
|---|---|---|
| JavaInt.Mul32 | src/main/java/com/spotonresponse/xchangecore/PollXCore.java:41 | the 32-bit product: equal to the mathematical product when that fits in an `int`, and congruent to it modulo 2^32 always |
| JavaInt.NatToString | src/main/java/com/spotonresponse/xchangecore/OpenFeedProcessor.java:66 | the decimal form of an index that is appended to a field name: non-empty, only digits, no leading zero, one digit exactly below 10 |
| JavaInt.DigitsValueOfNatToString | src/main/java/com/spotonresponse/xchangecore/OpenFeedProcessor.java:66 | reading the decimal form back gives the index |
| JavaInt.NatToStringInjective | src/main/java/com/spotonresponse/xchangecore/OpenFeedProcessor.java:66 | distinct indices have distinct decimal forms |
| JavaInt.ParseInt | src/main/java/com/spotonresponse/xchangecore/OpenFeedProcessor.java:78 | `Integer.valueOf` succeeds only on a non-empty string whose characters after the first are digits and whose last character is a digit, so a lone sign is refused; a negative result needs a leading `-`. The converse and the exact value are `JavaInt.ParseIntSignedDigits` and `JavaInt.ParseIntAccepted` |
| JavaInt.ParseIntOfIntToString | src/main/java/com/spotonresponse/xchangecore/OpenFeedProcessor.java:78 | every `int`, zero and negative ones included, is parsed back from its decimal form |
| JavaInt.ParseIntSignedDigits | src/main/java/com/spotonresponse/xchangecore/OpenFeedProcessor.java:78 | with `JavaInt.Signed` as the reference value: a sign (`-`, `+` or none) followed by any non-empty run of digits, leading zeros included, is accepted exactly when its value fits in an `int`, and `JavaInt.ParseInt` then yields that value |
| JavaInt.ParseIntAccepted | src/main/java/com/spotonresponse/xchangecore/OpenFeedProcessor.java:78 | whatever `JavaInt.ParseInt` accepts splits into such a sign and a non-empty run of digits, and the result is their value |
| JavaInt.ParseIntExamples | src/main/java/com/spotonresponse/xchangecore/OpenFeedProcessor.java:78 | `"+60"` and `"0060"` are read as 60 and `"-007"` as -7; `""`, `"-"`, `"+"` and `"6O"` are refused |
| UnixPath.Collapse | src/main/java/com/spotonresponse/xchangecore/OpenFeedProcessor.java:105 | no `//` remains; the first and the last character are kept, and so is every non-slash character, in order |
| UnixPath.CollapseNames | src/main/java/com/spotonresponse/xchangecore/OpenFeedProcessor.java:105 | collapsing keeps the `/`-separated names (`UnixPath.Names`), in order |
| UnixPath.Normalize | src/main/java/com/spotonresponse/xchangecore/OpenFeedProcessor.java:105 | the path `Paths.get` keeps: no `//`, no trailing `/` except the root, empty exactly when the input is, absolute exactly when the input is, with the same `/`-separated names in the same order |
| UnixPath.GetPath | src/main/java/com/spotonresponse/xchangecore/OpenFeedProcessor.java:105 | `Paths.get` throws exactly when the string contains NUL; otherwise the path is in normal form, keeps whether the input is absolute, and keeps its names in order |
| UnixPath.CollapseKeepsNormal | src/main/java/com/spotonresponse/xchangecore/OpenFeedProcessor.java:105 | a string without `//` is left as it is |
| UnixPath.NormalizeIdempotent | src/main/java/com/spotonresponse/xchangecore/OpenFeedProcessor.java:105 | parsing an already parsed path gives it back |
| UnixPath.NormalizeSlashFree | src/main/java/com/spotonresponse/xchangecore/OpenFeedProcessor.java:105 | a plain file name such as `outfile1` is kept verbatim |
| UnixPath.NormalizeExamples | src/main/java/com/spotonresponse/xchangecore/OpenFeedProcessor.java:105 | `"a//b/"` becomes `"a/b"`, `"///"` becomes the root `"/"`, and `"/a"` stays `"/a"` |
| Utf8.EncodeChar | src/main/java/com/spotonresponse/xchangecore/PollXCore.java:61 | one to four bytes per character, ASCII as itself, other characters only as bytes of 0x80 and above |
| Utf8.DecodeEncodedChar | src/main/java/com/spotonresponse/xchangecore/PollXCore.java:61 | the bytes of one character decode back to it, whatever follows |
| Utf8.DecodeEncode | src/main/java/com/spotonresponse/xchangecore/PollXCore.java:61 | `getBytes()` (`Utf8.Encode`) loses nothing: the bytes decode back to the string |
| Base64.SymbolValue | src/main/java/com/spotonresponse/xchangecore/PollXCore.java:61 | each alphabet character stands for one 6-bit value, inverse of the alphabet table |
| Base64.Encode | src/main/java/com/spotonresponse/xchangecore/PollXCore.java:61 | the encoding has four characters per started group of three bytes |
| Base64.DecodeTriple | src/main/java/com/spotonresponse/xchangecore/PollXCore.java:61 | a full quantum decodes to its three bytes |
| Base64.DecodeEncode | src/main/java/com/spotonresponse/xchangecore/PollXCore.java:61 | decoding undoes `encodeBase64` for every byte string, padding included |
| Base64.EncodeDecode | src/main/java/com/spotonresponse/xchangecore/PollXCore.java:61 | whatever the strict decoder accepts is the encoding of what it yields, so encodings are canonical |
| Base64.AlphabetTable | src/main/java/com/spotonresponse/xchangecore/PollXCore.java:61 | `Base64.Symbol` maps 0, 25, 26, 51, 52, 61, 62 and 63 to `A`, `Z`, `a`, `z`, `0`, `9`, `+` and `/`, as in Table 1 of RFC 4648 |
| Base64.EncodeTestVectors | src/main/java/com/spotonresponse/xchangecore/PollXCore.java:61 | `Base64.Encode` gives the test vectors of section 10 of RFC 4648: `"f"` is `Zg==`, `"fo"` is `Zm8=`, `"foobar"` is `Zm9vYmFy` |
| OpenFeedProcessor.KeyInjective | src/main/java/com/spotonresponse/xchangecore/OpenFeedProcessor.java:66-105 | the property keys `field + index` of two fields or two indices never coincide |
| OpenFeedProcessor.UrlKeysBound | src/main/java/com/spotonresponse/xchangecore/OpenFeedProcessor.java:55-69 | if every url key below `n` is present the map has at least `n - 1` keys, so the scan ends |
| OpenFeedProcessor.Examine | src/main/java/com/spotonresponse/xchangecore/OpenFeedProcessor.java:58-127 | an entry throws exactly when its interval does not parse, its user name or password is absent, or its output path holds NUL. It is admitted exactly when nothing throws, the url, user name and password are non-empty, the user name is not `"username"` and an output file is given. An admitted entry copies url, user name and password verbatim, takes the parsed interval or 3600, and takes the parsed output path. A rejected entry lists every failed check of `OpenFeedProcessor.Checks` and only those; the interval is read by `OpenFeedProcessor.PollIntervalOf` |
| OpenFeedProcessor.ScanFrom | src/main/java/com/spotonresponse/xchangecore/OpenFeedProcessor.java:55-131 | from index `n` on: one outcome per present url key up to the first absent one, each the outcome of its own entry |
| OpenFeedProcessor.Scan | src/main/java/com/spotonresponse/xchangecore/OpenFeedProcessor.java:39-131 | the outcome of entry `k` is `Examine` of it for every `k` before the first absent `url<k>`; that key is absent |
| OpenFeedProcessor.Gap | src/main/java/com/spotonresponse/xchangecore/OpenFeedProcessor.java:66-69 | the index where the scan stops is the first whose url key is absent |
| OpenFeedProcessor.ScanAt | src/main/java/com/spotonresponse/xchangecore/OpenFeedProcessor.java:55-131 | each scanned position holds the outcome of its own entry |
| OpenFeedProcessor.SubmittedSound | src/main/java/com/spotonresponse/xchangecore/OpenFeedProcessor.java:115-119 | every submission carries the descriptor of an admitted entry within the scanned range |
| OpenFeedProcessor.SubmittedComplete | src/main/java/com/spotonresponse/xchangecore/OpenFeedProcessor.java:115-119 | every admitted entry is submitted with its own descriptor |
| OpenFeedProcessor.SubmittedOrdered | src/main/java/com/spotonresponse/xchangecore/OpenFeedProcessor.java:119-130 | submissions are made in strictly increasing index order, hence once each |
| OpenFeedProcessor.ProcessUrlsSubmitsAdmitted | src/main/java/com/spotonresponse/xchangecore/OpenFeedProcessor.java:39-131 | `OpenFeedProcessor.ProcessUrls` (the sequence of `tpe.execute` calls) is exactly the admitted entries before the first gap, in increasing index order, each with its own descriptor |
| OpenFeedProcessor.SubmissionSound | src/main/java/com/spotonresponse/xchangecore/OpenFeedProcessor.java:115-119 | a submitted feed comes from an admitted entry before the gap |
| OpenFeedProcessor.AdmittedSubmitted | src/main/java/com/spotonresponse/xchangecore/OpenFeedProcessor.java:115-119 | an admitted entry before the gap is submitted |
| OpenFeedProcessor.TemplateNeverAdmitted | src/main/java/com/spotonresponse/xchangecore/OpenFeedProcessor.java:146-149 | the first-run template is scanned as one entry, rejected for its placeholder user name alone, so nothing is submitted |
| OpenFeedProcessor.TemplateEntry | src/main/java/com/spotonresponse/xchangecore/OpenFeedProcessor.java:87-90 | entry 1 of the template is rejected with the placeholder user name as its only reason |
| OpenFeedProcessor.NormalizeOutfile1 | src/main/java/com/spotonresponse/xchangecore/OpenFeedProcessor.java:149 | the template's output file name is a valid path, kept verbatim |
| OpenFeedProcessor.OtherKeysUnchanged | src/main/java/com/spotonresponse/xchangecore/OpenFeedProcessor.java:66-105 | updating one field of one entry changes no other field of any entry |
| OpenFeedProcessor.ExamineFrame | src/main/java/com/spotonresponse/xchangecore/OpenFeedProcessor.java:66-105 | an entry's outcome depends only on its own keys |
| OpenFeedProcessor.UpdateSameOutside | src/main/java/com/spotonresponse/xchangecore/OpenFeedProcessor.java:66-105 | setting a non-url field of entry `n` leaves every field key of every other entry, and entry `n`'s url, as it was (`OpenFeedProcessor.SameOutside`) |
| OpenFeedProcessor.RemovalSameOutside | src/main/java/com/spotonresponse/xchangecore/OpenFeedProcessor.java:66-105 | deleting a non-url field of entry `n` does the same |
| OpenFeedProcessor.ExamineSameOutside | src/main/java/com/spotonresponse/xchangecore/OpenFeedProcessor.java:66-105 | when two maps differ only in the non-url fields of entry `n`, every other entry has the same outcome in both |
| OpenFeedProcessor.GapAgrees | src/main/java/com/spotonresponse/xchangecore/OpenFeedProcessor.java:66-69 | two maps with the same url keys up to the first gap stop at the same index |
| OpenFeedProcessor.HigherIndicesIgnored | src/main/java/com/spotonresponse/xchangecore/OpenFeedProcessor.java:66-69 | entries past the first gap are never examined: changing them changes neither the scan nor the submissions |
| OpenFeedProcessor.ScanAfterUpdate | src/main/java/com/spotonresponse/xchangecore/OpenFeedProcessor.java:125-130 | changing a non-url field of an entry before the gap changes that entry's outcome only, and the scan still stops at the same gap |
| OpenFeedProcessor.ScanSameOutside | src/main/java/com/spotonresponse/xchangecore/OpenFeedProcessor.java:125-130 | when two maps differ only in the non-url fields of an entry before the gap, their scans differ at that entry only and stop at the same gap |
| OpenFeedProcessor.ScanEntrySameOutside | src/main/java/com/spotonresponse/xchangecore/OpenFeedProcessor.java:125-130 | the same, for one position of the scan |
| OpenFeedProcessor.WithoutMembers | src/main/java/com/spotonresponse/xchangecore/OpenFeedProcessor.java:119 | dropping the submission of one entry keeps every other submission and only those |
| OpenFeedProcessor.SubmittedWithout | src/main/java/com/spotonresponse/xchangecore/OpenFeedProcessor.java:115-130 | replacing one entry's outcome by one that is not admitted removes exactly that entry's submission |
| OpenFeedProcessor.ChangedEntryCostsOnlyItself | src/main/java/com/spotonresponse/xchangecore/OpenFeedProcessor.java:125-130 | when such a change makes an entry before the gap not admitted, `OpenFeedProcessor.ProcessUrls` loses that entry's submission and no other, order kept |
| OpenFeedProcessor.SkippedEntryCostsOnlyItself | src/main/java/com/spotonresponse/xchangecore/OpenFeedProcessor.java:125-130 | an entry that a new value of one of its fields makes rejected, or makes its reading throw, costs only its own submission: the others are submitted as before, in the same order |
| OpenFeedProcessor.BadPollIntervalSkipsOnlyItsEntry | src/main/java/com/spotonresponse/xchangecore/OpenFeedProcessor.java:75-79 | an unparseable `pollInterval<n>` makes entry `n` throw and drops that entry alone |
| OpenFeedProcessor.MissingCredentialSkipsOnlyItsEntry | src/main/java/com/spotonresponse/xchangecore/OpenFeedProcessor.java:82-97 | deleting `username<n>` or `password<n>` makes entry `n` throw, a `NullPointerException` naming the missing one once the interval has been read, and drops that entry alone while the scan carries on |
| OpenFeedProcessor.PlaceholderPasswordAccepted | src/main/java/com/spotonresponse/xchangecore/OpenFeedProcessor.java:87-100 | the password `"password"` is never refused: a valid entry stays admitted with it |
| OpenFeedProcessor.AnyParsedIntervalAccepted | src/main/java/com/spotonresponse/xchangecore/OpenFeedProcessor.java:75-79 | any interval that parses as an `int`, zero and negative included, is accepted as the entry's interval: `OpenFeedProcessor.PollIntervalOf` reads it and `OpenFeedProcessor.Checks` has no check on it |
| OpenFeedProcessor.ZeroAndNegativeIntervalsParse | src/main/java/com/spotonresponse/xchangecore/OpenFeedProcessor.java:78 | `"0"` and `"-5"` are valid intervals |
| PollXCore.RequestFor | src/main/java/com/spotonresponse/xchangecore/PollXCore.java:64-70 | the request goes to the feed's url with its Basic credentials, a connect timeout of 30 × 1000 = 30000 ms and no read timeout |
| PollXCore.GetData | src/main/java/com/spotonresponse/xchangecore/PollXCore.java:56-86 | data comes back exactly when the URL parses and the server opens the response stream, and it is that stream; every failure gives `null` |
| PollXCore.SplitAtColonAfter | src/main/java/com/spotonresponse/xchangecore/PollXCore.java:60 | splitting `user:password` at its first colon gives the pair back when the user name has no colon |
| PollXCore.BasicCredentialsDecode | src/main/java/com/spotonresponse/xchangecore/PollXCore.java:60-70 | the header `PollXCore.BasicCredentials` builds (`Basic ` plus base64 of the `Utf8.Encode` bytes of `user:password`) decodes to exactly the configured user name and password (RFC 7617, section 2) |
| PollXCore.BasicCredentialsInjective | src/main/java/com/spotonresponse/xchangecore/PollXCore.java:60-70 | different credentials give different headers when user names have no colon |
| PollXCore.ColonInUsernameAmbiguous | src/main/java/com/spotonresponse/xchangecore/PollXCore.java:60 | a colon in the user name is let through, and then `a:b`/`c` and `a`/`b:c` send the same header |
| PollXCore.SleepMillisRange | src/main/java/com/spotonresponse/xchangecore/PollXCore.java:41 | `PollXCore.SleepMillis` is the interval in milliseconds from -2147483 to 2147483 s, hence negative for -2147483 to -1 s; from 2147484 to 4294967 s it wraps negative, and from -4294967 to -2147484 s it wraps positive |
| PollXCore.SleepMillisFarOut | src/main/java/com/spotonresponse/xchangecore/PollXCore.java:41 | further out the product wraps again: -4294968 s gives a negative argument of -704 ms, and the most negative `int` gives 0 ms |
| PollXCore.DefaultSleepIsAnHour | src/main/java/com/spotonresponse/xchangecore/OpenFeedProcessor.java:27 | the default interval sleeps 3600000 ms |
| PollXCore.IterationShape | src/main/java/com/spotonresponse/xchangecore/PollXCore.java:30-52 | one pass of `PollXCore.Iteration` starts with its fetch, writes exactly when the fetch returned data, fetches once, and sleeps once when it completes or is interrupted while asleep. It stops with a write failure exactly when data came back and the copy failed. It is interrupted exactly when that did not happen, the sleep argument is not negative, and the sleep was interrupted. It goes on exactly when none of the three exceptions arises. A completed pass ends with its sleep. The file then holds what was written, is unknown after a failed copy, and is unchanged otherwise |
| PollXCore.IterationStop | src/main/java/com/spotonresponse/xchangecore/PollXCore.java:30-52 | a pass stops for exactly the reason `PollXCore.RoundStop` gives from the round's inputs: failed copy of fetched data, then negative sleep argument, then interrupted sleep; otherwise it goes on |
| PollXCore.RunEventOrder | src/main/java/com/spotonresponse/xchangecore/PollXCore.java:30-42 | in the trace of `PollXCore.Run`, a write follows every fetch that returned data, with that data, and only such a fetch. Every fetch after the first comes right after a sleep of `pollInterval * 1000` ms, so fetches never overlap |
| PollXCore.RunCounts | src/main/java/com/spotonresponse/xchangecore/PollXCore.java:30-52 | a running `PollXCore.Run` loop fetches and sleeps exactly once per round. A stopped loop has fetched at most once per round, and slept once per fetch except after a failed write or an invalid sleep |
| PollXCore.RunFile | src/main/java/com/spotonresponse/xchangecore/PollXCore.java:32-39 | the output file ends unknown when the loop stopped on a write failure, which `PollXCore.IterationShape` ties to a failed copy of fetched data. Otherwise it holds the last data written, and it is untouched if nothing was written |
| PollXCore.RunStopIsFinal | src/main/java/com/spotonresponse/xchangecore/PollXCore.java:45-52 | once a write failure, an interrupt or an invalid sleep has ended the loop, later rounds add nothing; that those exceptions end it is `PollXCore.RunStopsAtFirstUnclean` |
| PollXCore.RunRunning | src/main/java/com/spotonresponse/xchangecore/PollXCore.java:30-42 | the `while (true)` loop of `PollXCore.Run` is still running after the given rounds exactly when every round was clean (`PollXCore.Clean`): no failed copy of fetched data, no negative sleep argument, no interrupt |
| PollXCore.RunStopsAtFirstUnclean | src/main/java/com/spotonresponse/xchangecore/PollXCore.java:30-52 | after `k` clean rounds, a round whose copy fails, whose sleep argument is negative or whose sleep is interrupted ends `run` with that round's reason, after `k + 1` fetches |
| PollXCore.NegativeSleepEndsFirstPass | src/main/java/com/spotonresponse/xchangecore/PollXCore.java:41 | a negative sleep argument ends `run` in its first pass, after one fetch and no sleep |
| PollXCore.LongIntervalPollsOnce | src/main/java/com/spotonresponse/xchangecore/PollXCore.java:41 | an interval between 2147484 and 4294967 s, which the scan accepts, polls once and never again |
| PollXCore.NoDataNoWrite | src/main/java/com/spotonresponse/xchangecore/PollXCore.java:32-39 | a fetch that returns `null` never touches the output file: with no data, no write is attempted and the file stays as it was |

## Left out

- The `ThreadPoolExecutor`, its bounded queue and its caller-runs policy
  (`OpenFeedProcessor.java:44-52`). Their point is concurrency and backpressure.
  Handing a task to the pool is modelled as appending a `Submission` to the
  result list. The concurrent execution of the feeds is not modelled.
  `OpenFeedProcessor.ProcessUrlsSubmitsAdmitted` therefore describes the order
  of the `execute` calls, not that every call is reached. Once the 10 workers
  are busy and the queue of 10 is full, caller-runs makes the next admitted
  entry run its never-ending `run` on the scanning thread inside `execute`,
  and later entries are handed over only if that loop ends.
- Logging, `main`, the version lookup, `System.exit`, and the stream handling
  of `loadProperties` and `createPropertiesFile`. These are I/O. Only the four
  properties the template writes are modelled (`OpenFeedProcessor.Template`).
- `HttpURLConnection`. What the server does is the `exchange` function of each
  round. Whether `new URL(...)` accepts the feed's url is the `urlParses`
  parameter, because the JDK's URL parser is not part of this model. A URL
  that parses but is not `http` or `https` (`file:`, `ftp:`, `jar:`) makes
  the `(HttpURLConnection)` cast throw `ClassCastException`, and `getData`
  returns `null`; the model folds this case into `exchange` answering
  `OtherFailure`, so `exchange` stands for the URL handler as well as the
  server. The
  status-code lookup in the `IOException` handler only chooses a log message.
- `Files.copy` reading the stream and writing the file. This is the
  `CopyResult` of each round. A failed copy leaves the file `Indeterminate`.
  The stream and connection that `run` never closes are not modelled.
- `Thread.sleep` timing. Only its argument and its interruption are modelled.
- JavaInt.ParseInt: accepts ASCII digits only. Java's `Integer.parseInt` also
  accepts decimal digits from other Unicode scripts.
- Utf8.EncodeChar: assumes the platform's default charset is UTF-8, as
  `getBytes()` without an argument depends on it. Dafny's `char` cannot hold
  a lone surrogate, which Java would replace by `?`.
- OpenFeedProcessor.ScanFrom: counts entries with an unbounded natural number.
  The Java `int` counter could wrap only after 2^31 - 1 entries, which no
  properties file reaches.
- UnixPath.GetPath: covers the Unix file-system provider only. Other
  providers, such as Windows drive letters and reserved characters, are out.
  It also assumes a UTF-8 file-name encoding: under another platform
  encoding, `Paths.get` also throws `InvalidPathException` for characters that
  encoding cannot map, which the model does not refuse.
- PollXCore.GetData: does not distinguish the failure kinds. They all yield
  `null`, and the logged message is not modelled.
- Base64.EncodeDecode: the decoder is strict (canonical padding bits, no line
  breaks). It is a reference inverse for the encoder; the program itself
  never decodes.
