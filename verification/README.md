# Adaptor library core, modelled in Dafny

This project models four small pieces of an adaptor library that feeds documents
from a repository to a search appliance. Each piece is stated in Dafny and proved
against its own properties.

- **DocId** (`doc_id.dfy`, with `form_url.dfy` and `paths.dfy`). A document's unique
  identifier and its read permissions. Construction refuses null arguments. Equality
  compares both fields, while the hash code uses only the identifier.
  - The feed URL is the configured URL beginning followed by the identifier's path.
    The identifier is split on '/' with empty pieces kept, and each piece is
    form-urlencoded (`application/x-www-form-urlencoded`, section 17.13.4.1 of
    HTML 4.01) after a '/'.
  - Decoding drops the path's first character, splits on '/', URL-decodes each
    piece and joins the pieces again.
  - In pass-through mode the identifier is the URL text itself.
  - `URLEncoder` and `URLDecoder` are modelled character by character
    (`form_url.dfy`). A run of escaped characters goes through a charset: two total
    functions between strings and bytes.
  - `String.split("/", -1)` and the string the encode and decode loops build are in
    `paths.dfy`.
- **Record and Record.Builder** (`record.dfy`).
  - `Record` is an immutable seven-field value. It has null-safe equality, a hash
    code and a debug string.
  - `Builder` is a class with seven mutable fields. It has two constructors and a
    fluent setter per field. `build` takes a snapshot and does not reset the
    builder.
- **Backoff retry decision** (`exception_handlers.dfy`). A handler built from
  (maximum tries, sleep duration, time unit) decides after each failed attempt.
  - Once the try count exceeds the maximum, it gives up.
  - Otherwise it asks for a sleep of `sleepDuration * ntries`, computed in Java
    `long` arithmetic.
  - The sleep is returned as part of the decision rather than performed.
- **AccumulatingDocIdPusher** (`accumulating_pusher.dfy`). A test pusher whose
  `pushRecords` appends each Record's DocId to a list. `reset` clears the list, and
  `pushNamedResources` always fails.

`jdk.dfy` holds the Java platform pieces used throughout:
- null as `Option`;
- a thrown exception as `Result.Failure`;
- `int` and `long` as bounded newtypes, with two's-complement wrap-around written
  out;
- `String.hashCode`.

Configuration lookups (`Config.getGsaCharacterEncoding`, `getUrlBeginning`,
`passDocIdToGsaWithoutModification`) are fields of a `DocIds.Config` value. The
charsets the runtime supports are a map from encoding name to charset. An encoding
that is not in the map is an unsupported encoding.

## Model

| member | source | states |
|---|---|---|
| Jdk.WrapInt32 | src/adaptorlib/DocId.java:114-116 | Java `int` arithmetic: the result is congruent to the mathematical value modulo 2^32, and equals it when it fits |
| Jdk.WrapInt64 | src/com/google/enterprise/adaptor/ExceptionHandlers.java:69 | Java `long` arithmetic: the result is congruent modulo 2^64, and equals the value when it fits |
| Jdk.BoolText | src/com/google/enterprise/adaptor/DocIdPusher.java:250-256 | `Boolean.toString`, as string concatenation writes a flag: "true" or "false" |
| Jdk.BoolHash | src/com/google/enterprise/adaptor/DocIdPusher.java:239-241 | `Boolean.hashCode` of an autoboxed flag in `Arrays.hashCode`: 1231 for true, 1237 for false |
| Jdk.StringHash | src/adaptorlib/DocId.java:114-116 | `String.hashCode`: 31 times the hash of all but the last character plus the last character, in `int` arithmetic, 0 for the empty string |
| FormUrl.HexDigit | src/adaptorlib/DocId.java:56 | the digit written for a nibble is a hex digit and is itself never escaped |
| FormUrl.Unreserved | src/adaptorlib/DocId.java:56 | the characters `URLEncoder` leaves alone: ASCII letters, digits, `-_.*`, and the space it writes as '+' |
| FormUrl.HexValue | src/adaptorlib/DocId.java:95 | the value `Integer.parseInt(_, 16)` gives an ASCII hex digit of either case |
| FormUrl.HexValueOfHexDigit | src/adaptorlib/DocId.java:95 | reading back the upper-case digit written for a nibble gives the nibble |
| FormUrl.RunLength | src/adaptorlib/DocId.java:56 | the escaped run is nonempty when the first character is reserved, and stops only at an unreserved character or the end |
| FormUrl.RunLengthAllReserved | src/adaptorlib/DocId.java:56 | every character of the run is one the encoder escapes, so the run is maximal |
| FormUrl.EscapeByte | src/adaptorlib/DocId.java:56 | a byte is written as '%' and two hex digits whose value is that byte |
| FormUrl.Escape | src/adaptorlib/DocId.java:56 | three characters per byte, starting with '%' |
| FormUrl.EscapeFormChars | src/adaptorlib/DocId.java:56 | escapes consist of '%' and hex digits only |
| FormUrl.Encode | src/adaptorlib/DocId.java:56 | an unreserved first character is written as itself, a space as '+', and so never as an escape |
| FormUrl.EncodeFormChars | src/adaptorlib/DocId.java:56 | every output character is a letter, digit, `-_.*`, '+' or '%', so an encoded piece never contains '/' |
| FormUrl.Unescape | src/adaptorlib/DocId.java:95 | the bytes take at most three characters each, and there is at least one when the text starts with '%'; text not starting with '%' gives no bytes; a '%' with fewer than two characters after it, or followed by a non-hex character, is an error, and every error is IllegalArgument |
| FormUrl.Decode | src/adaptorlib/DocId.java:95 | text that does not start with an escape decodes to text starting with the same character, '+' read as a space |
| FormUrl.DecodePlain | src/adaptorlib/DocId.java:95 | text with no '%' or '+' decodes to itself under any charset |
| FormUrl.UnescapeEscape | src/adaptorlib/DocId.java:95 | the escapes the encoder writes read back as exactly the same bytes, when what follows is not another escape |
| FormUrl.UnescapeEscapeStep | src/adaptorlib/DocId.java:95 | the first byte's escape reads back as that byte in front of the bytes of the following escapes |
| FormUrl.UnescapeOne | src/adaptorlib/DocId.java:95 | one well-formed escape adds its byte in front of the bytes of the escapes after it |
| FormUrl.EscapeFirst | src/adaptorlib/DocId.java:56 | escaped bytes start with the first byte's '%' and two digits, followed by the rest of the escapes |
| FormUrl.NonEmptyRunHasBytes | src/adaptorlib/DocId.java:56 | a faithful charset turns a nonempty run into at least one byte, so no run vanishes from the output |
| FormUrl.DecodeEscaped | src/adaptorlib/DocId.java:95 | a run of escapes decodes through the charset, and decoding resumes right after it |
| FormUrl.DecodeEncodeUnreserved | src/adaptorlib/DocId.java:95 | round trip when the string starts with a character kept as is, given the round trip for the rest |
| FormUrl.DecodeEncodeRun | src/adaptorlib/DocId.java:95 | round trip when the string starts with an escaped run, given the round trip for the rest |
| FormUrl.DecodeRunThenRest | src/adaptorlib/DocId.java:95 | a run of escapes followed by a decodable tail decodes to the charset's reading of the run followed by the tail's decoding |
| FormUrl.EncodeAfterRun | src/adaptorlib/DocId.java:56 | the encoder writes a reserved run as its charset bytes escaped, and what it writes next never starts with '%' |
| FormUrl.DecodeEncode | src/adaptorlib/DocId.java:95 | `URLDecoder.decode(URLEncoder.encode(s))` is `s` for every string, under a charset that can represent every string |
| Paths.Prefixed | src/adaptorlib/DocId.java:53-57 | the joined string has at least one character per piece and starts with the separator when there is a piece |
| Paths.Split | src/adaptorlib/DocId.java:52 | splitting always yields at least one piece, even for the empty string |
| Paths.SplitJoin | src/adaptorlib/DocId.java:52 | no piece contains '/', and writing '/' before each piece rebuilds '/' followed by the input |
| Paths.SplitJoinExtend | src/adaptorlib/DocId.java:52 | a character other than '/' extends the last piece, keeps the pieces free of '/', and extends their join by that character |
| Paths.SplitCount | src/adaptorlib/DocId.java:52 | there is one piece more than there are '/' characters, so empty leading, trailing and doubled pieces are kept |
| Paths.SplitWithoutSeparator | src/adaptorlib/DocId.java:91 | a string without '/' is a single piece |
| Paths.SplitAfterSeparator | src/adaptorlib/DocId.java:91 | the text after the last '/' is the last piece, and splitting the part before gives the other pieces |
| Paths.SplitPrefixed | src/adaptorlib/DocId.java:91 | splitting the '/'-joined pieces, without the leading '/', gives back exactly those pieces |
| DocIds.NewDocId | src/adaptorlib/DocId.java:26-35 | succeeds exactly when both id and permissions are present; a null id is reported first, then null permissions, with the source's messages |
| DocIds.NewPublicDocId | src/adaptorlib/DocId.java:21-23 | a present id gives a DocId with IS_PUBLIC permissions; a null id is refused |
| DocIds.ToString | src/adaptorlib/DocId.java:44-47 | `DocId(`, the identifier, `|`, the permissions' name and `)`; `ToStringDistinguishesIds` states what it tells apart |
| DocIds.Equals | src/adaptorlib/DocId.java:104-112 | `equals`: a non-null DocId with the same identifier and permissions; `EqualsIsValueEquality` characterises it |
| DocIds.HashCode | src/adaptorlib/DocId.java:114-116 | `hashCode`: the identifier's string hash; `HashCodeAgreesWithEquals` relates it to `equals` |
| DocIds.ToStringDistinguishesIds | src/adaptorlib/DocId.java:44-47 | the string form, `DocId(` then the identifier, a bar, the permissions and `)`, tells apart any two DocIds with the same permissions |
| DocIds.EqualsIsValueEquality | src/adaptorlib/DocId.java:104-112 | `equals` holds exactly when both identifier and permissions are equal, and never for null |
| DocIds.HashCodeAgreesWithEquals | src/adaptorlib/DocId.java:114-116 | equal DocIds have equal hash codes, and so do DocIds that differ only in permissions |
| DocIds.GetFeedFileAction | src/adaptorlib/DocId.java:78-81 | the feed action is always "add" |
| DocIds.Encode | src/adaptorlib/DocId.java:49-62 | the loop's result is the '/'-led join of the encoded pieces of `split("/", -1)`; an unsupported encoding becomes an IllegalState error |
| DocIds.EncodedPath | src/adaptorlib/DocId.java:49-58 | the path `encode` builds: "/" and the form-urlencoded piece for each piece of `split("/", -1)`; the `Encode` loop is proved equal to it |
| DocIds.UrlText | src/adaptorlib/DocId.java:86 | `URL.toString`: the base followed by the path |
| DocIds.EncodedPathPieces | src/adaptorlib/DocId.java:49-58 | the encoded path starts with '/' and holds exactly one more '/' than the identifier, one per piece |
| DocIds.EncodedPiecesSeparated | src/adaptorlib/DocId.java:52-57 | no encoded piece contains '/' |
| DocIds.GetFeedFileUrl | src/adaptorlib/DocId.java:65-76 | pass-through: the URL text is the identifier; otherwise the URL keeps the beginning's base, and its path is the beginning's own path followed by the encoded path; an unsupported encoding is IllegalState |
| DocIds.DecodeEach | src/adaptorlib/DocId.java:93-96 | a successful decode yields one piece per input piece |
| DocIds.DecodeEachFailurePersists | src/adaptorlib/DocId.java:93-96 | once a piece fails to decode, the whole decode fails with that piece's error |
| DocIds.DecodeEachStep | src/adaptorlib/DocId.java:93-96 | one more loop iteration appends the decoded piece, or fails with that piece's error |
| DocIds.Decode | src/adaptorlib/DocId.java:84-102 | pass-through returns the URL text; otherwise the loop returns the pieces decoded and rejoined without the leading '/'; an empty path is StringIndexOutOfBounds and an unsupported encoding is IllegalState |
| DocIds.DecodedPath | src/adaptorlib/DocId.java:88-100 | what `decode` returns in encoding mode: StringIndexOutOfBounds for an empty path, IllegalState for an unsupported encoding, the first failing piece's error, or the decoded pieces rejoined with '/'; the `Decode` loop is proved equal to it |
| DocIds.DecodeEachEncodeEach | src/adaptorlib/DocId.java:93-96 | decoding each encoded piece gives back every piece |
| DocIds.DecodedPathEncodedPath | src/adaptorlib/DocId.java:84-102 | round trip: the path `encode(s)` produces decodes to exactly `s`, including "" and leading, trailing or doubled '/' |
| DocIds.FeedFileUrlRoundTrip | src/adaptorlib/DocId.java:65-72 | in both modes the feed URL of a DocId decodes back to its identifier, when in encoding mode the encoding is supported and faithful and the URL beginning has no path of its own |
| DocIds.BeginningPathIsDecodedToo | src/adaptorlib/DocId.java:70-71 | with the beginning `http://host/docs` the identifier "a" is sent as the path "/docs/a" and decodes to "docs/a", so a beginning with a path does not round-trip |
| Records.EqualsNullSafeIsEquality | src/com/google/enterprise/adaptor/DocIdPusher.java:259-269 | null-safe comparison is equality: both null match, exactly one null does not |
| Records.EqualsNullSafe | src/com/google/enterprise/adaptor/DocIdPusher.java:259-269 | `equalsNullSafe`: both null, or both non-null and equal |
| Records.Equals | src/com/google/enterprise/adaptor/DocIdPusher.java:218-232 | `equals`: a non-null Record whose DocId is `equals`, whose four flags match and whose date and link are null-safe equal |
| Records.EqualsIsValueEquality | src/com/google/enterprise/adaptor/DocIdPusher.java:218-232 | `equals` holds exactly when all seven fields match, and never for null |
| Records.HashCodeAgreesWithEquals | src/com/google/enterprise/adaptor/DocIdPusher.java:237-242 | equal Records have equal hash codes, for any `Date` and `URI` hash functions |
| Records.ArraysHash | src/com/google/enterprise/adaptor/DocIdPusher.java:241 | `Arrays.hashCode`: 31 times the hash of all but the last element plus the last element's hash, in `int` arithmetic, starting from 1 |
| Records.HashCode | src/com/google/enterprise/adaptor/DocIdPusher.java:237-242 | `hashCode`: `Arrays.hashCode` over the seven fields in declaration order, null as 0 |
| Records.ToString | src/com/google/enterprise/adaptor/DocIdPusher.java:249-257 | `toString`: the unique id and the six other fields by name in a fixed order, null as "null"; the lemmas after it state what it shows |
| Records.ToStringStartsWithId | src/com/google/enterprise/adaptor/DocIdPusher.java:249-257 | the debug string starts with `Record(docid=` and the unique identifier |
| Records.ToStringShowsLock | src/com/google/enterprise/adaptor/DocIdPusher.java:249-257 | the debug string ends with `,lock=true)` exactly when the Record is locked |
| Records.LockTextShowsLock | src/com/google/enterprise/adaptor/DocIdPusher.java:256 | the lock field's text ends in `,lock=true)` exactly when the flag is set |
| Records.ToStringOmitsPermissions | src/com/google/enterprise/adaptor/DocIdPusher.java:250 | the DocId shows only its unique identifier: changing its permissions does not change the string |
| Records.Builder.OfDocId | src/com/google/enterprise/adaptor/DocIdPusher.java:275-293 | a new builder holds the DocId, every flag false, and no date or link |
| Records.Builder.OfRecord | src/com/google/enterprise/adaptor/DocIdPusher.java:300-308 | a builder started from a Record holds all seven of its fields |
| Records.Builder.SetDocId | src/com/google/enterprise/adaptor/DocIdPusher.java:317-323 | a null DocId is a NullPointer error and changes nothing; otherwise only the DocId changes and the same builder is returned |
| Records.Builder.SetDeleteFromIndex | src/com/google/enterprise/adaptor/DocIdPusher.java:332-335 | only the delete flag changes; the same builder is returned |
| Records.Builder.SetLastModified | src/com/google/enterprise/adaptor/DocIdPusher.java:346-349 | only the last-modified date changes, and it may become null; the same builder is returned |
| Records.Builder.SetResultLink | src/com/google/enterprise/adaptor/DocIdPusher.java:358-361 | only the result link changes, and it may become null; the same builder is returned |
| Records.Builder.SetCrawlImmediately | src/com/google/enterprise/adaptor/DocIdPusher.java:370-373 | only the crawl-immediately flag changes; the same builder is returned |
| Records.Builder.SetCrawlOnce | src/com/google/enterprise/adaptor/DocIdPusher.java:381-384 | only the crawl-once flag changes; the same builder is returned |
| Records.Builder.SetLock | src/com/google/enterprise/adaptor/DocIdPusher.java:393-396 | only the lock flag changes; the same builder is returned |
| Records.Builder.Build | src/com/google/enterprise/adaptor/DocIdPusher.java:398-402 | the Record holds the builder's current fields, and the builder is not reset |
| Records.NewBuilder | src/com/google/enterprise/adaptor/DocIdPusher.java:288-293 | a null DocId is a NullPointer error; otherwise a fresh builder with the defaults |
| Records.NewBuilderFrom | src/com/google/enterprise/adaptor/DocIdPusher.java:300-308 | a null Record is a NullPointer error; otherwise a fresh builder holding the Record's fields |
| Records.CopyThenBuild | src/com/google/enterprise/adaptor/DocIdPusher.java:300-308 | building straight after copying a Record gives that same Record |
| Records.BuildFromDocId | src/com/google/enterprise/adaptor/DocIdPusher.java:275-281 | a builder given only a DocId builds that DocId with delete, crawlImmediately, crawlOnce and lock false and no date or link |
| Records.BuildTwice | src/com/google/enterprise/adaptor/DocIdPusher.java:398-402 | two builds with no setter between them are `equals` |
| Records.BuildLockBuild | src/com/google/enterprise/adaptor/DocIdPusher.java:398-402 | a setter between two builds leaves the first Record as built and changes the second in that one field |
| ExceptionHandlers.ExponentialBackoffHandler | src/com/google/enterprise/adaptor/ExceptionHandlers.java:41-48 | fails with NullPointer exactly when the time unit is null; otherwise the handler keeps the three arguments |
| ExceptionHandlers.DefaultHandler | src/com/google/enterprise/adaptor/ExceptionHandlers.java:23-36 | the default handler is the one the factory makes for (12, 5, SECONDS) |
| ExceptionHandlers.HandleException | src/com/google/enterprise/adaptor/ExceptionHandlers.java:64-71 | gives up exactly when `ntries > maximumTries`; otherwise asks for `sleepDuration * ntries` (modulo 2^64) in the handler's unit |
| ExceptionHandlers.RetryAt | src/com/google/enterprise/adaptor/ExceptionHandlers.java:64-71 | if `sleepDuration * maximumTries` fits in a `long`, each try from 1 to the maximum is retried after exactly `sleepDuration * k` units |
| ExceptionHandlers.BackoffSchedule | src/com/google/enterprise/adaptor/ExceptionHandlers.java:64-71 | tries 1 to N (N at most the maximum) are all retried, linearly in the try number, and together ask for `sleepDuration * N(N+1)/2` |
| ExceptionHandlers.GivesUpAfterMaximum | src/com/google/enterprise/adaptor/ExceptionHandlers.java:66-68 | every try past the maximum is refused (false) and asks for no sleep |
| ExceptionHandlers.DefaultSchedule | src/com/google/enterprise/adaptor/ExceptionHandlers.java:23-24 | default policy: tries 1 to 12 sleep 5k seconds, 390 seconds in all, and try 13 is refused |
| ExceptionHandlers.DecisionIgnoresException | src/com/google/enterprise/adaptor/ExceptionHandlers.java:52-71 | the decision does not depend on the exception, only on the try count and the final fields |
| Accumulating.DocIdsOf | test/adaptorlib/AccumulatingDocIdPusher.java:29-31 | one DocId per Record, each the Record's own, in iteration order |
| Accumulating.FirstNull | test/adaptorlib/AccumulatingDocIdPusher.java:29-31 | every element before the index is non-null, and the element at the index, if any, is null |
| Accumulating.FirstNullOfNullFree | test/adaptorlib/AccumulatingDocIdPusher.java:29-31 | a batch without null elements is pushed whole |
| Accumulating.DocIdsOfConcat | test/adaptorlib/AccumulatingDocIdPusher.java:29-31 | the DocIds of two batches in a row are those of the first followed by those of the second |
| Accumulating.AccumulatingDocIdPusher.constructor | test/adaptorlib/AccumulatingDocIdPusher.java:23 | a new pusher has accumulated nothing |
| Accumulating.AccumulatingDocIdPusher.PushRecords | test/adaptorlib/AccumulatingDocIdPusher.java:26-33 | appends each Record's DocId in order after the old list and reports no failing Record; at a null element, the DocIds before it are appended and NullPointer is thrown |
| Accumulating.AccumulatingDocIdPusher.GetDocIds | test/adaptorlib/AccumulatingDocIdPusher.java:35-37 | returns the accumulated DocIds and changes nothing |
| Accumulating.AccumulatingDocIdPusher.Reset | test/adaptorlib/AccumulatingDocIdPusher.java:39-41 | afterwards no DocIds are accumulated |
| Accumulating.AccumulatingDocIdPusher.PushNamedResources | test/adaptorlib/AccumulatingDocIdPusher.java:43-48 | always fails with UnsupportedOperation and leaves the list unchanged |
| Accumulating.PushTwice | test/adaptorlib/AccumulatingDocIdPusher.java:29-31 | two pushes with an empty push between them accumulate both batches in order, and `getDocIds` reports exactly that |

## Left out

- Parsing URL text and `MalformedURLException` (`DocId.java:68`, `:71`, `:73-75`). A URL is modelled as its base and its path. In pass-through mode the identifier is the whole base, so only the URL's text is stated.
- DocIds.FeedFileUrlRoundTrip: in encoding mode it requires a URL beginning without a path of its own. `decode` strips only one leading character of the path, so a beginning such as `http://host/docs` does not round-trip (`BeginningPathIsDecodedToo`).
- DocIds.GetFeedFileUrl: the URL beginning is given already split into base and path, so a beginning holding a query or a fragment is not modelled. In pass-through mode the URL's text is stated to be the identifier as written, while `new URL(uniqId).toString()` drops surrounding blanks and a leading `url:` and lower-cases the scheme, so an identifier such as ` HTTP://Host/a ` does not come back as written.
- FormUrl.DecodeEncode and DocIds.DecodedPathEncodedPath: they assume a charset that can represent every string. A charset that replaces characters it cannot map, such as ISO-8859-1 writing '?', does not round-trip, and the model does not describe what it gives back.
- FormUrl.Unescape: escape digits are restricted to ASCII hex digits. `Integer.parseInt(_, 16)` also accepts a leading sign and non-ASCII digits, and `URLDecoder` refuses only a negative value, so Java decodes `%+F` as byte 15 and `%-0` as byte 0 where the model reports an error. The error messages are shortened to their fixed parts.
- The charset is looked up before decoding starts. This matches current JDKs; an older `URLDecoder` looked it up only when it met the first escape.
- A Dafny `char` is a Unicode scalar value, whereas Java strings are UTF-16. A surrogate pair is therefore one character here, and lone surrogates cannot arise. This also changes hash codes: Java hashes a supplementary character as its two surrogates (U+1F600 as `31 * 0xD83D + 0xDE00`), while `Jdk.StringHash` hashes the one scalar value (0x1F600), so `DocIds.HashCode` differs from Java on identifiers holding such characters.
- The real `TimeUnit.sleep` and its `InterruptedException` (`ExceptionHandlers.java:69`). The requested duration is returned instead of being slept.
- The push methods of the `DocIdPusher` interface (`DocIdPusher.java:39-130`), `AbstractDocIdPusher` and `pushDocIds`. They have no implementation to model, and delivery to the appliance is network I/O.
- Accumulating.AccumulatingDocIdPusher.PushRecords: a null `Iterable` and lazy or infinite iterables are not modelled. A batch is a finite sequence of possibly-null Records.
- Accumulating.AccumulatingDocIdPusher.GetDocIds: it returns a snapshot of the list. The Java method returns an unmodifiable view that reflects later pushes and resets.
- `Acl` and `PushErrorHandler` are opaque types: the pusher only carries them.
- `Date.toString`, `Date.hashCode`, `URI.toString` and `URI.hashCode` are parameters. `Date.toString` depends on the default time zone. The other three are the JDK's own definitions, which this model does not restate.
- Records.EqualsIsValueEquality: a URI is an opaque value whose `==` stands for `URI.equals`, which ignores case in the scheme and host. The model therefore identifies URIs that are `equals`, such as `HTTP://Host/x` and `http://host/x`.
- Records.ToString: because URIs that are `equals` are one value here, their text (`uriText`) is the same, and Records that are `equals` always print alike. In Java two such Records may print different `resultLink=` text.
- `DocReadPermissions` is not part of this model. It is a value named by its string form, which is also its `toString`.
- `Record` refers to a `DocId` class of another package. Here it uses the same DocId value as the identifier codec.
- The commented-out `DeletedDocId` (`DocId.java:129-143`) is dead code.
- The command-line transform pipeline (`test/adaptorlib/prebuilt/CommandLineTransformTest.java`) runs an external process over byte streams, so it is not modelled.
- The backoff contract is sometimes described as making exactly N decision calls for N maximum tries before an item fails. The code asks N + 1 times: tries 1 to N are approved and try N + 1 is refused. The model follows the code (`BackoffSchedule`, `GivesUpAfterMaximum`).
- ExceptionHandlers.BackoffSchedule and ExceptionHandlers.RetryAt: the linear schedule is proved only when `sleepDuration * maximumTries` fits in a `long`. Beyond that, `HandleException` states only the product modulo 2^64.
