# Parquet PLAIN encoding, page compression and the restore-status header

This project models three pieces of MinIO in Dafny and proves properties of them.

**Parquet PLAIN encoders** (`plain_encoding.dfy`, module `PlainEncoding`). These are `plainEncodeBools`, `plainEncodeInt32s` and `plainEncodeInt64s` of the S3 Select Parquet reader.
- Booleans are bit-packed eight to a byte, least significant bit first. The last byte is zero-padded.
- INT32 and INT64 values are fixed-width little-endian two's complement. They are concatenated in input order, with no length prefix.
- `PackBools` is an array-filling loop of the usual shape for this encoder: it ORs `1 << (i%8)` into byte `i/8` of a zeroed buffer. It is proved equal to the recursive `EncodeBools`, the encoding the test vectors fix. It is not taken from the implementation.
- The decoders `DecodeBools`, `DecodeInt32s` and `DecodeInt64s` are the encoders' inverse partners. The round trips are proved in both directions.

**Page compression** (`compression.dfy`, module `Compression`). These are `compressionCodec.compress` and `uncompress`, which dispatch on Parquet's `CompressionCodec` identifier.
- The identifiers are UNCOMPRESSED 0, SNAPPY 1, GZIP 2, LZO 3, BROTLI 4, LZ4 5 and ZSTD 6. LZO and BROTLI have no case and are invalid.
- The snappy, gzip, lz4 and zstd libraries are opaque function values of a `Libraries` record.
- The GZIP and LZ4 compress branches are imperative. A `StreamWriter` object writes into a `ByteBuffer` object through Write, then the short-write check, then Flush, then Close. A ghost log records the calls made.
- The package-level zstd encoder and decoder and their `sync.Once` are the class `ZstdState`. Its `once` flag is set by `InitZstd`, which builds the coders the first time only.

**Restore status** (`restore_status.dfy`, modules `RestoreStatus` and `RestoreStatusVectors`; `go_strings.dfy`, module `GoStrings`). This is the `x-amz-restore` metadata of a transitioned object.
- It models `parseRestoreObjStatus`, `restoreObjStatus.String`, `ongoingRestoreObj`, `completedRestoreObj`, `Expiry`, `OnDisk` and `isRestoredObjectOnDisk`.
- `ongoing-request=true` is an ongoing restore. `ongoing-request=false, expiry-date=<IMF-fixdate>` is a completed one.
- The header is cut at its first comma only, because the date (section 7.1.1.1 of RFC 7231) holds a comma of its own.
- Fields split at `=`, keys are trimmed of white space, and the value must be exactly `true` or `false`. Every error gives the zero status with `errRestoreHDRMalformed`.
- Dates are whole seconds since the Unix epoch. The date format and its parser are an abstract pair `HttpDate`, and the current time is a parameter.
- `GoStrings` models the parts of Go's `strings.SplitN`, `strings.Split` and `strings.TrimSpace` that the parser uses.

`prelude.dfy` (module `Prelude`) holds `byte`, `Option` and `Result`.

## Model

| member | source | states |
|---|---|---|
| PlainEncoding.EncodeBools | pkg/s3select/internal/parquet-go/encoding/plain-encode_test.go:26-47 | the boolean encoding has exactly ceil(n/8) bytes |
| PlainEncoding.EncodeBoolsBit | pkg/s3select/internal/parquet-go/encoding/plain-encode_test.go:31-39 | bit i mod 8 of byte i/8 is input i, least significant bit first; every padding bit is clear |
| PlainEncoding.PackBools | pkg/s3select/internal/parquet-go/encoding/plain-encode_test.go:26-47 | an array-filling loop that ORs 1 << (i mod 8) into byte i/8 of a zeroed buffer returns exactly EncodeBools, the encoding the vectors fix; the loop is of the usual shape, not taken from the implementation |
| PlainEncoding.DecodeBools | pkg/s3select/internal/parquet-go/encoding/plain-encode_test.go:26-47 | the inverse of EncodeBools with the count given: it succeeds exactly when the buffer holds count bits and then returns count booleans; BoolsRoundTrip and BoolsReverseRoundTrip tie it to the encoder |
| PlainEncoding.BoolsRoundTrip | pkg/s3select/internal/parquet-go/encoding/plain-encode_test.go:26-47 | decoding the encoding with the input's length gives the booleans back |
| PlainEncoding.BoolsReverseRoundTrip | pkg/s3select/internal/parquet-go/encoding/plain-encode_test.go:26-47 | every buffer of the right size with clear padding is the encoding of what it decodes to |
| PlainEncoding.BoolVectors | pkg/s3select/internal/parquet-go/encoding/plain-encode_test.go:31-39 | the nine cases of the test (nil and [] are the same sequence, so eight ensures), including [] → [] and the nine-boolean case → [128, 1] |
| PlainEncoding.EncodeInt32s | pkg/s3select/internal/parquet-go/encoding/plain-encode_test.go:50-70 | the INT32 encoding has four bytes per value |
| PlainEncoding.DecodeInt32s | pkg/s3select/internal/parquet-go/encoding/plain-encode_test.go:50-70 | decoding succeeds exactly when the length is a multiple of four |
| PlainEncoding.Int32sRoundTrip | pkg/s3select/internal/parquet-go/encoding/plain-encode_test.go:50-70 | decoding the INT32 encoding gives the values back |
| PlainEncoding.Int32sReverseRoundTrip | pkg/s3select/internal/parquet-go/encoding/plain-encode_test.go:50-70 | every buffer whose length is a multiple of four is the encoding of what it decodes to |
| PlainEncoding.Int32sLayout | pkg/s3select/internal/parquet-go/encoding/plain-encode_test.go:57-61 | bytes 4i..4i+3, read little-endian, are value i modulo 2^32, so negatives are in two's complement |
| PlainEncoding.Int32sAppend | pkg/s3select/internal/parquet-go/encoding/plain-encode_test.go:62 | the encoding of a + b is that of a followed by that of b |
| PlainEncoding.Int32Vectors | pkg/s3select/internal/parquet-go/encoding/plain-encode_test.go:55-62 | the INT32 test vectors: 1, -1, 256, MinInt32, MaxInt32 and [257, -2] |
| PlainEncoding.EncodeInt64s | pkg/s3select/internal/parquet-go/encoding/plain-encode_test.go:73-93 | the INT64 encoding has eight bytes per value |
| PlainEncoding.DecodeInt64s | pkg/s3select/internal/parquet-go/encoding/plain-encode_test.go:73-93 | decoding succeeds exactly when the length is a multiple of eight |
| PlainEncoding.Int64sRoundTrip | pkg/s3select/internal/parquet-go/encoding/plain-encode_test.go:73-93 | decoding the INT64 encoding gives the values back |
| PlainEncoding.Int64sReverseRoundTrip | pkg/s3select/internal/parquet-go/encoding/plain-encode_test.go:73-93 | every buffer whose length is a multiple of eight is the encoding of what it decodes to |
| PlainEncoding.Int64sLayout | pkg/s3select/internal/parquet-go/encoding/plain-encode_test.go:80-84 | bytes 8i..8i+7, read little-endian, are value i modulo 2^64 |
| PlainEncoding.Int64sAppend | pkg/s3select/internal/parquet-go/encoding/plain-encode_test.go:85 | the encoding of a + b is that of a followed by that of b |
| PlainEncoding.Int64Vectors | pkg/s3select/internal/parquet-go/encoding/plain-encode_test.go:78-82 | the INT64 test vectors [], 1, -1 and 256 |
| PlainEncoding.Int64LimitVectors | pkg/s3select/internal/parquet-go/encoding/plain-encode_test.go:83-84 | MinInt64 and MaxInt64 encode as in the test |
| PlainEncoding.Int64PairVector | pkg/s3select/internal/parquet-go/encoding/plain-encode_test.go:85 | [257, -2] encodes as the two values' bytes in input order |
| PlainEncoding.DecodeIntsSucceeds | pkg/s3select/internal/parquet-go/encoding/plain-encode_test.go:50-93 | for any width, the integer decoder fails exactly on a buffer that ends in a partial value |
| PlainEncoding.IntsRoundTrip | pkg/s3select/internal/parquet-go/encoding/plain-encode_test.go:50-93 | for any width, decoding the encoding of representable values gives them back |
| Compression.BranchOf | pkg/s3select/internal/parquet-go/compression.go:47-98 | a selected branch is the one whose identifier equals the codec; no branch means no case names the identifier |
| Compression.KnownCodecs | pkg/s3select/internal/parquet-go/compression.go:47-98 | exactly UNCOMPRESSED, SNAPPY, GZIP, LZ4 and ZSTD select a branch; LZO and BROTLI do not |
| Compression.BranchOfId | pkg/s3select/internal/parquet-go/compression.go:47-98 | each branch is selected by its own identifier |
| Compression.StreamCompressed | pkg/s3select/internal/parquet-go/compression.go:54-94 | a failed GZIP/LZ4 compress has no bytes; success needs every byte written and Write, Flush and Close to succeed |
| Compression.StepsTaken | pkg/s3select/internal/parquet-go/compression.go:57-71 | the calls made are a non-empty prefix of Write, Flush, Close |
| Compression.ByteBuffer.constructor | pkg/s3select/internal/parquet-go/compression.go:55 | new(bytes.Buffer): a buffer that holds no bytes |
| Compression.StreamWriter.constructor | pkg/s3select/internal/parquet-go/compression.go:56 | gzip.NewWriter (and lz4.NewWriter at line 77) bound to the buffer: the given engine and sink, nothing accepted, no calls made yet |
| Compression.ZstdState.constructor | pkg/s3select/internal/parquet-go/compression.go:35-37 | the package as loaded: the once flag unset, both coders nil, Valid |
| Compression.ByteBuffer.Write | pkg/s3select/internal/parquet-go/compression.go:55 | bytes.Buffer appends the chunk at the end |
| Compression.StreamWriter.Write | pkg/s3select/internal/parquet-go/compression.go:57 | the writer reports the library's count and error, appends its output to the buffer and logs a Write |
| Compression.StreamWriter.Flush | pkg/s3select/internal/parquet-go/compression.go:65 | the writer appends the library's flush output, reports its error and logs a Flush |
| Compression.StreamWriter.Close | pkg/s3select/internal/parquet-go/compression.go:69 | the writer appends the library's close output, reports its error and logs a Close |
| Compression.CompressStream | pkg/s3select/internal/parquet-go/compression.go:54-94 | the imperative write, short-write check, flush, close sequence returns StreamCompressed and makes exactly the calls StepsTaken lists |
| Compression.ShortWriteFails | pkg/s3select/internal/parquet-go/compression.go:61-63 | a writer that takes a different count of bytes than the buffer holds fails the call with "short writes"; nothing after Write is called |
| Compression.StreamSucceeds | pkg/s3select/internal/parquet-go/compression.go:57-73 | success holds exactly when Write takes all bytes and all three calls succeed; the result is then Write's, Flush's and Close's output in that order, after all three calls |
| Compression.StreamFirstError | pkg/s3select/internal/parquet-go/compression.go:57-71 | a failed call reports the error of the first step that failed |
| Compression.ZstdState.InitZstd | pkg/s3select/internal/parquet-go/compression.go:35-44 | after the call both coders exist, built with zero frames; a second call builds nothing; the once body has run at most once |
| Compression.CompressResult | pkg/s3select/internal/parquet-go/compression.go:46-101 | compress never fails with bytes; an identifier outside the five fails with "invalid compression codec"; UNCOMPRESSED returns the buffer |
| Compression.UncompressResult | pkg/s3select/internal/parquet-go/compression.go:103-128 | an identifier outside the five fails with "invalid compression codec"; UNCOMPRESSED returns the buffer |
| Compression.Compress | pkg/s3select/internal/parquet-go/compression.go:46-101 | the switch returns CompressResult; ZSTD runs initZstd first, and no other codec touches the zstd globals |
| Compression.Uncompress | pkg/s3select/internal/parquet-go/compression.go:103-128 | the switch returns UncompressResult; ZSTD runs initZstd first, and no other codec touches the zstd globals |
| Compression.UncompressedIsIdentity | pkg/s3select/internal/parquet-go/compression.go:48-49 | UNCOMPRESSED compress and uncompress both return the buffer unchanged, without error |
| Compression.InvalidCodec | pkg/s3select/internal/parquet-go/compression.go:100 | any other identifier makes compress and uncompress return no bytes and the invalid-codec error |
| Compression.CompressErrors | pkg/s3select/internal/parquet-go/compression.go:46-101 | compress never returns bytes with an error; SNAPPY, ZSTD and UNCOMPRESSED never fail, and SNAPPY returns snappy's encoding |
| Compression.GzipOpenErrorFirst | pkg/s3select/internal/parquet-go/compression.go:111-117 | GZIP uncompress returns the reader's open error, whatever reading would have given |
| Compression.DispatchRoundTrip | pkg/s3select/internal/parquet-go/compression.go:46-128 | compress and uncompress select the same library pair, so uncompress undoes a successful compress when that pair inverts |
| RestoreStatus.ParseRestoreObjStatus | cmd/bucket-lifecycle_test.go:29-74 | every error returns the zero status (errRestoreHDRMalformed); a parsed ongoing status has zero expiry; the status is ongoing exactly when the header holds no comma |
| RestoreStatus.OngoingRestoreObj | cmd/bucket-lifecycle_test.go:44-51 | a valid status of a restore in progress, with no expiry; ParseOngoing and RoundTrip show it is what the ongoing header parses to |
| RestoreStatus.CompletedRestoreObj | cmd/bucket-lifecycle_test.go:35-43 | a valid completed status whose Expiry is the given instant; ParseCompleted shows it is what a completed header parses to |
| RestoreStatus.Expiry | cmd/bucket-lifecycle_test.go:94-121 | an expiry exists exactly for a completed restore, and it is the status's expiry instant |
| RestoreStatus.OnDisk | cmd/bucket-lifecycle_test.go:94-121 | a restore in progress is never on disk, and a completed one is on disk exactly before its expiry; OnDiskIff and OnDiskVectors pin it down |
| RestoreStatus.ToString | cmd/bucket-lifecycle_test.go:77-91 | the text starts with the ongoing-request field and holds a comma exactly for a completed restore, which separates the expiry field; RoundTrip shows the parser inverts it |
| RestoreStatus.IsRestoredObjectOnDisk | cmd/bucket-lifecycle_test.go:124-157 | true only when the x-amz-restore key is present, parses without error and its status is OnDisk; IsRestoredAgreesWithOnDisk shows it equals OnDisk of any status stored with String |
| RestoreStatus.OnDiskIff | cmd/bucket-lifecycle_test.go:94-121 | OnDisk holds exactly for a completed restore strictly before its expiry (OnDisk's two ensures as one equivalence) |
| RestoreStatus.ProgressField | cmd/bucket-lifecycle_test.go:37-62 | "ongoing-request=<w>" reads as true for "true", false for "false" and fails otherwise |
| RestoreStatus.ExpiryField | cmd/bucket-lifecycle_test.go:37-42 | " expiry-date=<date>" reads as the date parser's result for the date |
| RestoreStatus.ParseCompleted | cmd/bucket-lifecycle_test.go:35-43 | a completed header parses to the completed status of its date; the date's own commas are kept |
| RestoreStatus.ParseOngoing | cmd/bucket-lifecycle_test.go:44-51 | "ongoing-request=true" parses to the ongoing status |
| RestoreStatus.RejectOngoingWithExpiry | cmd/bucket-lifecycle_test.go:52-57 | an ongoing header followed by any further field is malformed |
| RestoreStatus.RejectCompletedWithoutExpiry | cmd/bucket-lifecycle_test.go:58-63 | "ongoing-request=false" without an expiry is malformed |
| RestoreStatus.RoundTrip | cmd/bucket-lifecycle_test.go:77-91 | parsing the String of an ongoing or completed status gives the status back when the date format round-trips |
| RestoreStatus.IsRestoredAgreesWithOnDisk | cmd/bucket-lifecycle_test.go:124-157 | for metadata holding a status's String, isRestoredObjectOnDisk equals OnDisk of that status |
| RestoreStatus.NotRestoredWithoutStatus | cmd/bucket-lifecycle_test.go:124-157 | without the x-amz-restore key, or with a malformed value, the object is not restored on disk (a corollary of IsRestoredObjectOnDisk's own contract) |
| RestoreStatusVectors.OnDiskVectors | cmd/bucket-lifecycle_test.go:94-121 | ongoing: not on disk; expired an hour ago: not on disk; expiring in an hour: on disk |
| RestoreStatusVectors.ParseCompletedVector | cmd/bucket-lifecycle_test.go:35-43 | the header with expiry Fri, 21 Dec 2012 00:00:00 GMT parses to a completed status expiring at 1356048000 |
| RestoreStatusVectors.RejectOngoingVector | cmd/bucket-lifecycle_test.go:52-57 | "ongoing-request=true, expiry-date=Fri, 21 Dec 2012 00:00:00 GMT" is malformed |
| RestoreStatusVectors.IsRestoredVectors | cmd/bucket-lifecycle_test.go:124-157 | the three metadata maps of the test: in progress, expiring in an hour and expired an hour ago |

## Left out

- Float32 and float64 PLAIN encoding: floating point is not modelled.
- The encoder implementation file plain-encode.go is not part of this model. The encoders' behaviour is the one their tests fix. The decoders are reference inverses, not the reader's own decoding code.
- PlainEncoding.PackBools: the boolean encoder's own loop is not modelled; PackBools is a loop of the usual shape, checked only against the encoding the test vectors fix. The integer encoders' binary.Write (or PutUint32/PutUint64) form is likewise not modelled; EncodeInt32s and EncodeInt64s state the resulting bytes.
- Go's nil and empty slices are not distinguished. Both are the empty sequence.
- The internals of snappy, gzip, lz4 and zstd are opaque function values. No round-trip law is assumed for them; `DispatchRoundTrip` takes one as a hypothesis.
- Compression.StreamEngine: a writer's output for each call is a function of the input accepted so far. The library's own framing state is not modelled.
- The concurrency of `sync.Once` is not modelled, only its sequential "initialised" flag.
- The errors of `zstd.NewWriter` and `zstd.NewReader` are not modelled, because the source discards them. The coders are always built.
- The Close of the gzip reader deferred in `uncompress` is not modelled: its error is ignored by the source.
- UNCOMPRESSED returns the caller's own slice in the source. Aliasing of that slice is not modelled.
- cmd/bucket-lifecycle.go (the parser, `String`, `OnDisk`, `isRestoredObjectOnDisk`) is not part of this model. These functions follow the behaviour their tests fix, in the shape of the MinIO implementation of the same period.
- Calendar arithmetic and the IMF-fixdate text: `HttpDate` is an abstract format and parse pair. Instants are whole seconds, so the test's comparison through the formatted date is a comparison of instants. `time.Now()` is a parameter.
- Strings are sequences of code points. `TrimSpace` follows Go's `unicode.IsSpace` code points, and every separator is ASCII, so the result is the same as Go's byte-wise split.
