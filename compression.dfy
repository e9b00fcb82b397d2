/**
 * Page compression of the Parquet reader and writer: compressionCodec's
 * compress and uncompress dispatch on Parquet's CompressionCodec identifier
 * to the snappy, gzip, lz4 and zstd libraries, or return the buffer as it is.
 *
 * The libraries are opaque: each is a function value of a Libraries record,
 * and a gzip or lz4 writer is a StreamEngine that says, for the input it has
 * accepted so far, what each Write, Flush and Close emits and whether it fails.
 * The package-level zstd encoder and decoder, built once under sync.Once, are
 * a ZstdState object with a sequential "once" flag.
 */
module Compression {
  import opened Prelude

  // ---------------------------------------------------------------------
  // Codec identifiers (parquet.CompressionCodec)
  // ---------------------------------------------------------------------

  const UNCOMPRESSED: int := 0
  const SNAPPY: int := 1
  const GZIP: int := 2
  const LZO: int := 3
  const BROTLI: int := 4
  const LZ4: int := 5
  const ZSTD: int := 6

  /** The codecs compress and uncompress handle: one case of their switch each. */
  datatype Branch = Uncompressed | Snappy | Gzip | Lz4 | Zstd

  /** The identifier a branch is selected by. */
  function Id(b: Branch): (codec: int)
  {
    match b
    case Uncompressed => UNCOMPRESSED
    case Snappy => SNAPPY
    case Gzip => GZIP
    case Lz4 => LZ4
    case Zstd => ZSTD
  }

  /** The branch an identifier selects, or None for an identifier no case names. */
  function BranchOf(codec: int): (r: Option<Branch>)
    ensures r.Some? ==> Id(r.value) == codec
    ensures r.None? ==> forall b: Branch :: Id(b) != codec
  {
    if codec == UNCOMPRESSED then Some(Uncompressed)
    else if codec == SNAPPY then Some(Snappy)
    else if codec == GZIP then Some(Gzip)
    else if codec == LZ4 then Some(Lz4)
    else if codec == ZSTD then Some(Zstd)
    else None
  }

  // ---------------------------------------------------------------------
  // Results and the opaque libraries
  // ---------------------------------------------------------------------

  /** The errors of compress and uncompress: their own two and whatever a library reports. */
  datatype Error = ShortWrites | InvalidCompressionCodec(codec: int) | Library(reason: string)

  /** Go's ([]byte, error) pair; a nil slice is the empty sequence. */
  datatype Outcome = Outcome(bytes: seq<byte>, err: Option<Error>)

  /** A failed call: no bytes and the error. */
  function Failed(e: Error): (r: Outcome)
  {
    Outcome([], Some(e))
  }

  /** What a Write call reports: the count of bytes taken, the output it emitted and its error. */
  datatype WriteResult = WriteResult(n: int, emitted: seq<byte>, err: Option<Error>)

  /** What a Flush or Close call reports: the output it emitted and its error. */
  datatype StepResult = StepResult(emitted: seq<byte>, err: Option<Error>)

  /**
   * A compressing writer (gzip.Writer, lz4.Writer): write takes the input
   * accepted so far and the new chunk; flush and close take the input
   * accepted so far.
   */
  datatype StreamEngine = StreamEngine(
    write: (seq<byte>, seq<byte>) -> WriteResult,
    flush: seq<byte> -> StepResult,
    close: seq<byte> -> StepResult)

  /** The options the zstd encoder is built with (zstd.WithZeroFrames). */
  datatype ZstdEncoder = ZstdEncoder(zeroFrames: bool)

  /** A zstd decoder built with the default options. */
  datatype ZstdDecoder = ZstdDecoder

  /** The encoder initZstd builds: zero frames are written for empty input. */
  const DefaultZstdEncoder: ZstdEncoder := ZstdEncoder(true)

  /** The library functions compress and uncompress call. */
  datatype Libraries = Libraries(
    snappyEncode: seq<byte> -> seq<byte>,
    snappyDecode: seq<byte> -> Outcome,
    gzipWriter: StreamEngine,
    gzipOpen: seq<byte> -> Option<Error>,
    gzipReadAll: seq<byte> -> Outcome,
    lz4Writer: StreamEngine,
    lz4ReadAll: seq<byte> -> Outcome,
    zstdEncodeAll: (ZstdEncoder, seq<byte>) -> seq<byte>,
    zstdDecodeAll: (ZstdDecoder, seq<byte>) -> Outcome)

  // ---------------------------------------------------------------------
  // The write, short-write check, flush, close sequence
  // ---------------------------------------------------------------------

  /** The calls made on a writer, in order. */
  datatype Step = WriteStep | FlushStep | CloseStep

  /** The part of chunk a writer took when it reports n bytes taken. */
  function Taken(chunk: seq<byte>, n: int): (r: seq<byte>)
    ensures r <= chunk
    ensures 0 <= n <= |chunk| ==> |r| == n
  {
    if n <= 0 then [] else if n >= |chunk| then chunk else chunk[..n]
  }

  /**
   * The outcome of the GZIP and LZ4 branches of compress for buf: the output
   * of all three calls once Write took every byte and Write, Flush and Close
   * all succeeded; otherwise the first error, with no bytes.
   */
  function StreamCompressed(e: StreamEngine, buf: seq<byte>): (r: Outcome)
    ensures r.err.Some? ==> r.bytes == []
    ensures r.err.None? ==> e.write([], buf).err.None? && e.write([], buf).n == |buf|
    ensures r.err.None? ==> e.flush(buf).err.None? && e.close(buf).err.None?
  {
    var w := e.write([], buf);
    if w.err.Some? then Failed(w.err.value)
    else if w.n != |buf| then Failed(ShortWrites)
    else
      var f := e.flush(buf);
      if f.err.Some? then Failed(f.err.value)
      else
        var c := e.close(buf);
        if c.err.Some? then Failed(c.err.value)
        else Outcome(w.emitted + f.emitted + c.emitted, None)
  }

  /** The calls StreamCompressed makes on the writer: it stops at the first failure. */
  function StepsTaken(e: StreamEngine, buf: seq<byte>): (r: seq<Step>)
    ensures 1 <= |r| <= 3 && r <= [WriteStep, FlushStep, CloseStep]
  {
    var w := e.write([], buf);
    if w.err.Some? || w.n != |buf| then [WriteStep]
    else if e.flush(buf).err.Some? then [WriteStep, FlushStep]
    else [WriteStep, FlushStep, CloseStep]
  }

  /** bytes.Buffer: bytes appended at its end. */
  class ByteBuffer {
    var data: seq<byte>

    constructor ()
      ensures data == []
    {
      data := [];
    }

    method Write(chunk: seq<byte>)
      modifies this
      ensures data == old(data) + chunk
    {
      data := data + chunk;
    }
  }

  /** A compressing writer bound to the buffer it writes into. */
  class StreamWriter {
    const engine: StreamEngine
    const sink: ByteBuffer
    var accepted: seq<byte>
    ghost var steps: seq<Step>

    constructor (engine: StreamEngine, sink: ByteBuffer)
      ensures this.engine == engine && this.sink == sink
      ensures accepted == [] && steps == []
    {
      this.engine := engine;
      this.sink := sink;
      accepted := [];
      steps := [];
    }

    method Write(chunk: seq<byte>) returns (n: int, err: Option<Error>)
      modifies this, sink
      ensures n == engine.write(old(accepted), chunk).n && err == engine.write(old(accepted), chunk).err
      ensures sink.data == old(sink.data) + engine.write(old(accepted), chunk).emitted
      ensures accepted == old(accepted) + Taken(chunk, n)
      ensures steps == old(steps) + [WriteStep]
    {
      var w := engine.write(accepted, chunk);
      sink.Write(w.emitted);
      n, err := w.n, w.err;
      accepted := accepted + Taken(chunk, n);
      steps := steps + [WriteStep];
    }

    method Flush() returns (err: Option<Error>)
      modifies this, sink
      ensures err == engine.flush(accepted).err
      ensures sink.data == old(sink.data) + engine.flush(accepted).emitted
      ensures accepted == old(accepted) && steps == old(steps) + [FlushStep]
    {
      var f := engine.flush(accepted);
      sink.Write(f.emitted);
      err := f.err;
      steps := steps + [FlushStep];
    }

    method Close() returns (err: Option<Error>)
      modifies this, sink
      ensures err == engine.close(accepted).err
      ensures sink.data == old(sink.data) + engine.close(accepted).emitted
      ensures accepted == old(accepted) && steps == old(steps) + [CloseStep]
    {
      var c := engine.close(accepted);
      sink.Write(c.emitted);
      err := c.err;
      steps := steps + [CloseStep];
    }
  }

  /**
   * The GZIP and LZ4 branches of compress: a fresh buffer and writer, one
   * Write of buf, the short-write check, Flush and Close, each failure
   * returning at once.
   */
  method CompressStream(e: StreamEngine, buf: seq<byte>) returns (r: Outcome, ghost steps: seq<Step>)
    ensures r == StreamCompressed(e, buf)
    ensures steps == StepsTaken(e, buf)
  {
    var byteBuf := new ByteBuffer();
    var writer := new StreamWriter(e, byteBuf);
    var n, err := writer.Write(buf);
    steps := writer.steps;
    if err.Some? {
      return Failed(err.value), steps;
    }
    if n != |buf| {
      return Failed(ShortWrites), steps;
    }
    assert writer.accepted == buf;
    err := writer.Flush();
    steps := writer.steps;
    if err.Some? {
      return Failed(err.value), steps;
    }
    err := writer.Close();
    steps := writer.steps;
    if err.Some? {
      return Failed(err.value), steps;
    }
    r := Outcome(byteBuf.data, None);
  }

  // ---------------------------------------------------------------------
  // The zstd globals and initZstd
  // ---------------------------------------------------------------------

  /** zstdOnce, zstdEnc and zstdDec; constructions counts the runs of the once body. */
  class ZstdState {
    var once: bool
    var enc: Option<ZstdEncoder>
    var dec: Option<ZstdDecoder>
    ghost var constructions: nat

    /** The coders exist exactly when the once body has run, and it has run at most once. */
    ghost predicate Valid()
      reads this
    {
      constructions == (if once then 1 else 0) &&
      (once ==> enc == Some(DefaultZstdEncoder) && dec == Some(ZstdDecoder)) &&
      (!once ==> enc == None && dec == None)
    }

    /** The package as loaded: the once flag unset and both coders nil. */
    constructor ()
      ensures Valid() && !once
    {
      once := false;
      enc := None;
      dec := None;
      constructions := 0;
    }

    /** initZstd: the first call builds both coders; later calls change nothing. */
    method InitZstd()
      requires Valid()
      modifies this
      ensures Valid() && once
      ensures enc == Some(DefaultZstdEncoder) && dec == Some(ZstdDecoder)
      ensures old(once) ==> constructions == old(constructions)
      ensures constructions <= 1
    {
      if !once {
        enc := Some(DefaultZstdEncoder);
        dec := Some(ZstdDecoder);
        constructions := constructions + 1;
        once := true;
      }
    }
  }

  // ---------------------------------------------------------------------
  // compress and uncompress
  // ---------------------------------------------------------------------

  /** What compress returns for codec and buf. */
  function CompressResult(libs: Libraries, codec: int, buf: seq<byte>): (r: Outcome)
    ensures r.err.Some? ==> r.bytes == []
    ensures BranchOf(codec).None? ==> r == Failed(InvalidCompressionCodec(codec))
    ensures codec == UNCOMPRESSED ==> r == Outcome(buf, None)
  {
    match BranchOf(codec)
    case None => Failed(InvalidCompressionCodec(codec))
    case Some(Uncompressed) => Outcome(buf, None)
    case Some(Snappy) => Outcome(libs.snappyEncode(buf), None)
    case Some(Gzip) => StreamCompressed(libs.gzipWriter, buf)
    case Some(Lz4) => StreamCompressed(libs.lz4Writer, buf)
    case Some(Zstd) => Outcome(libs.zstdEncodeAll(DefaultZstdEncoder, buf), None)
  }

  /** What uncompress returns for codec and buf. */
  function UncompressResult(libs: Libraries, codec: int, buf: seq<byte>): (r: Outcome)
    ensures BranchOf(codec).None? ==> r == Failed(InvalidCompressionCodec(codec))
    ensures codec == UNCOMPRESSED ==> r == Outcome(buf, None)
  {
    match BranchOf(codec)
    case None => Failed(InvalidCompressionCodec(codec))
    case Some(Uncompressed) => Outcome(buf, None)
    case Some(Snappy) => libs.snappyDecode(buf)
    case Some(Gzip) =>
      (match libs.gzipOpen(buf)
       case Some(e) => Failed(e)
       case None => libs.gzipReadAll(buf))
    case Some(Lz4) => libs.lz4ReadAll(buf)
    case Some(Zstd) => libs.zstdDecodeAll(ZstdDecoder, buf)
  }

  /** compressionCodec.compress. */
  method Compress(z: ZstdState, libs: Libraries, codec: int, buf: seq<byte>) returns (r: Outcome)
    requires z.Valid()
    modifies z
    ensures z.Valid()
    ensures r == CompressResult(libs, codec, buf)
    ensures codec == ZSTD ==> z.once
    ensures codec != ZSTD ==> unchanged(z)
  {
    ghost var steps;
    if codec == UNCOMPRESSED {
      r := Outcome(buf, None);
    } else if codec == SNAPPY {
      r := Outcome(libs.snappyEncode(buf), None);
    } else if codec == GZIP {
      r, steps := CompressStream(libs.gzipWriter, buf);
    } else if codec == LZ4 {
      r, steps := CompressStream(libs.lz4Writer, buf);
    } else if codec == ZSTD {
      z.InitZstd();
      r := Outcome(libs.zstdEncodeAll(z.enc.value, buf), None);
    } else {
      r := Failed(InvalidCompressionCodec(codec));
    }
  }

  /** compressionCodec.uncompress. */
  method Uncompress(z: ZstdState, libs: Libraries, codec: int, buf: seq<byte>) returns (r: Outcome)
    requires z.Valid()
    modifies z
    ensures z.Valid()
    ensures r == UncompressResult(libs, codec, buf)
    ensures codec == ZSTD ==> z.once
    ensures codec != ZSTD ==> unchanged(z)
  {
    if codec == UNCOMPRESSED {
      r := Outcome(buf, None);
    } else if codec == SNAPPY {
      r := libs.snappyDecode(buf);
    } else if codec == GZIP {
      var openErr := libs.gzipOpen(buf);
      if openErr.Some? {
        r := Failed(openErr.value);
      } else {
        r := libs.gzipReadAll(buf);
      }
    } else if codec == LZ4 {
      r := libs.lz4ReadAll(buf);
    } else if codec == ZSTD {
      z.InitZstd();
      r := libs.zstdDecodeAll(z.dec.value, buf);
    } else {
      r := Failed(InvalidCompressionCodec(codec));
    }
  }

  // ---------------------------------------------------------------------
  // Properties
  // ---------------------------------------------------------------------

  /** Exactly five identifiers select a branch: LZO, BROTLI and every other value are invalid. */
  lemma KnownCodecs(codec: int)
    ensures BranchOf(codec).Some? <==> codec in {UNCOMPRESSED, SNAPPY, GZIP, LZ4, ZSTD}
    ensures BranchOf(LZO).None? && BranchOf(BROTLI).None?
  {
  }

  /** Each branch is selected by its own identifier and by no other. */
  lemma BranchOfId(b: Branch)
    ensures BranchOf(Id(b)) == Some(b)
    ensures forall c: int :: BranchOf(c) == Some(b) ==> c == Id(b)
  {
  }

  /** UNCOMPRESSED returns the input buffer unchanged, in both directions. */
  lemma UncompressedIsIdentity(libs: Libraries, buf: seq<byte>)
    ensures CompressResult(libs, UNCOMPRESSED, buf) == Outcome(buf, None)
    ensures UncompressResult(libs, UNCOMPRESSED, buf) == Outcome(buf, None)
    ensures UncompressResult(libs, UNCOMPRESSED, CompressResult(libs, UNCOMPRESSED, buf).bytes).bytes == buf
  {
  }

  /** An identifier no case names fails both ways with "invalid compression codec" and no bytes. */
  lemma InvalidCodec(libs: Libraries, codec: int, buf: seq<byte>)
    requires codec !in {UNCOMPRESSED, SNAPPY, GZIP, LZ4, ZSTD}
    ensures CompressResult(libs, codec, buf) == Failed(InvalidCompressionCodec(codec))
    ensures UncompressResult(libs, codec, buf) == Failed(InvalidCompressionCodec(codec))
  {
    KnownCodecs(codec);
  }

  /** A writer that takes fewer (or more) bytes than the buffer holds fails the call with "short writes". */
  lemma ShortWriteFails(e: StreamEngine, buf: seq<byte>)
    requires e.write([], buf).err.None? && e.write([], buf).n != |buf|
    ensures StreamCompressed(e, buf) == Failed(ShortWrites)
    ensures StepsTaken(e, buf) == [WriteStep]
  {
  }

  /**
   * The stream branches succeed exactly when Write takes every byte and
   * Write, Flush and Close all succeed, and then return what the three
   * emitted, in that order.
   */
  lemma StreamSucceeds(e: StreamEngine, buf: seq<byte>)
    ensures StreamCompressed(e, buf).err.None? <==>
      e.write([], buf).err.None? && e.write([], buf).n == |buf| &&
      e.flush(buf).err.None? && e.close(buf).err.None?
    ensures StreamCompressed(e, buf).err.None? ==>
      StreamCompressed(e, buf).bytes == e.write([], buf).emitted + e.flush(buf).emitted + e.close(buf).emitted
    ensures StreamCompressed(e, buf).err.None? ==> StepsTaken(e, buf) == [WriteStep, FlushStep, CloseStep]
  {
  }

  /** The error of a failed stream branch is that of the first step that failed. */
  lemma StreamFirstError(e: StreamEngine, buf: seq<byte>)
    ensures e.write([], buf).err.Some? ==> StreamCompressed(e, buf) == Failed(e.write([], buf).err.value)
    ensures e.write([], buf).err.None? && e.write([], buf).n == |buf| && e.flush(buf).err.Some? ==>
      StreamCompressed(e, buf) == Failed(e.flush(buf).err.value)
    ensures e.write([], buf).err.None? && e.write([], buf).n == |buf| && e.flush(buf).err.None? && e.close(buf).err.Some? ==>
      StreamCompressed(e, buf) == Failed(e.close(buf).err.value)
  {
  }

  /** compress never fails with bytes, and its SNAPPY, ZSTD and UNCOMPRESSED branches never fail. */
  lemma CompressErrors(libs: Libraries, codec: int, buf: seq<byte>)
    ensures CompressResult(libs, codec, buf).err.Some? ==> CompressResult(libs, codec, buf).bytes == []
    ensures codec in {UNCOMPRESSED, SNAPPY, ZSTD} ==> CompressResult(libs, codec, buf).err.None?
    ensures codec == SNAPPY ==> CompressResult(libs, codec, buf) == Outcome(libs.snappyEncode(buf), None)
  {
  }

  /** GZIP uncompress reports the reader's error before anything is read. */
  lemma GzipOpenErrorFirst(libs: Libraries, buf: seq<byte>, e: Error)
    requires libs.gzipOpen(buf) == Some(e)
    ensures UncompressResult(libs, GZIP, buf) == Failed(e)
    ensures UncompressResult(libs.(gzipReadAll := _ => Outcome(buf, None)), GZIP, buf) == Failed(e)
  {
  }

  /** The library pair of a branch gives buf back from what compress made of it. */
  predicate Inverts(libs: Libraries, b: Branch, buf: seq<byte>)
  {
    match b
    case Uncompressed => true
    case Snappy => libs.snappyDecode(libs.snappyEncode(buf)) == Outcome(buf, None)
    case Gzip =>
      var c := StreamCompressed(libs.gzipWriter, buf);
      c.err.None? ==> libs.gzipOpen(c.bytes).None? && libs.gzipReadAll(c.bytes) == Outcome(buf, None)
    case Lz4 =>
      var c := StreamCompressed(libs.lz4Writer, buf);
      c.err.None? ==> libs.lz4ReadAll(c.bytes) == Outcome(buf, None)
    case Zstd => libs.zstdDecodeAll(ZstdDecoder, libs.zstdEncodeAll(DefaultZstdEncoder, buf)) == Outcome(buf, None)
  }

  /**
   * compress and uncompress pick the same branch for a codec: whenever that
   * branch's libraries invert each other, uncompress undoes a successful compress.
   * Inverts is this conclusion stated branch by branch on the libraries, so the
   * lemma checks only the dispatch (the same library pair both ways, and the
   * gzip open before the read); it is no round-trip proof of any library.
   */
  lemma DispatchRoundTrip(libs: Libraries, codec: int, buf: seq<byte>)
    requires BranchOf(codec).Some? && Inverts(libs, BranchOf(codec).value, buf)
    requires CompressResult(libs, codec, buf).err.None?
    ensures UncompressResult(libs, codec, CompressResult(libs, codec, buf).bytes) == Outcome(buf, None)
  {
  }
}
