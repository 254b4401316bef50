/** The errors the package returns, and the codec constructors of the two tables. The
    codecs themselves are outside libraries: what they decide is given as `Libraries`. */
module Codecs {
  import opened Wrappers
  import opened Streams
  import opened Formats

  /** The stage named by AutoDecompress when it wraps an error. */
  datatype Context = DetectingCompression | InitializingDecompression

  datatype Error =
    | Io(cause: IoError)                   // a read error, returned unchanged
    | Library(id: nat)                     // an error reported by a codec library
    | ZstdNotSupportedOnPlatform           // "zstd not supported on this platform"
    | Bzip2CompressionNotSupported         // "bzip2 compression not supported"
    | CompressorNotFound(name: string)     // "cannot find compressor for '<name>'"
    | Wrapped(context: Context, inner: Error)

  /** What the codec libraries decide, which this package only passes on: for each
      constructor that can fail, the error it reports, if any. `cgo` is the build tag that
      selects which ZstdDecompressor is compiled in. */
  datatype Libraries = Libraries(
    gzipNewReader: Stream -> Option<nat>,       // pgzip.NewReader
    xzNewReader: Stream -> Option<nat>,         // xz.NewReader
    gzipNewWriterLevel: int -> Option<nat>,     // pgzip.NewWriterLevel
    xzNewWriter: Option<nat>,                   // xz.NewWriter
    zstdCompressor: Option<int> -> Option<nat>, // zstdCompressor
    cgo: bool)

  /** A decompressed stream: a library's decoder reading `source`, or `source` itself
      behind a Close that does nothing. */
  datatype ReadCloser = Decoder(codec: Decompressor, source: Stream) | NopCloser(source: Stream)

  /** Calls a DecompressorFunc on a stream. */
  function Decompress(d: Decompressor, s: Stream, lib: Libraries): (r: Result<ReadCloser, Error>)
    ensures r.Success? ==> r.value == Decoder(d, s)
    ensures d == GzipDecompressor ==> (r.Failure? <==> lib.gzipNewReader(s).Some?)
    ensures d == Bzip2Decompressor ==> r.Success?
    ensures d == XzDecompressor ==> (r.Failure? <==> lib.xzNewReader(s).Some?)
    ensures d == ZstdDecompressor ==> (r.Success? <==> lib.cgo)
    ensures r.Failure? ==> r.error.Library? || r.error == ZstdNotSupportedOnPlatform
    ensures d == GzipDecompressor && lib.gzipNewReader(s).Some? ==> r == Failure(Library(lib.gzipNewReader(s).value))
    ensures d == XzDecompressor && lib.xzNewReader(s).Some? ==> r == Failure(Library(lib.xzNewReader(s).value))
    ensures d == ZstdDecompressor && !lib.cgo ==> r == Failure(ZstdNotSupportedOnPlatform)
  {
    match d
    case GzipDecompressor =>
      (match lib.gzipNewReader(s)
       case None => Success(Decoder(d, s))
       case Some(e) => Failure(Library(e)))
    case Bzip2Decompressor => Success(Decoder(d, s))
    case XzDecompressor =>
      (match lib.xzNewReader(s)
       case None => Success(Decoder(d, s))
       case Some(e) => Failure(Library(e)))
    case ZstdDecompressor =>
      if lib.cgo then Success(Decoder(d, s)) else Failure(ZstdNotSupportedOnPlatform)
  }

  /** The compressorFunc values of the compressor table. */
  datatype Compressor = GzipCompressor | Bzip2Compressor | XzCompressor | ZstdCompressor

  /** compressors */
  const Compressors: map<string, Compressor> := map[
    "gzip" := GzipCompressor,
    "bzip2" := Bzip2Compressor,
    "xz" := XzCompressor,
    "zstd" := ZstdCompressor
  ]

  /** Every format that can be detected can be asked for by name, and no other name is registered. */
  lemma TablesNameTheSameFormats()
    ensures Compressors.Keys == CompressionAlgos.Keys
  {
  }

  /** A compressing stream writing to `dest`. A gzip writer made with an explicit level
      carries it; one made with the library's default level carries None. */
  datatype WriteCloser<W> =
    | GzipWriter(level: Option<int>, dest: W)
    | XzWriter(dest: W)
    | ZstdWriter(level: Option<int>, dest: W)

  /** Calls a compressorFunc on a destination and an optional level. */
  function Compress<W>(c: Compressor, dest: W, level: Option<int>, lib: Libraries): (r: Result<WriteCloser<W>, Error>)
    ensures r.Success? ==> r.value.dest == dest
    ensures c == GzipCompressor && level.None? ==> r == Success(GzipWriter(None, dest))
    ensures c == GzipCompressor && level.Some? ==>
      r == (match lib.gzipNewWriterLevel(level.value)
            case None => Success(GzipWriter(level, dest))
            case Some(e) => Failure(Library(e)))
    ensures c == Bzip2Compressor ==> r == Failure(Bzip2CompressionNotSupported)
    ensures c == XzCompressor ==> (r.Success? <==> lib.xzNewWriter.None?) && (r.Success? ==> r.value == XzWriter(dest))
    ensures c == ZstdCompressor ==>
      (r.Success? <==> lib.zstdCompressor(level).None?) && (r.Success? ==> r.value == ZstdWriter(level, dest))
    ensures c == XzCompressor && lib.xzNewWriter.Some? ==> r == Failure(Library(lib.xzNewWriter.value))
    ensures c == ZstdCompressor && lib.zstdCompressor(level).Some? ==>
      r == Failure(Library(lib.zstdCompressor(level).value))
    ensures r.Failure? ==> r.error == Bzip2CompressionNotSupported || r.error.Library?
  {
    match c
    case GzipCompressor =>
      if level.Some? then
        (match lib.gzipNewWriterLevel(level.value)
         case None => Success(GzipWriter(level, dest))
         case Some(e) => Failure(Library(e)))
      else Success(GzipWriter(None, dest))
    case Bzip2Compressor => Failure(Bzip2CompressionNotSupported)
    case XzCompressor =>
      (match lib.xzNewWriter
       case None => Success(XzWriter(dest))
       case Some(e) => Failure(Library(e)))
    case ZstdCompressor =>
      (match lib.zstdCompressor(level)
       case None => Success(ZstdWriter(level, dest))
       case Some(e) => Failure(Library(e)))
  }
}
