/** Format detection and the dispatchers built on it: DetectCompressionFormat peeks at
    the start of a reader, matches it against the format table and hands back a reader
    that yields the peeked bytes again; AutoDecompress and CompressStream dispatch to the
    codec constructors. */
module Compression {
  import opened Wrappers
  import opened Streams
  import opened Formats
  import opened Codecs

  /** What detection returns besides an error: the format's name ("" when none matched),
      its decompressor (None for nil), and the reader to use in place of the input. */
  datatype Format<R> = Format(name: string, decompressor: Option<Decompressor>, reader: R)

  /** The bytes detection reads into its buffer: the first PeekSize, or all of a shorter stream. */
  function Peeked(s: Stream): (p: seq<byte>)
    ensures p <= s.data && |p| <= PeekSize
    ensures |p| < PeekSize ==> p == s.data
  {
    if |s.data| < PeekSize then s.data else s.data[..PeekSize]
  }

  /** The name and decompressor reported for the peeked bytes. */
  function Recognize(peeked: seq<byte>): (r: (string, Option<Decompressor>))
    ensures r.0 == "" <==> r.1 == None
    ensures r.0 != "" ==>
      && r.0 in CompressionAlgos
      && CompressionAlgos[r.0].prefix <= peeked
      && r.1 == Some(CompressionAlgos[r.0].decompressor)
    ensures r.0 == "" ==> forall k :: k in CompressionAlgos ==> !(CompressionAlgos[k].prefix <= peeked)
  {
    match Match(peeked)
    case None => ("", None)
    case Some(k) => (k, Some(CompressionAlgos[k].decompressor))
  }

  /** The outcome of DetectCompressionFormat on a reader that delivers `s`. */
  function DetectFormat(s: Stream): (r: Result<Format<Stream>, Error>)
    ensures r.Failure? <==> |s.data| < PeekSize && !IsEndOfStream(s.end)
    ensures r.Failure? ==> r.error == Io(s.end)
    ensures r.Success? ==> r.value.reader == s
    ensures r.Success? ==> (r.value.name == "" <==> r.value.decompressor == None)
    ensures r.Success? && r.value.name != "" ==>
      && r.value.name in CompressionAlgos
      && CompressionAlgos[r.value.name].prefix <= Peeked(s)
      && r.value.decompressor == Some(CompressionAlgos[r.value.name].decompressor)
    ensures r.Success? && r.value.name == "" ==>
      forall k :: k in CompressionAlgos ==> !(CompressionAlgos[k].prefix <= Peeked(s))
  {
    if |s.data| < PeekSize && !IsEndOfStream(s.end) then
      Failure(Io(s.end))
    else
      var peeked := Peeked(s);
      var (name, decompressor) := Recognize(peeked);
      Success(Format(name, decompressor, Stream(peeked + s.data[|peeked|..], s.end)))
  }

  /** DetectCompressionFormat: reads up to PeekSize bytes of `input` into a buffer, looks
      for the table entry whose prefix starts them, visiting the table in `order`, and
      returns a reader that yields the buffered bytes followed by the rest of `input`. */
  method DetectCompressionFormat(input: Reader, order: seq<string>) returns (r: Result<Format<MultiReader>, Error>)
    requires input.Valid() && IsIterationOrder(order)
    modifies input
    ensures input.Valid()
    ensures var spec := DetectFormat(old(input.Unread()));
      && (r.Failure? <==> spec.Failure?)
      && (r.Failure? ==> r.error == spec.error && input.Unread().data == [])
      && (r.Success? ==>
            && r.value.name == spec.value.name
            && r.value.decompressor == spec.value.decompressor
            && r.value.reader.tail == input
            && r.value.reader.head == Peeked(old(input.Unread()))
            && input.Unread() == old(input.Unread()).Drop(|r.value.reader.head|)
            && r.value.reader.Contents() == old(input.Unread()))
  {
    ghost var s := input.Unread();
    var buffer := new byte[PeekSize];
    var n, err := ReadAtLeast(input, buffer, PeekSize);
    if err.Some? && !IsEndOfStream(err.value) {
      return Failure(Io(err.value));
    }
    var peeked := buffer[..n];
    assert peeked == Peeked(s);
    var name, decompressor := MatchPeeked(peeked, order);
    r := Success(Format(name, decompressor, MultiReader(peeked, input)));
  }

  /** The loop of DetectCompressionFormat: visits the table in `order` and stops at the
      first entry whose prefix starts the peeked bytes. */
  method MatchPeeked(peeked: seq<byte>, order: seq<string>) returns (name: string, decompressor: Option<Decompressor>)
    requires IsIterationOrder(order)
    ensures (name, decompressor) == Recognize(peeked)
  {
    name, decompressor := "", None;
    var i := 0;
    while i < |order|
      invariant i <= |order|
      invariant FirstMatch(order[i..], peeked) == FirstMatch(order, peeked)
    {
      var algo := CompressionAlgos[order[i]];
      if algo.prefix <= peeked {
        name, decompressor := order[i], Some(algo.decompressor);
        break;
      }
      i := i + 1;
    }
    IterationOrderIsIrrelevant(order, peeked);
  }

  /** DetectCompression: detection without the format's name. */
  method DetectCompression(input: Reader, order: seq<string>) returns (r: Result<(Option<Decompressor>, MultiReader), Error>)
    requires input.Valid() && IsIterationOrder(order)
    modifies input
    ensures input.Valid()
    ensures var spec := DetectFormat(old(input.Unread()));
      && (r.Failure? <==> spec.Failure?)
      && (r.Failure? ==> r.error == spec.error)
      && (r.Success? ==>
            && r.value.0 == spec.value.decompressor
            && r.value.1.tail == input
            && r.value.1.Contents() == old(input.Unread()))
  {
    var format := DetectCompressionFormat(input, order);
    match format
    case Failure(e) => r := Failure(e);
    case Success(f) => r := Success((f.decompressor, f.reader));
  }

  /** The outcome of AutoDecompress on a reader that delivers `s`: the stream to read and
      whether it is decompressed. */
  function AutoDecompressing(s: Stream, lib: Libraries): (r: Result<(ReadCloser, bool), Error>)
    ensures DetectFormat(s).Failure? ==> r == Failure(Wrapped(DetectingCompression, Io(s.end)))
    ensures r.Failure? ==> r.error.Wrapped?
    ensures r.Failure? && r.error.context == InitializingDecompression ==> DetectFormat(s).Success?
    ensures DetectFormat(s).Success? && DetectFormat(s).value.decompressor.None? ==>
      r == Success((NopCloser(s), false))
    ensures DetectFormat(s).Success? && DetectFormat(s).value.decompressor.Some? ==>
      var init := Decompress(DetectFormat(s).value.decompressor.value, s, lib);
      && (init.Failure? ==> r == Failure(Wrapped(InitializingDecompression, init.error)))
      && (init.Success? ==> r == Success((init.value, true)))
    ensures r.Success? && !r.value.1 ==> r.value.0 == NopCloser(s) && DetectFormat(s).value.name == ""
    ensures r.Success? && r.value.1 ==>
      && DetectFormat(s).Success? && DetectFormat(s).value.decompressor.Some?
      && r.value.0 == Decoder(DetectFormat(s).value.decompressor.value, s)
  {
    match DetectFormat(s)
    case Failure(e) => Failure(Wrapped(DetectingCompression, e))
    case Success(f) =>
      match f.decompressor
      case None => Success((NopCloser(f.reader), false))
      case Some(d) =>
        match Decompress(d, f.reader, lib)
        case Failure(e) => Failure(Wrapped(InitializingDecompression, e))
        case Success(rc) => Success((rc, true))
  }

  /** AutoDecompress: detects the format of `input` and returns a stream of its
      decompressed contents, or of its contents as they are when no format matched. */
  method AutoDecompress(input: Reader, order: seq<string>, lib: Libraries) returns (r: Result<(ReadCloser, bool), Error>)
    requires input.Valid() && IsIterationOrder(order)
    modifies input
    ensures input.Valid()
    ensures r == AutoDecompressing(old(input.Unread()), lib)
  {
    var detected := DetectCompression(input, order);
    match detected
    case Failure(e) =>
      return Failure(Wrapped(DetectingCompression, e));
    case Success((decompressor, stream)) =>
      if decompressor.Some? {
        var res := Decompress(decompressor.value, stream.Contents(), lib);
        if res.Failure? {
          return Failure(Wrapped(InitializingDecompression, res.error));
        }
        return Success((res.value, true));
      }
      return Success((NopCloser(stream.Contents()), false));
  }

  /** CompressStream: the compressor registered under `name`, writing to `dest`. */
  function CompressStream<W>(dest: W, name: string, level: Option<int>, lib: Libraries): (r: Result<WriteCloser<W>, Error>)
    ensures name !in Compressors <==> r == Failure(CompressorNotFound(name))
    ensures name in Compressors ==> r == Compress(Compressors[name], dest, level, lib)
    ensures name in Compressors && r.Failure? ==> r.error == Bzip2CompressionNotSupported || r.error.Library?
    ensures r.Success? ==> name in Compressors && r.value.dest == dest
    ensures name == "bzip2" ==> r == Failure(Bzip2CompressionNotSupported)
    ensures name == "gzip" ==> (r.Success? ==> r.value == GzipWriter(level, dest)) && (level.None? ==> r.Success?)
    ensures name == "gzip" && level.Some? ==> (r.Success? <==> lib.gzipNewWriterLevel(level.value).None?)
    ensures name == "xz" ==> (r.Success? <==> lib.xzNewWriter.None?) && (r.Success? ==> r.value == XzWriter(dest))
    ensures name == "zstd" ==> (r.Success? <==> lib.zstdCompressor(level).None?) && (r.Success? ==> r.value == ZstdWriter(level, dest))
    ensures name == "xz" && lib.xzNewWriter.Some? ==> r == Failure(Library(lib.xzNewWriter.value))
    ensures name == "zstd" && lib.zstdCompressor(level).Some? ==> r == Failure(Library(lib.zstdCompressor(level).value))
  {
    if name !in Compressors then Failure(CompressorNotFound(name))
    else Compress(Compressors[name], dest, level, lib)
  }

  /** A table prefix starts the peeked bytes exactly when it starts the whole stream. */
  lemma PeekedPrefix(s: Stream, k: string)
    requires k in CompressionAlgos
    ensures CompressionAlgos[k].prefix <= Peeked(s) <==> CompressionAlgos[k].prefix <= s.data
  {
    var p := CompressionAlgos[k].prefix;
    PrefixesFitThePeek(k);
    if p <= s.data && |s.data| >= PeekSize {
      assert Peeked(s)[..|p|] == s.data[..|p|];
    }
  }

  /** A stream shorter than the buffer is not an error when it ends with EOF or an
      unexpected EOF: all of it is peeked. */
  lemma ShortStreamIsNotAnError(s: Stream)
    requires |s.data| < PeekSize && IsEndOfStream(s.end)
    ensures DetectFormat(s).Success? && Peeked(s) == s.data
    ensures DetectFormat(s).value.reader == s
  {
  }

  /** Detection reports format `k` exactly when the stream starts with k's prefix. */
  lemma DetectedIffPrefixOfStream(s: Stream, k: string)
    requires k in CompressionAlgos && DetectFormat(s).Success?
    ensures DetectFormat(s).value.name == k <==> CompressionAlgos[k].prefix <= s.data
  {
    PeekedPrefix(s, k);
    var name := DetectFormat(s).value.name;
    if CompressionAlgos[k].prefix <= s.data && name != "" {
      MatchIsUnique(Peeked(s), k, name);
    }
  }

  /** AutoDecompress reports a compressed stream exactly when detection succeeds, some
      format's prefix starts the stream, and that format's decompressor accepts it. */
  lemma WasCompressedIff(s: Stream, lib: Libraries)
    ensures (AutoDecompressing(s, lib).Success? && AutoDecompressing(s, lib).value.1) <==>
      && DetectFormat(s).Success?
      && exists k :: k in CompressionAlgos && CompressionAlgos[k].prefix <= s.data
                  && Decompress(CompressionAlgos[k].decompressor, s, lib).Success?
  {
    if DetectFormat(s).Success? {
      var f := DetectFormat(s).value;
      if f.name != "" {
        DetectedIffPrefixOfStream(s, f.name);
      }
      forall k | k in CompressionAlgos && CompressionAlgos[k].prefix <= s.data
        ensures f.name == k
      {
        DetectedIffPrefixOfStream(s, k);
      }
    }
  }

  /** A stream starting with a gzip header is detected as gzip and handed back whole. */
  lemma GzipHeaderIsDetected(rest: seq<byte>, end: IoError)
    requires 4 <= |rest| || IsEndOfStream(end)
    ensures var s := Stream([0x1F, 0x8B, 0x08, 0x00] + rest, end);
      DetectFormat(s) == Success(Format("gzip", Some(GzipDecompressor), s))
  {
    var s := Stream([0x1F, 0x8B, 0x08, 0x00] + rest, end);
    DetectedIffPrefixOfStream(s, "gzip");
  }

  /** Bytes that start no known format are not an error: no name, no decompressor, and
      the same bytes to read. */
  lemma UnknownBytesPassThrough()
    ensures var s := Stream([0x00, 0x01, 0x02, 0x03], EOF);
      DetectFormat(s) == Success(Format("", None, s))
  {
    var s := Stream([0x00, 0x01, 0x02, 0x03], EOF);
    assert Peeked(s) == s.data;
    forall k | k in CompressionAlgos
      ensures !(CompressionAlgos[k].prefix <= s.data)
    {
      PrefixesFitThePeek(k);
      assert CompressionAlgos[k].prefix[0] != 0x00;
    }
  }
}
