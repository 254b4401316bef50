# Compression format detection and dispatch

A Dafny model of the `compression` package: it recognises gzip, bzip2, xz and zstd
streams by their magic prefixes, hands back a reader that still yields every byte of the
input, wraps a recognised stream in the matching decompressor, and looks compressors up by
name.

- `wrappers.dfy` (`Wrappers`): `Option` for Go's `nil`, `Result` for `(value, error)` returns.
- `streams.dfy` (`Streams`): an `io.Reader` is a `Reader` object over a `Stream`, the bytes
  it will deliver followed by the error that ends them (`EOF` for a clean end). `Read` may
  return any positive number of bytes, so `ReadAtLeast`, which fills the detection buffer
  in place, is proved for every way a reader splits its data. `MultiReader` is
  `io.MultiReader(bytes.NewReader(head), tail)`.
- `formats.dfy` (`Formats`): the `compressionAlgos` table, its prefix-freeness, and the
  matching loop `FirstMatch` over an arbitrary iteration order. Go iterates a map in no
  fixed order, so the loop takes the order as a parameter and `IterationOrderIsIrrelevant`
  proves every order gives the order-free `Match`.
- `codecs.dfy` (`Codecs`): the error kinds, the `compressors` table, and the
  decompressor/compressor constructors. The codec libraries are opaque: `Libraries`
  gives, for each constructor that can fail, the error it reports. The `cgo` build tag is
  the flag `Libraries.cgo`: without it `ZstdDecompressor` always fails.
- `compression.dfy` (`Compression`): `DetectFormat` and `AutoDecompressing` specify
  detection and auto-decompression on byte streams. `DetectCompressionFormat`,
  `DetectCompression` and `AutoDecompress` run them on a `Reader` and are proved against
  those specifications. `CompressStream` is the compressor dispatcher.

The peek buffer has the fixed size 8, as `buffer := [8]byte{}` declares. It is not the
length of the longest prefix, which is 6. A first-match-wins search would depend on the
order in which the table is visited. The code ranges over a Go map, whose order is
unspecified. The model proves that the order does not matter, because no prefix starts
another.

## Model

| member | source | states |
|---|---|---|
| Streams.Reader.Read | pkg/compression/compression.go:93 | the input reader: a read copies the next bytes into the buffer and advances; it delivers at least one byte while any remain and there is room, and the stream's ending error once none remain |
| Streams.ReadAtLeast | pkg/compression/compression.go:93 | with a buffer of at least `min` bytes, the bytes read are exactly the stream's next `n` bytes and the reader advances by `n`; the error is nil exactly when `n >= min`; otherwise the whole stream was read and the error is its ending error, with a clean EOF after some bytes turned into ErrUnexpectedEOF; a short buffer gives ErrShortBuffer and reads nothing |
| Streams.ShortReadError | pkg/compression/compression.go:93-94 | turning EOF into ErrUnexpectedEOF keeps an end-of-stream error an end-of-stream error and changes nothing else |
| Streams.MultiReader.Contents | pkg/compression/compression.go:114 | the reconstructed reader yields the buffered bytes first and then ends as the input does |
| Formats.PrefixesFitThePeek | pkg/compression/compression.go:62-70 | every magic prefix is non-empty and at most the 8 bytes detection reads |
| Formats.PrefixFree | pkg/compression/compression.go:66-69 | no table prefix is a prefix of another entry's |
| Formats.MatchIsUnique | pkg/compression/compression.go:102-103 | at most one table entry's prefix starts any byte sequence |
| Formats.FirstMatch | pkg/compression/compression.go:102-109 | the loop's result, for a given visiting order, is an entry of that order whose prefix starts the peeked bytes; it is none only when no entry's prefix does |
| Formats.Match | pkg/compression/compression.go:100-109 | the detected name is a table entry whose prefix starts the peeked bytes; it is none exactly when no prefix does |
| Formats.FirstMatchIsTheMatch | pkg/compression/compression.go:102-107 | when entry k matches, the loop stops at k whatever the order |
| Formats.IterationOrderIsIrrelevant | pkg/compression/compression.go:102 | every order in which Go may range over the table yields the same match |
| Compression.Recognize | pkg/compression/compression.go:100-107 | the reported name is "" exactly when the decompressor is nil; a non-empty name is a table entry whose prefix starts the peeked bytes, with that entry's decompressor; "" means no entry's prefix starts them |
| Compression.Peeked | pkg/compression/compression.go:91-93 | the peeked bytes start the stream and are at most 8; fewer than 8 only when they are the whole stream |
| Compression.DetectFormat | pkg/compression/compression.go:90-115 | detection fails exactly when fewer than 8 bytes precede an error other than EOF or ErrUnexpectedEOF, and then returns that error unchanged; on success the reconstructed stream equals the input, a name is reported exactly when a decompressor is, and that entry's prefix starts the peeked bytes with its decompressor returned; with no name, no entry's prefix starts them |
| Compression.MatchPeeked | pkg/compression/compression.go:100-109 | the loop with `break`, run in any iteration order, returns the name and decompressor of the one matching entry, or "" and nil |
| Compression.DetectCompressionFormat | pkg/compression/compression.go:90-115 | on a reader, agrees with DetectFormat; on success the input has advanced past exactly the peeked bytes and the returned MultiReader over the buffer and the input yields exactly what the input would have yielded; on failure the error is returned and no reader |
| Compression.DetectCompression | pkg/compression/compression.go:119-122 | the same detection without the name |
| Compression.AutoDecompressing | pkg/compression/compression.go:128-143 | a detection error is wrapped "detecting"; when detection succeeds with no format the result is a no-op closer over the unchanged input and `false`; with a format, a constructor error is wrapped "initializing" with no stream, and a constructed decoder is returned with `true`; `true` always comes with the matched decompressor reading the whole input |
| Compression.AutoDecompress | pkg/compression/compression.go:128-143 | on a reader, gives exactly the result AutoDecompressing gives for the bytes the reader would have delivered, and leaves the reader valid |
| Compression.WasCompressedIff | pkg/compression/compression.go:129-142 | `wasCompressed` is true exactly when detection succeeds, some table prefix starts the input, and that format's constructor accepts the input |
| Compression.PeekedPrefix | pkg/compression/compression.go:91-103 | a table prefix starts the 8-byte peek exactly when it starts the whole input |
| Compression.ShortStreamIsNotAnError | pkg/compression/compression.go:93-94 | a stream of fewer than 8 bytes ending in EOF or ErrUnexpectedEOF is not an error, all of it is peeked, and it is handed back whole |
| Compression.DetectedIffPrefixOfStream | pkg/compression/compression.go:102-107 | when detection succeeds, it reports format k exactly when the input starts with k's prefix |
| Compression.GzipHeaderIsDetected | pkg/compression/compression.go:66 | an input starting `1F 8B 08 00`, when at least 8 bytes arrive or it ends in EOF or ErrUnexpectedEOF, is detected as gzip with the gzip decompressor and handed back whole |
| Compression.UnknownBytesPassThrough | pkg/compression/compression.go:100-114 | the input `00 01 02 03` gives name "", no decompressor and the same bytes, with no error |
| Codecs.Decompress | pkg/compression/compression.go:20-37 | a successful constructor returns that codec's decoder over the given stream; gzip and xz fail exactly when their library rejects the stream, and then return that library's error; bzip2 never fails; zstd succeeds exactly under the cgo build tag and otherwise fails with "not supported on this platform" |
| Codecs.TablesNameTheSameFormats | pkg/compression/compression.go:62-78 | the `compressors` table and the `compressionAlgos` table register exactly the same names |
| Codecs.Compress | pkg/compression/compression.go:43-59 | gzip uses the leveled constructor exactly when a level is given and can fail only then; bzip2 always fails with "not supported"; xz gives an xz writer and fails exactly when its library does; zstd gives a zstd writer carrying the level and fails exactly when its constructor does; a failing library's own error is returned; every writer writes to the given destination |
| Compression.CompressStream | pkg/compression/compression.go:72-86 | "cannot find compressor" (and no writer) is returned exactly for a name not in the table; a registered name gives what its compressor gives, failing only with "not supported" or a library's error; "bzip2" gives "not supported" with or without a level; "gzip" gives a writer carrying the requested level, never fails without one, and with one fails exactly when the library rejects it; "xz" gives the xz writer exactly when its library succeeds; "zstd" gives the zstd writer with the level exactly when its constructor succeeds |

## Left out

- The codec libraries (pgzip, compress/bzip2, ulikunitz/xz, DataDog/zstd) are opaque:
  only whether their constructors fail is modelled. Hence the round trip "compress, then
  auto-decompress, gives the input back" cannot be stated.
- `zstdCompressor` is not part of this model; it is an opaque constructor that may fail.
- `ZstdDecompressor` of pkg/compression/compression_cgo.go and
  pkg/compression/compression_nocgo.go is the flag `Libraries.cgo`, not two models.
- Logging (`logrus.Debugf`) is a side effect with no result; it is left out.
- Error texts are left out; errors are constructors of `Codecs.Error`, and `errors.Wrapf`
  is `Wrapped` with the stage.
- Compression.AutoDecompress: the decoder or no-op closer it returns holds the byte stream
  the reconstructed reader delivers, as a value, not the live MultiReader object; `Close` is
  not modelled.
- Streams.Reader.Read: a read that returns bytes together with an error, a read that
  returns no bytes and no error, and a reader that delivers more after an error are not
  modelled. io.ReadAtLeast reports the same result for the first of these.
- Codecs.Compress: library constructors are modelled as not depending on the destination
  writer.
- Function values (`DecompressorFunc`, `compressorFunc`) are enumerations of the named
  functions.
