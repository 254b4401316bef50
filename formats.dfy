/** The table of recognised compression formats, keyed by algorithm name, and prefix
    matching against it. Go visits a map in no fixed order, so matching is defined for any
    order the table may be iterated in, and proved not to depend on it. */
module Formats {
  import opened Wrappers
  import opened Streams

  /** The DecompressorFunc values the table holds. */
  datatype Decompressor = GzipDecompressor | Bzip2Decompressor | XzDecompressor | ZstdDecompressor

  /** An entry of the table: the magic prefix of the format and its decompressor. */
  datatype Algorithm = Algorithm(prefix: seq<byte>, decompressor: Decompressor)

  /** compressionAlgos. gzip is ID1, ID2 and CM (deflate) of section 2.3.1 of RFC 1952;
      bzip2 is "BZh"; xz is the Header Magic Bytes of section 2.1.1.1 of the .xz file
      format; zstd is the frame Magic_Number of section 3.1.1 of RFC 8878, little-endian. */
  const CompressionAlgos: map<string, Algorithm> := map[
    "gzip" := Algorithm([0x1F, 0x8B, 0x08], GzipDecompressor),
    "bzip2" := Algorithm([0x42, 0x5A, 0x68], Bzip2Decompressor),
    "xz" := Algorithm([0xFD, 0x37, 0x7A, 0x58, 0x5A, 0x00], XzDecompressor),
    "zstd" := Algorithm([0x28, 0xB5, 0x2F, 0xFD], ZstdDecompressor)
  ]

  /** The table's names in the order they are declared. */
  const DeclaredOrder: seq<string> := ["gzip", "bzip2", "xz", "zstd"]

  /** The size of the buffer detection reads into. */
  const PeekSize: nat := 8

  /** `order` lists every name of the table exactly once: an order in which Go's `range`
      may visit the map. */
  predicate IsIterationOrder(order: seq<string>) {
    && (forall k :: k in order ==> k in CompressionAlgos)
    && (forall k :: k in CompressionAlgos ==> k in order)
    && (forall i, j :: 0 <= i < j < |order| ==> order[i] != order[j])
  }

  /** Every magic prefix is non-empty and fits in the detection buffer. */
  lemma PrefixesFitThePeek(k: string)
    requires k in CompressionAlgos
    ensures 0 < |CompressionAlgos[k].prefix| <= PeekSize
  {
  }

  /** No magic prefix of the table starts with another one: their first bytes all differ. */
  lemma PrefixFree(k1: string, k2: string)
    requires k1 in CompressionAlgos && k2 in CompressionAlgos
    ensures CompressionAlgos[k1].prefix <= CompressionAlgos[k2].prefix ==> k1 == k2
  {
    var p1, p2 := CompressionAlgos[k1].prefix, CompressionAlgos[k2].prefix;
    if p1 <= p2 {
      assert p1[0] == p2[0];
    }
  }

  lemma DeclaredOrderIsAnIterationOrder()
    ensures IsIterationOrder(DeclaredOrder)
  {
  }

  /** Two prefixes of one sequence: the shorter is a prefix of the longer. */
  lemma PrefixesAreComparable(a: seq<byte>, b: seq<byte>, s: seq<byte>)
    requires a <= s && b <= s && |a| <= |b|
    ensures a <= b
  {
    assert a == s[..|a|] == b[..|a|];
  }

  /** At most one entry of the table matches any byte sequence. */
  lemma MatchIsUnique(peeked: seq<byte>, k1: string, k2: string)
    requires k1 in CompressionAlgos && k2 in CompressionAlgos
    requires CompressionAlgos[k1].prefix <= peeked && CompressionAlgos[k2].prefix <= peeked
    ensures k1 == k2
  {
    var p1, p2 := CompressionAlgos[k1].prefix, CompressionAlgos[k2].prefix;
    if |p1| <= |p2| {
      PrefixesAreComparable(p1, p2, peeked);
      PrefixFree(k1, k2);
    } else {
      PrefixesAreComparable(p2, p1, peeked);
      PrefixFree(k2, k1);
    }
  }

  /** The loop of DetectCompressionFormat: the first name, in `order`, whose prefix starts `peeked`. */
  function FirstMatch(order: seq<string>, peeked: seq<byte>): (r: Option<string>)
    requires forall k :: k in order ==> k in CompressionAlgos
    ensures r.Some? ==> r.value in order && CompressionAlgos[r.value].prefix <= peeked
    ensures r.None? ==> forall k :: k in order ==> !(CompressionAlgos[k].prefix <= peeked)
  {
    if order == [] then None
    else if CompressionAlgos[order[0]].prefix <= peeked then Some(order[0])
    else FirstMatch(order[1..], peeked)
  }

  /** The format of `peeked`, independently of any iteration order: the entry whose prefix
      starts `peeked`, or None when no entry's does. */
  function Match(peeked: seq<byte>): (r: Option<string>)
    ensures r.Some? ==> r.value in CompressionAlgos && CompressionAlgos[r.value].prefix <= peeked
    ensures r.None? <==> forall k :: k in CompressionAlgos ==> !(CompressionAlgos[k].prefix <= peeked)
  {
    DeclaredOrderIsAnIterationOrder();
    FirstMatch(DeclaredOrder, peeked)
  }

  /** Whatever the order, the loop stops at the one entry that matches. */
  lemma FirstMatchIsTheMatch(order: seq<string>, peeked: seq<byte>, k: string)
    requires forall j :: j in order ==> j in CompressionAlgos
    requires k in order && CompressionAlgos[k].prefix <= peeked
    ensures FirstMatch(order, peeked) == Some(k)
  {
    var r := FirstMatch(order, peeked);
    if r.Some? {
      MatchIsUnique(peeked, r.value, k);
    }
  }

  /** Go's map iteration order cannot change what is detected. */
  lemma IterationOrderIsIrrelevant(order: seq<string>, peeked: seq<byte>)
    requires IsIterationOrder(order)
    ensures FirstMatch(order, peeked) == Match(peeked)
  {
    DeclaredOrderIsAnIterationOrder();
    match Match(peeked)
    case Some(k) => FirstMatchIsTheMatch(order, peeked, k);
    case None =>
  }
}
