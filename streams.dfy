/** Byte streams as the detector sees them. An io.Reader is modelled by the bytes it will
    still deliver and by the error that ends them; partial reads are allowed by `Read`'s
    contract, so `ReadAtLeast` is proved for every way a reader may split its data. */
module Streams {
  import opened Wrappers

  newtype byte = b: int | 0 <= b < 256

  /** The error values a read can return. */
  datatype IoError =
    | EOF               // io.EOF: the stream ended cleanly
    | ErrUnexpectedEOF  // io.ErrUnexpectedEOF
    | ErrShortBuffer    // io.ErrShortBuffer
    | Other(id: nat)    // any other error a reader may report

  /** The two errors io.ReadAtLeast uses to say that the stream ended early. */
  predicate IsEndOfStream(e: IoError) {
    e == EOF || e == ErrUnexpectedEOF
  }

  /** What a reader delivers from some point on: `data`, then `end` on every later read. */
  datatype Stream = Stream(data: seq<byte>, end: IoError) {

    /** The stream left after its first `k` bytes have been read. */
    function Drop(k: nat): (rest: Stream)
      requires k <= |data|
      ensures data[..k] + rest.data == data && rest.end == end
    {
      Stream(data[k..], end)
    }
  }

  /** An io.Reader over `source`, of which the first `pos` bytes have been consumed. */
  class Reader {
    const source: Stream
    var pos: nat

    ghost predicate Valid()
      reads this
    {
      pos <= |source.data|
    }

    /** What reads from now on will see. */
    function Unread(): (s: Stream)
      reads this
      requires Valid()
      ensures source.data[..pos] + s.data == source.data && s.end == source.end
    {
      source.Drop(pos)
    }

    constructor (s: Stream)
      ensures Valid() && source == s && Unread() == s
    {
      source := s;
      pos := 0;
    }

    /** io.Reader.Read into buf[off..]: some bytes, at least one when any is left and
        there is room; once the data is exhausted, no bytes and the stream's ending error. */
    method Read(buf: array<byte>, off: nat) returns (nn: nat, err: Option<IoError>)
      requires Valid() && off <= buf.Length
      modifies this, buf
      ensures Valid()
      ensures off + nn <= buf.Length && nn <= |old(Unread().data)|
      ensures buf[..off] == old(buf[..off])
      ensures buf[off..off + nn] == old(Unread().data)[..nn]
      ensures Unread() == old(Unread()).Drop(nn)
      ensures off == buf.Length ==> nn == 0 && err == None
      ensures off < buf.Length && old(Unread().data) != [] ==> 0 < nn && err == None
      ensures off < buf.Length && old(Unread().data) == [] ==> nn == 0 && err == Some(source.end)
    {
      var available := |source.data| - pos;
      if off == buf.Length {
        return 0, None;
      }
      if available == 0 {
        return 0, Some(source.end);
      }
      nn := if buf.Length - off < available then buf.Length - off else available;
      forall i | off <= i < off + nn {
        buf[i] := source.data[pos + i - off];
      }
      pos := pos + nn;
      err := None;
    }
  }

  /** The error io.ReadAtLeast reports when the stream ends, with error `end`, after only
      `n` bytes: a clean end after some bytes is an unexpected one. */
  function ShortReadError(end: IoError, n: nat): (e: IoError)
    ensures IsEndOfStream(e) <==> IsEndOfStream(end)
    ensures e != end ==> end == EOF && 0 < n
    ensures end == EOF && 0 < n ==> e == ErrUnexpectedEOF
  {
    if end == EOF && 0 < n then ErrUnexpectedEOF else end
  }

  /** io.ReadAtLeast: reads into buf until at least `min` bytes are in it or a read fails. */
  method ReadAtLeast(r: Reader, buf: array<byte>, min: nat) returns (n: nat, err: Option<IoError>)
    requires r.Valid()
    modifies r, buf
    ensures r.Valid()
    ensures buf.Length < min ==> n == 0 && err == Some(ErrShortBuffer) && r.pos == old(r.pos)
    ensures min <= buf.Length ==>
      && n <= buf.Length
      && n <= |old(r.Unread().data)|
      && buf[..n] == old(r.Unread().data)[..n]
      && r.Unread() == old(r.Unread()).Drop(n)
      && (err == None <==> min <= n)
      && (err.Some? ==> n == |old(r.Unread().data)| && err.value == ShortReadError(old(r.Unread().end), n))
  {
    if buf.Length < min {
      return 0, Some(ErrShortBuffer);
    }
    ghost var s := r.Unread();
    n, err := 0, None;
    while n < min && err == None
      invariant r.Valid()
      invariant n <= buf.Length && n <= |s.data|
      invariant buf[..n] == s.data[..n]
      invariant r.Unread() == s.Drop(n)
      invariant err.Some? ==> n == |s.data| && err.value == s.end
      decreases min - n, if err == None then 1 else 0
    {
      var nn;
      ghost var filled := buf[..n];
      nn, err := r.Read(buf, n);
      assert buf[n..n + nn] == s.data[n..n + nn] by {
        assert s.Drop(n).data[..nn] == s.data[n..n + nn];
      }
      assert buf[..n + nn] == filled + buf[n..n + nn];
      assert s.data[..n + nn] == s.data[..n] + s.data[n..n + nn];
      assert s.Drop(n).Drop(nn) == s.Drop(n + nn);
      n := n + nn;
    }
    if min <= n {
      err := None;
    } else if 0 < n && err == Some(EOF) {
      err := Some(ErrUnexpectedEOF);
    }
  }

  /** io.MultiReader(bytes.NewReader(head), tail): yields `head`, then what `tail` still yields. */
  datatype MultiReader = MultiReader(head: seq<byte>, tail: Reader) {

    function Contents(): (s: Stream)
      reads tail
      requires tail.Valid()
      ensures head <= s.data && s.end == tail.source.end
    {
      Stream(head + tail.Unread().data, tail.source.end)
    }
  }
}
