/** A TCP socket that hands out its stream in arbitrary pieces, and the read that waits for all of them. */
module Socket {
  import opened Wrappers
  import opened Bytes

  /** What the next calls of recv will find: data that has come in, or an error. After the last: end of stream. */
  datatype Arrival = Segment(data: bytes) | Failure

  /** The bytes that can still be read. */
  function Readable(arrivals: seq<Arrival>): bytes {
    if arrivals == [] || arrivals[0].Failure? then []
    else arrivals[0].data + Readable(arrivals[1..])
  }

  /** The stream ends in an error and not in an orderly end. */
  predicate Fails(arrivals: seq<Arrival>) {
    arrivals != [] && (arrivals[0].Failure? || Fails(arrivals[1..]))
  }

  function Segments(parts: seq<bytes>): seq<Arrival> {
    seq(|parts|, i requires 0 <= i < |parts| => Segment(parts[i]))
  }

  lemma {:induction false} ReadableSegments(parts: seq<bytes>)
    ensures Readable(Segments(parts)) == Flatten(parts)
    ensures !Fails(Segments(parts))
  {
    if parts != [] {
      assert Segments(parts)[1..] == Segments(parts[1..]);
      ReadableSegments(parts[1..]);
    }
  }

  class TcpSocket {
    var arrivals: seq<Arrival>

    constructor (arrivals: seq<Arrival>)
      ensures this.arrivals == arrivals
    {
      this.arrivals := arrivals;
    }

    /** recv never returns empty data before the end of the stream. */
    predicate Valid()
      reads this
    {
      forall i :: 0 <= i < |arrivals| && arrivals[i].Segment? ==> arrivals[i].data != []
    }

    function Stream(): bytes
      reads this
    {
      Readable(arrivals)
    }

    predicate Broken()
      reads this
    {
      Fails(arrivals)
    }

    /** `after` is `before` with `data` stored from `offset` on. */
    static ghost predicate Written(before: bytes, offset: nat, data: bytes, after: bytes) {
      && offset + |data| <= |before|
      && after == before[..offset] + data + before[offset + |data|..]
    }

    static lemma NothingWritten(before: bytes, offset: nat)
      requires offset <= |before|
      ensures Written(before, offset, [], before)
    {
    }

    /** recv: at most `max` bytes of the next segment; 0 at the end of the stream, -1 on an error. */
    method Recv(buffer: array<byte>, offset: nat, max: nat) returns (n: int)
      requires Valid() && offset + max <= buffer.Length
      modifies this, buffer
      ensures Valid() && Broken() == old(Broken())
      ensures n == -1 ==> max > 0 && old(Broken()) && old(Stream()) == []
      ensures n != -1 ==> 0 <= n <= max && n <= old(|Stream()|)
      ensures n == 0 && max > 0 ==> old(Stream()) == [] && !old(Broken())
      ensures var k := if n < 0 then 0 else n;
              && Stream() == old(Stream())[k..]
              && Written(old(buffer[..]), offset, old(Stream())[..k], buffer[..])
    {
      hide Written;
      if max == 0 || arrivals == [] {
        NothingWritten(buffer[..], offset);
        return 0;
      }
      if arrivals[0].Failure? {
        NothingWritten(buffer[..], offset);
        return -1;
      }
      var head := arrivals[0].data;
      n := if |head| <= max then |head| else max;
      TakeSome(arrivals, n);
      arrivals := Without(arrivals, n);
      Store(buffer, offset, head[..n]);
    }

    /** Puts what has come in into the buffer. */
    static method Store(buffer: array<byte>, offset: nat, data: bytes)
      requires offset + |data| <= buffer.Length
      modifies buffer
      ensures Written(old(buffer[..]), offset, data, buffer[..])
    {
      forall i | 0 <= i < |data| {
        buffer[offset + i] := data[i];
      }
    }

    /** What is to come after `n` bytes of the first segment. */
    static function Without(arrivals: seq<Arrival>, n: nat): seq<Arrival>
      requires arrivals != [] && arrivals[0].Segment? && n <= |arrivals[0].data|
    {
      if n == |arrivals[0].data| then arrivals[1..] else [Segment(arrivals[0].data[n..])] + arrivals[1..]
    }

    static lemma TakeSome(arrivals: seq<Arrival>, n: nat)
      requires arrivals != [] && arrivals[0].Segment? && n <= |arrivals[0].data|
      requires forall i :: 0 <= i < |arrivals| && arrivals[i].Segment? ==> arrivals[i].data != []
      ensures forall i :: 0 <= i < |Without(arrivals, n)| && Without(arrivals, n)[i].Segment? ==>
          Without(arrivals, n)[i].data != []
      ensures Fails(Without(arrivals, n)) == Fails(arrivals)
      ensures n <= |Readable(arrivals)| && Readable(arrivals)[..n] == arrivals[0].data[..n]
      ensures Readable(Without(arrivals, n)) == Readable(arrivals)[n..]
    {
      hide Readable, Fails;
      var head, kept, after := arrivals[0].data, arrivals[1..], Without(arrivals, n);
      FirstSegment(arrivals);
      if n < |head| {
        assert after[0] == Segment(head[n..]) && after[1..] == kept;
        FirstSegment(after);
        SliceFront(head, Readable(kept), n);
      } else {
        assert head[..n] == head;
      }
    }

    static lemma FirstSegment(arrivals: seq<Arrival>)
      requires arrivals != [] && arrivals[0].Segment?
      ensures Readable(arrivals) == arrivals[0].data + Readable(arrivals[1..])
      ensures Fails(arrivals) == Fails(arrivals[1..])
    {
    }

    static lemma SliceFront(head: bytes, rest: bytes, n: nat)
      requires n <= |head|
      ensures (head + rest)[..n] == head[..n] && (head + rest)[n..] == head[n..] + rest
    {
    }

    /** The first `got` bytes of the stream are in the buffer, and the others are still to be read. */
    static ghost predicate Reading(stream: bytes, before: bytes, got: nat, left: bytes, buffer: bytes) {
      && got <= |stream| && got <= |before|
      && left == stream[got..]
      && buffer == stream[..got] + before[got..]
    }

    static lemma NothingRead(stream: bytes, before: bytes)
      ensures Reading(stream, before, 0, stream, before)
    {
    }

    static lemma OneMoreRead(stream: bytes, before: bytes, got: nat, k: nat, left: bytes, buffer: bytes, buffer': bytes)
      requires Reading(stream, before, got, left, buffer) && k <= |left|
      requires Written(buffer, got, left[..k], buffer')
      ensures Reading(stream, before, got + k, left[k..], buffer')
    {
    }

    /** One more recv into a buffer that is filled up to `at`. */
    method RecvMore(buffer: array<byte>, at: nat, max: nat, ghost stream: bytes, ghost before: bytes) returns (n: int)
      requires Valid() && at + max <= buffer.Length
      requires Reading(stream, before, at, Stream(), buffer[..])
      modifies this, buffer
      ensures Valid() && Broken() == old(Broken())
      ensures n == -1 ==> max > 0 && Broken() && at == |stream|
      ensures n == 0 && max > 0 ==> !Broken() && at == |stream|
      ensures -1 <= n <= max
      ensures Reading(stream, before, if n < 0 then at else at + n, Stream(), buffer[..])
    {
      hide Readable, Fails, Written;
      ghost var was, left := buffer[..], Stream();
      n := Recv(buffer, at, max);
      OneMoreRead(stream, before, at, if n < 0 then 0 else n, left, was, buffer[..]);
    }

    /** Reads until the buffer is full, the stream ends, or recv reports an error. */
    method RecvFully(buffer: array<byte>, bufferLen: nat) returns (r: Result<nat>)
      requires Valid() && bufferLen <= buffer.Length
      modifies this, buffer
      ensures Valid() && Broken() == old(Broken())
      ensures var k := if old(|Stream()|) >= bufferLen then bufferLen else old(|Stream()|);
              && Stream() == old(Stream())[k..]
              && buffer[..] == old(Stream())[..k] + old(buffer[..])[k..]
              && r == (if k < bufferLen && old(Broken()) then Err(ReceiveFailed) else Ok(k))
    {
      hide Readable, Fails, Reading;
      ghost var stream, before := Stream(), buffer[..];
      NothingRead(stream, before);
      var rcount := 0;
      var len := RecvMore(buffer, 0, bufferLen, stream, before);
      while len > 0 && rcount + len < bufferLen
        invariant Valid() && Broken() == old(Broken())
        invariant 0 <= rcount && -1 <= len && rcount + len <= bufferLen
        invariant len == -1 ==> Broken() && rcount == |stream| < bufferLen
        invariant len == 0 && rcount < bufferLen ==> !Broken() && rcount == |stream|
        invariant Reading(stream, before, if len < 0 then rcount else rcount + len, Stream(), buffer[..])
        decreases bufferLen - rcount, len
      {
        rcount := rcount + len;
        len := RecvMore(buffer, rcount, bufferLen - rcount, stream, before);
      }
      ReadingMeans(stream, before, if len < 0 then rcount else rcount + len, Stream(), buffer[..]);
      if len < 0 {
        return Err(ReceiveFailed);
      }
      return Ok(rcount + len);
    }

    static lemma ReadingMeans(stream: bytes, before: bytes, got: nat, left: bytes, buffer: bytes)
      requires Reading(stream, before, got, left, buffer)
      ensures got <= |stream| && left == stream[got..] && buffer == stream[..got] + before[got..]
    {
    }
  }
}
