/** Messages on a stream socket: reading and writing whole messages over calls that
    may move any positive number of bytes at a time. */
module Framing {
  import opened Bytes
  import opened Messages

  /** One end of a connection. The peer sends `incoming` and then closes; a socket that
      is not reliable may also fail at any call. */
  class Socket {
    var incoming: Buffer
    var outgoing: Buffer
    const reliable: bool

    constructor (incoming: Buffer, reliable: bool)
      ensures this.incoming == incoming && outgoing == [] && this.reliable == reliable
    {
      this.incoming, this.outgoing, this.reliable := incoming, [], reliable;
    }

    /** read(2): any positive number of the bytes that are still to come. */
    method Read(n: nat) returns (r: int, got: Buffer)
      requires n > 0
      modifies this`incoming
      ensures r <= n
      ensures r > 0 ==> got + incoming == old(incoming) && |got| == r
      ensures r <= 0 ==> incoming == old(incoming) && (reliable || r == 0 ==> incoming == [] && r == 0)
    {
      if !reliable {
        if * { return -1, []; }
      }
      if incoming == [] { return 0, []; }
      var k :| 1 <= k <= n && k <= |incoming|;
      r, got, incoming := k, incoming[..k], incoming[k..];
    }

    /** write(2): any positive number of the bytes offered. */
    method Write(data: Buffer) returns (r: int)
      requires data != []
      modifies this`outgoing
      ensures r <= |data|
      ensures r > 0 ==> outgoing == old(outgoing) + data[..r]
      ensures r <= 0 ==> r < 0 && !reliable && outgoing == old(outgoing)
    {
      if !reliable {
        if * { return -1; }
      }
      var k :| 1 <= k <= |data|;
      outgoing := outgoing + data[..k];
      r := k;
    }
  }

  /** New bytes copied in right after those taken so far. */
  lemma Grown(before: Buffer, b: Buffer, at: nat, n: nat, taken: Buffer, got: Buffer)
    requires |before| == |b| && n == |taken| && at + n + |got| <= |b|
    requires before[at..at + n] == taken && b[at + n..at + n + |got|] == got
    requires forall i | 0 <= i < |b| && !(at + n <= i < at + n + |got|) :: b[i] == before[i]
    ensures b[at..at + n + |got|] == taken + got
  {
    assert b[at..at + n] == before[at..at + n];
    assert b[at..at + n + |got|] == b[at..at + n] + b[at + n..at + n + |got|];
  }

  /** The stream after more of it is taken. */
  lemma TakenSoFar(stream: Buffer, taken: Buffer, before: Buffer, got: Buffer, after: Buffer)
    requires taken + before == stream && got + after == before
    ensures (taken + got) + after == stream
  {
    assert taken + (got + after) == (taken + got) + after;
  }

  lemma StillToCome(stream: Buffer, taken: Buffer, rest: Buffer)
    requires taken + rest == stream
    ensures |taken| <= |stream| && rest == stream[|taken|..]
  {}

  /** read_fix: exactly `nbytes` bytes, or 0 at the end of the stream, or an error. */
  method ReadFix(s: Socket, a: array<byte>, at: nat, nbytes: int) returns (r: int)
    requires nbytes > 0 ==> at + nbytes <= a.Length
    modifies s`incoming, a
    ensures nbytes <= 0 ==> r == 0 && s.incoming == old(s.incoming)
    ensures nbytes > 0 ==> r == nbytes || r <= 0
    ensures r > 0 ==> a[at..at + r] + s.incoming == old(s.incoming)
    ensures nbytes > 0 && r == 0 ==> |old(s.incoming)| < nbytes && s.incoming == []
    ensures r < 0 ==> !s.reliable && exists k :: 0 <= k <= |old(s.incoming)| && s.incoming == old(s.incoming)[k..]
    ensures forall i | 0 <= i < a.Length && !(at <= i < at + nbytes) :: a[i] == old(a[i])
  {
    var rbytes := 0;
    ghost var taken: Buffer := [];
    while rbytes < nbytes
      invariant 0 <= rbytes && (nbytes > 0 ==> rbytes <= nbytes) && (nbytes <= 0 ==> rbytes == 0)
      invariant |taken| == rbytes && taken + s.incoming == old(s.incoming)
      invariant nbytes > 0 ==> a[at..at + rbytes] == taken
      invariant forall i | 0 <= i < a.Length && !(at <= i < at + nbytes) :: a[i] == old(a[i])
      decreases nbytes - rbytes
    {
      ghost var rest := s.incoming;
      var rval, got := s.Read(nbytes - rbytes);
      if rval <= 0 {
        StillToCome(old(s.incoming), taken, rest);
        return rval;
      }
      ghost var before := a[..];
      CopyIn(a, at + rbytes, got);
      TakenSoFar(old(s.incoming), taken, rest, got, s.incoming);
      Grown(before, a[..], at, rbytes, taken, got);
      taken := taken + got;
      rbytes := rbytes + rval;
    }
    return rbytes;
  }

  /** write_fix */
  method WriteFix(s: Socket, data: Buffer) returns (r: int)
    modifies s`outgoing
    ensures r >= 0 ==> r == |data| && s.outgoing == old(s.outgoing) + data
    ensures r < 0 ==> !s.reliable && exists k :: 0 <= k < |data| && s.outgoing == old(s.outgoing) + data[..k]
  {
    var wbytes := 0;
    while wbytes < |data|
      invariant 0 <= wbytes <= |data|
      invariant s.outgoing == old(s.outgoing) + data[..wbytes]
    {
      var wval := s.Write(data[wbytes..]);
      if wval < 0 { return wval; }
      assert data[..wbytes] + data[wbytes..][..wval] == data[..wbytes + wval];
      assert old(s.outgoing) + data[..wbytes] + data[wbytes..][..wval]
          == old(s.outgoing) + (data[..wbytes] + data[wbytes..][..wval]);
      wbytes := wbytes + wval;
    }
    assert data[..|data|] == data;
    return wbytes;
  }

  // ------------------------------------------------------------- messages

  /** What the next read_p4_msg makes of the bytes to come. */
  datatype Frame = Message(bytes: Buffer) | Eof | TooLong

  /** The length a message states in its header, in network order. */
  function StatedLength(b: Buffer): nat
    requires |b| >= SIZEOF_HEADER
  {
    Swap16(U16(b, AT_LENGTH))
  }

  /** The frame at the front of a stream, for a reader with `room` bytes, and what is
      left of the stream after it is read. A message no longer than its header is
      taken for the end of the stream. */
  function ReadFrame(stream: Buffer, room: nat): (r: (Frame, Buffer)) {
    if |stream| < SIZEOF_HEADER then (Eof, [])
    else
      var n := StatedLength(stream);
      if n > room then (TooLong, stream[SIZEOF_HEADER..])
      else if n <= SIZEOF_HEADER then (Eof, stream[SIZEOF_HEADER..])
      else if n > |stream| then (Eof, [])
      else (Message(stream[..n]), stream[n..])
  }

  /** read_p4_msg: any chunking of the stream gives the same frames. */
  method ReadP4Msg(s: Socket, a: array<byte>, length: nat) returns (r: int)
    requires length <= a.Length
    modifies s`incoming, a
    ensures length < SIZEOF_HEADER ==> r == -1 && s.incoming == old(s.incoming) && a[..] == old(a[..])
    ensures length >= SIZEOF_HEADER && s.reliable ==>
              var (frame, rest) := ReadFrame(old(s.incoming), length);
              && s.incoming == rest
              && match frame
                 case Message(m) => r == |m| && a[..r] == m && a[r..] == old(a[r..])
                 case Eof => r == 0
                 case TooLong => r == -100
    ensures r > 0 ==> r > SIZEOF_HEADER && r <= length && |old(s.incoming)| >= r
                      && a[..r] == old(s.incoming)[..r] && a[r..] == old(a[r..]) && StatedLength(a[..r]) == r
                      && s.incoming == old(s.incoming)[r..]
    ensures exists k :: 0 <= k <= |old(s.incoming)| && s.incoming == old(s.incoming)[k..]
  {
    ghost var stream := s.incoming;
    if length < SIZEOF_HEADER {
      assert s.incoming == stream[0..];
      return -1;
    }
    r := ReadFix(s, a, 0, SIZEOF_HEADER);
    if r <= 0 {
      if r == 0 { assert s.incoming == stream[|stream|..]; }
      return r;
    }
    ghost var head := a[..SIZEOF_HEADER];
    assert head + s.incoming == stream && s.incoming == stream[SIZEOF_HEADER..];
    var msglen := StatedLength(a[..SIZEOF_HEADER]);
    assert StatedLength(stream) == msglen;
    if msglen > length { return -100; }
    r := ReadFix(s, a, SIZEOF_HEADER, msglen - SIZEOF_HEADER);
    if r <= 0 {
      if r == 0 && msglen > SIZEOF_HEADER { assert s.incoming == stream[|stream|..]; }
      if r < 0 {
        ghost var k :| 0 <= k <= |stream[SIZEOF_HEADER..]| && s.incoming == stream[SIZEOF_HEADER..][k..];
        assert s.incoming == stream[SIZEOF_HEADER + k..];
      }
      return r;
    }
    assert a[..SIZEOF_HEADER] == head;
    assert a[SIZEOF_HEADER..SIZEOF_HEADER + r] + s.incoming == stream[SIZEOF_HEADER..];
    assert a[..msglen] == a[..SIZEOF_HEADER] + a[SIZEOF_HEADER..msglen];
    assert stream == a[..msglen] + s.incoming;
    assert s.incoming == stream[msglen..];
    return msglen;
  }

  /** write_p4_msg: as many bytes as the header says. */
  method WriteP4Msg(s: Socket, a: array<byte>, length: nat) returns (r: int)
    requires length <= a.Length
    modifies s`outgoing
    ensures if length < SIZEOF_HEADER then r == -1 && s.outgoing == old(s.outgoing)
            else
              var n := StatedLength(a[..]);
              if n > length then r == -1 && s.outgoing == old(s.outgoing)
              else s.reliable ==> r == n && s.outgoing == old(s.outgoing) + a[..n]
  {
    if length < SIZEOF_HEADER { return -1; }
    var msglen := StatedLength(a[..]);
    if msglen > length { return -1; }
    r := WriteFix(s, a[..msglen]);
  }

  // ------------------------------------------------------------- round trip

  /** A message whose header states its own length. */
  predicate WellFramed(m: Buffer) {
    |m| >= SIZEOF_HEADER && StatedLength(m) == |m|
  }

  /** A message is read back whole, with nothing of the next one, exactly when it is
      longer than a header and fits the reader's buffer. */
  lemma FrameRoundTrip(m: Buffer, rest: Buffer, room: nat)
    requires WellFramed(m)
    ensures ReadFrame(m + rest, room) == (Message(m), rest) <==> SIZEOF_HEADER < |m| <= room
  {
    assert StatedLength(m + rest) == StatedLength(m);
    assert (m + rest)[..|m|] == m && (m + rest)[|m|..] == rest;
  }

  function Concat(ms: seq<Buffer>): Buffer {
    if ms == [] then [] else ms[0] + Concat(ms[1..])
  }

  lemma {:induction false} ConcatAppend(ms: seq<Buffer>, m: Buffer)
    ensures Concat(ms + [m]) == Concat(ms) + m
  {
    if ms == [] {
      assert ms + [m] == [m] && [m][1..] == [];
    } else {
      assert (ms + [m])[1..] == ms[1..] + [m];
      ConcatAppend(ms[1..], m);
    }
  }

  /** All the messages a reader gets, up to the first frame that is none. */
  function ReadAll(stream: Buffer, room: nat): (ms: seq<Buffer>)
    decreases |stream|
  {
    match ReadFrame(stream, room)
    case (Message(m), rest) => [m] + ReadAll(rest, room)
    case _ => []
  }

  /** Reading undoes writing, for any run of messages. */
  lemma {:induction false} StreamRoundTrip(ms: seq<Buffer>, room: nat)
    requires forall m | m in ms :: WellFramed(m) && SIZEOF_HEADER < |m| <= room
    ensures ReadAll(Concat(ms), room) == ms
  {
    if ms != [] {
      FrameRoundTrip(ms[0], Concat(ms[1..]), room);
      StreamRoundTrip(ms[1..], room);
    }
  }
}
