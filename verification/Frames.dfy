/** Length-prefixed frames: what a writer puts on a stream and a reader takes off it. */
module Frames {
  import opened FabricTypes

  const U32_MAX: nat := 0xFFFF_FFFF
  const MAX_FRAME_BYTES: nat := 16 * 1024 * 1024

  datatype TransportError = Io | FrameTooLarge(len: nat) | ConnectionClosed | Json

  /** How values are written as bytes and read back. */
  datatype Codec<!T> = Codec(encode: T -> seq<byte>, decode: seq<byte> -> Option<T>)

  ghost predicate Lawful<T(!new)>(c: Codec<T>) {
    forall v :: c.decode(c.encode(v)) == Some(v)
  }

  // ------------------------------------------------------------ the functions

  function LittleEndian(n: nat): (b: seq<byte>)
    requires n <= U32_MAX
    ensures |b| == 4
  {
    [n % 256, n / 256 % 256, n / 65536 % 256, n / 16777216]
  }

  function FromLittleEndian(b: seq<byte>): nat
    requires |b| == 4
  {
    b[0] as int + 256 * b[1] as int + 65536 * b[2] as int + 16777216 * b[3] as int
  }

  predicate Sendable<T>(c: Codec<T>, v: T) {
    |c.encode(v)| <= U32_MAX
  }

  /** The bytes a value puts on the stream. */
  function Frame<T>(c: Codec<T>, v: T): seq<byte>
    requires Sendable(c, v)
  {
    LittleEndian(|c.encode(v)|) + c.encode(v)
  }

  datatype Read<T> = Read(answer: Result<T, TransportError>, rest: seq<byte>)

  /** What reading one frame gives, on a stream that ends after `stream`. */
  function ReadOne<T>(c: Codec<T>, stream: seq<byte>): (r: Read<T>)
    ensures r.answer.Ok? ==> |r.rest| < |stream|
  {
    if |stream| < 4 then Read(Err(ConnectionClosed), [])
    else
      var len := FromLittleEndian(stream[..4]);
      if len > MAX_FRAME_BYTES then Read(Err(FrameTooLarge(len)), stream[4..])
      else if |stream| < 4 + len then Read(Err(Io), [])
      else
        var rest := stream[4 + len..];
        match c.decode(stream[4..4 + len])
        case Some(v) => Read(Ok(v), rest)
        case None => Read(Err(Json), rest)
  }

  // -------------------------------------------------------------- the methods

  /** One direction of a connection: the bytes written and not yet read. When they
      are used up the other side has finished. */
  class Pipe {
    var bytes: seq<byte>

    constructor (bytes: seq<byte>)
      ensures this.bytes == bytes
    {
      this.bytes := bytes;
    }

    method WriteAll(more: seq<byte>)
      modifies this
      ensures bytes == old(bytes) + more
    {
      bytes := bytes + more;
    }

    /** Fills a buffer of `n` bytes, or runs into the end of the stream. */
    method ReadExact(n: nat) returns (buffer: Option<seq<byte>>)
      modifies this
      ensures if n <= old(|bytes|) then buffer == Some(old(bytes)[..n]) && bytes == old(bytes)[n..]
              else buffer == None && bytes == []
    {
      if n <= |bytes| {
        buffer := Some(bytes[..n]);
        bytes := bytes[n..];
      } else {
        buffer := None;
        bytes := [];
      }
    }
  }

  method WriteFrame<T>(writer: Pipe, c: Codec<T>, v: T) returns (answer: Result<(), TransportError>)
    modifies writer
    ensures if Sendable(c, v) then answer == Ok(()) && writer.bytes == old(writer.bytes) + Frame(c, v)
            else answer == Err(FrameTooLarge(U32_MAX)) && writer.bytes == old(writer.bytes)
  {
    var bytes := c.encode(v);
    if |bytes| > U32_MAX {
      return Err(FrameTooLarge(U32_MAX));
    }
    writer.WriteAll(LittleEndian(|bytes|));
    writer.WriteAll(bytes);
    answer := Ok(());
    assert writer.bytes == old(writer.bytes) + Frame(c, v);
  }

  method ReadFrame<T>(reader: Pipe, c: Codec<T>) returns (answer: Result<T, TransportError>)
    modifies reader
    ensures Read(answer, reader.bytes) == ReadOne(c, old(reader.bytes))
  {
    ghost var stream := reader.bytes;
    var header := reader.ReadExact(4);
    if header.None? {
      return Err(ConnectionClosed);
    }
    var len := FromLittleEndian(header.value);
    if len > MAX_FRAME_BYTES {
      return Err(FrameTooLarge(len));
    }
    var body := reader.ReadExact(len);
    if body.None? {
      return Err(Io);
    }
    assert body.value == stream[4..4 + len] && reader.bytes == stream[4 + len..];
    answer := match c.decode(body.value) case Some(v) => Ok(v) case None => Err(Json);
  }

  // -------------------------------------------------------------- round trips

  lemma LittleEndianRoundTrip(n: nat)
    requires n <= U32_MAX
    ensures FromLittleEndian(LittleEndian(n)) == n
  {
    assert n == n % 256 + 256 * (n / 256);
    assert n / 256 == n / 256 % 256 + 256 * (n / 65536);
    assert n / 65536 == n / 65536 % 256 + 256 * (n / 16777216);
  }

  /** A frame is the length of its body, least significant byte first, and the body; it
      can be sent when the length fits 32 bits. */
  lemma FrameLayout<T>(c: Codec<T>, v: T)
    ensures Sendable(c, v) <==> |c.encode(v)| <= 0xFFFF_FFFF
    ensures Sendable(c, v) ==>
              var f := Frame(c, v);
              && |f| == 4 + |c.encode(v)| && f[4..] == c.encode(v)
              && |c.encode(v)| == f[0] as int + 0x100 * f[1] as int + 0x1_0000 * f[2] as int + 0x100_0000 * f[3] as int
  {
    if Sendable(c, v) {
      LittleEndianRoundTrip(|c.encode(v)|);
    }
  }

  /** A frame comes back as it was sent exactly when its value encodes to no more than
      the reader accepts, although the writer sends anything a length can express. */
  lemma FrameRoundTrip<T(!new)>(c: Codec<T>, v: T, rest: seq<byte>)
    requires Lawful(c) && Sendable(c, v)
    ensures ReadOne(c, Frame(c, v) + rest)
         == if |c.encode(v)| <= 16_777_216 then Read(Ok(v), rest)
            else Read(Err(FrameTooLarge(|c.encode(v)|)), c.encode(v) + rest)
  {
    var body := c.encode(v);
    var stream := Frame(c, v) + rest;
    LittleEndianRoundTrip(|body|);
    assert stream[..4] == LittleEndian(|body|) && stream[4..] == body + rest;
    assert stream[4..4 + |body|] == body && stream[4 + |body|..] == rest;
  }

  /** A frame whose body is no value, or whose header asks for more than the reader takes,
      is refused as such; the body of the first is read past, that of the second is not. */
  lemma BadFrameIsRefused<T>(c: Codec<T>, body: seq<byte>, rest: seq<byte>)
    requires |body| <= 0xFFFF_FFFF && (|body| <= 16_777_216 ==> c.decode(body) == None)
    ensures ReadOne(c, LittleEndian(|body|) + body + rest)
         == if |body| <= 16_777_216 then Read(Err(Json), rest) else Read(Err(FrameTooLarge(|body|)), body + rest)
  {
    var stream := LittleEndian(|body|) + body + rest;
    LittleEndianRoundTrip(|body|);
    assert stream[..4] == LittleEndian(|body|) && stream[4..] == body + rest;
    assert stream[4..4 + |body|] == body && stream[4 + |body|..] == rest;
  }

  predicate AllReadable<T>(c: Codec<T>, values: seq<T>) {
    forall i :: 0 <= i < |values| ==> |c.encode(values[i])| <= MAX_FRAME_BYTES
  }

  /** The frames of a sequence of values, one after the other. */
  function Stream<T>(c: Codec<T>, values: seq<T>): seq<byte>
    requires AllReadable(c, values)
  {
    if values == [] then [] else Frame(c, values[0]) + Stream(c, values[1..])
  }

  /** Reads frames until one cannot be read. */
  function ReadAll<T>(c: Codec<T>, stream: seq<byte>): (seq<T>, TransportError)
    decreases |stream|
  {
    var r := ReadOne(c, stream);
    if r.answer.Err? then ([], r.answer.error)
    else
      var (values, end) := ReadAll(c, r.rest);
      ([r.answer.value] + values, end)
  }

  /** How many leading frames lie wholly within the first `k` bytes. */
  function WholeFrames<T>(c: Codec<T>, values: seq<T>, k: int): (n: nat)
    requires AllReadable(c, values)
    ensures n <= |values|
  {
    if values == [] || k < |Frame(c, values[0])| then 0
    else 1 + WholeFrames(c, values[1..], k - |Frame(c, values[0])|)
  }

  /** How many of the first `k` bytes belong to the frame that was cut. */
  function Remainder<T>(c: Codec<T>, values: seq<T>, k: int): int
    requires AllReadable(c, values)
  {
    if values == [] || k < |Frame(c, values[0])| then k
    else Remainder(c, values[1..], k - |Frame(c, values[0])|)
  }

  lemma CutFrame<T(!new)>(c: Codec<T>, v: T, rest: seq<byte>, k: nat)
    requires |c.encode(v)| <= MAX_FRAME_BYTES && k < |Frame(c, v)|
    ensures ReadOne(c, (Frame(c, v) + rest)[..k]).answer == Err(if k < 4 then ConnectionClosed else Io)
  {
    var body := c.encode(v);
    LittleEndianRoundTrip(|body|);
    if k >= 4 {
      assert (Frame(c, v) + rest)[..k][..4] == LittleEndian(|body|);
    }
  }

  lemma CutBehindFrame<T(!new)>(c: Codec<T>, v: T, others: seq<byte>, k: nat, tail: seq<T>, end: TransportError)
    requires Lawful(c) && |c.encode(v)| <= MAX_FRAME_BYTES
    requires |Frame(c, v)| <= k <= |Frame(c, v) + others|
    requires ReadAll(c, others[..k - |Frame(c, v)|]) == (tail, end)
    ensures ReadAll(c, (Frame(c, v) + others)[..k]) == ([v] + tail, end)
  {
    var cut := others[..k - |Frame(c, v)|];
    assert (Frame(c, v) + others)[..k] == Frame(c, v) + cut;
    FrameRoundTrip(c, v, cut);
  }

  function CutEnd(remainder: int): TransportError {
    if remainder < 4 then ConnectionClosed else Io
  }

  ghost predicate CutOk<T>(c: Codec<T>, values: seq<T>, k: nat)
    requires AllReadable(c, values) && k <= |Stream(c, values)|
  {
    ReadAll(c, Stream(c, values)[..k]) == (values[..WholeFrames(c, values, k)], CutEnd(Remainder(c, values, k)))
  }

  lemma CutFirst<T(!new)>(c: Codec<T>, values: seq<T>, k: nat)
    requires AllReadable(c, values) && values != [] && k < |Frame(c, values[0])|
    ensures k <= |Stream(c, values)| && CutOk(c, values, k)
  {
    CutFrame(c, values[0], Stream(c, values[1..]), k);
  }

  lemma FirstFrameCounts<T>(c: Codec<T>, values: seq<T>, k: nat, j: nat)
    requires AllReadable(c, values) && values != [] && k == |Frame(c, values[0])| + j
    ensures WholeFrames(c, values, k) == 1 + WholeFrames(c, values[1..], j)
    ensures Remainder(c, values, k) == Remainder(c, values[1..], j)
  {
  }

  lemma TakeOneMore<T>(values: seq<T>, n: nat)
    requires n < |values|
    ensures [values[0]] + values[1..][..n] == values[..1 + n]
  {
  }

  lemma CutLater<T(!new)>(c: Codec<T>, values: seq<T>, k: nat, j: nat)
    requires Lawful(c) && AllReadable(c, values) && values != [] && k <= |Stream(c, values)|
    requires k == |Frame(c, values[0])| + j && CutOk(c, values[1..], j)
    ensures CutOk(c, values, k)
  {
    var n, end := WholeFrames(c, values[1..], j), CutEnd(Remainder(c, values[1..], j));
    FirstFrameCounts(c, values, k, j);
    CutBehindFrame(c, values[0], Stream(c, values[1..]), k, values[1..][..n], end);
    TakeOneMore(values, n);
  }

  /** A stream cut anywhere gives back exactly the values whose frames are whole; a
      cut in the header of a frame looks like a clean end, one in its body does not. */
  lemma {:induction false} CutKeepsWholeFrames<T(!new)>(c: Codec<T>, values: seq<T>, k: nat)
    requires Lawful(c) && AllReadable(c, values) && k <= |Stream(c, values)|
    ensures CutOk(c, values, k)
    decreases |values|
  {
    if values != [] {
      var first := |Frame(c, values[0])|;
      if k < first {
        CutFirst(c, values, k);
      } else {
        CutKeepsWholeFrames(c, values[1..], k - first);
        CutLater(c, values, k, k - first);
      }
    }
  }

  lemma {:induction false} AllWhole<T>(c: Codec<T>, values: seq<T>)
    requires AllReadable(c, values)
    ensures WholeFrames(c, values, |Stream(c, values)|) == |values|
    ensures Remainder(c, values, |Stream(c, values)|) == 0
  {
    if values != [] {
      AllWhole(c, values[1..]);
    }
  }

  /** Concatenated frames give back the sequence of values that was written. */
  lemma StreamRoundTrip<T(!new)>(c: Codec<T>, values: seq<T>)
    requires Lawful(c) && AllReadable(c, values)
    ensures ReadAll(c, Stream(c, values)) == (values, ConnectionClosed)
  {
    var stream := Stream(c, values);
    CutKeepsWholeFrames(c, values, |stream|);
    AllWhole(c, values);
    assert stream[..|stream|] == stream && values[..|values|] == values;
  }

  lemma ReadAllOn<T(!new)>(c: Codec<T>, v: T, others: seq<byte>, tail: seq<T>, end: TransportError)
    requires Lawful(c) && |c.encode(v)| <= MAX_FRAME_BYTES && ReadAll(c, others) == (tail, end)
    ensures ReadAll(c, Frame(c, v) + others) == ([v] + tail, end)
  {
    FrameRoundTrip(c, v, others);
  }

  /** Values before anything unreadable are read, and then reading fails as it does on
      that. */
  lemma {:induction false} ReadUpToBad<T(!new)>(c: Codec<T>, values: seq<T>, bad: seq<byte>)
    requires Lawful(c) && AllReadable(c, values) && ReadOne(c, bad).answer.Err?
    ensures ReadAll(c, Stream(c, values) + bad) == (values, ReadOne(c, bad).answer.error)
    decreases |values|
  {
    if values == [] {
      assert Stream(c, values) + bad == bad;
    } else {
      var others := Stream(c, values[1..]);
      ReadUpToBad(c, values[1..], bad);
      ReadAllOn(c, values[0], others + bad, values[1..], ReadOne(c, bad).answer.error);
      assert (Frame(c, values[0]) + others) + bad == Frame(c, values[0]) + (others + bad);
      assert [values[0]] + values[1..] == values;
    }
  }
}
