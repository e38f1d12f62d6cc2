/** Length-prefixed frames of src/snarkyctl/control/protocol.py. */
module Framing {
  import opened Prelude

  newtype byte = b: int | 0 <= b < 256

  const MAX_MESSAGE_SIZE := 512 * 1024
  const HEADER_SIZE := 4

  datatype ProtocolError = EmptyPayload | TooLarge | ConnectionClosed | TimedOut

  /** struct "!I": four bytes, most significant first. */
  function Pack(n: nat): (header: seq<byte>)
    requires n < 0x1_0000_0000
    ensures |header| == HEADER_SIZE
  {
    [(n / 0x100_0000) as byte, (n / 0x1_0000 % 0x100) as byte, (n / 0x100 % 0x100) as byte, (n % 0x100) as byte]
  }

  function Unpack(header: seq<byte>): nat
    requires |header| == HEADER_SIZE
  {
    ((header[0] as int * 0x100 + header[1] as int) * 0x100 + header[2] as int) * 0x100 + header[3] as int
  }

  lemma UnpackPack(n: nat)
    requires n < 0x1_0000_0000
    ensures Unpack(Pack(n)) == n
  {
    assert n / 0x1_0000 == n / 0x100 / 0x100 && n / 0x100_0000 == n / 0x1_0000 / 0x100;
  }

  lemma PackUnpack(header: seq<byte>)
    requires |header| == HEADER_SIZE
    ensures Unpack(header) < 0x1_0000_0000 && Pack(Unpack(header)) == header
  {
    var high := header[0] as int * 0x100 + header[1] as int;
    var middle := high * 0x100 + header[2] as int;
    var n := middle * 0x100 + header[3] as int;
    assert n / 0x100 == middle && middle / 0x100 == high && high / 0x100 == header[0] as int;
    assert n / 0x1_0000 == high && n / 0x100_0000 == header[0] as int;
  }

  /** encode_message, from the serialised payload on. */
  function Encode(payload: seq<byte>): (result: Result<seq<byte>, ProtocolError>)
    ensures result.Ok? <==> |payload| <= MAX_MESSAGE_SIZE
  {
    if |payload| > MAX_MESSAGE_SIZE then Err(TooLarge) else Ok(Pack(|payload|) + payload)
  }

  /** What a stream means to a reader that is never interrupted, and how much of it is consumed:
      an independent description of frames. */
  function Decode(stream: seq<byte>): (result: (Result<seq<byte>, ProtocolError>, nat))
    ensures result.1 <= |stream|
  {
    if |stream| < HEADER_SIZE then (Err(ConnectionClosed), |stream|)
    else
      var size := Unpack(stream[..HEADER_SIZE]);
      if size == 0 then (Err(EmptyPayload), HEADER_SIZE)
      else if size > MAX_MESSAGE_SIZE then (Err(TooLarge), HEADER_SIZE)
      else if |stream| - HEADER_SIZE < size then (Err(ConnectionClosed), |stream|)
      else (Ok(stream[HEADER_SIZE..HEADER_SIZE + size]), HEADER_SIZE + size)
  }

  /** Frames round-trip and are self-delimiting: a stream decodes to a payload exactly when it
      starts with that payload's encoding and the payload is neither empty nor oversized. */
  lemma DecodeInvertsEncode(stream: seq<byte>, payload: seq<byte>)
    ensures Decode(stream).0 == Ok(payload) <==>
      1 <= |payload| <= MAX_MESSAGE_SIZE && Encode(payload).value <= stream
    ensures Decode(stream).0 == Ok(payload) ==> stream == Encode(payload).value + stream[Decode(stream).1..]
  {
    if 1 <= |payload| <= MAX_MESSAGE_SIZE && Encode(payload).value <= stream {
      var frame := Encode(payload).value;
      UnpackPack(|payload|);
      assert stream[..HEADER_SIZE] == frame[..HEADER_SIZE] == Pack(|payload|);
      assert stream[HEADER_SIZE..HEADER_SIZE + |payload|] == frame[HEADER_SIZE..] == payload;
    }
    if Decode(stream).0 == Ok(payload) {
      PackUnpack(stream[..HEADER_SIZE]);
      assert stream ==
        stream[..HEADER_SIZE] + stream[HEADER_SIZE..HEADER_SIZE + |payload|] + stream[HEADER_SIZE + |payload|..];
    }
  }

  /** The receiving end of a stream socket: bytes still to come before the peer closes. */
  class Connection {
    var incoming: seq<byte>
    const patient: bool      // no receive ever times out

    constructor (incoming: seq<byte>, patient: bool)
      ensures this.incoming == incoming && this.patient == patient
    {
      this.incoming, this.patient := incoming, patient;
    }

    /** recv: any non-empty chunk of at most `limit` bytes, nothing at the end of the stream, or a timeout. */
    method Recv(limit: nat) returns (result: Result<seq<byte>, ProtocolError>)
      requires limit > 0
      modifies this
      ensures result.Ok? ==> old(incoming) == result.value + incoming && |result.value| <= limit
      ensures result.Ok? ==> (result.value == [] <==> old(incoming) == [])
      ensures result.Err? ==> result.error == TimedOut && !patient && incoming == old(incoming)
    {
      var interrupted: bool := *;
      if interrupted && !patient { return Err(TimedOut); }
      if incoming == [] { return Ok([]); }
      var size: nat :| 1 <= size <= limit && size <= |incoming|;
      result := Ok(incoming[..size]);
      incoming := incoming[size..];
    }

    /** _receive_exact: exactly `size` bytes however they are split, or an error. */
    method ReceiveExact(size: nat) returns (result: Result<seq<byte>, ProtocolError>)
      modifies this
      ensures result.Ok? ==> |result.value| == size && old(incoming) == result.value + incoming
      ensures result == Err(ConnectionClosed) ==> |old(incoming)| < size && incoming == []
      ensures result.Err? ==> result.error == ConnectionClosed || (result.error == TimedOut && !patient)
    {
      var data: seq<byte> := [];
      var remaining := size;
      while remaining > 0
        invariant 0 <= remaining && |data| + remaining == size && old(incoming) == data + incoming
      {
        var chunk := Recv(remaining);
        if chunk.Err? { return chunk; }
        if chunk.value == [] { return Err(ConnectionClosed); }
        data := data + chunk.value;
        remaining := remaining - |chunk.value|;
      }
      return Ok(data);
    }

    /** receive_frame: however the stream is chunked, the outcome is the meaning of the stream, and
        what was consumed is exactly the frame; only a timeout can intervene. */
    method ReceiveFrame() returns (result: Result<seq<byte>, ProtocolError>)
      modifies this
      ensures result != Err(TimedOut) ==>
        result == Decode(old(incoming)).0 && incoming == old(incoming)[Decode(old(incoming)).1..]
      ensures patient ==> result != Err(TimedOut)
    {
      ghost var stream := incoming;
      var header := ReceiveExact(HEADER_SIZE);
      if header.Err? { return header; }
      var size := Unpack(header.value);
      ghost var rest := incoming;
      HeaderThenRest(stream, header.value, rest);
      if size == 0 { return Err(EmptyPayload); }
      if size > MAX_MESSAGE_SIZE { return Err(TooLarge); }
      result := ReceiveExact(size);
      if result.Ok? { assert rest[..size] == result.value && rest[size..] == incoming; }
    }
  }

  /** Decoding in two parts: the header decides, then the rest is looked at. */
  lemma HeaderThenRest(stream: seq<byte>, header: seq<byte>, rest: seq<byte>)
    requires |header| == HEADER_SIZE && stream == header + rest
    ensures var size := Unpack(header);
      Decode(stream) ==
      if size == 0 then (Err(EmptyPayload), HEADER_SIZE)
      else if size > MAX_MESSAGE_SIZE then (Err(TooLarge), HEADER_SIZE)
      else if |rest| < size then (Err(ConnectionClosed), |stream|)
      else (Ok(rest[..size]), HEADER_SIZE + size)
    ensures stream[HEADER_SIZE..] == rest
    ensures forall n :: 0 <= n <= |rest| ==> stream[HEADER_SIZE + n..] == rest[n..]
  {
    assert stream[..HEADER_SIZE] == header;
    var size := Unpack(header);
    if size <= |rest| { assert stream[HEADER_SIZE..HEADER_SIZE + size] == rest[..size]; }
  }
}
