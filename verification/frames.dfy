/** The two packed wire frames (`#pragma pack(1)`, no padding) that client and
    server exchange by copying the structs' raw bytes. Both ends run on a
    little-endian host, so the sequence number travels least significant byte
    first; a `bool` occupies one byte holding 0 or 1. */
module Frames {
  import opened Bytes

  /** `sizeof(uint32_t)` and `sizeof(bool)`. */
  const NumSize := 4
  const BoolSize := 1

  /** `sizeof(TcpPacketRequest)`: four kibibytes. */
  const RequestSize := 4 * 1024

  /** Length of the request's `data` array: what is left after the header. */
  const DataSize := RequestSize - NumSize - BoolSize

  /** `sizeof(TcpPacketResponse)`. */
  const ResponseSize := NumSize + BoolSize

  /** `TcpPacketRequest`: a sequence number, the terminal flag and a payload
      that always has exactly `DataSize` bytes (see `WellSized`). */
  datatype Request = Request(num: u32, isLast: bool, data: seq<byte>)
  {
    /** The `data` field is a fixed-length array. */
    predicate WellSized()
    {
      |data| == DataSize
    }
  }

  /** `TcpPacketResponse`: the acknowledged sequence number and the `done` flag. */
  datatype Response = Response(num: u32, done: bool)

  /** Why a byte string is not a frame: it has the wrong length (a short
      read), or a flag byte holds something other than 0 or 1 (which is not a
      `bool` object representation). */
  datatype DecodeError = WrongLength | NotABool

  datatype Result<T> = Ok(value: T) | Err(error: DecodeError)

  function EncodeBool(b: bool): byte
  {
    if b then 1 else 0
  }

  function DecodeBool(x: byte): (r: Result<bool>)
    ensures r.Ok? <==> x == 0 || x == 1
    ensures r.Ok? ==> EncodeBool(r.value) == x
  {
    if x == 0 then Ok(false) else if x == 1 then Ok(true) else Err(NotABool)
  }

  /** The raw bytes of a request struct. */
  function EncodeRequest(r: Request): (b: seq<byte>)
    requires r.WellSized()
    ensures |b| == RequestSize
    ensures DecodeU32(b[0..4]) == r.num
    ensures b[4] == 1 <==> r.isLast
    ensures b[4] == 0 <==> !r.isLast
    ensures b[5..] == r.data
  {
    U32RoundTrip(r.num);
    EncodeU32(r.num) + [EncodeBool(r.isLast)] + r.data
  }

  /** Reading a request struct back from `RequestSize` raw bytes. */
  function DecodeRequest(b: seq<byte>): (r: Result<Request>)
    ensures r.Ok? <==> |b| == RequestSize && (b[4] == 0 || b[4] == 1)
    ensures r.Err? && |b| != RequestSize ==> r.error == WrongLength
    ensures r.Ok? ==> r.value.WellSized()
  {
    if |b| != RequestSize then Err(WrongLength)
    else match DecodeBool(b[4])
      case Err(e) => Err(e)
      case Ok(last) => Ok(Request(DecodeU32(b[0..4]), last, b[5..]))
  }

  /** The raw bytes of a response struct. */
  function EncodeResponse(r: Response): (b: seq<byte>)
    ensures |b| == ResponseSize
    ensures DecodeU32(b[0..4]) == r.num
    ensures b[4] == 1 <==> r.done
    ensures b[4] == 0 <==> !r.done
  {
    U32RoundTrip(r.num);
    EncodeU32(r.num) + [EncodeBool(r.done)]
  }

  /** Reading a response struct back from `ResponseSize` raw bytes. */
  function DecodeResponse(b: seq<byte>): (r: Result<Response>)
    ensures r.Ok? <==> |b| == ResponseSize && (b[4] == 0 || b[4] == 1)
    ensures r.Err? && |b| != ResponseSize ==> r.error == WrongLength
  {
    if |b| != ResponseSize then Err(WrongLength)
    else match DecodeBool(b[4])
      case Err(e) => Err(e)
      case Ok(done) => Ok(Response(DecodeU32(b[0..4]), done))
  }

  /** The size constants are the `sizeof` values of the packed structs: the
      payload array is 4096 - 4 - 1 = 4091 bytes, and a response is 5. */
  lemma RequestLayout()
    ensures NumSize + BoolSize + DataSize == RequestSize
    ensures DataSize == 4091
    ensures ResponseSize == 5
  {
  }

  lemma {:induction false} RequestRoundTrip(r: Request)
    requires r.WellSized()
    ensures DecodeRequest(EncodeRequest(r)) == Ok(r)
  {
    var b := EncodeRequest(r);
    assert b[0..4] == EncodeU32(r.num);
    U32RoundTrip(r.num);
  }

  /** Any `RequestSize` bytes whose flag byte is 0 or 1 are a request, and
      copying that request out again reproduces the bytes exactly. */
  lemma {:induction false} RequestBytesRoundTrip(b: seq<byte>)
    requires |b| == RequestSize && (b[4] == 0 || b[4] == 1)
    ensures DecodeRequest(b).Ok?
    ensures EncodeRequest(DecodeRequest(b).value) == b
  {
    U32BytesRoundTrip(b[0..4]);
    assert b == b[0..4] + [b[4]] + b[5..];
  }

  lemma {:induction false} ResponseRoundTrip(r: Response)
    ensures DecodeResponse(EncodeResponse(r)) == Ok(r)
  {
    var b := EncodeResponse(r);
    assert b[0..4] == EncodeU32(r.num);
    U32RoundTrip(r.num);
  }

  /** Any five bytes whose flag byte is 0 or 1 are a response, and copying it
      out again reproduces the bytes exactly. */
  lemma {:induction false} ResponseBytesRoundTrip(b: seq<byte>)
    requires |b| == ResponseSize && (b[4] == 0 || b[4] == 1)
    ensures DecodeResponse(b).Ok?
    ensures EncodeResponse(DecodeResponse(b).value) == b
  {
    U32BytesRoundTrip(b[0..4]);
    assert b == b[0..4] + [b[4]];
  }

  /** The whole payload array goes on the wire, however little of it the
      receiver's C-string reading uses: payload byte `i` is frame byte
      `5 + i`, for every `i` below `DataSize`. */
  lemma {:induction false} PayloadSentInFull(r: Request, i: nat)
    requires r.WellSized() && i < DataSize
    ensures EncodeRequest(r)[NumSize + BoolSize + i] == r.data[i]
  {
    assert EncodeRequest(r)[5..][i] == r.data[i];
  }
}
