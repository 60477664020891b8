/** The server's per-connection object, socket left out: the storage of one
    request struct, which reads fill through a raw byte pointer and the worker
    copies out by value, and the builder of response structs. */
module Connection {
  import opened Bytes
  import opened Frames

  /** `Connection`: its `request_` member seen as the `RequestSize` raw bytes
      the reads write into. */
  datatype Connection = Connection(buffer: seq<byte>)
  {
    predicate Valid()
    {
      |buffer| == RequestSize
    }
  }

  /** `get_request()`: the stored struct, returned by value. It is a request
      exactly when its flag byte is a proper `bool`, and then the copy's wire
      form is the stored bytes. */
  function GetRequest(c: Connection): (r: Result<Request>)
    requires c.Valid()
    ensures r.Ok? <==> c.buffer[4] == 0 || c.buffer[4] == 1
    ensures r.Ok? ==> r.value.WellSized() && EncodeRequest(r.value) == c.buffer
  {
    if DecodeRequest(c.buffer).Ok? then
      RequestBytesRoundTrip(c.buffer);
      DecodeRequest(c.buffer)
    else
      DecodeRequest(c.buffer)
  }

  /** A full read of `frame` through `get_request_ptr()`: every byte of the
      stored struct is overwritten, so what `get_request()` returns next is
      the frame's decoding, whatever was stored before. */
  function Fill(c: Connection, frame: seq<byte>): (c': Connection)
    requires |frame| == RequestSize
    ensures c'.Valid()
    ensures GetRequest(c') == DecodeRequest(frame)
  {
    Connection(frame)
  }

  /** `create_response(packet_num, is_done)`: a `const` member, so it yields
      only the response and leaves the connection as it was. */
  function CreateResponse(c: Connection, packetNum: u32, isDone: bool): (r: Response)
    ensures r.num == packetNum
    ensures r.done == isDone
  {
    Response(packetNum, isDone)
  }

  /** What the peer reads off the wire after the server writes the raw bytes
      of a built response is that same response. */
  lemma {:induction false} CreateResponseOnWire(c: Connection, packetNum: u32, isDone: bool)
    ensures DecodeResponse(EncodeResponse(CreateResponse(c, packetNum, isDone)))
            == Ok(Response(packetNum, isDone))
  {
    ResponseRoundTrip(Response(packetNum, isDone));
  }

  /** A copy taken by `get_request()` is a value: it keeps describing the
      bytes stored when it was taken, while after a later read into the same
      storage `get_request()` describes the new frame. In this value model the
      first half holds by construction (nothing can alias the copy); the
      content of the lemma is that the old copy and the new `get_request()`
      re-encode to the old and the new frame respectively. */
  lemma {:induction false} CopySurvivesOverwrite(c: Connection, frame: seq<byte>)
    requires c.Valid() && |frame| == RequestSize
    requires GetRequest(c).Ok?
    ensures var copy := GetRequest(c);
            var c' := Fill(c, frame);
            && EncodeRequest(copy.value) == c.buffer
            && GetRequest(c') == DecodeRequest(frame)
            && (DecodeRequest(frame).Ok? ==> EncodeRequest(GetRequest(c').value) == frame)
  {
    if DecodeRequest(frame).Ok? {
      RequestBytesRoundTrip(frame);
    }
  }
}
