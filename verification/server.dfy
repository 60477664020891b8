/** The server (`Server` in server.cpp) as a sequential state machine. Its
    state is the registry of open clients keyed by output file name, the
    contents of the files on disk, and whether an accept is pending. Each
    completion handler is one atomic transition; the responses a transition
    writes to the client's socket are returned beside the new state. */
module Server {
  import opened Bytes
  import opened Frames
  import opened Connection

  /** Where a connection's read loop stands. `Reading`: a read into the
      request buffer is pending. `Working`: that read completed and its
      `do_work` job is queued. `Abandoned`: the read failed, or the frame read
      is not a request; no handler will run for the connection again, and it
      stays registered. */
  datatype Phase = Reading | Working | Abandoned

  /** One registry entry (`ClientInfo`): the connection and where its read
      loop stands. The entry's output stream is the file of the same name in
      `Server.disk`. */
  datatype Session = Session(conn: Connection, phase: Phase)

  /** `folder` is `dump_folder_path_`; `clients` is `open_clients_`;
      `accepting` says whether an `async_accept` is pending. */
  datatype Server = Server(folder: string, clients: map<string, Session>,
                           disk: map<string, seq<byte>>, accepting: bool)
  {
    /** Every open client has its output file and a full request buffer. */
    predicate Valid()
    {
      forall name :: name in clients ==> name in disk && clients[name].conn.Valid()
    }
  }

  /** A transition's new state, and the responses it wrote, in order. */
  datatype Step = Step(server: Server, sent: seq<Response>)

  /** What a pending read delivers: some bytes, or a transport error. */
  datatype ReadResult = ReadCompleted(bytes: seq<byte>) | ReadFailed

  /** Everything outside the entry and the file named `name` is as it was. */
  predicate OthersUnchanged(s: Server, s': Server, name: string)
  {
    && s'.folder == s.folder
    && s'.accepting == s.accepting
    && s'.clients - {name} == s.clients - {name}
    && s'.disk - {name} == s.disk - {name}
  }

  /** The output file of a connection: a fixed prefix and a random
      identifier, under the dump folder. */
  function SinkName(folder: string, id: string): (name: string)
    ensures |name| == |folder| + 5 + |id| + 4
    ensures name[..|folder|] == folder
    ensures name[|folder|..|folder| + 5] == "vltt_"
    ensures name[|folder| + 5..|name| - 4] == id
    ensures name[|name| - 4..] == ".txt"
  {
    folder + "vltt_" + id + ".txt"
  }

  /** Distinct identifiers name distinct files, so two open connections
      never share a registry entry. */
  lemma {:induction false} SinkNameInjective(folder: string, id1: string, id2: string)
    requires SinkName(folder, id1) == SinkName(folder, id2)
    ensures id1 == id2
  {
    var name := SinkName(folder, id1);
    assert id1 == name[|folder| + 5..|name| - 4] == id2;
  }

  /** `start_accept`: arms the next accept, touching nothing else. */
  function StartAccept(s: Server): (s': Server)
    requires s.Valid() && !s.accepting
    ensures s'.Valid() && s'.accepting
    ensures s'.folder == s.folder && s'.clients == s.clients && s'.disk == s.disk
  {
    s.(accepting := true)
  }

  /** The server as constructed: no clients, and an accept pending. */
  function Start(folder: string, disk: map<string, seq<byte>>): (s: Server)
    ensures s.Valid() && s.accepting && s.clients == map[]
    ensures s.disk == disk && s.folder == folder
  {
    StartAccept(Server(folder, map[], disk, false))
  }

  /** `handle_accept`, which runs when the pending accept completes. `failed`
      is the accept's error code, `conn` the accepted connection and `id` the
      random identifier the generator yields, which names no open client. On
      success the file is opened in append mode (created empty when missing)
      and the first read is armed; in both cases the next accept is armed. */
  function HandleAccept(s: Server, failed: bool, conn: Connection, id: string): (s': Server)
    requires s.Valid() && s.accepting && conn.Valid()
    requires SinkName(s.folder, id) !in s.clients
    ensures s'.Valid() && s'.accepting
    ensures failed ==> s' == s
    ensures !failed ==>
              var name := SinkName(s.folder, id);
              && s'.clients.Keys == s.clients.Keys + {name}
              && s'.clients[name] == Session(conn, Reading)
              && s'.disk[name] == (if name in s.disk then s.disk[name] else [])
              && OthersUnchanged(s, s', name)
  {
    var completed := s.(accepting := false);
    if failed then StartAccept(completed)
    else
      var name := SinkName(s.folder, id);
      var file := if name in s.disk then s.disk[name] else [];
      StartAccept(completed.(clients := s.clients[name := Session(conn, Reading)],
                             disk := s.disk[name := file]))
  }

  /** `handle_read` for the pending read of client `name`. A read that
      completes fills the whole buffer; anything shorter is reported as an
      error. On success the frame's `do_work` job is queued; on error nothing
      is queued, no read is re-armed, and the client stays registered. No
      file is written and nothing is sent either way. */
  function HandleRead(s: Server, name: string, result: ReadResult): (s': Server)
    requires s.Valid() && name in s.clients && s.clients[name].phase == Reading
    ensures s'.Valid()
    ensures OthersUnchanged(s, s', name)
    ensures s'.disk == s.disk
    ensures name in s'.clients
    ensures result.ReadFailed? || |result.bytes| != RequestSize ==>
              s'.clients[name] == s.clients[name].(phase := Abandoned)
    ensures result.ReadCompleted? && |result.bytes| == RequestSize ==>
              && s'.clients[name] == Session(Connection(result.bytes), Working)
              && GetRequest(s'.clients[name].conn) == DecodeRequest(result.bytes)
  {
    var session := s.clients[name];
    match result
    case ReadFailed =>
      s.(clients := s.clients[name := session.(phase := Abandoned)])
    case ReadCompleted(bytes) =>
      if |bytes| != RequestSize then
        s.(clients := s.clients[name := session.(phase := Abandoned)])
      else
        s.(clients := s.clients[name := Session(Fill(session.conn, bytes), Working)])
  }

  /** `do_work` for the client `name`, whose buffer holds a frame just read:
      the request is copied out; unless it is terminal the next read is armed;
      its payload up to the first NUL is appended to the file; a `done`
      response with the same number is written; and a terminal request closes
      the file and removes the client. A flag byte that is neither 0 nor 1 is
      not a `bool`, and the model abandons such a session without a response
      and without writing to the file. */
  function DoWork(s: Server, name: string): (r: Step)
    requires s.Valid() && name in s.clients && s.clients[name].phase == Working
    ensures r.server.Valid()
    ensures OthersUnchanged(s, r.server, name)
    ensures name in r.server.disk
    ensures var req := GetRequest(s.clients[name].conn);
            && (req.Err? ==>
                  && r.sent == []
                  && r.server.disk == s.disk
                  && r.server.clients == s.clients[name := s.clients[name].(phase := Abandoned)])
            && (req.Ok? ==>
                  && r.sent == [Response(req.value.num, true)]
                  && r.server.disk[name] == s.disk[name] + CString(req.value.data)
                  && (name in r.server.clients <==> !req.value.isLast)
                  && (!req.value.isLast ==>
                        r.server.clients[name] == s.clients[name].(phase := Reading)))
  {
    var session := s.clients[name];
    match GetRequest(session.conn)
    case Err(_) => Step(s.(clients := s.clients[name := session.(phase := Abandoned)]), [])
    case Ok(request) =>
      var written := s.disk[name] + CString(request.data);
      var response := CreateResponse(session.conn, request.num, true);
      if request.isLast then
        Step(s.(clients := s.clients - {name}, disk := s.disk[name := written]), [response])
      else
        Step(s.(clients := s.clients[name := session.(phase := Reading)],
                disk := s.disk[name := written]), [response])
  }

  /** What a sequence of requests leaves in a file: each payload up to its
      first NUL, in order. */
  function Payloads(reqs: seq<Request>): seq<byte>
  {
    if reqs == [] then [] else CString(reqs[0].data) + Payloads(reqs[1..])
  }

  /** The responses a sequence of requests receives, in order. */
  function Acks(reqs: seq<Request>): (acks: seq<Response>)
    ensures |acks| == |reqs|
    ensures forall i :: 0 <= i < |reqs| ==> acks[i] == Response(reqs[i].num, true)
  {
    seq(|reqs|, i requires 0 <= i < |reqs| => Response(reqs[i].num, true))
  }

  /** Requests a client may send on one connection: full-sized, and none
      terminal but possibly the last. */
  predicate SessionStream(reqs: seq<Request>)
  {
    && (forall i :: 0 <= i < |reqs| ==> reqs[i].WellSized())
    && (forall i :: 0 <= i < |reqs| - 1 ==> !reqs[i].isLast)
  }

  /** The client `name` sends `reqs` and every read completes: the file
      gains the concatenated C-string payloads, each request is answered in
      order, the client is gone exactly when the last request was terminal,
      and no other client or file is touched. */
  function Deliver(s: Server, name: string, reqs: seq<Request>): (r: Step)
    requires s.Valid() && name in s.clients && s.clients[name].phase == Reading
    requires SessionStream(reqs)
    ensures r.server.Valid()
    ensures OthersUnchanged(s, r.server, name)
    ensures name in r.server.disk
    ensures r.server.disk[name] == s.disk[name] + Payloads(reqs)
    ensures r.sent == Acks(reqs)
    ensures name in r.server.clients <==> reqs == [] || !reqs[|reqs| - 1].isLast
    ensures name in r.server.clients ==> r.server.clients[name].phase == Reading
    decreases |reqs|
  {
    if reqs == [] then Step(s, [])
    else
      RequestRoundTrip(reqs[0]);
      var read := HandleRead(s, name, ReadCompleted(EncodeRequest(reqs[0])));
      var first := DoWork(read, name);
      if |reqs| == 1 then first
      else
        var rest := Deliver(first.server, name, reqs[1..]);
        Step(rest.server, first.sent + rest.sent)
  }
}
