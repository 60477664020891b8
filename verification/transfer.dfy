/** One whole transfer: a client run of `n` packets against a server client
    entry whose first read is armed. The server's answers depend only on the
    frames it reads, in order, and the client's writes only on how many
    answers it has read, so the two can be composed one after the other. */
module Transfer {
  import opened Bytes
  import opened Frames
  import opened Client
  import opened Server

  /** Requests that all carry the same C-string leave it once per request. */
  lemma {:induction false} PayloadsOfEqualRequests(reqs: seq<Request>, text: seq<byte>)
    requires forall i :: 0 <= i < |reqs| ==> CString(reqs[i].data) == text
    ensures Payloads(reqs) == Repeat(text, |reqs|)
  {
    if reqs != [] {
      var tail := reqs[1..];
      forall i | 0 <= i < |tail|
        ensures CString(tail[i].data) == text
      {
        assert tail[i] == reqs[i + 1];
      }
      PayloadsOfEqualRequests(tail, text);
      assert Payloads(reqs) == CString(reqs[0].data) + Payloads(tail);
    }
  }

  /** The server answers a run's packets `0 .. n-1` with `done` responses
      numbered `0 .. n-1`: each names a packet already sent and none twice. */
  lemma {:induction false} ServerAnswersWellBehaved(n: int)
    requires ValidCount(n)
    ensures WellBehaved(n, Acks(Packets(n, n)))
  {
    var acks := Acks(Packets(n, n));
    forall i | 0 <= i < n
      ensures acks[i].done && acks[i].num < SentAfter(n, i)
    {
      assert acks[i].num == i;
    }
  }

  /** The client sends its `n` packets on the connection of `name`, the
      server processes them and answers each one. The client completes with
      nothing left in flight, never holding more than its window; the file
      holds the greeting `n` times after what it held before; the entry is
      gone; and no other client or file is touched. */
  method RunAgainstServer(s: Server, name: string, n: int)
    returns (after: Server, sent: seq<Request>, outcome: Outcome, inFlight: map<int, Request>,
             maxInFlight: nat)
    requires s.Valid() && name in s.clients && s.clients[name].phase == Reading
    requires ValidCount(n)
    ensures outcome.Completed? && inFlight == map[]
    ensures maxInFlight == WindowSize(n)
    ensures sent == Packets(n, n)
    ensures name in after.disk && after.disk[name] == s.disk[name] + Repeat(Greeting, n)
    ensures name !in after.clients
    ensures OthersUnchanged(s, after, name)
  {
    var served := Deliver(s, name, Packets(n, n));
    ServerAnswersWellBehaved(n);
    sent, inFlight, outcome, maxInFlight := Client.Run(n, served.sent);
    PayloadsOfEqualRequests(Packets(n, n), Greeting);
    after := served.server;
  }
}
