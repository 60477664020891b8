/** The client's window sender (`Client` in client.cpp) with the socket taken
    away: the packets it writes become an output sequence and the responses
    it reads become an input sequence. */
module Client {
  import opened Bytes
  import opened Frames

  /** The largest number of packets the client keeps in memory at once. */
  const WindowCap := 100000

  /** `INT_MAX`: `num_of_packets_` is an `int`. */
  const IntMax := 0x7fff_ffff

  /** A packet count a run is defined for: positive, and an `int`. */
  predicate ValidCount(n: int)
  {
    1 <= n <= IntMax
  }

  /** `packets_buffer_size_`, i.e. `std::min(100000, n)`. */
  function WindowSize(n: int): (w: nat)
    requires ValidCount(n)
    ensures 1 <= w <= n
    ensures w <= WindowCap
    ensures w == n || w == WindowCap
  {
    if n < WindowCap then n else WindowCap
  }

  /** The bytes of a string of ASCII characters. */
  function Ascii(s: string): (b: seq<byte>)
    requires forall i :: 0 <= i < |s| ==> s[i] as int < 0x100
    ensures |b| == |s|
  {
    seq(|s|, i requires 0 <= i < |s| => s[i] as int)
  }

  /** The text every packet carries. */
  const Greeting: seq<byte> := Ascii("Hello from Client!\n")

  /** The payload bytes after the terminator. `strcpy` leaves them as they
      were in the uninitialised struct; the model fixes them to zero, and
      `PayloadIndependentOfPadding` shows the receiver's reading does not
      depend on them. */
  const Padding: seq<byte> := Zeros(DataSize - |Greeting| - 1)

  function Zeros(k: nat): (z: seq<byte>)
    ensures |z| == k
  {
    if k == 0 then [] else Zeros(k - 1) + [0]
  }

  lemma GreetingIsNulFree()
    ensures NulFree(Greeting)
    ensures |Greeting| == 19
  {
  }

  /** `generate_packet(num)`: the packet numbered `num`, terminal exactly
      when it is the `n`-th, carrying the NUL-terminated greeting. */
  function GeneratePacket(n: int, num: u32): (p: Request)
    requires ValidCount(n)
    ensures p.num == num
    ensures p.isLast <==> num == n - 1
    ensures p.WellSized()
    ensures CString(p.data) == Greeting
    ensures p.data[|Greeting|] == 0
  {
    GreetingIsNulFree();
    CStringOfTerminated(Greeting, Padding);
    Request(num, num == n - 1, Greeting + [0] + Padding)
  }

  /** Whatever the bytes after the terminator are, the receiver reads the
      greeting and nothing else. */
  lemma {:induction false} PayloadIndependentOfPadding(rest: seq<byte>)
    ensures CString(Greeting + [0] + rest) == Greeting
  {
    GreetingIsNulFree();
    CStringOfTerminated(Greeting, rest);
  }

  /** The first `m` packets of a run of `n`, in sending order. */
  function Packets(n: int, m: nat): (ps: seq<Request>)
    requires ValidCount(n) && m <= n
    ensures |ps| == m
  {
    seq(m, k requires 0 <= k < m => GeneratePacket(n, k))
  }

  lemma {:induction false} PacketsGrow(n: int, m: nat)
    requires ValidCount(n) && m < n
    ensures Packets(n, m + 1) == Packets(n, m) + [GeneratePacket(n, m)]
  {
  }

  /** A run numbers its packets `0 .. n-1` in increasing order and exactly
      one of them, the one sent last, is terminal. */
  lemma {:induction false} OneTerminalPacket(n: int)
    requires ValidCount(n)
    ensures forall k :: 0 <= k < n ==> Packets(n, n)[k].num == k
    ensures forall k :: 0 <= k < n ==> (Packets(n, n)[k].isLast <==> k == n - 1)
    ensures Packets(n, n)[n - 1].isLast
  {
  }

  /** How many packets have been sent once `acked` responses have been read:
      the whole initial window, then one more per response while any remain. */
  function SentAfter(n: int, acked: nat): (m: nat)
    requires ValidCount(n)
    ensures WindowSize(n) <= m <= n
    ensures m == n || m == WindowSize(n) + acked
  {
    if WindowSize(n) + acked < n then WindowSize(n) + acked else n
  }

  /** The send counter never goes back, and one response admits at most one
      new packet. */
  lemma AtMostOneSendPerResponse(n: int, acked: nat)
    requires ValidCount(n)
    ensures SentAfter(n, acked) <= SentAfter(n, acked + 1) <= SentAfter(n, acked) + 1
    ensures SentAfter(n, acked) < n ==> SentAfter(n, acked + 1) == SentAfter(n, acked) + 1
  {
  }

  /** How many responses had been read when packet `k` was sent. */
  function SentAt(n: int, k: nat): nat
    requires ValidCount(n)
  {
    if k < WindowSize(n) then 0 else k - WindowSize(n) + 1
  }

  /** Packet `k` is held after `i` responses: it has been sent, and no
      response read since it was sent names it. */
  predicate Outstanding(n: int, acks: seq<Response>, i: nat, k: int)
    requires ValidCount(n) && i <= |acks|
  {
    && 0 <= k < SentAfter(n, i)
    && forall j :: SentAt(n, k) <= j < i ==> acks[j].num != k
  }

  /** The in-flight map once `i` responses have been read. */
  function InFlightAt(n: int, acks: seq<Response>, i: nat): map<int, Request>
    requires ValidCount(n) && i <= |acks|
  {
    map k | 0 <= k < SentAfter(n, i) && Outstanding(n, acks, i, k) :: GeneratePacket(n, k)
  }

  /** The in-flight map after the first `m` packets of the window are sent. */
  function InitialWindow(n: int, m: nat): map<int, Request>
    requires ValidCount(n) && m <= n
  {
    map k | 0 <= k < m :: GeneratePacket(n, k)
  }

  /** Sending packet `m` of the window adds it, and only it, to the map. */
  lemma {:induction false} InitialWindowGrows(n: int, m: nat)
    requires ValidCount(n) && m < n
    ensures InitialWindow(n, m + 1) == Emplace(InitialWindow(n, m), m, GeneratePacket(n, m))
  {
    assert m !in InitialWindow(n, m);
    assert InitialWindow(n, m + 1).Keys == InitialWindow(n, m).Keys + {m};
  }

  /** `unordered_map::erase(key)`: a missing key is ignored. */
  function Erase(m: map<int, Request>, key: int): (m': map<int, Request>)
    ensures m'.Keys == m.Keys - {key}
    ensures forall k :: k in m' ==> m'[k] == m[k]
  {
    m - {key}
  }

  /** `unordered_map::emplace(key, value)`: a present key keeps its value. */
  function Emplace(m: map<int, Request>, key: int, value: Request): (m': map<int, Request>)
    ensures m'.Keys == m.Keys + {key}
    ensures key !in m ==> m'[key] == value
    ensures forall k :: k in m ==> m'[k] == m[k]
  {
    if key in m then m else m[key := value]
  }

  /** The responses every packet of a healthy run gets: each read response
      is `done`, names a packet already sent, and names no packet a previous
      response named. */
  predicate WellBehaved(n: int, acks: seq<Response>)
    requires ValidCount(n)
  {
    && |acks| >= n
    && (forall i :: 0 <= i < n ==> acks[i].done && acks[i].num < SentAfter(n, i))
    && (forall i, j :: 0 <= i < j < n ==> acks[i].num != acks[j].num)
  }

  /** Sequence numbers named by the first `i` responses. */
  function Acked(acks: seq<Response>, i: nat): set<int>
    requires i <= |acks|
  {
    set j | 0 <= j < i :: acks[j].num as int
  }

  /** `{0, .., m-1}`. */
  function Range(m: nat): (r: set<int>)
    ensures forall k :: k in r <==> 0 <= k < m
  {
    if m == 0 then {} else Range(m - 1) + {m - 1}
  }

  lemma {:induction false} RangeSize(m: nat)
    ensures |Range(m)| == m
  {
    if m > 0 {
      RangeSize(m - 1);
      assert Range(m) == Range(m - 1) + {m - 1};
    }
  }

  lemma {:induction false} InitialWindowSize(n: int, m: nat)
    requires ValidCount(n) && m <= n
    ensures |InitialWindow(n, m)| == m
  {
    RangeSize(m);
    assert InitialWindow(n, m).Keys == Range(m);
  }

  lemma {:induction false} AckedSize(n: int, acks: seq<Response>, i: nat)
    requires ValidCount(n) && WellBehaved(n, acks) && i <= n
    ensures |Acked(acks, i)| == i
  {
    if i > 0 {
      AckedSize(n, acks, i - 1);
      assert Acked(acks, i) == Acked(acks, i - 1) + {acks[i - 1].num as int};
      assert acks[i - 1].num !in Acked(acks, i - 1);
    }
  }

  /** Nothing is in flight before the first response but the whole window. */
  lemma {:induction false} FirstInFlight(n: int, acks: seq<Response>)
    requires ValidCount(n)
    ensures InFlightAt(n, acks, 0) == InitialWindow(n, WindowSize(n))
  {
  }

  /** One response read: its number is erased, then the next unsent packet,
      if any, is admitted. */
  lemma {:induction false} InFlightStep(n: int, acks: seq<Response>, i: nat)
    requires ValidCount(n) && i < |acks|
    ensures var m := Erase(InFlightAt(n, acks, i), acks[i].num);
            var next := SentAfter(n, i);
            InFlightAt(n, acks, i + 1)
            == if next < n then Emplace(m, next, GeneratePacket(n, next)) else m
  {
    var m := Erase(InFlightAt(n, acks, i), acks[i].num);
    var next := SentAfter(n, i);
    var after := if next < n then Emplace(m, next, GeneratePacket(n, next)) else m;
    forall k | 0 <= k < next
      ensures Outstanding(n, acks, i + 1, k) <==> k in m
    {
      assert SentAt(n, k) <= i;
    }
    if next < n {
      assert SentAt(n, next) == i + 1;
      assert Outstanding(n, acks, i + 1, next);
      assert next !in m;
    }
    assert InFlightAt(n, acks, i + 1).Keys == after.Keys;
  }

  /** With well-behaved responses, what is in flight is exactly what has
      been sent and not yet acknowledged. */
  lemma {:induction false} InFlightOfWellBehaved(n: int, acks: seq<Response>, i: nat)
    requires ValidCount(n) && WellBehaved(n, acks) && i <= n
    ensures InFlightAt(n, acks, i).Keys == Range(SentAfter(n, i)) - Acked(acks, i)
  {
    forall k | 0 <= k < SentAfter(n, i)
      ensures Outstanding(n, acks, i, k) <==> k !in Acked(acks, i)
    {
      if k in Acked(acks, i) {
        var j :| 0 <= j < i && acks[j].num == k;
        assert SentAt(n, k) <= j;
      }
    }
  }

  /** The window bound: with well-behaved responses the client never holds
      more than `WindowSize(n)` packets, and after `n` responses it holds
      none. */
  lemma {:induction false} WindowBound(n: int, acks: seq<Response>, i: nat)
    requires ValidCount(n) && WellBehaved(n, acks) && i <= n
    ensures |InFlightAt(n, acks, i)| == SentAfter(n, i) - i <= WindowSize(n)
    ensures i == n ==> InFlightAt(n, acks, i) == map[]
  {
    var sentSet := Range(SentAfter(n, i));
    var acked := Acked(acks, i);
    InFlightOfWellBehaved(n, acks, i);
    RangeSize(SentAfter(n, i));
    AckedSize(n, acks, i);
    assert acked <= sentSet;
    DifferenceSize(sentSet, acked);
    assert |InFlightAt(n, acks, i)| == |InFlightAt(n, acks, i).Keys|;
  }

  lemma DifferenceSize(a: set<int>, b: set<int>)
    requires b <= a
    ensures |a - b| == |a| - |b|
  {
    assert a == (a - b) + b;
  }

  /** "Each response names a distinct packet that is in flight when it is
      read" is exactly `WellBehaved`. */
  lemma {:induction false} WellBehavedIffInFlight(n: int, acks: seq<Response>)
    requires ValidCount(n) && |acks| >= n
    ensures WellBehaved(n, acks)
            <==> forall i :: 0 <= i < n ==> acks[i].done && acks[i].num in InFlightAt(n, acks, i)
  {
    if WellBehaved(n, acks) {
      forall i | 0 <= i < n
        ensures acks[i].num in InFlightAt(n, acks, i)
      {
        InFlightOfWellBehaved(n, acks, i);
      }
    }
    if forall i :: 0 <= i < n ==> acks[i].done && acks[i].num in InFlightAt(n, acks, i) {
      forall i, j | 0 <= i < j < n
        ensures acks[i].num != acks[j].num
      {
        assert acks[i].num in InFlightAt(n, acks, i);
        assert acks[j].num in InFlightAt(n, acks, j);
        assert SentAt(n, acks[i].num) <= i;
      }
    }
  }

  /** The first loop of `Client::run`: packets `0 .. w-1` are generated,
      stored and written, in order. */
  method FillWindow(n: int) returns (sent: seq<Request>, inFlight: map<int, Request>, maxInFlight: nat)
    requires ValidCount(n)
    ensures sent == Packets(n, WindowSize(n))
    ensures inFlight == InitialWindow(n, WindowSize(n))
    ensures maxInFlight == |inFlight| == WindowSize(n)
  {
    sent := [];
    inFlight := map[];
    maxInFlight := 0;
    var next: nat := 0;
    while next < WindowSize(n)
      invariant next <= WindowSize(n)
      invariant sent == Packets(n, next)
      invariant inFlight == InitialWindow(n, next)
      invariant maxInFlight == next == |inFlight|
    {
      var packet := GeneratePacket(n, next);
      InitialWindowGrows(n, next);
      PacketsGrow(n, next);
      inFlight := Emplace(inFlight, next, packet);
      sent := sent + [packet];
      next := next + 1;
      InitialWindowSize(n, next);
      if |inFlight| > maxInFlight {
        maxInFlight := |inFlight|;
      }
    }
  }

  /** One iteration of the response loop of `Client::run`, after response
      `i` was read and found `done`: its packet is erased, and the next unsent
      packet, if any, is generated, stored and written. */
  method OnResponse(n: int, acks: seq<Response>, i: nat, next: nat, sent: seq<Request>,
                    inFlight: map<int, Request>)
    returns (next': nat, sent': seq<Request>, inFlight': map<int, Request>)
    requires ValidCount(n) && i < |acks|
    requires next == SentAfter(n, i) && sent == Packets(n, next)
    requires inFlight == InFlightAt(n, acks, i)
    ensures next' == SentAfter(n, i + 1) && sent' == Packets(n, next')
    ensures inFlight' == InFlightAt(n, acks, i + 1)
  {
    next', sent' := next, sent;
    inFlight' := Erase(inFlight, acks[i].num);
    InFlightStep(n, acks, i);
    if next' < n {
      var packet := GeneratePacket(n, next');
      PacketsGrow(n, next');
      inFlight' := Emplace(inFlight', next', packet);
      sent' := sent' + [packet];
      next' := next' + 1;
    }
  }

  /** How a run ended: every response read; a response with `done` false
      (the `logic_error`); or the connection ran out of responses (the read
      throws). `at` is the index of the response being read. */
  datatype Outcome = Completed | NotDone(at: nat) | ConnectionClosed(at: nat)

  /** `Client::run`. `acks` is what the server sends back, in order; `sent`
      is every packet written, in order; `inFlight` is the final `packets_`;
      `maxInFlight` the most packets ever held at once. */
  method Run(n: int, acks: seq<Response>)
    returns (sent: seq<Request>, inFlight: map<int, Request>, outcome: Outcome, maxInFlight: nat)
    requires ValidCount(n)
    ensures outcome.Completed? <==> |acks| >= n && forall i :: 0 <= i < n ==> acks[i].done
    ensures outcome.Completed? ==> sent == Packets(n, n) && inFlight == InFlightAt(n, acks, n)
    ensures outcome.NotDone? ==>
              && outcome.at < n && outcome.at < |acks| && !acks[outcome.at].done
              && (forall i :: 0 <= i < outcome.at ==> acks[i].done)
              && sent == Packets(n, SentAfter(n, outcome.at))
              && inFlight == InFlightAt(n, acks, outcome.at)
    ensures outcome.ConnectionClosed? ==>
              && outcome.at == |acks| < n
              && (forall i :: 0 <= i < |acks| ==> acks[i].done)
              && sent == Packets(n, SentAfter(n, |acks|))
              && inFlight == InFlightAt(n, acks, |acks|)
    ensures WellBehaved(n, acks) ==>
              outcome.Completed? && maxInFlight == WindowSize(n) && inFlight == map[]
  {
    var w := WindowSize(n);
    var next: nat;
    outcome := Completed;
    sent, inFlight, maxInFlight := FillWindow(n);
    next := w;
    FirstInFlight(n, acks);

    // One response per packet; each frees a slot and admits at most one more.
    var i := 0;
    while i < n
      invariant i <= n && i <= |acks|
      invariant forall j :: 0 <= j < i ==> acks[j].done
      invariant next == SentAfter(n, i)
      invariant sent == Packets(n, next)
      invariant inFlight == InFlightAt(n, acks, i)
      invariant WellBehaved(n, acks) ==> maxInFlight == w
    {
      if i == |acks| {
        outcome := ConnectionClosed(i);
        return;
      }
      var response := acks[i];
      if !response.done {
        outcome := NotDone(i);
        return;
      }
      next, sent, inFlight := OnResponse(n, acks, i, next, sent, inFlight);
      i := i + 1;
      if WellBehaved(n, acks) {
        WindowBound(n, acks, i);
      }
      if |inFlight| > maxInFlight {
        maxInFlight := |inFlight|;
      }
    }
    if WellBehaved(n, acks) {
      WindowBound(n, acks, n);
    }
  }
}
