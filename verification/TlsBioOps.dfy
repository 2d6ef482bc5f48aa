/** Pumping bytes between a BIO pair and a socket that may read and write as little as it likes. */
module TlsBioOps {
  import opened Machine

  const BUFFER_SIZE: nat := 8192

  // What one round of waiting and socket I/O gives: a write count, read data, or an error, where `again` says that
  // errno is EAGAIN or EINTR. An event of the other direction passes by without effect.
  datatype Result = Wrote(count: nat) | Read(bytes: seq<byte>) | Error(again: bool)
  datatype Event = Event(waitFails: bool, result: Result)

  datatype Outcome = Done | Failed | Waiting

  /** An event that makes either half of the pump give up: a failed wait, or an error that is not worth a retry. */
  predicate Hopeless(e: Event, timeout: int) {
    (timeout > 0 && e.waitFails) || (e.result.Error? && !(timeout > 0 && e.result.again))
  }

  predicate WriteFails(e: Event, timeout: int) {
    Hopeless(e, timeout) || e.result == Wrote(0)
  }

  predicate ReadFails(e: Event, timeout: int) {
    Hopeless(e, timeout) || e.result == Read([])
  }

  /** The last event of the first `used` is one that fails. */
  predicate LastFails(script: seq<Event>, used: nat, fails: (Event, int) -> bool, timeout: int)
    requires used <= |script|
  {
    used > 0 && fails(script[used - 1], timeout)
  }

  /** The last event used was one on which the pump gives up. */
  predicate BrokenBy(script: seq<Event>, used: nat, timeout: int)
    requires used <= |script|
  {
    LastFails(script, used, WriteFails, timeout) || LastFails(script, used, ReadFails, timeout)
  }

  function Min(a: nat, b: nat): (m: nat)
    ensures m <= a && m <= b && (m == a || m == b)
  {
    if a < b then a else b
  }

  /** Which events end the pump: without a timeout any error; with one, failed waits and errors other than EAGAIN and
      EINTR; and in either case a zero count. A count or data that came in is never a failure by itself. */
  lemma FailureKinds(r: Result, again: bool, timeout: int)
    ensures Hopeless(Event(false, Error(again)), timeout) <==> timeout <= 0 || !again
    ensures timeout > 0 ==> Hopeless(Event(true, r), timeout)
    ensures timeout <= 0 ==> !Hopeless(Event(true, Wrote(1)), timeout)
    ensures WriteFails(Event(false, Wrote(0)), timeout) && !WriteFails(Event(false, Read([])), timeout)
    ensures ReadFails(Event(false, Read([])), timeout) && !ReadFails(Event(false, Wrote(0)), timeout)
    ensures !r.Error? && r != Wrote(0) && r != Read([]) ==> !WriteFails(Event(false, r), timeout) && !ReadFails(Event(false, r), timeout)
  {
  }

  // ---------- how much goes out ----------

  /** The events that had an effect: all that were used, but for the one that ended the pump. */
  function Effective(outcome: Outcome, used: nat, script: seq<Event>): seq<Event>
    requires used <= |script| && (outcome == Failed ==> used > 0)
  {
    script[..if outcome == Failed then used - 1 else used]
  }

  /** The sum of the write counts. */
  function Taken(script: seq<Event>): nat {
    if script == [] then 0
    else Taken(script[..|script| - 1]) + (if script[|script| - 1].result.Wrote? then script[|script| - 1].result.count else 0)
  }

  /** The size of the write request when `out` of `total` bytes are out: the rest of the current buffer. */
  function Asked(total: nat, out: nat): nat
    requires out <= total
  {
    Min(total - out, BUFFER_SIZE - out % BUFFER_SIZE)
  }

  /** How many of `total` pending bytes are out after these events. */
  function Written(total: nat, script: seq<Event>): (n: nat)
    ensures n <= total
  {
    if script == [] then 0
    else
      var out, r := Written(total, script[..|script| - 1]), script[|script| - 1].result;
      if r.Wrote? then out + Min(r.count, Asked(total, out)) else out
  }

  /** No write of the script takes more than it was asked to take. */
  ghost predicate WritesFit(total: nat, script: seq<Event>) {
    script != [] ==>
      var front, r := script[..|script| - 1], script[|script| - 1].result;
      WritesFit(total, front) && (r.Wrote? ==> r.count <= Asked(total, Written(total, front)))
  }

  /** What is out is exactly what the writes took, unless a write claims more than it was asked for. */
  lemma {:induction false} WrittenIsTaken(total: nat, script: seq<Event>)
    ensures Written(total, script) <= Taken(script)
    ensures Written(total, script) == Taken(script) <==> WritesFit(total, script)
    ensures total <= BUFFER_SIZE ==> Written(total, script) == Min(total, Taken(script))
  {
    if script != [] {
      WrittenIsTaken(total, script[..|script| - 1]);
    }
  }

  lemma {:induction false} AllWritten(total: nat, a: seq<Event>, b: seq<Event>)
    requires Written(total, a) == total
    ensures Written(total, a + b) == total
  {
    if b == [] {
      assert a + b == a;
    } else {
      assert (a + b)[..|a + b| - 1] == a + b[..|b| - 1];
      AllWritten(total, a, b[..|b| - 1]);
    }
  }

  /** What is left of a buffer after these writes, the last of which was still needed. */
  ghost predicate BufferLeft(size: nat, left: nat, took: seq<Event>) {
    left == size - Min(size, Taken(took)) && (took != [] ==> Taken(took[..|took| - 1]) < size)
  }

  /** Whole buffers are out. */
  predicate Aligned(out: nat) {
    out % BUFFER_SIZE == 0
  }

  lemma NextAligned(out: nat)
    requires Aligned(out)
    ensures Aligned(out + BUFFER_SIZE)
  {
  }

  /** The events b of one buffer, which was full or the last one and was not done before its last event. */
  lemma {:induction false} WrittenChunk(total: nat, a: seq<Event>, b: seq<Event>)
    requires var out := Written(total, a);
             Aligned(out) && (b != [] ==> Taken(b[..|b| - 1]) < Asked(total, out))
    ensures var out := Written(total, a); Written(total, a + b) == out + Min(Asked(total, out), Taken(b))
  {
    if b == [] {
      assert a + b == a;
    } else {
      var front := b[..|b| - 1];
      assert (a + b)[..|a + b| - 1] == a + front;
      WrittenChunk(total, a, front);
      var out := Written(total, a);
      InChunk(out, Taken(front));
    }
  }

  lemma InChunk(out: nat, more: nat)
    requires Aligned(out) && more < BUFFER_SIZE
    ensures (out + more) % BUFFER_SIZE == more
  {
  }

  lemma AskedAligned(total: nat, out: nat)
    requires out <= total && Aligned(out)
    ensures Asked(total, out) == Min(total - out, BUFFER_SIZE) == Min(total - out, 8192)
  {
  }

  lemma TakenNext(script: seq<Event>, n: nat)
    requires n < |script|
    ensures Taken(script[..n + 1]) == Taken(script[..n]) + (if script[n].result.Wrote? then script[n].result.count else 0)
  {
    assert script[..n + 1][..n] == script[..n];
  }

  lemma EffectiveDone(script: seq<Event>, n: nat)
    requires n <= |script|
    ensures Effective(Done, n, script) == script[..n]
  {
  }

  lemma EffectiveSplit(script: seq<Event>, used: nat, n: nat, outcome: Outcome)
    requires used + n <= |script| && (outcome == Failed ==> n > 0)
    ensures script[..used] + Effective(outcome, n, script[used..]) == Effective(outcome, used + n, script)
    ensures n > 0 ==> script[used..][n - 1] == script[used + n - 1]
  {
  }

  /** One buffer of the write half, from what the inner loop says about its share of the script. */
  lemma BufferWritten(total: nat, script: seq<Event>, used: nat, n: nat, outcome: Outcome, size: nat, left: nat)
    requires used + n <= |script| && (outcome == Failed ==> n > 0)
    requires var out := Written(total, script[..used]); Aligned(out) && size == Min(total - out, BUFFER_SIZE)
    requires BufferLeft(size, left, Effective(outcome, n, script[used..]))
    ensures var out := Written(total, script[..used]);
            && Written(total, Effective(outcome, used + n, script)) == out + size - left
            && (out + size < total ==> Aligned(out + size))
  {
    hide Written;
    hide Taken;
    hide Effective;
    hide Asked;
    hide Aligned;
    var out := Written(total, script[..used]);
    EffectiveSplit(script, used, n, outcome);
    AskedAligned(total, out);
    WrittenChunk(total, script[..used], Effective(outcome, n, script[used..]));
    NextAligned(out);
  }

  lemma NoneFails(script: seq<Event>, timeout: int)
    ensures !LastFails(script, 0, WriteFails, timeout) && !LastFails(script, 0, ReadFails, timeout)
  {
  }

  lemma FailsNow(script: seq<Event>, n: nat, timeout: int)
    requires n < |script|
    ensures LastFails(script, n + 1, WriteFails, timeout) <==> WriteFails(script[n], timeout)
    ensures LastFails(script, n + 1, ReadFails, timeout) <==> ReadFails(script[n], timeout)
  {
  }

  lemma ShiftFails(script: seq<Event>, used: nat, n: nat, timeout: int)
    requires used + n <= |script|
    ensures n > 0 ==>
      (LastFails(script[used..], n, WriteFails, timeout) <==> LastFails(script, used + n, WriteFails, timeout))
  {
    EffectiveSplit(script, used, n, Done);
  }

  /** What is sent, what was taken off the BIO pair but not sent, and what is still pending there are together the old
      output, in order. */
  ghost predicate InOrder(sent0: seq<byte>, pending0: seq<byte>, sent: seq<byte>, unsent: seq<byte>, pending: seq<byte>) {
    sent + unsent + pending == sent0 + pending0 && sent0 <= sent
  }

  lemma InOrderStart(sent: seq<byte>, pending: seq<byte>)
    ensures InOrder(sent, pending, sent, [], pending)
  {
  }

  lemma InOrderStep(sent0: seq<byte>, pending0: seq<byte>, sent1: seq<byte>, buffer: seq<byte>, rest: seq<byte>,
                    sent: seq<byte>, unsent: seq<byte>)
    requires InOrder(sent0, pending0, sent1, [], buffer + rest) && InOrder(sent1, buffer, sent, unsent, [])
    ensures InOrder(sent0, pending0, sent, unsent, rest)
    ensures |sent| == |sent1| + |buffer| - |unsent| && |unsent| <= |buffer|
  {
    assert sent + unsent + [] == sent + unsent;
    assert sent1 + [] + (buffer + rest) == (sent1 + buffer) + rest;
  }

  /** Where the inner loop of the write half stands after n events. */
  ghost predicate Writing(sent0: seq<byte>, buffer: seq<byte>, script: seq<Event>, n: nat, sent: seq<byte>, writePos: nat) {
    && n <= |script| && writePos <= |buffer|
    && sent == sent0 + buffer[..writePos]
    && writePos == Min(|buffer|, Taken(script[..n]))
    && (n > 0 ==> Taken(script[..n - 1]) < |buffer|)
  }

  lemma WritingStart(sent: seq<byte>, buffer: seq<byte>, script: seq<Event>)
    ensures Writing(sent, buffer, script, 0, sent, 0)
  {
  }

  lemma WritingStep(sent0: seq<byte>, buffer: seq<byte>, script: seq<Event>, n: nat, sent: seq<byte>, writePos: nat)
    requires Writing(sent0, buffer, script, n, sent, writePos) && n < |script| && writePos < |buffer|
    ensures var numWrite := if script[n].result.Wrote? then Min(script[n].result.count, |buffer| - writePos) else 0;
            Writing(sent0, buffer, script, n + 1, sent + buffer[writePos..writePos + numWrite], writePos + numWrite)
    ensures !script[n].result.Wrote? ==> Writing(sent0, buffer, script, n + 1, sent, writePos)
  {
    hide Taken;
    TakenNext(script, n);
    var numWrite := if script[n].result.Wrote? then Min(script[n].result.count, |buffer| - writePos) else 0;
    assert buffer[..writePos] + buffer[writePos..writePos + numWrite] == buffer[..writePos + numWrite];
    assert sent0 + buffer[..writePos] + buffer[writePos..writePos + numWrite] == sent0 + buffer[..writePos + numWrite];
  }

  /** What the standing means to the caller, whether the next event fails or none is left. */
  lemma WritingEnd(sent0: seq<byte>, buffer: seq<byte>, script: seq<Event>, n: nat, sent: seq<byte>, writePos: nat)
    requires Writing(sent0, buffer, script, n, sent, writePos)
    ensures n <= |script| && writePos <= |buffer| && InOrder(sent0, buffer, sent, buffer[writePos..], [])
    ensures BufferLeft(|buffer|, |buffer[writePos..]|, script[..n])
  {
    hide Taken;
    assert script[..n] != [] ==> script[..n][..n - 1] == script[..n - 1];
    assert sent0 + buffer[..writePos] + buffer[writePos..] + [] == sent0 + buffer;
  }

  lemma InOrderSizes(sent0: seq<byte>, pending0: seq<byte>, sent: seq<byte>, unsent: seq<byte>, pending: seq<byte>)
    requires InOrder(sent0, pending0, sent, unsent, pending)
    ensures |sent| - |sent0| == |pending0| - |pending| - |unsent| && |sent0| <= |sent|
  {
    assert |sent + unsent + pending| == |sent0 + pending0|;
  }

  /** Where the write half stands between two buffers, after n events. */
  ghost predicate Flushing(sent0: seq<byte>, pending0: seq<byte>, script: seq<Event>, n: nat, sent: seq<byte>, pending: seq<byte>) {
    && n <= |script| && InOrder(sent0, pending0, sent, [], pending)
    && |sent| - |sent0| == Written(|pending0|, script[..n])
    && (|pending| > 0 ==> Aligned(|sent| - |sent0|))
  }

  lemma FlushStart(sent: seq<byte>, pending: seq<byte>, script: seq<Event>)
    ensures Flushing(sent, pending, script, 0, sent, pending)
  {
    InOrderStart(sent, pending);
  }

  lemma FlushStep(sent0: seq<byte>, pending0: seq<byte>, script: seq<Event>, used: nat, sent1: seq<byte>, buffer: seq<byte>,
                  rest: seq<byte>, outcome: Outcome, n: nat, sent: seq<byte>, unsent: seq<byte>)
    requires Flushing(sent0, pending0, script, used, sent1, buffer + rest) && 0 < |buffer| == Min(|buffer| + |rest|, BUFFER_SIZE)
    requires used + n <= |script| && (outcome == Failed ==> n > 0) && (outcome == Done ==> unsent == [])
    requires InOrder(sent1, buffer, sent, unsent, [])
    requires BufferLeft(|buffer|, |unsent|, Effective(outcome, n, script[used..]))
    ensures InOrder(sent0, pending0, sent, unsent, rest) && |unsent| <= BUFFER_SIZE && |sent0| <= |sent|
    ensures |sent| - |sent0| == Written(|pending0|, Effective(outcome, used + n, script))
    ensures outcome == Done ==> Flushing(sent0, pending0, script, used + n, sent, rest)
  {
    hide InOrder;
    hide Written;
    hide BufferLeft;
    hide Effective;
    hide Aligned;
    InOrderSizes(sent0, pending0, sent1, [], buffer + rest);
    InOrderStep(sent0, pending0, sent1, buffer, rest, sent, unsent);
    BufferWritten(|pending0|, script, used, n, outcome, |buffer|, |unsent|);
    EffectiveDone(script, used + n);
  }

  lemma FlushEnd(sent0: seq<byte>, pending0: seq<byte>, script: seq<Event>, n: nat, sent: seq<byte>, pending: seq<byte>)
    requires Flushing(sent0, pending0, script, n, sent, pending)
    ensures n <= |script| && InOrder(sent0, pending0, sent, [], pending)
    ensures |sent| - |sent0| == Written(|pending0|, Effective(Done, n, script))
  {
    EffectiveDone(script, n);
  }

  // ---------- how much comes in ----------

  function Reads(script: seq<Event>): nat {
    if script == [] then 0 else Reads(script[..|script| - 1]) + (if script[|script| - 1].result.Read? then 1 else 0)
  }

  lemma ReadsNext(script: seq<Event>, n: nat)
    requires n < |script|
    ensures Reads(script[..n + 1]) == Reads(script[..n]) + (if script[n].result.Read? then 1 else 0)
  {
    assert script[..n + 1][..n] == script[..n];
  }

  /** What SSL wants after so many writes into the BIO pair with so many bytes in all. */
  function Wanted(room: nat, request: nat, requests: seq<nat>, writes: nat, bytes: nat): nat {
    if writes == 0 then request
    else Min(if writes <= |requests| then requests[writes - 1] else 0, if bytes <= room then room - bytes else 0)
  }

  /** The bytes that came in after these events: of each read the part that was wanted and fits the buffer. */
  function Arrived(room: nat, request: nat, requests: seq<nat>, script: seq<Event>): seq<byte> {
    if script == [] then []
    else
      var front, r := script[..|script| - 1], script[|script| - 1].result;
      var got := Arrived(room, request, requests, front);
      if r.Read? then
        got + r.bytes[..Min(|r.bytes|, Min(Wanted(room, request, requests, Reads(front), |got|), BUFFER_SIZE))]
      else got
  }

  lemma ArrivedNext(room: nat, request: nat, requests: seq<nat>, script: seq<Event>, n: nat)
    requires n < |script|
    ensures var got, r := Arrived(room, request, requests, script[..n]), script[n].result;
            && (!r.Read? ==> Arrived(room, request, requests, script[..n + 1]) == got)
            && (r.Read? ==>
                var wanted := Wanted(room, request, requests, Reads(script[..n]), |got|);
                Arrived(room, request, requests, script[..n + 1])
                == got + r.bytes[..Min(|r.bytes|, Min(wanted, BUFFER_SIZE))])
  {
    assert script[..n + 1][..n] == script[..n];
  }

  /** Where the read half stands after n events. */
  ghost predicate Filling(room0: nat, request0: nat, requests: seq<nat>, script: seq<Event>, n: nat,
                          writes: nat, room: nat, request: nat, arrived: seq<byte>) {
    && n <= |script| && writes == Reads(script[..n]) && room == room0 - |arrived|
    && request == Wanted(room0, request0, requests, writes, |arrived|)
    && arrived == Arrived(room0, request0, requests, script[..n])
  }

  lemma FillStart(room: nat, request: nat, requests: seq<nat>, script: seq<Event>)
    ensures Filling(room, request, requests, script, 0, 0, room, request, [])
  {
  }

  lemma FillStep(room0: nat, request0: nat, requests: seq<nat>, script: seq<Event>, n: nat,
                 writes: nat, room: nat, request: nat, arrived: seq<byte>)
    requires Filling(room0, request0, requests, script, n, writes, room, request, arrived)
    requires n < |script| && request <= room
    ensures !script[n].result.Read? ==> Filling(room0, request0, requests, script, n + 1, writes, room, request, arrived)
    ensures script[n].result.Read? ==>
      var bytes := script[n].result.bytes;
      var buffer := bytes[..Min(|bytes|, Min(request, BUFFER_SIZE))];
      var next := if writes < |requests| then requests[writes] else 0;
      Filling(room0, request0, requests, script, n + 1, writes + 1, room - |buffer|,
              Min(next, room - |buffer|), arrived + buffer)
  {
    hide Arrived;
    hide Reads;
    ReadsNext(script, n);
    ArrivedNext(room0, request0, requests, script, n);
  }

  lemma FillEnd(room0: nat, request0: nat, requests: seq<nat>, script: seq<Event>, n: nat,
                writes: nat, room: nat, request: nat, arrived: seq<byte>)
    requires Filling(room0, request0, requests, script, n, writes, room, request, arrived)
    ensures n <= |script| && arrived == Arrived(room0, request0, requests, script[..n])
  {
  }

  /** The bytes that came in went from the socket into the BIO pair. */
  ghost predicate CameIn(input0: seq<byte>, received0: seq<byte>, input: seq<byte>, received: seq<byte>, arrived: seq<byte>) {
    input == input0 + arrived && received == received0 + arrived
  }

  lemma CameInStep(input0: seq<byte>, received0: seq<byte>, input: seq<byte>, received: seq<byte>, arrived: seq<byte>,
                   more: seq<byte>)
    requires CameIn(input0, received0, input, received, arrived)
    ensures CameIn(input0, received0, input + more, received + more, arrived + more)
  {
  }

  function Payload(script: seq<Event>): seq<byte> {
    if script == [] then []
    else
      Payload(script[..|script| - 1]) + (if script[|script| - 1].result.Read? then script[|script| - 1].result.bytes else [])
  }

  /** No read of the script gives more than it was asked for. */
  ghost predicate ReadsFit(room: nat, request: nat, requests: seq<nat>, script: seq<Event>) {
    script != [] ==>
      var front, r := script[..|script| - 1], script[|script| - 1].result;
      && ReadsFit(room, request, requests, front)
      && (r.Read? ==> |r.bytes| <= Min(Wanted(room, request, requests, Reads(front), |Payload(front)|), BUFFER_SIZE))
  }

  /** What came in is exactly what the reads gave, all of it and in order, if no read gives more than it was asked for. */
  lemma {:induction false} ArrivedIsPayload(room: nat, request: nat, requests: seq<nat>, script: seq<Event>)
    requires ReadsFit(room, request, requests, script)
    ensures Arrived(room, request, requests, script) == Payload(script)
  {
    if script != [] {
      ArrivedIsPayload(room, request, requests, script[..|script| - 1]);
    }
  }

  /** The network side of the BIO pair together with the socket. */
  class Connection {
    // pending: what SSL has written and BIO_read gives; input: what BIO_write has given to SSL.
    var pending: seq<byte>
    var input: seq<byte>
    // BIO_write takes at most `room` bytes, and SSL asks for at most that many.
    var room: nat
    var readRequest: nat
    // The two directions of the socket.
    var sent: seq<byte>
    var received: seq<byte>

    ghost predicate Valid()
      reads this
    {
      readRequest <= room
    }

    method BioRead(n: nat) returns (buffer: seq<byte>)
      requires n <= |pending|
      modifies this`pending
      ensures old(pending) == buffer + pending && |buffer| == n
    {
      buffer := pending[..n];
      pending := pending[n..];
    }

    /** Takes what fits; the next read request is up to SSL, within the room left. */
    method BioWrite(buffer: seq<byte>, nextRequest: nat) returns (n: nat)
      requires Valid()
      modifies this`input, this`room, this`readRequest
      ensures Valid() && n == (if |buffer| <= old(room) then |buffer| else old(room))
      ensures input == old(input) + buffer[..n] && (n == |buffer| ==> input == old(input) + buffer)
      ensures room == old(room) - n && readRequest == Min(nextRequest, room)
    {
      n := if |buffer| <= room then |buffer| else room;
      assert n == |buffer| ==> buffer[..n] == buffer;
      input := input + buffer[..n];
      room := room - n;
      readRequest := Min(nextRequest, room);
    }

    /** The inner loop of the write half: the whole buffer goes out, in pieces. */
    method WriteBuffer(timeout: int, buffer: seq<byte>, script: seq<Event>)
      returns (outcome: Outcome, used: nat, ghost unsent: seq<byte>)
      modifies this`sent
      ensures InOrder(old(sent), buffer, sent, unsent, []) && (outcome == Done ==> unsent == [])
      ensures used <= |script| && (outcome == Failed <==> LastFails(script, used, WriteFails, timeout))
      ensures (outcome == Waiting ==> used == |script| && unsent != []) && (outcome == Done && buffer != [] ==> used > 0)
      ensures BufferLeft(|buffer|, |unsent|, Effective(outcome, used, script))
    {
      var writePos: nat := 0;
      used := 0;
      ghost var sent0 := sent;
      NoneFails(script, timeout);
      WritingStart(sent, buffer, script);
      hide Writing;
      hide LastFails;
      hide InOrder;
      hide BufferLeft;
      while writePos < |buffer|
        invariant writePos <= |buffer| && used <= |script| && (writePos > 0 ==> used > 0)
        invariant !LastFails(script, used, WriteFails, timeout)
        invariant Writing(sent0, buffer, script, used, sent, writePos)
        decreases |script| - used
      {
        WritingEnd(sent0, buffer, script, used, sent, writePos);
        if used == |script| {
          return Waiting, used, buffer[writePos..];
        }
        var e := script[used];
        FailsNow(script, used, timeout);
        WritingStep(sent0, buffer, script, used, sent, writePos);
        used := used + 1;
        if timeout > 0 && e.waitFails {
          return Failed, used, buffer[writePos..];
        }
        match e.result
        case Wrote(count) =>
          if count == 0 {
            return Failed, used, buffer[writePos..];
          }
          var numWrite := Min(count, |buffer| - writePos);
          sent := sent + buffer[writePos..writePos + numWrite];
          writePos := writePos + numWrite;
        case Error(again) =>
          if !(timeout > 0 && again) {
            return Failed, used, buffer[writePos..];
          }
        case Read(_) =>
      }
      WritingEnd(sent0, buffer, script, used, sent, writePos);
      assert buffer[writePos..] == [];
      return Done, used, [];
    }

    /** The write half: everything pending goes out before anything is read. */
    method Flush(timeout: int, script: seq<Event>) returns (outcome: Outcome, used: nat, ghost unsent: seq<byte>)
      requires Valid()
      modifies this`pending, this`sent
      ensures InOrder(old(sent), old(pending), sent, unsent, pending) && |unsent| <= BUFFER_SIZE
      ensures outcome == Done ==> unsent == [] && pending == []
      ensures used <= |script| && (outcome == Failed <==> LastFails(script, used, WriteFails, timeout))
      ensures outcome == Waiting ==> used == |script| && unsent != []
      ensures |sent| - |old(sent)| == Written(|old(pending)|, Effective(outcome, used, script))
    {
      used, unsent := 0, [];
      ghost var sent0, pending0 := sent, pending;
      NoneFails(script, timeout);
      FlushStart(sent0, pending0, script);
      hide *;
      while |pending| > 0
        invariant used <= |script| && !LastFails(script, used, WriteFails, timeout)
        invariant Flushing(sent0, pending0, script, used, sent, pending)
        decreases |pending|
      {
        var wantWrite := Min(|pending|, BUFFER_SIZE);
        ghost var sent1 := sent;
        var buffer := BioRead(wantWrite);
        var n;
        outcome, n, unsent := WriteBuffer(timeout, buffer, script[used..]);
        NoneFails(script[used..], timeout);
        FlushStep(sent0, pending0, script, used, sent1, buffer, pending, outcome, n, sent, unsent);
        ShiftFails(script, used, n, timeout);
        used := used + n;
        if outcome != Done {
          return;
        }
      }
      FlushEnd(sent0, pending0, script, used, sent, pending);
      return Done, used, [];
    }

    /** The read half: bytes go from the socket into the BIO pair until SSL asks for no more. */
    method Fill(timeout: int, script: seq<Event>, requests: seq<nat>)
      returns (outcome: Outcome, used: nat, ghost arrived: seq<byte>)
      requires Valid()
      modifies this`input, this`room, this`readRequest, this`received
      ensures Valid()
      ensures CameIn(old(input), old(received), input, received, arrived)
      ensures outcome == Done ==> readRequest == 0
      ensures used <= |script| && (outcome == Failed <==> LastFails(script, used, ReadFails, timeout))
      ensures outcome == Waiting ==> used == |script| && readRequest > 0
      ensures arrived == Arrived(old(room), old(readRequest), requests, Effective(outcome, used, script))
    {
      var r: nat := 0;
      ghost var room0, request0, input0, received0 := room, readRequest, input, received;
      used, arrived := 0, [];
      FillStart(room0, request0, requests, script);
      assert CameIn(input0, received0, input, received, []);
      hide Filling;
      hide Arrived;
      hide CameIn;
      NoneFails(script, timeout);
      hide LastFails;
      while readRequest > 0
        invariant Valid() && used <= |script| && !LastFails(script, used, ReadFails, timeout)
        invariant CameIn(input0, received0, input, received, arrived)
        invariant Filling(room0, request0, requests, script, used, r, room, readRequest, arrived)
        decreases |script| - used
      {
        var wantRead := Min(readRequest, BUFFER_SIZE);
        FillEnd(room0, request0, requests, script, used, r, room, readRequest, arrived);
        if used == |script| {
          return Waiting, used, arrived;
        }
        var e := script[used];
        FailsNow(script, used, timeout);
        FillStep(room0, request0, requests, script, used, r, room, readRequest, arrived);
        used := used + 1;
        if timeout > 0 && e.waitFails {
          return Failed, used, arrived;
        }
        match e.result
        case Read(bytes) =>
          if bytes == [] {
            return Failed, used, arrived;
          }
          var buffer := bytes[..Min(|bytes|, wantRead)];
          CameInStep(input0, received0, input, received, arrived, buffer);
          received := received + buffer;
          var toBio := BioWrite(buffer, if r < |requests| then requests[r] else 0);
          r := r + 1;
          // The panic on a short BIO_write cannot happen.
          assert toBio == |buffer|;
          arrived := arrived + buffer;
        case Error(again) =>
          if !(timeout > 0 && again) {
            return Failed, used, arrived;
          }
        case Wrote(_) =>
      }
      FillEnd(room0, request0, requests, script, used, r, room, readRequest, arrived);
      return Done, used, arrived;
    }

    /** network_biopair_interop: for every way the socket can behave, no byte is lost, repeated or reordered, and
        nothing is read before all output is out. The first `turn` events are those of the write half. */
    method Interop(timeout: int, script: seq<Event>, requests: seq<nat>)
      returns (outcome: Outcome, used: nat, ghost turn: nat, ghost unsent: seq<byte>, ghost arrived: seq<byte>)
      requires Valid()
      modifies this
      ensures Valid()
      ensures InOrder(old(sent), old(pending), sent, unsent, pending) && |unsent| <= BUFFER_SIZE
      ensures CameIn(old(input), old(received), input, received, arrived)
      ensures outcome == Done ==> unsent == [] && pending == [] && readRequest == 0
      ensures arrived != [] ==> unsent == [] && pending == []
      ensures turn <= used <= |script| && (outcome == Waiting ==> used == |script| && (unsent != [] || readRequest > 0))
      ensures outcome == Failed ==>
        LastFails(script, used, WriteFails, timeout) || (pending == [] && LastFails(script, used, ReadFails, timeout))
      ensures |sent| - |old(sent)| == Written(|old(pending)|, Effective(outcome, used, script))
      ensures turn < used ==>
        arrived == Arrived(old(room), old(readRequest), requests, Effective(outcome, used - turn, script[turn..]))
    {
      ghost var sent0, pending0, input0, received0 := sent, pending, input, received;
      arrived := [];
      assert CameIn(input0, received0, input, received, []);
      NoneFails(script, timeout);
      outcome, used, unsent := Flush(timeout, script);
      turn := used;
      if outcome != Done {
        return;
      }
      var n;
      outcome, n, arrived := Fill(timeout, script[used..], requests);
      NoneFails(script[used..], timeout);
      InOrderSizes(sent0, pending0, sent, [], []);
      EffectiveDone(script, used);
      EffectiveSplit(script, used, n, outcome);
      AllWritten(|pending0|, script[..used], Effective(outcome, n, script[used..]));
      used := used + n;
    }

    /** One SSL call: it may add output, and says how much it would take. */
    method CallSsl(op: SslCall)
      modifies this`pending, this`room, this`readRequest
      ensures Valid() && pending == old(pending) + op.output && room == op.room && readRequest == Min(op.request, op.room)
    {
      pending := pending + op.output;
      room, readRequest := op.room, Min(op.request, op.room);
    }

    /** One turn of the retry loop: the SSL call, and the pump unless the call failed for good. */
    method TryOnce(timeout: int, op: SslCall, script: seq<Event>)
      returns (outcome: Outcome, used: nat, ghost unsent: seq<byte>, ghost arrived: seq<byte>)
      requires Valid()
      modifies this
      ensures Valid()
      ensures InOrder(old(sent), old(pending) + op.output, sent, unsent, pending)
      ensures CameIn(old(input), old(received), input, received, arrived)
      ensures outcome == Done ==> unsent == [] && (op.err.None? || op.err.Wants() ==> pending == [] && readRequest == 0)
      ensures used <= |script| && (outcome == Failed ==> BrokenBy(script, used, timeout))
      ensures outcome == Waiting ==> used == |script| && (unsent != [] || readRequest > 0)
      ensures op.err.Ssl? || op.err.Other? ==> outcome == Done && used == 0 && sent == old(sent) && arrived == []
      ensures op.err.None? || op.err.Wants() ==>
        |sent| - |old(sent)| == Written(|old(pending) + op.output|, Effective(outcome, used, script))
    {
      CallSsl(op);
      if op.err.Ssl? || op.err.Other? {
        InOrderStart(sent, pending);
        return Done, 0, [], [];
      }
      hide InOrder;
      hide CameIn;
      hide Written;
      ghost var turn;
      outcome, used, turn, unsent, arrived := Interop(timeout, script, op.requests);
    }

    /** tls_bio: the SSL operation is tried again after every pump, until it says neither WANT_READ nor WANT_WRITE. */
    method TlsBio(timeout: int, ops: seq<SslCall>, script: seq<Event>)
      returns (outcome: Outcome, retval: int, calls: nat, used: nat, ghost unsent: seq<byte>, ghost arrived: seq<byte>)
      requires Valid()
      modifies this
      ensures Valid() && calls <= |ops| && used <= |script|
      ensures InOrder(old(sent), old(pending) + Outputs(ops[..calls]), sent, unsent, pending)
      ensures CameIn(old(input), old(received), input, received, arrived)
      ensures forall i :: 0 <= i < calls - 1 ==> ops[i].err.Wants()
      ensures outcome == Done ==> calls > 0 && retval == ops[calls - 1].status && !ops[calls - 1].err.Wants()
      ensures outcome == Done && ops[calls - 1].err.None? ==> unsent == [] && pending == [] && readRequest == 0
      ensures outcome == Failed ==> retval == -1 && calls > 0 && BrokenBy(script, used, timeout)
      ensures outcome == Waiting ==>
        (calls == |ops| && forall i :: 0 <= i < calls ==> ops[i].err.Wants())
        || (used == |script| && (unsent != [] || readRequest > 0))
    {
      used, calls, unsent, arrived := 0, 0, [], [];
      ghost var sent0, pending0, input0, received0 := sent, pending, input, received;
      assert Outputs(ops[..0]) == [] && pending0 + [] == pending0;
      InOrderStart(sent0, pending0);
      assert CameIn(input0, received0, input, received, []);
      hide InOrder;
      hide CameIn;
      hide BrokenBy;
      hide Written;
      hide Outputs;
      hide Effective;
      hide Min;
      while true
        invariant Valid() && calls <= |ops| && used <= |script| && unsent == []
        invariant InOrder(sent0, pending0 + Outputs(ops[..calls]), sent, [], pending)
        invariant CameIn(input0, received0, input, received, arrived)
        invariant forall k :: 0 <= k < calls ==> ops[k].err.Wants()
        invariant calls > 0 ==> pending == [] && readRequest == 0
        decreases |ops| - calls
      {
        if calls == |ops| {
          return Waiting, 0, calls, used, unsent, arrived;
        }
        var op := ops[calls];
        ghost var sent1, pending1, input1, received1 := sent, pending, input, received;
        ghost var more;
        var n;
        outcome, n, unsent, more := TryOnce(timeout, op, script[used..]);
        NextCall(sent0, pending0, sent1, pending1, ops, calls, sent, unsent, pending);
        CameInTwice(input0, received0, input1, received1, arrived, input, received, more);
        ShiftBroken(script, used, n, timeout);
        calls, arrived, used := calls + 1, arrived + more, used + n;
        if outcome != Done {
          return outcome, if outcome == Failed then -1 else 0, calls, used, unsent, arrived;
        }
        if !op.err.Wants() {
          return Done, op.status, calls, used, unsent, arrived;
        }
      }
    }
  }

  /** What an SSL call adds to the output comes behind what was pending. */
  lemma MoreOutput(sent0: seq<byte>, pending0: seq<byte>, sent1: seq<byte>, pending1: seq<byte>, output: seq<byte>,
                   sent: seq<byte>, unsent: seq<byte>, pending: seq<byte>)
    requires InOrder(sent0, pending0, sent1, [], pending1) && InOrder(sent1, pending1 + output, sent, unsent, pending)
    ensures InOrder(sent0, pending0 + output, sent, unsent, pending)
  {
    assert sent1 + [] + pending1 == sent1 + pending1;
    assert sent1 + (pending1 + output) == (sent1 + pending1) + output;
    assert (sent0 + pending0) + output == sent0 + (pending0 + output);
  }

  lemma NextCall(sent0: seq<byte>, pending0: seq<byte>, sent1: seq<byte>, pending1: seq<byte>, ops: seq<SslCall>, n: nat,
                 sent: seq<byte>, unsent: seq<byte>, pending: seq<byte>)
    requires n < |ops| && InOrder(sent0, pending0 + Outputs(ops[..n]), sent1, [], pending1)
    requires InOrder(sent1, pending1 + ops[n].output, sent, unsent, pending)
    ensures InOrder(sent0, pending0 + Outputs(ops[..n + 1]), sent, unsent, pending)
  {
    hide InOrder;
    OutputsSnoc(ops, n + 1);
    MoreOutput(sent0, pending0 + Outputs(ops[..n]), sent1, pending1, ops[n].output, sent, unsent, pending);
    assert pending0 + Outputs(ops[..n]) + ops[n].output == pending0 + Outputs(ops[..n + 1]);
  }

  lemma CameInTwice(input0: seq<byte>, received0: seq<byte>, input1: seq<byte>, received1: seq<byte>, arrived: seq<byte>,
                    input: seq<byte>, received: seq<byte>, more: seq<byte>)
    requires CameIn(input0, received0, input1, received1, arrived) && CameIn(input1, received1, input, received, more)
    ensures CameIn(input0, received0, input, received, arrived + more)
  {
  }

  lemma ShiftBroken(script: seq<Event>, used: nat, n: nat, timeout: int)
    requires used + n <= |script|
    ensures BrokenBy(script[used..], n, timeout) ==> BrokenBy(script, used + n, timeout)
  {
    EffectiveSplit(script, used, n, Done);
  }

  datatype SslError = None | WantWrite | WantRead | Ssl | Other {
    predicate Wants() {
      WantRead? || WantWrite?
    }
  }

  // One SSL call: its status and error, the output it adds to the BIO pair, the room and read request it leaves, and the
  // requests that SSL makes after each write into the BIO pair until the next call.
  datatype SslCall = SslCall(
    status: int, err: SslError, output: seq<byte>, room: nat, request: nat, requests: seq<nat>)

  function Outputs(ops: seq<SslCall>): seq<byte> {
    if ops == [] then [] else Outputs(ops[..|ops| - 1]) + ops[|ops| - 1].output
  }

  lemma OutputsSnoc(ops: seq<SslCall>, n: nat)
    requires 0 < n <= |ops|
    ensures Outputs(ops[..n]) == Outputs(ops[..n - 1]) + ops[n - 1].output
  {
    assert ops[..n][..n - 1] == ops[..n - 1];
  }
}
