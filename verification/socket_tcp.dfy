/** The bookkeeping of `SocketTCP`'s reactor: the table of connections, each
    with its queue of pending write buffers, and the callbacks the reactor
    fires, recorded in order in a log.

    Operating-system calls are inputs: the results of `send` during a drain
    and the byte count `ioctl` reports on a read event. `epoll_ctl` is
    assumed to succeed; its effect is the connection's write-interest
    flag. */
module SocketTcp {
  import opened Ints
  import opened StringUtils
  import opened Results

  /** `WriteBufferInfo`: len bytes to send, pos of them sent so far, and the
      caller's tag (`customData`) that identifies the write in its
      callback. */
  datatype Buffer = Buffer(len: nat, pos: nat, tag: nat)
  {
    /** `getRemainingBufferSize()`: nothing once pos reaches len. */
    function Remaining(): (n: nat)
      ensures pos < len ==> n == len - pos
      ensures pos >= len ==> n == 0
    {
      if pos >= len then 0 else len - pos
    }

    /** `writeDone(amount)`: only pos advances. */
    function WriteDone(amount: nat): (b: Buffer)
      ensures b.len == len && b.tag == tag && b.pos == pos + amount
      ensures amount <= Remaining() ==> b.Remaining() == Remaining() - amount
    {
      Buffer(len, pos + amount, tag)
    }
  }

  /** A connection: its tag (`customData`), its write queue, front first,
      and whether it asked the poller for write readiness. */
  datatype Peer = Peer(tag: nat, queue: seq<Buffer>, writeInterest: bool)

  /** A callback the reactor fired. */
  datatype Event =
    | WriteFinished(result: Result, id: nat, tag: nat)
    | Closed(id: nat, tag: nat)
    | ReadAvailable(id: nat, count: nat, tag: nat)

  datatype Reactor = Reactor(peers: map<nat, Peer>, log: seq<Event>)

  /** What one `send` call returns during a drain. */
  datatype SendResult = Sent(count: nat) | SendFailed

  const SOCKET_ERROR := "socket_error"

  function ClosedError(): Result {
    Error(SOCKET_ERROR, "Could not send data, socket is closed", [])
  }

  function NotFound(id: nat): Result {
    Error(SOCKET_ERROR, "socket {} not found", [Dec(id)])
  }

  // ---------------------------------------------------------------------
  // Accounting of write callbacks

  /** The tags whose write callback fired for connection id, in order. */
  function Completed(log: seq<Event>, id: nat): seq<nat> {
    if |log| == 0 then []
    else
      var e := log[|log| - 1];
      Completed(log[..|log| - 1], id) + (if e.WriteFinished? && e.id == id then [e.tag] else [])
  }

  lemma {:induction false} CompletedAppend(a: seq<Event>, b: seq<Event>, id: nat)
    ensures Completed(a + b, id) == Completed(a, id) + Completed(b, id)
    decreases |b|
  {
    if |b| == 0 {
      assert a + b == a;
    } else {
      assert (a + b)[..|a + b| - 1] == a + b[..|b| - 1];
      CompletedAppend(a, b[..|b| - 1], id);
    }
  }

  function Tags(q: seq<Buffer>): (r: seq<nat>)
    ensures |r| == |q|
    ensures forall i | 0 <= i < |q| :: r[i] == q[i].tag
  {
    if |q| == 0 then [] else [q[0].tag] + Tags(q[1..])
  }

  /** The tags still queued on connection id. */
  function Pending(s: Reactor, id: nat): seq<nat> {
    if id in s.peers then Tags(s.peers[id].queue) else []
  }

  /** Every write call to id so far: those whose callback fired, then those
      still queued. */
  function Accounted(s: Reactor, id: nat): seq<nat> {
    Completed(s.log, id) + Pending(s, id)
  }

  /** A connection with queued buffers is waiting for write readiness. */
  predicate InterestKept(s: Reactor) {
    forall id | id in s.peers :: |s.peers[id].queue| > 0 ==> s.peers[id].writeInterest
  }

  // ---------------------------------------------------------------------
  // Operations

  /** The connection a successful `accept` registers, with the tag the
      accept callback chose. */
  function Accept(s: Reactor, id: nat, tag: nat): (r: Reactor)
    ensures r.peers == s.peers[id := Peer(tag, [], false)] && r.log == s.log
  {
    Reactor(s.peers[id := Peer(tag, [], false)], s.log)
  }

  /** `write(id, buffer, len, tag, callback)`. For an unknown id the callback
      fires at once with `invalid_socket_id` and `socket_error` is returned;
      otherwise the buffer joins the back of that connection's queue and
      write readiness is requested. */
  function Write(s: Reactor, id: nat, len: nat, tag: nat): (r: (Result, Reactor))
    ensures id !in s.peers ==> r.1.peers == s.peers
    ensures id !in s.peers ==> r.0 == Error(SOCKET_ERROR, "invalid socketId", [])
    ensures id !in s.peers ==>
      r.1.log == s.log + [WriteFinished(Error("invalid_socket_id", "invalid socket id {}", [Dec(id)]), id, tag)]
    ensures id in s.peers ==> r.0 == Ok() && r.1.log == s.log
    ensures id in s.peers ==> r.1.peers == s.peers[id := s.peers[id].(
      queue := s.peers[id].queue + [Buffer(len, 0, tag)], writeInterest := true)]
  {
    if id !in s.peers then
      var failed := WriteFinished(Error("invalid_socket_id", "invalid socket id {}", [Dec(id)]), id, tag);
      (Error(SOCKET_ERROR, "invalid socketId", []), Reactor(s.peers, s.log + [failed]))
    else
      var p := s.peers[id];
      (Ok(), Reactor(s.peers[id := p.(queue := p.queue + [Buffer(len, 0, tag)], writeInterest := true)], s.log))
  }

  /** The failure callbacks of buffers dropped by `close`, front first. */
  function FailAll(q: seq<Buffer>, id: nat): (r: seq<Event>)
    ensures |r| == |q|
    ensures forall i | 0 <= i < |q| :: r[i] == WriteFinished(ClosedError(), id, q[i].tag)
  {
    if |q| == 0 then [] else [WriteFinished(ClosedError(), id, q[0].tag)] + FailAll(q[1..], id)
  }

  /** `close(id)`: for a known id every queued buffer's callback fires with
      `socket_error` in queue order, the entry goes, and the close callback
      fires once with the connection's tag. An unknown id changes nothing. */
  function Close(s: Reactor, id: nat): (r: Reactor)
    ensures id !in r.peers
    ensures id !in s.peers ==> r == s
    ensures id in s.peers ==>
      r.log == s.log + FailAll(s.peers[id].queue, id) + [Closed(id, s.peers[id].tag)]
    ensures r.peers == s.peers - {id}
  {
    if id !in s.peers then s
    else
      var p := s.peers[id];
      Reactor(s.peers - {id}, s.log + FailAll(p.queue, id) + [Closed(id, p.tag)])
  }

  /** Closing twice is closing once. */
  lemma CloseIdempotent(s: Reactor, id: nat)
    ensures Close(Close(s, id), id) == Close(s, id)
  {
  }

  /** What a drain leaves: the state, the send results not used, whether a
      failed send closed the connection, and how many buffers were sent in
      full and popped. */
  datatype Drained = Drained(state: Reactor, sends: seq<SendResult>, closed: bool, popped: nat)

  /** The drain loop of the write-readiness branch of `select`, with n
      iterations left: each iteration works on the front buffer only,
      sending what remains of it (a send never takes more than it is
      offered), firing its success callback and popping it once nothing
      remains. A failed send closes the connection. Send results past the
      end of the script are sends that take nothing. Only connection id
      changes. */
  function DrainLoop(s: Reactor, id: nat, n: nat, sends: seq<SendResult>): (r: Drained)
    requires id in s.peers && n <= |s.peers[id].queue|
    ensures DrainedWithin(s, id, n, r)
    decreases n
  {
    if n == 0 then Drained(s, sends, false, 0)
    else
      var b := s.peers[id].queue[0];
      var send := if |sends| == 0 then Sent(0) else sends[0];
      var rest := if |sends| == 0 then [] else sends[1..];
      if b.Remaining() > 0 && send.SendFailed? then
        Drained(Close(s, id), rest, true, 0)
      else
        var b' := if b.Remaining() > 0 then b.WriteDone(Min(send.count, b.Remaining())) else b;
        var used := if b.Remaining() > 0 then rest else sends;
        var next := if b'.Remaining() == 0 then Pop(s, id) else Advance(s, id, b');
        var r := DrainLoop(next, id, n - 1, used);
        DrainedStep(s, next, id, n, r);
        if b'.Remaining() == 0 then r.(popped := r.popped + 1) else r
  }

  /** What n rounds of the drain loop may do: close connection id, or
      change only its queue, dropping at most n buffers from the front. */
  predicate DrainedWithin(s: Reactor, id: nat, n: nat, r: Drained) {
    && id in s.peers
    && (r.closed ==> r.state.peers == s.peers - {id})
    && (!r.closed ==>
      && id in r.state.peers
      && r.state.peers == s.peers[id := r.state.peers[id]]
      && r.state.peers[id].tag == s.peers[id].tag
      && r.state.peers[id].writeInterest == s.peers[id].writeInterest
      && |s.peers[id].queue| - n <= |r.state.peers[id].queue| <= |s.peers[id].queue|)
  }

  /** One round that changes only the queue of id, by at most one buffer,
      followed by n - 1 more rounds, is within n rounds. */
  lemma DrainedStep(s: Reactor, next: Reactor, id: nat, n: nat, r: Drained)
    requires id in s.peers && n > 0
    requires id in next.peers && next.peers == s.peers[id := next.peers[id]]
    requires next.peers[id].tag == s.peers[id].tag
    requires next.peers[id].writeInterest == s.peers[id].writeInterest
    requires |s.peers[id].queue| - 1 <= |next.peers[id].queue| <= |s.peers[id].queue|
    requires DrainedWithin(next, id, n - 1, r)
    ensures DrainedWithin(s, id, n, r)
  {
    if r.closed {
      assert next.peers - {id} == s.peers - {id};
    } else {
      assert s.peers[id := next.peers[id]][id := r.state.peers[id]] == s.peers[id := r.state.peers[id]];
    }
  }

  function Min(a: nat, b: nat): nat {
    if a <= b then a else b
  }

  /** The front buffer is done: its success callback fires and it leaves
      the queue. */
  function Pop(s: Reactor, id: nat): (r: Reactor)
    requires id in s.peers && |s.peers[id].queue| > 0
    ensures id in r.peers && r.peers == s.peers[id := s.peers[id].(queue := s.peers[id].queue[1..])]
    ensures r.log == s.log + [WriteFinished(Ok(), id, s.peers[id].queue[0].tag)]
  {
    var p := s.peers[id];
    Reactor(s.peers[id := p.(queue := p.queue[1..])], s.log + [WriteFinished(Ok(), id, p.queue[0].tag)])
  }

  /** The front buffer sent part of its bytes and stays at the front. */
  function Advance(s: Reactor, id: nat, b: Buffer): (r: Reactor)
    requires id in s.peers && |s.peers[id].queue| > 0
    ensures id in r.peers && r.peers == s.peers[id := s.peers[id].(queue := [b] + s.peers[id].queue[1..])]
    ensures r.log == s.log
  {
    var p := s.peers[id];
    Reactor(s.peers[id := p.(queue := [b] + p.queue[1..])], s.log)
  }

  /** One event appended to the log adds at most its own tag. */
  lemma CompletedOne(log: seq<Event>, e: Event, j: nat)
    ensures Completed(log + [e], j) == Completed(log, j) + (if e.WriteFinished? && e.id == j then [e.tag] else [])
  {
    assert (log + [e])[..|log + [e]| - 1] == log;
  }

  /** Popping moves the front tag from queued to completed. */
  lemma PopAccounts(s: Reactor, id: nat, j: nat)
    requires id in s.peers && |s.peers[id].queue| > 0
    ensures Accounted(Pop(s, id), j) == Accounted(s, j)
  {
    var q := s.peers[id].queue;
    var r := Pop(s, id);
    var c := Completed(s.log, j);
    var x := if j == id then [q[0].tag] else [];
    assert Completed(r.log, j) == c + x by {
      CompletedOne(s.log, WriteFinished(Ok(), id, q[0].tag), j);
    }
    PopPending(s, id, j);
    if j == id {
      TagsCons(q);
      AppendAssoc(c, x, Tags(q[1..]));
    } else {
      assert c + x == c;
    }
  }

  lemma PopPending(s: Reactor, id: nat, j: nat)
    requires id in s.peers && |s.peers[id].queue| > 0
    ensures Pending(Pop(s, id), j) == if j == id then Tags(s.peers[id].queue[1..]) else Pending(s, j)
  {
  }

  lemma TagsCons(q: seq<Buffer>)
    requires |q| > 0
    ensures Tags(q) == [q[0].tag] + Tags(q[1..])
  {
  }

  /** Advancing keeps the tags where they are. */
  lemma AdvanceAccounts(s: Reactor, id: nat, b: Buffer, j: nat)
    requires id in s.peers && |s.peers[id].queue| > 0 && b.tag == s.peers[id].queue[0].tag
    ensures Accounted(Advance(s, id, b), j) == Accounted(s, j)
  {
    var q := s.peers[id].queue;
    if j == id {
      assert ([b] + q[1..])[1..] == q[1..];
      assert Tags([b] + q[1..]) == [b.tag] + Tags(q[1..]);
      assert Tags(q) == [q[0].tag] + Tags(q[1..]);
    }
  }

  /** `close` moves the queued tags into the completed ones. */
  lemma CloseAccounts(s: Reactor, id: nat, j: nat)
    ensures Accounted(Close(s, id), j) == Accounted(s, j)
  {
    if id in s.peers {
      var p := s.peers[id];
      var r := Close(s, id);
      var f := FailAll(p.queue, id);
      var c := Completed(s.log, j);
      var x := if j == id then Tags(p.queue) else [];
      assert Completed(s.log + f + [Closed(id, p.tag)], j) == Completed(s.log + f, j) + [] by {
        CompletedOne(s.log + f, Closed(id, p.tag), j);
      }
      assert Completed(s.log + f, j) == c + x by {
        CompletedAppend(s.log, f, j);
        CompletedFailAll(p.queue, id, j);
      }
      if j == id {
        assert Pending(r, j) == [];
        assert c + x + [] + [] == c + x;
      } else {
        assert Pending(r, j) == Pending(s, j);
        assert c + x + [] == c;
      }
    }
  }

  /** The failure callbacks of close carry the queued tags, in order. */
  lemma {:induction false} CompletedFailAll(q: seq<Buffer>, id: nat, j: nat)
    ensures Completed(FailAll(q, id), j) == if j == id then Tags(q) else []
    decreases |q|
  {
    if |q| > 0 {
      var front := q[..|q| - 1];
      var last := q[|q| - 1];
      var e := WriteFinished(ClosedError(), id, last.tag);
      var x := if j == id then [last.tag] else [];
      assert FailAll(q, id) == FailAll(front, id) + [e] by {
        FailAllSnoc(q, id);
      }
      assert Completed(FailAll(front, id) + [e], j) == Completed(FailAll(front, id), j) + x by {
        CompletedOne(FailAll(front, id), e, j);
      }
      CompletedFailAll(front, id, j);
      if j == id {
        assert Tags(q) == Tags(front) + [last.tag];
      } else {
        assert [] + x == [];
      }
    }
  }

  lemma FailAllSnoc(q: seq<Buffer>, id: nat)
    requires |q| > 0
    ensures FailAll(q, id) == FailAll(q[..|q| - 1], id) + [WriteFinished(ClosedError(), id, q[|q| - 1].tag)]
  {
  }

  /** The drain loop completes buffers or closes, never losing or adding a
      write. */
  lemma {:induction false} DrainLoopAccounts(s: Reactor, id: nat, n: nat, sends: seq<SendResult>, j: nat)
    requires id in s.peers && n <= |s.peers[id].queue|
    ensures Accounted(DrainLoop(s, id, n, sends).state, j) == Accounted(s, j)
    decreases n
  {
    if n > 0 {
      var b := s.peers[id].queue[0];
      var send := if |sends| == 0 then Sent(0) else sends[0];
      var rest := if |sends| == 0 then [] else sends[1..];
      if b.Remaining() > 0 && send.SendFailed? {
        CloseAccounts(s, id, j);
      } else {
        var b' := if b.Remaining() > 0 then b.WriteDone(Min(send.count, b.Remaining())) else b;
        var used := if b.Remaining() > 0 then rest else sends;
        var s' := if b'.Remaining() == 0 then Pop(s, id) else Advance(s, id, b');
        if b'.Remaining() == 0 {
          PopAccounts(s, id, j);
        } else {
          AdvanceAccounts(s, id, b', j);
        }
        DrainLoopAccounts(s', id, n - 1, used, j);
      }
    }
  }

  /** The success callbacks of the buffers q, front first. */
  function Successes(q: seq<Buffer>, id: nat): (r: seq<Event>)
    ensures |r| == |q|
    ensures forall i | 0 <= i < |q| :: r[i] == WriteFinished(Ok(), id, q[i].tag)
  {
    if |q| == 0 then [] else [WriteFinished(Ok(), id, q[0].tag)] + Successes(q[1..], id)
  }

  /** The bytes still to send from the buffers q. */
  function Bytes(q: seq<Buffer>): nat {
    if |q| == 0 then 0 else q[0].Remaining() + Bytes(q[1..])
  }

  /** The bytes the send results report taken; a failed send takes none. */
  function Delivered(sends: seq<SendResult>): nat {
    if |sends| == 0 then 0 else (if sends[0].Sent? then sends[0].count else 0) + Delivered(sends[1..])
  }

  /** The callbacks a drain of connection id from s fires, given the send
      results it was offered: it uses a prefix of them; it closes exactly
      when one of those failed; the sends used carried at least every byte
      of the buffers it popped, which leave the queue from the front with
      one success callback each, in queue order; a close then fails the
      rest of the queue and fires the close callback. */
  predicate DrainLogged(s: Reactor, id: nat, sends: seq<SendResult>, r: Drained)
    requires id in s.peers
  {
    && UsedPrefix(sends, r)
    && (r.closed <==> SendFailed in Used(sends, r))
    && PoppedSent(s.peers[id].queue, sends, r)
    && PopsLogged(s, id, r)
  }

  /** The send results left over are what follows those used. */
  predicate UsedPrefix(sends: seq<SendResult>, r: Drained) {
    |r.sends| <= |sends| && r.sends == sends[|sends| - |r.sends|..]
  }

  /** The send results a drain used. */
  function Used(sends: seq<SendResult>, r: Drained): seq<SendResult>
    requires UsedPrefix(sends, r)
  {
    sends[..|sends| - |r.sends|]
  }

  /** The popped buffers come from the front of q, and the sends used
      carried at least all their bytes. */
  predicate PoppedSent(q: seq<Buffer>, sends: seq<SendResult>, r: Drained)
    requires UsedPrefix(sends, r)
  {
    r.popped <= |q| && Bytes(q[..r.popped]) <= Delivered(Used(sends, r))
  }

  /** The log gains one success callback per popped buffer, in queue order,
      then, on a close, the failure callbacks of the rest of the queue and
      the close callback; without a close the popped buffers have left the
      queue. */
  predicate PopsLogged(s: Reactor, id: nat, r: Drained)
    requires id in s.peers
  {
    var q := s.peers[id].queue;
    && r.popped <= |q|
    && (r.closed ==>
      r.state.log == s.log + Successes(q[..r.popped], id) + FailAll(q[r.popped..], id) + [Closed(id, s.peers[id].tag)])
    && (!r.closed ==>
      && id in r.state.peers && |r.state.peers[id].queue| == |q| - r.popped
      && r.state.log == s.log + Successes(q[..r.popped], id))
  }

  /** The drain loop fires the callbacks `DrainLogged` describes. */
  lemma {:induction false} DrainLoopLogged(s: Reactor, id: nat, n: nat, sends: seq<SendResult>)
    requires id in s.peers && n <= |s.peers[id].queue|
    ensures DrainLogged(s, id, sends, DrainLoop(s, id, n, sends))
    decreases n
  {
    if n == 0 {
      assert sends[|sends|..] == [] && s.peers[id].queue[..0] == [];
    } else {
      var b := s.peers[id].queue[0];
      var send := if |sends| == 0 then Sent(0) else sends[0];
      var rest := if |sends| == 0 then [] else sends[1..];
      if b.Remaining() > 0 && send.SendFailed? {
        ClosedLogged(s, id, sends, rest);
      } else {
        var b' := if b.Remaining() > 0 then b.WriteDone(Min(send.count, b.Remaining())) else b;
        var used := if b.Remaining() > 0 then rest else sends;
        var next := if b'.Remaining() == 0 then Pop(s, id) else Advance(s, id, b');
        var taken := if b.Remaining() > 0 && |sends| > 0 then [sends[0]] else [];
        assert sends == taken + used;
        DrainLoopLogged(next, id, n - 1, used);
        StepLogged(s, id, b', taken, used, next, DrainLoop(next, id, n - 1, used));
      }
    }
  }

  /** A first send that fails closes the connection with nothing popped. */
  lemma ClosedLogged(s: Reactor, id: nat, sends: seq<SendResult>, rest: seq<SendResult>)
    requires id in s.peers && |sends| > 0 && sends[0] == SendFailed && rest == sends[1..]
    ensures DrainLogged(s, id, sends, Drained(Close(s, id), rest, true, 0))
  {
    var q := s.peers[id].queue;
    assert sends[..|sends| - |rest|] == [SendFailed];
    assert sends[|sends| - |rest|..] == rest;
    assert q[..0] == [] && q[0..] == q;
  }

  /** One round that sent the front buffer's bytes through the send results
      taken, leaving it as b', followed by a drain of the rest. */
  lemma StepLogged(s: Reactor, id: nat, b': Buffer, taken: seq<SendResult>, used: seq<SendResult>,
                   next: Reactor, r: Drained)
    requires id in s.peers && |s.peers[id].queue| > 0 && b'.tag == s.peers[id].queue[0].tag
    requires SendFailed !in taken
    requires b'.Remaining() == 0 ==> s.peers[id].queue[0].Remaining() <= Delivered(taken)
    requires b'.Remaining() > 0 ==> s.peers[id].queue[0].Remaining() <= b'.Remaining() + Delivered(taken)
    requires next == if b'.Remaining() == 0 then Pop(s, id) else Advance(s, id, b')
    requires DrainLogged(next, id, used, r)
    ensures DrainLogged(s, id, taken + used, if b'.Remaining() == 0 then r.(popped := r.popped + 1) else r)
  {
    var q := s.peers[id].queue;
    StepSends(q[0], b', taken, used, r);
    FrontLogged(s, id, b', next, r);
    StepBytes(q, next.peers[id].queue, b', Delivered(taken), Delivered(Used(used, r)), r.popped);
  }

  /** The log of one round that popped or advanced the front buffer,
      followed by a drain of the rest. */
  lemma FrontLogged(s: Reactor, id: nat, b': Buffer, next: Reactor, r: Drained)
    requires id in s.peers && |s.peers[id].queue| > 0 && b'.tag == s.peers[id].queue[0].tag
    requires next == if b'.Remaining() == 0 then Pop(s, id) else Advance(s, id, b')
    requires PopsLogged(next, id, r)
    ensures PopsLogged(s, id, if b'.Remaining() == 0 then r.(popped := r.popped + 1) else r)
    ensures b'.Remaining() == 0 ==> next.peers[id].queue == s.peers[id].queue[1..]
    ensures b'.Remaining() > 0 ==> next.peers[id].queue == [b'] + s.peers[id].queue[1..]
  {
    if b'.Remaining() == 0 {
      PopLogged(s, id, next, r);
    } else {
      AdvanceLogged(s, id, b', next, r);
    }
  }

  /** The bytes of the buffers popped by one round followed by a drain are
      covered by the bytes its sends took, given that the drain's sends
      covered those it popped. */
  lemma StepBytes(q: seq<Buffer>, q': seq<Buffer>, b': Buffer, taken: nat, used: nat, p: nat)
    requires |q| > 0
    requires b'.Remaining() == 0 ==> q' == q[1..] && q[0].Remaining() <= taken
    requires b'.Remaining() > 0 ==> q' == [b'] + q[1..] && q[0].Remaining() <= b'.Remaining() + taken
    requires p <= |q'| && Bytes(q'[..p]) <= used
    ensures b'.Remaining() == 0 ==> p + 1 <= |q| && Bytes(q[..p + 1]) <= taken + used
    ensures b'.Remaining() > 0 ==> p <= |q| && Bytes(q[..p]) <= taken + used
  {
    if b'.Remaining() == 0 {
      FrontSplit(q, p, 0);
    } else {
      BytesAdvanced(q, q', p);
    }
  }

  /** The send results used by one round followed by a drain. */
  lemma StepSends(b: Buffer, b': Buffer, taken: seq<SendResult>, used: seq<SendResult>, r: Drained)
    requires SendFailed !in taken
    requires UsedPrefix(used, r) && (r.closed <==> SendFailed in Used(used, r))
    ensures var r' := if b'.Remaining() == 0 then r.(popped := r.popped + 1) else r;
      && UsedPrefix(taken + used, r')
      && Used(taken + used, r') == taken + Used(used, r)
      && (r'.closed <==> SendFailed in Used(taken + used, r'))
      && Delivered(Used(taken + used, r')) == Delivered(taken) + Delivered(Used(used, r))
  {
    var u := |used| - |r.sends|;
    assert (taken + used)[..|taken + used| - |r.sends|] == taken + used[..u];
    assert (taken + used)[|taken + used| - |r.sends|..] == used[u..];
    DeliveredAppend(taken, used[..u]);
  }

  /** Popping the front buffer adds its success callback ahead of those
      the drain of the rest fires. */
  lemma PopLogged(s: Reactor, id: nat, next: Reactor, r: Drained)
    requires id in s.peers && |s.peers[id].queue| > 0 && next == Pop(s, id)
    requires PopsLogged(next, id, r)
    ensures PopsLogged(s, id, r.(popped := r.popped + 1))
  {
    var q := s.peers[id].queue;
    var p := r.popped;
    var w := WriteFinished(Ok(), id, q[0].tag);
    assert next.peers[id].queue == q[1..] && next.log == s.log + [w];
    FrontSplit(q, p, id);
    AppendAssoc(s.log, [w], Successes(q[1..][..p], id));
  }

  /** Advancing the front buffer keeps every callback the drain of the rest
      fires. */
  lemma AdvanceLogged(s: Reactor, id: nat, b': Buffer, next: Reactor, r: Drained)
    requires id in s.peers && |s.peers[id].queue| > 0 && b'.tag == s.peers[id].queue[0].tag
    requires next == Advance(s, id, b')
    requires PopsLogged(next, id, r)
    ensures PopsLogged(s, id, r)
  {
    var q := s.peers[id].queue;
    assert next.peers[id].queue == [b'] + q[1..] && next.log == s.log;
    SameTags(q, [b'] + q[1..], r.popped, id);
  }

  /** The first p + 1 buffers of q are its front followed by the first p of
      the rest. */
  lemma FrontSplit(q: seq<Buffer>, p: nat, id: nat)
    requires p < |q|
    ensures Successes(q[..p + 1], id) == [WriteFinished(Ok(), id, q[0].tag)] + Successes(q[1..][..p], id)
    ensures Bytes(q[..p + 1]) == q[0].Remaining() + Bytes(q[1..][..p])
    ensures q[p + 1..] == q[1..][p..]
  {
    assert q[..p + 1][1..] == q[1..][..p];
  }

  /** Buffers that differ only in the front one's progress have the same
      callbacks. */
  lemma SameTags(q: seq<Buffer>, q': seq<Buffer>, p: nat, id: nat)
    requires |q| == |q'| && p <= |q| && 0 < |q|
    requires q'[0].tag == q[0].tag && q'[1..] == q[1..]
    ensures Successes(q'[..p], id) == Successes(q[..p], id)
    ensures FailAll(q'[p..], id) == FailAll(q[p..], id)
  {
  }

  /** Advancing the front buffer takes its sent bytes off the total. */
  lemma BytesAdvanced(q: seq<Buffer>, q': seq<Buffer>, p: nat)
    requires |q| == |q'| && p <= |q| && 0 < |q|
    requires q'[1..] == q[1..]
    ensures p > 0 ==> Bytes(q[..p]) == q[0].Remaining() - q'[0].Remaining() + Bytes(q'[..p])
    ensures p == 0 ==> Bytes(q[..p]) == 0
  {
    if p > 0 {
      assert q[..p][1..] == q'[..p][1..];
    }
  }

  lemma {:induction false} DeliveredAppend(a: seq<SendResult>, b: seq<SendResult>)
    ensures Delivered(a + b) == Delivered(a) + Delivered(b)
    decreases |a|
  {
    if |a| > 0 {
      assert (a + b)[1..] == a[1..] + b;
      DeliveredAppend(a[1..], b);
    } else {
      assert a + b == b;
    }
  }

  /** The write-readiness branch of `select` for connection id: an unknown
      id is an error; otherwise the drain loop runs once per buffer queued
      when it starts, and a queue left empty switches the connection back
      to read readiness only. */
  function Drain(s: Reactor, id: nat, sends: seq<SendResult>): (r: (Result, Reactor))
    ensures id !in s.peers ==> r == (NotFound(id), s)
    ensures id in s.peers ==> r.0 == Ok()
    ensures r.1.peers - {id} == s.peers - {id}
    ensures id in r.1.peers ==> id in s.peers && r.1.peers[id].tag == s.peers[id].tag
    ensures id in r.1.peers && |r.1.peers[id].queue| == 0 ==> !r.1.peers[id].writeInterest
    ensures id in r.1.peers && InterestKept(s) ==> (r.1.peers[id].writeInterest <==> |r.1.peers[id].queue| > 0)
  {
    if id !in s.peers then (NotFound(id), s)
    else
      var d := DrainLoop(s, id, |s.peers[id].queue|, sends);
      if d.closed then (Ok(), d.state)
      else
        var p := d.state.peers[id];
        if |p.queue| == 0 then (Ok(), Reactor(d.state.peers[id := p.(writeInterest := false)], d.state.log))
        else (Ok(), d.state)
  }

  /** A drain never loses or adds a write. */
  lemma DrainAccounts(s: Reactor, id: nat, sends: seq<SendResult>, j: nat)
    ensures Accounted(Drain(s, id, sends).1, j) == Accounted(s, j)
  {
    if id in s.peers {
      DrainLoopAccounts(s, id, |s.peers[id].queue|, sends, j);
      var d := DrainLoop(s, id, |s.peers[id].queue|, sends);
      if !d.closed {
        assert Pending(Drain(s, id, sends).1, j) == Pending(d.state, j);
      }
    }
  }

  /** The callbacks a drain fires: while no send fails, one success
      callback per buffer sent in full, in queue order, with those buffers
      gone from the front of the queue and their bytes all reported sent;
      a failed send closes the connection, after success callbacks for the
      buffers sent before it, failure callbacks for the rest and the close
      callback. */
  lemma DrainLogs(s: Reactor, id: nat, sends: seq<SendResult>)
    requires id in s.peers
    ensures UsedPrefix(sends, DrainLoop(s, id, |s.peers[id].queue|, sends))
    ensures var q, r := s.peers[id].queue, Drain(s, id, sends).1;
      id in r.peers ==>
        && |r.peers[id].queue| <= |q|
        && r.log == s.log + Successes(q[..|q| - |r.peers[id].queue|], id)
        && Bytes(q[..|q| - |r.peers[id].queue|]) <= Delivered(sends)
    ensures id !in Drain(s, id, sends).1.peers <==> SendFailed in Used(sends, DrainLoop(s, id, |s.peers[id].queue|, sends))
    ensures SendFailed !in sends ==> id in Drain(s, id, sends).1.peers
    ensures var q, r := s.peers[id].queue, Drain(s, id, sends).1;
      id !in r.peers ==> exists p | 0 <= p <= |q| ::
        r.log == s.log + Successes(q[..p], id) + FailAll(q[p..], id) + [Closed(id, s.peers[id].tag)]
  {
    var q := s.peers[id].queue;
    var d := DrainLoop(s, id, |q|, sends);
    DrainLoopLogged(s, id, |q|, sends);
    var used := Used(sends, d);
    assert sends == used + d.sends;
    DeliveredAppend(used, d.sends);
    if d.closed {
      assert d.state.log == s.log + Successes(q[..d.popped], id) + FailAll(q[d.popped..], id) + [Closed(id, s.peers[id].tag)];
    }
  }

  /** Every operation keeps queued connections waiting for write
      readiness. */
  lemma DrainInterest(s: Reactor, id: nat, sends: seq<SendResult>)
    requires InterestKept(s)
    ensures InterestKept(Drain(s, id, sends).1)
  {
    var r := Drain(s, id, sends).1;
    forall k | k in r.peers
      ensures |r.peers[k].queue| > 0 ==> r.peers[k].writeInterest
    {
      if k != id {
        assert k in r.peers - {id};
        assert r.peers[k] == (r.peers - {id})[k];
      }
    }
  }

  /** The read-readiness branch of `select` for a connected peer: zero
      bytes available means the peer hung up and the connection is closed;
      otherwise the read callback fires with the count. */
  function ReadReady(s: Reactor, id: nat, count: nat): (r: (Result, Reactor))
    ensures id !in s.peers ==> r == (NotFound(id), s)
    ensures id in s.peers && count == 0 ==> r == (Ok(), Close(s, id))
    ensures id in s.peers && count > 0 ==>
      r == (Ok(), Reactor(s.peers, s.log + [ReadAvailable(id, count, s.peers[id].tag)]))
  {
    if id !in s.peers then (NotFound(id), s)
    else if count == 0 then (Ok(), Close(s, id))
    else (Ok(), Reactor(s.peers, s.log + [ReadAvailable(id, count, s.peers[id].tag)]))
  }

  /** `terminate()`: closes connections until none is left. The order of an
      `unordered_map` is not specified, so any order is taken. */
  method Terminate(s: Reactor) returns (r: Reactor)
    ensures r.peers == map[]
    ensures forall j :: Completed(r.log, j) == Accounted(s, j)
  {
    r := s;
    while r.peers != map[]
      invariant forall j :: Accounted(r, j) == Accounted(s, j)
      decreases |r.peers.Keys|
    {
      var id :| id in r.peers;
      var next := Close(r, id);
      forall j
        ensures Accounted(next, j) == Accounted(s, j)
      {
        CloseAccounts(r, id, j);
      }
      assert next.peers.Keys == r.peers.Keys - {id};
      r := next;
    }
    forall j
      ensures Completed(r.log, j) == Accounted(s, j)
    {
      assert Accounted(r, j) == Completed(r.log, j) + [];
    }
  }

  // ---------------------------------------------------------------------
  // Traces

  /** One thing that happens to the reactor. */
  datatype Op =
    | AcceptOp(id: nat, tag: nat)
    | WriteOp(id: nat, len: nat, tag: nat)
    | CloseOp(id: nat)
    | DrainOp(id: nat, sends: seq<SendResult>)
    | ReadOp(id: nat, count: nat)

  function Step(s: Reactor, op: Op): Reactor {
    match op
    case AcceptOp(id, tag) => Accept(s, id, tag)
    case WriteOp(id, len, tag) => Write(s, id, len, tag).1
    case CloseOp(id) => Close(s, id)
    case DrainOp(id, sends) => Drain(s, id, sends).1
    case ReadOp(id, count) => ReadReady(s, id, count).1
  }

  function Run(s: Reactor, ops: seq<Op>): Reactor
    decreases |ops|
  {
    if |ops| == 0 then s else Run(Step(s, ops[0]), ops[1..])
  }

  /** The tags of the write calls to id in a trace, in call order. */
  function WritesTo(ops: seq<Op>, id: nat): seq<nat> {
    if |ops| == 0 then []
    else (if ops[0].WriteOp? && ops[0].id == id then [ops[0].tag] else []) + WritesTo(ops[1..], id)
  }

  /** No accept reuses a connection that is still open: the operating
      system never hands out a descriptor that is in use. */
  predicate FreshAccepts(s: Reactor, ops: seq<Op>)
    decreases |ops|
  {
    |ops| == 0 || ((ops[0].AcceptOp? ==> ops[0].id !in s.peers) && FreshAccepts(Step(s, ops[0]), ops[1..]))
  }

  /** A write call adds its tag to the accounted ones of its connection. */
  lemma WriteAccounts(s: Reactor, id: nat, len: nat, tag: nat, j: nat)
    ensures Accounted(Write(s, id, len, tag).1, j) == Accounted(s, j) + (if id == j then [tag] else [])
  {
    var r := Write(s, id, len, tag).1;
    if id !in s.peers {
      var e := WriteFinished(Error("invalid_socket_id", "invalid socket id {}", [Dec(id)]), id, tag);
      assert r.log == s.log + [e] && r.peers == s.peers;
      LogOneAccounts(s, r, e, j);
    } else if j == id {
      QueuedAccounts(s, r, id, Buffer(len, 0, tag));
    } else {
      assert j in r.peers <==> j in s.peers;
      assert j in s.peers ==> r.peers[j] == s.peers[j];
      assert Pending(r, j) == Pending(s, j);
    }
  }

  /** An event appended to the log, the connections unchanged. */
  lemma LogOneAccounts(s: Reactor, r: Reactor, e: Event, j: nat)
    requires r.log == s.log + [e] && r.peers == s.peers
    requires e.WriteFinished? ==> e.id !in s.peers
    ensures Accounted(r, j) == Accounted(s, j) + (if e.WriteFinished? && e.id == j then [e.tag] else [])
  {
    var c, p := Completed(s.log, j), Pending(s, j);
    var x := if e.WriteFinished? && e.id == j then [e.tag] else [];
    assert Completed(r.log, j) == c + x by {
      CompletedOne(s.log, e, j);
    }
    assert Pending(r, j) == p;
    if x == [] {
      assert c + x == c;
      assert p + x == p;
    } else {
      assert p == [];
      assert c + x + p == c + x;
      assert c + p == c;
    }
  }

  /** A buffer queued at the back of connection id, the log unchanged. */
  lemma QueuedAccounts(s: Reactor, r: Reactor, id: nat, b: Buffer)
    requires id in s.peers && r.log == s.log
    requires r.peers == s.peers[id := s.peers[id].(queue := s.peers[id].queue + [b], writeInterest := true)]
    ensures Accounted(r, id) == Accounted(s, id) + [b.tag]
  {
    var q := s.peers[id].queue;
    assert Pending(r, id) == Tags(q + [b]);
    assert Tags(q + [b]) == Tags(q) + [b.tag];
  }

  /** A read event adds no write. */
  lemma ReadAccounts(s: Reactor, id: nat, count: nat, j: nat)
    ensures Accounted(ReadReady(s, id, count).1, j) == Accounted(s, j)
  {
    if id in s.peers {
      if count == 0 {
        CloseAccounts(s, id, j);
      } else {
        CompletedOne(s.log, ReadAvailable(id, count, s.peers[id].tag), j);
      }
    }
  }

  /** One step: a write call adds its tag to the accounted ones of its
      connection, everything else only moves tags from queued to
      completed. */
  lemma StepAccounts(s: Reactor, op: Op, j: nat)
    requires op.AcceptOp? ==> op.id !in s.peers
    ensures Accounted(Step(s, op), j) ==
      Accounted(s, j) + (if op.WriteOp? && op.id == j then [op.tag] else [])
  {
    match op
    case AcceptOp(id, tag) =>
      assert Pending(Step(s, op), j) == Pending(s, j);
    case WriteOp(id, len, tag) =>
      WriteAccounts(s, id, len, tag, j);
    case CloseOp(id) =>
      CloseAccounts(s, id, j);
    case DrainOp(id, sends) =>
      DrainAccounts(s, id, sends, j);
    case ReadOp(id, count) =>
      ReadAccounts(s, id, count, j);
  }

  /** Over any trace, every write call is accounted for exactly once and in
      call order: the tags whose callback fired, followed by those still
      queued, are the tags written. */
  lemma {:induction false} RunAccounts(s: Reactor, ops: seq<Op>, j: nat)
    requires FreshAccepts(s, ops)
    ensures Accounted(Run(s, ops), j) == Accounted(s, j) + WritesTo(ops, j)
    decreases |ops|
  {
    if |ops| > 0 {
      var s' := Step(s, ops[0]);
      var added := if ops[0].WriteOp? && ops[0].id == j then [ops[0].tag] else [];
      StepAccounts(s, ops[0], j);
      RunAccounts(s', ops[1..], j);
      assert Run(s, ops) == Run(s', ops[1..]);
      assert WritesTo(ops, j) == added + WritesTo(ops[1..], j);
      AppendAssoc(Accounted(s, j), added, WritesTo(ops[1..], j));
    }
  }

  /** Queued connections wait for write readiness after every step. */
  lemma StepInterest(s: Reactor, op: Op)
    requires InterestKept(s)
    ensures InterestKept(Step(s, op))
  {
    if op.DrainOp? {
      DrainInterest(s, op.id, op.sends);
    }
  }

  /** From a reactor with nothing written yet, once `terminate` has run,
      the write callbacks of each connection fired exactly for the write
      calls made to it, once each and in call order. */
  method RunThenTerminate(s: Reactor, ops: seq<Op>) returns (r: Reactor)
    requires FreshAccepts(s, ops)
    requires forall j :: Accounted(s, j) == []
    ensures r.peers == map[]
    ensures forall j :: Completed(r.log, j) == WritesTo(ops, j)
  {
    var t := Run(s, ops);
    forall j
      ensures Accounted(t, j) == WritesTo(ops, j)
    {
      RunAccounts(s, ops, j);
    }
    r := Terminate(t);
  }
}
