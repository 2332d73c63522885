/** connectChat: requests over one web socket, driven by events. */
module UiClient {
  import opened Options
  import opened OrderedMap
  import opened UiIds
  import opened UiCalls

  /** The WebSocket.  Only the client writes to it; the network may drain it and change
      its state between handlers, and send may throw. */
  class Socket {
    var open: bool
    var buffered: nat
    var log: seq<Sent>

    constructor ()
      ensures !open && buffered == 0 && log == []
    {
      open, buffered, log := false, 0, [];
    }

    method Send(s: Sent) returns (threw: bool)
      modifies this
      ensures open == old(open)
      ensures buffered == old(buffered) + (if threw then 0 else s.payload.size)
      ensures log == old(log) + (if threw then [] else [s])
    {
      threw := *;
      if !threw {
        buffered := buffered + s.payload.size;
        log := log + [s];
      }
    }

    method Close()
      modifies `open
      ensures !open
    {
      open := false;
    }
  }

  /** A message event, as far as the listener tells messages apart.  An id that is not
      a number is never in the pending map and counts as none. */
  datatype ServerMessage = Garbage | Ready | Event | Response(id: Option<nat>, ok: bool) | Error(id: Option<nat>) | Other

  datatype Happening = Calling(op: string, fields: string, sizeOf: nat -> Option<nat>)
                     | Message(m: ServerMessage) | TimerFires(handle: nat) | ConnectTimerFires
                     | SocketErrs | SocketCloses | Closing | Network(drained: nat, open: bool)

  datatype Readiness = Waiting | Fulfilled | Failed

  datatype Answer = Promise(call: nat) | Refused(reason: Reason)

  /** Why a request of some size is not admitted: stringify threw, it can never fit, or
      it does not fit now. */
  function Refusal(size: Option<nat>, taken: nat, maxBytes: nat): (r: Option<Reason>)
    ensures r.None? <==> size.Some? && taken + size.value <= maxBytes
    ensures r == Some(NotSerializable) <==> size.None?
    ensures r == Some(TooLarge) <==> size.Some? && size.value > maxBytes
    ensures r == Some(Backpressure) <==> size.Some? && size.value <= maxBytes < taken + size.value
  {
    if size.None? then Some(NotSerializable)
    else if size.value > maxBytes then Some(TooLarge)
    else if taken + size.value > maxBytes then Some(Backpressure)
    else None
  }

  lemma Wholly<T>(a: seq<T>, b: seq<T>)
    ensures a[..|a|] == a && b[..|b|] == b
  {
  }

  predicate LegalLimit(n: nat) { 1 <= n <= 2147483647 }

  class ChatClient {
    const maxPending: nat
    const maxBytes: nat
    const socket: Socket
    var pending: Entries<nat, Item>
    var queuedBytes: int
    var counter: nat
    var closed: bool
    var initialized: bool
    var connecting: bool
    var ready: Readiness
    var timers: map<nat, nat>
    var nextTimer: nat
    // the promises handed out, and how each ended
    var admitted: seq<Ticket>
    var settled: seq<Settlement>

    ghost function View(): Book reads this, socket {
      Book(pending, queuedBytes, timers, nextTimer, socket.buffered, socket.log, admitted, settled)
    }

    ghost predicate Holds() reads this, socket {
      && LegalLimit(maxPending) && LegalLimit(maxBytes) && counter <= MAX_ID
      && Sound(View(), maxPending, maxBytes)
    }

    /** True before and after every handler. */
    ghost predicate Valid() reads this, socket {
      && Holds()
      && (if initialized then AllSent(pending) else socket.log == [])
      && (closed ==> pending == [])
      && connecting == (!closed && !initialized)
      && ready == if initialized then Fulfilled else if closed then Failed else Waiting
    }

    /** What has been settled, sent or admitted stays so. */
    twostate predicate Grows() reads this, socket {
      && old(settled) <= settled && old(socket.log) <= socket.log && old(admitted) <= admitted
      && (old(closed) ==> closed) && (old(initialized) ==> initialized)
    }

    constructor (maxPending: nat, maxBytes: nat)
      requires LegalLimit(maxPending) && LegalLimit(maxBytes)
      ensures Valid() && fresh(socket) && !closed && !initialized && pending == [] && admitted == []
      ensures this.maxPending == maxPending && this.maxBytes == maxBytes
    {
      this.maxPending, this.maxBytes := maxPending, maxBytes;
      socket := new Socket();
      pending, queuedBytes, counter := [], 0, 0;
      closed, initialized, connecting, ready := false, false, true, Waiting;
      timers, nextTimer := map[], 0;
      admitted, settled := [], [];
      new;
      EmptySound(View(), maxPending, maxBytes);
    }

    method Settle(id: nat, outcome: Outcome)
      requires Has(pending, id) ==> Consistent(View(), id, Find(pending, id).value)
      modifies `pending, `queuedBytes, `timers, `settled
      ensures var at := Find(old(pending), id);
              View() == if at.None? then old(View()) else Settled(old(View()), at.value, outcome)
      ensures Has(old(pending), id) ==>
                && settled == old(settled) + [Settlement(Get(old(pending), id).value.call, outcome)]
                && pending == Delete(old(pending), id) && timers == old(timers) - {Get(old(pending), id).value.timer}
    {
      var at := Find(pending, id);
      if at.None? {
        return;
      }
      var item := pending[at.value].1;
      pending := Delete(pending, id);
      if !item.sent {
        queuedBytes := queuedBytes - item.payload.value.size;
      }
      timers := timers - {item.timer};
      settled := settled + [Settlement(item.call, outcome)];
    }

    /** The request at i goes to the socket, or is rejected because the socket is not
        open or throws; there is always room for it. */
    method SendPending(id: nat, ghost i: nat) returns (threw: bool)
      requires Consistent(View(), id, i) && socket.buffered + Held(pending[i].1) <= maxBytes
      modifies `pending, `queuedBytes, `timers, `settled, socket
      ensures socket.open == old(socket.open)
      ensures View() == Tried(old(View()), i, closed || !old(socket.open), threw)
    {
      threw := false;
      var at := Find(pending, id).value;
      var item := pending[at].1;
      if item.sent {
        return;
      }
      ghost var entries := pending;
      var error: Option<Reason> := None;
      if closed || !socket.open {
        error := Some(SocketClosed);
      } else if socket.buffered + item.payload.value.size > maxBytes {
        error := Some(Backpressure);
      } else {
        var payload := item.payload.value;
        queuedBytes := queuedBytes - payload.size;
        pending := pending[at := (id, item.(payload := None, sent := true))];
        threw := socket.Send(Sent(item.call, payload));
        error := if threw then Some(SendThrew) else None;
      }
      if error.Some? {
        FindIs(pending, id, i);
        Settle(id, Rejected(error.value));
        assert pending == Cut(entries, i);
      }
    }

    /** Every pending request is rejected, in the order of admission. */
    method Finish(reason: Reason)
      requires Valid() && reason != Backpressure
      modifies this
      ensures Valid() && Grows() && closed && initialized == old(initialized)
      ensures old(closed) ==> View() == old(View())
      ensures pending == [] && settled == old(settled) + Rejections(old(pending), reason)
      ensures admitted == old(admitted) && counter == old(counter)
    {
      if closed {
        return;
      }
      closed := true;
      connecting := false;
      ready := if ready.Waiting? then Failed else ready;
      var entries := pending;
      for k := 0 to |entries|
        invariant Sound(View(), maxPending, maxBytes) && Emptied(old(View()), k, reason, View())
        invariant closed && !connecting && initialized == old(initialized)
        invariant ready == if initialized then Fulfilled else Failed
        invariant admitted == old(admitted) && counter == old(counter)
      {
        EmptiedStep(old(View()), k, reason, View(), maxPending, maxBytes);
        Settle(entries[k].0, Rejected(reason));
      }
      assert entries[..|entries|] == entries;
    }

    method Fail(reason: Reason)
      requires Valid() && reason != Backpressure
      modifies this, socket`open
      ensures Valid() && Grows() && closed && initialized == old(initialized)
      ensures socket.open == (old(closed) && old(socket.open))
      ensures admitted == old(admitted) && counter == old(counter)
      ensures settled == old(settled) + Rejections(old(pending), reason)
    {
      if closed {
        return;
      }
      Finish(reason);
      socket.Close();
    }

    /** The ready message arrives: everything queued goes out, in order, when the socket
        is open and nothing throws. */
    method Flush() returns (threw: bool)
      requires Sound(View(), maxPending, maxBytes) && !closed && AllWaiting(pending) && socket.log == []
      modifies `pending, `queuedBytes, `timers, `settled, socket
      ensures socket.open == old(socket.open)
      ensures Flushed(old(View()), |old(pending)|, |pending|, !socket.open, !threw, View())
      ensures Sound(View(), maxPending, maxBytes)
    {
      threw := false;
      var entries := pending;
      ghost var n := 0;
      for k := 0 to |entries|
        invariant socket.open == old(socket.open)
        invariant Sound(View(), maxPending, maxBytes) && Flushed(old(View()), k, n, !socket.open, !threw, View())
      {
        FlushedNext(old(View()), k, n, !socket.open, !threw, View(), maxPending, maxBytes);
        ghost var b, clean := View(), !threw;
        var t := SendPending(entries[k].0, n);
        FlushedStep(old(View()), k, n, !socket.open, clean, b, t, maxPending, maxBytes);
        n := if !socket.open || t then n else n + 1;
        threw := threw || t;
      }
    }

    /** The message listener. */
    method OnMessage(m: ServerMessage) returns (threw: bool)
      requires Valid()
      modifies this, socket
      ensures Valid() && Grows() && admitted == old(admitted) && counter == old(counter)
      ensures old(closed) || m in {Garbage, Event, Other} || (m.Ready? && old(initialized)) ==> View() == old(View())
      ensures m.Ready? && !old(closed) ==> initialized && !closed
      ensures m.Ready? && !old(closed) && !old(initialized) ==>
                && AllWaiting(old(pending))
                && (old(socket.open) && !threw ==> settled == old(settled) && SameIds(pending, old(pending))
                                                   && socket.log == Outgoing(old(pending)))
                && (!old(socket.open) ==> pending == [] && socket.log == []
                                          && settled == old(settled) + Rejections(old(pending), SocketClosed))
      ensures m.Error? && !old(closed) && !old(initialized) ==>
                closed && !socket.open && settled == old(settled) + Rejections(old(pending), HandshakeRejected)
      ensures (m.Response? || (m.Error? && old(initialized))) && !old(closed) ==>
                && closed == old(closed) && initialized == old(initialized)
                && if m.id.None? || !Has(old(pending), m.id.value) then View() == old(View())
                   else
                     && View() == Settled(old(View()), Find(old(pending), m.id.value).value,
                                          if m.Response? && m.ok then Resolved(m.id.value) else ServerError(m.id.value))
                     && pending == Delete(old(pending), m.id.value)
                     && settled == old(settled) + [Settlement(Get(old(pending), m.id.value).value.call,
                                                             if m.Response? && m.ok then Resolved(m.id.value)
                                                             else ServerError(m.id.value))]
    {
      threw := false;
      if closed || m.Garbage? {
        return;
      }
      if m.Ready? && !initialized {
        NothingSent(View(), maxPending, maxBytes);
        initialized := true;
        connecting := false;
        ready := if ready.Waiting? then Fulfilled else ready;
        threw := Flush();
        Wholly(old(pending), pending);
      } else if m.Event? {
        return;
      } else if !initialized && m.Error? {
        Fail(HandshakeRejected);
      } else if (m.Response? || m.Error?) && m.id.Some? && Has(pending, m.id.value) {
        ghost var i := Find(pending, m.id.value).value;
        ghost var outcome := if m.Response? && m.ok then Resolved(m.id.value) else ServerError(m.id.value);
        SoundIsConsistent(View(), maxPending, maxBytes, i);
        SettledSound(View(), maxPending, maxBytes, i, outcome);
        Settle(m.id.value, if m.Response? && m.ok then Resolved(m.id.value) else ServerError(m.id.value));
      }
    }

    /** A request timer fires: it settles the one call it was started for, although its
        id may have been used before and may be used again. */
    method OnTimer(handle: nat)
      requires Valid() && handle in timers
      modifies this
      ensures Valid() && Grows() && admitted == old(admitted) && counter == old(counter)
      ensures exists c :: 0 <= c < |admitted| && admitted[c].timer == handle
                          && settled == old(settled) + [Settlement(c, Rejected(RequestTimeout))]
      ensures timers == old(timers) - {handle} && |pending| == |old(pending)| - 1
    {
      ghost var i := SoundTimer(View(), maxPending, maxBytes, handle);
      SettledSound(View(), maxPending, maxBytes, i, Rejected(RequestTimeout));
      ghost var c := pending[i].1.call;
      assert admitted[c].timer == handle;
      SoundIsConsistent(View(), maxPending, maxBytes, i);
      Settle(timers[handle], Rejected(RequestTimeout));
    }

    method OnConnectTimer()
      requires Valid() && connecting
      modifies this, socket`open
      ensures Valid() && Grows() && closed && socket.open == (old(closed) && old(socket.open))
      ensures settled == old(settled) + Rejections(old(pending), ConnectTimeout)
    {
      Fail(ConnectTimeout);
    }

    method OnSocketError()
      requires Valid()
      modifies this, socket`open
      ensures Valid() && Grows() && closed && socket.open == (old(closed) && old(socket.open))
      ensures settled == old(settled) + Rejections(old(pending), SocketFailed)
    {
      Fail(SocketFailed);
    }

    method OnSocketClose()
      requires Valid()
      modifies this
      ensures Valid() && Grows() && closed
      ensures settled == old(settled) + Rejections(old(pending), SocketClosed)
    {
      Finish(SocketClosed);
    }

    method Close()
      requires Valid()
      modifies this, socket`open
      ensures Valid() && Grows() && closed && !socket.open
      ensures settled == old(settled) + Rejections(old(pending), SocketClosed)
    {
      Finish(SocketClosed);
      socket.Close();
    }

    /** Between handlers the network takes some of the buffered bytes, and the socket
        may open or close. */
    method OnNetwork(drained: nat, open: bool)
      requires Valid() && drained <= socket.buffered
      modifies socket
      ensures Valid() && Grows() && socket.log == old(socket.log)
    {
      DrainedSound(View(), maxPending, maxBytes, drained);
      socket.buffered := socket.buffered - drained;
      socket.open := open;
    }

    /** The id loop: the first of the following ids that is not pending, found within
        one step more than there are pending requests. */
    method NextId() returns (ghost steps: nat)
      requires counter <= MAX_ID && DistinctKeys(pending) && |pending| < MAX_ID
      modifies `counter
      ensures FirstFree(old(counter), steps, pending) && counter == Nth(old(counter), steps)
      ensures 1 <= counter <= MAX_ID
    {
      counter := Next(counter);
      steps := 1;
      while Has(pending, counter)
        invariant 1 <= steps <= |pending| + 1 && counter == Nth(old(counter), steps)
        invariant forall k :: 1 <= k < steps ==> Has(pending, Nth(old(counter), k))
        decreases |pending| + 1 - steps
      {
        StepsAreFew(old(counter), steps, pending);
        counter := Next(counter);
        steps := steps + 1;
      }
      FreeIsLegal(old(counter), steps, pending);
    }

    /** A request is refused at once, or admitted under a free id; once the handshake is
        done it goes out before the call returns. */
    method Call(op: string, fields: string, sizeOf: nat -> Option<nat>) returns (answer: Answer, threw: bool)
      requires Valid()
      modifies this, socket
      ensures Valid() && Grows() && closed == old(closed) && initialized == old(initialized)
      ensures answer.Promise? ==> answer.call == |old(admitted)| && |admitted| == |old(admitted)| + 1
      ensures answer.Refused? ==> View() == old(View())
      ensures old(closed) ==> answer == Refused(SocketClosed) && counter == old(counter)
      ensures !old(closed) && |old(pending)| >= maxPending ==> answer == Refused(TooManyPending) && counter == old(counter)
      ensures !old(closed) && |old(pending)| < maxPending ==>
                && 1 <= counter <= MAX_ID && !Has(old(pending), counter)
                && (exists steps: nat :: FirstFree(old(counter), steps, old(pending)) && counter == Nth(old(counter), steps))
                && (answer == Refused(NotSerializable) <==> sizeOf(counter).None?)
                && (answer == Refused(TooLarge) <==> sizeOf(counter).Some? && sizeOf(counter).value > maxBytes)
                && (answer == Refused(Backpressure) <==>
                      && sizeOf(counter).Some? && sizeOf(counter).value <= maxBytes
                      && old(queuedBytes + socket.buffered) + sizeOf(counter).value > maxBytes)
                && (answer.Promise? <==>
                      && sizeOf(counter).Some?
                      && old(queuedBytes + socket.buffered) + sizeOf(counter).value <= maxBytes)
                && (answer.Promise? ==>
                     var b := Admitted(old(View()), Payload(counter, op, fields, sizeOf(counter).value));
                     && View() == (if !initialized then b
                                   else if !old(socket.open) then Settled(b, |old(pending)|, Rejected(SocketClosed))
                                   else if threw then Settled(b, |old(pending)|, Rejected(SendThrew))
                                   else Delivered(b, |old(pending)|)))
      ensures answer.Promise? ==>
                var payload, call := Payload(counter, op, fields, sizeOf(counter).value), |old(admitted)|;
                && admitted == old(admitted) + [Ticket(payload, old(nextTimer))]
                && if !initialized then
                     && settled == old(settled) && socket.log == old(socket.log)
                     && pending == old(pending) + [(counter, Item(call, op, old(nextTimer), Some(payload), false))]
                   else if old(socket.open) && !threw then
                     && settled == old(settled) && socket.log == old(socket.log) + [Sent(call, payload)]
                     && pending == old(pending) + [(counter, Item(call, op, old(nextTimer), None, true))]
                   else
                     && pending == old(pending) && socket.log == old(socket.log)
                     && settled == old(settled)
                                   + [Settlement(call, Rejected(if old(socket.open) then SendThrew else SocketClosed))]
    {
      threw := false;
      if closed {
        return Refused(SocketClosed), false;
      }
      if |pending| >= maxPending {
        return Refused(TooManyPending), false;
      }
      SoundKeys(View(), maxPending, maxBytes);
      ghost var steps := NextId();
      var id := counter;
      var size := sizeOf(id);
      var why := Refusal(size, queuedBytes + socket.buffered, maxBytes);
      if why.Some? {
        return Refused(why.value), false;
      }
      answer := Promise(|admitted|);
      threw := Enter(Payload(id, op, fields, size.value));
    }

    /** The executor of the promise: timer, map entry, bytes, and the send. */
    method Enter(payload: Payload) returns (threw: bool)
      requires Valid() && !closed && |pending| < maxPending
      requires !Has(pending, payload.id) && 1 <= payload.id <= MAX_ID
      requires queuedBytes + socket.buffered + payload.size <= maxBytes
      modifies `pending, `queuedBytes, `timers, `nextTimer, `admitted, `settled, socket
      ensures Valid() && Grows() && socket.open == old(socket.open)
      ensures var b := Admitted(old(View()), payload);
              View() == if !initialized then b
                        else if !old(socket.open) then Settled(b, |old(pending)|, Rejected(SocketClosed))
                        else if threw then Settled(b, |old(pending)|, Rejected(SendThrew))
                        else Delivered(b, |old(pending)|)
    {
      threw := false;
      AdmittedSound(View(), maxPending, maxBytes, payload);
      ghost var n := |pending|;
      var timer := nextTimer;
      nextTimer := nextTimer + 1;
      timers := timers[timer := payload.id];
      var item := Item(|admitted|, payload.op, timer, Some(payload), false);
      pending := Set(pending, payload.id, item);
      admitted := admitted + [Ticket(payload, timer)];
      queuedBytes := queuedBytes + payload.size;
      assert View() == Admitted(old(View()), payload);
      if initialized {
        ghost var b := View();
        assert pending[..n] == old(pending);
        SoundIsConsistent(b, maxPending, maxBytes, n);
        threw := SendPending(payload.id, n);
        TriedSound(b, maxPending, maxBytes, n, !socket.open, threw);
      }
    }

    /** Any run of events: every state it reaches is in order, nothing settled or sent is
        taken back, nothing is queued once the handshake is done, and a closed client has
        neither pending requests nor timers. */
    method Run(events: seq<Happening>)
      requires Valid()
      modifies this, socket
      ensures Valid() && Grows() && InOrder(View(), maxPending, maxBytes)
      ensures initialized ==> queuedBytes == 0
      ensures closed ==> pending == [] && timers == map[]
    {
      for k := 0 to |events|
        invariant Valid() && Grows()
      {
        Dispatch(events[k]);
      }
      SoundIsInOrder(View(), maxPending, maxBytes);
      if initialized {
        ReadyQueuesNothing(View(), maxPending, maxBytes);
      }
    }

    /** The browser's event loop: a cleared timer does not fire. */
    method Dispatch(event: Happening)
      requires Valid()
      modifies this, socket
      ensures Valid() && Grows()
    {
      match event {
        case Calling(op, fields, sizeOf) => var _, _ := Call(op, fields, sizeOf);
        case Message(m) => var _ := OnMessage(m);
        case TimerFires(handle) => if handle in timers { OnTimer(handle); }
        case ConnectTimerFires => if connecting { OnConnectTimer(); }
        case SocketErrs => OnSocketError();
        case SocketCloses => OnSocketClose();
        case Closing => Close();
        case Network(drained, open) => if drained <= socket.buffered { OnNetwork(drained, open); }
      }
    }
  }
}
