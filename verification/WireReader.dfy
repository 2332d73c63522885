/** The resumable frame reader: a partial header and a partial body survive every
    call that does not complete a frame. */
module WireReader {
  import opened WireBytes
  import opened WireCodec
  import opened WireStream
  import opened WireHost
  import opened Sequences

  /** One turn of the loop in read_into: data (perhaps none) to keep, or the end. */
  datatype Turn = Got(data: seq<byte>) | Stop(rc: Result)

  method ReadSome(host: Host, want: nat, nonblocking: bool) returns (turn: Turn)
    requires want > 0 && host.Valid()
    modifies host`arrivals, host`taken
    ensures host.Valid()
    ensures turn.Stop? ==>
              && Drain(old(host.arrivals), want, nonblocking) == Drained(turn.rc, [], host.arrivals)
              && turn.rc in {ErrTimeout, ErrClosed, ErrIo} && host.taken == old(host.taken)
    ensures turn.Got? ==>
              && |turn.data| <= want && host.taken == old(host.taken) + turn.data
              && (turn.data == [] ==> |host.arrivals| < |old(host.arrivals)|)
              && Drain(old(host.arrivals), want, nonblocking)
                 == After(turn.data, Drain(host.arrivals, want - |turn.data|, nonblocking))
  {
    var passed := false;
    if !nonblocking {
      passed := host.DeadlinePassed();
    }
    if passed {
      turn := Stop(ErrTimeout);
    } else {
      var r := host.Recv(want);
      match r {
        case Retry => turn := Got([]);
        case Again(wait) =>
          turn := if nonblocking then Stop(ErrTimeout)
                  else if wait != Ready then Stop(WaitResult(wait))
                  else Got([]);
        case Failed => turn := Stop(ErrIo);
        case Data(data) =>
          turn := if data == [] then Stop(ErrClosed) else Got(data);
      }
    }
    if turn.Got? {
      AfterTwice([], [], Drain(host.arrivals, want - |turn.data|, nonblocking));
    }
  }

  lemma ExtendedFrom(p: seq<byte>, more: seq<byte>, at: nat)
    requires at <= |p|
    ensures (p + more)[at..] == p[at..] + more && (p + more)[..at] == p[..at]
  {
  }

  /** What comes is put behind what has come since start. */
  method Keep(buf: array<byte>, ghost start: nat, now: nat, data: seq<byte>)
    requires start <= now && now + |data| <= buf.Length
    modifies buf
    ensures buf[start..now + |data|] == old(buf[start..now]) + data && buf[..start] == old(buf[..start])
  {
    ghost var was := buf[..now];
    Store(buf, now, data);
    ghost var all := buf[..now + |data|];
    ExtendedFrom(was, data, start);
    assert all[start..] == buf[start..now + |data|] && was[start..] == old(buf[start..now]);
    assert all[..start] == buf[..start] && was[..start] == old(buf[..start]);
  }

  /** read_into: fills buf up to len, keeping what came before a failure. */
  method ReadInto(host: Host, buf: array<byte>, len: nat, received: nat, nonblocking: bool)
    returns (rc: Result, now: nat)
    requires host.Valid() && received <= len <= buf.Length
    modifies buf, host`arrivals, host`taken
    ensures host.Valid() && received <= now <= len
    ensures var d := Drain(old(host.arrivals), len - received, nonblocking);
            && Drained(rc, buf[received..now], host.arrivals) == d
            && host.taken == old(host.taken) + d.data
    ensures buf[..received] == old(buf[..received])
    ensures rc in {Ok, ErrTimeout, ErrClosed, ErrIo} && (rc == Ok <==> now == len)
  {
    now := received;
    ghost var goal := Drain(host.arrivals, len - received, nonblocking);
    ghost var got: seq<byte> := [];
    while now < len
      invariant received <= now <= len && host.Valid() && buf[received..now] == got
      invariant goal == After(got, Drain(host.arrivals, len - now, nonblocking))
      invariant host.taken == old(host.taken) + got
      invariant buf[..received] == old(buf[..received])
      decreases len - now, |host.arrivals|
    {
      var turn := ReadSome(host, len - now, nonblocking);
      if turn.Stop? {
        rc := turn.rc;
        assert got + [] == got;
        return;
      }
      AfterTwice(got, turn.data, Drain(host.arrivals, len - now - |turn.data|, nonblocking));
      Assoc(old(host.taken), got, turn.data);
      Keep(buf, received, now, turn.data);
      now, got := now + |turn.data|, got + turn.data;
    }
    assert got + [] == got;
    rc := Ok;
  }

  // ---- read_frame as a function of what is saved and of the scripts ----

  /** A reader's saved bytes, and whether the body they announce has its memory. */
  predicate ReaderState(partial: seq<byte>, room: bool) {
    if room then |partial| >= 4 && GoodLength(Num(partial[..4])) && |partial| <= 4 + Num(partial[..4])
    else |partial| <= 4
  }

  /** How a read ends: on success partial is a whole packet, otherwise what is saved. */
  datatype Reading = Reading(rc: Result, partial: seq<byte>, room: bool, arrivals: seq<Arrival>, refusals: seq<bool>)

  /** The missing bytes of the body, once there is room for it. */
  function ReadBody(partial: seq<byte>, arrivals: seq<Arrival>, refusals: seq<bool>, nonblocking: bool): Reading
    requires ReaderState(partial, true)
  {
    var d := Drain(arrivals, 4 + Num(partial[..4]) - |partial|, nonblocking);
    Reading(d.rc, partial + d.data, true, d.rest, refusals)
  }

  /** The header is complete: a good length, then memory, then the body. */
  function ReadOn(partial: seq<byte>, room: bool, arrivals: seq<Arrival>, refusals: seq<bool>, nonblocking: bool): Reading
    requires ReaderState(partial, room) && |partial| >= 4
  {
    if room then ReadBody(partial, arrivals, refusals, nonblocking)
    else if !GoodLength(Num(partial[..4])) then Reading(ErrProtocol, partial, false, arrivals, refusals)
    else if !Allowed(refusals) then Reading(ErrMemory, partial, false, arrivals, Later(refusals))
    else ReadBody(partial, arrivals, Later(refusals), nonblocking)
  }

  function HeaderNeeds(partial: seq<byte>): nat { if |partial| < 4 then 4 - |partial| else 0 }

  function ReadScript(partial: seq<byte>, room: bool, arrivals: seq<Arrival>, refusals: seq<bool>, nonblocking: bool): Reading
    requires ReaderState(partial, room)
  {
    var d := Drain(arrivals, HeaderNeeds(partial), nonblocking);
    if d.rc != Ok then Reading(d.rc, partial + d.data, room, d.rest, refusals)
    else
      DrainConserves(arrivals, HeaderNeeds(partial), nonblocking);
      assert partial + [] == partial;
      ReadOn(partial + d.data, room, d.rest, refusals, nonblocking)
  }

  lemma Chained(p: seq<byte>, q: seq<byte>, r: seq<byte>)
    requires p <= q <= r
    ensures r[|p|..] == q[|p|..] + r[|q|..]
  {
  }

  lemma {:induction false} ReadBodyEnds(partial: seq<byte>, arrivals: seq<Arrival>, refusals: seq<bool>, nonblocking: bool)
    requires ReaderState(partial, true)
    ensures var o := ReadBody(partial, arrivals, refusals, nonblocking);
            && partial <= o.partial && ReaderState(o.partial, true)
            && o.partial[|partial|..] + Incoming(o.arrivals) == Incoming(arrivals)
            && (o.rc == Ok <==> |o.partial| == 4 + Num(o.partial[..4]))
            && o.rc in {Ok, ErrTimeout, ErrClosed, ErrIo}
  {
    var need := 4 + Num(partial[..4]) - |partial|;
    DrainConserves(arrivals, need, nonblocking);
    var d := Drain(arrivals, need, nonblocking);
    assert (partial + d.data)[..4] == partial[..4];
  }

  /** A read adds to the saved bytes what it takes from the script, in order; it succeeds
      exactly when that completes the packet, and refuses exactly the bad lengths. */
  lemma {:induction false} ReadEnds(partial: seq<byte>, room: bool, arrivals: seq<Arrival>, refusals: seq<bool>, nonblocking: bool)
    requires ReaderState(partial, room)
    ensures var o := ReadScript(partial, room, arrivals, refusals, nonblocking);
            && partial <= o.partial && ReaderState(o.partial, o.room)
            && o.partial[|partial|..] + Incoming(o.arrivals) == Incoming(arrivals)
            && (o.rc == Ok <==> Complete(o.partial))
            && (o.rc == Ok ==> |o.partial| == 4 + Num(o.partial[..4]))
            && (o.rc == ErrProtocol ==> Poisoned(o.partial))
            && o.rc in {Ok, ErrTimeout, ErrClosed, ErrIo, ErrMemory, ErrProtocol}
  {
    DrainConserves(arrivals, HeaderNeeds(partial), nonblocking);
    var d := Drain(arrivals, HeaderNeeds(partial), nonblocking);
    if d.rc == Ok {
      assert partial + [] == partial;
      ReadOnEnds(partial + d.data, room, d.rest, refusals, nonblocking);
      var o := ReadOn(partial + d.data, room, d.rest, refusals, nonblocking);
      Assoc(d.data, o.partial[|partial + d.data|..], Incoming(o.arrivals));
      DropAppended(partial, d.data);
      Chained(partial, partial + d.data, o.partial);
    } else {
      assert (partial + d.data)[|partial|..] == d.data;
    }
  }

  lemma {:induction false} ReadOnEnds(partial: seq<byte>, room: bool, arrivals: seq<Arrival>, refusals: seq<bool>, nonblocking: bool)
    requires ReaderState(partial, room) && |partial| >= 4
    ensures var o := ReadOn(partial, room, arrivals, refusals, nonblocking);
            && partial <= o.partial && ReaderState(o.partial, o.room)
            && o.partial[|partial|..] + Incoming(o.arrivals) == Incoming(arrivals)
            && (o.rc == Ok <==> Complete(o.partial))
            && (o.rc == Ok ==> |o.partial| == 4 + Num(o.partial[..4]))
            && (o.rc == ErrProtocol ==> Poisoned(o.partial))
            && o.rc in {Ok, ErrTimeout, ErrClosed, ErrIo, ErrMemory, ErrProtocol}
  {
    if room {
      ReadBodyEnds(partial, arrivals, refusals, nonblocking);
    } else if GoodLength(Num(partial[..4])) && Allowed(refusals) {
      ReadBodyEnds(partial, arrivals, Later(refusals), nonblocking);
    } else {
      assert partial[|partial|..] + Incoming(arrivals) == Incoming(arrivals);
    }
  }

  class FrameReader {
    const header: array<byte>
    var headerLen: nat
    var body: array?<byte>
    var bodyLen: nat
    var received: nat
    ghost var bodies: seq<seq<byte>>   // every frame returned so far

    ghost function Repr(): set<object>
      reads this
    {
      {this, header} + if body == null then {} else {body}
    }

    /** The bytes of the frame being read that have come so far. */
    ghost function Partial(): seq<byte>
      requires headerLen <= header.Length && (body != null ==> received <= body.Length)
      reads this, header, body
    {
      header[..headerLen] + if body == null then [] else body[..received]
    }

    ghost predicate Valid()
      reads this, header, body
    {
      && header.Length == 4 && headerLen <= 4
      && (body == null ==> received == 0 && bodyLen == 0)
      && (body != null ==>
            && body != header && headerLen == 4
            && bodyLen == body.Length == Num(header[..]) && GoodLength(bodyLen)
            && received <= bodyLen)
    }

    /** The saved bytes are those of a header, or of a header and part of its body. */
    lemma StateOk()
      requires Valid()
      ensures ReaderState(Partial(), body != null)
      ensures headerLen < 4 ==> HeaderNeeds(Partial()) == 4 - headerLen
      ensures headerLen == 4 ==> HeaderNeeds(Partial()) == 0 && Partial()[..4] == header[..]
    {
      if headerLen == 4 {
        assert header[..4] == header[..];
        assert Partial()[..4] == header[..];
      }
    }

    constructor ()
      ensures Valid() && fresh(Repr()) && bodies == [] && Partial() == [] && body == null
    {
      header := new byte[4];
      headerLen, body, bodyLen, received := 0, null, 0, 0;
      bodies := [];
    }

    /** The reader's part of close_socket: the partial frame is dropped. */
    method Reset()
      requires Valid()
      modifies this
      ensures Valid() && Partial() == [] && body == null && bodies == old(bodies) && Repr() <= old(Repr())
    {
      body := null;
      headerLen, bodyLen, received := 0, 0, 0;
    }

    /** Reading on into the header; nothing to do when it is complete. */
    method FillHeader(host: Host, nonblocking: bool) returns (rc: Result)
      requires Valid() && host.Valid()
      modifies `headerLen, header, host`arrivals, host`taken
      ensures Valid() && host.Valid()
      ensures var d := Drain(old(host.arrivals), old(HeaderNeeds(Partial())), nonblocking);
              rc == d.rc && host.arrivals == d.rest && Partial() == old(Partial()) + d.data
      ensures rc == Ok ==> headerLen == 4
    {
      StateOk();
      ghost var had, start, p := headerLen, header[..headerLen], Partial();
      rc, headerLen := ReadInto(host, header, 4, headerLen, nonblocking);
      assert header[..headerLen] == start + header[had..headerLen];
      if body != null {
        assert header[..] == header[..4] && header[had..headerLen] == [];
        assert Partial() == p + [];
      } else {
        assert start + [] == start && header[..headerLen] + [] == header[..headerLen];
      }
    }

    /** A complete header names the length: reject it or make room for the body. */
    method MakeRoom(host: Host) returns (rc: Result)
      requires Valid() && headerLen == 4
      modifies `body, `bodyLen, host`refusals
      ensures Valid() && headerLen == 4 && fresh(Repr() - old(Repr())) && Partial() == old(Partial())
      ensures if old(body) != null then rc == Ok && body == old(body) && host.refusals == old(host.refusals)
              else if !GoodLength(Num(header[..])) then
                rc == ErrProtocol && body == null && host.refusals == old(host.refusals)
              else
                && host.refusals == Later(old(host.refusals))
                && if Allowed(old(host.refusals)) then rc == Ok && body != null else rc == ErrMemory && body == null
    {
      assert header[..] == header[..4];
      if body == null {
        var len := Num(header[..]);
        if len < 7 || len > MAX_FRAME {
          return ErrProtocol;
        }
        var ok := host.Malloc();
        if !ok {
          return ErrMemory;
        }
        body, bodyLen := new byte[len], len;
      }
      return Ok;
    }

    /** Reading on into the body. */
    method FillBody(host: Host, nonblocking: bool) returns (rc: Result)
      requires Valid() && host.Valid() && body != null && ReaderState(Partial(), true)
      modifies `received, body, host`arrivals, host`taken
      ensures Valid() && host.Valid() && body == old(body)
      ensures var o := ReadBody(old(Partial()), old(host.arrivals), host.refusals, nonblocking);
              rc == o.rc && Partial() == o.partial && host.arrivals == o.arrivals
      ensures rc == Ok <==> received == bodyLen
    {
      StateOk();
      ghost var had, start := received, body[..received];
      rc, received := ReadInto(host, body, bodyLen, received, nonblocking);
      ghost var more := body[had..received];
      assert body[..received] == start + more;
      assert header[..headerLen] == header[..];
      Assoc(header[..], start, more);
    }

    /** What a read must leave behind, given how it ends. */
    ghost predicate Leaves(host: Host, rc: Result, out: array?<byte>, o: Reading, was: seq<seq<byte>>)
      requires Valid()
      reads this, header, body, host, out
    {
      && rc == o.rc && host.arrivals == o.arrivals && host.refusals == o.refusals
      && if rc == Ok then
           && out != null && out !in Repr() && 4 <= |o.partial| && out[..] == o.partial[4..]
           && bodies == was + [out[..]] && Partial() == [] && body == null
         else
           bodies == was && Partial() == o.partial && (body != null) == o.room
    }

    /** read_frame behind the header. */
    method ReadRest(host: Host, nonblocking: bool) returns (rc: Result, out: array?<byte>)
      requires Valid() && host.Valid() && headerLen == 4 && ReaderState(Partial(), body != null)
      modifies this, body, host`arrivals, host`taken, host`refusals
      ensures Valid() && host.Valid() && fresh(Repr() - old(Repr()))
      ensures out != null ==> fresh({out} - old(Repr()))
      ensures var o := ReadOn(old(Partial()), old(body) != null, old(host.arrivals), old(host.refusals), nonblocking);
              Leaves(host, rc, out, o, old(bodies))
    {
      out := null;
      StateOk();
      rc := MakeRoom(host);
      if rc != Ok {
        return;
      }
      StateOk();
      ReadBodyEnds(Partial(), host.arrivals, host.refusals, nonblocking);
      rc := FillBody(host, nonblocking);
      if rc == Ok {
        out := TakeFrame();
      }
    }

    /** read_frame: the outcome is the one the scripts determine.  A whole frame is
        handed over; otherwise everything that came is saved for the next call. */
    method ReadFrame(host: Host, nonblocking: bool) returns (rc: Result, out: array?<byte>)
      requires Valid() && host.Valid() && ReaderState(Partial(), body != null)
      modifies Repr(), host`arrivals, host`taken, host`refusals
      ensures Valid() && host.Valid() && fresh(Repr() - old(Repr()))
      ensures out != null ==> fresh({out} - old(Repr()))
      ensures var o := ReadScript(old(Partial()), old(body) != null, old(host.arrivals), old(host.refusals), nonblocking);
              Leaves(host, rc, out, o, old(bodies))
    {
      out := null;
      rc := FillHeader(host, nonblocking);
      if rc == Ok {
        StateOk();
        rc, out := ReadRest(host, nonblocking);
      }
    }

    /** The body is complete: hand it over and start afresh. */
    method TakeFrame() returns (out: array<byte>)
      requires Valid() && body != null && received == bodyLen
      modifies this
      ensures Valid() && Partial() == [] && body == null
      ensures out == old(body) && Repr() == old(Repr()) - {out} && out !in Repr()
      ensures bodies == old(bodies) + [out[..]] && out[..] == old(Partial()[4..])
    {
      out := body;
      assert Partial()[4..] == out[..];
      bodies := bodies + [out[..]];
      Reset();
    }
  }

  /** A header followed by the whole body it announces is that body's packet. */
  lemma PacketComplete(partial: seq<byte>)
    requires |partial| >= 4 && |partial| == 4 + Num(partial[..4])
    ensures partial == Packet(partial[4..])
  {
    U32OfNum(partial[..4]);
    assert partial == partial[..4] + partial[4..];
  }
}
