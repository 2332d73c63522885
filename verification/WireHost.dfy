/** The operating system as the client sees it.  What recv, send, poll and malloc
    will answer is written down beforehand as scripts, so that a statement for
    every script is a statement for every behaviour of the peer and the kernel. */
module WireHost {
  import opened WireBytes
  import opened Sequences

  datatype Result =
    | Ok | ErrArgument | ErrMemory | ErrIo | ErrProtocol
    | ErrRemote | ErrTimeout | ErrOverflow | ErrClosed

  /** The answer of wait_fd. */
  datatype Wait = Ready | TimedOut | HungUp | WaitFailed

  function WaitResult(w: Wait): Result {
    match w
    case Ready => Ok
    case TimedOut => ErrTimeout
    case HungUp => ErrClosed
    case WaitFailed => ErrIo
  }

  /** One thing that can happen to a reader: bytes arrive (no bytes: the peer has
      closed), the call is interrupted, would block, breaks, or the deadline passes. */
  datatype Arrival =
    | Chunk(data: seq<byte>)
    | Interrupted
    | NotReady(wait: Wait)
    | Broken
    | Expired

  /** One thing that can happen to a writer: some bytes are accepted, or not. */
  datatype Departure =
    | Accepted(n: nat)
    | SendInterrupted
    | Full(wait: Wait)
    | SendBroken
    | SendExpired

  /** Every byte a script of arrivals will deliver. */
  ghost function Incoming(arrivals: seq<Arrival>): seq<byte> {
    if arrivals == [] then []
    else (if arrivals[0].Chunk? then arrivals[0].data else []) + Incoming(arrivals[1..])
  }

  function Min(a: nat, b: nat): nat { if a < b then a else b }

  datatype Drained = Drained(rc: Result, data: seq<byte>, rest: seq<Arrival>)

  /** What is left of the arrivals when n bytes of the first chunk are taken. */
  function AfterTaking(arrivals: seq<Arrival>, n: nat): seq<Arrival>
    requires arrivals != [] && arrivals[0].Chunk? && n <= |arrivals[0].data|
  {
    if n == |arrivals[0].data| then arrivals[1..]
    else [Chunk(arrivals[0].data[n..])] + arrivals[1..]
  }

  /** Waiting for need bytes: what arrives before the wait succeeds or fails.
      An exhausted script times out. */
  function Drain(arrivals: seq<Arrival>, need: nat, nonblocking: bool): Drained
    decreases need, |arrivals|
  {
    if need == 0 then Drained(Ok, [], arrivals)
    else if arrivals == [] then Drained(ErrTimeout, [], [])
    else
      var later := arrivals[1..];
      match arrivals[0]
      case Chunk(data) =>
        if data == [] then Drained(ErrClosed, [], later)
        else
          var n := Min(need, |data|);
          After(data[..n], Drain(AfterTaking(arrivals, n), need - n, nonblocking))
      case Interrupted => Drain(later, need, nonblocking)
      case NotReady(wait) =>
        if nonblocking then Drained(ErrTimeout, [], later)
        else if wait != Ready then Drained(WaitResult(wait), [], later)
        else Drain(later, need, nonblocking)
      case Broken => Drained(ErrIo, [], later)
      case Expired =>
        if nonblocking then Drain(later, need, nonblocking) else Drained(ErrTimeout, [], later)
  }

  /** What comes first, and then whatever a wait brings. */
  function After(first: seq<byte>, d: Drained): Drained {
    d.(data := first + d.data)
  }

  lemma AfterTwice(a: seq<byte>, b: seq<byte>, d: Drained)
    ensures After(a, After(b, d)) == After(a + b, d)
    ensures After([], d) == d
  {
    Assoc(a, b, d.data);
  }

  lemma TakingConserves(arrivals: seq<Arrival>, n: nat)
    requires arrivals != [] && arrivals[0].Chunk? && n <= |arrivals[0].data|
    ensures arrivals[0].data[..n] + Incoming(AfterTaking(arrivals, n)) == Incoming(arrivals)
  {
    var data, rest := arrivals[0].data, AfterTaking(arrivals, n);
    assert data == data[..n] + data[n..];
    if n != |data| {
      assert rest[1..] == arrivals[1..];
      Assoc(data[..n], data[n..], Incoming(arrivals[1..]));
    }
  }

  /** No byte is lost or invented, and success means all of them came. */
  lemma {:induction false} DrainConserves(arrivals: seq<Arrival>, need: nat, nonblocking: bool)
    ensures var d := Drain(arrivals, need, nonblocking);
            && d.data + Incoming(d.rest) == Incoming(arrivals)
            && |d.data| <= need
            && (d.rc == Ok <==> |d.data| == need)
            && d.rc in {Ok, ErrTimeout, ErrClosed, ErrIo}
    decreases need, |arrivals|
  {
    if need != 0 && arrivals != [] {
      match arrivals[0]
      case Chunk(data) =>
        if data != [] {
          var n := Min(need, |data|);
          var rest := AfterTaking(arrivals, n);
          DrainConserves(rest, need - n, nonblocking);
          var d := Drain(rest, need - n, nonblocking);
          TakingConserves(arrivals, n);
          Assoc(data[..n], d.data, Incoming(d.rest));
        }
      case _ =>
        DrainConserves(arrivals[1..], need, nonblocking);
    }
  }

  datatype Written = Written(rc: Result, sent: seq<byte>, rest: seq<Departure>)

  /** Writing data: what goes out before the write succeeds or fails.  An exhausted
      script accepts everything. */
  function Write(departures: seq<Departure>, data: seq<byte>): Written
    decreases |departures|
  {
    if data == [] then Written(Ok, [], departures)
    else if departures == [] then Written(Ok, data, [])
    else
      var later := departures[1..];
      match departures[0]
      case Accepted(n) =>
        var m := Min(n, |data|);
        if m == 0 then Written(ErrIo, [], later)
        else
          var w := Write(later, data[m..]);
          w.(sent := data[..m] + w.sent)
      case SendInterrupted => Write(later, data)
      case Full(wait) => if wait != Ready then Written(WaitResult(wait), [], later) else Write(later, data)
      case SendBroken => Written(ErrIo, [], later)
      case SendExpired => Written(ErrTimeout, [], later)
  }

  /** Success puts all of the data on the wire, a failure a proper prefix. */
  lemma {:induction false} WriteIsPrefix(departures: seq<Departure>, data: seq<byte>)
    ensures var w := Write(departures, data);
            && w.rc in {Ok, ErrTimeout, ErrClosed, ErrIo}
            && (if w.rc == Ok then w.sent == data else w.sent < data)
    decreases |departures|
  {
    if data != [] && departures != [] {
      match departures[0]
      case Accepted(n) =>
        var m := Min(n, |data|);
        WriteIsPrefix(departures[1..], data[m..]);
        assert data == data[..m] + data[m..];
      case _ =>
        WriteIsPrefix(departures[1..], data);
    }
  }

  /** What the next malloc will answer, and the answers after that. */
  predicate Allowed(refusals: seq<bool>) { refusals == [] || !refusals[0] }

  function Later(refusals: seq<bool>): seq<bool> {
    if refusals == [] then [] else refusals[1..]
  }

  /** n allocations in a row, all of them tried. */
  predicate AllAllowed(refusals: seq<bool>, n: nat) {
    n == 0 || (Allowed(refusals) && AllAllowed(Later(refusals), n - 1))
  }

  function LaterBy(refusals: seq<bool>, n: nat): seq<bool> {
    if n == 0 then refusals else LaterBy(Later(refusals), n - 1)
  }

  /** Some allocations, and then some more. */
  lemma {:induction false} AllowedInTurn(refusals: seq<bool>, a: nat, b: nat)
    ensures AllAllowed(refusals, a + b) <==> AllAllowed(refusals, a) && AllAllowed(LaterBy(refusals, a), b)
    ensures LaterBy(refusals, a + b) == LaterBy(LaterBy(refusals, a), b)
    decreases a
  {
    if a > 0 {
      AllowedInTurn(Later(refusals), a - 1, b);
    }
  }

  /** The allocations granted, one after the other. */
  lemma {:induction false} AllAllowedIs(refusals: seq<bool>, n: nat)
    ensures AllAllowed(refusals, n) <==> forall i :: 0 <= i < n && i < |refusals| ==> !refusals[i]
    decreases n
  {
    if n > 0 {
      AllAllowedIs(Later(refusals), n - 1);
      if refusals != [] {
        assert forall i :: 0 < i < |refusals| ==> refusals[i] == Later(refusals)[i - 1];
      }
    }
  }

  datatype RecvResult = Data(data: seq<byte>) | Again(wait: Wait) | Retry | Failed

  datatype SendResult = Wrote(n: nat) | SendAgain(wait: Wait) | SendRetry | SendFailed

  class Host {
    var arrivals: seq<Arrival>
    var departures: seq<Departure>
    var refusals: seq<bool>          // for each malloc to come: is it refused?
    ghost const stream: seq<byte>    // every byte the peer will ever send
    ghost var taken: seq<byte>       // every byte received so far
    ghost var wire: seq<byte>        // every byte sent so far

    ghost predicate Valid() reads this {
      stream == taken + Incoming(arrivals)
    }

    constructor (arrivals: seq<Arrival>, departures: seq<Departure>, refusals: seq<bool>)
      ensures Valid()
      ensures this.arrivals == arrivals && this.departures == departures && this.refusals == refusals
      ensures taken == [] && wire == [] && stream == Incoming(arrivals)
    {
      this.arrivals, this.departures, this.refusals := arrivals, departures, refusals;
      stream, taken, wire := Incoming(arrivals), [], [];
    }

    /** Whether the clock has reached the deadline. */
    method DeadlinePassed() returns (passed: bool)
      requires Valid()
      modifies `arrivals
      ensures Valid()
      ensures passed == (old(arrivals) != [] && old(arrivals)[0].Expired?)
      ensures arrivals == if passed then old(arrivals)[1..] else old(arrivals)
    {
      passed := arrivals != [] && arrivals[0].Expired?;
      if passed {
        arrivals := arrivals[1..];
      }
    }

    /** recv of at most max bytes. */
    method Recv(max: nat) returns (r: RecvResult)
      requires Valid() && max > 0
      modifies `arrivals, `taken
      ensures Valid()
      ensures old(arrivals) == [] ==> r == Again(TimedOut) && arrivals == [] && taken == old(taken)
      ensures old(arrivals) != [] ==>
                match old(arrivals)[0]
                case Chunk(data) =>
                  var n := Min(max, |data|);
                  && r == Data(data[..n])
                  && arrivals == AfterTaking(old(arrivals), n)
                  && taken == old(taken) + data[..n]
                case other =>
                  && arrivals == old(arrivals)[1..] && taken == old(taken)
                  && r == (match other case NotReady(w) => Again(w) case Broken => Failed case _ => Retry)
    {
      if arrivals == [] {
        return Again(TimedOut);
      }
      match arrivals[0]
      case Chunk(data) =>
        var n := Min(max, |data|);
        r := Data(data[..n]);
        TakingConserves(arrivals, n);
        Assoc(taken, data[..n], Incoming(AfterTaking(arrivals, n)));
        arrivals := AfterTaking(arrivals, n);
        taken := taken + data[..n];
      case NotReady(w) =>
        r, arrivals := Again(w), arrivals[1..];
      case Broken =>
        r, arrivals := Failed, arrivals[1..];
      case _ =>
        r, arrivals := Retry, arrivals[1..];
    }

    /** Whether the clock has reached the deadline of a write. */
    method SendDeadlinePassed() returns (passed: bool)
      modifies `departures
      ensures passed == (old(departures) != [] && old(departures)[0].SendExpired?)
      ensures departures == if passed then old(departures)[1..] else old(departures)
    {
      passed := departures != [] && departures[0].SendExpired?;
      if passed {
        departures := departures[1..];
      }
    }

    /** send: accepts some prefix of the bytes; an exhausted script accepts all. */
    method Send(data: seq<byte>) returns (r: SendResult)
      requires data != []
      modifies `departures, `wire
      ensures old(departures) == [] ==> r == Wrote(|data|) && departures == [] && wire == old(wire) + data
      ensures old(departures) != [] ==>
                && departures == old(departures)[1..]
                && match old(departures)[0]
                   case Accepted(n) => r == Wrote(Min(n, |data|)) && wire == old(wire) + data[..Min(n, |data|)]
                   case Full(w) => r == SendAgain(w) && wire == old(wire)
                   case SendBroken => r == SendFailed && wire == old(wire)
                   case _ => r == SendRetry && wire == old(wire)
    {
      if departures == [] {
        r, wire := Wrote(|data|), wire + data;
        return;
      }
      match departures[0] {
        case Accepted(n) =>
          r := Wrote(Min(n, |data|));
          wire := wire + data[..Min(n, |data|)];
        case Full(w) => r := SendAgain(w);
        case SendBroken => r := SendFailed;
        case _ => r := SendRetry;
      }
      departures := departures[1..];
    }

    /** malloc. */
    method Malloc() returns (ok: bool)
      modifies `refusals
      ensures ok == Allowed(old(refusals)) && refusals == Later(old(refusals))
    {
      ok := refusals == [] || !refusals[0];
      if refusals != [] {
        refusals := refusals[1..];
      }
    }
  }
}
