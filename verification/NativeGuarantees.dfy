/** What every operation of the native client keeps, whatever the network does. */
module NativeGuarantees {
  import opened Bytes
  import opened NativeProtocol

  function SocketOf(e: Event): nat {
    if e.Refused? then 0 else e.socket
  }

  /** No event is about a socket that was not opened yet. */
  ghost predicate Known(log: seq<Event>, sockets: nat) {
    forall i :: 0 <= i < |log| ==> SocketOf(log[i]) <= sockets
  }

  /** Every terminator so far was allowed, and the events are about the sockets so far. */
  ghost predicate Sound(n: Native) {
    Safe(n.log) && Known(n.log, n.sockets) && n.socket <= n.sockets
  }

  /** The insert of the current socket may be closed if the client thinks it is inserting. */
  ghost predicate Closable(n: Native) {
    n.state == Inserting ==> MayClose(PhaseOf(n.log, n.socket))
  }

  ghost predicate SameConnection(n: Native, r: Native) {
    r.socket == n.socket && r.sockets == n.sockets && r.current == n.current && r.index == n.index
  }

  /** The endpoints that were tried, in order. */
  function Tried(log: seq<Event>): seq<nat> {
    if log == [] then []
    else
      var e, before := log[|log| - 1], Tried(log[..|log| - 1]);
      if e.Refused? || e.Opened? then before + [e.endpoint] else before
  }

  lemma TriedSnoc(log: seq<Event>, e: Event)
    ensures Tried(log + [e]) == if e.Refused? || e.Opened? then Tried(log) + [e.endpoint] else Tried(log)
  {
    assert (log + [e])[..|log + [e]| - 1] == log;
  }

  lemma SendKeeps(n: Native, e: Event)
    requires Sound(n) && e.Failed? && e.socket == n.socket
    ensures var r := Send(n, e);
            && Sound(r.n) && SameConnection(n, r.n) && r.n.state == n.state
            && (r.out.Done? ==> r.n.log == n.log) && n.log <= r.n.log && Tried(r.n.log) == Tried(n.log)
  {
    hide PhaseOf, Safe, Tried;
    TriedSnoc(n.log, e);
  }

  lemma ReceiveKeeps(cfg: Config, n: Native)
    requires Sound(n)
    ensures var (r, got) := Receive(cfg, n);
            && Sound(r) && SameConnection(n, r) && r.state == n.state
            && (!got.Raised? ==> r.log == n.log)
            && (got.Got? ==> |r.replies| < |n.replies|)
            && n.log <= r.log && Tried(r.log) == Tried(n.log)
  {
    hide PhaseOf, Safe, Tried;
    TriedSnoc(n.log, Failed(n.socket));
  }

  //// Inserts

  lemma {:induction false} AwaitDataKeeps(cfg: Config, n: Native)
    requires Sound(n)
    ensures var r := AwaitData(cfg, n);
            && Sound(r.n) && SameConnection(n, r.n) && r.n.state == n.state
            && (r.out.Done? ==> r.n.log == n.log + [Began(n.socket)])
            && Tried(r.n.log) == Tried(n.log)
    decreases |n.replies|
  {
    hide PhaseOf, Safe, Receive, Tried;
    TriedSnoc(n.log, Began(n.socket));
    ReceiveKeeps(cfg, n);
    var (r, got) := Receive(cfg, n);
    if got.Got? && !Stops(got.packet) && !got.packet.Data? {
      AwaitDataKeeps(cfg, r);
    }
  }

  /** A started insert is open on the wire; a failed start leaves the client inserting. */
  lemma BeginInsertKeeps(cfg: Config, n: Native)
    requires Sound(n)
    ensures var r := BeginInsert(cfg, n);
            && Sound(r.n) && SameConnection(n, r.n)
            && (n.state != Idle ==> r == Step(n, Threw(LibraryFault)))
            && (n.state == Idle ==> r.n.state == Inserting) && Tried(r.n.log) == Tried(n.log)
            && (r.out.Done? ==> n.state == Idle && r.n.log == n.log + [Began(n.socket)]
                                && PhaseOf(r.n.log, n.socket) == Open(false))
  {
    hide PhaseOf, Safe, Send, AwaitData, Tried;
    if n.state == Idle {
      var q := Send(n.(state := Inserting), Failed(n.socket));
      SendKeeps(n.(state := Inserting), Failed(n.socket));
      if q.out.Done? { AwaitDataKeeps(cfg, q.n); }
      LogSnoc(n.log, Began(n.socket));
    }
  }

  /** A failed block spoils the insert and leaves the client inserting. */
  lemma SendInsertBlockKeeps(n: Native)
    requires Sound(n)
    ensures var r := SendInsertBlock(n);
            && Sound(r.n) && SameConnection(n, r.n) && r.n.state == n.state
            && (n.state != Inserting ==> r == Step(n, Threw(LibraryFault)))
            && (r.out.Done? ==> r.n.log == n.log + [BlockSent(n.socket)])
            && (n.state == Inserting && r.out.Threw? ==>
                  r.n.log == n.log + [BlockFailed(n.socket)] && PhaseOf(r.n.log, n.socket) == Spoiled)
            && (r.out.Done? && PhaseOf(n.log, n.socket).Open? ==> PhaseOf(r.n.log, n.socket) == Open(true))
            && Tried(r.n.log) == Tried(n.log)
  {
    hide PhaseOf, Safe, Tried;
    TriedSnoc(n.log, BlockSent(n.socket));
    TriedSnoc(n.log, BlockFailed(n.socket));
  }

  lemma FinishInsertKeeps(cfg: Config, n: Native, last: Option<Packet>)
    requires Sound(n) && n.state == Inserting && !PhaseOf(n.log, n.socket).Open?
    ensures var r := FinishInsert(cfg, n, last);
            && Sound(r.n) && SameConnection(n, r.n) && n.log <= r.n.log && Tried(r.n.log) == Tried(n.log)
            && (r.out.Done? ==> r.n.state == Idle && r.n.log == n.log)
            && (r.out.Threw? ==> r.n.state == Inserting && PhaseOf(r.n.log, n.socket) == PhaseOf(n.log, n.socket))
  {
    hide PhaseOf, Safe, Tried;
    TriedSnoc(n.log, Failed(n.socket));
  }

  lemma {:induction false} AwaitEndKeeps(cfg: Config, n: Native, last: Option<Packet>)
    requires Sound(n) && n.state == Inserting && !PhaseOf(n.log, n.socket).Open?
    ensures var r := AwaitEnd(cfg, n, last);
            && Sound(r.n) && SameConnection(n, r.n) && n.log <= r.n.log && Tried(r.n.log) == Tried(n.log)
            && (r.out.Done? ==> r.n.state == Idle && r.n.log == n.log)
            && (r.out.Threw? ==> r.n.state == Inserting && PhaseOf(r.n.log, n.socket) == PhaseOf(n.log, n.socket))
    decreases |n.replies|
  {
    hide PhaseOf, Safe, FinishInsert, Tried;
    var (r, got) := Receive(cfg, n);
    ReceiveKeeps(cfg, n);
    match got
    case Raised(_) =>
    case Ended(seen) => FinishInsertKeeps(cfg, r, if seen.Some? then seen else last);
    case Got(p) =>
      if Stops(p) { FinishInsertKeeps(cfg, r, Some(p)); } else { AwaitEndKeeps(cfg, r, Some(p)); }
  }

  /** How the wait for the end of an insert comes to an end: by an exception, or with the last packet
      type that was read. */
  datatype Ending = Broken | Stopped(last: Option<Packet>)

  function EndingOf(cfg: Config, replies: seq<Reply>, last: Option<Packet>): Ending {
    if replies == [] then Stopped(last)
    else
      match Classify(replies[0], cfg.rethrow)
      case Raised(_) => Broken
      case Ended(seen) => Stopped(if seen.Some? then seen else last)
      case Got(p) => if Stops(p) then Stopped(Some(p)) else EndingOf(cfg, replies[1..], Some(p))
  }

  /** The server has confirmed the end of the insert, or has sent a log and then cut the connection. */
  predicate Confirmed(cfg: Config, n: Native) {
    && n.replies != [] && !n.replies[0].Fails? && !n.replies[0].Closed?
    && var ending := EndingOf(cfg, n.replies[1..], None);
       ending == Stopped(Some(EndOfStream)) || ending == Stopped(Some(Log))
  }

  lemma {:induction false} AwaitEndConfirmed(cfg: Config, n: Native, last: Option<Packet>)
    requires cfg.rethrow && last != Some(ServerError)
    ensures var ending := EndingOf(cfg, n.replies, last);
            AwaitEnd(cfg, n, last).out.Done?
            <==> ending == Stopped(Some(EndOfStream)) || ending == Stopped(Some(Log))
    decreases |n.replies|
  {
    hide PhaseOf, Safe;
    var (r, got) := Receive(cfg, n);
    if got.Got? && !Stops(got.packet) {
      AwaitEndConfirmed(cfg, r, Some(got.packet));
    }
  }

  /** With exceptions on, closing succeeds if and only if the last packet type read is the end of the
      stream or a log. */
  lemma EndInsertConfirmed(cfg: Config, n: Native)
    requires cfg.rethrow && n.state == Inserting
    ensures EndInsert(cfg, n).out.Done? <==> Confirmed(cfg, n)
  {
    hide PhaseOf, Safe, AwaitEnd, EndingOf;
    var q := Send(Note(n, Terminator(n.socket)), Failed(n.socket));
    if q.out.Done? { AwaitEndConfirmed(cfg, q.n, None); }
  }

  /** Packets that neither end the wait nor throw. */
  predicate Passing(replies: seq<Reply>) {
    forall i :: 0 <= i < |replies| ==>
      replies[i].Whole? && !Stops(replies[i].packet) && replies[i].packet != Unknown
  }

  lemma {:induction false} EndingOfPassing(cfg: Config, replies: seq<Reply>, last: Option<Packet>)
    requires Passing(replies)
    ensures EndingOf(cfg, replies, last) == Stopped(if replies == [] then last else Some(replies[|replies| - 1].packet))
  {
    if replies != [] { EndingOfPassing(cfg, replies[1..], Some(replies[0].packet)); }
  }

  /** A connection that is cut before the end of the stream counts as success exactly after a log. */
  lemma CutConnectionSucceedsAfterLog(cfg: Config, n: Native, packets: seq<Reply>)
    requires cfg.rethrow && n.state == Inserting && n.replies == [Success] + packets && Passing(packets)
    ensures EndInsert(cfg, n).out.Done? <==> packets != [] && packets[|packets| - 1] == Whole(Log)
  {
    hide EndInsert;
    EndInsertConfirmed(cfg, n);
    assert n.replies[1..] == packets;
    EndingOfPassing(cfg, packets, None);
  }

  /** Closing writes one terminator and waits for its confirmation; a failure leaves the client
      inserting and the insert closing. */
  lemma EndInsertKeeps(cfg: Config, n: Native)
    requires Sound(n) && Closable(n)
    ensures var r := EndInsert(cfg, n);
            && (n.state == Inserting && cfg.rethrow ==> (r.out.Done? <==> Confirmed(cfg, n)))
            && Sound(r.n) && SameConnection(n, r.n)
            && (n.state != Inserting ==> r == Step(n, Done)) && Tried(r.n.log) == Tried(n.log)
            && (n.state == Inserting ==> n.log + [Terminator(n.socket)] <= r.n.log)
            && (n.state == Inserting && r.out.Done? ==>
                  r.n.state == Idle && r.n.log == n.log + [Terminator(n.socket)])
            && (r.out.Threw? ==> n.state == Inserting && r.n.state == Inserting
                                 && PhaseOf(r.n.log, n.socket) == Closing(PhaseOf(n.log, n.socket).sent))
  {
    hide PhaseOf, Safe, AwaitEnd, Tried, EndingOf;
    if n.state == Inserting {
      if cfg.rethrow { EndInsertConfirmed(cfg, n); }
      TriedSnoc(n.log, Terminator(n.socket));
      var t := Note(n, Terminator(n.socket));
      assert Sound(t) && PhaseOf(t.log, n.socket) == Closing(PhaseOf(n.log, n.socket).sent);
      var q := Send(t, Failed(n.socket));
      SendKeeps(t, Failed(n.socket));
      if q.out.Done? { AwaitEndKeeps(cfg, q.n, None); }
    }
  }

  /** The destructor's terminator is allowed too, and the client it leaves is idle. */
  lemma DestroyKeeps(cfg: Config, n: Native)
    requires Sound(n) && Closable(n) && n.state != Selecting
    ensures Sound(Destroy(cfg, n)) && Destroy(cfg, n).state == Idle
    ensures n.state == Idle ==> Destroy(cfg, n) == n
    ensures n.state == Inserting ==> n.log + [Terminator(n.socket)] <= Destroy(cfg, n).log
  {
    hide PhaseOf, Safe, EndInsert;
    EndInsertKeeps(cfg, n);
  }

  //// Queries

  lemma {:induction false} NextBlockKeeps(cfg: Config, n: Native)
    requires Sound(n) && n.state == Selecting
    ensures var (r, more) := NextBlock(cfg, n);
            && Sound(r.n) && SameConnection(n, r.n) && r.n.state == (if more then Selecting else Idle)
            && (r.out.Done? ==> r.n.log == n.log) && Tried(r.n.log) == Tried(n.log)
    decreases |n.replies|
  {
    hide PhaseOf, Safe, Receive, Tried;
    ReceiveKeeps(cfg, n);
    var (r, got) := Receive(cfg, n);
    if got.Got? && !Stops(got.packet) && !(got.packet.Data? && got.packet.columns != 0) {
      NextBlockKeeps(cfg, r);
    }
  }

  lemma {:induction false} DrainKeeps(cfg: Config, n: Native)
    requires Sound(n) && n.state == Selecting
    ensures var r := Drain(cfg, n);
            && Sound(r.n) && SameConnection(n, r.n) && r.n.state == Idle
            && (r.out.Done? ==> r.n.log == n.log) && Tried(r.n.log) == Tried(n.log)
    decreases |n.replies|
  {
    hide PhaseOf, Safe, NextBlock, Tried;
    NextBlockKeeps(cfg, n);
    var (r, more) := NextBlock(cfg, n);
    if more { DrainKeeps(cfg, r.n); }
  }

  /** A query leaves an idle client idle however it ends, and a busy client as it was. */
  lemma QueryKeeps(cfg: Config, n: Native)
    requires Sound(n)
    ensures forall r :: r == ExecuteQuery(cfg, n) || r == SelectWithExternalData(cfg, n) ==>
              && Sound(r.n) && SameConnection(n, r.n) && r.n.state == n.state
              && (n.state != Idle ==> r == Step(n, Threw(LibraryFault)))
              && (r.out.Done? ==> r.n.log == n.log + [Queried(n.socket)]) && Tried(r.n.log) == Tried(n.log)
  {
    hide PhaseOf, Safe, Drain, Send, Tried;
    if n.state == Idle {
      var q := Send(n.(state := Selecting), Failed(n.socket));
      SendKeeps(n.(state := Selecting), Failed(n.socket));
      if q.out.Done? {
        var b := Note(q.n, Queried(n.socket));
        TriedSnoc(q.n.log, Queried(n.socket));
        DrainKeeps(cfg, b);
        var d := Send(b, Failed(n.socket));
        SendKeeps(b, Failed(n.socket));
        if d.out.Done? { DrainKeeps(cfg, d.n); }
      }
    }
  }

  lemma PingKeeps(cfg: Config, n: Native)
    requires Sound(n)
    ensures var r := Ping(cfg, n);
            && Sound(r.n) && SameConnection(n, r.n) && r.n.state == n.state
            && (n.state != Idle ==> r == Step(n, Threw(LibraryFault)))
  {
    hide PhaseOf, Safe, Send, Receive;
    var q := Send(n, Failed(n.socket));
    SendKeeps(n, Failed(n.socket));
    ReceiveKeeps(cfg, q.n);
  }

  //// Connections

  /** A fresh socket on which nothing has happened but being opened for the endpoint. */
  ghost predicate Fresh(n: Native, r: Native, endpoint: nat) {
    n.sockets < r.socket == r.sockets && r.log == n.log + [Event.Opened(r.socket, endpoint)]
  }

  lemma HandshakeKeeps(n: Native)
    requires Sound(n)
    ensures var r := Handshake(n);
            && Sound(r.n) && SameConnection(n, r.n) && r.n.state == n.state
            && Tried(r.n.log) == Tried(n.log) && (r.out.Done? ==> r.n.log == n.log)
  {
    hide PhaseOf, Safe, Tried;
    TriedSnoc(n.log, Failed(n.socket));
  }

  /** However a reconnect ends, the client is idle and one endpoint has been tried; a successful
      one leaves a fresh socket. */
  lemma ReconnectKeeps(n: Native)
    requires Sound(n) && n.current.Some?
    ensures var r := Reconnect(n);
            && Sound(r.n) && r.n.state == Idle && r.n.index == n.index && r.n.current == n.current
            && n.sockets <= r.n.sockets
            && Tried(r.n.log) == Tried(n.log) + [n.current.value]
            && (r.out.Done? ==> Fresh(n, r.n, n.current.value))
            && (r.n.socket == n.socket || n.sockets < r.n.socket)
  {
    hide PhaseOf, Safe, Tried, Handshake;
    var idle, socket, endpoint := Take(n.(state := Idle)), n.sockets + 1, n.current.value;
    TriedSnoc(n.log, Refused(endpoint));
    TriedSnoc(n.log, Event.Opened(socket, endpoint));
    var connected := Note(idle.(socket := socket, sockets := socket), Event.Opened(socket, endpoint));
    assert Sound(connected);
    HandshakeKeeps(connected);
  }

  //// Rotation

  /** The next count endpoints of the ring, after the one at start. */
  function Round(cfg: Config, start: nat, count: nat): (r: seq<nat>)
    requires start < cfg.endpoints
    ensures |r| == count
    decreases count
  {
    if count == 0 then []
    else
      var k := (start + 1) % cfg.endpoints;
      [k] + Round(cfg, k, count - 1)
  }

  lemma {:induction false} RoundAt(cfg: Config, start: nat, count: nat, j: nat)
    requires start < cfg.endpoints && j < count <= cfg.endpoints
    ensures Round(cfg, start, count)[j]
         == if start + 1 + j < cfg.endpoints then start + 1 + j else start + 1 + j - cfg.endpoints
    decreases count
  {
    Successor(start, cfg.endpoints);
    var k := (start + 1) % cfg.endpoints;
    if j != 0 {
      RoundAt(cfg, k, count - 1, j - 1);
      assert Round(cfg, start, count)[j] == Round(cfg, k, count - 1)[j - 1];
    }
  }

  lemma Successor(a: nat, n: nat)
    requires a < n
    ensures (a + 1) % n == if a + 1 < n then a + 1 else 0
  {
  }

  /** Within one round no endpoint comes twice, and a whole round has them all. */
  lemma RoundIsFair(cfg: Config, start: nat, count: nat)
    requires start < cfg.endpoints && count <= cfg.endpoints
    ensures forall i, j :: 0 <= i < j < count ==> Round(cfg, start, count)[i] != Round(cfg, start, count)[j]
    ensures count == cfg.endpoints ==> forall e :: 0 <= e < cfg.endpoints ==> e in Round(cfg, start, count)
  {
    hide Round;
    forall i, j | 0 <= i < j < count
      ensures Round(cfg, start, count)[i] != Round(cfg, start, count)[j]
    {
      RoundAt(cfg, start, count, i);
      RoundAt(cfg, start, count, j);
    }
    if count == cfg.endpoints {
      forall e | 0 <= e < cfg.endpoints ensures e in Round(cfg, start, count) {
        RoundAt(cfg, start, count, if start < e then e - start - 1 else e + cfg.endpoints - start - 1);
      }
    }
  }

  /** The client is connected to the current endpoint by its last socket, and idle. */
  ghost predicate Connected(n: Native) {
    && n.state == Idle && n.current.Some? && n.log != [] && n.socket == n.sockets
    && n.log[|n.log| - 1] == Event.Opened(n.socket, n.current.value)
  }

  /** What a rotation that has tried i endpoints does with the rest. */
  ghost predicate Rotated(cfg: Config, n: Native, r: Step, i: nat)
    requires n.index < cfg.endpoints
  {
    var count := |Tried(r.n.log)| - |Tried(n.log)|;
    && Sound(r.n) && r.n.state == Idle && r.n.index < cfg.endpoints && n.sockets <= r.n.sockets
    && (r.n.socket == n.socket || n.sockets < r.n.socket)
    && 1 <= count <= cfg.endpoints - i
    && Tried(r.n.log) == Tried(n.log) + Round(cfg, n.index, count)
    && (r.out.Done? ==> Connected(r.n) && n.sockets < r.n.socket)
    && (r.out.Threw? && Retriable(r.out.fault) ==> count == cfg.endpoints - i && r.n.current == None)
    && (r.out == Threw(OtherFault) ==> r.n.current == Some(Tried(r.n.log)[|Tried(r.n.log)| - 1]))
  }

  lemma {:induction false} RotateKeeps(cfg: Config, n: Native, i: nat)
    requires Sound(n) && n.index < cfg.endpoints && i < cfg.endpoints
    ensures Rotated(cfg, n, Rotate(cfg, n, i), i)
    decreases cfg.endpoints - i
  {
    hide PhaseOf, Safe, Tried, Reconnect;
    var k := NextEndpoint(cfg, n);
    var chosen := n.(index := k, current := Some(k));
    ReconnectKeeps(chosen);
    var r := Reconnect(chosen);
    assert Round(cfg, n.index, 1) == [k];
    if r.out.Threw? && Retriable(r.out.fault) && i + 1 < cfg.endpoints {
      RotateKeeps(cfg, r.n, i + 1);
      RotatedTwice(cfg, n, r.n, Rotate(cfg, r.n, i + 1), i);
    }
  }

  lemma RotatedTwice(cfg: Config, n: Native, m: Native, r: Step, i: nat)
    requires n.index < cfg.endpoints && i + 1 < cfg.endpoints && m.index == (n.index + 1) % cfg.endpoints
    requires n.sockets <= m.sockets && (m.socket == n.socket || n.sockets < m.socket)
    requires Tried(m.log) == Tried(n.log) + [m.index] && Rotated(cfg, m, r, i + 1)
    ensures Rotated(cfg, n, r, i)
  {
    hide PhaseOf, Safe, Tried, Sound, Connected;
    var count := |Tried(r.n.log)| - |Tried(m.log)|;
    assert Round(cfg, n.index, count + 1) == [m.index] + Round(cfg, m.index, count);
    Assoc(Tried(n.log), [m.index], Round(cfg, m.index, count));
  }

  /** One call tries each endpoint at most once, in ring order; it fails with a retriable exception
      only after all of them, and on success the current endpoint is the connected one. */
  lemma ResetConnectionEndpointRotates(cfg: Config, n: Native)
    requires Sound(n) && n.index < cfg.endpoints
    ensures var r := ResetConnectionEndpoint(cfg, n);
            && Rotated(cfg, n, r, 0)
            && |Tried(n.log)| <= |Tried(r.n.log)|
            && var tried := Tried(r.n.log)[|Tried(n.log)|..];
            && (forall i, j :: 0 <= i < j < |tried| ==> tried[i] != tried[j])
            && (r.out.Threw? && Retriable(r.out.fault) ==>
                  r.n.current == None && forall e :: 0 <= e < cfg.endpoints ==> e in tried)
  {
    hide PhaseOf, Safe, Tried, Rotate, Round;
    var r := ResetConnectionEndpoint(cfg, n);
    RotateKeeps(cfg, n.(current := None), 0);
    var count := |Tried(r.n.log)| - |Tried(n.log)|;
    assert Tried(r.n.log)[|Tried(n.log)|..] == Round(cfg, n.index, count);
    RoundIsFair(cfg, n.index, count);
  }

  /** However a reset ends, nothing of an insert is left in the client. */
  lemma ResetConnectionKeeps(cfg: Config, n: Native)
    requires Sound(n) && n.index < cfg.endpoints
    ensures var r := ResetConnection(cfg, n);
            && Sound(r.n) && r.n.state == Idle && r.n.index < cfg.endpoints && n.sockets <= r.n.sockets
            && (r.n.socket == n.socket || n.sockets < r.n.socket)
            && (r.out.Done? ==> Connected(r.n) && n.sockets < r.n.socket)
            && |Tried(n.log)| < |Tried(r.n.log)|
  {
    hide PhaseOf, Safe, Tried, Rotate, Round, Reconnect;
    if n.current.None? { RotateKeeps(cfg, n, 0); } else { ReconnectKeeps(n); }
  }

  /** Connecting makes at most max(1, retries) rounds, exactly that many if it fails with a
      retriable exception. */
  lemma {:induction false} CreateConnectionKeeps(cfg: Config, n: Native, i: nat)
    requires Sound(n) && n.index < cfg.endpoints && i < MaxAttempts(cfg)
    ensures var r := CreateConnection(cfg, n, i);
            var count := |Tried(r.n.log)| - |Tried(n.log)|;
            && Sound(r.n) && r.n.state == Idle && r.n.index < cfg.endpoints && n.sockets <= r.n.sockets
            && 1 <= count <= (MaxAttempts(cfg) - i) * cfg.endpoints
            && (r.out.Done? ==> Connected(r.n) && n.sockets < r.n.socket)
            && (r.out.Threw? && Retriable(r.out.fault) ==> count == (MaxAttempts(cfg) - i) * cfg.endpoints)
    decreases MaxAttempts(cfg) - i
  {
    hide PhaseOf, Safe, Tried, Rotate, Round, Connected;
    var r := ResetConnectionEndpoint(cfg, n);
    RotateKeeps(cfg, n.(current := None), 0);
    Distribute(MaxAttempts(cfg) - i, cfg.endpoints);
    if r.out.Threw? && Retriable(r.out.fault) && i + 1 < MaxAttempts(cfg) {
      CreateConnectionKeeps(cfg, r.n, i + 1);
    }
  }

  lemma Distribute(a: nat, b: nat)
    requires 1 <= a
    ensures a * b == b + (a - 1) * b && b <= a * b
  {
  }
}
