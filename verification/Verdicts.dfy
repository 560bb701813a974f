/** What the network's replies decide: exactly when the operations of the native client succeed, with
    which exception they fail, and what they leave unread. */
module Verdicts {
  import opened Bytes
  import opened NativeProtocol
  import opened ClickHouseSession

  /** A connect, or a write and its flush, that goes through. */
  predicate Passes(r: Reply) {
    !r.Fails? && !r.Closed?
  }

  function FaultOf(r: Reply): Fault
    requires !Passes(r)
  {
    if r.Fails? then r.fault else SystemFault
  }

  //// Connecting

  /** Two replies: the client's hello goes out, and the server's comes back whole. */
  predicate SaysHello(rs: seq<Reply>) {
    2 <= |rs| && Passes(rs[0]) && rs[1] == Whole(Hello)
  }

  /** The exception of a handshake that fails. */
  function Refusal(rs: seq<Reply>): Fault {
    if rs == [] then SystemFault
    else if !Passes(rs[0]) then FaultOf(rs[0])
    else if 2 <= |rs| && rs[1].Fails? then rs[1].fault
    else if 2 <= |rs| && (rs[1] == Whole(ServerError) || rs[1] == CutShort(ServerError)) then ServerFault
    else LibraryFault
  }

  /** A handshake succeeds exactly if the server says hello; a login that the server refuses with an
      exception is that exception. */
  lemma HandshakeDecides(n: Native)
    ensures Handshake(n).out == if SaysHello(n.replies) then Done else Threw(Refusal(n.replies))
    ensures 2 <= |n.replies| && Passes(n.replies[0]) && n.replies[1] == Whole(ServerError) ==>
              Handshake(n).out == Threw(ServerFault)
    ensures Handshake(n).n.replies == Drop(n.replies, if n.replies != [] && Passes(n.replies[0]) then 2 else 1)
  {
    hide PhaseOf, Safe;
    DropAgain(n.replies, 1, 1);
  }

  function Drop<T>(s: seq<T>, k: nat): seq<T> {
    if k <= |s| then s[k..] else []
  }

  lemma DropAgain<T>(s: seq<T>, j: nat, k: nat)
    ensures Drop(Drop(s, j), k) == Drop(s, j + k)
  {
  }

  /** Three replies: the socket is opened, and the handshake on it succeeds. */
  predicate Answers(rs: seq<Reply>) {
    rs != [] && Passes(rs[0]) && SaysHello(rs[1..])
  }

  function Failure(rs: seq<Reply>): Fault {
    if rs == [] then SystemFault else if !Passes(rs[0]) then FaultOf(rs[0]) else Refusal(rs[1..])
  }

  /** How many replies an attempt to connect uses up. */
  function Used(rs: seq<Reply>): nat {
    if rs == [] || !Passes(rs[0]) then 1 else if |rs| == 1 || !Passes(rs[1]) then 2 else 3
  }

  lemma ReconnectDecides(n: Native)
    requires n.current.Some?
    ensures Reconnect(n).out == if Answers(n.replies) then Done else Threw(Failure(n.replies))
    ensures Reconnect(n).n.replies == Drop(n.replies, Used(n.replies))
  {
    hide PhaseOf, Safe, Handshake, SaysHello, Refusal;
    var idle, socket := Take(n.(state := Idle)), n.sockets + 1;
    var started := Note(idle.(socket := socket, sockets := socket), Event.Opened(socket, n.current.value));
    HandshakeDecides(started);
    DropAgain(n.replies, 1, 1);
    DropAgain(n.replies, 1, 2);
  }

  /** Attempt j of several is the first to be answered; those before it fail with an exception that
      lets the client go on. */
  predicate AnswersAt(rs: seq<Reply>, j: nat)
    decreases j
  {
    if j == 0 then Answers(rs)
    else !Answers(rs) && Failure(rs) != OtherFault && AnswersAt(Drop(rs, Used(rs)), j - 1)
  }

  ghost predicate AnswersWithin(rs: seq<Reply>, m: nat) {
    exists j :: 0 <= j < m && AnswersAt(rs, j)
  }

  /** All of m attempts fail, and each lets the client go on. */
  predicate AllRefuse(rs: seq<Reply>, m: nat)
    decreases m
  {
    m == 0 || (!Answers(rs) && Failure(rs) != OtherFault && AllRefuse(Drop(rs, Used(rs)), m - 1))
  }

  /** The replies behind m attempts. */
  function Behind(rs: seq<Reply>, m: nat): seq<Reply>
    decreases m
  {
    if m == 0 then rs else Behind(Drop(rs, Used(rs)), m - 1)
  }

  /** Some attempt is answered if the first is, or if it fails retriably and a later one is. */
  lemma AnswersStep(rs: seq<Reply>, m: nat)
    requires 0 < m
    ensures AnswersWithin(rs, m)
       <==> Answers(rs) || (Failure(rs) != OtherFault && AnswersWithin(Drop(rs, Used(rs)), m - 1))
  {
    var later := Drop(rs, Used(rs));
    if Answers(rs) {
      assert AnswersAt(rs, 0);
    } else {
      if Failure(rs) != OtherFault && AnswersWithin(later, m - 1) {
        var j :| 0 <= j < m - 1 && AnswersAt(later, j);
        assert AnswersAt(rs, j + 1);
      }
      if AnswersWithin(rs, m) {
        var j :| 0 <= j < m && AnswersAt(rs, j);
        assert AnswersAt(later, j - 1);
      }
    }
  }

  /** A rotation that has tried i endpoints succeeds exactly if one of the others answers before any
      of them fails for good, and gives up with a retriable exception exactly if all of them refuse. */
  lemma {:induction false} RotateDecides(cfg: Config, n: Native, i: nat)
    requires i < cfg.endpoints && n.index < cfg.endpoints
    ensures var r, m := Rotate(cfg, n, i), cfg.endpoints - i;
            && (r.out.Done? <==> AnswersWithin(n.replies, m))
            && (r.out.Threw? && r.out.fault != OtherFault <==> AllRefuse(n.replies, m))
            && (r.out.Threw? && r.out.fault != OtherFault ==> r.n.replies == Behind(n.replies, m))
    decreases cfg.endpoints - i
  {
    hide PhaseOf, Safe, Reconnect, Answers, Failure, Used;
    var k, m, rs := NextEndpoint(cfg, n), cfg.endpoints - i, n.replies;
    var chosen := n.(index := k, current := Some(k));
    ReconnectDecides(chosen);
    ReconnectStays(chosen);
    AnswersStep(rs, m);
    var r := Reconnect(chosen);
    assert AllRefuse(rs, 1) <==> !Answers(rs) && Failure(rs) != OtherFault;
    if r.out.Threw? && Retriable(r.out.fault) && i + 1 < cfg.endpoints {
      RotateDecides(cfg, r.n, i + 1);
    } else if r.out.Threw? && Retriable(r.out.fault) {
      assert !AnswersWithin(Drop(rs, Used(rs)), 0);
    }
  }

  /** The rotation ends at the endpoint that answers first, in ring order. */
  lemma {:induction false} RotateConnects(cfg: Config, n: Native, i: nat, j: nat)
    requires i < cfg.endpoints && n.index < cfg.endpoints && j < cfg.endpoints - i && AnswersAt(n.replies, j)
    ensures Rotate(cfg, n, i).out.Done? && Rotate(cfg, n, i).n.current == Some((n.index + 1 + j) % cfg.endpoints)
    decreases j
  {
    hide PhaseOf, Safe, Reconnect, Answers, AnswersAt, Failure, Used;
    var k := NextEndpoint(cfg, n);
    var chosen := n.(index := k, current := Some(k));
    ReconnectDecides(chosen);
    ReconnectStays(chosen);
    AnswersAtStep(n.replies, j);
    if j != 0 {
      var r := Reconnect(chosen);
      RotateConnects(cfg, r.n, i + 1, j - 1);
      RingStep(n.index, j, cfg.endpoints);
      assert Rotate(cfg, n, i) == Rotate(cfg, r.n, i + 1);
    }
  }

  lemma AnswersAtStep(rs: seq<Reply>, j: nat)
    ensures AnswersAt(rs, j)
       <==> if j == 0 then Answers(rs) else !Answers(rs) && Failure(rs) != OtherFault && AnswersAt(Drop(rs, Used(rs)), j - 1)
  {
  }

  lemma ReconnectStays(n: Native)
    requires n.current.Some?
    ensures Reconnect(n).n.index == n.index && Reconnect(n).n.current == n.current
  {
    hide PhaseOf, Safe;
  }

  lemma RingStep(index: nat, j: nat, endpoints: nat)
    requires index < endpoints && 0 < j < endpoints
    ensures ((index + 1) % endpoints + 1 + (j - 1)) % endpoints == (index + 1 + j) % endpoints
  {
    OnceAround(index + 1, endpoints);
    OnceAround(index + 1 + j, endpoints);
    OnceAround((index + 1) % endpoints + 1 + (j - 1), endpoints);
  }

  lemma OnceAround(k: nat, endpoints: nat)
    requires k < 2 * endpoints
    ensures k % endpoints == if k < endpoints then k else k - endpoints
  {
  }

  lemma {:induction false} AttemptsConcat(rs: seq<Reply>, a: nat, b: nat)
    ensures AnswersWithin(rs, a + b) <==> AnswersWithin(rs, a) || (AllRefuse(rs, a) && AnswersWithin(Behind(rs, a), b))
    ensures AllRefuse(rs, a + b) <==> AllRefuse(rs, a) && AllRefuse(Behind(rs, a), b)
    decreases a
  {
    hide Answers, Failure, Used;
    if a != 0 {
      AnswersStep(rs, a);
      AnswersStep(rs, a + b);
      AttemptsConcat(Drop(rs, Used(rs)), a - 1, b);
    } else {
      assert !AnswersWithin(rs, 0);
    }
  }

  /** Connecting succeeds exactly if one of the attempts of all rounds is answered before one fails
      for good. */
  lemma {:induction false} CreateConnectionDecides(cfg: Config, n: Native, i: nat)
    requires Configured(cfg) && n.index < cfg.endpoints && i < MaxAttempts(cfg)
    ensures CreateConnection(cfg, n, i).out.Done? <==> AnswersWithin(n.replies, (MaxAttempts(cfg) - i) * cfg.endpoints)
    decreases MaxAttempts(cfg) - i
  {
    hide PhaseOf, Safe, Rotate, Answers, Failure, Used;
    var r, left := ResetConnectionEndpoint(cfg, n), MaxAttempts(cfg) - i;
    RotateDecides(cfg, n.(current := None), 0);
    RotateIndex(cfg, n.(current := None), 0);
    OneRoundMore(left, cfg.endpoints);
    AttemptsConcat(n.replies, cfg.endpoints, (left - 1) * cfg.endpoints);
    if r.out.Threw? && Retriable(r.out.fault) && i + 1 < MaxAttempts(cfg) {
      CreateConnectionDecides(cfg, r.n, i + 1);
    } else if left == 1 {
      assert !AnswersWithin(Behind(n.replies, cfg.endpoints), (left - 1) * cfg.endpoints);
    }
  }

  lemma OneRoundMore(rounds: nat, endpoints: nat)
    requires 0 < rounds
    ensures rounds * endpoints == endpoints + (rounds - 1) * endpoints
    ensures rounds == 1 ==> (rounds - 1) * endpoints == 0
  {
  }

  lemma {:induction false} RotateIndex(cfg: Config, n: Native, i: nat)
    requires i < cfg.endpoints && n.index < cfg.endpoints
    ensures Rotate(cfg, n, i).n.index < cfg.endpoints
    decreases cfg.endpoints - i
  {
    hide PhaseOf, Safe, Reconnect;
    var k := NextEndpoint(cfg, n);
    var chosen := n.(index := k, current := Some(k));
    ReconnectStays(chosen);
    var r := Reconnect(chosen);
    if r.out.Threw? && Retriable(r.out.fault) && i + 1 < cfg.endpoints { RotateIndex(cfg, r.n, i + 1); }
  }

  /** A new client begins with the first endpoint: in its first round it is connected to the one that
      answers first, counted from there. */
  lemma NewClientConnects(cfg: Config, n: Native, j: nat)
    requires Configured(cfg) && j < cfg.endpoints && AnswersAt(n.replies, j)
    ensures Construct(cfg, n).out.Done? && Construct(cfg, n).n.current == Some(j)
  {
    hide Rotate, AnswersAt;
    var u := Unconnected(cfg, n);
    RotateConnects(cfg, u, 0, j);
    FirstRound(j, cfg.endpoints);
    assert u.(current := None) == u;
  }

  lemma FirstRound(j: nat, endpoints: nat)
    requires j < endpoints
    ensures (endpoints - 1 + 1 + j) % endpoints == j
  {
    OnceAround(endpoints + j, endpoints);
  }

  /** So a construction, and a switch of the database that is let in, succeed exactly if the server
      answers one of the attempts with its hello. */
  lemma ConnectingDecides(cfg: Config, p: Session, named: bool)
    requires Configured(cfg)
    ensures var answered := AnswersWithin(p.native.replies, (if cfg.retries == 0 then 1 else cfg.retries) * cfg.endpoints);
            && (!p.alive ==> (Create(cfg, p, named).out.Done? <==> answered))
            && (Admitted(p) && !p.hasInsertBlock ==> (SetDatabase(cfg, p, true, named).out.Done? <==> answered))
  {
    hide CreateConnection, Destroy, AnswersWithin;
    CreateConnectionDecides(cfg, Unconnected(cfg, p.native), 0);
  }

  //// Packets

  /** The packets that neither end a packet loop nor make it throw. */
  predicate IsPassed(r: Reply) {
    match r
    case Whole(p) => p != ServerError && p != EndOfStream && p != Unknown
    case CutShort(p) => p == Pong || p == Hello
    case _ => false
  }

  predicate IsData(r: Reply) {
    r.Whole? && r.packet.Data?
  }

  predicate IsBlock(r: Reply) {
    IsData(r) && r.packet.columns != 0
  }

  predicate BeforeBlock(r: Reply) {
    IsPassed(r) && !IsBlock(r)
  }

  predicate BeforeData(r: Reply) {
    IsPassed(r) && !IsData(r)
  }

  /** How many replies at the front have a property. */
  function Lead(rs: seq<Reply>, passes: Reply -> bool): (k: nat)
    ensures k <= |rs| && (forall i :: 0 <= i < k ==> passes(rs[i])) && (k < |rs| ==> !passes(rs[k]))
  {
    if rs == [] || !passes(rs[0]) then 0 else 1 + Lead(rs[1..], passes)
  }

  function ReplyAt(rs: seq<Reply>, k: nat): Reply {
    if k < |rs| then rs[k] else Closed
  }

  /** How a loop ends at a reply that is not passed: the end of the stream, or of what can be read,
      or an exception. */
  function Verdict(cfg: Config, r: Reply): Outcome {
    match r
    case Whole(ServerError) => if cfg.rethrow then Threw(ServerFault) else Done
    case Whole(Unknown) => Threw(LibraryFault)
    case CutShort(ServerError) => Threw(if cfg.rethrow then ServerFault else LibraryFault)
    case CutShort(Data(_)) => Threw(LibraryFault)
    case CutShort(Unknown) => Threw(LibraryFault)
    case Fails(f) => Threw(f)
    case _ => Done
  }

  /** Which replies a loop passes, and what it makes of the others. */
  lemma ReceiveDecides(cfg: Config, n: Native)
    ensures var (r, got) := Receive(cfg, n);
            var reply := ReplyAt(n.replies, 0);
            && r.replies == Drop(n.replies, 1) && r.state == n.state && r.socket == n.socket
            && (IsPassed(reply) <==> got.Got? && !Stops(got.packet))
            && (IsPassed(reply) ==> got.packet == reply.packet)
            && (!IsPassed(reply) ==> Verdict(cfg, reply) == if got.Raised? then Threw(got.fault) else Done)
  {
    hide PhaseOf, Safe;
  }

  /** The first block with columns is returned, whatever packets come before it; without one the loop
      ends as its last reply says. */
  lemma {:induction false} NextBlockDecides(cfg: Config, n: Native)
    requires n.state == Selecting
    ensures var (r, more) := NextBlock(cfg, n);
            var k := Lead(n.replies, BeforeBlock);
            && (more <==> k < |n.replies| && IsBlock(n.replies[k]))
            && r.out == (if more then Done else Verdict(cfg, ReplyAt(n.replies, k)))
            && r.n.replies == Drop(n.replies, k + 1)
    decreases |n.replies|
  {
    hide PhaseOf, Safe, Receive, Verdict;
    ReceiveDecides(cfg, n);
    var (r, got) := Receive(cfg, n);
    var k := Lead(n.replies, BeforeBlock);
    if k != 0 {
      assert r.replies == n.replies[1..];
      NextBlockDecides(cfg, r);
    }
  }

  lemma {:induction false} LeadSplit(rs: seq<Reply>, passes: Reply -> bool, m: nat)
    requires m <= |rs| && forall i :: 0 <= i < m ==> passes(rs[i])
    ensures Lead(rs, passes) == m + Lead(rs[m..], passes)
  {
    if m == 0 {
      assert rs[0..] == rs;
    } else {
      LeadSplit(rs[1..], passes, m - 1);
      assert rs[1..][m - 1..] == rs[m..];
    }
  }

  lemma {:induction false} DrainDecides(cfg: Config, n: Native)
    requires n.state == Selecting
    ensures Drain(cfg, n).out == Verdict(cfg, ReplyAt(n.replies, Lead(n.replies, IsPassed)))
    decreases |n.replies|
  {
    hide PhaseOf, Safe, NextBlock, Verdict;
    var rs, k := n.replies, Lead(n.replies, BeforeBlock);
    var (r, more) := NextBlock(cfg, n);
    NextBlockDecides(cfg, n);
    LeadSplit(rs, IsPassed, k);
    if more {
      assert r.n.replies == rs[k + 1..];
      LeadSplit(rs, IsPassed, k + 1);
      assert rs[k..][1..] == rs[k + 1..];
      DrainDecides(cfg, r.n);
    } else {
      assert k < |rs| ==> rs[k..][0] == rs[k];
    }
  }

  /** A query that has been sent ends as the first reply says that it does not pass. */
  lemma QueryDecides(cfg: Config, n: Native)
    requires n.state == Idle
    ensures var rs := n.replies;
            ExecuteQuery(cfg, n).out ==
              if rs == [] || !Passes(rs[0]) then Threw(if rs == [] then SystemFault else FaultOf(rs[0]))
              else Verdict(cfg, ReplyAt(rs[1..], Lead(rs[1..], IsPassed)))
  {
    hide PhaseOf, Safe, Drain, Verdict;
    var b := BeginExecuteQuery(n);
    if b.out.Done? { DrainDecides(cfg, b.n); }
  }

  /** A ping succeeds exactly if it goes out and the next packet is a pong. */
  lemma PingDecides(cfg: Config, n: Native)
    ensures NativeProtocol.Ping(cfg, n).out.Done?
       <==> n.state == Idle && 2 <= |n.replies| && Passes(n.replies[0])
            && (n.replies[1] == Whole(Pong) || n.replies[1] == CutShort(Pong))
  {
    hide PhaseOf, Safe;
  }

  lemma {:induction false} AwaitDataDecides(cfg: Config, n: Native)
    ensures var r, k := AwaitData(cfg, n), Lead(n.replies, BeforeData);
            && (r.out.Done? <==> k < |n.replies| && IsData(n.replies[k]))
            && (r.out.Threw? ==> r.out == match Verdict(cfg, ReplyAt(n.replies, k))
                                          case Threw(f) => Threw(f)
                                          case Done => Threw(LibraryFault))
            && r.n.replies == Drop(n.replies, k + 1)
    decreases |n.replies|
  {
    hide PhaseOf, Safe, Receive, Verdict;
    ReceiveDecides(cfg, n);
    var (r, got) := Receive(cfg, n);
    if Lead(n.replies, BeforeData) != 0 {
      assert r.replies == n.replies[1..];
      AwaitDataDecides(cfg, r);
    }
  }

  /** An insert starts exactly if the query goes out and a data packet comes before any packet that
      ends the stream or throws. */
  lemma BeginInsertDecides(cfg: Config, n: Native)
    ensures var rs := n.replies;
            BeginInsert(cfg, n).out.Done?
            <==> n.state == Idle && rs != [] && Passes(rs[0])
                 && var k := Lead(rs[1..], BeforeData); k < |rs[1..]| && IsData(rs[1..][k])
  {
    hide PhaseOf, Safe, AwaitData;
    if n.state == Idle {
      var q := Send(n.(state := Inserting), Failed(n.socket));
      if q.out.Done? { AwaitDataDecides(cfg, q.n); }
    }
  }

  /** The server has confirmed the end: with the end of the stream, or a log behind which, or inside
      which, the stream stops. */
  predicate Confirms(rs: seq<Reply>, last: Option<Packet>) {
    var k := Lead(rs, IsPassed);
    match ReplyAt(rs, k)
    case Whole(p) => p == EndOfStream
    case CutShort(p) => p == EndOfStream || p == Log
    case Fails(_) => false
    case _ => if k == 0 then last == Some(EndOfStream) || last == Some(Log) else rs[k - 1] == Whole(Log)
  }

  lemma {:induction false} AwaitEndDecides(cfg: Config, n: Native, last: Option<Packet>)
    requires cfg.rethrow && last != Some(ServerError)
    ensures var r := AwaitEnd(cfg, n, last);
            && (r.out.Done? <==> Confirms(n.replies, last))
            && (r.out.Threw? ==> r.out == match Verdict(cfg, ReplyAt(n.replies, Lead(n.replies, IsPassed)))
                                          case Threw(f) => Threw(f)
                                          case Done => Threw(LibraryFault))
    decreases |n.replies|
  {
    hide PhaseOf, Safe;
    var (r, got) := Receive(cfg, n);
    if Lead(n.replies, IsPassed) != 0 {
      assert r.replies == n.replies[1..];
      AwaitEndDecides(cfg, r, Some(got.packet));
    }
  }

  /** With exceptions on, an open insert is closed exactly if the terminator goes out and the server
      confirms it. */
  lemma EndInsertDecides(cfg: Config, n: Native)
    requires cfg.rethrow && n.state == Inserting
    ensures EndInsert(cfg, n).out.Done?
       <==> n.replies != [] && Passes(n.replies[0]) && Confirms(n.replies[1..], None)
  {
    hide PhaseOf, Safe, AwaitEnd, Confirms;
    var q := Send(Note(n, Terminator(n.socket)), Failed(n.socket));
    if q.out.Done? { AwaitEndDecides(cfg, q.n, None); }
  }

  /** With exceptions off the client asks for no confirmation: closing succeeds exactly if the
      terminator goes out and nothing is thrown before the stream stops. */
  lemma {:induction false} AwaitEndLeniently(cfg: Config, n: Native, last: Option<Packet>)
    requires !cfg.rethrow
    ensures AwaitEnd(cfg, n, last).out == Verdict(cfg, ReplyAt(n.replies, Lead(n.replies, IsPassed)))
    decreases |n.replies|
  {
    hide PhaseOf, Safe;
    var (r, got) := Receive(cfg, n);
    if Lead(n.replies, IsPassed) != 0 {
      assert r.replies == n.replies[1..];
      AwaitEndLeniently(cfg, r, Some(got.packet));
    }
  }

  /** A recovery that has no database to select succeeds exactly if one of its attempts is answered: one
      at the current endpoint, if there is one, or a round, and then a round more; with a database, only
      if that is so. */
  lemma ReapplyDecides(cfg: Config, p: Session, clear: bool)
    requires Configured(cfg) && p.alive && p.native.index < cfg.endpoints
    ensures var first := if p.native.current.Some? then 1 else cfg.endpoints;
            var answered := AnswersWithin(p.native.replies, first + cfg.endpoints);
            && (!p.named ==> (Reapply(cfg, p, clear).out.Done? <==> answered))
            && (p.named && Reapply(cfg, p, clear).out.Done? ==> answered)
  {
    hide PhaseOf, Safe, Rotate, Reconnect, Answers, Failure, Used, ExecuteQuery;
    var n, rs := p.native, p.native.replies;
    var first := ResetConnection(cfg, n);
    if n.current.Some? {
      ReconnectDecides(n);
      ReconnectStays(n);
      AnswersStep(rs, 1 + cfg.endpoints);
    } else {
      RotateDecides(cfg, n.(current := None), 0);
      RotateIndex(cfg, n.(current := None), 0);
      AttemptsConcat(rs, cfg.endpoints, cfg.endpoints);
      assert n.(current := None) == n;
    }
    if first.out.Threw? && Retriable(first.out.fault) { RotateDecides(cfg, first.n.(current := None), 0); }
  }
}
