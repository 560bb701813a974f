/** What the history of the wire says about closed inserts and failed blocks, and the operations of
    the client that add neither. */
module WireHistory {
  import opened Bytes
  import opened NativeProtocol
  import opened NativeGuarantees
  import opened ClickHouseSession

  /** The second log continues the first without closing an insert or failing a block. */
  ghost predicate Calm(a: seq<Event>, b: seq<Event>) {
    a <= b && forall i :: |a| <= i < |b| ==> !b[i].Terminator? && !b[i].BlockFailed?
  }

  lemma CalmTwice(a: seq<Event>, b: seq<Event>, c: seq<Event>)
    requires Calm(a, b) && Calm(b, c)
    ensures Calm(a, c)
  {
  }

  /** Closed inserts: all of them, those that were closing already, and those on a socket on which
      a block had failed. */
  datatype Tally = Tally(closings: nat, again: nat, onFailed: nat)

  function Counted(t: Tally, log: seq<Event>, s: nat): Tally {
    Tally(t.closings + 1,
          t.again + (if PhaseOf(log, s).Closing? then 1 else 0),
          t.onFailed + (if BlockFailed(s) in log then 1 else 0))
  }

  function TallyOf(log: seq<Event>): Tally {
    if log == [] then Tally(0, 0, 0)
    else
      var before, e := log[..|log| - 1], log[|log| - 1];
      if e.Terminator? then Counted(TallyOf(before), before, e.socket) else TallyOf(before)
  }

  lemma TallySnoc(log: seq<Event>, e: Event)
    ensures TallyOf(log + [e]) == if e.Terminator? then Counted(TallyOf(log), log, e.socket) else TallyOf(log)
  {
    assert (log + [e])[..|log + [e]| - 1] == log;
  }

  lemma {:induction false} CalmKeepsTally(a: seq<Event>, b: seq<Event>)
    requires Calm(a, b)
    ensures TallyOf(b) == TallyOf(a)
    ensures forall s :: BlockFailed(s) in b <==> BlockFailed(s) in a
    decreases |b|
  {
    if |a| == |b| {
      assert a == b;
    } else {
      var before, e := b[..|b| - 1], b[|b| - 1];
      assert b == before + [e];
      CalmKeepsTally(a, before);
    }
  }

  /** No terminator is ever written to a socket on which a block has failed. */
  predicate NeverFinalized(log: seq<Event>) {
    log == [] ||
    (NeverFinalized(log[..|log| - 1])
     && var e := log[|log| - 1]; e.Terminator? ==> BlockFailed(e.socket) !in log[..|log| - 1])
  }

  /** No insert is closed a second time. */
  predicate NeverReclosed(log: seq<Event>) {
    log == [] ||
    (NeverReclosed(log[..|log| - 1])
     && var e := log[|log| - 1]; e.Terminator? ==> !PhaseOf(log[..|log| - 1], e.socket).Closing?)
  }

  lemma {:induction false} TallyTells(log: seq<Event>)
    ensures NeverFinalized(log) <==> TallyOf(log).onFailed == 0
    ensures NeverReclosed(log) <==> TallyOf(log).again == 0
    decreases |log|
  {
    hide PhaseOf;
    if log != [] { TallyTells(log[..|log| - 1]); }
  }

  //// Calm operations

  lemma SendIsCalm(n: Native, e: Event)
    requires e.Failed?
    ensures Calm(n.log, Send(n, e).n.log)
  {
    hide PhaseOf, Safe;
  }

  lemma ReceiveIsCalm(cfg: Config, n: Native)
    ensures Calm(n.log, Receive(cfg, n).0.log)
  {
    hide PhaseOf, Safe;
  }

  lemma {:induction false} AwaitDataIsCalm(cfg: Config, n: Native)
    ensures Calm(n.log, AwaitData(cfg, n).n.log)
    decreases |n.replies|
  {
    hide PhaseOf, Safe;
    var (r, got) := Receive(cfg, n);
    ReceiveIsCalm(cfg, n);
    if got.Got? && !Stops(got.packet) && !got.packet.Data? { AwaitDataIsCalm(cfg, r); }
  }

  lemma BeginInsertIsCalm(cfg: Config, n: Native)
    ensures Calm(n.log, BeginInsert(cfg, n).n.log)
  {
    hide Send, AwaitData;
    var q := Send(n.(state := Inserting), Failed(n.socket));
    SendIsCalm(n.(state := Inserting), Failed(n.socket));
    AwaitDataIsCalm(cfg, q.n);
  }

  lemma {:induction false} AwaitEndIsCalm(cfg: Config, n: Native, last: Option<Packet>)
    ensures Calm(n.log, AwaitEnd(cfg, n, last).n.log)
    decreases |n.replies|
  {
    hide PhaseOf, Safe;
    var (r, got) := Receive(cfg, n);
    ReceiveIsCalm(cfg, n);
    if got.Got? && !Stops(got.packet) { AwaitEndIsCalm(cfg, r, Some(got.packet)); }
  }

  lemma {:induction false} NextBlockIsCalm(cfg: Config, n: Native)
    ensures Calm(n.log, NextBlock(cfg, n).0.n.log)
    decreases |n.replies|
  {
    hide Receive;
    var (r, got) := Receive(cfg, n);
    ReceiveIsCalm(cfg, n);
    if got.Got? { NextBlockIsCalm(cfg, r) by { GotShrinks(cfg, n); } }
  }

  lemma GotShrinks(cfg: Config, n: Native)
    ensures Receive(cfg, n).1.Got? ==> |Receive(cfg, n).0.replies| < |n.replies|
  {
  }

  lemma {:induction false} DrainIsCalm(cfg: Config, n: Native)
    ensures Calm(n.log, Drain(cfg, n).n.log)
    decreases |n.replies|
  {
    hide NextBlock;
    NextBlockIsCalm(cfg, n);
    var (r, more) := NextBlock(cfg, n);
    if more { DrainIsCalm(cfg, r.n); }
  }

  lemma QueryIsCalm(cfg: Config, n: Native)
    ensures Calm(n.log, ExecuteQuery(cfg, n).n.log) && Calm(n.log, SelectWithExternalData(cfg, n).n.log)
  {
    hide PhaseOf, Safe, Drain;
    var q := BeginExecuteQuery(n);
    DrainIsCalm(cfg, q.n);
    var d := Send(q.n, Failed(q.n.socket));
    DrainIsCalm(cfg, d.n);
  }

  lemma PingIsCalm(cfg: Config, n: Native)
    ensures Calm(n.log, NativeProtocol.Ping(cfg, n).n.log)
  {
    hide PhaseOf, Safe;
  }

  lemma HandshakeIsCalm(n: Native)
    ensures Calm(n.log, Handshake(n).n.log)
  {
    hide PhaseOf, Safe, Send;
    SendIsCalm(n, Failed(n.socket));
  }

  lemma ReconnectIsCalm(n: Native)
    requires n.current.Some?
    ensures Calm(n.log, Reconnect(n).n.log)
  {
    hide PhaseOf, Safe, Handshake;
    var endpoint, idle, socket := n.current.value, Take(n.(state := Idle)), n.sockets + 1;
    HandshakeIsCalm(Note(idle.(socket := socket, sockets := socket), Opened(socket, endpoint)));
  }

  lemma {:induction false} RotateIsCalm(cfg: Config, n: Native, i: nat)
    requires i < cfg.endpoints
    ensures Calm(n.log, Rotate(cfg, n, i).n.log)
    decreases cfg.endpoints - i
  {
    hide Reconnect;
    var chosen := n.(index := NextEndpoint(cfg, n), current := Some(NextEndpoint(cfg, n)));
    ReconnectIsCalm(chosen);
    var r := Reconnect(chosen);
    if r.out.Threw? && Retriable(r.out.fault) && i + 1 < cfg.endpoints { RotateIsCalm(cfg, r.n, i + 1); }
  }

  lemma ResetIsCalm(cfg: Config, n: Native)
    requires Configured(cfg)
    ensures Calm(n.log, ResetConnection(cfg, n).n.log) && Calm(n.log, ResetConnectionEndpoint(cfg, n).n.log)
  {
    hide Reconnect, Rotate;
    RotateIsCalm(cfg, n.(current := None), 0);
    if n.current.Some? { ReconnectIsCalm(n); }
  }

  lemma {:induction false} CreateConnectionIsCalm(cfg: Config, n: Native, i: nat)
    requires Configured(cfg) && i < MaxAttempts(cfg)
    ensures Calm(n.log, CreateConnection(cfg, n, i).n.log)
    decreases MaxAttempts(cfg) - i
  {
    hide ResetConnectionEndpoint;
    var r := ResetConnectionEndpoint(cfg, n);
    ResetIsCalm(cfg, n);
    if r.out.Threw? && Retriable(r.out.fault) && i + 1 < MaxAttempts(cfg) { CreateConnectionIsCalm(cfg, r.n, i + 1); }
  }

  /** A recovery closes no insert. */
  lemma ReapplyIsCalm(cfg: Config, p: Session, clear: bool)
    requires Configured(cfg)
    ensures Calm(p.native.log, Reapply(cfg, p, clear).p.native.log)
  {
    hide ResetConnection, ResetConnectionEndpoint, ExecuteQuery;
    var first := ResetConnection(cfg, p.native);
    ResetIsCalm(cfg, p.native);
    ResetIsCalm(cfg, first.n);
    var r := if first.out.Threw? && Retriable(first.out.fault) then ResetConnectionEndpoint(cfg, first.n) else first;
    QueryIsCalm(cfg, r.n);
  }

  //// The operations that are not calm

  /** A block is sent, or fails and is the only one to do so. */
  lemma SendInsertBlockTally(n: Native)
    ensures var r := SendInsertBlock(n);
            && TallyOf(r.n.log) == TallyOf(n.log) && r.n.socket == n.socket
            && (r.out.Done? ==> Calm(n.log, r.n.log))
  {
    hide PhaseOf, Safe, TallyOf;
    TallySnoc(n.log, BlockSent(n.socket));
    TallySnoc(n.log, BlockFailed(n.socket));
  }

  /** Closing an insert counts once, and says whether it was closing already and on what socket. */
  lemma EndInsertTally(cfg: Config, n: Native)
    ensures var r := EndInsert(cfg, n);
            && TallyOf(r.n.log) == (if n.state == Inserting then Counted(TallyOf(n.log), n.log, n.socket) else TallyOf(n.log))
            && (forall s :: BlockFailed(s) in r.n.log <==> BlockFailed(s) in n.log)
  {
    hide PhaseOf, Safe, TallyOf, Send, AwaitEnd;
    if n.state == Inserting {
      var t := Note(n, Terminator(n.socket));
      TallySnoc(n.log, Terminator(n.socket));
      var q := Send(t, Failed(n.socket));
      SendIsCalm(t, Failed(n.socket));
      CalmKeepsTally(t.log, q.n.log);
      var r := AwaitEnd(cfg, q.n, None);
      AwaitEndIsCalm(cfg, q.n, None);
      CalmKeepsTally(q.n.log, r.n.log);
    }
  }
}
