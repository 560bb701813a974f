/** Runs in which the network fails at the wrong moment. */
module FailingRuns {
  import opened Bytes
  import opened NativeProtocol
  import opened ClickHouseSession
  import opened WireHistory

  const ONE_ENDPOINT: Config := Config(1, 1, true, true)

  const FAILING_NETWORK: seq<Reply> :=
    [Success, Success, Whole(Hello),
     Success, Whole(Data(1)),
     Fails(SystemFault), Fails(SystemFault), Fails(SystemFault),
     Success, Whole(Data(1)),
     Success, Whole(EndOfStream)]

  const REUSING_RUN: seq<Op> :=
    [DoCreate(false), DoWriteStart(true, Installs), DoWrite(1, true), DoWriteEnd,
     DoWriteStart(true, Installs), DoWriteEnd]

  lemma DropTwice(r: seq<Reply>, a: nat)
    requires a + 1 <= |r|
    ensures r[a..][1..] == r[a + 1..]
  {
  }

  lemma Connects(r: seq<Reply>)
    requires 3 <= |r| && r[0] == Success && r[1] == Success && r[2] == Whole(Hello)
    ensures var n := Native(Idle, None, 0, 0, r, 0, []);
            CreateConnection(ONE_ENDPOINT, n, 0)
            == Step(Native(Idle, Some(0), 0, 1, r[3..], 1, [Event.Opened(1, 0)]), Done)
  {
    hide PhaseOf, Safe;
    DropTwice(r, 1);
    DropTwice(r, 2);
    assert [] + [Event.Opened(1, 0)] == [Event.Opened(1, 0)];
  }

  lemma Begins(n: Native)
    requires n.state == Idle && 2 <= |n.replies| && n.replies[0] == Success && n.replies[1] == Whole(Data(1))
    ensures BeginInsert(ONE_ENDPOINT, n)
         == Step(n.(state := Inserting, replies := n.replies[2..], log := n.log + [Began(n.socket)]), Done)
  {
    hide PhaseOf, Safe;
    DropTwice(n.replies, 1);
  }

  lemma Ends(n: Native)
    requires n.state == Inserting && 2 <= |n.replies|
    requires n.replies[0] == Success && n.replies[1] == Whole(EndOfStream)
    ensures EndInsert(ONE_ENDPOINT, n)
         == Step(n.(state := Idle, replies := n.replies[2..], log := n.log + [Terminator(n.socket)]), Done)
  {
    hide PhaseOf, Safe;
    DropTwice(n.replies, 1);
  }

  lemma EndsNothing(n: Native)
    requires n.state != Inserting
    ensures EndInsert(ONE_ENDPOINT, n) == Step(n, Done)
  {
  }

  lemma FailsToReconnect(n: Native)
    requires n.current == Some(0) && n.index == 0
    requires 2 <= |n.replies| && n.replies[0] == Fails(SystemFault) && n.replies[1] == Fails(SystemFault)
    ensures var first := ResetConnection(ONE_ENDPOINT, n);
            && first.out == Threw(SystemFault)
            && ResetConnectionEndpoint(ONE_ENDPOINT, first.n)
               == Step(n.(state := Idle, current := None, replies := n.replies[2..],
                          log := n.log + [Refused(0), Refused(0)]), Threw(SystemFault))
  {
    hide PhaseOf, Safe;
    DropTwice(n.replies, 1);
    assert n.log + [Refused(0)] + [Refused(0)] == n.log + [Refused(0), Refused(0)];
  }

  lemma BlockIsLost(p: Session)
    requires Admitted(p) && p.hasInsertBlock && p.native.state == Inserting
    requires p.native.current == Some(0) && p.native.index == 0 && 3 <= |p.native.replies|
    requires forall i :: 0 <= i < 3 ==> p.native.replies[i] == Fails(SystemFault)
    ensures Write(ONE_ENDPOINT, p, 1, true).p
         == p.(native := p.native.(state := Idle, current := None, replies := p.native.replies[3..],
                                   log := p.native.log + [BlockFailed(p.native.socket), Refused(0), Refused(0)]))
  {
    hide PhaseOf, Safe, ResetConnection, ResetConnectionEndpoint;
    var s := SendInsertBlock(p.native);
    assert s.n.replies == p.native.replies[1..];
    FailsToReconnect(s.n);
    assert s.n.replies[2..] == p.native.replies[3..];
    assert s.n.log + [Refused(0), Refused(0)] == p.native.log + [BlockFailed(p.native.socket), Refused(0), Refused(0)];
  }

  lemma ApplyLast(cfg: Config, ops: seq<Op>, n: nat, p: Session)
    requires Configured(cfg) && n < |ops|
    ensures Run(cfg, ops[..n + 1], p) == Apply(cfg, ops[n], Run(cfg, ops[..n], p)).p
  {
    assert ops[..n + 1][..n] == ops[..n];
  }

  /** The session on its only socket, with k replies consumed. */
  function At(state: State, current: Option<nat>, k: nat, log: seq<Event>, hasInsertBlock: bool): Session
    requires k <= |FAILING_NETWORK|
  {
    Session(Native(state, current, 0, 1, FAILING_NETWORK[k..], 1, log), true, hasInsertBlock, false, false)
  }

  lemma DropMore(k: nat, n: nat)
    requires k + n <= |FAILING_NETWORK|
    ensures FAILING_NETWORK[k..][n..] == FAILING_NETWORK[k + n..]
  {
  }

  lemma RunStarts(current: Option<nat>, k: nat, log: seq<Event>)
    requires k + 2 <= |FAILING_NETWORK| && FAILING_NETWORK[k] == Success && FAILING_NETWORK[k + 1] == Whole(Data(1))
    ensures WriteStart(ONE_ENDPOINT, At(Idle, current, k, log, false), true, Installs).p
         == At(Inserting, current, k + 2, log + [Began(1)], true)
  {
    hide BeginInsert, FAILING_NETWORK;
    Begins(At(Idle, current, k, log, false).native);
    DropMore(k, 2);
  }

  lemma RunLoses(log: seq<Event>)
    ensures Write(ONE_ENDPOINT, At(Inserting, Some(0), 5, log, true), 1, true).p
         == At(Idle, None, 8, log + [BlockFailed(1), Refused(0), Refused(0)], true)
  {
    hide Write;
    BlockIsLost(At(Inserting, Some(0), 5, log, true));
    DropMore(5, 3);
  }

  lemma RunEnds(log: seq<Event>)
    ensures WriteEnd(ONE_ENDPOINT, At(Inserting, None, 10, log, true)).p
         == At(Idle, None, 12, log + [Terminator(1)], false)
  {
    hide EndInsert;
    Ends(At(Inserting, None, 10, log, true).native);
    DropMore(10, 2);
  }

  /** A block fails, the recovery fails too, writeEnd reports success without a terminator, and the
      next insert is begun and closed on the socket whose last block is cut off. */
  lemma ReuseHappens()
    ensures var start := Start(ONE_ENDPOINT, FAILING_NETWORK);
            var ended := Run(ONE_ENDPOINT, REUSING_RUN[..4], start);
            var last := Run(ONE_ENDPOINT, REUSING_RUN[..6], start);
            && WriteEnd(ONE_ENDPOINT, Run(ONE_ENDPOINT, REUSING_RUN[..3], start)) == Call(ended, Done)
            && ended.native.log == [Event.Opened(1, 0), Began(1), BlockFailed(1), Refused(0), Refused(0)]
            && last.native.log == ended.native.log + [Began(1), Terminator(1)]
            && !NeverFinalized(last.native.log)
  {
    hide PhaseOf, Safe, Run, WriteStart, Write, CreateConnection, FAILING_NETWORK, REUSING_RUN, NeverFinalized;
    var start, log := Start(ONE_ENDPOINT, FAILING_NETWORK), [Event.Opened(1, 0)];
    NetworkOffers();
    ConnectsFirst();
    RunStarts(Some(0), 3, log);
    RunLoses(log + [Began(1)]);
    var lost := log + [Began(1)] + [BlockFailed(1), Refused(0), Refused(0)];
    assert lost == [Event.Opened(1, 0), Began(1), BlockFailed(1), Refused(0), Refused(0)];
    EndsNothing(At(Idle, None, 8, lost, true).native);
    RunStarts(None, 8, lost);
    RunEnds(lost + [Began(1)]);
    RunsTo(start, At(Idle, Some(0), 3, log, false), At(Inserting, Some(0), 5, log + [Began(1)], true),
           At(Idle, None, 8, lost, true), At(Idle, None, 8, lost, false),
           At(Inserting, None, 10, lost + [Began(1)], true),
           At(Idle, None, 12, lost + [Began(1)] + [Terminator(1)], false));
    assert lost + [Began(1)] + [Terminator(1)] == lost + [Began(1), Terminator(1)];
    TerminatorAfterFailure(lost, 1);
  }

  lemma NetworkOffers()
    ensures |FAILING_NETWORK| == 12
    ensures FAILING_NETWORK[3] == FAILING_NETWORK[8] == Success
    ensures FAILING_NETWORK[4] == FAILING_NETWORK[9] == Whole(Data(1))
  {
  }

  lemma ConnectsFirst()
    ensures Create(ONE_ENDPOINT, Start(ONE_ENDPOINT, FAILING_NETWORK), false).p
         == At(Idle, Some(0), 3, [Event.Opened(1, 0)], false)
  {
    hide CreateConnection;
    Connects(FAILING_NETWORK);
  }

  lemma RunsTo(p0: Session, p1: Session, p2: Session, p3: Session, p4: Session, p5: Session, p6: Session)
    requires p1 == Create(ONE_ENDPOINT, p0, false).p && p2 == WriteStart(ONE_ENDPOINT, p1, true, Installs).p
    requires p3 == Write(ONE_ENDPOINT, p2, 1, true).p && p4 == WriteEnd(ONE_ENDPOINT, p3).p
    requires p5 == WriteStart(ONE_ENDPOINT, p4, true, Installs).p && p6 == WriteEnd(ONE_ENDPOINT, p5).p
    ensures Run(ONE_ENDPOINT, REUSING_RUN[..3], p0) == p3 && Run(ONE_ENDPOINT, REUSING_RUN[..4], p0) == p4
    ensures Run(ONE_ENDPOINT, REUSING_RUN[..6], p0) == p6
  {
    hide Create, WriteStart, Write, WriteEnd;
    ApplyLast(ONE_ENDPOINT, REUSING_RUN, 0, p0);
    ApplyLast(ONE_ENDPOINT, REUSING_RUN, 1, p0);
    ApplyLast(ONE_ENDPOINT, REUSING_RUN, 2, p0);
    ApplyLast(ONE_ENDPOINT, REUSING_RUN, 3, p0);
    ApplyLast(ONE_ENDPOINT, REUSING_RUN, 4, p0);
    ApplyLast(ONE_ENDPOINT, REUSING_RUN, 5, p0);
  }

  lemma TerminatorAfterFailure(log: seq<Event>, s: nat)
    requires BlockFailed(s) in log
    ensures !NeverFinalized(log + [Began(s), Terminator(s)])
  {
    var whole := log + [Began(s), Terminator(s)];
    assert whole[..|whole| - 1] == log + [Began(s)];
  }

  /** An import of no rows whose close fails closes again on the same socket, and still reports
      the failure. */
  lemma EmptyImportClosesTwice(p: Session)
    requires Admitted(p) && !p.hasInsertBlock && p.native.state == Idle && 5 <= |p.native.replies|
    requires p.native.replies[..5] == [Success, Whole(Data(1)), Fails(SystemFault), Success, Whole(EndOfStream)]
    ensures var s := p.native.socket;
            InsertFromStream(ONE_ENDPOINT, p, true, 0, true)
            == Call(p.(native := p.native.(replies := p.native.replies[5..],
                                           log := p.native.log + [Began(s), Terminator(s), Failed(s), Terminator(s)])),
                    Threw(SystemFault))
  {
    hide PhaseOf, Safe, BeginInsert, EndInsert, Recover;
    var n, s, r := p.native, p.native.socket, p.native.replies;
    assert forall i :: 0 <= i < 5 ==> r[i] == r[..5][i];
    Begins(n);
    var b := BeginInsert(ONE_ENDPOINT, n).n;
    assert b.replies == r[2..];
    CloseFails(b);
    var e := EndInsert(ONE_ENDPOINT, b).n;
    assert e.replies == r[3..];
    Ends(e);
    assert e.replies[2..] == r[5..];
    assert n.log + [Began(s)] + [Terminator(s), Failed(s)] + [Terminator(s)]
        == n.log + [Began(s), Terminator(s), Failed(s), Terminator(s)];
  }

  lemma CloseFails(n: Native)
    requires n.state == Inserting && n.replies != [] && n.replies[0] == Fails(SystemFault)
    ensures EndInsert(ONE_ENDPOINT, n)
         == Step(n.(replies := n.replies[1..], log := n.log + [Terminator(n.socket), Failed(n.socket)]), Threw(SystemFault))
  {
    hide PhaseOf, Safe;
    assert n.log + [Terminator(n.socket)] + [Failed(n.socket)] == n.log + [Terminator(n.socket), Failed(n.socket)];
  }
}
