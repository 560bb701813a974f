/** Which operations close an insert, which close it a second time, and which close it on a socket
    on which a block has failed: said from the state before the operation. */
module InsertClosings {
  import opened Bytes
  import opened NativeProtocol
  import opened NativeGuarantees
  import opened ClickHouseSession
  import opened SessionGuarantees
  import opened WireHistory

  /** A block has failed on the socket in use. */
  predicate Dirty(p: Session) {
    BlockFailed(p.native.socket) in p.native.log
  }

  /** The import reaches the client, starts its insert, sends no block, comes to its end, and cannot
      close the insert. */
  predicate ClosesAgain(cfg: Config, op: Op, p: Session) {
    && op.DoInsertFromStream? && Reaches(p, op.prepares) && op.batches == 0 && op.clean
    && BeginInsert(cfg, p.native).out.Done?
    && EndInsert(cfg, BeginInsert(cfg, p.native).n).out.Threw?
  }

  /** How often an operation closes an insert. */
  function ClosingsOf(cfg: Config, op: Op, p: Session): nat {
    match op
    case DoInsert(prepares, converts) =>
      var b := BeginInsert(cfg, p.native);
      if Reaches(p, prepares) && b.out.Done? && (converts ==> SendInsertBlock(b.n).out.Done?) then 1 else 0
    case DoInsertFromStream(prepares, batches, clean) =>
      var b := BeginInsert(cfg, p.native);
      if Reaches(p, prepares) && b.out.Done? && SendBlocks(b.n, batches).out.Done? && (clean || batches == 0)
      then (if ClosesAgain(cfg, op, p) then 2 else 1) else 0
    case DoWrite(rows, converts) =>
      if Admitted(p) && p.hasInsertBlock && rows != 0 && !converts && p.native.state == Inserting then 1 else 0
    case DoWriteEnd => if Admitted(p) && p.hasInsertBlock && p.native.state == Inserting then 1 else 0
    case _ => 0
  }

  function Plus(t: Tally, u: Tally): Tally {
    Tally(t.closings + u.closings, t.again + u.again, t.onFailed + u.onFailed)
  }

  /** What an operation adds: on a dirty socket all of its closings count. */
  function StepTally(cfg: Config, op: Op, p: Session): Tally {
    var k := ClosingsOf(cfg, op, p);
    Tally(k, if ClosesAgain(cfg, op, p) then 1 else 0, if Dirty(p) then k else 0)
  }

  function Once(log: seq<Event>, s: nat): Tally {
    Tally(1, 0, if BlockFailed(s) in log then 1 else 0)
  }

  /** Closing an open insert adds one closing, none of them a second one. */
  lemma ClosesOnce(cfg: Config, n: Native, base: seq<Event>)
    requires Calm(base, n.log) && n.state == Inserting && PhaseOf(n.log, n.socket).Open?
    ensures var r := EndInsert(cfg, n).n;
            && TallyOf(r.log) == Plus(TallyOf(base), Once(base, n.socket))
            && (forall s :: BlockFailed(s) in r.log <==> BlockFailed(s) in base)
  {
    hide PhaseOf, TallyOf, EndInsert;
    CalmKeepsTally(base, n.log);
    EndInsertTally(cfg, n);
  }

  lemma RecoverTally(cfg: Config, p: Session, fault: Fault)
    requires Configured(cfg)
    ensures TallyOf(Recover(cfg, p, fault).p.native.log) == TallyOf(p.native.log)
    ensures TallyOf(RecoverAndClear(cfg, p, fault).p.native.log) == TallyOf(p.native.log)
  {
    hide Reapply, TallyOf;
    ReapplyIsCalm(cfg, p, false);
    CalmKeepsTally(p.native.log, Reapply(cfg, p, false).p.native.log);
  }

  /** A recovery that may follow adds nothing to what closing has added. */
  lemma CloseAndThrowTally(cfg: Config, p: Session)
    requires Configured(cfg)
    ensures TallyOf(CloseAndThrow(cfg, p).p.native.log) == TallyOf(EndInsert(cfg, p.native).n.log)
  {
    hide EndInsert, Recover, TallyOf;
    RecoverTally(cfg, p.(native := EndInsert(cfg, p.native).n), OtherFault);
  }

  lemma {:induction false} SendBlocksTally(n: Native, blocks: nat)
    ensures var r := SendBlocks(n, blocks);
            TallyOf(r.n.log) == TallyOf(n.log) && (r.out.Done? ==> Calm(n.log, r.n.log))
    decreases blocks
  {
    hide SendInsertBlock, TallyOf;
    if blocks != 0 {
      SendInsertBlockTally(n);
      SendBlocksTally(SendInsertBlock(n).n, blocks - 1);
    }
  }

  lemma InsertTally(cfg: Config, p: Session, prepares: bool, converts: bool)
    requires Consistent(cfg, p)
    ensures TallyOf(Insert(cfg, p, prepares, converts).p.native.log)
         == Plus(TallyOf(p.native.log), StepTally(cfg, DoInsert(prepares, converts), p))
  {
    hide PhaseOf, Safe, TallyOf, BeginInsert, SendInsertBlock, EndInsert, Recover, CloseAndThrow, Calm, Sound;
    if Reaches(p, prepares) {
      BeginInsertKeeps(cfg, p.native);
      BeginInsertIsCalm(cfg, p.native);
      var b := BeginInsert(cfg, p.native);
      CalmKeepsTally(p.native.log, b.n.log);
      if b.out.Threw? {
        RecoverTally(cfg, p.(native := b.n), b.out.fault);
      } else if !converts {
        CloseAndThrowTally(cfg, p.(native := b.n));
        ClosesOnce(cfg, b.n, p.native.log);
      } else {
        SendInsertBlockKeeps(b.n);
        SendInsertBlockTally(b.n);
        var s := SendInsertBlock(b.n);
        if s.out.Threw? {
          RecoverTally(cfg, p.(native := s.n), s.out.fault);
        } else {
          CalmTwice(p.native.log, b.n.log, s.n.log);
          ClosesOnce(cfg, s.n, p.native.log);
          var e := EndInsert(cfg, s.n);
          if e.out.Threw? { RecoverTally(cfg, p.(native := e.n), e.out.fault); }
        }
      }
    }
  }

  /** An insert that could not be closed and sent nothing is closed again. */
  lemma SecondClosing(cfg: Config, n: Native, base: seq<Event>)
    requires Sound(n) && Calm(base, n.log) && n.state == Inserting && PhaseOf(n.log, n.socket).Open?
    requires EndInsert(cfg, n).out.Threw?
    ensures var e := EndInsert(cfg, n).n;
            TallyOf(EndInsert(cfg, e).n.log)
            == Plus(TallyOf(base), Tally(2, 1, if BlockFailed(n.socket) in base then 2 else 0))
  {
    hide PhaseOf, Safe, TallyOf, EndInsert;
    EndInsertKeeps(cfg, n);
    ClosesOnce(cfg, n, base);
    EndInsertTally(cfg, EndInsert(cfg, n).n);
  }

  lemma InsertFromStreamTally(cfg: Config, p: Session, prepares: bool, batches: nat, clean: bool)
    requires Consistent(cfg, p)
    ensures TallyOf(InsertFromStream(cfg, p, prepares, batches, clean).p.native.log)
         == Plus(TallyOf(p.native.log), StepTally(cfg, DoInsertFromStream(prepares, batches, clean), p))
  {
    hide PhaseOf, Safe, TallyOf, BeginInsert, EndInsert, Recover, FailedStream, Calm, Sound, SendBlocks;
    if Reaches(p, prepares) {
      BeginInsertIsCalm(cfg, p.native);
      var b := BeginInsert(cfg, p.native);
      CalmKeepsTally(p.native.log, b.n.log);
      if b.out.Threw? {
        RecoverTally(cfg, p.(native := b.n), b.out.fault);
      } else {
        BlocksAreSent(cfg, p, batches);
        var s := SendBlocks(b.n, batches);
        if s.out.Threw? {
          RecoverTally(cfg, p.(native := s.n), s.out.fault);
        } else {
          StreamEndTally(cfg, p, s.n, batches, clean);
        }
      }
    }
  }

  /** Sending the blocks of an import closes nothing, and keeps the insert open if it succeeds. */
  lemma BlocksAreSent(cfg: Config, p: Session, batches: nat)
    requires Consistent(cfg, p) && Admitted(p) && !p.hasInsertBlock && BeginInsert(cfg, p.native).out.Done?
    ensures var b := BeginInsert(cfg, p.native).n;
            var s := SendBlocks(b, batches);
            && TallyOf(s.n.log) == TallyOf(p.native.log) && b.socket == p.native.socket
            && (batches == 0 ==> s == Step(b, Done))
            && (s.out.Done? ==>
                  && Calm(p.native.log, s.n.log) && Sound(s.n) && s.n.state == Inserting
                  && s.n.socket == p.native.socket && PhaseOf(s.n.log, s.n.socket).Open?)
  {
    hide PhaseOf, Safe, TallyOf, BeginInsert, Calm, Sound, SendInsertBlock;
    var b := BeginInsert(cfg, p.native).n;
    BeginInsertKeeps(cfg, p.native);
    BeginInsertIsCalm(cfg, p.native);
    CalmKeepsTally(p.native.log, b.log);
    SendBlocksKeeps(b, batches);
    SendBlocksTally(b, batches);
    var s := SendBlocks(b, batches);
    if s.out.Done? { CalmTwice(p.native.log, b.log, s.n.log); }
  }

  /** The end of an import, all of whose blocks were sent. */
  lemma StreamEndTally(cfg: Config, p: Session, n: Native, batches: nat, clean: bool)
    requires Configured(cfg) && Sound(n) && Calm(p.native.log, n.log)
    requires n.state == Inserting && PhaseOf(n.log, n.socket).Open?
    ensures var e := EndInsert(cfg, n);
            var last := if !clean then FailedStream(cfg, p.(native := n), batches, OtherFault).p
                        else if e.out.Threw? then FailedStream(cfg, p.(native := e.n), batches, e.out.fault).p
                        else p.(native := e.n);
            var failed := BlockFailed(n.socket) in p.native.log;
            TallyOf(last.native.log)
            == Plus(TallyOf(p.native.log),
                    if !clean && 0 < batches then Tally(0, 0, 0)
                    else if clean && batches == 0 && e.out.Threw? then Tally(2, 1, if failed then 2 else 0)
                    else Once(p.native.log, n.socket))
  {
    hide PhaseOf, Safe, TallyOf, EndInsert, Recover, CloseAndThrow, Calm, Sound;
    var e := EndInsert(cfg, n);
    CalmKeepsTally(p.native.log, n.log);
    ClosesOnce(cfg, n, p.native.log);
    if !clean {
      RecoverTally(cfg, p.(native := n), OtherFault);
      CloseAndThrowTally(cfg, p.(native := n));
    } else if e.out.Threw? {
      RecoverTally(cfg, p.(native := e.n), e.out.fault);
      CloseAndThrowTally(cfg, p.(native := e.n));
      SecondClosing(cfg, n, p.native.log);
    }
  }

  lemma WriteTally(cfg: Config, p: Session, rows: nat, converts: bool)
    requires Consistent(cfg, p)
    ensures TallyOf(Write(cfg, p, rows, converts).p.native.log)
         == Plus(TallyOf(p.native.log), StepTally(cfg, DoWrite(rows, converts), p))
  {
    hide PhaseOf, Safe, TallyOf, SendInsertBlock, EndInsert, RecoverAndClear, Sound;
    if Admitted(p) && p.hasInsertBlock && rows != 0 {
      if converts {
        SendInsertBlockTally(p.native);
        var s := SendInsertBlock(p.native);
        if s.out.Threw? { RecoverTally(cfg, p.(native := s.n), s.out.fault); }
      } else {
        OpenIsClosedOnce(cfg, p);
        RecoverTally(cfg, p.(native := EndInsert(cfg, p.native).n), OtherFault);
      }
    }
  }

  /** Between operations an insert is open if the client is inserting. */
  lemma OpenIsClosedOnce(cfg: Config, p: Session)
    requires Consistent(cfg, p)
    ensures TallyOf(EndInsert(cfg, p.native).n.log)
         == if p.native.state == Inserting then Plus(TallyOf(p.native.log), Once(p.native.log, p.native.socket))
            else TallyOf(p.native.log)
  {
    hide PhaseOf, Safe, TallyOf, EndInsert, Sound;
    EndInsertTally(cfg, p.native);
    if p.native.state == Inserting { ClosesOnce(cfg, p.native, p.native.log); }
  }

  lemma WriteEndTally(cfg: Config, p: Session)
    requires Consistent(cfg, p)
    ensures TallyOf(WriteEnd(cfg, p).p.native.log) == Plus(TallyOf(p.native.log), StepTally(cfg, DoWriteEnd, p))
  {
    hide PhaseOf, Safe, TallyOf, EndInsert, Reapply, Sound;
    OpenIsClosedOnce(cfg, p);
    var q := p.(native := EndInsert(cfg, p.native).n);
    ReapplyIsCalm(cfg, q, true);
    CalmKeepsTally(q.native.log, Reapply(cfg, q, true).p.native.log);
  }

  /** Everything else closes nothing. */
  lemma OtherOperationsAreCalm(cfg: Config, op: Op, p: Session)
    requires Consistent(cfg, p)
    requires !op.DoInsert? && !op.DoInsertFromStream? && !op.DoWrite? && !op.DoWriteEnd?
    ensures Calm(p.native.log, Apply(cfg, op, p).p.native.log)
  {
    hide PhaseOf, Safe, Sound, Reapply, BeginInsert, ExecuteQuery, SelectWithExternalData, NativeProtocol.Ping, CreateConnection;
    match op
    case DoCreate(_) => CreateConnectionIsCalm(cfg, Unconnected(cfg, p.native), 0);
    case DoPing => PingIsCalm(cfg, p.native);
    case DoQuery(_, external) =>
      var r := if external then SelectWithExternalData(cfg, p.native) else ExecuteQuery(cfg, p.native);
      QueryIsCalm(cfg, p.native);
      ReapplyIsCalm(cfg, p.(native := r.n), false);
    case DoWriteStart(_, _) =>
      var b := BeginInsert(cfg, p.native);
      BeginInsertIsCalm(cfg, p.native);
      ReapplyIsCalm(cfg, p.(native := b.n), false);
      ReapplyIsCalm(cfg, p.(native := b.n, hasInsertBlock := true), false);
    case DoSetDatabase(_, _) => CreateConnectionIsCalm(cfg, Unconnected(cfg, p.native), 0);
    case DoReset => ReapplyIsCalm(cfg, p, true);
  }

  /** Every operation adds exactly its own closings: a second closing if and only if it is an import
      of no rows whose close fails, and closings on failed sockets if and only if the socket in use
      was dirty before. */
  lemma OperationTally(cfg: Config, op: Op, p: Session)
    requires Consistent(cfg, p)
    ensures TallyOf(Apply(cfg, op, p).p.native.log) == Plus(TallyOf(p.native.log), StepTally(cfg, op, p))
  {
    hide Sound, TallyOf, Insert, InsertFromStream, Write, WriteEnd, Calm, Reaches;
    match op
    case DoInsert(prepares, converts) => InsertTally(cfg, p, prepares, converts);
    case DoInsertFromStream(prepares, batches, clean) => InsertFromStreamTally(cfg, p, prepares, batches, clean);
    case DoWrite(rows, converts) => WriteTally(cfg, p, rows, converts);
    case DoWriteEnd => WriteEndTally(cfg, p);
    case _ =>
      OtherOperationsAreCalm(cfg, op, p);
      CalmKeepsTally(p.native.log, Apply(cfg, op, p).p.native.log);
  }

  /** The destructor closes an insert once, and exactly if the client is inserting. */
  lemma FreeTally(cfg: Config, p: Session)
    requires Consistent(cfg, p)
    ensures TallyOf(Free(cfg, p).native.log)
         == if p.native.state == Inserting then Plus(TallyOf(p.native.log), Once(p.native.log, p.native.socket))
            else TallyOf(p.native.log)
  {
    hide PhaseOf, Safe, TallyOf, EndInsert, Sound;
    OpenIsClosedOnce(cfg, p);
  }

  //// Runs

  /** The state before step k of a run. */
  function Before(cfg: Config, ops: seq<Op>, start: Session, k: nat): Session
    requires Configured(cfg) && k <= |ops|
  {
    Run(cfg, ops[..k], start)
  }

  lemma BeforeOfPrefix(cfg: Config, ops: seq<Op>, start: Session, n: nat, k: nat)
    requires Configured(cfg) && k <= n <= |ops|
    ensures Before(cfg, ops[..n], start, k) == Before(cfg, ops, start, k)
  {
    assert ops[..n][..k] == ops[..k];
  }

  predicate StepClosesAgain(cfg: Config, ops: seq<Op>, start: Session, k: nat)
    requires Configured(cfg) && k < |ops|
  {
    ClosesAgain(cfg, ops[k], Before(cfg, ops, start, k))
  }

  /** Step k closes an insert although a block has failed on the socket in use. */
  predicate StepClosesDirty(cfg: Config, ops: seq<Op>, start: Session, k: nat)
    requires Configured(cfg) && k < |ops|
  {
    Dirty(Before(cfg, ops, start, k)) && 0 < ClosingsOf(cfg, ops[k], Before(cfg, ops, start, k))
  }

  /** What all the steps of a run add. */
  function RunTally(cfg: Config, ops: seq<Op>, start: Session): Tally
    requires Configured(cfg)
  {
    if ops == [] then Tally(0, 0, 0)
    else
      var init := ops[..|ops| - 1];
      Plus(RunTally(cfg, init, start), StepTally(cfg, ops[|ops| - 1], Run(cfg, init, start)))
  }

  lemma {:induction false} RunTallies(cfg: Config, ops: seq<Op>, replies: seq<Reply>)
    requires Configured(cfg)
    ensures TallyOf(Run(cfg, ops, Start(cfg, replies)).native.log) == RunTally(cfg, ops, Start(cfg, replies))
    decreases |ops|
  {
    hide Apply, StepTally, Consistent;
    if ops != [] {
      var init := ops[..|ops| - 1];
      RunTallies(cfg, init, replies);
      RunKeeps(cfg, init, replies);
      OperationTally(cfg, ops[|ops| - 1], Run(cfg, init, Start(cfg, replies)));
    }
  }

  lemma {:induction false} RunTallyIsZero(cfg: Config, ops: seq<Op>, start: Session)
    requires Configured(cfg)
    ensures RunTally(cfg, ops, start).again == 0 <==> forall k :: 0 <= k < |ops| ==> !StepClosesAgain(cfg, ops, start, k)
    ensures RunTally(cfg, ops, start).onFailed == 0 <==> forall k :: 0 <= k < |ops| ==> !StepClosesDirty(cfg, ops, start, k)
    decreases |ops|
  {
    hide Run, StepClosesAgain, StepClosesDirty, StepTally;
    if ops != [] {
      var n := |ops| - 1;
      RunTallyIsZero(cfg, ops[..n], start);
      forall k | 0 <= k < n
        ensures StepClosesAgain(cfg, ops[..n], start, k) == StepClosesAgain(cfg, ops, start, k)
        ensures StepClosesDirty(cfg, ops[..n], start, k) == StepClosesDirty(cfg, ops, start, k)
      {
        StepOfPrefix(cfg, ops, start, n, k);
      }
      StepIsCounted(cfg, ops, start, n);
    }
  }

  lemma StepOfPrefix(cfg: Config, ops: seq<Op>, start: Session, n: nat, k: nat)
    requires Configured(cfg) && k < n <= |ops|
    ensures StepClosesAgain(cfg, ops[..n], start, k) == StepClosesAgain(cfg, ops, start, k)
    ensures StepClosesDirty(cfg, ops[..n], start, k) == StepClosesDirty(cfg, ops, start, k)
  {
    hide Run, ClosesAgain, ClosingsOf, Dirty;
    BeforeOfPrefix(cfg, ops, start, n, k);
  }

  lemma StepIsCounted(cfg: Config, ops: seq<Op>, start: Session, k: nat)
    requires Configured(cfg) && k < |ops|
    ensures var t := StepTally(cfg, ops[k], Run(cfg, ops[..k], start));
            && (t.again == 0 <==> !StepClosesAgain(cfg, ops, start, k))
            && (t.onFailed == 0 <==> !StepClosesDirty(cfg, ops, start, k))
  {
    hide Run, ClosesAgain, ClosingsOf, Dirty;
  }

  /** No insert of a run, the destructor included, is closed twice, if and only if no step of it is
      an import of no rows whose close fails. */
  lemma RunClosesAgain(cfg: Config, ops: seq<Op>, replies: seq<Reply>)
    requires Configured(cfg)
    ensures var start := Start(cfg, replies);
            NeverReclosed(Free(cfg, Run(cfg, ops, start)).native.log)
            <==> forall k :: 0 <= k < |ops| ==> !StepClosesAgain(cfg, ops, start, k)
  {
    hide Run, Free, StepClosesAgain, StepClosesDirty, Consistent, TallyOf, NeverReclosed, NeverFinalized, RunTally;
    var p := Run(cfg, ops, Start(cfg, replies));
    RunTallies(cfg, ops, replies);
    RunTallyIsZero(cfg, ops, Start(cfg, replies));
    RunKeeps(cfg, ops, replies);
    FreeTally(cfg, p);
    TallyTells(Free(cfg, p).native.log);
  }
}
