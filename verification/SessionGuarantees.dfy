/** What every run of a session keeps, whatever fails in it. */
module SessionGuarantees {
  import opened Bytes
  import opened NativeProtocol
  import opened NativeGuarantees
  import opened ClickHouseSession

  lemma RecoverKeeps(cfg: Config, p: Session, fault: Fault)
    requires Configured(cfg) && Sound(p.native) && p.native.index < cfg.endpoints && p.alive && !p.queryActive
    ensures Consistent(cfg, Recover(cfg, p, fault).p) && Consistent(cfg, RecoverAndClear(cfg, p, fault).p)
    ensures Recover(cfg, p, fault).out == RecoverAndClear(cfg, p, fault).out == Threw(fault)
    ensures Retried(p, Recover(cfg, p, fault).p) && Retried(p, RecoverAndClear(cfg, p, fault).p)
    ensures var r := RecoverAndClear(cfg, p, fault).p;
            && (r.hasInsertBlock ==> p.hasInsertBlock) && Recover(cfg, p, fault).p.hasInsertBlock == p.hasInsertBlock
            && (p.hasInsertBlock && !r.hasInsertBlock ==> Recovered(p, r))
  {
    hide PhaseOf, Safe, Sound, Reapply, Tried, Ends;
    ReapplyKeeps(cfg, p, false);
  }

  /** The insert is closed on its own connection. */
  ghost predicate Closed(p: Session, r: Session) {
    && SameConnection(p.native, r.native)
    && (p.native.state == Inserting ==> Ends(r.native.log, [Terminator(p.native.socket)]))
  }

  lemma EndsWithLast(log: seq<Event>, e: Event)
    ensures Ends(log + [e], [e])
  {
  }

  lemma CloseAndThrowKeeps(cfg: Config, p: Session)
    requires Configured(cfg) && Sound(p.native) && p.native.index < cfg.endpoints && p.alive && !p.queryActive
    requires Closable(p.native) && p.native.state != Selecting
    ensures var r := CloseAndThrow(cfg, p);
            && Consistent(cfg, r.p) && r.out == REJECTED
            && (Retried(p, r.p) || Closed(p, r.p))
            && (p.native.state == Inserting && EndInsert(cfg, p.native).out.Done? ==>
                  r.p.native.log == p.native.log + [Terminator(p.native.socket)])
  {
    hide PhaseOf, Safe, Sound, Recover, EndInsert, Tried, Ends;
    EndInsertKeeps(cfg, p.native);
    EndsWithLast(p.native.log, Terminator(p.native.socket));
    RecoverKeeps(cfg, p.(native := EndInsert(cfg, p.native).n), OtherFault);
  }

  lemma {:induction false} SendBlocksKeeps(n: Native, blocks: nat)
    requires Sound(n) && n.state == Inserting && PhaseOf(n.log, n.socket).Open?
    ensures var r := SendBlocks(n, blocks);
            && Sound(r.n) && SameConnection(n, r.n) && r.n.state == Inserting && Tried(r.n.log) == Tried(n.log)
            && (r.out.Done? ==> r.n.log == n.log + seq(blocks, _ => BlockSent(n.socket))
                                && PhaseOf(r.n.log, n.socket) == if blocks == 0 then PhaseOf(n.log, n.socket) else Open(true))
    decreases blocks
  {
    hide PhaseOf, Safe, Sound, SendInsertBlock, Tried;
    if blocks == 0 {
      assert n.log + [] == n.log;
    } else {
      SendInsertBlockKeeps(n);
      var s := SendInsertBlock(n);
      if s.out.Done? {
        SendBlocksKeeps(s.n, blocks - 1);
        Assoc(n.log, [BlockSent(n.socket)], seq(blocks - 1, _ => BlockSent(n.socket)));
        assert [BlockSent(n.socket)] + seq(blocks - 1, _ => BlockSent(n.socket)) == seq(blocks, _ => BlockSent(n.socket));
      }
    }
  }

  lemma PingKeepsSession(cfg: Config, p: Session)
    requires Consistent(cfg, p)
    ensures var r := ClickHouseSession.Ping(cfg, p);
            Consistent(cfg, r.p) && SameConnection(p.native, r.p.native) && r.p.hasInsertBlock == p.hasInsertBlock
  {
    hide PhaseOf, Safe, Sound, NativeProtocol.Ping;
    PingKeeps(cfg, p.native);
  }

  /** The operation is admitted and prepared: it reaches the client. */
  predicate Reaches(p: Session, prepares: bool) {
    Admitted(p) && !p.hasInsertBlock && prepares
  }

  /** Success and a server exception keep the connection, any other exception tries a new one. */
  lemma RunQueryKeeps(cfg: Config, p: Session, prepares: bool, external: bool)
    requires Consistent(cfg, p)
    ensures var r := RunQuery(cfg, p, prepares, external);
            && Consistent(cfg, r.p) && r.p.hasInsertBlock == p.hasInsertBlock
            && (r.out == Done || r.out == Threw(ServerFault) ==> SameConnection(p.native, r.p.native))
            && (r.out == Done ==> r.p.native.log == p.native.log + [Queried(p.native.socket)])
            && (Reaches(p, prepares) && r.out.Threw? && r.out.fault != ServerFault ==> Retried(p, r.p))
  {
    hide PhaseOf, Safe, Sound, ExecuteQuery, SelectWithExternalData, Recover, Tried;
    QueryKeeps(cfg, p.native);
    if Admitted(p) && !p.hasInsertBlock && prepares {
      var r := if external then SelectWithExternalData(cfg, p.native) else ExecuteQuery(cfg, p.native);
      if r.out.Threw? { RecoverKeeps(cfg, p.(native := r.n), r.out.fault); }
    }
  }

  /** A one-shot insert that succeeds puts one begun, sent and closed insert on one socket. */
  lemma InsertKeeps(cfg: Config, p: Session, prepares: bool, converts: bool)
    requires Consistent(cfg, p)
    ensures var r, s := Insert(cfg, p, prepares, converts), p.native.socket;
            && Consistent(cfg, r.p)
            && (r.out.Done? ==> r.p.native.log == p.native.log + [Began(s), BlockSent(s), Terminator(s)]
                                && r.p.native.socket == s && !r.p.hasInsertBlock)
            && (r.out.Done? && cfg.rethrow ==> Confirmed(cfg, SendInsertBlock(BeginInsert(cfg, p.native).n).n))
            && (Reaches(p, prepares) && r.out.Threw? ==> Retried(p, r.p) || (!converts && Closed(p, r.p)))
  {
    hide PhaseOf, Safe, Sound, BeginInsert, SendInsertBlock, EndInsert, Recover, CloseAndThrow, Tried, Ends, Confirmed;
    if Admitted(p) && !p.hasInsertBlock && prepares {
      BeginInsertKeeps(cfg, p.native);
      var b := BeginInsert(cfg, p.native);
      if b.out.Threw? {
        RecoverKeeps(cfg, p.(native := b.n), b.out.fault);
      } else if !converts {
        CloseAndThrowKeeps(cfg, p.(native := b.n));
      } else {
        SendInsertBlockKeeps(b.n);
        var s := SendInsertBlock(b.n);
        if s.out.Threw? {
          RecoverKeeps(cfg, p.(native := s.n), s.out.fault);
        } else {
          EndInsertKeeps(cfg, s.n);
          var e := EndInsert(cfg, s.n);
          if e.out.Threw? { RecoverKeeps(cfg, p.(native := e.n), e.out.fault); }
        }
      }
    }
  }

  lemma FailedStreamKeeps(cfg: Config, p: Session, batches: nat, fault: Fault)
    requires Configured(cfg) && Sound(p.native) && p.native.index < cfg.endpoints && p.alive && !p.queryActive
    requires p.native.state != Selecting && (batches == 0 ==> Closable(p.native))
    ensures var r := FailedStream(cfg, p, batches, fault);
            && Consistent(cfg, r.p) && r.out == Threw(fault)
            && (Retried(p, r.p) || (batches == 0 && Closed(p, r.p)))
  {
    hide PhaseOf, Safe, Sound, Recover, CloseAndThrow, Tried, Ends;
    if 0 < batches { RecoverKeeps(cfg, p, fault); } else { CloseAndThrowKeeps(cfg, p); }
  }

  /** A stream import that succeeds puts all its blocks between one start and one end. */
  lemma InsertFromStreamKeeps(cfg: Config, p: Session, prepares: bool, batches: nat, clean: bool)
    requires Consistent(cfg, p)
    ensures var r, s := InsertFromStream(cfg, p, prepares, batches, clean), p.native.socket;
            && Consistent(cfg, r.p)
            && (r.out.Done? ==> r.p.native.log
                                == p.native.log + [Began(s)] + seq(batches, _ => BlockSent(s)) + [Terminator(s)]
                                && r.p.native.socket == s && !r.p.hasInsertBlock)
            && (r.out.Done? && cfg.rethrow ==> Confirmed(cfg, SendBlocks(BeginInsert(cfg, p.native).n, batches).n))
            && (Reaches(p, prepares) && r.out.Threw? ==> Retried(p, r.p) || (batches == 0 && Closed(p, r.p)))
  {
    hide PhaseOf, Safe, Sound, BeginInsert, SendBlocks, EndInsert, Recover, FailedStream, Tried, Ends, Confirmed;
    if Admitted(p) && !p.hasInsertBlock && prepares {
      BeginInsertKeeps(cfg, p.native);
      var b := BeginInsert(cfg, p.native);
      if b.out.Threw? {
        RecoverKeeps(cfg, p.(native := b.n), b.out.fault);
      } else {
        SendBlocksKeeps(b.n, batches);
        var s := SendBlocks(b.n, batches);
        if s.out.Threw? {
          RecoverKeeps(cfg, p.(native := s.n), s.out.fault);
        } else if !clean {
          FailedStreamKeeps(cfg, p.(native := s.n), batches, OtherFault);
        } else {
          EndInsertKeeps(cfg, s.n);
          var e := EndInsert(cfg, s.n);
          if e.out.Threw? { FailedStreamKeeps(cfg, p.(native := e.n), batches, e.out.fault); }
        }
      }
    }
  }

  lemma WriteStartKeeps(cfg: Config, p: Session, prepares: bool, installation: Installation)
    requires Consistent(cfg, p)
    ensures var r := WriteStart(cfg, p, prepares, installation);
            && Consistent(cfg, r.p)
            && (r.out.Done? ==> r.p.hasInsertBlock && r.p.native.state == Inserting
                                && r.p.native.log == p.native.log + [Began(p.native.socket)])
            && (Reaches(p, prepares) && r.out.Threw? ==>
                  Retried(p, r.p) && (r.p.hasInsertBlock ==> installation == FailsAfter))
  {
    hide PhaseOf, Safe, Sound, BeginInsert, RecoverAndClear, Tried, Ends;
    if Admitted(p) && !p.hasInsertBlock && prepares {
      BeginInsertKeeps(cfg, p.native);
      var b := BeginInsert(cfg, p.native);
      var q := p.(native := b.n);
      if b.out.Threw? { RecoverKeeps(cfg, q, b.out.fault); }
      RecoverKeeps(cfg, q, OtherFault);
      RecoverKeeps(cfg, q.(hasInsertBlock := true), OtherFault);
    }
  }

  /** A write that succeeds with rows has sent one block on the insert's own socket. */
  lemma WriteKeeps(cfg: Config, p: Session, rows: nat, converts: bool)
    requires Consistent(cfg, p)
    ensures var r := Write(cfg, p, rows, converts);
            && Consistent(cfg, r.p)
            && (r.out.Done? && rows != 0 ==>
                  p.native.state == Inserting && r.p.native.state == Inserting && r.p.hasInsertBlock
                  && r.p.native.log == p.native.log + [BlockSent(p.native.socket)])
            && (Admitted(p) && p.hasInsertBlock && r.out.Threw? ==>
                  if Retried(p, r.p) then !r.p.hasInsertBlock ==> Recovered(p, r.p)
                  else !converts && Closed(p, r.p) && !r.p.hasInsertBlock)
  {
    hide PhaseOf, Safe, Sound, SendInsertBlock, EndInsert, RecoverAndClear, Tried, Ends;
    EndsWithLast(p.native.log, Terminator(p.native.socket));
    if Admitted(p) && p.hasInsertBlock && rows != 0 {
      EndInsertKeeps(cfg, p.native);
      var e := EndInsert(cfg, p.native);
      RecoverKeeps(cfg, p.(native := e.n), OtherFault);
      SendInsertBlockKeeps(p.native);
      var s := SendInsertBlock(p.native);
      if s.out.Threw? { RecoverKeeps(cfg, p.(native := s.n), s.out.fault); }
    }
  }

  /** writeEnd drops the object's insert state however it ends. It sends the terminator if the
      client is inserting; if the client is not, it reports success and sends nothing. */
  lemma WriteEndKeeps(cfg: Config, p: Session)
    requires Consistent(cfg, p)
    ensures var r := WriteEnd(cfg, p);
            && Consistent(cfg, r.p)
            && (p.hasInsertBlock ==> !r.p.hasInsertBlock && r.p.native.state == Idle)
            && (p.hasInsertBlock && r.out.Done? ==>
                  r.p.native.log == if p.native.state == Inserting then p.native.log + [Terminator(p.native.socket)]
                                    else p.native.log)
            && (p.hasInsertBlock && p.native.state != Inserting ==> r.out == Done)
            && (p.native.state == Inserting && r.out.Done? && cfg.rethrow ==> Confirmed(cfg, p.native))
            && (p.hasInsertBlock && r.out.Threw? ==> Retried(p, r.p))
  {
    hide PhaseOf, Safe, Sound, EndInsert, Reapply, Tried, Ends, Confirmed;
    EndInsertKeeps(cfg, p.native);
    if p.hasInsertBlock {
      var e := EndInsert(cfg, p.native);
      ReapplyKeeps(cfg, p.(native := e.n), true);
    }
  }

  lemma CreateKeeps(cfg: Config, p: Session, named: bool)
    requires Consistent(cfg, p)
    ensures var r := Create(cfg, p, named);
            && Consistent(cfg, r.p)
            && (if p.alive then r == Call(p, REJECTED)
                else r.p.alive == r.out.Done? && (r.out.Done? ==> Connected(r.p.native) && r.p.named == named))
  {
    hide PhaseOf, Safe, Tried, CreateConnection;
    CreateConnectionKeeps(cfg, Unconnected(cfg, p.native), 0);
  }

  /** The old client is idle when it is deleted, so its destructor sends nothing. */
  lemma SetDatabaseKeeps(cfg: Config, p: Session, valid: bool, named: bool)
    requires Consistent(cfg, p)
    ensures var r := SetDatabase(cfg, p, valid, named);
            && Consistent(cfg, r.p)
            && (r.out.Done? ==> r.p.native == Construct(cfg, p.native).n && r.p.named == named)
            && r.p.alive == p.alive && r.p.hasInsertBlock == p.hasInsertBlock && r.p.queryActive == p.queryActive
            && (r.out.Threw? ==> r.p.native.(replies := p.native.replies, sockets := p.native.sockets, log := p.native.log)
                                 == p.native)
  {
    hide PhaseOf, Safe, Tried, CreateConnection;
    CreateConnectionKeeps(cfg, Unconnected(cfg, p.native), 0);
  }

  lemma ResetKeeps(cfg: Config, p: Session)
    requires Consistent(cfg, p)
    ensures var r := Reset(cfg, p);
            && Consistent(cfg, r.p) && (p.alive ==> r.p.native.state == Idle && !r.p.hasInsertBlock && Retried(p, r.p))
            && (r.out.Done? ==> Recovered(p, r.p))
  {
    hide PhaseOf, Safe, Sound, ResetConnection, ResetConnectionEndpoint, ExecuteQuery, Tried, Ends;
    if p.alive { ReapplyKeeps(cfg, p, true); } else { assert Reapply(cfg, p, true).p == p; }
  }

  /** One operation keeps the session consistent, whatever it is given and whatever fails. */
  lemma OperationKeeps(cfg: Config, op: Op, p: Session)
    requires Consistent(cfg, p)
    ensures Consistent(cfg, Apply(cfg, op, p).p)
  {
    hide Consistent, ClickHouseSession.Ping, RunQuery, Insert, InsertFromStream, WriteStart, Write, WriteEnd, SetDatabase, Reset, Create;
    match op
    case DoCreate(named) => CreateKeeps(cfg, p, named);
    case DoPing => PingKeepsSession(cfg, p);
    case DoQuery(prepares, external) => RunQueryKeeps(cfg, p, prepares, external);
    case DoInsert(prepares, converts) => InsertKeeps(cfg, p, prepares, converts);
    case DoInsertFromStream(prepares, batches, clean) => InsertFromStreamKeeps(cfg, p, prepares, batches, clean);
    case DoWriteStart(prepares, installation) => WriteStartKeeps(cfg, p, prepares, installation);
    case DoWrite(rows, converts) => WriteKeeps(cfg, p, rows, converts);
    case DoWriteEnd => WriteEndKeeps(cfg, p);
    case DoSetDatabase(valid, named) => SetDatabaseKeeps(cfg, p, valid, named);
    case DoReset => ResetKeeps(cfg, p);
  }

  /** Every run, on every network, stays consistent after each of its operations. */
  lemma {:induction false} RunKeeps(cfg: Config, ops: seq<Op>, replies: seq<Reply>)
    requires Configured(cfg)
    ensures Consistent(cfg, Run(cfg, ops, Start(cfg, replies)))
    decreases |ops|
  {
    hide Apply;
    if ops != [] {
      RunKeeps(cfg, ops[..|ops| - 1], replies);
      OperationKeeps(cfg, ops[|ops| - 1], Run(cfg, ops[..|ops| - 1], Start(cfg, replies)));
    }
  }

  /** Freeing the object after any run closes at most an insert that may be closed. */
  lemma FreeKeeps(cfg: Config, ops: seq<Op>, replies: seq<Reply>)
    requires Configured(cfg)
    ensures var last := Run(cfg, ops, Start(cfg, replies)).native;
            var p := Free(cfg, Run(cfg, ops, Start(cfg, replies)));
            && Safe(p.native.log) && Consistent(cfg, p) && !p.alive
            && (if last.state == Inserting then last.log + [Terminator(last.socket)] <= p.native.log
                else p.native.log == last.log)
  {
    hide PhaseOf, Safe, Run, Destroy, EndInsert;
    RunKeeps(cfg, ops, replies);
    var p := Run(cfg, ops, Start(cfg, replies));
    DestroyKeeps(cfg, p.native);
  }
}
