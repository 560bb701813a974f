/** When an insert whose block failed on the wire can still be finalized. */
module BrokenInserts {
  import opened Bytes
  import opened NativeProtocol
  import opened NativeGuarantees
  import opened ClickHouseSession
  import opened SessionGuarantees
  import opened WireHistory
  import opened InsertClosings

  /** The last insert on the socket was begun after a block had failed there. */
  predicate BegunOnFailed(log: seq<Event>, s: nat) {
    log != [] &&
    if log[|log| - 1] == Began(s) then BlockFailed(s) in log[..|log| - 1]
    else BegunOnFailed(log[..|log| - 1], s)
  }

  /** No terminator closes an insert that was begun on a socket on which a block had failed. */
  predicate ClosesOnlyCleanStarts(log: seq<Event>) {
    log == [] ||
    (ClosesOnlyCleanStarts(log[..|log| - 1])
     && var e := log[|log| - 1]; e.Terminator? ==> !BegunOnFailed(log[..|log| - 1], e.socket))
  }

  /** No insert is begun on a socket on which a block has failed. */
  predicate StartsClean(log: seq<Event>) {
    log == [] ||
    (StartsClean(log[..|log| - 1])
     && var e := log[|log| - 1]; e.Began? ==> BlockFailed(e.socket) !in log[..|log| - 1])
  }

  /** While an insert is open or closing, a block has failed on its socket exactly if one had
      when the insert was begun. */
  lemma {:induction false} FailureIsOlder(log: seq<Event>, s: nat)
    requires PhaseOf(log, s).Open? || PhaseOf(log, s).Closing?
    ensures BlockFailed(s) in log <==> BegunOnFailed(log, s)
    decreases |log|
  {
    var before, e := log[..|log| - 1], log[|log| - 1];
    assert log == before + [e];
    if e != Began(s) { FailureIsOlder(before, s); }
  }

  /** In an allowed log, sockets with a failed block are never finalized if and only if no insert
      begun on such a socket is closed. */
  lemma {:induction false} FinalizedOnlyIfReused(log: seq<Event>)
    requires Safe(log)
    ensures NeverFinalized(log) <==> ClosesOnlyCleanStarts(log)
    decreases |log|
  {
    if log != [] {
      var before, e := log[..|log| - 1], log[|log| - 1];
      FinalizedOnlyIfReused(before);
      if e.Terminator? { FailureIsOlder(before, e.socket); }
    }
  }

  lemma {:induction false} CleanStartsStayClean(log: seq<Event>, s: nat)
    requires StartsClean(log)
    ensures !BegunOnFailed(log, s)
    decreases |log|
  {
    if log != [] && log[|log| - 1] != Began(s) { CleanStartsStayClean(log[..|log| - 1], s); }
  }

  lemma {:induction false} CleanStartsSuffice(log: seq<Event>)
    requires StartsClean(log)
    ensures ClosesOnlyCleanStarts(log)
    decreases |log|
  {
    if log != [] {
      CleanStartsSuffice(log[..|log| - 1]);
      var e := log[|log| - 1];
      if e.Terminator? { CleanStartsStayClean(log[..|log| - 1], e.socket); }
    }
  }

  /** In every run, the destructor included: a socket with a failed block is finalized if and only
      if some step closes an insert while the socket in use is dirty, or the destructor does. In
      terms of the wire, exactly if an insert begun on such a socket is closed. */
  lemma RunFinalizesOnlyReused(cfg: Config, ops: seq<Op>, replies: seq<Reply>)
    requires Configured(cfg)
    ensures var start := Start(cfg, replies);
            var last := Run(cfg, ops, start);
            var log := Free(cfg, last).native.log;
            && (NeverFinalized(log) <==>
                  && (forall k :: 0 <= k < |ops| ==> !StepClosesDirty(cfg, ops, start, k))
                  && !(Dirty(last) && last.native.state == Inserting))
            && (NeverFinalized(log) <==> ClosesOnlyCleanStarts(log))
            && (StartsClean(log) ==> NeverFinalized(log))
  {
    hide Run, Free, Safe, NeverFinalized, ClosesOnlyCleanStarts, StartsClean, TallyOf, RunTally;
    hide StepClosesAgain, StepClosesDirty, Consistent, NeverReclosed;
    var start := Start(cfg, replies);
    var last := Run(cfg, ops, start);
    var log := Free(cfg, last).native.log;
    RunTallies(cfg, ops, replies);
    RunTallyIsZero(cfg, ops, start);
    RunKeeps(cfg, ops, replies);
    FreeTally(cfg, last);
    TallyTells(log);
    FreeKeeps(cfg, ops, replies);
    FinalizedOnlyIfReused(log);
    if StartsClean(log) { CleanStartsSuffice(log); }
  }

  //// Where dirty sockets come from

  /** The state from which an operation recovers, if it does. */
  function RecoveryFrom(cfg: Config, op: Op, p: Session): Option<Session>
    requires Configured(cfg)
  {
    match op
    case DoQuery(prepares, external) =>
      var r := if external then SelectWithExternalData(cfg, p.native) else ExecuteQuery(cfg, p.native);
      if Reaches(p, prepares) && r.out.Threw? && r.out.fault != ServerFault then Some(p.(native := r.n)) else None
    case DoInsert(prepares, converts) =>
      var b := BeginInsert(cfg, p.native);
      if !Reaches(p, prepares) then None
      else if b.out.Threw? then Some(p.(native := b.n))
      else if !converts then AfterClosing(cfg, p.(native := b.n))
      else
        var s := SendInsertBlock(b.n);
        if s.out.Threw? then Some(p.(native := s.n)) else AfterClosing(cfg, p.(native := s.n))
    case DoInsertFromStream(prepares, batches, clean) =>
      var b := BeginInsert(cfg, p.native);
      if !Reaches(p, prepares) then None
      else if b.out.Threw? then Some(p.(native := b.n))
      else
        var s := SendBlocks(b.n, batches);
        if s.out.Threw? then Some(p.(native := s.n))
        else if clean then
          match AfterClosing(cfg, p.(native := s.n))
          case None => None
          case Some(q) => if 0 < batches then Some(q) else AfterClosing(cfg, q)
        else if 0 < batches then Some(p.(native := s.n)) else AfterClosing(cfg, p.(native := s.n))
    case DoWriteStart(prepares, installation) =>
      var b := BeginInsert(cfg, p.native);
      if !Reaches(p, prepares) || (b.out.Done? && installation.Installs?) then None
      else Some(p.(native := b.n, hasInsertBlock := b.out.Done? && installation.FailsAfter?))
    case DoWrite(rows, converts) =>
      if !Admitted(p) || !p.hasInsertBlock || rows == 0 then None
      else if !converts then AfterClosing(cfg, p)
      else if SendInsertBlock(p.native).out.Threw? then Some(p.(native := SendInsertBlock(p.native).n)) else None
    case DoWriteEnd => if Admitted(p) && p.hasInsertBlock then AfterClosing(cfg, p) else None
    case DoReset => if Admitted(p) then Some(p) else None
    case _ => None
  }

  /** Closing an insert needs a recovery if it throws. */
  function AfterClosing(cfg: Config, p: Session): Option<Session> {
    var e := EndInsert(cfg, p.native);
    if e.out.Threw? then Some(p.(native := e.n)) else None
  }

  /** No block has failed in between, and the socket is the same. */
  ghost predicate SameSocket(n: Native, r: Native) {
    r.socket == n.socket && forall s :: BlockFailed(s) in r.log ==> BlockFailed(s) in n.log
  }

  /** The state r is the end of a recovery from q, or, without one, as clean as n. */
  ghost predicate Follows(cfg: Config, n: Native, q: Option<Session>, r: Native)
    requires Configured(cfg)
  {
    match q
    case Some(x) => r == Reapply(cfg, x, false).p.native && x.alive && Sound(x.native) && x.native.index < cfg.endpoints
    case None => SameSocket(n, r)
  }

  ghost predicate Recoverable(cfg: Config, p: Session) {
    Configured(cfg) && p.alive && Sound(p.native) && p.native.index < cfg.endpoints && Closable(p.native)
  }

  /** Clearing the object's flags makes no difference to the connection. */
  lemma ReapplyNative(cfg: Config, p: Session, q: Session, clear: bool)
    requires Configured(cfg) && q.native == p.native && q.alive == p.alive && q.named == p.named
    ensures Reapply(cfg, q, clear).p.native == Reapply(cfg, p, false).p.native
  {
    hide ResetConnection, ResetConnectionEndpoint, ExecuteQuery;
  }

  lemma AfterClosingFollows(cfg: Config, p: Session)
    requires Recoverable(cfg, p)
    ensures var e := EndInsert(cfg, p.native);
            && (match AfterClosing(cfg, p)
                case Some(x) => x.native == e.n && Recoverable(cfg, x.(native := x.native.(state := Idle)))
                case None => e.out.Done? && SameSocket(p.native, e.n))
            && Follows(cfg, p.native, AfterClosing(cfg, p), CloseAndThrow(cfg, p).p.native)
  {
    hide PhaseOf, Safe, EndInsert, Reapply, TallyOf;
    EndInsertKeeps(cfg, p.native);
    EndInsertTally(cfg, p.native);
  }

  lemma CalmIsSameSocket(n: Native, r: Native)
    requires Calm(n.log, r.log) && r.socket == n.socket
    ensures SameSocket(n, r)
  {
    hide PhaseOf, TallyOf;
    CalmKeepsTally(n.log, r.log);
  }

  lemma InsertFollows(cfg: Config, p: Session, prepares: bool, converts: bool)
    requires Consistent(cfg, p)
    ensures Follows(cfg, p.native, RecoveryFrom(cfg, DoInsert(prepares, converts), p), Insert(cfg, p, prepares, converts).p.native)
  {
    hide PhaseOf, Safe, Sound, BeginInsert, SendInsertBlock, EndInsert, Reapply, Calm, TallyOf;
    if Reaches(p, prepares) {
      BeginInsertKeeps(cfg, p.native);
      BeginInsertIsCalm(cfg, p.native);
      var b := BeginInsert(cfg, p.native);
      CalmIsSameSocket(p.native, b.n);
      SendInsertBlockKeeps(b.n);
      SendInsertBlockTally(b.n);
      var s := SendInsertBlock(b.n);
      if b.out.Done? && !converts {
        AfterClosingFollows(cfg, p.(native := b.n));
      } else if b.out.Done? && s.out.Done? {
        CalmIsSameSocket(b.n, s.n);
        AfterClosingFollows(cfg, p.(native := s.n));
      }
    }
  }

  lemma InsertFromStreamFollows(cfg: Config, p: Session, prepares: bool, batches: nat, clean: bool)
    requires Consistent(cfg, p)
    ensures Follows(cfg, p.native, RecoveryFrom(cfg, DoInsertFromStream(prepares, batches, clean), p),
                    InsertFromStream(cfg, p, prepares, batches, clean).p.native)
  {
    hide PhaseOf, Safe, Sound, BeginInsert, SendBlocks, EndInsert, Reapply, Calm, TallyOf;
    if Reaches(p, prepares) {
      BeginInsertKeeps(cfg, p.native);
      BeginInsertIsCalm(cfg, p.native);
      var b := BeginInsert(cfg, p.native);
      CalmIsSameSocket(p.native, b.n);
      if b.out.Done? {
        SendBlocksKeeps(b.n, batches);
        SendBlocksTally(b.n, batches);
        var s := SendBlocks(b.n, batches);
        if s.out.Done? {
          CalmIsSameSocket(b.n, s.n);
          AfterClosingFollows(cfg, p.(native := s.n));
          if clean && batches == 0 && EndInsert(cfg, s.n).out.Threw? {
            SecondClosingFollows(cfg, p.(native := s.n));
          }
        }
      }
    }
  }

  lemma SecondClosingFollows(cfg: Config, p: Session)
    requires Recoverable(cfg, p) && p.native.state == Inserting && PhaseOf(p.native.log, p.native.socket) == Open(false)
    requires EndInsert(cfg, p.native).out.Threw?
    ensures var q := p.(native := EndInsert(cfg, p.native).n);
            Follows(cfg, p.native, AfterClosing(cfg, q), CloseAndThrow(cfg, q).p.native)
  {
    hide PhaseOf, Safe, EndInsert, Reapply, TallyOf;
    EndInsertKeeps(cfg, p.native);
    EndInsertTally(cfg, p.native);
    AfterClosingFollows(cfg, p.(native := EndInsert(cfg, p.native).n));
  }

  lemma WriteFollows(cfg: Config, p: Session, rows: nat, converts: bool)
    requires Consistent(cfg, p)
    ensures Follows(cfg, p.native, RecoveryFrom(cfg, DoWrite(rows, converts), p), Write(cfg, p, rows, converts).p.native)
  {
    hide PhaseOf, Safe, Sound, SendInsertBlock, EndInsert, Reapply, Calm, TallyOf;
    if Admitted(p) && p.hasInsertBlock && rows != 0 {
      AfterClosingFollows(cfg, p);
      SendInsertBlockKeeps(p.native);
      SendInsertBlockTally(p.native);
      var s := SendInsertBlock(p.native);
      if s.out.Done? { CalmIsSameSocket(p.native, s.n); }
    }
  }

  lemma WriteEndFollows(cfg: Config, p: Session)
    requires Consistent(cfg, p)
    ensures Follows(cfg, p.native, RecoveryFrom(cfg, DoWriteEnd, p), WriteEnd(cfg, p).p.native)
  {
    hide PhaseOf, Safe, Sound, EndInsert, Reapply, TallyOf;
    var q := p.(native := EndInsert(cfg, p.native).n);
    ReapplyNative(cfg, q, q, true);
    if Admitted(p) && p.hasInsertBlock { AfterClosingFollows(cfg, p); }
  }

  lemma OthersFollow(cfg: Config, op: Op, p: Session)
    requires Consistent(cfg, p)
    requires op.DoQuery? || op.DoWriteStart? || op.DoPing? || op.DoReset?
    ensures Follows(cfg, p.native, RecoveryFrom(cfg, op, p), Apply(cfg, op, p).p.native)
  {
    hide PhaseOf, Safe, Sound, Reapply, BeginInsert, ExecuteQuery, SelectWithExternalData, NativeProtocol.Ping, Calm, TallyOf;
    match op
    case DoPing =>
      PingKeeps(cfg, p.native);
      PingIsCalm(cfg, p.native);
      CalmIsSameSocket(p.native, NativeProtocol.Ping(cfg, p.native).n);
    case DoQuery(_, external) =>
      var r := if external then SelectWithExternalData(cfg, p.native) else ExecuteQuery(cfg, p.native);
      QueryKeeps(cfg, p.native);
      QueryIsCalm(cfg, p.native);
      CalmIsSameSocket(p.native, r.n);
    case DoWriteStart(_, installation) =>
      var b := BeginInsert(cfg, p.native);
      BeginInsertKeeps(cfg, p.native);
      BeginInsertIsCalm(cfg, p.native);
      CalmIsSameSocket(p.native, b.n);
    case DoReset =>
      ReapplyNative(cfg, p, p, true);
      if !p.alive { ReapplyOfNothing(cfg, p); }
  }

  lemma ReapplyOfNothing(cfg: Config, p: Session)
    requires Configured(cfg) && !p.alive
    ensures Reapply(cfg, p, true).p.native == p.native
  {
  }

  /** Whether the recovery of an operation throws, if it has one. */
  predicate RecoveryThrows(cfg: Config, op: Op, p: Session)
    requires Configured(cfg)
  {
    match RecoveryFrom(cfg, op, p)
    case Some(q) => Reapply(cfg, q, false).out.Threw?
    case None => false
  }

  /** A socket is dirty after an operation only if its recovery has thrown or, without a recovery,
      if the socket was dirty before. */
  lemma DirtyAfterOperation(cfg: Config, op: Op, p: Session)
    requires Consistent(cfg, p) && Apply(cfg, op, p).p.alive && Dirty(Apply(cfg, op, p).p)
    ensures match RecoveryFrom(cfg, op, p)
            case Some(_) => RecoveryThrows(cfg, op, p)
            case None => p.alive && Dirty(p)
  {
    hide PhaseOf, Safe, Sound, TallyOf, Reapply, Insert, InsertFromStream, Write, WriteEnd, CreateConnection, RecoveryFrom;
    match op
    case DoInsert(prepares, converts) => InsertFollows(cfg, p, prepares, converts); FollowedBy(cfg, op, p);
    case DoInsertFromStream(prepares, batches, clean) =>
      InsertFromStreamFollows(cfg, p, prepares, batches, clean); FollowedBy(cfg, op, p);
    case DoWrite(rows, converts) => WriteFollows(cfg, p, rows, converts); FollowedBy(cfg, op, p);
    case DoWriteEnd => WriteEndFollows(cfg, p); FollowedBy(cfg, op, p);
    case DoCreate(_) => NewClientIsClean(cfg, op, p);
    case DoSetDatabase(_, _) => NewClientIsClean(cfg, op, p);
    case _ => OthersFollow(cfg, op, p); FollowedBy(cfg, op, p);
  }

  lemma FollowedBy(cfg: Config, op: Op, p: Session)
    requires Consistent(cfg, p) && Dirty(Apply(cfg, op, p).p) && Apply(cfg, op, p).p.alive
    requires Follows(cfg, p.native, RecoveryFrom(cfg, op, p), Apply(cfg, op, p).p.native)
    requires !op.DoCreate?
    ensures match RecoveryFrom(cfg, op, p)
            case Some(_) => RecoveryThrows(cfg, op, p)
            case None => p.alive && Dirty(p)
  {
    hide PhaseOf, Safe, Sound, Reapply, RecoveryFrom, Apply;
    match RecoveryFrom(cfg, op, p)
    case Some(q) => if Reapply(cfg, q, false).out.Done? { RecoveredSocketIsClean(cfg, q, false); }
    case None => AliveBefore(cfg, op, p);
  }

  lemma AliveBefore(cfg: Config, op: Op, p: Session)
    requires Configured(cfg) && !op.DoCreate? && Apply(cfg, op, p).p.alive
    ensures p.alive
  {
    hide ResetConnection, ResetConnectionEndpoint, ExecuteQuery, BeginInsert, EndInsert, SendInsertBlock, SendBlocks;
    hide SelectWithExternalData, NativeProtocol.Ping, Construct, Destroy;
  }

  /** A new client has a new socket; a failed switch keeps the old one. */
  lemma NewClientIsClean(cfg: Config, op: Op, p: Session)
    requires Consistent(cfg, p) && (op.DoCreate? || op.DoSetDatabase?)
    requires Apply(cfg, op, p).p.alive && Dirty(Apply(cfg, op, p).p)
    ensures p.alive && Dirty(p) && RecoveryFrom(cfg, op, p).None?
  {
    hide PhaseOf, Safe, Tried, TallyOf, CreateConnection;
    var u := Unconnected(cfg, p.native);
    CreateConnectionKeeps(cfg, u, 0);
    CreateConnectionIsCalm(cfg, u, 0);
    var c := CreateConnection(cfg, u, 0).n;
    CalmKeepsTally(u.log, c.log);
    assert forall s: nat :: BlockFailed(s) in p.native.log ==> s <= p.native.sockets by { FailedSocketsAreKnown(p.native); }
  }

  lemma FailedSocketsAreKnown(n: Native)
    requires Sound(n)
    ensures forall s: nat :: BlockFailed(s) in n.log ==> s <= n.sockets
  {
    forall s: nat | BlockFailed(s) in n.log ensures s <= n.sockets {
      var i :| 0 <= i < |n.log| && n.log[i] == BlockFailed(s);
      assert SocketOf(n.log[i]) <= n.sockets;
    }
  }

  /** Whether the last recovery of a run has thrown. */
  predicate LastRecoveryThrew(cfg: Config, ops: seq<Op>, start: Session)
    requires Configured(cfg)
    decreases |ops|
  {
    ops != [] &&
    var init, op := ops[..|ops| - 1], ops[|ops| - 1];
    var p := Run(cfg, init, start);
    if RecoveryFrom(cfg, op, p).Some? then RecoveryThrows(cfg, op, p) else LastRecoveryThrew(cfg, init, start)
  }

  /** The socket in use is dirty only after a run whose last recovery has thrown. */
  lemma {:induction false} DirtyOnlyAfterFailedRecovery(cfg: Config, ops: seq<Op>, replies: seq<Reply>)
    requires Configured(cfg)
    ensures var p := Run(cfg, ops, Start(cfg, replies));
            p.alive && Dirty(p) ==> LastRecoveryThrew(cfg, ops, Start(cfg, replies))
    decreases |ops|
  {
    hide Apply, RecoveryFrom, RecoveryThrows, Consistent;
    if ops != [] {
      var init := ops[..|ops| - 1];
      var q := Run(cfg, init, Start(cfg, replies));
      DirtyOnlyAfterFailedRecovery(cfg, init, replies);
      RunKeeps(cfg, init, replies);
      var p := Apply(cfg, ops[|ops| - 1], q).p;
      if p.alive && Dirty(p) { DirtyAfterOperation(cfg, ops[|ops| - 1], q); }
    }
  }

  /** A run none of whose recoveries throws finalizes no socket on which a block has failed. */
  lemma RecoveredRunsNeverFinalize(cfg: Config, ops: seq<Op>, replies: seq<Reply>)
    requires Configured(cfg)
    requires forall k :: 0 <= k <= |ops| ==> !LastRecoveryThrew(cfg, ops[..k], Start(cfg, replies))
    ensures NeverFinalized(Free(cfg, Run(cfg, ops, Start(cfg, replies))).native.log)
  {
    hide Run, Free, NeverFinalized, LastRecoveryThrew, ClosingsOf, Dirty, ClosesOnlyCleanStarts, StartsClean;
    var start := Start(cfg, replies);
    RunFinalizesOnlyReused(cfg, ops, replies);
    forall k | 0 <= k < |ops| ensures !StepClosesDirty(cfg, ops, start, k) {
      DirtyOnlyAfterFailedRecovery(cfg, ops[..k], replies);
      if !Run(cfg, ops[..k], start).alive { DeadClosesNothing(cfg, ops[k], Run(cfg, ops[..k], start)); }
    }
    assert ops[..|ops|] == ops;
    DirtyOnlyAfterFailedRecovery(cfg, ops, replies);
    RunKeeps(cfg, ops, replies);
  }

  lemma DeadClosesNothing(cfg: Config, op: Op, p: Session)
    requires !p.alive
    ensures ClosingsOf(cfg, op, p) == 0
  {
  }

  //// A successful recovery leaves a clean socket

  /** After a recovery that succeeds no block has failed on the socket in use. */
  lemma RecoveredSocketIsClean(cfg: Config, p: Session, clear: bool)
    requires Configured(cfg) && Sound(p.native) && p.native.index < cfg.endpoints && p.alive
    requires Reapply(cfg, p, clear).out.Done?
    ensures var n := Reapply(cfg, p, clear).p.native;
            BlockFailed(n.socket) !in n.log && n.state == Idle
  {
    hide PhaseOf, Safe, Reapply, TallyOf;
    ReapplyKeeps(cfg, p, clear);
    ReapplyIsCalm(cfg, p, clear);
    CalmKeepsTally(p.native.log, Reapply(cfg, p, clear).p.native.log);
    FailedSocketsAreKnown(p.native);
  }
}
