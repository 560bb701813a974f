/** What the caller of the object sees: which calls are refused, which exception the others report, and
    what they leave of the object's own flags. */
module SessionVerdicts {
  import opened NativeProtocol
  import opened ClickHouseSession

  /** Calls on an object that is not connected, or in the middle of another call; while an insert is open
      all but write and writeEnd, and these while there is none; and calls with bad arguments. */
  predicate Refused(op: Op, p: Session) {
    match op
    case DoCreate(_) => p.alive
    case DoReset => !p.alive || p.queryActive
    case DoPing => !p.alive || p.queryActive || p.hasInsertBlock
    case DoQuery(prepares, _) => !p.alive || p.queryActive || p.hasInsertBlock || !prepares
    case DoInsert(prepares, _) => !p.alive || p.queryActive || p.hasInsertBlock || !prepares
    case DoInsertFromStream(prepares, _, _) => !p.alive || p.queryActive || p.hasInsertBlock || !prepares
    case DoWriteStart(prepares, _) => !p.alive || p.queryActive || p.hasInsertBlock || !prepares
    case DoSetDatabase(valid, _) => !p.alive || p.queryActive || p.hasInsertBlock || !valid
    case DoWrite(_, _) => !p.alive || p.queryActive || !p.hasInsertBlock
    case DoWriteEnd => !p.alive || p.queryActive || !p.hasInsertBlock
  }

  /** The first outcome that is an exception; Done if there is none. */
  function First(a: Outcome, b: Outcome): Outcome {
    if a.Threw? then a else b
  }

  /** The outcome of a call that is not refused: that of its first step that fails. What a recovery does
      is never reported, except by the call that asks for one. */
  function Reported(cfg: Config, op: Op, p: Session): Outcome
    requires Configured(cfg)
  {
    var n := p.native;
    var b := BeginInsert(cfg, n);
    match op
    case DoCreate(_) => Construct(cfg, n).out
    case DoSetDatabase(_, _) => Construct(cfg, n).out
    case DoReset => Reapply(cfg, p, true).out
    case DoPing => NativeProtocol.Ping(cfg, n).out
    case DoQuery(_, external) => (if external then SelectWithExternalData(cfg, n) else ExecuteQuery(cfg, n)).out
    case DoInsert(_, converts) =>
      var s := SendInsertBlock(b.n);
      First(b.out, if !converts then Threw(OtherFault) else First(s.out, EndInsert(cfg, s.n).out))
    case DoInsertFromStream(_, batches, clean) =>
      var s := SendBlocks(b.n, batches);
      First(b.out, First(s.out, if !clean then Threw(OtherFault) else EndInsert(cfg, s.n).out))
    case DoWriteStart(_, installation) => First(b.out, if installation.Installs? then Done else Threw(OtherFault))
    case DoWrite(rows, converts) =>
      if rows == 0 then Done else if !converts then Threw(OtherFault) else SendInsertBlock(n).out
    case DoWriteEnd => EndInsert(cfg, n).out
  }

  /** Every call is refused, with nothing changed but that a reset forgets the open insert, or reports its
      first failure. */
  lemma OperationReports(cfg: Config, op: Op, p: Session)
    requires Configured(cfg)
    ensures var r := Apply(cfg, op, p);
            if Refused(op, p) then
              && r.out == Threw(OtherFault)
              && r.p == if op.DoReset? && !p.queryActive then p.(hasInsertBlock := false) else p
            else r.out == Reported(cfg, op, p)
  {
    hide BeginInsert, SendInsertBlock, SendBlocks, EndInsert, ExecuteQuery, SelectWithExternalData, NativeProtocol.Ping;
    hide CreateConnection, Destroy, ResetConnection, ResetConnectionEndpoint, Unconnected;
    ReportsOfReset(cfg, p);
  }

  lemma ReportsOfReset(cfg: Config, p: Session)
    requires Configured(cfg)
    ensures !p.alive ==> Reapply(cfg, p, true) == Call(p.(hasInsertBlock := false), REJECTED)
  {
  }

  /** What a call leaves of the database's name and of the fact that there is a client: both change with a
      new client only. */
  lemma ClientChanges(cfg: Config, op: Op, p: Session)
    requires Configured(cfg)
    ensures var r := Apply(cfg, op, p);
            && r.p.queryActive == p.queryActive
            && (op.DoCreate? && r.out.Done? ==> r.p.alive && r.p.named == op.named)
            && (op.DoSetDatabase? && r.out.Done? ==> r.p.alive && r.p.named == op.named)
            && (r.out.Threw? || !(op.DoCreate? || op.DoSetDatabase?) ==> r.p.alive == p.alive && r.p.named == p.named)
  {
    hide BeginInsert, SendInsertBlock, SendBlocks, EndInsert, ExecuteQuery, SelectWithExternalData, NativeProtocol.Ping;
    hide CreateConnection, Destroy, ResetConnection, ResetConnectionEndpoint, Unconnected;
  }

  /** A failure that is recovered from forgets the open insert exactly if the recovery succeeds. */
  predicate Forgets(cfg: Config, p: Session)
    requires Configured(cfg)
  {
    Reapply(cfg, p, false).out.Done?
  }

  /** The insert that the object holds open after a call. */
  function Holds(cfg: Config, op: Op, p: Session): bool
    requires Configured(cfg)
  {
    var b := BeginInsert(cfg, p.native);
    match op
    case DoReset => p.hasInsertBlock && p.queryActive
    case DoWriteStart(_, installation) =>
      if Refused(op, p) then p.hasInsertBlock
      else b.out.Done? && (installation.Installs?
                           || (installation.FailsAfter? && !Forgets(cfg, p.(native := b.n, hasInsertBlock := true))))
    case DoWrite(rows, converts) =>
      p.hasInsertBlock && (Refused(op, p) || rows == 0
        || (if converts then SendInsertBlock(p.native).out.Done? || !Forgets(cfg, p.(native := SendInsertBlock(p.native).n))
            else EndInsert(cfg, p.native).out.Threw? && !Forgets(cfg, p.(native := EndInsert(cfg, p.native).n))))
    case DoWriteEnd => p.hasInsertBlock && Refused(op, p)
    case _ => p.hasInsertBlock
  }

  lemma InsertIsHeld(cfg: Config, op: Op, p: Session)
    requires Configured(cfg)
    ensures Apply(cfg, op, p).p.hasInsertBlock == Holds(cfg, op, p)
  {
    hide BeginInsert, SendInsertBlock, SendBlocks, EndInsert, ExecuteQuery, SelectWithExternalData, NativeProtocol.Ping;
    hide CreateConnection, Destroy, ResetConnection, ResetConnectionEndpoint, Unconnected;
  }
}
