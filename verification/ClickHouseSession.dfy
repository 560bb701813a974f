/** The session of one ClickHouse object: every public operation, with its recovery, as a step
    from one state to the next. */
module ClickHouseSession {
  import opened Bytes
  import opened NativeProtocol
  import opened NativeGuarantees

  /** The object's fields. Until it is constructed, and after it is freed, alive is false and
      native stands for the network alone. named: the database is neither empty nor the default. */
  datatype Session = Session(native: Native, alive: bool, hasInsertBlock: bool, queryActive: bool, named: bool)

  datatype Call = Call(p: Session, out: Outcome)

  /** The exceptions of the extension itself are runtime errors. */
  const REJECTED: Outcome := Threw(OtherFault)

  //// Recovery

  /** Reconnects, on another endpoint if need be, and selects the database again. */
  function Reapply(cfg: Config, p: Session, clear: bool): Call
    requires Configured(cfg)
  {
    var q := if clear then p.(hasInsertBlock := false) else p;
    if !p.alive then Call(q, REJECTED)
    else
      var first := ResetConnection(cfg, p.native);
      var r := if first.out.Threw? && Retriable(first.out.fault) then ResetConnectionEndpoint(cfg, first.n) else first;
      if r.out.Threw? || !p.named then Call(q.(native := r.n), r.out)
      else
        var use := ExecuteQuery(cfg, r.n);
        Call(q.(native := use.n), use.out)
  }

  /** A failed operation recovers and reports its own exception. */
  function Recover(cfg: Config, p: Session, fault: Fault): Call
    requires Configured(cfg)
  {
    Call(Reapply(cfg, p, false).p, Threw(fault))
  }

  /** The insert state of the object is dropped only if the recovery succeeded. */
  function RecoverAndClear(cfg: Config, p: Session, fault: Fault): Call
    requires Configured(cfg)
  {
    var r := Reapply(cfg, p, false);
    Call(if r.out.Done? then r.p.(hasInsertBlock := false) else r.p, Threw(fault))
  }

  //// Queries

  /** getClient and QueryActiveGuard. */
  predicate Admitted(p: Session) {
    p.alive && !p.queryActive
  }

  function Ping(cfg: Config, p: Session): Call {
    if !Admitted(p) || p.hasInsertBlock then Call(p, REJECTED)
    else
      var r := NativeProtocol.Ping(cfg, p.native);
      Call(p.(native := r.n), r.out)
  }

  /** select, selectStream, selectStreamCallback, selectToStream and execute: a server exception
      leaves the wire clean, any other exception needs a recovery. */
  function RunQuery(cfg: Config, p: Session, prepares: bool, external: bool): Call
    requires Configured(cfg)
  {
    if !Admitted(p) || p.hasInsertBlock || !prepares then Call(p, REJECTED)
    else
      var r := if external then SelectWithExternalData(cfg, p.native) else ExecuteQuery(cfg, p.native);
      var q := p.(native := r.n);
      if r.out.Done? || r.out.fault == ServerFault then Call(q, r.out) else Recover(cfg, q, r.out.fault)
  }

  //// One-shot inserts

  /** Closes an insert that failed before anything was sent, and reports that failure. */
  function CloseAndThrow(cfg: Config, p: Session): Call
    requires Configured(cfg)
  {
    var e := EndInsert(cfg, p.native);
    var q := p.(native := e.n);
    if e.out.Done? then Call(q, REJECTED) else Recover(cfg, q, OtherFault)
  }

  function Insert(cfg: Config, p: Session, prepares: bool, converts: bool): Call
    requires Configured(cfg)
  {
    if !Admitted(p) || p.hasInsertBlock || !prepares then Call(p, REJECTED)
    else
      var b := BeginInsert(cfg, p.native);
      var q := p.(native := b.n);
      if b.out.Threw? then Recover(cfg, q, b.out.fault)
      else if !converts then CloseAndThrow(cfg, q)
      else
        var s := SendInsertBlock(b.n);
        if s.out.Threw? then Recover(cfg, p.(native := s.n), s.out.fault)
        else
          var e := EndInsert(cfg, s.n);
          if e.out.Threw? then Recover(cfg, p.(native := e.n), e.out.fault) else Call(p.(native := e.n), Done)
  }

  /** Sends blocks until one fails. */
  function SendBlocks(n: Native, blocks: nat): Step
    decreases blocks
  {
    if blocks == 0 then Step(n, Done)
    else
      var s := SendInsertBlock(n);
      if s.out.Threw? then s else SendBlocks(s.n, blocks - 1)
  }

  /** insertFromStream: the input yields some full batches and then ends or fails; clean says
      which. An exception of EndInsert itself reaches the same handler as one of the input. */
  function InsertFromStream(cfg: Config, p: Session, prepares: bool, batches: nat, clean: bool): Call
    requires Configured(cfg)
  {
    if !Admitted(p) || p.hasInsertBlock || !prepares then Call(p, REJECTED)
    else
      var b := BeginInsert(cfg, p.native);
      if b.out.Threw? then Recover(cfg, p.(native := b.n), b.out.fault)
      else
        var s := SendBlocks(b.n, batches);
        if s.out.Threw? then Recover(cfg, p.(native := s.n), s.out.fault)
        else if !clean then FailedStream(cfg, p.(native := s.n), batches, OtherFault)
        else
          var e := EndInsert(cfg, s.n);
          if e.out.Threw? then FailedStream(cfg, p.(native := e.n), batches, e.out.fault)
          else Call(p.(native := e.n), Done)
  }

  /** With no block sent the insert is closed, if need be for a second time. */
  function FailedStream(cfg: Config, p: Session, batches: nat, fault: Fault): Call
    requires Configured(cfg)
  {
    if 0 < batches then Recover(cfg, p, fault) else Call(CloseAndThrow(cfg, p).p, Threw(fault))
  }

  //// Streaming inserts

  /** Whether the object's insert state can be installed once BeginInsert has returned. */
  datatype Installation = Installs | FailsBefore | FailsAfter

  function WriteStart(cfg: Config, p: Session, prepares: bool, installation: Installation): Call
    requires Configured(cfg)
  {
    if !Admitted(p) || p.hasInsertBlock || !prepares then Call(p, REJECTED)
    else
      var b := BeginInsert(cfg, p.native);
      var q := p.(native := b.n);
      if b.out.Threw? then RecoverAndClear(cfg, q, b.out.fault)
      else
        match installation
        case Installs => Call(q.(hasInsertBlock := true), Done)
        case FailsBefore => RecoverAndClear(cfg, q, OtherFault)
        case FailsAfter => RecoverAndClear(cfg, q.(hasInsertBlock := true), OtherFault)
  }

  /** A failed conversion closes the insert on the healthy wire, a failed send needs a recovery. */
  function Write(cfg: Config, p: Session, rows: nat, converts: bool): Call
    requires Configured(cfg)
  {
    if !Admitted(p) || !p.hasInsertBlock then Call(p, REJECTED)
    else if rows == 0 then Call(p, Done)
    else if !converts then
      var e := EndInsert(cfg, p.native);
      var q := p.(native := e.n);
      if e.out.Done? then Call(q.(hasInsertBlock := false), REJECTED) else RecoverAndClear(cfg, q, OtherFault)
    else
      var s := SendInsertBlock(p.native);
      var q := p.(native := s.n);
      if s.out.Done? then Call(q, Done) else RecoverAndClear(cfg, q, s.out.fault)
  }

  function WriteEnd(cfg: Config, p: Session): Call
    requires Configured(cfg)
  {
    if !Admitted(p) || !p.hasInsertBlock then Call(p, REJECTED)
    else
      var e := EndInsert(cfg, p.native);
      var q := p.(native := e.n);
      if e.out.Done? then Call(q.(hasInsertBlock := false), Done)
      else Call(Reapply(cfg, q, true).p, e.out)
  }

  //// The connection itself

  /** The constructor; a second one is refused. */
  function Create(cfg: Config, p: Session, named: bool): Call
    requires Configured(cfg)
  {
    if p.alive then Call(p, REJECTED)
    else
      var c := Construct(cfg, p.native);
      if c.out.Done? then Call(p.(native := c.n, alive := true, named := named), Done)
      else Call(p.(native := Unconnected(cfg, c.n)), c.out)
  }

  /** The old client is deleted only after the new one is connected. */
  function SetDatabase(cfg: Config, p: Session, valid: bool, named: bool): Call
    requires Configured(cfg)
  {
    if !Admitted(p) || p.hasInsertBlock || !valid then Call(p, REJECTED)
    else
      var c := Construct(cfg, p.native);
      var previous := p.native.(replies := c.n.replies, sockets := c.n.sockets, log := c.n.log);
      if c.out.Threw? then Call(p.(native := previous), c.out)
      else
        var d := Destroy(cfg, previous);
        var created := c.n.(replies := d.replies, sockets := d.sockets, log := d.log);
        Call(p.(native := created, named := named), Done)
  }

  function Reset(cfg: Config, p: Session): Call
    requires Configured(cfg)
  {
    if p.queryActive then Call(p, REJECTED) else Reapply(cfg, p, true)
  }

  /** The destructor of the object. */
  function Free(cfg: Config, p: Session): Session
    requires Configured(cfg)
  {
    if !p.alive then p
    else p.(native := Unconnected(cfg, Destroy(cfg, p.native)), alive := false, hasInsertBlock := false)
  }

  //// Runs

  datatype Op =
    | DoCreate(named: bool)
    | DoPing
    | DoQuery(prepares: bool, external: bool)
    | DoInsert(prepares: bool, converts: bool)
    | DoInsertFromStream(prepares: bool, batches: nat, clean: bool)
    | DoWriteStart(prepares: bool, installation: Installation)
    | DoWrite(rows: nat, converts: bool)
    | DoWriteEnd
    | DoSetDatabase(valid: bool, named: bool)
    | DoReset

  function Apply(cfg: Config, op: Op, p: Session): Call
    requires Configured(cfg)
  {
    match op
    case DoCreate(named) => Create(cfg, p, named)
    case DoPing => Ping(cfg, p)
    case DoQuery(prepares, external) => RunQuery(cfg, p, prepares, external)
    case DoInsert(prepares, converts) => Insert(cfg, p, prepares, converts)
    case DoInsertFromStream(prepares, batches, clean) => InsertFromStream(cfg, p, prepares, batches, clean)
    case DoWriteStart(prepares, installation) => WriteStart(cfg, p, prepares, installation)
    case DoWrite(rows, converts) => Write(cfg, p, rows, converts)
    case DoWriteEnd => WriteEnd(cfg, p)
    case DoSetDatabase(valid, named) => SetDatabase(cfg, p, valid, named)
    case DoReset => Reset(cfg, p)
  }

  function Run(cfg: Config, ops: seq<Op>, p: Session): Session
    requires Configured(cfg)
  {
    if ops == [] then p else Apply(cfg, ops[|ops| - 1], Run(cfg, ops[..|ops| - 1], p)).p
  }

  /** Before the constructor, on a network with the given replies. */
  function Start(cfg: Config, replies: seq<Reply>): Session
    requires Configured(cfg)
  {
    Session(Native(Idle, None, cfg.endpoints - 1, 0, replies, 0, []), false, false, false, false)
  }

  //// What every run keeps

  /** Between operations the client is not selecting, and it is inserting only if the object knows
      and the insert on the wire is open. */
  ghost predicate Consistent(cfg: Config, p: Session) {
    && Configured(cfg) && Sound(p.native) && p.native.index < cfg.endpoints && !p.queryActive
    && p.native.state != Selecting
    && (p.hasInsertBlock ==> p.alive)
    && (p.native.state == Inserting ==> p.hasInsertBlock && PhaseOf(p.native.log, p.native.socket).Open?)
  }

  /** A successful recovery ends with a socket of its own to the current endpoint, on which the
      database has been selected again if it has a name of its own. */
  ghost predicate Recovered(p: Session, r: Session) {
    var n := r.native;
    && n.current.Some? && n.socket == n.sockets && p.native.sockets < n.socket
    && Ends(n.log, [Event.Opened(n.socket, n.current.value)] + (if p.named then [Queried(n.socket)] else []))
  }

  ghost predicate Ends(log: seq<Event>, end: seq<Event>) {
    |end| <= |log| && log[|log| - |end|..] == end
  }

  /** Some endpoint has been tried in between. */
  ghost predicate Retried(p: Session, r: Session) {
    |Tried(p.native.log)| < |Tried(r.native.log)|
  }

  /** A recovery of any operation in any state ends the insert in the client before it connects. */
  lemma ReapplyKeeps(cfg: Config, p: Session, clear: bool)
    requires Configured(cfg) && Sound(p.native) && p.native.index < cfg.endpoints && p.alive
    ensures var r := Reapply(cfg, p, clear);
            && Sound(r.p.native) && r.p.native.index < cfg.endpoints && r.p.native.state == Idle
            && r.p.alive && r.p.queryActive == p.queryActive && r.p.named == p.named
            && r.p.hasInsertBlock == (p.hasInsertBlock && !clear)
            && Retried(p, r.p) && (r.out.Done? ==> Recovered(p, r.p))
  {
    hide PhaseOf, Safe, ResetConnection, ResetConnectionEndpoint, ExecuteQuery, SelectWithExternalData, Tried;
    ResetConnectionKeeps(cfg, p.native);
    var first := ResetConnection(cfg, p.native);
    ResetConnectionEndpointRotates(cfg, first.n);
    var r := if first.out.Threw? && Retriable(first.out.fault) then ResetConnectionEndpoint(cfg, first.n) else first;
    QueryKeeps(cfg, r.n);
    hide Ends, Sound;
    if r.out.Done? {
      EndsAfterQuery(r.n.log, Queried(r.n.socket));
      var n := Reapply(cfg, p, clear).p.native;
      assert Reapply(cfg, p, clear).out.Done? ==> n.log == if p.named then r.n.log + [Queried(r.n.socket)] else r.n.log;
    }
  }

  lemma EndsAfterQuery(log: seq<Event>, q: Event)
    requires log != []
    ensures Ends(log, [log[|log| - 1]] + []) && Ends(log + [q], [log[|log| - 1]] + [q])
  {
  }
}
