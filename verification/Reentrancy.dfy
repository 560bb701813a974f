/** Operations that run user code while they hold the connection: the callbacks on the packets of a
    query or of the start of an insert, the conversions of an insert, the stream of an import. That
    code may call the same object again. */
module Reentrancy {
  import opened NativeProtocol
  import opened ClickHouseSession

  /** What user code calls at each point where it runs, counted from the start of an operation. */
  type UserCode = nat -> seq<Op>

  /** What some nested calls leave, and whether every one of them was refused. */
  datatype Calls = Calls(p: Session, refused: bool)

  function CallAll(cfg: Config, ops: seq<Op>, p: Session): Calls
    requires Configured(cfg)
    decreases |ops|
  {
    if ops == [] then Calls(p, true)
    else
      var c := Apply(cfg, ops[0], p);
      var later := CallAll(cfg, ops[1..], c.p);
      Calls(later.p, c.out == REJECTED && later.refused)
  }

  /** A call made while another is in progress is refused and changes nothing. */
  lemma ReentrantCallChangesNothing(cfg: Config, op: Op, p: Session)
    requires Configured(cfg) && p.alive && p.queryActive
    ensures Apply(cfg, op, p) == Call(p, REJECTED)
  {
  }

  lemma {:induction false} NestedCallsChangeNothing(cfg: Config, ops: seq<Op>, p: Session)
    requires Configured(cfg) && p.alive && p.queryActive
    ensures CallAll(cfg, ops, p) == Calls(p, true)
    decreases |ops|
  {
    hide Apply;
    if ops != [] {
      ReentrantCallChangesNothing(cfg, ops[0], p);
      NestedCallsChangeNothing(cfg, ops[1..], p);
    }
  }

  //// Packet loops with nested calls

  /** An operation in progress: its state, its outcome so far, whether all nested calls were refused,
      and the number of the next point where user code runs. */
  datatype Trace = Trace(p: Session, out: Outcome, refused: bool, next: nat)

  /** The packet loop of a query. User code runs after every packet, the one that ends it or throws
      included. */
  function ReadPackets(cfg: Config, p: Session, user: UserCode, k: nat): Trace
    requires Configured(cfg) && p.alive && p.queryActive
    decreases |p.native.replies|
  {
    var (r, got) := Receive(cfg, p.native);
    NestedCallsChangeNothing(cfg, user(k), p.(native := r));
    var c := CallAll(cfg, user(k), p.(native := r));
    var idle := c.p.(native := c.p.native.(state := Idle));
    match got
    case Raised(f) => Trace(idle, Threw(f), c.refused, k + 1)
    case Ended(_) => Trace(idle, Done, c.refused, k + 1)
    case Got(packet) =>
      if Stops(packet) then Trace(idle, Done, c.refused, k + 1)
      else var t := ReadPackets(cfg, c.p, user, k + 1); t.(refused := c.refused && t.refused)
  }

  /** The packet loop of the start of an insert, likewise. */
  function AwaitDataCalling(cfg: Config, p: Session, user: UserCode, k: nat): Trace
    requires Configured(cfg) && p.alive && p.queryActive
    decreases |p.native.replies|
  {
    var (r, got) := Receive(cfg, p.native);
    NestedCallsChangeNothing(cfg, user(k), p.(native := r));
    var c := CallAll(cfg, user(k), p.(native := r));
    match got
    case Raised(f) => Trace(c.p, Threw(f), c.refused, k + 1)
    case Ended(_) => Trace(c.p, Threw(LibraryFault), c.refused, k + 1)
    case Got(packet) =>
      if Stops(packet) then Trace(c.p, Threw(LibraryFault), c.refused, k + 1)
      else if packet.Data? then
        Trace(c.p.(native := Note(c.p.native, Began(c.p.native.socket))), Done, c.refused, k + 1)
      else var t := AwaitDataCalling(cfg, c.p, user, k + 1); t.(refused := c.refused && t.refused)
  }

  function BeginInsertCalling(cfg: Config, p: Session, user: UserCode, k: nat): Trace
    requires Configured(cfg) && p.alive && p.queryActive
  {
    if p.native.state != Idle then Trace(p, Threw(LibraryFault), true, k)
    else
      var q := NativeProtocol.Send(p.native.(state := Inserting), Failed(p.native.socket));
      if q.out.Threw? then Trace(p.(native := q.n), q.out, true, k)
      else AwaitDataCalling(cfg, p.(native := q.n), user, k)
  }

  /** User code runs before every block, when the stream is read and the rows are converted. */
  function SendBlocksCalling(cfg: Config, p: Session, blocks: nat, user: UserCode, k: nat): Trace
    requires Configured(cfg)
    decreases blocks
  {
    var c := CallAll(cfg, user(k), p);
    if blocks == 0 then Trace(c.p, Done, c.refused, k + 1)
    else
      var s := SendInsertBlock(c.p.native);
      var q := c.p.(native := s.n);
      if s.out.Threw? then Trace(q, s.out, c.refused, k + 1)
      else var t := SendBlocksCalling(cfg, q, blocks - 1, user, k + 1); t.(refused := c.refused && t.refused)
  }

  //// Operations with nested calls

  function Released(c: Call, refused: bool): Trace {
    Trace(c.p.(queryActive := false), c.out, refused, 0)
  }

  /** On anything but a server exception, recovers; after a success user code runs once more. Then
      the guard is released. */
  function EndQuery(cfg: Config, t: Trace, user: UserCode): Trace
    requires Configured(cfg)
  {
    if t.out.Done? then
      var c := CallAll(cfg, user(t.next), t.p);
      Released(Call(c.p, Done), t.refused && c.refused)
    else if t.out.fault == ServerFault then Released(Call(t.p, t.out), t.refused)
    else Released(Recover(cfg, t.p, t.out.fault), t.refused)
  }

  function QueryCalling(cfg: Config, p: Session, prepares: bool, external: bool, user: UserCode): Trace
    requires Configured(cfg)
  {
    if !Admitted(p) || p.hasInsertBlock then Trace(p, REJECTED, true, 0)
    else
      var c := CallAll(cfg, user(0), p.(queryActive := true));
      if !prepares then Released(Call(c.p, REJECTED), c.refused)
      else if external && !cfg.temporaryTables then EndQuery(cfg, Trace(c.p, Threw(LibraryFault), c.refused, 1), user)
      else
        var b := BeginExecuteQuery(c.p.native);
        var d := if b.out.Done? && external then SendTables(b.n) else b;
        NestedCallsChangeNothing(cfg, user(0), p.(queryActive := true));
        var t := if d.out.Threw? then Trace(c.p.(native := d.n), d.out, true, 1)
                 else ReadPackets(cfg, c.p.(native := d.n), user, 1);
        EndQuery(cfg, t.(refused := c.refused && t.refused), user)
  }

  /** The part that the three inserts share: preparation and start, and then what is made of it. */
  function StartCalling(cfg: Config, p: Session, user: UserCode): Trace
    requires Configured(cfg) && p.alive && p.queryActive
  {
    NestedCallsChangeNothing(cfg, user(0), p);
    var c := CallAll(cfg, user(0), p);
    var t := BeginInsertCalling(cfg, c.p, user, 1);
    t.(refused := c.refused && t.refused)
  }

  function InsertCalling(cfg: Config, p: Session, prepares: bool, converts: bool, user: UserCode): Trace
    requires Configured(cfg)
  {
    if !Admitted(p) || p.hasInsertBlock then Trace(p, REJECTED, true, 0)
    else if !prepares then var c := CallAll(cfg, user(0), p.(queryActive := true)); Released(Call(c.p, REJECTED), c.refused)
    else
      var b := StartCalling(cfg, p.(queryActive := true), user);
      if b.out.Threw? then Released(Recover(cfg, b.p, b.out.fault), b.refused)
      else
        var d := CallAll(cfg, user(b.next), b.p);
        var refused := b.refused && d.refused;
        if !converts then Released(CloseAndThrow(cfg, d.p), refused)
        else
          var s := SendInsertBlock(d.p.native);
          if s.out.Threw? then Released(Recover(cfg, d.p.(native := s.n), s.out.fault), refused)
          else
            var e := EndInsert(cfg, s.n);
            var q := d.p.(native := e.n);
            Released(if e.out.Threw? then Recover(cfg, q, e.out.fault) else Call(q, Done), refused)
  }

  function InsertFromStreamCalling(cfg: Config, p: Session, prepares: bool, batches: nat, clean: bool, user: UserCode): Trace
    requires Configured(cfg)
  {
    if !Admitted(p) || p.hasInsertBlock then Trace(p, REJECTED, true, 0)
    else if !prepares then var c := CallAll(cfg, user(0), p.(queryActive := true)); Released(Call(c.p, REJECTED), c.refused)
    else
      var b := StartCalling(cfg, p.(queryActive := true), user);
      if b.out.Threw? then Released(Recover(cfg, b.p, b.out.fault), b.refused)
      else
        var t := SendBlocksCalling(cfg, b.p, batches, user, b.next);
        var refused := b.refused && t.refused;
        if t.out.Threw? then Released(Recover(cfg, t.p, t.out.fault), refused)
        else if !clean then Released(FailedStream(cfg, t.p, batches, OtherFault), refused)
        else
          var e := EndInsert(cfg, t.p.native);
          if e.out.Threw? then Released(FailedStream(cfg, t.p.(native := e.n), batches, e.out.fault), refused)
          else Released(Call(t.p.(native := e.n), Done), refused)
  }

  function WriteStartCalling(cfg: Config, p: Session, prepares: bool, installation: Installation, user: UserCode): Trace
    requires Configured(cfg)
  {
    if !Admitted(p) || p.hasInsertBlock then Trace(p, REJECTED, true, 0)
    else if !prepares then var c := CallAll(cfg, user(0), p.(queryActive := true)); Released(Call(c.p, REJECTED), c.refused)
    else
      var b := StartCalling(cfg, p.(queryActive := true), user);
      if b.out.Threw? then Released(RecoverAndClear(cfg, b.p, b.out.fault), b.refused)
      else
        match installation
        case Installs => Released(Call(b.p.(hasInsertBlock := true), Done), b.refused)
        case FailsBefore => Released(RecoverAndClear(cfg, b.p, OtherFault), b.refused)
        case FailsAfter => Released(RecoverAndClear(cfg, b.p.(hasInsertBlock := true), OtherFault), b.refused)
  }

  /** The guard is released when the block is built and sent, before any recovery. */
  function WriteCalling(cfg: Config, p: Session, rows: nat, converts: bool, user: UserCode): Trace
    requires Configured(cfg)
  {
    if !Admitted(p) || !p.hasInsertBlock then Trace(p, REJECTED, true, 0)
    else if rows == 0 then Trace(p, Done, true, 0)
    else
      var c := CallAll(cfg, user(0), p.(queryActive := true));
      var q := c.p.(queryActive := false);
      if !converts then
        var e := EndInsert(cfg, q.native);
        var r := q.(native := e.n);
        if e.out.Done? then Trace(r.(hasInsertBlock := false), REJECTED, c.refused, 0)
        else Released(RecoverAndClear(cfg, r, OtherFault), c.refused)
      else
        var s := SendInsertBlock(q.native);
        var r := q.(native := s.n);
        if s.out.Done? then Trace(r, Done, c.refused, 0) else Released(RecoverAndClear(cfg, r, s.out.fault), c.refused)
  }

  function ApplyCalling(cfg: Config, op: Op, p: Session, user: UserCode): Trace
    requires Configured(cfg)
  {
    match op
    case DoQuery(prepares, external) => QueryCalling(cfg, p, prepares, external, user)
    case DoInsert(prepares, converts) => InsertCalling(cfg, p, prepares, converts, user)
    case DoInsertFromStream(prepares, batches, clean) => InsertFromStreamCalling(cfg, p, prepares, batches, clean, user)
    case DoWriteStart(prepares, installation) => WriteStartCalling(cfg, p, prepares, installation, user)
    case DoWrite(rows, converts) => WriteCalling(cfg, p, rows, converts, user)
    case _ => var c := Apply(cfg, op, p); Trace(c.p, c.out, true, 0)
  }

  /** A run in which the user code of every operation makes calls of its own. */
  function RunCalling(cfg: Config, ops: seq<Op>, users: seq<UserCode>, p: Session): Trace
    requires Configured(cfg) && |users| == |ops|
    decreases |ops|
  {
    if ops == [] then Trace(p, Done, true, 0)
    else
      var last := |ops| - 1;
      var before := RunCalling(cfg, ops[..last], users[..last], p);
      var t := ApplyCalling(cfg, ops[last], before.p, users[last]);
      t.(refused := before.refused && t.refused)
  }

  //// The outer operation does not notice

  /** The outcome and the state are those of the operation alone, and every nested call is refused. */
  predicate Unaffected(t: Trace, alone: Call) {
    t.p == alone.p && t.out == alone.out && t.refused
  }

  lemma {:induction false} ReadPacketsIsDrain(cfg: Config, p: Session, user: UserCode, k: nat)
    requires Configured(cfg) && p.alive && p.queryActive && p.native.state == Selecting
    ensures var d := Drain(cfg, p.native);
            Unaffected(ReadPackets(cfg, p, user, k), Call(p.(native := d.n), d.out))
    decreases |p.native.replies|
  {
    var (r, got) := Receive(cfg, p.native);
    NestedCallsChangeNothing(cfg, user(k), p.(native := r));
    if got.Got? && !Stops(got.packet) { ReadPacketsIsDrain(cfg, p.(native := r), user, k + 1); }
  }

  lemma {:induction false} AwaitDataUnaffected(cfg: Config, p: Session, user: UserCode, k: nat)
    requires Configured(cfg) && p.alive && p.queryActive
    ensures var d := AwaitData(cfg, p.native);
            Unaffected(AwaitDataCalling(cfg, p, user, k), Call(p.(native := d.n), d.out))
    decreases |p.native.replies|
  {
    hide PhaseOf, Safe;
    var (r, got) := Receive(cfg, p.native);
    NestedCallsChangeNothing(cfg, user(k), p.(native := r));
    if got.Got? && !Stops(got.packet) && !got.packet.Data? { AwaitDataUnaffected(cfg, p.(native := r), user, k + 1); }
  }

  /** The start of an insert, with calls after every packet, is the start without them. */
  lemma StartUnaffected(cfg: Config, p: Session, user: UserCode)
    requires Configured(cfg) && p.alive && p.queryActive
    ensures var b := BeginInsert(cfg, p.native);
            Unaffected(StartCalling(cfg, p, user), Call(p.(native := b.n), b.out))
  {
    hide CallAll, AwaitData, AwaitDataCalling, NativeProtocol.Send;
    NestedCallsChangeNothing(cfg, user(0), p);
    var q := NativeProtocol.Send(p.native.(state := Inserting), Failed(p.native.socket));
    AwaitDataUnaffected(cfg, p.(native := q.n), user, 1);
  }

  lemma {:induction false} BlocksUnaffected(cfg: Config, p: Session, blocks: nat, user: UserCode, k: nat)
    requires Configured(cfg) && p.alive && p.queryActive
    ensures var s := SendBlocks(p.native, blocks);
            Unaffected(SendBlocksCalling(cfg, p, blocks, user, k), Call(p.(native := s.n), s.out))
    decreases blocks
  {
    hide SendInsertBlock;
    NestedCallsChangeNothing(cfg, user(k), p);
    if blocks != 0 {
      var s := SendInsertBlock(p.native);
      BlocksUnaffected(cfg, p.(native := s.n), blocks - 1, user, k + 1);
    }
  }

  /** A recovery does not look at the guard. */
  lemma RecoverUnderGuard(cfg: Config, p: Session, fault: Fault)
    requires Configured(cfg) && p.alive && p.queryActive
    ensures var r, free := Recover(cfg, p, fault), Recover(cfg, p.(queryActive := false), fault);
            Call(r.p.(queryActive := false), r.out) == free
    ensures var r, free := RecoverAndClear(cfg, p, fault), RecoverAndClear(cfg, p.(queryActive := false), fault);
            Call(r.p.(queryActive := false), r.out) == free
  {
    hide ResetConnection, ResetConnectionEndpoint, ExecuteQuery;
  }

  lemma CloseUnderGuard(cfg: Config, p: Session)
    requires Configured(cfg) && p.alive && p.queryActive
    ensures var r, free := CloseAndThrow(cfg, p), CloseAndThrow(cfg, p.(queryActive := false));
            Call(r.p.(queryActive := false), r.out) == free
  {
    hide EndInsert, Recover;
    RecoverUnderGuard(cfg, p.(native := EndInsert(cfg, p.native).n), OtherFault);
  }

  lemma FailedStreamUnderGuard(cfg: Config, p: Session, batches: nat, fault: Fault)
    requires Configured(cfg) && p.alive && p.queryActive
    ensures var r, free := FailedStream(cfg, p, batches, fault), FailedStream(cfg, p.(queryActive := false), batches, fault);
            Call(r.p.(queryActive := false), r.out) == free
  {
    hide CloseAndThrow, Recover;
    RecoverUnderGuard(cfg, p, fault);
    CloseUnderGuard(cfg, p);
  }

  lemma QueryUnaffected(cfg: Config, p: Session, prepares: bool, external: bool, user: UserCode)
    requires Configured(cfg)
    ensures Unaffected(QueryCalling(cfg, p, prepares, external, user), RunQuery(cfg, p, prepares, external))
  {
    hide Drain, Recover, ReadPackets, CallAll, BeginExecuteQuery, SendTables, EndQuery;
    if Admitted(p) && !p.hasInsertBlock {
      var guarded := p.(queryActive := true);
      NestedCallsChangeNothing(cfg, user(0), guarded);
      if prepares {
        var b := BeginExecuteQuery(p.native);
        var d := if b.out.Done? && external then SendTables(b.n) else b;
        var t := if d.out.Threw? then Trace(guarded.(native := d.n), d.out, true, 1)
                 else ReadPackets(cfg, guarded.(native := d.n), user, 1);
        if d.out.Done? {
          SentIsSelecting(p.native, external);
          ReadPacketsIsDrain(cfg, guarded.(native := d.n), user, 1);
        }
        EndUnaffected(cfg, Trace(guarded, Threw(LibraryFault), true, 1), user);
        EndUnaffected(cfg, t, user);
      }
    }
  }

  lemma SentIsSelecting(n: Native, external: bool)
    ensures var b := BeginExecuteQuery(n);
            var d := if b.out.Done? && external then SendTables(b.n) else b;
            d.out.Done? ==> d.n.state == Selecting
  {
    hide PhaseOf, Safe;
  }

  lemma EndUnaffected(cfg: Config, t: Trace, user: UserCode)
    requires Configured(cfg) && t.p.alive && t.p.queryActive && t.refused
    ensures var free := t.p.(queryActive := false);
            Unaffected(EndQuery(cfg, t, user),
                       if t.out.Done? || t.out.fault == ServerFault then Call(free, t.out)
                       else Recover(cfg, free, t.out.fault))
  {
    hide Recover, CallAll;
    if t.out.Done? { NestedCallsChangeNothing(cfg, user(t.next), t.p); }
    else { RecoverUnderGuard(cfg, t.p, t.out.fault); }
  }

  lemma InsertUnaffected(cfg: Config, p: Session, prepares: bool, converts: bool, user: UserCode)
    requires Configured(cfg)
    ensures Unaffected(InsertCalling(cfg, p, prepares, converts, user), Insert(cfg, p, prepares, converts))
  {
    hide BeginInsert, StartCalling, SendInsertBlock, EndInsert, Recover, RecoverAndClear, CloseAndThrow, CallAll;
    if Admitted(p) && !p.hasInsertBlock {
      var guarded := p.(queryActive := true);
      var b := BeginInsert(cfg, p.native);
      var begun := guarded.(native := b.n);
      NestedCallsChangeNothing(cfg, user(0), guarded);
      StartUnaffected(cfg, guarded, user);
      NestedCallsChangeNothing(cfg, user(StartCalling(cfg, guarded, user).next), begun);
      if b.out.Threw? { RecoverUnderGuard(cfg, begun, b.out.fault); }
      CloseUnderGuard(cfg, begun);
      var s := SendInsertBlock(b.n);
      var e := EndInsert(cfg, s.n);
      if s.out.Threw? { RecoverUnderGuard(cfg, guarded.(native := s.n), s.out.fault); }
      if e.out.Threw? { RecoverUnderGuard(cfg, guarded.(native := e.n), e.out.fault); }
    }
  }

  lemma InsertFromStreamUnaffected(cfg: Config, p: Session, prepares: bool, batches: nat, clean: bool, user: UserCode)
    requires Configured(cfg)
    ensures Unaffected(InsertFromStreamCalling(cfg, p, prepares, batches, clean, user),
                       InsertFromStream(cfg, p, prepares, batches, clean))
  {
    hide BeginInsert, StartCalling, SendBlocks, SendBlocksCalling, EndInsert, Recover, RecoverAndClear, FailedStream, CallAll;
    if Admitted(p) && !p.hasInsertBlock {
      var guarded := p.(queryActive := true);
      var b := BeginInsert(cfg, p.native);
      var begun := guarded.(native := b.n);
      NestedCallsChangeNothing(cfg, user(0), guarded);
      StartUnaffected(cfg, guarded, user);
      BlocksUnaffected(cfg, begun, batches, user, StartCalling(cfg, guarded, user).next);
      if b.out.Threw? { RecoverUnderGuard(cfg, begun, b.out.fault); }
      var s := SendBlocks(b.n, batches);
      var e := EndInsert(cfg, s.n);
      if s.out.Threw? { RecoverUnderGuard(cfg, guarded.(native := s.n), s.out.fault); }
      FailedStreamUnderGuard(cfg, guarded.(native := s.n), batches, OtherFault);
      if e.out.Threw? { FailedStreamUnderGuard(cfg, guarded.(native := e.n), batches, e.out.fault); }
    }
  }

  lemma WriteStartUnaffected(cfg: Config, p: Session, prepares: bool, installation: Installation, user: UserCode)
    requires Configured(cfg)
    ensures Unaffected(WriteStartCalling(cfg, p, prepares, installation, user), WriteStart(cfg, p, prepares, installation))
  {
    hide BeginInsert, StartCalling, Recover, RecoverAndClear, CallAll;
    if Admitted(p) && !p.hasInsertBlock {
      var guarded := p.(queryActive := true);
      var b := BeginInsert(cfg, p.native);
      var begun := guarded.(native := b.n);
      NestedCallsChangeNothing(cfg, user(0), guarded);
      StartUnaffected(cfg, guarded, user);
      RecoverUnderGuard(cfg, begun, if b.out.Threw? then b.out.fault else OtherFault);
      RecoverUnderGuard(cfg, begun.(hasInsertBlock := true), OtherFault);
    }
  }

  lemma WriteUnaffected(cfg: Config, p: Session, rows: nat, converts: bool, user: UserCode)
    requires Configured(cfg)
    ensures Unaffected(WriteCalling(cfg, p, rows, converts, user), Write(cfg, p, rows, converts))
  {
    hide SendInsertBlock, EndInsert, Reapply, CallAll;
    if Admitted(p) && p.hasInsertBlock {
      NestedCallsChangeNothing(cfg, user(0), p.(queryActive := true));
      assert p.(queryActive := true).(queryActive := false) == p;
      ReapplyKeepsGuard(cfg, p.(native := EndInsert(cfg, p.native).n));
      ReapplyKeepsGuard(cfg, p.(native := SendInsertBlock(p.native).n));
    }
  }

  lemma ReapplyKeepsGuard(cfg: Config, p: Session)
    requires Configured(cfg)
    ensures Reapply(cfg, p, false).p.queryActive == p.queryActive
  {
  }

  /** Whatever user code calls on the object while an operation is in progress, the operation ends
      as it does without those calls, and each of them is refused. */
  lemma OperationUnaffected(cfg: Config, op: Op, p: Session, user: UserCode)
    requires Configured(cfg)
    ensures Unaffected(ApplyCalling(cfg, op, p, user), Apply(cfg, op, p))
  {
    hide QueryCalling, InsertCalling, InsertFromStreamCalling, WriteStartCalling, WriteCalling;
    hide RunQuery, Insert, InsertFromStream, WriteStart, Write;
    match op
    case DoQuery(prepares, external) => QueryUnaffected(cfg, p, prepares, external, user);
    case DoInsert(prepares, converts) => InsertUnaffected(cfg, p, prepares, converts, user);
    case DoInsertFromStream(prepares, batches, clean) =>
      InsertFromStreamUnaffected(cfg, p, prepares, batches, clean, user);
    case DoWriteStart(prepares, installation) => WriteStartUnaffected(cfg, p, prepares, installation, user);
    case DoWrite(rows, converts) => WriteUnaffected(cfg, p, rows, converts, user);
    case _ =>
  }

  /** So every run with nested calls ends in the state of the run without them, and what every run
      keeps is kept by it too. */
  lemma {:induction false} RunUnaffected(cfg: Config, ops: seq<Op>, users: seq<UserCode>, p: Session)
    requires Configured(cfg) && |users| == |ops|
    ensures var t := RunCalling(cfg, ops, users, p); t.p == Run(cfg, ops, p) && t.refused
    decreases |ops|
  {
    hide Apply, ApplyCalling;
    if ops != [] {
      var last := |ops| - 1;
      RunUnaffected(cfg, ops[..last], users[..last], p);
      OperationUnaffected(cfg, ops[last], Run(cfg, ops[..last], p), users[last]);
    }
  }
}
