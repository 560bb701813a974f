/** When a query keeps a connection although the stream has stopped in the middle of what the server
    sent. */
module KeptConnections {
  import opened Bytes
  import opened NativeProtocol
  import opened NativeGuarantees
  import opened ClickHouseSession
  import opened SessionGuarantees

  /** The reply at which the packet loop of a query stops. */
  function StopReply(cfg: Config, replies: seq<Reply>): Reply {
    if replies == [] then Closed
    else
      match Classify(replies[0], cfg.rethrow)
      case Got(p) => if Stops(p) then replies[0] else StopReply(cfg, replies[1..])
      case _ => replies[0]
  }

  /** The stream has ended where a packet should begin, or a packet could not be read to its end.
      The packets without a body are read with their type. */
  predicate OutOfStep(reply: Reply) {
    match reply
    case Closed => true
    case Success => true
    case CutShort(p) => p != EndOfStream && p != Pong && p != Hello
    case _ => false
  }

  /** The out-of-step replies that pass for the end of the query, or for an exception of the server. */
  predicate PassesForEnd(cfg: Config, reply: Reply) {
    match reply
    case Closed => true
    case Success => true
    case CutShort(Log) => true
    case CutShort(Info) => true
    case CutShort(ServerError) => cfg.rethrow
    case _ => false
  }

  function OutcomeOf(cfg: Config, reply: Reply): Outcome {
    match Classify(reply, cfg.rethrow)
    case Raised(f) => Threw(f)
    case _ => Done
  }

  lemma {:induction false} NextBlockStops(cfg: Config, n: Native)
    requires n.state == Selecting
    ensures var (r, more) := NextBlock(cfg, n);
            if more then StopReply(cfg, r.n.replies) == StopReply(cfg, n.replies)
            else r.out == OutcomeOf(cfg, StopReply(cfg, n.replies))
    decreases |n.replies|
  {
    hide PhaseOf, Safe;
    var (r, got) := Receive(cfg, n);
    if got.Got? && !Stops(got.packet) && !(got.packet.Data? && got.packet.columns != 0) { NextBlockStops(cfg, r); }
  }

  lemma {:induction false} DrainStops(cfg: Config, n: Native)
    requires n.state == Selecting
    ensures Drain(cfg, n).out == OutcomeOf(cfg, StopReply(cfg, n.replies))
    decreases |n.replies|
  {
    hide NextBlock, StopReply, OutcomeOf;
    NextBlockStops(cfg, n);
    var (r, more) := NextBlock(cfg, n);
    if more { DrainStops(cfg, r.n); }
  }

  /** What has been sent before the packet loop begins. */
  function Sent(cfg: Config, n: Native, external: bool): Step {
    if external && !cfg.temporaryTables then Step(n, Threw(LibraryFault))
    else
      var q := BeginExecuteQuery(n);
      if q.out.Done? && external then SendTables(q.n) else q
  }

  /** A query that has been sent ends as the stop of its packet loop says, and its connection is kept
      out of step, without a recovery, if and only if that stop passes for the end of the query or
      for an exception of the server. */
  lemma KeptOutOfStep(cfg: Config, p: Session, prepares: bool, external: bool)
    requires Consistent(cfg, p) && Reaches(p, prepares) && Sent(cfg, p.native, external).out.Done?
    ensures var r, stop := RunQuery(cfg, p, prepares, external), StopReply(cfg, Sent(cfg, p.native, external).n.replies);
            && r.out == OutcomeOf(cfg, stop)
            && (OutOfStep(stop) && !Retried(p, r.p) <==> PassesForEnd(cfg, stop))
            && (PassesForEnd(cfg, stop) ==>
                  && SameConnection(p.native, r.p.native)
                  && r.out == if stop == CutShort(ServerError) then Threw(ServerFault) else Done)
  {
    hide PhaseOf, Safe, Sound, Drain, Reapply, Tried, StopReply;
    var sent := Sent(cfg, p.native, external).n;
    DrainStops(cfg, sent);
    QueryKeeps(cfg, p.native);
    RunQueryKeeps(cfg, p, prepares, external);
    var r := if external then SelectWithExternalData(cfg, p.native) else ExecuteQuery(cfg, p.native);
    assert r == Drain(cfg, sent);
  }
}
