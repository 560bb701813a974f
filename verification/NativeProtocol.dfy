/** The native client's protocol: what each operation does to the connection, and what it leaves
    on the wire. The network is a list of replies, one consumed by every connect, send or receive,
    so every failure at every point is some list of replies. */
module NativeProtocol {
  import opened Bytes

  //// The network

  /** The three kinds of exception a handler tells apart, and all the others. */
  datatype Fault = ServerFault | LibraryFault | SystemFault | OtherFault

  /** Caught by the handlers for Error and std::system_error. */
  predicate Retriable(f: Fault) {
    f != OtherFault
  }

  datatype Outcome = Done | Threw(fault: Fault)

  datatype Packet = Data(columns: nat) | ServerError | Pong | Hello | EndOfStream | Log | Info | Unknown

  /** What one connect, send or receive meets. CutShort is a packet whose type is read and whose
      body is not; Fails is any exception, one thrown by a callback on the packet included. */
  datatype Reply = Success | Fails(fault: Fault) | Whole(packet: Packet) | CutShort(packet: Packet) | Closed

  /** What the wire has seen, per socket. Failed is any other failure on the socket than that of
      a data block, a server error included. */
  datatype Event =
    | Opened(socket: nat, endpoint: nat)
    | Refused(endpoint: nat)
    | Queried(socket: nat)
    | Began(socket: nat)
    | BlockSent(socket: nat)
    | BlockFailed(socket: nat)
    | Terminator(socket: nat)
    | Failed(socket: nat)

  //// Inserts as the wire sees them

  /** Where the last insert on a socket stands. */
  datatype Phase = NoInsert | Open(sent: bool) | Closing(sent: bool) | Spoiled

  function Advance(phase: Phase, e: Event, s: nat): Phase {
    match e
    case Began(x) => if x == s then Open(false) else phase
    case BlockSent(x) => if x == s && phase.Open? then Open(true) else phase
    case BlockFailed(x) => if x == s then Spoiled else phase
    case Terminator(x) => if x == s && phase.Open? then Closing(phase.sent) else phase
    case Failed(x) => if x == s && phase.Open? then Spoiled else phase
    case _ => phase
  }

  function PhaseOf(log: seq<Event>, s: nat): Phase {
    if log == [] then NoInsert else Advance(PhaseOf(log[..|log| - 1], s), log[|log| - 1], s)
  }

  /** An insert may be closed while it is open; only one that sent nothing may be closed again. */
  predicate MayClose(phase: Phase) {
    phase.Open? || phase == Closing(false)
  }

  /** Every terminator closes an insert that may be closed. */
  predicate Safe(log: seq<Event>) {
    log == [] ||
    (Safe(log[..|log| - 1])
     && var e := log[|log| - 1]; e.Terminator? ==> MayClose(PhaseOf(log[..|log| - 1], e.socket)))
  }

  lemma LogSnoc(log: seq<Event>, e: Event)
    ensures forall s :: PhaseOf(log + [e], s) == Advance(PhaseOf(log, s), e, s)
    ensures Safe(log + [e]) <==> Safe(log) && (e.Terminator? ==> MayClose(PhaseOf(log, e.socket)))
  {
    assert (log + [e])[..|log + [e]| - 1] == log;
  }

  //// The client

  datatype State = Idle | Selecting | Inserting

  datatype Config = Config(endpoints: nat, retries: nat, rethrow: bool, temporaryTables: bool)

  /** The client's fields, and the network's: replies to come, sockets opened, events so far. */
  datatype Native = Native(state: State, current: Option<nat>, index: nat, socket: nat,
                           replies: seq<Reply>, sockets: nat, log: seq<Event>)

  datatype Step = Step(n: Native, out: Outcome)

  ghost predicate Configured(cfg: Config) {
    0 < cfg.endpoints
  }

  function Note(n: Native, e: Event): (r: Native)
    ensures forall s :: PhaseOf(r.log, s) == Advance(PhaseOf(n.log, s), e, s)
    ensures Safe(r.log) <==> Safe(n.log) && (e.Terminator? ==> MayClose(PhaseOf(n.log, e.socket)))
  {
    LogSnoc(n.log, e);
    n.(log := n.log + [e])
  }

  /** A network with no reply left is closed. */
  function Front(n: Native): Reply {
    if n.replies == [] then Closed else n.replies[0]
  }

  function Take(n: Native): Native {
    if n.replies == [] then n else n.(replies := n.replies[1..])
  }

  /** A write and its flush; a failure leaves the given event. */
  function Send(n: Native, onFailure: Event): Step {
    match Front(n)
    case Fails(f) => Step(Note(Take(n), onFailure), Threw(f))
    case Closed => Step(Note(Take(n), onFailure), Threw(SystemFault))
    case _ => Step(Take(n), Done)
  }

  /** One packet, the end of the stream, or an exception; seen is the packet type if it was read. */
  datatype Received = Got(packet: Packet) | Ended(seen: Option<Packet>) | Raised(fault: Fault)

  function Classify(reply: Reply, rethrow: bool): Received {
    match reply
    case Fails(f) => Raised(f)
    case Whole(ServerError) => if rethrow then Raised(ServerFault) else Got(ServerError)
    case Whole(Unknown) => Raised(LibraryFault)
    case Whole(p) => Got(p)
    case CutShort(ServerError) => Raised(if rethrow then ServerFault else LibraryFault)
    case CutShort(Data(_)) => Raised(LibraryFault)
    case CutShort(Unknown) => Raised(LibraryFault)
    case CutShort(Log) => Ended(Some(Log))
    case CutShort(Info) => Ended(Some(Info))
    case CutShort(p) => Got(p)
    case _ => Ended(None)
  }

  function Receive(cfg: Config, n: Native): (Native, Received) {
    var r := Classify(Front(n), cfg.rethrow);
    (if r.Raised? then Note(Take(n), Failed(n.socket)) else Take(n), r)
  }

  /** ProcessPacket stops its caller's loop at these. */
  predicate Stops(p: Packet) {
    p == ServerError || p == EndOfStream
  }

  //// Inserts

  function BeginInsert(cfg: Config, n: Native): Step {
    if n.state != Idle then Step(n, Threw(LibraryFault))
    else
      var q := Send(n.(state := Inserting), Failed(n.socket));
      if q.out.Threw? then q else AwaitData(cfg, q.n)
  }

  function AwaitData(cfg: Config, n: Native): Step
    decreases |n.replies|
  {
    var (r, got) := Receive(cfg, n);
    match got
    case Raised(f) => Step(r, Threw(f))
    case Ended(_) => Step(r, Threw(LibraryFault))
    case Got(p) =>
      if Stops(p) then Step(r, Threw(LibraryFault))
      else if p.Data? then Step(Note(r, Began(n.socket)), Done)
      else AwaitData(cfg, r)
  }

  function SendInsertBlock(n: Native): Step {
    if n.state != Inserting then Step(n, Threw(LibraryFault))
    else
      var q := Send(n, BlockFailed(n.socket));
      if q.out.Done? then Step(Note(q.n, BlockSent(n.socket)), Done) else q
  }

  function EndInsert(cfg: Config, n: Native): Step {
    if n.state != Inserting then Step(n, Done)
    else
      var q := Send(Note(n, Terminator(n.socket)), Failed(n.socket));
      if q.out.Threw? then q else AwaitEnd(cfg, q.n, None)
  }

  /** Reads until a packet ends the insert; last is the last packet type that was read. */
  function AwaitEnd(cfg: Config, n: Native, last: Option<Packet>): Step
    decreases |n.replies|
  {
    var (r, got) := Receive(cfg, n);
    match got
    case Raised(f) => Step(r, Threw(f))
    case Ended(seen) => FinishInsert(cfg, r, if seen.Some? then seen else last)
    case Got(p) => if Stops(p) then FinishInsert(cfg, r, Some(p)) else AwaitEnd(cfg, r, Some(p))
  }

  function FinishInsert(cfg: Config, n: Native, last: Option<Packet>): Step {
    if last != Some(EndOfStream) && last != Some(ServerError) && last != Some(Log) && cfg.rethrow
    then Step(Note(n, Failed(n.socket)), Threw(LibraryFault))
    else Step(n.(state := Idle), Done)
  }

  /** The destructor finishes an insert that is still open. */
  function Destroy(cfg: Config, n: Native): Native {
    if n.state == Inserting then EndInsert(cfg, n).n.(state := Idle) else n
  }

  //// Queries

  function BeginExecuteQuery(n: Native): Step {
    if n.state != Idle then Step(n, Threw(LibraryFault))
    else
      var q := Send(n.(state := Selecting), Failed(n.socket));
      if q.out.Threw? then Step(q.n.(state := Idle), q.out) else Step(Note(q.n, Queried(n.socket)), Done)
  }

  /** The step, and whether a block was returned. */
  function NextBlock(cfg: Config, n: Native): (r: (Step, bool))
    ensures r.1 ==> r.0.out == Done && |r.0.n.replies| < |n.replies| && r.0.n.state == Selecting
    decreases |n.replies|
  {
    if n.state != Selecting then (Step(n, Threw(LibraryFault)), false)
    else
      var (r, got) := Receive(cfg, n);
      match got
      case Raised(f) => (Step(r.(state := Idle), Threw(f)), false)
      case Ended(_) => (Step(r.(state := Idle), Done), false)
      case Got(p) =>
        if Stops(p) then (Step(r.(state := Idle), Done), false)
        else if p.Data? && p.columns != 0 then (Step(r, Done), true)
        else NextBlock(cfg, r)
  }

  function Drain(cfg: Config, n: Native): Step
    decreases |n.replies|
  {
    var (r, more) := NextBlock(cfg, n);
    if more then Drain(cfg, r.n) else r
  }

  function ExecuteQuery(cfg: Config, n: Native): Step {
    var q := BeginExecuteQuery(n);
    if q.out.Threw? then q else Drain(cfg, q.n)
  }

  function SelectWithExternalData(cfg: Config, n: Native): Step {
    if !cfg.temporaryTables then Step(n, Threw(LibraryFault))
    else
      var q := BeginExecuteQuery(n);
      if q.out.Threw? then q
      else
        var d := SendTables(q.n);
        if d.out.Threw? then d else Drain(cfg, d.n)
  }

  /** The external tables of a query that has begun. */
  function SendTables(n: Native): Step {
    var d := Send(n, Failed(n.socket));
    if d.out.Threw? then Step(d.n.(state := Idle), d.out) else d
  }

  function Ping(cfg: Config, n: Native): Step {
    if n.state != Idle then Step(n, Threw(LibraryFault))
    else
      var q := Send(n, Failed(n.socket));
      if q.out.Threw? then q
      else
        var (r, got) := Receive(cfg, q.n);
        match got
        case Raised(f) => Step(r, Threw(f))
        case _ => Step(r, if got == Got(Pong) then Done else Threw(LibraryFault))
  }

  //// Connections

  function NextEndpoint(cfg: Config, n: Native): nat
    requires 0 < cfg.endpoints
  {
    (n.index + 1) % cfg.endpoints
  }

  /** Connects to the current endpoint: the state is Idle from the start, the streams are swapped
      before the handshake. */
  function Reconnect(n: Native): Step
    requires n.current.Some?
  {
    var endpoint, idle := n.current.value, Take(n.(state := Idle));
    match Front(n)
    case Fails(f) => Step(Note(idle, Refused(endpoint)), Threw(f))
    case Closed => Step(Note(idle, Refused(endpoint)), Threw(SystemFault))
    case _ =>
      var socket := n.sockets + 1;
      Handshake(Note(idle.(socket := socket, sockets := socket), Opened(socket, endpoint)))
  }

  function Handshake(n: Native): Step {
    var q := Send(n, Failed(n.socket));
    if q.out.Threw? then q
    else
      match Front(q.n)
      case Whole(Hello) => Step(Take(q.n), Done)
      case Whole(ServerError) => Step(Note(Take(q.n), Failed(n.socket)), Threw(ServerFault))
      case CutShort(ServerError) => Step(Note(Take(q.n), Failed(n.socket)), Threw(ServerFault))
      case Fails(f) => Step(Note(Take(q.n), Failed(n.socket)), Threw(f))
      case _ => Step(Note(Take(q.n), Failed(n.socket)), Threw(LibraryFault))
  }

  /** The rotation, with i endpoints tried so far. */
  function Rotate(cfg: Config, n: Native, i: nat): Step
    requires i < cfg.endpoints
    decreases cfg.endpoints - i
  {
    var k := NextEndpoint(cfg, n);
    var r := Reconnect(n.(index := k, current := Some(k)));
    if r.out.Done? || !Retriable(r.out.fault) then r
    else if i + 1 == cfg.endpoints then Step(r.n.(current := None), r.out)
    else Rotate(cfg, r.n, i + 1)
  }

  function ResetConnectionEndpoint(cfg: Config, n: Native): Step
    requires Configured(cfg)
  {
    Rotate(cfg, n.(current := None), 0)
  }

  function ResetConnection(cfg: Config, n: Native): Step
    requires Configured(cfg)
  {
    if n.current.None? then ResetConnectionEndpoint(cfg, n) else Reconnect(n)
  }

  function MaxAttempts(cfg: Config): nat {
    if cfg.retries != 0 then cfg.retries else 1
  }

  function CreateConnection(cfg: Config, n: Native, i: nat): Step
    requires Configured(cfg) && i < MaxAttempts(cfg)
    decreases MaxAttempts(cfg) - i
  {
    var r := ResetConnectionEndpoint(cfg, n);
    if r.out.Done? || !Retriable(r.out.fault) || i + 1 >= MaxAttempts(cfg) then r
    else CreateConnection(cfg, r.n, i + 1)
  }

  /** A client that has never connected, on the network another one leaves. */
  function Unconnected(cfg: Config, n: Native): Native
    requires Configured(cfg)
  {
    Native(Idle, None, cfg.endpoints - 1, 0, n.replies, n.sockets, n.log)
  }

  function Construct(cfg: Config, n: Native): Step
    requires Configured(cfg)
  {
    CreateConnection(cfg, Unconnected(cfg, n), 0)
  }
}
