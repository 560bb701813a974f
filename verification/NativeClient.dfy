/** The native client as an object: its fields and those of its network and endpoint iterator are
    updated step by step, each method being exactly the protocol's step. */
module NativeClient {
  import opened Bytes
  import opened NativeProtocol
  import opened NativeGuarantees

  /** The world outside: the replies to come, and what has gone over the wire. */
  class Network {
    var replies: seq<Reply>
    var sockets: nat
    var log: seq<Event>

    constructor (replies: seq<Reply>)
      ensures this.replies == replies && sockets == 0 && log == []
    {
      this.replies, sockets, log := replies, 0, [];
    }

    method Next() returns (r: Reply)
      modifies this`replies
      ensures r == if old(replies) == [] then Closed else old(replies)[0]
      ensures replies == if old(replies) == [] then [] else old(replies)[1..]
    {
      if replies == [] {
        return Closed;
      }
      r := replies[0];
      replies := replies[1..];
    }

    method Record(e: Event)
      modifies this`log
      ensures log == old(log) + [e]
    {
      log := log + [e];
    }
  }

  class RoundRobinEndpointsIterator {
    const count: nat
    var currentIndex: nat

    constructor (count: nat)
      requires 0 < count
      ensures this.count == count && currentIndex == count - 1
    {
      this.count, currentIndex := count, count - 1;
    }

    method Next() returns (endpoint: nat)
      requires 0 < count
      modifies this
      ensures endpoint == currentIndex == (old(currentIndex) + 1) % count
    {
      currentIndex := (currentIndex + 1) % count;
      endpoint := currentIndex;
    }
  }

  class Client {
    const cfg: Config
    const network: Network
    const ring: RoundRobinEndpointsIterator
    var state: State
    var current: Option<nat>
    var socket: nat

    ghost predicate Valid() {
      Configured(cfg) && ring.count == cfg.endpoints
    }

    ghost function Model(): Native
      reads this, network, ring
    {
      Native(state, current, ring.currentIndex, socket, network.replies, network.sockets, network.log)
    }

    constructor (cfg: Config, network: Network)
      requires Configured(cfg)
      ensures Valid() && this.cfg == cfg && this.network == network && fresh(ring)
      ensures Model() == Native(Idle, None, cfg.endpoints - 1, 0, network.replies, network.sockets, network.log)
    {
      this.cfg, this.network := cfg, network;
      ring := new RoundRobinEndpointsIterator(cfg.endpoints);
      state, current, socket := Idle, None, 0;
    }

    method Send(onFailure: Event) returns (out: Outcome)
      modifies network
      ensures Step(Model(), out) == NativeProtocol.Send(old(Model()), onFailure)
    {
      var r := network.Next();
      match r
      case Fails(f) => network.Record(onFailure); out := Threw(f);
      case Closed => network.Record(onFailure); out := Threw(SystemFault);
      case _ => out := Done;
    }

    method Receive() returns (got: Received)
      modifies network
      ensures (Model(), got) == NativeProtocol.Receive(cfg, old(Model()))
    {
      var r := network.Next();
      got := Classify(r, cfg.rethrow);
      if got.Raised? {
        network.Record(Failed(socket));
      }
    }

    //// Inserts

    method BeginInsert() returns (out: Outcome)
      requires Valid()
      modifies this, network
      ensures Step(Model(), out) == NativeProtocol.BeginInsert(cfg, old(Model()))
    {
      hide Classify, PhaseOf, Safe;
      if state != Idle {
        return Threw(LibraryFault);
      }
      state := Inserting;
      out := Send(Failed(socket));
      if out.Threw? {
        return;
      }
      ghost var sent := Model();
      while true
        invariant AwaitData(cfg, Model()) == AwaitData(cfg, sent)
        decreases |network.replies|
      {
        ReceiveShrinks(cfg, Model());
        var got := Receive();
        match got
        case Raised(f) => return Threw(f);
        case Ended(_) => return Threw(LibraryFault);
        case Got(p) =>
          if Stops(p) {
            return Threw(LibraryFault);
          }
          if p.Data? {
            network.Record(Began(socket));
            return Done;
          }
      }
    }

    method SendInsertBlock() returns (out: Outcome)
      modifies network
      ensures Step(Model(), out) == NativeProtocol.SendInsertBlock(old(Model()))
    {
      hide PhaseOf, Safe;
      if state != Inserting {
        return Threw(LibraryFault);
      }
      out := Send(BlockFailed(socket));
      if out.Done? {
        network.Record(BlockSent(socket));
      }
    }

    method EndInsert() returns (out: Outcome)
      requires Valid()
      modifies this, network
      ensures Step(Model(), out) == NativeProtocol.EndInsert(cfg, old(Model()))
    {
      hide Classify, PhaseOf, Safe;
      if state != Inserting {
        return Done;
      }
      network.Record(Terminator(socket));
      out := Send(Failed(socket));
      if out.Threw? {
        return;
      }
      ghost var sent := Model();
      var last: Option<Packet>, reading := None, true;
      while reading
        invariant reading ==> AwaitEnd(cfg, Model(), last) == AwaitEnd(cfg, sent, None)
        invariant !reading ==> FinishInsert(cfg, Model(), last) == AwaitEnd(cfg, sent, None)
        decreases reading, |network.replies|
      {
        ReceiveShrinks(cfg, Model());
        var got := Receive();
        match got
        case Raised(f) => return Threw(f);
        case Ended(seen) =>
          last := if seen.Some? then seen else last;
          reading := false;
        case Got(p) =>
          last := Some(p);
          reading := !Stops(p);
      }
      if last != Some(EndOfStream) && last != Some(ServerError) && last != Some(Log) && cfg.rethrow {
        network.Record(Failed(socket));
        return Threw(LibraryFault);
      }
      state := Idle;
      out := Done;
    }

    /** The destructor. */
    method Destroy()
      requires Valid()
      modifies this, network
      ensures Model() == NativeProtocol.Destroy(cfg, old(Model()))
    {
      hide NativeProtocol.EndInsert;
      if state == Inserting {
        var _ := EndInsert();
        state := Idle;
      }
    }

    //// Queries

    method BeginExecuteQuery() returns (out: Outcome)
      modifies this, network
      ensures Step(Model(), out) == NativeProtocol.BeginExecuteQuery(old(Model()))
    {
      if state != Idle {
        return Threw(LibraryFault);
      }
      state := Selecting;
      out := Send(Failed(socket));
      if out.Threw? {
        state := Idle;
      } else {
        network.Record(Queried(socket));
      }
    }

    method NextBlock() returns (out: Outcome, more: bool)
      modifies this, network
      ensures (Step(Model(), out), more) == NativeProtocol.NextBlock(cfg, old(Model()))
    {
      hide Classify, PhaseOf, Safe;
      if state != Selecting {
        return Threw(LibraryFault), false;
      }
      while true
        invariant state == Selecting
        invariant NativeProtocol.NextBlock(cfg, Model()) == NativeProtocol.NextBlock(cfg, old(Model()))
        decreases |network.replies|
      {
        ReceiveShrinks(cfg, Model());
        var got := Receive();
        match got
        case Raised(f) =>
          state := Idle;
          return Threw(f), false;
        case Ended(_) =>
          state := Idle;
          return Done, false;
        case Got(p) =>
          if Stops(p) {
            state := Idle;
            return Done, false;
          }
          if p.Data? && p.columns != 0 {
            return Done, true;
          }
      }
    }

    method DrainBlocks() returns (out: Outcome)
      modifies this, network
      ensures Step(Model(), out) == Drain(cfg, old(Model()))
    {
      hide NativeProtocol.NextBlock;
      var more := true;
      out := Done;
      while more
        invariant more ==> Drain(cfg, Model()) == Drain(cfg, old(Model()))
        invariant !more ==> Step(Model(), out) == Drain(cfg, old(Model()))
        decreases more, |network.replies|
      {
        out, more := NextBlock();
      }
    }

    method ExecuteQuery() returns (out: Outcome)
      modifies this, network
      ensures Step(Model(), out) == NativeProtocol.ExecuteQuery(cfg, old(Model()))
    {
      hide Drain, NativeProtocol.BeginExecuteQuery;
      out := BeginExecuteQuery();
      if out.Done? {
        out := DrainBlocks();
      }
    }

    method SelectWithExternalData() returns (out: Outcome)
      modifies this, network
      ensures Step(Model(), out) == NativeProtocol.SelectWithExternalData(cfg, old(Model()))
    {
      hide Drain, NativeProtocol.BeginExecuteQuery, NativeProtocol.Send;
      if !cfg.temporaryTables {
        return Threw(LibraryFault);
      }
      out := BeginExecuteQuery();
      if out.Threw? {
        return;
      }
      out := Send(Failed(socket));
      if out.Threw? {
        state := Idle;
        return;
      }
      out := DrainBlocks();
    }

    method Ping() returns (out: Outcome)
      modifies network
      ensures Step(Model(), out) == NativeProtocol.Ping(cfg, old(Model()))
    {
      hide NativeProtocol.Send, NativeProtocol.Receive;
      if state != Idle {
        return Threw(LibraryFault);
      }
      out := Send(Failed(socket));
      if out.Threw? {
        return;
      }
      var got := Receive();
      out := if got.Raised? then Threw(got.fault) else if got == Got(Pong) then Done else Threw(LibraryFault);
    }

    //// Connections

    /** ResetConnection once there is a current endpoint. */
    method Reconnect() returns (out: Outcome)
      requires current.Some?
      modifies this, network
      ensures Step(Model(), out) == NativeProtocol.Reconnect(old(Model()))
    {
      hide NativeProtocol.Handshake, PhaseOf, Safe;
      state := Idle;
      var r := network.Next();
      if r.Fails? || r.Closed? {
        network.Record(Refused(current.value));
        return Threw(if r.Fails? then r.fault else SystemFault);
      }
      network.sockets := network.sockets + 1;
      socket := network.sockets;
      network.Record(Event.Opened(socket, current.value));
      out := Handshake();
    }

    method Handshake() returns (out: Outcome)
      modifies network
      ensures Step(Model(), out) == NativeProtocol.Handshake(old(Model()))
    {
      hide PhaseOf, Safe, NativeProtocol.Send;
      out := Send(Failed(socket));
      if out.Threw? {
        return;
      }
      ghost var sent := Model();
      var r := network.Next();
      assert r == Front(sent) && Model() == Take(sent);
      if r == Whole(Hello) {
        return Done;
      }
      network.Record(Failed(socket));
      out := if r.Fails? then Threw(r.fault)
             else if r == Whole(ServerError) || r == CutShort(ServerError) then Threw(ServerFault)
             else Threw(LibraryFault);
    }

    method ResetConnectionEndpoint() returns (out: Outcome)
      requires Valid()
      modifies this, network, ring
      ensures Step(Model(), out) == NativeProtocol.ResetConnectionEndpoint(cfg, old(Model()))
    {
      hide NativeProtocol.Reconnect;
      current := None;
      ghost var start := Model();
      var i := 0;
      while i < cfg.endpoints
        invariant 0 <= i < cfg.endpoints
        invariant Rotate(cfg, Model(), i) == Rotate(cfg, start, 0)
        decreases cfg.endpoints - i
      {
        ghost var before := Model();
        var k := ring.Next();
        current := Some(k);
        assert Model() == before.(index := k, current := Some(k)) && k == NextEndpoint(cfg, before);
        out := Reconnect();
        if out.Done? || !Retriable(out.fault) {
          return;
        }
        i := i + 1;
        if i == cfg.endpoints {
          current := None;
          return;
        }
      }
    }

    method ResetConnection() returns (out: Outcome)
      requires Valid()
      modifies this, network, ring
      ensures Step(Model(), out) == NativeProtocol.ResetConnection(cfg, old(Model()))
    {
      hide Rotate, NativeProtocol.Reconnect;
      if current.None? {
        out := ResetConnectionEndpoint();
      } else {
        out := Reconnect();
      }
    }

    method CreateConnection() returns (out: Outcome)
      requires Valid()
      modifies this, network, ring
      ensures Step(Model(), out) == NativeProtocol.CreateConnection(cfg, old(Model()), 0)
    {
      hide Rotate, NativeProtocol.ResetConnectionEndpoint;
      var maxAttempts := if cfg.retries != 0 then cfg.retries else 1;
      var i := 0;
      while i < maxAttempts
        invariant 0 <= i < maxAttempts == MaxAttempts(cfg)
        invariant NativeProtocol.CreateConnection(cfg, Model(), i) == NativeProtocol.CreateConnection(cfg, old(Model()), 0)
        decreases maxAttempts - i
      {
        out := ResetConnectionEndpoint();
        if out.Done? || !Retriable(out.fault) {
          return;
        }
        i := i + 1;
        if i >= maxAttempts {
          return;
        }
      }
    }
  }

  lemma ReceiveShrinks(cfg: Config, n: Native)
    ensures NativeProtocol.Receive(cfg, n).1.Got? ==> |NativeProtocol.Receive(cfg, n).0.replies| < |n.replies|
  {
  }
}
