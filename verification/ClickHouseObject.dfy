/** The ClickHouse object of the extension: its flags and its client, updated by every public
    method exactly as the session's step says. The guard is asserted where user code can run. */
module ClickHouseObject {
  import opened Bytes
  import opened NativeProtocol
  import opened NativeClient
  import S = ClickHouseSession

  class ClickHouse {
    const cfg: Config
    const network: Network
    var client: Client?
    var hasInsertBlock: bool
    var queryActive: bool
    var named: bool
    ghost var repr: set<object>

    ghost predicate Valid()
      reads this, repr
    {
      && Configured(cfg) && network in repr && this !in repr
      && (client != null ==>
            && client in repr && client.ring in repr
            && client.Valid() && client.cfg == cfg && client.network == network)
    }

    ghost function Model(): S.Session
      requires Valid()
      reads this, repr
    {
      S.Session(if client != null then client.Model()
                else Native(Idle, None, cfg.endpoints - 1, 0, network.replies, network.sockets, network.log),
                client != null, hasInsertBlock, queryActive, named)
    }

    constructor (cfg: Config, replies: seq<Reply>)
      requires Configured(cfg)
      ensures Valid() && fresh(repr) && this.cfg == cfg && Model() == S.Start(cfg, replies)
    {
      this.cfg := cfg;
      var n := new Network(replies);
      network := n;
      client, hasInsertBlock, queryActive, named := null, false, false, false;
      repr := {n};
    }

    method Reapply(clear: bool) returns (out: Outcome)
      requires Valid()
      modifies this`hasInsertBlock, repr
      ensures Valid() && S.Call(Model(), out) == S.Reapply(cfg, old(Model()), clear)
    {
      hide NativeProtocol.ResetConnection, NativeProtocol.ResetConnectionEndpoint, NativeProtocol.ExecuteQuery;
      if clear && hasInsertBlock {
        hasInsertBlock := false;
      }
      if client == null {
        return S.REJECTED;
      }
      out := client.ResetConnection();
      if out.Threw? && Retriable(out.fault) {
        out := client.ResetConnectionEndpoint();
      }
      if out.Done? && named {
        out := client.ExecuteQuery();
      }
    }

    method Ping() returns (out: Outcome)
      requires Valid()
      modifies this`queryActive, repr
      ensures Valid() && S.Call(Model(), out) == S.Ping(cfg, old(Model()))
    {
      hide NativeProtocol.Ping;
      if client == null || queryActive || hasInsertBlock {
        return S.REJECTED;
      }
      queryActive := true;
      assert queryActive;
      out := client.Ping();
      queryActive := false;
    }

    method RunQuery(prepares: bool, external: bool) returns (out: Outcome)
      requires Valid()
      modifies this`queryActive, this`hasInsertBlock, repr
      ensures Valid() && S.Call(Model(), out) == S.RunQuery(cfg, old(Model()), prepares, external)
    {
      hide NativeProtocol.ExecuteQuery, NativeProtocol.SelectWithExternalData, ResetConnection, ResetConnectionEndpoint;
      if client == null || queryActive || hasInsertBlock || !prepares {
        return S.REJECTED;
      }
      queryActive := true;
      assert queryActive;
      if external {
        out := client.SelectWithExternalData();
      } else {
        out := client.ExecuteQuery();
      }
      if out.Threw? && out.fault != ServerFault {
        var _ := Reapply(false);
      }
      queryActive := false;
    }

    /** Closes an insert that failed before anything was sent. */
    method CloseEmptyInsert()
      requires Valid() && client != null
      modifies this`hasInsertBlock, repr
      ensures Valid() && Model() == S.CloseAndThrow(cfg, old(Model())).p && client == old(client)
    {
      hide NativeProtocol.EndInsert, S.Reapply;
      var closed := client.EndInsert();
      if closed.Threw? {
        var _ := Reapply(false);
      }
    }

    method Insert(prepares: bool, converts: bool) returns (out: Outcome)
      requires Valid()
      modifies this`queryActive, this`hasInsertBlock, repr
      ensures Valid() && S.Call(Model(), out) == S.Insert(cfg, old(Model()), prepares, converts)
    {
      hide NativeProtocol.BeginInsert, NativeProtocol.SendInsertBlock, NativeProtocol.EndInsert;
      hide ResetConnection, ResetConnectionEndpoint, NativeProtocol.ExecuteQuery;
      if client == null || queryActive || hasInsertBlock || !prepares {
        return S.REJECTED;
      }
      queryActive := true;
      assert queryActive;
      out := client.BeginInsert();
      if out.Threw? {
        var _ := Reapply(false);
      } else if !converts {
        CloseEmptyInsert();
        out := S.REJECTED;
      } else {
        out := client.SendInsertBlock();
        if out.Done? {
          out := client.EndInsert();
        }
        if out.Threw? {
          var _ := Reapply(false);
        }
      }
      queryActive := false;
    }

    /** Flushes full batches until one fails. */
    method SendBlocks(blocks: nat) returns (out: Outcome, sent: nat)
      requires Valid() && client != null
      modifies repr
      ensures Valid() && client == old(client)
      ensures Step(client.Model(), out) == S.SendBlocks(old(client.Model()), blocks)
      ensures Model() == old(Model()).(native := client.Model())
      ensures sent <= blocks && (out.Done? ==> sent == blocks)
    {
      hide NativeProtocol.SendInsertBlock;
      sent, out := 0, Done;
      while sent < blocks
        invariant 0 <= sent <= blocks && out == Done && Valid() && client == old(client)
        invariant S.SendBlocks(client.Model(), blocks - sent) == S.SendBlocks(old(client.Model()), blocks)
        invariant Model() == old(Model()).(native := client.Model())
      {
        out := client.SendInsertBlock();
        if out.Threw? {
          return;
        }
        sent := sent + 1;
      }
    }

    method InsertFromStream(prepares: bool, batches: nat, clean: bool) returns (out: Outcome)
      requires Valid()
      modifies this`queryActive, this`hasInsertBlock, repr
      ensures Valid() && S.Call(Model(), out) == S.InsertFromStream(cfg, old(Model()), prepares, batches, clean)
    {
      hide NativeProtocol.BeginInsert, NativeProtocol.SendInsertBlock, NativeProtocol.EndInsert, S.SendBlocks;
      hide ResetConnection, ResetConnectionEndpoint, NativeProtocol.ExecuteQuery;
      if client == null || queryActive || hasInsertBlock || !prepares {
        return S.REJECTED;
      }
      queryActive := true;
      assert queryActive;
      out := client.BeginInsert();
      if out.Threw? {
        var _ := Reapply(false);
      } else {
        var sent;
        out, sent := SendBlocks(batches);
        var blockDirty := out.Threw?;
        if out.Done? {
          if clean {
            out := client.EndInsert();
          } else {
            out := S.REJECTED;
          }
        }
        if out.Threw? {
          if blockDirty || sent != 0 {
            var _ := Reapply(false);
          } else {
            CloseEmptyInsert();
          }
        }
      }
      queryActive := false;
    }

    method WriteStart(prepares: bool, installation: S.Installation) returns (out: Outcome)
      requires Valid()
      modifies this`queryActive, this`hasInsertBlock, repr
      ensures Valid() && S.Call(Model(), out) == S.WriteStart(cfg, old(Model()), prepares, installation)
    {
      hide NativeProtocol.BeginInsert, ResetConnection, ResetConnectionEndpoint, NativeProtocol.ExecuteQuery;
      if client == null || queryActive || hasInsertBlock || !prepares {
        return S.REJECTED;
      }
      queryActive := true;
      assert queryActive;
      out := client.BeginInsert();
      if out.Done? {
        hasInsertBlock := !installation.FailsBefore?;
        if !installation.Installs? {
          out := S.REJECTED;
        }
      }
      if out.Threw? {
        var recovered := Reapply(false);
        if recovered.Done? {
          hasInsertBlock := false;
        }
      }
      queryActive := false;
    }

    method Write(rows: nat, converts: bool) returns (out: Outcome)
      requires Valid()
      modifies this`queryActive, this`hasInsertBlock, repr
      ensures Valid() && S.Call(Model(), out) == S.Write(cfg, old(Model()), rows, converts)
    {
      hide NativeProtocol.SendInsertBlock, NativeProtocol.EndInsert;
      hide ResetConnection, ResetConnectionEndpoint, NativeProtocol.ExecuteQuery;
      if client == null || queryActive || !hasInsertBlock {
        return S.REJECTED;
      }
      if rows == 0 {
        return Done;
      }
      queryActive := true;
      assert queryActive;
      if converts {
        out := client.SendInsertBlock();
      } else {
        out := S.REJECTED;
      }
      queryActive := false;
      if out.Threw? {
        var recovered: Outcome;
        if converts {
          recovered := Reapply(false);
        } else {
          recovered := client.EndInsert();
          if recovered.Threw? {
            recovered := Reapply(false);
          }
        }
        if recovered.Done? {
          hasInsertBlock := false;
        }
      }
    }

    method WriteEnd() returns (out: Outcome)
      requires Valid()
      modifies this`queryActive, this`hasInsertBlock, repr
      ensures Valid() && S.Call(Model(), out) == S.WriteEnd(cfg, old(Model()))
    {
      hide NativeProtocol.EndInsert, ResetConnection, ResetConnectionEndpoint, NativeProtocol.ExecuteQuery;
      if client == null || queryActive || !hasInsertBlock {
        return S.REJECTED;
      }
      queryActive := true;
      assert queryActive;
      out := client.EndInsert();
      queryActive := false;
      if out.Done? {
        hasInsertBlock := false;
      } else {
        var _ := Reapply(true);
      }
    }

    /** Connects a new client on this object's network. */
    method Connect() returns (c: Client, out: Outcome)
      requires Configured(cfg)
      modifies network
      ensures fresh(c) && fresh(c.ring) && c.Valid() && c.cfg == cfg && c.network == network
      ensures Step(c.Model(), out)
           == Construct(cfg, old(Native(Idle, None, cfg.endpoints - 1, 0, network.replies, network.sockets, network.log)))
    {
      hide NativeProtocol.CreateConnection;
      c := new Client(cfg, network);
      out := c.CreateConnection();
    }

    method Create(named: bool) returns (out: Outcome)
      requires Valid()
      modifies this, repr
      ensures Valid() && fresh(repr - old(repr)) && S.Call(Model(), out) == S.Create(cfg, old(Model()), named)
    {
      hide NativeProtocol.CreateConnection;
      if client != null {
        return S.REJECTED;
      }
      var c;
      c, out := Connect();
      if out.Done? {
        client, this.named := c, named;
        repr := repr + {c, c.ring};
      }
    }

    method SetDatabase(valid: bool, named: bool) returns (out: Outcome)
      requires Valid()
      modifies this, repr
      ensures Valid() && fresh(repr - old(repr)) && S.Call(Model(), out) == S.SetDatabase(cfg, old(Model()), valid, named)
    {
      hide NativeProtocol.CreateConnection, NativeProtocol.Destroy;
      if client == null || queryActive || hasInsertBlock || !valid {
        return S.REJECTED;
      }
      queryActive := true;
      var c;
      assert queryActive;
      c, out := Connect();
      if out.Done? {
        client.Destroy();
        client, this.named := c, named;
        repr := repr + {c, c.ring};
      }
      queryActive := false;
    }

    method Reset() returns (out: Outcome)
      requires Valid()
      modifies this`queryActive, this`hasInsertBlock, repr
      ensures Valid() && S.Call(Model(), out) == S.Reset(cfg, old(Model()))
    {
      hide ResetConnection, ResetConnectionEndpoint, NativeProtocol.ExecuteQuery;
      if queryActive {
        return S.REJECTED;
      }
      queryActive := true;
      assert queryActive;
      out := Reapply(true);
      queryActive := false;
    }

    /** The destructor. */
    method Free()
      requires Valid()
      modifies this`client, this`hasInsertBlock, repr
      ensures Valid() && Model() == S.Free(cfg, old(Model()))
    {
      hide NativeProtocol.Destroy;
      if client != null {
        hasInsertBlock := false;
        client.Destroy();
        client := null;
      }
    }
  }
}
