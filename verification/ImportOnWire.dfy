/** The two views of an import, put together: what the parser and the batcher do with the input, and
    what the session does with the blocks they send. */
module ImportOnWire {
  import opened Bytes
  import opened NativeProtocol
  import S = ClickHouseSession
  import I = StreamImport

  /** What happens to a block in the batcher is what the client makes of it, in the insert n, after
      the blocks before it. */
  ghost predicate Wired(plan: I.Plan, n: Native) {
    forall k: nat :: S.SendBlocks(n, k).out.Done? && plan.flush(k) != I.ConversionFails ==>
      (plan.flush(k) == I.Sent <==> SendInsertBlock(S.SendBlocks(n, k).n).out.Done?)
  }

  /** The blocks the client is asked to send: those that are sent, and the one on its way. */
  function Batches(end: I.ImportEnd): nat {
    end.sent + if end.dirty then 1 else 0
  }

  /** All blocks before the end were sent, and the one on its way was not. */
  ghost predicate Matches(plan: I.Plan, end: I.ImportEnd) {
    && (forall k :: 0 <= k < end.sent ==> plan.flush(k) == I.Sent)
    && (end.dirty ==> !end.clean && plan.flush(end.sent) == I.SendFails)
  }

  /** Every import that is run ends like that. */
  lemma ImportMatches(plan: I.Plan, problem: Option<I.ImportError>, onRow: I.RowBatcher)
    requires onRow.plan == plan && |onRow.sent| == I.EndOf(plan, problem, onRow.taken).sent
    requires onRow.Sentby(if problem.None? && I.LastBatchSent(plan, onRow.taken) then I.AllBatches(plan, onRow.taken)
                          else I.ProgressOf(plan, onRow.taken).batches)
    ensures Matches(plan, I.EndOf(plan, problem, onRow.taken))
  {
  }

  lemma {:induction false} SendBlocksSnoc(n: Native, k: nat)
    ensures S.SendBlocks(n, k + 1)
         == var s := S.SendBlocks(n, k); if s.out.Threw? then s else SendInsertBlock(s.n)
    decreases k
  {
    hide SendInsertBlock;
    var s := SendInsertBlock(n);
    assert S.SendBlocks(n, 1) == if s.out.Threw? then s else S.SendBlocks(s.n, 0);
    if k != 0 { SendBlocksSnoc(s.n, k - 1); }
  }

  lemma {:induction false} AllAreSent(plan: I.Plan, n: Native, k: nat)
    requires Wired(plan, n) && forall i :: 0 <= i < k ==> plan.flush(i) == I.Sent
    ensures S.SendBlocks(n, k).out.Done?
  {
    hide SendInsertBlock;
    if k != 0 {
      AllAreSent(plan, n, k - 1);
      SendBlocksSnoc(n, k - 1);
    }
  }

  /** The import of the session, with as many blocks and as clean an end as the input gives, succeeds
      or recovers exactly as the end of the import says. */
  lemma ImportRecovers(cfg: Config, p: S.Session, plan: I.Plan, end: I.ImportEnd)
    requires Configured(cfg) && S.Admitted(p) && !p.hasInsertBlock && BeginInsert(cfg, p.native).out.Done?
    requires Wired(plan, BeginInsert(cfg, p.native).n) && Matches(plan, end)
    ensures var s := S.SendBlocks(BeginInsert(cfg, p.native).n, Batches(end));
            var e := EndInsert(cfg, s.n);
            var failed := p.(native := if end.clean then e.n else s.n);
            var fault := if s.out.Threw? then s.out.fault else if end.clean && e.out.Threw? then e.out.fault else OtherFault;
            && (s.out.Threw? <==> end.dirty)
            && S.InsertFromStream(cfg, p, true, Batches(end), end.clean)
               == match I.RecoveryOf(end, e.out.Done?)
                  case NothingToRecover => S.Call(p.(native := e.n), Done)
                  case ResetConnection => S.Recover(cfg, failed, fault)
                  case EndInsertElseReset => S.Call(S.CloseAndThrow(cfg, failed).p, Threw(fault))
  {
    hide BeginInsert, SendInsertBlock, EndInsert, S.Recover, S.CloseAndThrow;
    var n := BeginInsert(cfg, p.native).n;
    AllAreSent(plan, n, end.sent);
    SendBlocksSnoc(n, end.sent);
  }
}
