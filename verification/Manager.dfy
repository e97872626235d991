/** payouts/manager.go: the endless loop over unlocking, rewarding, saving and paying, and what it keeps. */
module Manager {
  import opened Base
  import opened Ledger
  import opened Crediting
  import opened Shares
  import opened Schemes
  import opened Rewards
  import opened Blocks
  import Payer
  import PayerRuns

  /** What the confirmed blocks of a pool and chain brought in. */
  function Earned(rows: seq<FoundBlock>, pool: string, chain: string): real {
    if rows == [] then 0.0
    else EarnedBy(rows[0], pool, chain) + Earned(rows[1..], pool, chain)
  }

  function EarnedBy(b: FoundBlock, pool: string, chain: string): real {
    if b.status == Confirmed && b.pool == pool && b.chain == chain then b.reward else 0.0
  }

  lemma {:induction false} EarnedAppend(rows: seq<FoundBlock>, b: FoundBlock, pool: string, chain: string)
    ensures Earned(rows + [b], pool, chain) == Earned(rows, pool, chain) + EarnedBy(b, pool, chain)
  {
    if rows == [] {
      ConcatEmpty([b]);
    } else {
      SplitWithin(rows, [b], 1);
      EarnedAppend(rows[1..], b, pool, chain);
    }
  }

  lemma {:induction false} EarnedConcat(a: seq<FoundBlock>, b: seq<FoundBlock>, pool: string, chain: string)
    ensures Earned(a + b, pool, chain) == Earned(a, pool, chain) + Earned(b, pool, chain)
  {
    if a == [] {
      ConcatEmpty(b);
    } else {
      SplitWithin(a, b, 1);
      EarnedConcat(a[1..], b, pool, chain);
    }
  }

  lemma EarnedCons(b: FoundBlock, rows: seq<FoundBlock>, pool: string, chain: string)
    ensures Earned([b] + rows, pool, chain) == EarnedBy(b, pool, chain) + Earned(rows, pool, chain)
  {
    HeadTail(b, rows);
  }

  lemma EarnedUnsaved(b: FoundBlock, blocks: seq<FoundBlock>, saveOk: nat -> bool, pool: string, chain: string)
    ensures Earned(NotSaved([b] + blocks, saveOk), pool, chain)
      == (if saveOk(b.id) then 0.0 else EarnedBy(b, pool, chain)) + Earned(NotSaved(blocks, saveOk), pool, chain)
  {
    HeadTail(b, blocks);
    EarnedCons(b, NotSaved(blocks, saveOk), pool, chain);
    ConcatEmpty(NotSaved(blocks, saveOk));
  }

  /** What a sweep adds to what is earned, with the blocks it fails to save, is what newly matured. */
  lemma {:induction false} EarnedBySweep(rows: seq<FoundBlock>, pool: string, oracle: Oracle, saveOk: nat -> bool,
    p: string, chain: string)
    requires Classified(PendingOf(rows, pool), oracle).Ok?
    ensures var confirmed := ConfirmedIn(Classified(PendingOf(rows, pool), oracle).value);
      Earned(Swept(rows, pool, oracle, saveOk), p, chain) + Earned(NotSaved(confirmed, saveOk), p, chain)
        == Earned(rows, p, chain) + Earned(confirmed, p, chain)
  {
    hide Earned;
    if rows == [] {
      assert ConfirmedIn([]) == [] && NotSaved([], saveOk) == [] && Swept(rows, pool, oracle, saveOk) == [];
    } else {
      PendingCons(rows, pool, oracle);
      EarnedBySweep(rows[1..], pool, oracle, saveOk, p, chain);
      var updated, rest := Classified(PendingOf(rows, pool), oracle).value,
        Classified(PendingOf(rows[1..], pool), oracle).value;
      ConfirmedCons(rows[0], pool, oracle, updated, rest);
      EarnedCons(SweptRow(rows[0], pool, oracle, saveOk), Swept(rows[1..], pool, oracle, saveOk), p, chain);
      ConsBack(rows);
      EarnedCons(rows[0], rows[1..], p, chain);
      var judged := Judge(rows[0], oracle(rows[0]));
      if IsPending(rows[0], pool) && oracle(rows[0]).Generate? {
        EarnedCons(judged, ConfirmedIn(rest), p, chain);
        EarnedUnsaved(judged, ConfirmedIn(rest), saveOk, p, chain);
      } else {
        ConcatEmpty(ConfirmedIn(rest));
      }
    }
  }

  /** What the nodes report for the pool's pending blocks of a chain that they call mature. */
  function Reported(rows: seq<FoundBlock>, pool: string, oracle: Oracle, chain: string): real {
    if rows == [] then 0.0
    else
      (if rows[0].pool == pool && rows[0].status == Pending && rows[0].chain == chain && oracle(rows[0]).Generate?
       then oracle(rows[0]).amount else 0.0)
        + Reported(rows[1..], pool, oracle, chain)
  }

  /** What newly matured blocks bring in is what the nodes report for them. */
  lemma {:induction false} EarnedIsReported(rows: seq<FoundBlock>, pool: string, oracle: Oracle, p: string,
    chain: string)
    requires Classified(PendingOf(rows, pool), oracle).Ok?
    ensures Earned(ConfirmedIn(Classified(PendingOf(rows, pool), oracle).value), p, chain)
      == if p == pool then Reported(rows, pool, oracle, chain) else 0.0
  {
    hide Earned;
    if rows == [] {
      assert ConfirmedIn([]) == [];
      NothingEarned(p, chain);
    } else {
      PendingCons(rows, pool, oracle);
      EarnedIsReported(rows[1..], pool, oracle, p, chain);
      var updated, rest := Classified(PendingOf(rows, pool), oracle).value,
        Classified(PendingOf(rows[1..], pool), oracle).value;
      ConfirmedCons(rows[0], pool, oracle, updated, rest);
      if IsPending(rows[0], pool) && oracle(rows[0]).Generate? {
        EarnedCons(Judge(rows[0], oracle(rows[0])), ConfirmedIn(rest), p, chain);
      } else {
        ConcatEmpty(ConfirmedIn(rest));
      }
    }
  }

  lemma NothingEarned(pool: string, chain: string)
    ensures Earned([], pool, chain) == 0.0
  {
  }

  // ---------- shares stay scored ----------

  lemma {:induction false} KeptScored(rows: seq<Share>, pool: string, before: Time)
    requires Scored(rows)
    ensures Scored(Kept(rows, pool, before))
  {
    if rows != [] {
      KeptScored(rows[1..], pool, before);
    }
  }

  lemma {:induction false} NothingBeforeZero(rows: seq<Share>, pool: string)
    ensures Kept(rows, pool, 0) == rows
  {
    if rows != [] {
      NothingBeforeZero(rows[1..], pool);
      ConsBack(rows);
    }
  }

  // ---------- one round of rewards ----------

  /** Everything outside the pool that a turn of the loop meets. */
  datatype Turn = Turn(
    oracle: Oracle,
    saveOk: nat -> bool,
    faults: nat -> CreditFault,
    deleteFails: nat -> bool,
    arrivals: nat -> seq<Share>,
    node: Payer.Node,
    payFault: Payer.PayFault)
  {
    /** Shares that arrive have their difficulties. */
    ghost predicate Proper() {
      forall i: nat :: Scored(arrivals(i))
    }
  }

  /** Rewarding `blocks` in turn, starting from the shares `shares`. */
  datatype Round = Round(cfg: RewardConfig, shares: seq<Share>, blocks: seq<FoundBlock>, turn: Turn) {
    ghost predicate Proper() {
      Scored(shares) && turn.Proper() && cfg.pageSize >= 1
    }

    /** Whether the calculation for block `n` ends without an error; that it does not depends on no order. */
    predicate Clears(n: nat)
      requires n < |blocks|
    {
      && cfg.scheme == Solo && PoolPayable(cfg, blocks[n].chain) && !turn.deleteFails(n)
      && Completes(turn.faults(n), |RecipientCredits(cfg.recipients[blocks[n].chain],
                                      NodeAddress(cfg, blocks[n].chain), blocks[n].reward)| + 1)
    }

    /** The shares calculation `n` sees: those of the one before, less what it cleared, and what arrived since. */
    ghost function SharesAt(n: nat): (rows: seq<Share>)
      requires Proper() && n <= |blocks|
      ensures Scored(rows)
      decreases n, 0
    {
      if n == 0 then
        ScoredConcat(shares, turn.arrivals(0));
        shares + turn.arrivals(0)
      else
        var left := LeftAfter(n - 1);
        ScoredConcat(left, turn.arrivals(n));
        left + turn.arrivals(n)
    }

    /** Only SOLO moves the cutoff past the zero time. */
    ghost function LeftAfter(n: nat): (rows: seq<Share>)
      requires Proper() && n < |blocks|
      ensures Scored(rows)
      decreases n, 1
    {
      var rows := SharesAt(n);
      KeptScored(rows, cfg.pool, blocks[n].created);
      if Clears(n) then Kept(rows, cfg.pool, blocks[n].created) else rows
    }

    /** The shares that come in between calculations `from - 1` and `to - 1`. */
    function Arrived(from: nat, to: nat): seq<Share>
      requires from <= to
    {
      if from == to then [] else Arrived(from, to - 1) + turn.arrivals(to - 1)
    }

    /**
     * Calculation `n` deletes a share: with SOLO, once the recipients and the finder are credited and unless the
     * deletion itself fails, when it is the pool's and older than the block.
     */
    predicate Deletes(n: nat, x: Share)
      requires n < |blocks|
    {
      var chain, fault := blocks[n].chain, turn.faults(n);
      && cfg.scheme == Solo && !turn.deleteFails(n)
      && chain in cfg.recipients && (cfg.recipients[chain] == [] || chain in cfg.rewardTo)
      && (fault.CreditFails? && fault.fault != NoFault ==>
          fault.at > |RecipientCredits(cfg.recipients[chain], NodeAddress(cfg, chain), blocks[n].reward)|)
      && x.pool == cfg.pool && x.created < blocks[n].created
    }

    /** No calculation from `from` up to `to` deletes the share. */
    predicate Spares(from: nat, to: nat, x: Share)
      requires to <= |blocks|
    {
      forall i :: from <= i < to ==> !Deletes(i, x)
    }

    /**
     * How often a share stands in the table after the first `n` calculations: one that was never deleted as often as it
     * was there and came in, a deleted one as often as it came in since.
     */
    ghost predicate LeftOver(rows: seq<Share>, n: nat, x: Share)
      requires n <= |blocks|
    {
      && (Spares(0, n, x) ==> multiset(rows)[x] == multiset(shares)[x] + multiset(Arrived(0, n + 1))[x])
      && (forall i :: 0 <= i < n && Deletes(i, x) && Spares(i + 1, n, x) ==>
            multiset(rows)[x] == multiset(Arrived(i + 1, n + 1))[x])
    }

    lemma {:induction false} SharesLeft(n: nat, x: Share)
      requires Proper() && n <= |blocks|
      ensures LeftOver(SharesAt(n), n, x)
    {
      if n == 0 {
        SharesFirst(x);
      } else {
        SharesLeft(n - 1, x);
        SharesNext(n, x);
        LeftOverNext(SharesAt(n - 1), SharesAt(n), n, x);
      }
    }

    lemma SharesFirst(x: Share)
      requires Proper()
      ensures LeftOver(SharesAt(0), 0, x)
    {
      JoinCounts(shares, turn.arrivals(0));
      ArrivedNext(0, 0, x);
    }

    lemma LeftOverNext(before: seq<Share>, rows: seq<Share>, n: nat, x: Share)
      requires 0 < n <= |blocks| && LeftOver(before, n - 1, x)
      requires multiset(rows)[x]
        == (if Deletes(n - 1, x) then 0 else multiset(before)[x]) + multiset(turn.arrivals(n))[x]
      ensures LeftOver(rows, n, x)
    {
      hide Deletes, Arrived;
      ArrivedNext(0, n, x);
      assert Spares(0, n, x) <==> Spares(0, n - 1, x) && !Deletes(n - 1, x);
      forall i | 0 <= i < n && Deletes(i, x) && Spares(i + 1, n, x)
        ensures multiset(rows)[x] == multiset(Arrived(i + 1, n + 1))[x]
      {
        ArrivedNext(i + 1, n, x);
        if i < n - 1 {
          assert Spares(i + 1, n - 1, x) && !Deletes(n - 1, x);
        } else {
          NothingArrived(n);
        }
      }
    }

    lemma NothingArrived(n: nat)
      ensures Arrived(n, n) == []
    {
    }

    lemma SharesNext(n: nat, x: Share)
      requires Proper() && 0 < n <= |blocks|
      ensures multiset(SharesAt(n))[x]
        == (if Deletes(n - 1, x) then 0 else multiset(SharesAt(n - 1))[x]) + multiset(turn.arrivals(n))[x]
    {
      hide RecipientCredits, NodeAddress, Kept;
      KeptExact(SharesAt(n - 1), cfg.pool, blocks[n - 1].created, x);
      JoinCounts(LeftAfter(n - 1), turn.arrivals(n));
    }

    lemma ArrivedNext(from: nat, n: nat, x: Share)
      requires from <= n
      ensures multiset(Arrived(from, n + 1))[x] == multiset(Arrived(from, n))[x] + multiset(turn.arrivals(n))[x]
    {
      JoinCounts(Arrived(from, n), turn.arrivals(n));
    }

    /** Without SOLO nothing is ever deleted. */
    lemma {:induction false} AllSharesStay(n: nat)
      requires Proper() && n <= |blocks| && cfg.scheme != Solo
      ensures SharesAt(n) == shares + Arrived(0, n + 1)
    {
      if n == 0 {
        ConcatEmpty(turn.arrivals(0));
      } else {
        AllSharesStay(n - 1);
        ConcatAssoc(shares, Arrived(0, n), turn.arrivals(n));
      }
    }

    /** What calculations and arrivals leave in the share table. */
    ghost predicate Leaves(rows: seq<Share>) {
      && (forall x :: LeftOver(rows, |blocks|, x))
      && (cfg.scheme != Solo ==> rows == shares + Arrived(0, |blocks| + 1))
    }

    /** The last calculation up to `n` that deletes the share, when one from `i` on does. */
    lemma {:induction false} LastDeletion(i: nat, n: nat, x: Share) returns (k: nat)
      requires i < n <= |blocks| && Deletes(i, x)
      ensures i <= k < n && Deletes(k, x) && Spares(k + 1, n, x)
    {
      if Deletes(n - 1, x) {
        k := n - 1;
      } else {
        k := LastDeletion(i, n - 1, x);
      }
    }

    lemma {:induction false} CameIn(from: nat, to: nat, x: Share) returns (j: nat)
      requires from <= to && x in Arrived(from, to)
      ensures from <= j < to && x in turn.arrivals(j)
    {
      if x in turn.arrivals(to - 1) {
        j := to - 1;
      } else {
        j := CameIn(from, to - 1, x);
      }
    }

    /**
     * With SOLO and without failing statements, every share of the pool that is older than a rewarded block is gone,
     * unless it came in after that block's calculation.
     */
    lemma NoOldShareStays(rows: seq<Share>, i: nat, x: Share)
      requires Leaves(rows) && i < |blocks| && cfg.scheme == Solo
      requires blocks[i].chain in cfg.recipients
      requires cfg.recipients[blocks[i].chain] == [] || blocks[i].chain in cfg.rewardTo
      requires turn.faults(i) == NoneFails && !turn.deleteFails(i)
      requires x in rows && x.pool == cfg.pool && x.created < blocks[i].created
      ensures exists j :: i < j <= |blocks| && x in turn.arrivals(j)
    {
      hide RecipientCredits, NodeAddress;
      var k := LastDeletion(i, |blocks|, x);
      assert LeftOver(rows, |blocks|, x);
      assert x in multiset(Arrived(k + 1, |blocks| + 1));
      var j := CameIn(k + 1, |blocks| + 1, x);
    }

    lemma LeavesShares()
      requires Proper()
      ensures Leaves(SharesAt(|blocks|))
    {
      forall x ensures LeftOver(SharesAt(|blocks|), |blocks|, x) {
        SharesLeft(|blocks|, x);
      }
      if cfg.scheme != Solo {
        AllSharesStay(|blocks|);
      }
    }

    /** The orders in which the miners of the first blocks came. */
    ghost predicate Orders(orders: seq<seq<string>>)
      requires Proper()
    {
      |orders| <= |blocks| && forall i :: 0 <= i < |orders| ==> OrderAt(i, orders[i])
    }

    ghost predicate OrderAt(i: nat, order: seq<string>)
      requires Proper() && i < |blocks|
    {
      MinerOrder(cfg, SharesAt(i), blocks[i], order)
    }

    ghost function Credits(orders: seq<seq<string>>, n: nat): seq<Credit>
      requires Proper() && Orders(orders) && n < |orders|
    {
      BlockCredits(cfg, SharesAt(n), blocks[n], orders[n])
    }

    /** The books after the first blocks, credit by credit until one fails. */
    ghost function BooksAfter(start: Books, orders: seq<seq<string>>): Books
      requires Proper() && Orders(orders)
      decreases |orders|
    {
      if orders == [] then start
      else
        var n := |orders| - 1;
        CreditAll(BooksAfter(start, orders[..n]), CauseOf(cfg, blocks[n]), Credits(orders, n), turn.faults(n))
    }

    /** What their failing credits left behind. */
    ghost function MissedBy(orders: seq<seq<string>>): seq<Change>
      requires Proper() && Orders(orders)
      decreases |orders|
    {
      if orders == [] then []
      else
        var n := |orders| - 1;
        MissedBy(orders[..n]) + Missed(CauseOf(cfg, blocks[n]), Credits(orders, n), turn.faults(n))
    }

    /** What reached the log for block `n`. */
    ghost function LoggedFor(orders: seq<seq<string>>, n: nat): seq<Credit>
      requires Proper() && Orders(orders) && n < |orders|
    {
      var credits := Credits(orders, n);
      credits[..Logged(turn.faults(n), |credits|)]
    }

    ghost function LogOf(orders: seq<seq<string>>): seq<Change>
      requires Proper() && Orders(orders)
      decreases |orders|
    {
      if orders == [] then []
      else
        var n := |orders| - 1;
        LogOf(orders[..n]) + ChangesOf(CauseOf(cfg, blocks[n]), LoggedFor(orders, n))
    }

    lemma {:induction false} Balances(start: Books, s: Slips, orders: seq<seq<string>>)
      requires Proper() && Orders(orders) && Balanced(start, s)
      ensures Balanced(BooksAfter(start, orders), s.Plus(Slips(MissedBy(orders), [])))
      decreases |orders|
    {
      hide Balanced, CreditAll, Missed;
      if orders == [] {
        PlusNothing(s);
      } else {
        var n := |orders| - 1;
        Balances(start, s, orders[..n]);
        var before := s.Plus(Slips(MissedBy(orders[..n]), []));
        var missed := Missed(CauseOf(cfg, blocks[n]), Credits(orders, n), turn.faults(n));
        CreditAllBalanced(BooksAfter(start, orders[..n]), before, CauseOf(cfg, blocks[n]), Credits(orders, n),
          turn.faults(n));
        ConcatAssoc(s.unbooked, MissedBy(orders[..n]), missed);
        ConcatEmpty(s.unreset);
      }
    }

    /** Exactly these credits were logged, in this order. */
    lemma {:induction false} Logs(start: Books, orders: seq<seq<string>>)
      requires Proper() && Orders(orders)
      ensures BooksAfter(start, orders).changes == start.changes + LogOf(orders)
      ensures BooksAfter(start, orders).payments == start.payments
      decreases |orders|
    {
      hide CreditAll;
      if orders == [] {
        ConcatEmpty(start.changes);
      } else {
        var n := |orders| - 1;
        Logs(start, orders[..n]);
        CreditAllLogs(BooksAfter(start, orders[..n]), CauseOf(cfg, blocks[n]), Credits(orders, n), turn.faults(n));
        ConcatAssoc(start.changes, LogOf(orders[..n]), ChangesOf(CauseOf(cfg, blocks[n]), LoggedFor(orders, n)));
      }
    }

    /** A block without a failing statement credits every address exactly what it is to get. */
    lemma CompleteBlock(orders: seq<seq<string>>, n: nat, address: string)
      requires Proper() && Orders(orders) && n < |orders|
      requires Completes(turn.faults(n), |Credits(orders, n)|)
      ensures CreditSum(LoggedFor(orders, n), address) == BlockCredit(cfg, SharesAt(n), blocks[n], address)
      ensures CreditsTotal(LoggedFor(orders, n)) == Awarded(cfg, SharesAt(n), blocks[n])
    {
      hide BlockCredits, BlockCredit, Awarded;
      TakeAll(Credits(orders, n));
      BlockCreditsSums(cfg, SharesAt(n), blocks[n], orders[n], address);
    }

    /** What the first `n` blocks are to credit to one key. */
    ghost function RewardFor(n: nat, key: Key): real
      requires Proper() && n <= |blocks|
    {
      if n == 0 then 0.0
      else
        RewardFor(n - 1, key)
          + Here(key, cfg.pool, blocks[n - 1].chain, BlockCredit(cfg, SharesAt(n - 1), blocks[n - 1], key.address))
    }

    /** Without failing statements the log grows, key by key, by exactly what the blocks are to credit. */
    lemma {:induction false} CreditsEveryKey(orders: seq<seq<string>>, key: Key)
      requires Proper() && Orders(orders)
      requires forall n :: 0 <= n < |orders| ==> turn.faults(n) == NoneFails
      ensures ChangeSum(LogOf(orders), key) == RewardFor(|orders|, key)
      decreases |orders|
    {
      hide BlockCredits, BlockCredit, Awarded;
      if orders != [] {
        var n := |orders| - 1;
        CreditsEveryKey(orders[..n], key);
        CompleteBlock(orders, n, key.address);
        ChangesSum(CauseOf(cfg, blocks[n]), LoggedFor(orders, n), key);
        ChangeSumConcat(LogOf(orders[..n]), ChangesOf(CauseOf(cfg, blocks[n]), LoggedFor(orders, n)), key);
      }
    }

    /** Whatever fails, what reaches the log stays within what the blocks earned. */
    lemma {:induction false} WithinEarned(orders: seq<seq<string>>, pool: string, chain: string)
      requires Proper() && Orders(orders) && Payables(blocks, cfg.pool)
      requires forall c :: c in cfg.recipients ==> Sound(cfg.recipients[c])
      ensures 0.0 <= CreditTotal(LogOf(orders), pool, chain) <= Earned(blocks[..|orders|], pool, chain)
      decreases |orders|
    {
      hide BlockCredits, CreditTotal;
      if orders == [] {
        assert LogOf(orders) == [] && blocks[..0] == [];
        NothingCredited(pool, chain);
      } else {
        var n := |orders| - 1;
        WithinEarned(orders[..n], pool, chain);
        LoggedWithinReward(cfg, SharesAt(n), blocks[n], orders[n], turn.faults(n));
        CreditTotalConcat(LogOf(orders[..n]), ChangesOf(CauseOf(cfg, blocks[n]), LoggedFor(orders, n)), pool, chain);
        ChangesTotal(CauseOf(cfg, blocks[n]), LoggedFor(orders, n), pool, chain);
        TakeNext(blocks, n);
        EarnedAppend(blocks[..n], blocks[n], pool, chain);
      }
    }
  }

  lemma NothingCredited(pool: string, chain: string)
    ensures CreditTotal([], pool, chain) == 0.0
  {
  }

  lemma OrdersNext(r: Round, orders: seq<seq<string>>, order: seq<string>)
    requires r.Proper() && r.Orders(orders) && |orders| < |r.blocks|
    requires r.OrderAt(|orders|, order)
    ensures r.Orders(orders + [order])
  {
    hide Round.OrderAt, Round.Proper;
    var next := orders + [order];
    forall i | 0 <= i < |orders| ensures next[i] == orders[i] {
    }
    assert next[|orders|] == order;
  }

  lemma BooksNext(r: Round, start: Books, orders: seq<seq<string>>, order: seq<string>)
    requires r.Proper() && r.Orders(orders) && |orders| < |r.blocks|
    requires MinerOrder(r.cfg, r.SharesAt(|orders|), r.blocks[|orders|], order) && r.Orders(orders + [order])
    ensures r.BooksAfter(start, orders + [order])
      == CreditAll(r.BooksAfter(start, orders), CauseOf(r.cfg, r.blocks[|orders|]),
           BlockCredits(r.cfg, r.SharesAt(|orders|), r.blocks[|orders|], order), r.turn.faults(|orders|))
  {
    hide BlockCredits, CreditAll;
    LastOf(orders, order);
  }

  // ---------- payouts do not credit ----------

  lemma PaymentNoCredit(changes: seq<Change>, key: Key, amount: real, pool: string, chain: string)
    ensures CreditTotal(changes + [Change(key, amount, Paid)], pool, chain) == CreditTotal(changes, pool, chain)
  {
    CreditTotalAppend(changes, Change(key, amount, Paid), pool, chain);
  }

  lemma {:induction false} RecordingCreditsNothing(b: Books, rows: seq<BalanceRow>, cfg: Payer.Config, node: Payer.Node,
    fault: Payer.PayFault, i: nat, pool: string, chain: string)
    requires Payer.AllResolve(rows, cfg) && i <= |rows|
    requires forall k :: 0 <= k < |rows| ==> node(rows[k].key.chain).Some?
    ensures CreditTotal(Payer.RecordFrom(b, rows, cfg, node, fault, i).0.changes, pool, chain)
         == CreditTotal(b.changes, pool, chain)
    decreases |rows| - i
  {
    hide GetBalance, UpdateRows, CreditTotal;
    if i < |rows| && fault != Payer.PaymentFails(i) {
      var f := Payer.ResetFault(fault, i);
      var next := Payer.RecordOne(b, rows[i], cfg.pool, Payer.Resolved(rows[i], cfg), node(rows[i].key.chain).value, f);
      PaymentNoCredit(b.changes, Key(cfg.pool, rows[i].key.chain, rows[i].key.address), -rows[i].amount, pool, chain);
      if f == NoFault {
        RecordingCreditsNothing(next, rows, cfg, node, fault, i + 1, pool, chain);
      }
    }
  }

  lemma PassCreditsNothing(b: Books, cfg: Payer.Config, sendOrder: seq<string>, node: Payer.Node,
    fault: Payer.PayFault, pool: string, chain: string)
    requires PayerRuns.ValidPass(b, cfg, sendOrder)
    ensures CreditTotal(Payer.Pass(b, cfg, sendOrder, node, fault).books.changes, pool, chain)
         == CreditTotal(b.changes, pool, chain)
  {
    if Payer.Sendable(b, cfg) && Payer.Successes(sendOrder, node) == |sendOrder| {
      var due := Payer.Collect(b.balances, cfg, cfg.order).value;
      Payer.AllSendsSucceed(due, sendOrder, node);
      RecordingCreditsNothing(b, due, cfg, node, fault, 0, pool, chain);
    }
  }

  // ---------- the manager ----------

  /**
   * The books are in order up to what failing statements left behind, and no pool and chain was ever credited more than
   * its confirmed blocks and the matured ones that could not be saved brought in.
   */
  ghost predicate Solvent(b: Books, s: Slips, rows: seq<FoundBlock>, unsaved: seq<FoundBlock>) {
    && Balanced(b, s)
    && forall p, c :: CreditTotal(b.changes, p, c) <= Earned(rows, p, c) + Earned(unsaved, p, c)
  }

  /**
   * Solvency in terms of money: what is owed and what was paid together never exceed what was earned, but for blocks
   * rewarded without being saved and balances paid without being reset; without any of these it never does.
   */
  lemma OwedPlusPaidWithinEarned(b: Books, s: Slips, rows: seq<FoundBlock>, unsaved: seq<FoundBlock>, pool: string,
    chain: string)
    requires Solvent(b, s, rows, unsaved)
    ensures BalanceTotal(b.balances, pool, chain) + PaymentTotal(b.payments, pool, chain)
         <= Earned(rows, pool, chain) + Earned(unsaved, pool, chain)
            + BalanceTotal(s.unreset, pool, chain) - CreditTotal(s.unbooked, pool, chain)
    ensures s == NO_SLIPS && unsaved == [] ==>
      BalanceTotal(b.balances, pool, chain) + PaymentTotal(b.payments, pool, chain) <= Earned(rows, pool, chain)
  {
    assert TotalsBalance(b, s, pool, chain);
  }

  /** Sound recipients, a positive page size, and nodes that never report a negative amount. */
  ghost predicate SoundSetup(cfg: RewardConfig, oracle: Oracle) {
    && cfg.pageSize >= 1
    && (forall chain :: chain in cfg.recipients ==> Sound(cfg.recipients[chain]))
    && (forall b :: oracle(b).Generate? ==> oracle(b).amount >= 0.0)
  }

  /** Newly confirmed blocks: of this pool, confirmed, with a reward that is not negative. */
  predicate Payables(rows: seq<FoundBlock>, pool: string) {
    forall i :: 0 <= i < |rows| ==> rows[i].status == Confirmed && rows[i].pool == pool && rows[i].reward >= 0.0
  }

  lemma {:induction false} ConfirmedPayable(rows: seq<FoundBlock>, cfg: RewardConfig, oracle: Oracle)
    requires Classified(PendingOf(rows, cfg.pool), oracle).Ok? && SoundSetup(cfg, oracle)
    ensures Payables(ConfirmedIn(Classified(PendingOf(rows, cfg.pool), oracle).value), cfg.pool)
  {
    if rows != [] {
      PendingCons(rows, cfg.pool, oracle);
      ConfirmedPayable(rows[1..], cfg, oracle);
      ConfirmedCons(rows[0], cfg.pool, oracle, Classified(PendingOf(rows, cfg.pool), oracle).value,
        Classified(PendingOf(rows[1..], cfg.pool), oracle).value);
    }
  }

  lemma StopsAtFault(cause: Cause, credits: seq<Credit>, f: CreditFault)
    requires !Completes(f, |credits|)
    ensures forall b :: CreditAll(b, cause, credits, f) == CreditFirst(b, cause, credits, f, f.at + 1)
  {
    forall b ensures CreditAll(b, cause, credits, f) == CreditFirst(b, cause, credits, f, f.at + 1) {
      CreditStopped(b, cause, credits, f, f.at + 1, |credits|);
    }
  }

  /**
   * A block whose reward calculation ends with an error when it matures, whether the scheme refuses or a statement
   * fails: if it refuses, no miner is credited anything, and the pool recipients only if they were configured; if a
   * statement fails, no credit behind it is tried.  No later sweep tries again, because the block is saved as confirmed
   * all the same.
   */
  lemma FailedRewardIsNeverRetried(cfg: RewardConfig, shares: seq<Share>, p: Progress, oracle: Oracle,
    saveOk: nat -> bool, k: nat, order: seq<string>, f: CreditFault, events: seq<Event>, q: Progress, later: Oracle)
    requires Scored(shares) && cfg.pageSize >= 1
    requires UniqueIds(p.rows) && AllAnswered(p.rows, cfg.pool, oracle)
    requires k < |p.rows| && IsPending(p.rows[k], cfg.pool) && oracle(p.rows[k]).Generate? && saveOk(p.rows[k].id)
    requires MinerOrder(cfg, shares, Judge(p.rows[k], oracle(p.rows[k])), order)
    requires !BlockCompletes(cfg, shares, Judge(p.rows[k], oracle(p.rows[k])), order, f)
    requires Later(events, cfg.pool, Step(p, cfg.pool, Sweep(oracle, saveOk)), q)
    ensures var block := Judge(p.rows[k], oracle(p.rows[k]));
      !BlockPays(cfg, shares, block) ==>
        forall a :: BlockCredit(cfg, shares, block, a)
          == if PoolPayable(cfg, block.chain)
             then RecipientCredit(cfg.recipients[block.chain], NodeAddress(cfg, block.chain), block.reward, a) else 0.0
    ensures var block := Judge(p.rows[k], oracle(p.rows[k]));
      var credits := BlockCredits(cfg, shares, block, order);
      BlockPays(cfg, shares, block) ==>
        && f.CreditFails? && f.at < |credits|
        && forall b ::
          CreditAll(b, CauseOf(cfg, block), credits, f) == CreditFirst(b, CauseOf(cfg, block), credits, f, f.at + 1)
    ensures k < |q.rows| && q.rows[k].id == p.rows[k].id && q.rows[k].status == Confirmed
    ensures !Attempted(q.rows, cfg.pool, later, p.rows[k].id)
  {
    hide BlockCredits, CreditAll, CreditFirst, SchemePays, MinerCredit, TakenFrom, RecipientCredit, Step, MinerOrder;
    var block := Judge(p.rows[k], oracle(p.rows[k]));
    MaturedIsSettled(p, cfg.pool, oracle, saveOk, k, events, q, later);
    if BlockPays(cfg, shares, block) {
      StopsAtFault(CauseOf(cfg, block), BlockCredits(cfg, shares, block, order), f);
    } else if PoolPayable(cfg, block.chain) {
      forall a ensures BlockCredit(cfg, shares, block, a)
        == RecipientCredit(cfg.recipients[block.chain], NodeAddress(cfg, block.chain), block.reward, a)
      {
        FailedSchemePaysNobody(cfg, shares, block, block.reward - TakenFrom(cfg.recipients[block.chain], block.reward), a);
      }
    }
  }

  /** After the rewards of a turn, credits are within what its sweep leaves confirmed or unsaved. */
  lemma TurnWithin(start: Progress, cfg: RewardConfig, turn: Turn, b: Books, round: Round, orders: seq<seq<string>>)
    requires UniqueIds(start.rows) && SoundSetup(cfg, turn.oracle)
    requires Classified(PendingOf(start.rows, cfg.pool), turn.oracle).Ok?
    requires round.cfg == cfg && round.turn == turn
    requires round.blocks == ConfirmedIn(Classified(PendingOf(start.rows, cfg.pool), turn.oracle).value)
    requires round.Proper() && round.Orders(orders) && |orders| == |round.blocks|
    requires forall p, c :: CreditTotal(b.changes, p, c) <= Earned(start.rows, p, c) + Earned(start.unsaved, p, c)
    ensures var next := Step(start, cfg.pool, Sweep(turn.oracle, turn.saveOk));
      forall p, c :: CreditTotal(round.BooksAfter(b, orders).changes, p, c)
        <= Earned(next.rows, p, c) + Earned(next.unsaved, p, c)
  {
    hide CreditTotal, Earned, ConfirmedIn, NotSaved, Classified, PendingOf, Swept, SaveAll;
    var next := Step(start, cfg.pool, Sweep(turn.oracle, turn.saveOk));
    ConfirmedPayable(start.rows, cfg, turn.oracle);
    SaveAllIsSwept(start.rows, cfg.pool, turn.oracle, turn.saveOk);
    round.Logs(b, orders);
    TakeAll(round.blocks);
    forall p, c ensures CreditTotal(round.BooksAfter(b, orders).changes, p, c)
      <= Earned(next.rows, p, c) + Earned(next.unsaved, p, c)
    {
      EarnedBySweep(start.rows, cfg.pool, turn.oracle, turn.saveOk, p, c);
      EarnedConcat(start.unsaved, NotSaved(round.blocks, turn.saveOk), p, c);
      CreditTotalConcat(b.changes, round.LogOf(orders), p, c);
      round.WithinEarned(orders, p, c);
      assert CreditTotal(b.changes, p, c) <= Earned(start.rows, p, c) + Earned(start.unsaved, p, c);
    }
  }

  /** Credits grew, pool by pool and chain by chain, by at most what the nodes report for blocks that matured. */
  ghost predicate CreditsWithin(before: Books, after: Books, rows: seq<FoundBlock>, pool: string, oracle: Oracle) {
    forall p, c ::
      CreditTotal(before.changes, p, c) <= CreditTotal(after.changes, p, c)
        <= CreditTotal(before.changes, p, c) + if p == pool then Reported(rows, pool, oracle, c) else 0.0
  }

  lemma TurnCredits(start: Progress, cfg: RewardConfig, turn: Turn, b: Books, round: Round, orders: seq<seq<string>>)
    requires SoundSetup(cfg, turn.oracle) && Classified(PendingOf(start.rows, cfg.pool), turn.oracle).Ok?
    requires round.cfg == cfg && round.turn == turn
    requires round.blocks == ConfirmedIn(Classified(PendingOf(start.rows, cfg.pool), turn.oracle).value)
    requires round.Proper() && round.Orders(orders) && |orders| == |round.blocks|
    ensures CreditsWithin(b, round.BooksAfter(b, orders), start.rows, cfg.pool, turn.oracle)
  {
    hide CreditTotal, Earned, ConfirmedIn, Classified, PendingOf, Reported;
    ConfirmedPayable(start.rows, cfg, turn.oracle);
    round.Logs(b, orders);
    TakeAll(round.blocks);
    forall p, c ensures
      var now := CreditTotal(round.BooksAfter(b, orders).changes, p, c);
      CreditTotal(b.changes, p, c) <= now
        <= CreditTotal(b.changes, p, c) + if p == cfg.pool then Reported(start.rows, cfg.pool, turn.oracle, c) else 0.0
    {
      EarnedIsReported(start.rows, cfg.pool, turn.oracle, p, c);
      CreditTotalConcat(b.changes, round.LogOf(orders), p, c);
      round.WithinEarned(orders, p, c);
    }
  }

  /** Where the reward loop stands: books and shares after the calculations whose orders are `orders`. */
  ghost predicate RoundSoFar(round: Round, start: Books, orders: seq<seq<string>>, books: Books, rows: seq<Share>) {
    && round.Proper() && round.Orders(orders)
    && books == round.BooksAfter(start, orders)
    && rows == round.SharesAt(|orders|)
  }

  class Manager {
    var rows: seq<FoundBlock>
    ghost var attempts: seq<nat>
    ghost var unsaved: seq<FoundBlock>
    ghost var slips: Slips
    const tables: Tables
    const table: ShareTable
    const wallet: Payer.Wallet

    constructor ()
      ensures Valid() && History() == Progress([], [], []) && slips == NO_SLIPS
      ensures fresh(tables) && fresh(table) && fresh(wallet)
    {
      rows, attempts, unsaved, slips := [], [], [], NO_SLIPS;
      tables := new Tables();
      table := new ShareTable();
      wallet := new Payer.Wallet();
      new;
      assert tables.View() == Books([], [], []);
      BalancedWithoutSlips(tables.View());
    }

    /** The block table with what happened to it so far. */
    ghost function History(): Progress
      reads this
    {
      Progress(rows, attempts, unsaved)
    }

    ghost predicate Valid()
      reads this, tables, table
    {
      && Accounted(History())
      && Solvent(tables.View(), slips, rows, unsaved)
      && Scored(table.rows)
    }

    /** A block found by the pool enters the table as pending, with the next id of the sequence. */
    method Insert(block: FoundBlock)
      requires Valid() && !HasId(rows, block.id) && block.status == Pending
      modifies this`rows
      ensures Valid() && rows == old(rows) + [block]
    {
      hide Balanced, CreditTotal, Earned, IdCounts, ConfirmedIn;
      StepAccounted(History(), block.pool, Mined(block));
      forall p, c ensures Earned(rows + [block], p, c) == Earned(rows, p, c) {
        EarnedAppend(rows, block, p, c);
      }
      rows := rows + [block];
    }

    /**
     * The reward loop: an error is logged and the next block goes on; success also clears old shares.  Any statement
     * may fail, and shares arrive in between.
     */
    method RewardConfirmed(cfg: RewardConfig, confirmed: seq<FoundBlock>, turn: Turn)
      returns (ghost orders: seq<seq<string>>)
      requires Scored(table.rows) && cfg.pageSize >= 1 && turn.Proper()
      modifies tables, table
      ensures var round := Round(cfg, old(table.rows), confirmed, turn);
        && round.Proper() && round.Orders(orders) && |orders| == |confirmed|
        && tables.View() == round.BooksAfter(old(tables.View()), orders)
        && table.rows == round.SharesAt(|confirmed|)
        && round.Leaves(table.rows)
    {
      ghost var round := Round(cfg, table.rows, confirmed, turn);
      orders := [];
      var stored := table.InsertBatch(turn.arrivals(0), false);
      for i := 0 to |confirmed|
        invariant |orders| == i && RoundSoFar(round, old(tables.View()), orders, tables.View(), table.rows)
      {
        orders := RewardNext(cfg, confirmed[i], turn, i, round, old(tables.View()), orders);
      }
      round.LeavesShares();
    }

    /** One calculation, the clean-up behind it, and the shares that arrive before the next one. */
    method RewardNext(cfg: RewardConfig, block: FoundBlock, turn: Turn, i: nat, ghost round: Round, ghost start: Books,
      ghost orders: seq<seq<string>>)
      returns (ghost next: seq<seq<string>>)
      requires round.cfg == cfg && round.turn == turn && i < |round.blocks| && round.blocks[i] == block
      requires |orders| == i && RoundSoFar(round, start, orders, tables.View(), table.rows)
      modifies tables, table
      ensures |next| == i + 1 && RoundSoFar(round, start, next, tables.View(), table.rows)
    {
      hide BlockCredits, CreditAll, BlockCompletes, MinerOrder, Kept, Round.Clears;
      ghost var order;
      var cutoff;
      cutoff, order := CalculateBlockRewards(tables, table, cfg, block, turn.faults(i));
      OrdersNext(round, orders, order);
      BooksNext(round, start, orders, order);
      next := orders + [order];
      NothingBeforeZero(table.rows, cfg.pool);
      ClearsIff(round, i, order);
      if cutoff.Ok? {
        var deleted := table.DeleteSharesBefore(cfg.pool, cutoff.value, turn.deleteFails(i));
      }
      assert table.rows == round.LeftAfter(i);
      var stored := table.InsertBatch(turn.arrivals(i + 1), false);
    }

    /** The save loop. */
    method SaveUpdates(updated: seq<FoundBlock>, saveOk: nat -> bool)
      modifies this`rows
      ensures rows == SaveAll(old(rows), updated, saveOk)
    {
      ghost var start := rows;
      TakeAll(updated);
      for i := 0 to |updated|
        invariant SaveAll(rows, updated[i..], saveOk) == SaveAll(start, updated, saveOk)
      {
        TakeNext(updated, i);
        HeadTail(updated[i], updated[i + 1..]);
        if saveOk(updated[i].id) {
          rows := UpdateRow(rows, updated[i]);
        }
      }
    }

    /** The payout step at the end of a pass; it pays, but credits nothing. */
    method Payout(pay: Payer.Config, node: Payer.Node, fault: Payer.PayFault, ghost s: Slips)
      returns (ghost order: seq<string>)
      requires Balanced(tables.View(), s)
      modifies tables, wallet
      ensures PayerRuns.ValidPass(old(tables.View()), pay, order)
      ensures tables.View() == Payer.Pass(old(tables.View()), pay, order, node, fault).books
      ensures wallet.sent == old(wallet.sent) + Payer.Pass(old(tables.View()), pay, order, node, fault).sent
      ensures Balanced(tables.View(), s.Plus(PayerRuns.PassSlips(old(tables.View()), pay, order, node, fault)))
      ensures forall p, c :: CreditTotal(tables.changes, p, c) == CreditTotal(old(tables.changes), p, c)
    {
      var due := Payer.CollectDue(tables.balances, pay);
      var sendOrder := SomeOrder(if due.Ok? then Payer.ChainsOf(due.value) else {});
      order := sendOrder;
      ghost var before := tables.View();
      var r := Payer.PayoutBalances(tables, wallet, pay, sendOrder, node, fault);
      PayerRuns.PassBalanced(before, s, pay, sendOrder, node, fault);
      forall p, c ensures CreditTotal(tables.View().changes, p, c) == CreditTotal(before.changes, p, c) {
        PassCreditsNothing(before, pay, sendOrder, node, fault, p, c);
      }
    }

    /**
     * One turn of `RunManager`, whatever nodes and wallets answer, whichever statements and updates fail, and whatever
     * shares arrive.  It keeps the tables valid: every reward calculation belongs to a confirmed block or to an update
     * that failed, credits stay within what those blocks earned, and the books are in order up to what failing
     * statements left behind.  `middle` is the state of the books between rewards and payouts.
     */
    method RunPass(cfg: RewardConfig, pay: Payer.Config, turn: Turn)
      returns (ghost middle: Books, ghost orders: seq<seq<string>>, ghost sendOrder: seq<string>)
      requires Valid() && SoundSetup(cfg, turn.oracle) && turn.Proper()
      modifies this, tables, table, wallet
      ensures Valid()
      ensures History() == Step(old(History()), cfg.pool, Sweep(turn.oracle, turn.saveOk))
      ensures Evolves(old(rows), rows)
      ensures AsAnswered(old(rows), rows, cfg.pool, turn.oracle, turn.saveOk)
      ensures var updated := Classified(PendingOf(old(rows), cfg.pool), turn.oracle);
        if updated.Err? then
          && tables.View() == old(tables.View()) && table.rows == old(table.rows) && wallet.sent == old(wallet.sent)
          && slips == old(slips)
        else
          var confirmed := ConfirmedIn(updated.value);
          var round := Round(cfg, old(table.rows), confirmed, turn);
          && round.Proper() && round.Orders(orders) && |orders| == |confirmed|
          && table.rows == round.SharesAt(|confirmed|) && round.Leaves(table.rows)
          && CreditsWithin(old(tables.View()), tables.View(), old(rows), cfg.pool, turn.oracle)
          && middle == round.BooksAfter(old(tables.View()), orders)
          && PayerRuns.ValidPass(middle, pay, sendOrder)
          && tables.View() == Payer.Pass(middle, pay, sendOrder, turn.node, turn.payFault).books
          && wallet.sent == old(wallet.sent) + Payer.Pass(middle, pay, sendOrder, turn.node, turn.payFault).sent
          && slips == old(slips).Plus(Slips(round.MissedBy(orders), []))
                                .Plus(PayerRuns.PassSlips(middle, pay, sendOrder, turn.node, turn.payFault))
    {
      hide CreditTotal, Earned, ConfirmedIn, NotSaved, PendingOf, SaveAll, Swept, Balanced, Payables, IdCounts,
        AsAnswered, Evolves, Reported, Payer.Pass, PayerRuns.PassSlips, PayerRuns.ValidPass, IdsOf, Round.Leaves,
        Round.BooksAfter, Round.SharesAt, Round.MissedBy, Round.Orders;
      ghost var start, shares := History(), table.rows;
      middle, orders, sendOrder := tables.View(), [], [];
      StepAccounted(start, cfg.pool, Sweep(turn.oracle, turn.saveOk));
      StepEvolves(start, cfg.pool, Sweep(turn.oracle, turn.saveOk));
      SweepIsAsAnswered(start, cfg.pool, turn.oracle, turn.saveOk);
      var updated := ClassifyBlocks(PendingOf(rows, cfg.pool), turn.oracle);
      if updated.Err? {
        return;
      }
      var confirmed := GetConfirmed(updated.value);
      ghost var credits, round := tables.View(), Round(cfg, shares, confirmed, turn);
      orders := RewardConfirmed(cfg, confirmed, turn);
      middle := tables.View();
      round.Balances(credits, slips, orders);
      slips := slips.Plus(Slips(round.MissedBy(orders), []));
      attempts := attempts + IdsOf(confirmed);
      unsaved := unsaved + NotSaved(confirmed, turn.saveOk);
      SaveUpdates(updated.value, turn.saveOk);
      SaveAllIsSwept(start.rows, cfg.pool, turn.oracle, turn.saveOk);
      sendOrder := Payout(pay, turn.node, turn.payFault, slips);
      slips := slips.Plus(PayerRuns.PassSlips(middle, pay, sendOrder, turn.node, turn.payFault));
      TurnWithin(start, cfg, turn, credits, round, orders);
      TurnCredits(start, cfg, turn, credits, round, orders);
    }
  }

  /** With SOLO there is one credit behind the recipients; with the other schemes the cutoff clears nothing. */
  lemma ClearsIff(r: Round, n: nat, order: seq<string>)
    requires r.Proper() && n < |r.blocks| && MinerOrder(r.cfg, r.SharesAt(n), r.blocks[n], order)
    ensures r.Clears(n) <==>
      r.cfg.scheme == Solo && !r.turn.deleteFails(n)
      && BlockCompletes(r.cfg, r.SharesAt(n), r.blocks[n], order, r.turn.faults(n))
  {
    var block := r.blocks[n];
    if r.cfg.scheme == Solo && PoolPayable(r.cfg, block.chain) {
      var miners := BlockMiners(r.cfg, r.SharesAt(n), block);
      assert miners.Keys == {block.miner};
      EnumeratesLength(order, {block.miner});
    }
  }
}
