/** payouts/rewards.go: what is credited for one confirmed block. */
module Rewards {
  import opened Base
  import opened Ledger
  import opened Crediting
  import opened Shares
  import opened Schemes

  datatype Status = Pending | Confirmed | Orphaned

  datatype FoundBlock = FoundBlock(
    id: nat, pool: string, chain: string, height: nat, status: Status, reward: real, miner: string, created: Time)

  datatype Recipient = Recipient(address: string, percentage: real)

  datatype Scheme = Prop | Pplns | Solo

  /** Pool recipients by chain, the active node's own reward address by chain, and the payout scheme. */
  datatype RewardConfig = RewardConfig(
    pool: string, recipients: map<string, seq<Recipient>>, rewardTo: map<string, string>, scheme: Scheme, pageSize: nat)

  // ---------- pool recipients ----------

  /** What the recipients take off a reward. */
  function TakenFrom(rs: seq<Recipient>, reward: real): real {
    if rs == [] then 0.0 else TakenFrom(rs[..|rs| - 1], reward) + rs[|rs| - 1].percentage * reward
  }

  /** The part of it that is credited: the node's own reward address already holds its coins. */
  function CreditedFrom(rs: seq<Recipient>, rewardTo: string, reward: real): real {
    if rs == [] then 0.0
    else
      CreditedFrom(rs[..|rs| - 1], rewardTo, reward)
        + if rs[|rs| - 1].address == rewardTo then 0.0 else rs[|rs| - 1].percentage * reward
  }

  /** What of it goes to one address; an address may be listed more than once. */
  function RecipientCredit(rs: seq<Recipient>, rewardTo: string, reward: real, address: string): real {
    if rs == [] then 0.0
    else
      RecipientCredit(rs[..|rs| - 1], rewardTo, reward, address)
        + if rs[|rs| - 1].address == address && address != rewardTo then rs[|rs| - 1].percentage * reward else 0.0
  }

  function PercentSum(rs: seq<Recipient>): real {
    if rs == [] then 0.0 else PercentSum(rs[..|rs| - 1]) + rs[|rs| - 1].percentage
  }

  /** Non-negative percentages that leave nothing negative for the miners. */
  predicate Sound(rs: seq<Recipient>) {
    (forall i :: 0 <= i < |rs| ==> rs[i].percentage >= 0.0) && PercentSum(rs) <= 1.0
  }

  lemma {:induction false} TakenIsPercent(rs: seq<Recipient>, reward: real)
    ensures TakenFrom(rs, reward) == PercentSum(rs) * reward
  {
    if rs != [] {
      TakenIsPercent(rs[..|rs| - 1], reward);
      Distribute(PercentSum(rs[..|rs| - 1]), rs[|rs| - 1].percentage, reward);
    }
  }

  lemma {:induction false} CreditedWithinTaken(rs: seq<Recipient>, rewardTo: string, reward: real)
    requires reward >= 0.0 && forall i :: 0 <= i < |rs| ==> rs[i].percentage >= 0.0
    ensures 0.0 <= CreditedFrom(rs, rewardTo, reward) <= TakenFrom(rs, reward)
  {
    if rs != [] {
      CreditedWithinTaken(rs[..|rs| - 1], rewardTo, reward);
      Product(rs[|rs| - 1].percentage, reward);
    }
  }

  lemma TakenWithin(rs: seq<Recipient>, rewardTo: string, reward: real)
    requires reward >= 0.0 && Sound(rs)
    ensures 0.0 <= CreditedFrom(rs, rewardTo, reward) <= TakenFrom(rs, reward) <= reward
  {
    CreditedWithinTaken(rs, rewardTo, reward);
    TakenIsPercent(rs, reward);
    Product(1.0 - PercentSum(rs), reward);
  }

  lemma {:induction false} NoRecipient(rs: seq<Recipient>, rewardTo: string, reward: real, address: string)
    requires address == rewardTo || forall i :: 0 <= i < |rs| ==> rs[i].address != address
    ensures RecipientCredit(rs, rewardTo, reward, address) == 0.0
  {
    if rs != [] {
      NoRecipient(rs[..|rs| - 1], rewardTo, reward, address);
    }
  }

  /** A recipient listed once gets its percentage; the node's own address and strangers get nothing. */
  lemma {:induction false} RecipientGetsItsShare(rs: seq<Recipient>, rewardTo: string, reward: real, i: nat)
    requires i < |rs| && rs[i].address != rewardTo
    requires forall j :: 0 <= j < |rs| && j != i ==> rs[j].address != rs[i].address
    ensures RecipientCredit(rs, rewardTo, reward, rs[i].address) == rs[i].percentage * reward
    ensures RecipientCredit(rs, rewardTo, reward, rewardTo) == 0.0
    ensures forall a :: (forall j :: 0 <= j < |rs| ==> rs[j].address != a) ==> RecipientCredit(rs, rewardTo, reward, a) == 0.0
  {
    NoRecipient(rs, rewardTo, reward, rewardTo);
    forall a | forall j :: 0 <= j < |rs| ==> rs[j].address != a ensures RecipientCredit(rs, rewardTo, reward, a) == 0.0 {
      NoRecipient(rs, rewardTo, reward, a);
    }
    var n := |rs| - 1;
    if i == n {
      NoRecipient(rs[..n], rewardTo, reward, rs[i].address);
    } else {
      RecipientGetsItsShare(rs[..n], rewardTo, reward, i);
    }
  }

  predicate PoolPayable(cfg: RewardConfig, chain: string) {
    chain in cfg.recipients && (cfg.recipients[chain] == [] || chain in cfg.rewardTo)
  }

  function NodeAddress(cfg: RewardConfig, chain: string): string {
    if chain in cfg.rewardTo then cfg.rewardTo[chain] else ""
  }

  /** The credits of the loop over the recipients, the node's own address passed over. */
  function RecipientCredits(rs: seq<Recipient>, rewardTo: string, reward: real): seq<Credit> {
    if rs == [] then []
    else
      var before, r := RecipientCredits(rs[..|rs| - 1], rewardTo, reward), rs[|rs| - 1];
      if r.address == rewardTo then before else before + [Credit(r.address, r.percentage * reward)]
  }

  lemma {:induction false} RecipientSums(rs: seq<Recipient>, rewardTo: string, reward: real, address: string)
    ensures CreditSum(RecipientCredits(rs, rewardTo, reward), address) == RecipientCredit(rs, rewardTo, reward, address)
    ensures CreditsTotal(RecipientCredits(rs, rewardTo, reward)) == CreditedFrom(rs, rewardTo, reward)
  {
    if rs != [] {
      var before, r := RecipientCredits(rs[..|rs| - 1], rewardTo, reward), rs[|rs| - 1];
      RecipientSums(rs[..|rs| - 1], rewardTo, reward, address);
      CreditSumAppend(before, Credit(r.address, r.percentage * reward), address);
    }
  }

  lemma {:induction false} RecipientsNotNegative(rs: seq<Recipient>, rewardTo: string, reward: real)
    requires reward >= 0.0 && forall i :: 0 <= i < |rs| ==> rs[i].percentage >= 0.0
    ensures NoneNegative(RecipientCredits(rs, rewardTo, reward))
  {
    if rs != [] {
      RecipientsNotNegative(rs[..|rs| - 1], rewardTo, reward);
      Product(rs[|rs| - 1].percentage, reward);
    }
  }

  lemma RecipientNext(rs: seq<Recipient>, i: nat, rewardTo: string, reward: real)
    requires i < |rs|
    ensures TakenFrom(rs[..i + 1], reward) == TakenFrom(rs[..i], reward) + rs[i].percentage * reward
    ensures rs[i].address == rewardTo ==>
      RecipientCredits(rs[..i + 1], rewardTo, reward) == RecipientCredits(rs[..i], rewardTo, reward)
    ensures rs[i].address != rewardTo ==>
      RecipientCredits(rs[..i + 1], rewardTo, reward)
        == RecipientCredits(rs[..i], rewardTo, reward) + [Credit(rs[i].address, rs[i].percentage * reward)]
  {
    assert rs[..i + 1][..i] == rs[..i];
  }

  lemma {:induction false} RecipientPrefix(rs: seq<Recipient>, i: nat, rewardTo: string, reward: real)
    requires i <= |rs|
    ensures RecipientCredits(rs[..i], rewardTo, reward) <= RecipientCredits(rs, rewardTo, reward)
    decreases |rs|
  {
    if i == |rs| {
      TakeAll(rs);
    } else {
      var n := |rs| - 1;
      RecipientPrefix(rs[..n], i, rewardTo, reward);
      assert rs[..n][..i] == rs[..i];
    }
  }

  function CauseOf(cfg: RewardConfig, block: FoundBlock): Cause {
    Cause(cfg.pool, block.chain, block.height)
  }

  /** How the log names a credit: by pool, chain and address, and by the height of the block it is for. */
  lemma {:induction false} LoggedAs(cfg: RewardConfig, block: FoundBlock, credits: seq<Credit>, i: nat)
    requires i < |credits|
    ensures ChangesOf(CauseOf(cfg, block), credits)[i]
      == Change(Key(cfg.pool, block.chain, credits[i].address), credits[i].amount, Reward(block.height))
  {
    if i < |credits| - 1 {
      LoggedAs(cfg, block, credits[..|credits| - 1], i);
    }
  }

  /** A failing credit ends the loop there, so the whole list leaves the same books. */
  lemma RecipientsStopped(b: Books, cause: Cause, rs: seq<Recipient>, i: nat, rewardTo: string, reward: real,
    f: CreditFault)
    requires i <= |rs| && !Completes(f, |RecipientCredits(rs[..i], rewardTo, reward)|)
    ensures CreditAll(b, cause, RecipientCredits(rs, rewardTo, reward), f)
      == CreditAll(b, cause, RecipientCredits(rs[..i], rewardTo, reward), f)
    ensures !Completes(f, |RecipientCredits(rs, rewardTo, reward)|)
  {
    var first, all := RecipientCredits(rs[..i], rewardTo, reward), RecipientCredits(rs, rewardTo, reward);
    RecipientPrefix(rs, i, rewardTo, reward);
    assert all == first + all[|first|..];
    CreditBoth(b, cause, first, all[|first|..], f);
  }

  /** How far the loop over the recipients is. */
  ghost predicate PaidSoFar(start: Books, now: Books, cause: Cause, rs: seq<Recipient>, i: nat, rewardTo: string,
    reward: real, f: CreditFault, credited: nat, remaining: real)
  {
    && i <= |rs|
    && remaining == reward - TakenFrom(rs[..i], reward)
    && credited == |RecipientCredits(rs[..i], rewardTo, reward)|
    && now == CreditAll(start, cause, RecipientCredits(rs[..i], rewardTo, reward), f)
  }

  /** Recipient `i`; the chain's own reward address is passed over, but its amount is taken all the same. */
  method CreditRecipient(tables: Tables, cfg: RewardConfig, block: FoundBlock, rs: seq<Recipient>, i: nat,
    rewardTo: string, f: CreditFault, credited: nat, remaining: real, ghost start: Books)
    returns (left: real, done: nat, added: Result<()>)
    requires i < |rs| && Completes(f, credited)
    requires PaidSoFar(start, tables.View(), CauseOf(cfg, block), rs, i, rewardTo, block.reward, f, credited, remaining)
    modifies tables
    ensures PaidSoFar(start, tables.View(), CauseOf(cfg, block), rs, i + 1, rewardTo, block.reward, f, done, left)
    ensures added == if Completes(f, done) then Ok(()) else Err(StatementFailed)
  {
    hide CreditAll, TakenFrom, RecipientCredits, AddAmountTo;
    var amount := rs[i].percentage * block.reward;
    ghost var before := RecipientCredits(rs[..i], rewardTo, block.reward);
    RecipientNext(rs, i, rewardTo, block.reward);
    left, done, added := remaining - amount, credited, Ok(());
    if rs[i].address != rewardTo {
      CreditNext(start, CauseOf(cfg, block), before, Credit(rs[i].address, amount), f);
      added := tables.AddAmount(Key(cfg.pool, block.chain, rs[i].address), Reward(block.height), amount,
        FaultAt(f, credited));
      done := credited + 1;
    }
  }

  method CalculatePoolReward(tables: Tables, cfg: RewardConfig, block: FoundBlock, f: CreditFault)
    returns (r: Result<real>)
    modifies tables
    ensures !PoolPayable(cfg, block.chain) ==> r.Err? && tables.View() == old(tables.View())
    ensures PoolPayable(cfg, block.chain) ==>
      var rs := cfg.recipients[block.chain];
      var credits := RecipientCredits(rs, NodeAddress(cfg, block.chain), block.reward);
      && tables.View() == CreditAll(old(tables.View()), CauseOf(cfg, block), credits, f)
      && r == if Completes(f, |credits|) then Ok(block.reward - TakenFrom(rs, block.reward)) else Err(StatementFailed)
  {
    if block.chain !in cfg.recipients {
      return Err(NoPayoutConfig);
    }
    var rs := cfg.recipients[block.chain];
    ghost var start, rewardTo, cause := tables.View(), NodeAddress(cfg, block.chain), CauseOf(cfg, block);
    var remainingReward := block.reward;
    var credited := 0;
    for i := 0 to |rs|
      invariant i > 0 ==> block.chain in cfg.rewardTo
      invariant i == 0 ==> tables.View() == start
      invariant Completes(f, credited)
      invariant PaidSoFar(start, tables.View(), cause, rs, i, rewardTo, block.reward, f, credited, remainingReward)
    {
      if block.chain !in cfg.rewardTo {
        return Err(NoNode);
      }
      var added;
      remainingReward, credited, added := CreditRecipient(tables, cfg, block, rs, i, cfg.rewardTo[block.chain], f,
        credited, remainingReward, start);
      if added.Err? {
        RecipientsStopped(start, cause, rs, i + 1, rewardTo, block.reward, f);
        return Err(added.why);
      }
    }
    TakeAll(rs);
    return Ok(remainingReward);
  }

  // ---------- the whole block ----------

  /** What the miners get out of what the pool recipients left. */
  ghost function MinersShare(cfg: RewardConfig, rows: seq<Share>, created: Time, remaining: real): real
    requires Scored(rows) && cfg.pageSize >= 1
  {
    VisitedScored(rows, cfg.pool, created, cfg.pageSize);
    var v := Visited(Covered(rows, cfg.pool, created), cfg.pageSize);
    match cfg.scheme
    case Solo => remaining
    case Prop => 0.0
    case Pplns => if PplnsPays(v, remaining) then Worth(v, remaining / WINDOW) else 0.0
  }

  /** What one of them gets. */
  ghost function MinerCredit(cfg: RewardConfig, rows: seq<Share>, block: FoundBlock, remaining: real, miner: string): real
    requires Scored(rows) && cfg.pageSize >= 1
  {
    VisitedScored(rows, cfg.pool, block.created, cfg.pageSize);
    var v := Visited(Covered(rows, cfg.pool, block.created), cfg.pageSize);
    match cfg.scheme
    case Solo => if miner == block.miner then remaining else 0.0
    case Prop => 0.0
    case Pplns => if PplnsPays(v, remaining) then MinerWorth(v, miner, remaining / WINDOW) else 0.0
  }

  /** With PPLNS, in the shares' own numbers: a miner's difficulties over the network's, times half of the rest. */
  lemma PplnsCredit(cfg: RewardConfig, rows: seq<Share>, block: FoundBlock, remaining: real, miner: string)
    requires Scored(rows) && cfg.pageSize >= 1 && cfg.scheme == Pplns
    ensures var v := Visited(Covered(rows, cfg.pool, block.created), cfg.pageSize);
      && Scored(v)
      && (v == [] || (remaining > 0.0 && Quotients(v) < 2.0) ==>
          MinerCredit(cfg, rows, block, remaining, miner) == QuotientsOf(v, miner) * remaining / 2.0)
      && (v != [] && (remaining <= 0.0 || Quotients(v) >= 2.0) ==>
          MinerCredit(cfg, rows, block, remaining, miner) == 0.0)
  {
    hide Visited, Covered, Quotients, QuotientsOf, MinerWorth;
    VisitedScored(rows, cfg.pool, block.created, cfg.pageSize);
    PplnsInQuotients(Visited(Covered(rows, cfg.pool, block.created), cfg.pageSize), remaining);
  }

  /** Exactly when a scheme ends without an error. */
  ghost predicate SchemePays(cfg: RewardConfig, rows: seq<Share>, created: Time, remaining: real)
    requires Scored(rows) && cfg.pageSize >= 1
  {
    VisitedScored(rows, cfg.pool, created, cfg.pageSize);
    match cfg.scheme
    case Solo => true
    case Prop => Covered(rows, cfg.pool, created) == [] && remaining > 0.0
    case Pplns => PplnsPays(Visited(Covered(rows, cfg.pool, created), cfg.pageSize), remaining)
  }

  lemma MinersWithin(cfg: RewardConfig, rows: seq<Share>, created: Time, remaining: real)
    requires Scored(rows) && cfg.pageSize >= 1 && remaining >= 0.0
    ensures 0.0 <= MinersShare(cfg, rows, created, remaining) <= remaining
  {
    VisitedScored(rows, cfg.pool, created, cfg.pageSize);
    var v := Visited(Covered(rows, cfg.pool, created), cfg.pageSize);
    if PplnsPays(v, remaining) {
      PplnsNeverOverAwards(v, remaining);
    }
  }

  lemma VisitedNothing(s: seq<Share>, pageSize: nat)
    requires pageSize >= 1
    ensures Visited(s, pageSize) == [] <==> s == []
  {
  }

  /**
   * Exactly when the miners get their share: all of a positive rest exactly with SOLO, and anything at all exactly
   * with SOLO, or with PPLNS when a share is covered and the covered scores stay below the window.
   */
  lemma MinersGetTheirShare(cfg: RewardConfig, rows: seq<Share>, created: Time, remaining: real)
    requires Scored(rows) && cfg.pageSize >= 1 && remaining > 0.0
    ensures MinersShare(cfg, rows, created, remaining) == remaining <==> cfg.scheme == Solo
    ensures MinersShare(cfg, rows, created, remaining) > 0.0 <==>
      cfg.scheme == Solo
      || (cfg.scheme == Pplns && Covered(rows, cfg.pool, created) != [] && SchemePays(cfg, rows, created, remaining))
  {
    VisitedScored(rows, cfg.pool, created, cfg.pageSize);
    var s := Covered(rows, cfg.pool, created);
    var v := Visited(s, cfg.pageSize);
    VisitedNothing(s, cfg.pageSize);
    if PplnsPays(v, remaining) {
      PplnsNeverOverAwards(v, remaining);
      ScoreSumPositive(v);
      WorthIsScore(v, remaining / WINDOW);
      if v != [] {
        StrictProduct(ScoreSum(v), remaining / WINDOW);
      }
    }
  }

  lemma StrictProduct(a: real, b: real)
    requires a > 0.0 && b > 0.0
    ensures a * b > 0.0
  {
  }

  /** What one address is credited for a block, in every outcome. */
  ghost function BlockCredit(cfg: RewardConfig, rows: seq<Share>, block: FoundBlock, address: string): real
    requires Scored(rows) && cfg.pageSize >= 1
  {
    if !PoolPayable(cfg, block.chain) then 0.0
    else
      var rs := cfg.recipients[block.chain];
      RecipientCredit(rs, NodeAddress(cfg, block.chain), block.reward, address)
        + MinerCredit(cfg, rows, block, block.reward - TakenFrom(rs, block.reward), address)
  }

  /**
   * A recipient listed once is credited its percentage of the block's reward, unless the coins went to its address
   * already because it is the active node's own; what a scheme credits it as a miner comes on top.
   */
  lemma RecipientIsCredited(cfg: RewardConfig, rows: seq<Share>, block: FoundBlock, i: nat)
    requires Scored(rows) && cfg.pageSize >= 1
    requires block.chain in cfg.recipients && block.chain in cfg.rewardTo && i < |cfg.recipients[block.chain]|
    requires var rs := cfg.recipients[block.chain];
      forall j :: 0 <= j < |rs| && j != i ==> rs[j].address != rs[i].address
    ensures var rs := cfg.recipients[block.chain];
      var asMiner := MinerCredit(cfg, rows, block, block.reward - TakenFrom(rs, block.reward), rs[i].address);
      && TakenFrom(rs, block.reward) == PercentSum(rs) * block.reward
      && (rs[i].address == cfg.rewardTo[block.chain] ==> BlockCredit(cfg, rows, block, rs[i].address) == asMiner)
      && (rs[i].address != cfg.rewardTo[block.chain] ==>
          BlockCredit(cfg, rows, block, rs[i].address) == rs[i].percentage * block.reward + asMiner)
  {
    hide MinerCredit;
    var rs, own := cfg.recipients[block.chain], cfg.rewardTo[block.chain];
    TakenIsPercent(rs, block.reward);
    if rs[i].address == own {
      NoRecipient(rs, own, block.reward, rs[i].address);
    } else {
      RecipientGetsItsShare(rs, own, block.reward, i);
    }
  }

  /** Everything credited for a block, in every outcome. */
  ghost function Awarded(cfg: RewardConfig, rows: seq<Share>, block: FoundBlock): real
    requires Scored(rows) && cfg.pageSize >= 1
  {
    if !PoolPayable(cfg, block.chain) then 0.0
    else
      var rs := cfg.recipients[block.chain];
      CreditedFrom(rs, NodeAddress(cfg, block.chain), block.reward)
        + MinersShare(cfg, rows, block.created, block.reward - TakenFrom(rs, block.reward))
  }

  /** Exactly when the calculation for a block ends without an error. */
  ghost predicate BlockPays(cfg: RewardConfig, rows: seq<Share>, block: FoundBlock)
    requires Scored(rows) && cfg.pageSize >= 1
  {
    && PoolPayable(cfg, block.chain)
    && SchemePays(cfg, rows, block.created, block.reward - TakenFrom(cfg.recipients[block.chain], block.reward))
  }

  /** No over-award: with sound percentages, a block never credits more than its reward, whatever the scheme does. */
  lemma NeverOverAwards(cfg: RewardConfig, rows: seq<Share>, block: FoundBlock)
    requires Scored(rows) && cfg.pageSize >= 1 && block.reward >= 0.0
    requires block.chain in cfg.recipients ==> Sound(cfg.recipients[block.chain])
    ensures 0.0 <= Awarded(cfg, rows, block) <= block.reward
  {
    if PoolPayable(cfg, block.chain) {
      var rs := cfg.recipients[block.chain];
      TakenWithin(rs, NodeAddress(cfg, block.chain), block.reward);
      MinersWithin(cfg, rows, block.created, block.reward - TakenFrom(rs, block.reward));
    }
  }

  /** A failing scheme credits no miner. */
  lemma FailedSchemePaysNobody(cfg: RewardConfig, rows: seq<Share>, block: FoundBlock, remaining: real, miner: string)
    requires Scored(rows) && cfg.pageSize >= 1 && !SchemePays(cfg, rows, block.created, remaining)
    ensures MinerCredit(cfg, rows, block, remaining, miner) == 0.0
    ensures MinersShare(cfg, rows, block.created, remaining) == 0.0
  {
  }

  // ---------- who is credited, in which order ----------

  /** Which miners a scheme credits. */
  ghost function MinersPaid(cfg: RewardConfig, rows: seq<Share>, block: FoundBlock, remaining: real): set<string>
    requires Scored(rows) && cfg.pageSize >= 1
  {
    match cfg.scheme
    case Solo => {block.miner}
    case Prop => {}
    case Pplns =>
      if SchemePays(cfg, rows, block.created, remaining)
      then MinersOf(Visited(Covered(rows, cfg.pool, block.created), cfg.pageSize)) else {}
  }

  /** What it credits them. */
  ghost function MinerRewards(cfg: RewardConfig, rows: seq<Share>, block: FoundBlock, remaining: real): map<string, real>
    requires Scored(rows) && cfg.pageSize >= 1
  {
    map m | m in MinersPaid(cfg, rows, block, remaining) :: MinerCredit(cfg, rows, block, remaining, m)
  }

  lemma MinerRewardsSums(cfg: RewardConfig, rows: seq<Share>, block: FoundBlock, remaining: real)
    requires Scored(rows) && cfg.pageSize >= 1
    ensures MapTotal(MinerRewards(cfg, rows, block, remaining)) == MinersShare(cfg, rows, block.created, remaining)
    ensures forall a ::
      AmountIn(MinerRewards(cfg, rows, block, remaining), a) == MinerCredit(cfg, rows, block, remaining, a)
  {
    hide Worth, MinerWorth, ScoreSum, MinersOf, Visited, Covered;
    VisitedScored(rows, cfg.pool, block.created, cfg.pageSize);
    var rewards := MinerRewards(cfg, rows, block, remaining);
    var v := Visited(Covered(rows, cfg.pool, block.created), cfg.pageSize);
    match cfg.scheme
    case Solo =>
      assert rewards == map[][block.miner := remaining];
      MapTotalPut(map[], block.miner, remaining);
    case Prop =>
      assert rewards == map[];
    case Pplns =>
      if PplnsPays(v, remaining) {
        assert Tallied(rewards, v, remaining / WINDOW);
        TalliedTotal(rewards, v, remaining / WINDOW);
        forall a | a !in rewards ensures MinerCredit(cfg, rows, block, remaining, a) == 0.0 {
          NoWorth(v, a, remaining / WINDOW);
        }
      } else {
        assert rewards == map[];
      }
  }

  lemma {:induction false} MinerWorthNotNegative(v: seq<Share>, miner: string, rate: real)
    requires Scored(v) && rate >= 0.0
    ensures MinerWorth(v, miner, rate) >= 0.0
  {
    if v != [] {
      MinerWorthNotNegative(v[..|v| - 1], miner, rate);
      Product(Score(v[|v| - 1]), rate);
    }
  }

  lemma MinerCreditNotNegative(cfg: RewardConfig, rows: seq<Share>, block: FoundBlock, remaining: real, miner: string)
    requires Scored(rows) && cfg.pageSize >= 1 && remaining >= 0.0
    ensures MinerCredit(cfg, rows, block, remaining, miner) >= 0.0
  {
    VisitedScored(rows, cfg.pool, block.created, cfg.pageSize);
    MinerWorthNotNegative(Visited(Covered(rows, cfg.pool, block.created), cfg.pageSize), miner, remaining / WINDOW);
  }

  /** The miners credited for a block, if its pool recipients can be paid at all. */
  ghost function BlockMiners(cfg: RewardConfig, rows: seq<Share>, block: FoundBlock): map<string, real>
    requires Scored(rows) && cfg.pageSize >= 1
  {
    if !PoolPayable(cfg, block.chain) then map[]
    else MinerRewards(cfg, rows, block, block.reward - TakenFrom(cfg.recipients[block.chain], block.reward))
  }

  /** An order in which the miners of a block may come. */
  ghost predicate MinerOrder(cfg: RewardConfig, rows: seq<Share>, block: FoundBlock, order: seq<string>)
    requires Scored(rows) && cfg.pageSize >= 1
    ensures MinerOrder(cfg, rows, block, order) ==>
      forall i :: 0 <= i < |order| ==> order[i] in BlockMiners(cfg, rows, block)
  {
    Enumerates(order, BlockMiners(cfg, rows, block).Keys)
  }

  /** All credits of one block in the order they are tried: recipients as configured, then the miners. */
  ghost function BlockCredits(cfg: RewardConfig, rows: seq<Share>, block: FoundBlock, order: seq<string>): seq<Credit>
    requires Scored(rows) && cfg.pageSize >= 1 && MinerOrder(cfg, rows, block, order)
  {
    if !PoolPayable(cfg, block.chain) then []
    else
      RecipientCredits(cfg.recipients[block.chain], NodeAddress(cfg, block.chain), block.reward)
        + Listed(order, BlockMiners(cfg, rows, block))
  }

  /** Together they are what every address is to be credited, whatever the order. */
  lemma BlockCreditsSums(cfg: RewardConfig, rows: seq<Share>, block: FoundBlock, order: seq<string>, a: string)
    requires Scored(rows) && cfg.pageSize >= 1 && MinerOrder(cfg, rows, block, order)
    ensures CreditSum(BlockCredits(cfg, rows, block, order), a) == BlockCredit(cfg, rows, block, a)
    ensures CreditsTotal(BlockCredits(cfg, rows, block, order)) == Awarded(cfg, rows, block)
  {
    hide MinerRewards, MinerCredit, MinersShare, RecipientCredits, RecipientCredit, CreditedFrom, TakenFrom, MinersPaid;
    if PoolPayable(cfg, block.chain) {
      var rs, rewardTo := cfg.recipients[block.chain], NodeAddress(cfg, block.chain);
      RecipientSums(rs, rewardTo, block.reward, a);
      ListedSums(order, BlockMiners(cfg, rows, block), a);
      MinerRewardsSums(cfg, rows, block, block.reward - TakenFrom(rs, block.reward));
      CreditSumConcat(RecipientCredits(rs, rewardTo, block.reward), Listed(order, BlockMiners(cfg, rows, block)), a);
    }
  }

  lemma BlockCreditsNotNegative(cfg: RewardConfig, rows: seq<Share>, block: FoundBlock, order: seq<string>)
    requires Scored(rows) && cfg.pageSize >= 1 && MinerOrder(cfg, rows, block, order) && block.reward >= 0.0
    requires block.chain in cfg.recipients ==> Sound(cfg.recipients[block.chain])
    ensures NoneNegative(BlockCredits(cfg, rows, block, order))
  {
    hide MinerCredit, TakenFrom, RecipientCredits, MinersPaid;
    if PoolPayable(cfg, block.chain) {
      var rs, miners := cfg.recipients[block.chain], BlockMiners(cfg, rows, block);
      TakenWithin(rs, NodeAddress(cfg, block.chain), block.reward);
      RecipientsNotNegative(rs, NodeAddress(cfg, block.chain), block.reward);
      forall i | 0 <= i < |order| ensures Listed(order, miners)[i].amount >= 0.0 {
        ListedAt(order, miners, i);
        MinerCreditNotNegative(cfg, rows, block, block.reward - TakenFrom(rs, block.reward), order[i]);
      }
    }
  }

  /** Whichever statement fails, what reaches the log for a block stays between nothing and its reward. */
  lemma LoggedWithinReward(cfg: RewardConfig, rows: seq<Share>, block: FoundBlock, order: seq<string>, f: CreditFault)
    requires Scored(rows) && cfg.pageSize >= 1 && MinerOrder(cfg, rows, block, order) && block.reward >= 0.0
    requires block.chain in cfg.recipients ==> Sound(cfg.recipients[block.chain])
    ensures var credits := BlockCredits(cfg, rows, block, order);
      0.0 <= CreditsTotal(credits[..Logged(f, |credits|)]) <= block.reward
  {
    hide MinerCredit, TakenFrom, RecipientCredits, MinersPaid, MinersShare, CreditedFrom;
    var credits := BlockCredits(cfg, rows, block, order);
    BlockCreditsNotNegative(cfg, rows, block, order);
    BlockCreditsSums(cfg, rows, block, order, "");
    NeverOverAwards(cfg, rows, block);
    PrefixWithin(credits, Logged(f, |credits|));
  }

  // ---------- the calculation ----------

  /** One credit alone. */
  lemma SingleCredit(b: Books, cause: Cause, c: Credit, f: CreditFault)
    ensures CreditAll(b, cause, [c], f)
      == AddAmountTo(b, KeyOf(cause, c), Reward(cause.height), c.amount, FaultAt(f, 0))
  {
    assert CreditFirst(b, cause, [c], f, 0) == b;
  }

  lemma OnlyFinder(miner: string, amount: real)
    ensures Enumerates([miner], {miner})
    ensures Listed([miner], map[miner := amount]) == [Credit(miner, amount)]
  {
    assert [miner][..0] == [];
  }

  /** `calculateMinerRewards`: dispatches to the configured scheme. */
  method CalculateMinerRewards(tables: Tables, table: ShareTable, cfg: RewardConfig, block: FoundBlock, remaining: real,
    f: CreditFault)
    returns (r: Result<Time>, ghost order: seq<string>)
    requires Scored(table.rows) && cfg.pageSize >= 1
    modifies tables
    ensures var miners := MinerRewards(cfg, table.rows, block, remaining);
      && Enumerates(order, miners.Keys) && (forall i :: 0 <= i < |order| ==> order[i] in miners)
      && tables.View() == CreditAll(old(tables.View()), CauseOf(cfg, block), Listed(order, miners), f)
    ensures r.Ok? <==> SchemePays(cfg, table.rows, block.created, remaining) && Completes(f, |order|)
    ensures r.Ok? ==> r.value == if cfg.scheme == Solo then block.created else 0
    ensures r.Err? ==>
      r.why == if SchemePays(cfg, table.rows, block.created, remaining) then StatementFailed else Overflow
  {
    ghost var start, miners := tables.View(), MinerRewards(cfg, table.rows, block, remaining);
    order := [];
    match cfg.scheme {
      case Solo =>
        order := [block.miner];
        OnlyFinder(block.miner, remaining);
        assert miners == map[block.miner := remaining];
        SingleCredit(start, CauseOf(cfg, block), Credit(block.miner, remaining), f);
        var added := tables.AddAmount(Key(cfg.pool, block.chain, block.miner), Reward(block.height), remaining,
          FaultAt(f, 0));
        r := if added.Ok? then Ok(block.created) else Err(StatementFailed);
      case Prop =>
        r := PropRewards(tables, table, cfg.pool, block.created, remaining, cfg.pageSize);
        assert miners == map[];
      case Pplns =>
        ghost var rewards;
        r, rewards, order := PplnsRewards(tables, table, CauseOf(cfg, block), block.created, remaining, cfg.pageSize, f);
        if SchemePays(cfg, table.rows, block.created, remaining) {
          assert miners == rewards;
        } else {
          order := [];
          assert miners == map[];
        }
    }
  }

  /** Exactly when the calculation for a block ends without an error. */
  ghost predicate BlockCompletes(cfg: RewardConfig, rows: seq<Share>, block: FoundBlock, order: seq<string>, f: CreditFault)
    requires Scored(rows) && cfg.pageSize >= 1 && MinerOrder(cfg, rows, block, order)
  {
    BlockPays(cfg, rows, block) && Completes(f, |BlockCredits(cfg, rows, block, order)|)
  }

  /** `calculateBlockRewards`: pool recipients first, then the scheme on what is left, until a statement fails. */
  method CalculateBlockRewards(tables: Tables, table: ShareTable, cfg: RewardConfig, block: FoundBlock, f: CreditFault)
    returns (r: Result<Time>, ghost order: seq<string>)
    requires Scored(table.rows) && cfg.pageSize >= 1
    modifies tables
    ensures MinerOrder(cfg, table.rows, block, order)
    ensures tables.View()
      == CreditAll(old(tables.View()), CauseOf(cfg, block), BlockCredits(cfg, table.rows, block, order), f)
    ensures r.Ok? <==> BlockCompletes(cfg, table.rows, block, order, f)
    ensures r.Ok? ==> r.value == if cfg.scheme == Solo then block.created else 0
  {
    hide MinerRewards, RecipientCredits, TakenFrom, SchemePays, Listed;
    ghost var start, cause := tables.View(), CauseOf(cfg, block);
    var remaining := CalculatePoolReward(tables, cfg, block, f);
    if remaining.Err? {
      order := AnyOrder(BlockMiners(cfg, table.rows, block).Keys);
      if PoolPayable(cfg, block.chain) {
        CreditBoth(start, cause,
          RecipientCredits(cfg.recipients[block.chain], NodeAddress(cfg, block.chain), block.reward),
          Listed(order, BlockMiners(cfg, table.rows, block)), f);
      }
      return Err(remaining.why), order;
    }
    var first := RecipientCredits(cfg.recipients[block.chain], NodeAddress(cfg, block.chain), block.reward);
    r, order := CalculateMinerRewards(tables, table, cfg, block, remaining.value, Behind(f, |first|));
    CreditBoth(start, cause, first, Listed(order, BlockMiners(cfg, table.rows, block)), f);
  }
}
