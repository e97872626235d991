/** payouts/payer.go: one pass that pays out every balance over its threshold. */
module Payer {
  import opened Base
  import opened Ledger

  /** Chains in configured order, minimum payment a chain, and the thresholds miners set for themselves. */
  datatype Config = Config(
    pool: string,
    order: seq<string>,
    minimums: map<string, real>,
    thresholds: map<(string, string), real>)

  // ---------- addresses ----------

  /** `strings.Split(s, "-")`. */
  function Split(s: string): (parts: seq<string>)
    ensures parts != []
  {
    if s == "" then [""]
    else if s[0] == '-' then [""] + Split(s[1..])
    else
      var rest := Split(s[1..]);
      [[s[0]] + rest[0]] + rest[1..]
  }

  function Dashed(parts: seq<string>): string
    requires parts != []
  {
    if |parts| == 1 then parts[0] else parts[0] + ("-" + Dashed(parts[1..]))
  }

  lemma {:induction false} SplitPrefix(a: string, rest: string)
    requires '-' !in a
    ensures Split(a + ("-" + rest)) == [a] + Split(rest)
    ensures Split(a) == [a]
  {
    if a == "" {
      ConcatEmpty("-" + rest);
      HeadTail('-', rest);
    } else {
      SplitPrefix(a[1..], rest);
      SplitWithin(a, "-" + rest, 1);
      ConsBack(a);
      HeadTail(a[1..], Split(rest));
    }
  }

  /** A login made of one address a chain splits back into those addresses. */
  lemma {:induction false} SplitDashed(parts: seq<string>)
    requires parts != [] && forall i :: 0 <= i < |parts| ==> '-' !in parts[i]
    ensures Split(Dashed(parts)) == parts
  {
    if |parts| == 1 {
      SplitPrefix(parts[0], "");
    } else {
      SplitDashed(parts[1..]);
      SplitPrefix(parts[0], Dashed(parts[1..]));
      ConsBack(parts);
    }
  }

  function IndexOf(order: seq<string>, chain: string): (i: Option<nat>)
    ensures i.Some? ==> i.value < |order| && order[i.value] == chain && chain !in order[..i.value]
    ensures i.None? ==> chain !in order
  {
    if order == [] then None
    else if order[0] == chain then Some(0)
    else
      var rest := IndexOf(order[1..], chain);
      match rest
      case None => None
      case Some(i) =>
        assert order[..i + 1] == [order[0]] + order[1..][..i];
        Some(i + 1)
  }

  /** With merged mining, the part of a miner's login that belongs to the balance's chain. */
  function Resolve(order: seq<string>, chain: string, address: string): Result<string> {
    if |order| <= 1 then Ok(address)
    else
      var parts := Split(address);
      if |parts| == 1 then Ok(parts[0])
      else
        match IndexOf(order, chain)
        case None => Err(NoAddress)
        case Some(i) => if i < |parts| then Ok(parts[i]) else Err(Panic)
  }

  method FindBalanceAddress(order: seq<string>, chain: string, balanceAddress: string) returns (r: Result<string>)
    ensures r == Resolve(order, chain, balanceAddress)
  {
    if |order| <= 1 {
      return Ok(balanceAddress);
    }
    var addresses := Split(balanceAddress);
    if |addresses| == 1 {
      return Ok(addresses[0]);
    }
    var found := false;
    var i := 0;
    while i < |order| && !found
      invariant 0 <= i <= |order|
      invariant chain !in order[..i]
      invariant found ==> i < |order| && order[i] == chain
      decreases |order| - i, !found
    {
      if order[i] == chain {
        found := true;
      } else {
        TakeNext(order, i);
        i := i + 1;
      }
    }
    if !found {
      TakeAll(order);
      return Err(NoAddress);
    }
    FirstIndex(order, chain, i);
    if i >= |addresses| {
      return Err(Panic);
    }
    return Ok(addresses[i]);
  }

  lemma FirstIndex(order: seq<string>, chain: string, i: nat)
    requires i < |order| && order[i] == chain && chain !in order[..i]
    ensures IndexOf(order, chain) == Some(i)
  {
    var j := IndexOf(order, chain).value;
    forall k | 0 <= k < i ensures order[k] != chain {
      assert order[..i][k] == order[k];
    }
    forall k | 0 <= k < j ensures order[k] != chain {
      assert order[..j][k] == order[k];
    }
  }

  /** Each chain pays the login's own address for that chain. */
  lemma PaidAtOwnAddress(order: seq<string>, parts: seq<string>, i: nat)
    requires |order| == |parts| > 1 && i < |order|
    requires forall j, k :: 0 <= j < k < |order| ==> order[j] != order[k]
    requires forall j :: 0 <= j < |parts| ==> '-' !in parts[j]
    ensures Resolve(order, order[i], Dashed(parts)) == Ok(parts[i])
  {
    SplitDashed(parts);
    FirstIndex(order, order[i], i);
  }

  lemma {:induction false} SplitAlone(s: string)
    ensures |Split(s)| == 1 <==> '-' !in s
    ensures '-' !in s ==> Split(s) == [s]
  {
    if s != "" {
      SplitAlone(s[1..]);
      ConsBack(s);
    }
  }

  /**
   * Where a balance goes, for every login: without merged mining or without a dash to the whole login, on every chain;
   * else to the part at the chain's first position, if the chain is known and the login has that many parts.
   */
  lemma ResolvesTo(order: seq<string>, chain: string, address: string)
    ensures |order| <= 1 || '-' !in address ==> Resolve(order, chain, address) == Ok(address)
    ensures |order| > 1 && '-' in address && chain !in order ==> Resolve(order, chain, address) == Err(NoAddress)
    ensures |order| > 1 && '-' in address ==>
      forall i :: 0 <= i < |order| && order[i] == chain && chain !in order[..i] ==>
        Resolve(order, chain, address)
          == if i < |Split(address)| then Ok(Split(address)[i]) else Err(Panic)
  {
    SplitAlone(address);
    forall i | 0 <= i < |order| && order[i] == chain && chain !in order[..i] ensures IndexOf(order, chain) == Some(i) {
      FirstIndex(order, chain, i);
    }
  }

  // ---------- which balances are due ----------

  predicate Due(cfg: Config, chain: string, minimum: real, row: BalanceRow) {
    && row.key.pool == cfg.pool && row.key.chain == chain
    && row.amount >= if (cfg.pool, row.key.address) in cfg.thresholds
                     then cfg.thresholds[(cfg.pool, row.key.address)] else minimum
  }

  /** `GetPoolBalancesOverThreshold`. */
  function Over(rows: seq<BalanceRow>, cfg: Config, chain: string, minimum: real): seq<BalanceRow> {
    if rows == [] then []
    else (if Due(cfg, chain, minimum, rows[0]) then [rows[0]] else []) + Over(rows[1..], cfg, chain, minimum)
  }

  function Collect(rows: seq<BalanceRow>, cfg: Config, chains: seq<string>): Result<seq<BalanceRow>> {
    if chains == [] then Ok([])
    else if chains[0] !in cfg.minimums then Err(NoPayoutConfig)
    else
      var rest :- Collect(rows, cfg, chains[1..]);
      Ok(Over(rows, cfg, chains[0], cfg.minimums[chains[0]]) + rest)
  }

  lemma {:induction false} OverDue(rows: seq<BalanceRow>, cfg: Config, chain: string, minimum: real)
    ensures forall row :: row in Over(rows, cfg, chain, minimum) <==> row in rows && Due(cfg, chain, minimum, row)
  {
    if rows != [] {
      OverDue(rows[1..], cfg, chain, minimum);
      assert forall row :: row in rows <==> row == rows[0] || row in rows[1..];
    }
  }

  /** Exactly the rows of this pool, on a listed chain, at or over their threshold are collected. */
  lemma {:induction false} CollectDueRows(rows: seq<BalanceRow>, cfg: Config, chains: seq<string>)
    ensures Collect(rows, cfg, chains).Ok? <==> forall chain :: chain in chains ==> chain in cfg.minimums
    ensures Collect(rows, cfg, chains).Ok? ==>
      forall row :: row in Collect(rows, cfg, chains).value <==>
        && row in rows && row.key.pool == cfg.pool && row.key.chain in chains
        && row.amount >= if (cfg.pool, row.key.address) in cfg.thresholds
                         then cfg.thresholds[(cfg.pool, row.key.address)] else cfg.minimums[row.key.chain]
  {
    if chains != [] {
      CollectDueRows(rows, cfg, chains[1..]);
      assert forall c :: c in chains <==> c == chains[0] || c in chains[1..];
      if chains[0] in cfg.minimums {
        OverDue(rows, cfg, chains[0], cfg.minimums[chains[0]]);
      }
    }
  }

  predicate AllResolve(rows: seq<BalanceRow>, cfg: Config) {
    forall i :: 0 <= i < |rows| ==> Resolve(cfg.order, rows[i].key.chain, rows[i].key.address).Ok?
  }

  /** The first address that does not resolve decides the error. */
  function ResolveAll(rows: seq<BalanceRow>, cfg: Config): (r: Result<()>)
    ensures r.Ok? <==> AllResolve(rows, cfg)
  {
    if rows == [] then Ok(())
    else
      var first := Resolve(cfg.order, rows[0].key.chain, rows[0].key.address);
      if first.Err? then Err(first.why)
      else
        var rest := ResolveAll(rows[1..], cfg);
        assert AllResolve(rows, cfg) <==> AllResolve(rows[1..], cfg) by {
          assert forall i :: 0 <= i < |rows[1..]| ==> rows[1..][i] == rows[i + 1];
          if AllResolve(rows[1..], cfg) {
            forall i | 0 <= i < |rows| ensures Resolve(cfg.order, rows[i].key.chain, rows[i].key.address).Ok? {
              assert i > 0 ==> rows[1..][i - 1] == rows[i];
            }
          }
        }
        rest
  }

  function Resolved(row: BalanceRow, cfg: Config): string
    requires Resolve(cfg.order, row.key.chain, row.key.address).Ok?
  {
    Resolve(cfg.order, row.key.chain, row.key.address).value
  }

  // ---------- sending ----------

  /** One `SendMany`: what left the wallet. */
  datatype Sent = Sent(chain: string, outputs: map<string, real>, confirmation: string)

  class Wallet {
    var sent: seq<Sent>

    constructor ()
      ensures sent == []
    {
      sent := [];
    }
  }

  /** The outputs for one chain; a later balance at the same address replaces an earlier one. */
  function OutputsFor(rows: seq<BalanceRow>, cfg: Config, chain: string): map<string, real>
    requires AllResolve(rows, cfg)
  {
    if rows == [] then map[]
    else
      var n := |rows| - 1;
      assert AllResolve(rows[..n], cfg);
      var before := OutputsFor(rows[..n], cfg, chain);
      if rows[n].key.chain == chain then before[Resolved(rows[n], cfg) := rows[n].amount] else before
  }

  function ChainsOf(rows: seq<BalanceRow>): set<string> {
    set i | 0 <= i < |rows| :: rows[i].key.chain
  }

  type Node = string -> Option<string>

  /** How many sends succeed before the first failure. */
  function Successes(sendOrder: seq<string>, node: Node): (n: nat)
    ensures n <= |sendOrder|
    ensures forall i :: 0 <= i < n ==> node(sendOrder[i]).Some?
    ensures n < |sendOrder| ==> node(sendOrder[n]).None?
  {
    if sendOrder == [] || node(sendOrder[0]).None? then 0 else 1 + Successes(sendOrder[1..], node)
  }

  function SentBy(rows: seq<BalanceRow>, cfg: Config, sendOrder: seq<string>, node: Node, n: nat): (sent: seq<Sent>)
    requires AllResolve(rows, cfg) && n <= Successes(sendOrder, node)
    ensures |sent| == n
  {
    seq(n, i requires 0 <= i < n =>
      Sent(sendOrder[i], OutputsFor(rows, cfg, sendOrder[i]), node(sendOrder[i]).value))
  }

  // ---------- recording ----------

  /** A statement that fails while row `at` is recorded: the payment insert, or one inside the balance reset. */
  datatype PayFault = NoPayFault | PaymentFails(at: nat) | ResetFails(at: nat, fault: Fault)

  function ResetFault(f: PayFault, i: nat): Fault {
    if f.ResetFails? && f.at == i then f.fault else NoFault
  }

  function RecordOne(b: Books, row: BalanceRow, pool: string, address: string, confirmation: string, fault: Fault): Books
  {
    var payment := Payment(row.key.pool, row.key.chain, address, row.amount, confirmation);
    AddAmountTo(b.(payments := b.payments + [payment]),
      Key(pool, row.key.chain, row.key.address), Paid, -row.amount, fault)
  }

  /** Rows from index `i` on, until one fails. */
  function RecordFrom(b: Books, rows: seq<BalanceRow>, cfg: Config, node: Node, fault: PayFault, i: nat)
    : (Books, Result<()>)
    requires AllResolve(rows, cfg) && i <= |rows|
    requires forall k :: 0 <= k < |rows| ==> node(rows[k].key.chain).Some?
    decreases |rows| - i
  {
    if i == |rows| then (b, Ok(()))
    else if fault == PaymentFails(i) then (b, Err(StatementFailed))
    else
      var next := RecordOne(b, rows[i], cfg.pool, Resolved(rows[i], cfg), node(rows[i].key.chain).value,
        ResetFault(fault, i));
      if ResetFault(fault, i) != NoFault then (next, Err(StatementFailed))
      else RecordFrom(next, rows, cfg, node, fault, i + 1)
  }

  // ---------- the pass ----------

  datatype Outcome = Outcome(books: Books, sent: seq<Sent>, result: Result<()>)

  predicate Sendable(b: Books, cfg: Config) {
    Collect(b.balances, cfg, cfg.order).Ok? && AllResolve(Collect(b.balances, cfg, cfg.order).value, cfg)
  }

  lemma AllSendsSucceed(rows: seq<BalanceRow>, sendOrder: seq<string>, node: Node)
    requires Enumerates(sendOrder, ChainsOf(rows)) && Successes(sendOrder, node) == |sendOrder|
    ensures forall k :: 0 <= k < |rows| ==> node(rows[k].key.chain).Some?
  {
    forall k | 0 <= k < |rows| ensures node(rows[k].key.chain).Some? {
      assert rows[k].key.chain in ChainsOf(rows);
      var j :| 0 <= j < |sendOrder| && sendOrder[j] == rows[k].key.chain;
    }
  }

  /** Everything one pass does: nothing on a configuration or address error, sends, then records. */
  function Pass(b: Books, cfg: Config, sendOrder: seq<string>, node: Node, fault: PayFault): Outcome
    requires Sendable(b, cfg) ==>
      Enumerates(sendOrder, ChainsOf(Collect(b.balances, cfg, cfg.order).value))
  {
    var due := Collect(b.balances, cfg, cfg.order);
    if due.Err? then Outcome(b, [], Err(due.why))
    else if ResolveAll(due.value, cfg).Err? then Outcome(b, [], Err(ResolveAll(due.value, cfg).why))
    else
      var n := Successes(sendOrder, node);
      var sent := SentBy(due.value, cfg, sendOrder, node, n);
      if n < |sendOrder| then Outcome(b, sent, Err(SendFailed))
      else
        AllSendsSucceed(due.value, sendOrder, node);
        var (books, result) := RecordFrom(b, due.value, cfg, node, fault, 0);
        Outcome(books, sent, result)
  }

  type Groups = map<string, map<string, real>>

  ghost predicate Grouped(groups: Groups, rows: seq<BalanceRow>, cfg: Config)
    requires AllResolve(rows, cfg)
  {
    && groups.Keys == ChainsOf(rows)
    && forall chain :: chain in groups ==> groups[chain] == OutputsFor(rows, cfg, chain)
  }

  /** The grouping loop of `bitcoinTryManyPayments`. */
  method GroupPayments(rows: seq<BalanceRow>, cfg: Config) returns (r: Result<Groups>)
    ensures r.Ok? <==> AllResolve(rows, cfg)
    ensures r.Ok? ==> Grouped(r.value, rows, cfg)
    ensures r.Err? ==> ResolveAll(rows, cfg) == Err(r.why)
  {
    var groups: Groups := map[];
    for i := 0 to |rows|
      invariant AllResolve(rows[..i], cfg) && Grouped(groups, rows[..i], cfg)
      invariant ResolveAll(rows, cfg) == ResolveAll(rows[i..], cfg)
    {
      var chain := rows[i].key.chain;
      TakeNext(rows, i);
      HeadTail(rows[i], rows[i + 1..]);
      var address := FindBalanceAddress(cfg.order, chain, rows[i].key.address);
      if address.Err? {
        return Err(address.why);
      }
      var chainBalances := if chain in groups then groups[chain] else map[];
      GroupNext(rows, cfg, i, groups);
      groups := groups[chain := chainBalances[address.value := rows[i].amount]];
    }
    TakeAll(rows);
    return Ok(groups);
  }

  /** The sending loop of `bitcoinTryManyPayments`: stops at the first chain whose node refuses. */
  method SendGroups(wallet: Wallet, ghost rows: seq<BalanceRow>, cfg: Config, groups: Groups, sendOrder: seq<string>,
    node: Node)
    returns (r: Result<map<string, string>>)
    requires AllResolve(rows, cfg) && Grouped(groups, rows, cfg) && Enumerates(sendOrder, ChainsOf(rows))
    modifies wallet
    ensures wallet.sent == old(wallet.sent) + SentBy(rows, cfg, sendOrder, node, Successes(sendOrder, node))
    ensures r.Ok? <==> Successes(sendOrder, node) == |sendOrder|
    ensures r.Err? ==> r.why == SendFailed
    ensures r.Ok? ==> forall k :: 0 <= k < |sendOrder| ==>
      sendOrder[k] in r.value && node(sendOrder[k]) == Some(r.value[sendOrder[k]])
  {
    var confirmations: map<string, string> := map[];
    ConcatEmpty(wallet.sent);
    for i := 0 to |sendOrder|
      invariant i <= Successes(sendOrder, node)
      invariant wallet.sent == old(wallet.sent) + SentBy(rows, cfg, sendOrder, node, i)
      invariant forall k :: 0 <= k < i ==>
        sendOrder[k] in confirmations && node(sendOrder[k]) == Some(confirmations[sendOrder[k]])
    {
      var chain := sendOrder[i];
      assert chain in ChainsOf(rows);
      var transactionID := node(chain);
      if transactionID == None {
        return Err(SendFailed);
      }
      SentNext(rows, cfg, sendOrder, node, i);
      var one := Sent(chain, groups[chain], transactionID.value);
      ConcatAssoc(old(wallet.sent), SentBy(rows, cfg, sendOrder, node, i), [one]);
      wallet.sent := wallet.sent + [one];
      confirmations := confirmations[chain := transactionID.value];
    }
    return Ok(confirmations);
  }

  lemma GroupNext(rows: seq<BalanceRow>, cfg: Config, i: nat, groups: map<string, map<string, real>>)
    requires i < |rows| && AllResolve(rows[..i], cfg) && Grouped(groups, rows[..i], cfg)
    requires Resolve(cfg.order, rows[i].key.chain, rows[i].key.address).Ok?
    ensures AllResolve(rows[..i + 1], cfg)
    ensures var chain := rows[i].key.chain;
      var before := if chain in groups then groups[chain] else map[];
      Grouped(groups[chain := before[Resolved(rows[i], cfg) := rows[i].amount]], rows[..i + 1], cfg)
  {
    var next, chain := rows[..i + 1], rows[i].key.chain;
    TakeNext(rows, i);
    ResolveNext(rows[..i], rows[i], cfg);
    ChainsNext(rows[..i], rows[i]);
    if chain !in groups {
      NoOutputs(rows[..i], cfg, chain);
    }
    forall c ensures OutputsFor(next, cfg, c)
      == if c == chain then OutputsFor(rows[..i], cfg, c)[Resolved(rows[i], cfg) := rows[i].amount]
         else OutputsFor(rows[..i], cfg, c)
    {
      OutputsNext(rows[..i], rows[i], cfg, c);
    }
  }

  lemma ResolveNext(rows: seq<BalanceRow>, row: BalanceRow, cfg: Config)
    requires AllResolve(rows, cfg) && Resolve(cfg.order, row.key.chain, row.key.address).Ok?
    ensures AllResolve(rows + [row], cfg)
  {
    hide Resolve;
  }

  lemma ChainsNext(rows: seq<BalanceRow>, row: BalanceRow)
    ensures ChainsOf(rows + [row]) == ChainsOf(rows) + {row.key.chain}
  {
    var next := rows + [row];
    assert next[|rows|] == row && forall k :: 0 <= k < |rows| ==> next[k] == rows[k];
  }

  lemma OutputsNext(rows: seq<BalanceRow>, row: BalanceRow, cfg: Config, chain: string)
    requires AllResolve(rows, cfg) && AllResolve(rows + [row], cfg)
    requires Resolve(cfg.order, row.key.chain, row.key.address).Ok?
    ensures OutputsFor(rows + [row], cfg, chain)
      == if row.key.chain == chain then OutputsFor(rows, cfg, chain)[Resolved(row, cfg) := row.amount]
         else OutputsFor(rows, cfg, chain)
  {
    hide Resolve;
    assert (rows + [row])[..|rows|] == rows;
  }

  lemma {:induction false} NoOutputs(rows: seq<BalanceRow>, cfg: Config, chain: string)
    requires AllResolve(rows, cfg) && chain !in ChainsOf(rows)
    ensures OutputsFor(rows, cfg, chain) == map[]
  {
    if rows != [] {
      var n := |rows| - 1;
      assert rows[n].key.chain in ChainsOf(rows);
      assert ChainsOf(rows[..n]) <= ChainsOf(rows);
      NoOutputs(rows[..n], cfg, chain);
    }
  }

  lemma SentNext(rows: seq<BalanceRow>, cfg: Config, sendOrder: seq<string>, node: Node, i: nat)
    requires AllResolve(rows, cfg) && i < |sendOrder| && i <= Successes(sendOrder, node)
    requires node(sendOrder[i]).Some?
    ensures i + 1 <= Successes(sendOrder, node)
    ensures SentBy(rows, cfg, sendOrder, node, i + 1) == SentBy(rows, cfg, sendOrder, node, i)
      + [Sent(sendOrder[i], OutputsFor(rows, cfg, sendOrder[i]), node(sendOrder[i]).value)]
  {
  }

  /** The collecting loop of `payoutBalances`. */
  method CollectDue(rows: seq<BalanceRow>, cfg: Config) returns (r: Result<seq<BalanceRow>>)
    ensures r == Collect(rows, cfg, cfg.order)
    ensures r.Ok? <==> forall chain :: chain in cfg.order ==> chain in cfg.minimums
    ensures r.Err? ==> r.why == NoPayoutConfig
    ensures r.Ok? ==> forall row :: row in r.value <==>
      && row in rows && row.key.pool == cfg.pool && row.key.chain in cfg.order
      && row.amount >= if (cfg.pool, row.key.address) in cfg.thresholds
                       then cfg.thresholds[(cfg.pool, row.key.address)] else cfg.minimums[row.key.chain]
  {
    CollectDueRows(rows, cfg, cfg.order);
    var balances: seq<BalanceRow> := [];
    TakeAll(cfg.order);
    ghost var whole := Collect(rows, cfg, cfg.order);
    if whole.Ok? {
      ConcatEmpty(whole.value);
    }
    for i := 0 to |cfg.order|
      invariant var rest := Collect(rows, cfg, cfg.order[i..]);
        whole == if rest.Ok? then Ok(balances + rest.value) else rest
    {
      var chain := cfg.order[i];
      TakeNext(cfg.order, i);
      HeadTail(chain, cfg.order[i + 1..]);
      if chain !in cfg.minimums {
        return Err(NoPayoutConfig);
      }
      var b := Over(rows, cfg, chain, cfg.minimums[chain]);
      ghost var rest := Collect(rows, cfg, cfg.order[i + 1..]);
      if rest.Ok? {
        ConcatAssoc(balances, b, rest.value);
      }
      balances := balances + b;
    }
    ConcatEmpty(balances);
    return Ok(balances);
  }

  /** Records one payment, then resets the balance it paid. */
  method RecordPayment(tables: Tables, balance: BalanceRow, cfg: Config, confirmation: string, fault: Fault)
    returns (r: Result<()>)
    requires Resolve(cfg.order, balance.key.chain, balance.key.address).Ok?
    modifies tables
    ensures tables.View()
      == RecordOne(old(tables.View()), balance, cfg.pool, Resolved(balance, cfg), confirmation, fault)
    ensures r == if fault == NoFault then Ok(()) else Err(StatementFailed)
  {
    var address := FindBalanceAddress(cfg.order, balance.key.chain, balance.key.address);
    tables.InsertPayment(
      Payment(balance.key.pool, balance.key.chain, address.value, balance.amount, confirmation));
    r := tables.AddAmount(Key(cfg.pool, balance.key.chain, balance.key.address), Paid, -balance.amount, fault);
  }

  predicate Confirmed(rows: seq<BalanceRow>, confirmations: map<string, string>, node: Node) {
    forall k :: 0 <= k < |rows| ==>
      rows[k].key.chain in confirmations && node(rows[k].key.chain) == Some(confirmations[rows[k].key.chain])
  }

  /** The recording loop of `payoutBalances`. */
  method RecordPayments(tables: Tables, balances: seq<BalanceRow>, cfg: Config, confirmations: map<string, string>,
    ghost node: Node, fault: PayFault)
    returns (r: Result<()>)
    requires AllResolve(balances, cfg) && Confirmed(balances, confirmations, node)
    modifies tables
    ensures (tables.View(), r) == RecordFrom(old(tables.View()), balances, cfg, node, fault, 0)
  {
    hide RecordOne, Resolve, AddAmountTo;
    ghost var start := tables.View();
    for i := 0 to |balances|
      invariant RecordFrom(tables.View(), balances, cfg, node, fault, i)
             == RecordFrom(start, balances, cfg, node, fault, 0)
    {
      var confirmation := confirmations[balances[i].key.chain];
      if fault == PaymentFails(i) {
        return Err(StatementFailed);
      }
      r := RecordPayment(tables, balances[i], cfg, confirmation, ResetFault(fault, i));
      if r.Err? {
        return r;
      }
    }
    return Ok(());
  }

  method PayoutBalances(tables: Tables, wallet: Wallet, cfg: Config, sendOrder: seq<string>, node: Node, fault: PayFault)
    returns (r: Result<()>)
    requires Sendable(tables.View(), cfg) ==>
      Enumerates(sendOrder, ChainsOf(Collect(tables.balances, cfg, cfg.order).value))
    modifies tables, wallet
    ensures Outcome(tables.View(), wallet.sent, r)
      == var pass := Pass(old(tables.View()), cfg, sendOrder, node, fault);
         pass.(sent := old(wallet.sent) + pass.sent)
  {
    ConcatEmpty(wallet.sent);
    var due := CollectDue(tables.balances, cfg);
    if due.Err? {
      return Err(due.why);
    }
    var balances := due.value;
    var groups := GroupPayments(balances, cfg);
    if groups.Err? {
      return Err(groups.why);
    }
    var confirmations := SendGroups(wallet, balances, cfg, groups.value, sendOrder, node);
    if confirmations.Err? {
      return Err(SendFailed);
    }
    AllSendsSucceed(balances, sendOrder, node);
    forall k | 0 <= k < |balances| ensures balances[k].key.chain in confirmations.value
      && node(balances[k].key.chain) == Some(confirmations.value[balances[k].key.chain])
    {
      assert balances[k].key.chain in ChainsOf(balances);
    }
    r := RecordPayments(tables, balances, cfg, confirmations.value, node, fault);
  }
}
