/** What payout passes keep, over one pass and over whole runs of credits and passes. */
module PayerRuns {
  import opened Base
  import opened Ledger
  import opened Payer

  // ---------- conservation ----------

  /** One recorded payment moves its amount from balances to payments, exactly when the reset is not cut short. */
  lemma RecordOneConserves(b: Books, row: BalanceRow, address: string, confirmation: string, fault: Fault,
    pool: string, chain: string)
    requires UniqueKeys(b.balances) && Conserved(b, pool, chain)
    ensures UniqueKeys(RecordOne(b, row, row.key.pool, address, confirmation, fault).balances)
    ensures Conserved(RecordOne(b, row, row.key.pool, address, confirmation, fault), pool, chain)
      <==> fault == NoFault || row.amount == 0.0 || row.key.pool != pool || row.key.chain != chain
  {
    hide GetBalance, BalanceTotal;
    var payment := Payment(row.key.pool, row.key.chain, address, row.amount, confirmation);
    var paid := b.(payments := b.payments + [payment]);
    var key := Key(row.key.pool, row.key.chain, row.key.address);
    PaymentTotalAppend(b.payments, payment, pool, chain);
    AddAmountTotals(paid, key, Paid, -row.amount, pool, chain);
    CreditTotalAppend(b.changes, Change(key, -row.amount, Paid), pool, chain);
  }

  predicate OfPool(rows: seq<BalanceRow>, pool: string) {
    forall i :: 0 <= i < |rows| ==> rows[i].key.pool == pool
  }

  lemma {:induction false} RecordFromConserves(b: Books, rows: seq<BalanceRow>, cfg: Config, node: Node, i: nat,
    pool: string, chain: string)
    requires AllResolve(rows, cfg) && OfPool(rows, cfg.pool) && i <= |rows|
    requires forall k :: 0 <= k < |rows| ==> node(rows[k].key.chain).Some?
    requires UniqueKeys(b.balances) && Conserved(b, pool, chain)
    ensures var out := RecordFrom(b, rows, cfg, node, NoPayFault, i);
      out.1.Ok? && UniqueKeys(out.0.balances) && Conserved(out.0, pool, chain)
    decreases |rows| - i
  {
    if i < |rows| {
      var confirmation := node(rows[i].key.chain).value;
      var address := Resolved(rows[i], cfg);
      RecordOneConserves(b, rows[i], address, confirmation, NoFault, pool, chain);
      RecordFromConserves(RecordOne(b, rows[i], cfg.pool, address, confirmation, NoFault), rows, cfg, node, i + 1, pool, chain);
    }
  }

  lemma CollectedOfPool(rows: seq<BalanceRow>, cfg: Config, chains: seq<string>)
    requires Collect(rows, cfg, chains).Ok?
    ensures OfPool(Collect(rows, cfg, chains).value, cfg.pool)
  {
    CollectDueRows(rows, cfg, chains);
    var due := Collect(rows, cfg, chains).value;
    assert forall i :: 0 <= i < |due| ==> due[i] in due;
  }

  ghost predicate ValidPass(b: Books, cfg: Config, sendOrder: seq<string>) {
    Sendable(b, cfg) ==> Enumerates(sendOrder, ChainsOf(Collect(b.balances, cfg, cfg.order).value))
  }

  /** Whatever the nodes answer, a pass without a failing statement loses and invents nothing in the books. */
  lemma PassConserves(b: Books, cfg: Config, sendOrder: seq<string>, node: Node, pool: string, chain: string)
    requires ValidPass(b, cfg, sendOrder) && UniqueKeys(b.balances) && Conserved(b, pool, chain)
    ensures var out := Pass(b, cfg, sendOrder, node, NoPayFault).books;
      UniqueKeys(out.balances) && Conserved(out, pool, chain)
  {
    if Sendable(b, cfg) && Successes(sendOrder, node) == |sendOrder| {
      var due := Collect(b.balances, cfg, cfg.order).value;
      CollectedOfPool(b.balances, cfg, cfg.order);
      AllSendsSucceed(due, sendOrder, node);
      RecordFromConserves(b, due, cfg, node, 0, pool, chain);
    }
  }

  // ---------- paid balances are zero ----------

  lemma {:induction false} OverDistinct(rows: seq<BalanceRow>, cfg: Config, chain: string, minimum: real)
    requires UniqueKeys(rows)
    ensures UniqueKeys(Over(rows, cfg, chain, minimum))
  {
    if rows != [] {
      UniqueTail(rows);
      OverDistinct(rows[1..], cfg, chain, minimum);
      OverDue(rows[1..], cfg, chain, minimum);
      var rest := Over(rows[1..], cfg, chain, minimum);
      forall j | 0 <= j < |rest| ensures rest[j].key != rows[0].key {
        assert rest[j] in rest;
      }
    }
  }

  lemma {:induction false} CollectDistinct(rows: seq<BalanceRow>, cfg: Config, chains: seq<string>)
    requires UniqueKeys(rows) && Collect(rows, cfg, chains).Ok?
    requires forall i, j :: 0 <= i < j < |chains| ==> chains[i] != chains[j]
    ensures UniqueKeys(Collect(rows, cfg, chains).value)
  {
    if chains != [] {
      CollectDistinct(rows, cfg, chains[1..]);
      CollectDueRows(rows, cfg, chains[1..]);
      OverDistinct(rows, cfg, chains[0], cfg.minimums[chains[0]]);
      OverDue(rows, cfg, chains[0], cfg.minimums[chains[0]]);
      var a, b := Over(rows, cfg, chains[0], cfg.minimums[chains[0]]), Collect(rows, cfg, chains[1..]).value;
      forall i, j | 0 <= i < |a| && 0 <= j < |b| ensures a[i].key != b[j].key {
        assert a[i] in a && b[j] in b;
        assert b[j].key.chain in chains[1..];
      }
    }
  }

  predicate PaysKey(rows: seq<BalanceRow>, from: nat, key: Key) {
    exists k :: from <= k < |rows| && rows[k].key == key
  }

  lemma AmountAfterOne(b: Books, row: BalanceRow, address: string, confirmation: string, key: Key)
    requires HasKey(b.balances, row.key)
    ensures var out := RecordOne(b, row, row.key.pool, address, confirmation, NoFault).balances;
      && (HasKey(out, key) <==> HasKey(b.balances, key))
      && AmountOf(out, key) == AmountOf(b.balances, key) - (if key == row.key then row.amount else 0.0)
  {
    var payment := Payment(row.key.pool, row.key.chain, address, row.amount, confirmation);
    AddToExisting(b.(payments := b.payments + [payment]), row.key, Paid, -row.amount);
    AmountOfUpdate(b.balances, row.key, -row.amount, key);
  }

  /** The rows from index `i` on are still in the table with the amounts that were collected. */
  predicate StillDue(rows: seq<BalanceRow>, i: nat, balances: seq<BalanceRow>) {
    forall k :: i <= k < |rows| ==> HasKey(balances, rows[k].key) && AmountOf(balances, rows[k].key) == rows[k].amount
  }

  lemma StillDueNext(b: Books, rows: seq<BalanceRow>, address: string, confirmation: string, i: nat)
    requires i < |rows| && UniqueKeys(rows) && StillDue(rows, i, b.balances)
    ensures StillDue(rows, i + 1, RecordOne(b, rows[i], rows[i].key.pool, address, confirmation, NoFault).balances)
  {
    forall k | i + 1 <= k < |rows|
      ensures var out := RecordOne(b, rows[i], rows[i].key.pool, address, confirmation, NoFault).balances;
        HasKey(out, rows[k].key) && AmountOf(out, rows[k].key) == rows[k].amount
    {
      AmountAfterOne(b, rows[i], address, confirmation, rows[k].key);
    }
  }

  lemma {:induction false} RecordFromZeroes(b: Books, rows: seq<BalanceRow>, cfg: Config, node: Node, i: nat, key: Key)
    requires AllResolve(rows, cfg) && OfPool(rows, cfg.pool) && UniqueKeys(rows) && i <= |rows|
    requires forall k :: 0 <= k < |rows| ==> node(rows[k].key.chain).Some?
    requires StillDue(rows, i, b.balances)
    ensures AmountOf(RecordFrom(b, rows, cfg, node, NoPayFault, i).0.balances, key)
         == if PaysKey(rows, i, key) then 0.0 else AmountOf(b.balances, key)
    decreases |rows| - i
  {
    if i < |rows| {
      var confirmation := node(rows[i].key.chain).value;
      var address := Resolved(rows[i], cfg);
      StillDueNext(b, rows, address, confirmation, i);
      AmountAfterOne(b, rows[i], address, confirmation, key);
      RecordFromZeroes(RecordOne(b, rows[i], cfg.pool, address, confirmation, NoFault), rows, cfg, node, i + 1, key);
      assert PaysKey(rows, i, key) <==> rows[i].key == key || PaysKey(rows, i + 1, key);
    }
  }

  lemma {:induction false} RowAmount(rows: seq<BalanceRow>, row: BalanceRow)
    requires UniqueKeys(rows) && row in rows
    ensures HasKey(rows, row.key) && AmountOf(rows, row.key) == row.amount
  {
    if rows[0] != row {
      UniqueTail(rows);
      RowAmount(rows[1..], row);
      var i :| 0 <= i < |rows| && rows[i] == row;
      assert rows[0].key != rows[i].key;
    }
  }

  /** A completed pass leaves zero at every key that was due and the old amount at every other. */
  lemma PaidBalancesAreZero(b: Books, cfg: Config, sendOrder: seq<string>, node: Node, key: Key)
    requires ValidPass(b, cfg, sendOrder) && UniqueKeys(b.balances)
    requires forall i, j :: 0 <= i < j < |cfg.order| ==> cfg.order[i] != cfg.order[j]
    requires Pass(b, cfg, sendOrder, node, NoPayFault).result.Ok?
    ensures var due := Collect(b.balances, cfg, cfg.order).value;
      AmountOf(Pass(b, cfg, sendOrder, node, NoPayFault).books.balances, key)
        == if PaysKey(due, 0, key) then 0.0 else AmountOf(b.balances, key)
  {
    var due := Collect(b.balances, cfg, cfg.order).value;
    CollectedOfPool(b.balances, cfg, cfg.order);
    CollectDistinct(b.balances, cfg, cfg.order);
    CollectDueRows(b.balances, cfg, cfg.order);
    AllSendsSucceed(due, sendOrder, node);
    forall k | 0 <= k < |due|
      ensures HasKey(b.balances, due[k].key) && AmountOf(b.balances, due[k].key) == due[k].amount
    {
      assert due[k] in due;
      RowAmount(b.balances, due[k]);
    }
    RecordFromZeroes(b, due, cfg, node, 0, key);
  }

  // ---------- a completed pass, row by row ----------

  lemma {:induction false} RecordFromKeys(b: Books, rows: seq<BalanceRow>, cfg: Config, node: Node, i: nat)
    requires AllResolve(rows, cfg) && OfPool(rows, cfg.pool) && i <= |rows|
    requires forall k :: 0 <= k < |rows| ==> node(rows[k].key.chain).Some? && HasKey(b.balances, rows[k].key)
    ensures var out := RecordFrom(b, rows, cfg, node, NoPayFault, i).0.balances;
      |out| == |b.balances| && forall k :: 0 <= k < |out| ==> out[k].key == b.balances[k].key
    decreases |rows| - i
  {
    if i < |rows| {
      var address, confirmation := Resolved(rows[i], cfg), node(rows[i].key.chain).value;
      var next := RecordOne(b, rows[i], cfg.pool, address, confirmation, NoFault);
      forall k | 0 <= k < |rows| ensures HasKey(next.balances, rows[k].key) {
        AmountAfterOne(b, rows[i], address, confirmation, rows[k].key);
      }
      RecordFromKeys(next, rows, cfg, node, i + 1);
    }
  }

  /** The collected rows are in the table. */
  lemma DueInTable(b: Books, cfg: Config)
    requires UniqueKeys(b.balances) && Collect(b.balances, cfg, cfg.order).Ok?
    ensures forall k :: 0 <= k < |DueRows(b, cfg)| ==> HasKey(b.balances, DueRows(b, cfg)[k].key)
  {
    var due := Collect(b.balances, cfg, cfg.order).value;
    CollectDueRows(b.balances, cfg, cfg.order);
    forall k | 0 <= k < |due| ensures HasKey(b.balances, due[k].key) {
      assert due[k] in due;
      RowAmount(b.balances, due[k]);
    }
  }

  /**
   * A completed pass, row by row: a row of the pool on a listed chain that reaches the miner's own threshold, or the
   * chain's minimum without one, ends at zero; every other row is as it was.
   */
  lemma CompletedPassRows(b: Books, cfg: Config, sendOrder: seq<string>, node: Node)
    requires ValidPass(b, cfg, sendOrder) && UniqueKeys(b.balances)
    requires forall i, j :: 0 <= i < j < |cfg.order| ==> cfg.order[i] != cfg.order[j]
    requires Pass(b, cfg, sendOrder, node, NoPayFault).result.Ok?
    ensures forall chain :: chain in cfg.order ==> chain in cfg.minimums
    ensures var out := Pass(b, cfg, sendOrder, node, NoPayFault).books.balances;
      && |out| == |b.balances|
      && forall i :: 0 <= i < |out| ==>
        var row := b.balances[i];
        out[i] ==
          if row.key.pool == cfg.pool && row.key.chain in cfg.order
            && row.amount >= (if (cfg.pool, row.key.address) in cfg.thresholds
                              then cfg.thresholds[(cfg.pool, row.key.address)] else cfg.minimums[row.key.chain])
          then BalanceRow(row.key, 0.0) else row
  {
    assert Collect(b.balances, cfg, cfg.order) == Ok(DueRows(b, cfg));
    hide Collect, Pass, Due;
    CollectDueRows(b.balances, cfg, cfg.order);
    PassKeepsKeys(b, cfg, sendOrder, node);
    var out := Pass(b, cfg, sendOrder, node, NoPayFault).books.balances;
    forall i | 0 <= i < |out| ensures out[i] ==
      if b.balances[i] in DueRows(b, cfg) then BalanceRow(b.balances[i].key, 0.0) else b.balances[i]
    {
      RowAfterPass(b, cfg, sendOrder, node, i);
    }
  }

  /** A pass neither adds nor moves rows. */
  lemma PassKeepsKeys(b: Books, cfg: Config, sendOrder: seq<string>, node: Node)
    requires ValidPass(b, cfg, sendOrder) && UniqueKeys(b.balances)
    requires Pass(b, cfg, sendOrder, node, NoPayFault).result.Ok?
    ensures var out := Pass(b, cfg, sendOrder, node, NoPayFault).books.balances;
      UniqueKeys(out) && |out| == |b.balances| && forall k :: 0 <= k < |out| ==> out[k].key == b.balances[k].key
  {
    var due := DueRows(b, cfg);
    CollectedOfPool(b.balances, cfg, cfg.order);
    DueInTable(b, cfg);
    AllSendsSucceed(due, sendOrder, node);
    RecordFromKeys(b, due, cfg, node, 0);
  }

  lemma RowAfterPass(b: Books, cfg: Config, sendOrder: seq<string>, node: Node, i: nat)
    requires ValidPass(b, cfg, sendOrder) && UniqueKeys(b.balances) && i < |b.balances|
    requires forall i, j :: 0 <= i < j < |cfg.order| ==> cfg.order[i] != cfg.order[j]
    requires Pass(b, cfg, sendOrder, node, NoPayFault).result.Ok?
    ensures var out := Pass(b, cfg, sendOrder, node, NoPayFault).books.balances;
      && |out| == |b.balances|
      && out[i] == if b.balances[i] in DueRows(b, cfg) then BalanceRow(b.balances[i].key, 0.0) else b.balances[i]
  {
    var out, row := Pass(b, cfg, sendOrder, node, NoPayFault).books.balances, b.balances[i];
    assert DueRows(b, cfg) == Collect(b.balances, cfg, cfg.order).value;
    PassKeepsKeys(b, cfg, sendOrder, node);
    CollectDueRows(b.balances, cfg, cfg.order);
    PaidBalancesAreZero(b, cfg, sendOrder, node, row.key);
    hide Pass, Collect, Due, GetBalance;
    assert out[i] in out;
    RowAmount(out, out[i]);
    RowAmount(b.balances, row);
    DueKey(b.balances, DueRows(b, cfg), i);
  }

  /** Among rows of the table, the key says which row it is. */
  lemma DueKey(rows: seq<BalanceRow>, due: seq<BalanceRow>, i: nat)
    requires UniqueKeys(rows) && i < |rows| && forall row :: row in due ==> row in rows
    ensures PaysKey(due, 0, rows[i].key) <==> rows[i] in due
  {
    if PaysKey(due, 0, rows[i].key) {
      var k :| 0 <= k < |due| && due[k].key == rows[i].key;
      assert due[k] in due;
      var j :| 0 <= j < |rows| && rows[j] == due[k];
    }
  }

  /** What recording adds: one payment and one negative change a row, in their order. */
  lemma {:induction false} RecordFromAdds(b: Books, rows: seq<BalanceRow>, cfg: Config, node: Node, i: nat)
    requires AllResolve(rows, cfg) && OfPool(rows, cfg.pool) && i <= |rows|
    requires forall k :: 0 <= k < |rows| ==> node(rows[k].key.chain).Some?
    ensures var out := RecordFrom(b, rows, cfg, node, NoPayFault, i).0;
      Recorded(b, out, rows[i..], cfg, node)
    decreases |rows| - i
  {
    if i < |rows| {
      var next := RecordOne(b, rows[i], cfg.pool, Resolved(rows[i], cfg), node(rows[i].key.chain).value, NoFault);
      RecordFromAdds(next, rows, cfg, node, i + 1);
      var out := RecordFrom(next, rows, cfg, node, NoPayFault, i + 1).0;
      assert rows[i..] == [rows[i]] + rows[i + 1..];
      RecordedCons(b, next, out, rows[i], rows[i + 1..], cfg, node);
    }
  }

  /**
   * A payment for each row to the address of its login, of its amount and with the transaction of its chain, and a
   * change that takes the amount off its balance; nothing before them is touched.
   */
  predicate Recorded(before: Books, after: Books, rows: seq<BalanceRow>, cfg: Config, node: Node) {
    && before.payments <= after.payments && |after.payments| == |before.payments| + |rows|
    && before.changes <= after.changes && |after.changes| == |before.changes| + |rows|
    && forall k :: 0 <= k < |rows| ==>
      RecordedAs(rows[k], after.payments[|before.payments| + k], after.changes[|before.changes| + k], cfg, node)
  }

  predicate RecordedAs(row: BalanceRow, payment: Payment, change: Change, cfg: Config, node: Node) {
    var address := Resolve(cfg.order, row.key.chain, row.key.address);
    && address.Ok? && node(row.key.chain).Some?
    && payment == Payment(row.key.pool, row.key.chain, address.value, row.amount, node(row.key.chain).value)
    && change == Change(row.key, -row.amount, Paid)
  }

  lemma RecordedCons(b: Books, next: Books, out: Books, row: BalanceRow, rest: seq<BalanceRow>, cfg: Config, node: Node)
    requires Resolve(cfg.order, row.key.chain, row.key.address).Ok? && row.key.pool == cfg.pool
    requires node(row.key.chain).Some?
    requires next == RecordOne(b, row, cfg.pool, Resolved(row, cfg), node(row.key.chain).value, NoFault)
    requires Recorded(next, out, rest, cfg, node)
    ensures Recorded(b, out, [row] + rest, cfg, node)
  {
    hide Resolve, GetBalance, UpdateRows, RecordedAs;
    RecordOneAdds(b, row, cfg, node);
    var rows := [row] + rest;
    forall k | 0 <= k < |rows|
      ensures RecordedAs(rows[k], out.payments[|b.payments| + k], out.changes[|b.changes| + k], cfg, node)
    {
      if k > 0 {
        assert rows[k] == rest[k - 1];
        assert |b.payments| + k == |next.payments| + (k - 1) && |b.changes| + k == |next.changes| + (k - 1);
      } else {
        assert out.payments[|b.payments|] == next.payments[|b.payments|];
        assert out.changes[|b.changes|] == next.changes[|b.changes|];
      }
    }
  }

  lemma RecordOneAdds(b: Books, row: BalanceRow, cfg: Config, node: Node)
    requires Resolve(cfg.order, row.key.chain, row.key.address).Ok? && row.key.pool == cfg.pool
    requires node(row.key.chain).Some?
    ensures var next := RecordOne(b, row, cfg.pool, Resolved(row, cfg), node(row.key.chain).value, NoFault);
      exists payment, change ::
        RecordedAs(row, payment, change, cfg, node)
        && next.payments == b.payments + [payment] && next.changes == b.changes + [change]
  {
    hide Resolve, GetBalance, UpdateRows;
    var payment := Payment(row.key.pool, row.key.chain, Resolved(row, cfg), row.amount, node(row.key.chain).value);
    assert RecordedAs(row, payment, Change(row.key, -row.amount, Paid), cfg, node);
  }

  /** A completed pass records exactly the balances it collected. */
  lemma CompletedPassRecords(b: Books, cfg: Config, sendOrder: seq<string>, node: Node)
    requires ValidPass(b, cfg, sendOrder) && Pass(b, cfg, sendOrder, node, NoPayFault).result.Ok?
    ensures Recorded(b, Pass(b, cfg, sendOrder, node, NoPayFault).books, DueRows(b, cfg), cfg, node)
  {
    var due := DueRows(b, cfg);
    CollectedOfPool(b.balances, cfg, cfg.order);
    AllSendsSucceed(due, sendOrder, node);
    RecordFromAdds(b, due, cfg, node, 0);
    TakeAll(due);
  }

  // ---------- what is sent against what is recorded ----------

  function RowTotal(rows: seq<BalanceRow>, chain: string): real {
    if rows == [] then 0.0
    else (if rows[0].key.chain == chain then rows[0].amount else 0.0) + RowTotal(rows[1..], chain)
  }

  predicate GoesTo(rows: seq<BalanceRow>, cfg: Config, chain: string, a: string)
    requires AllResolve(rows, cfg)
  {
    exists i :: 0 <= i < |rows| && rows[i].key.chain == chain && Resolved(rows[i], cfg) == a
  }

  /** The balances of a chain whose address a later balance takes over, so that they are not sent. */
  function Overwritten(rows: seq<BalanceRow>, cfg: Config, chain: string): real
    requires AllResolve(rows, cfg)
  {
    if rows == [] then 0.0
    else
      assert AllResolve(rows[1..], cfg);
      (if rows[0].key.chain == chain && GoesTo(rows[1..], cfg, chain, Resolved(rows[0], cfg)) then rows[0].amount else 0.0)
        + Overwritten(rows[1..], cfg, chain)
  }

  /** Two balances of the chain go to one address. */
  predicate Collide(x: BalanceRow, y: BalanceRow, cfg: Config, chain: string)
    requires Resolve(cfg.order, x.key.chain, x.key.address).Ok? && Resolve(cfg.order, y.key.chain, y.key.address).Ok?
  {
    x.key.chain == chain && y.key.chain == chain && Resolved(x, cfg) == Resolved(y, cfg)
  }

  /** No two balances of one chain go to one address. */
  predicate DistinctAddresses(rows: seq<BalanceRow>, cfg: Config, chain: string)
    requires AllResolve(rows, cfg)
  {
    forall i, j :: 0 <= i < j < |rows| ==> !Collide(rows[i], rows[j], cfg, chain)
  }

  /** A balance whose address a later one takes over is zero. */
  predicate OverwritesOnlyZeros(rows: seq<BalanceRow>, cfg: Config, chain: string)
    requires AllResolve(rows, cfg)
  {
    forall i, j :: 0 <= i < j < |rows| && Collide(rows[i], rows[j], cfg, chain) ==> rows[i].amount == 0.0
  }

  predicate NotNegative(rows: seq<BalanceRow>) {
    forall i :: 0 <= i < |rows| ==> rows[i].amount >= 0.0
  }

  predicate Positive(rows: seq<BalanceRow>) {
    forall i :: 0 <= i < |rows| ==> rows[i].amount > 0.0
  }

  /** The output map seen from the front: a balance counts unless a later one takes its address. */
  lemma {:induction false} OutputsCons(x: BalanceRow, rest: seq<BalanceRow>, cfg: Config, chain: string)
    requires AllResolve([x] + rest, cfg) && AllResolve(rest, cfg) && Resolve(cfg.order, x.key.chain, x.key.address).Ok?
    ensures var m := OutputsFor(rest, cfg, chain);
      OutputsFor([x] + rest, cfg, chain)
        == if x.key.chain == chain && Resolved(x, cfg) !in m then m[Resolved(x, cfg) := x.amount] else m
    decreases |rest|
  {
    hide Resolve;
    if rest == [] {
      OutputsNext([], x, cfg, chain);
      ConcatEmpty([x]);
    } else {
      var n := |rest| - 1;
      TakeNext(rest, n);
      TakeAll(rest);
      ConcatAssoc([x], rest[..n], [rest[n]]);
      assert forall i :: 0 <= i < |rest| ==> ([x] + rest[..n])[i] == ([x] + rest)[i];
      OutputsCons(x, rest[..n], cfg, chain);
      OutputsNext(rest[..n], rest[n], cfg, chain);
      OutputsNext([x] + rest[..n], rest[n], cfg, chain);
    }
  }

  lemma GoesToCons(x: BalanceRow, rest: seq<BalanceRow>, cfg: Config, chain: string, a: string)
    requires AllResolve([x] + rest, cfg) && AllResolve(rest, cfg) && Resolve(cfg.order, x.key.chain, x.key.address).Ok?
    ensures GoesTo([x] + rest, cfg, chain, a)
      <==> (x.key.chain == chain && Resolved(x, cfg) == a) || GoesTo(rest, cfg, chain, a)
  {
    var all := [x] + rest;
    if GoesTo(rest, cfg, chain, a) {
      var i :| 0 <= i < |rest| && rest[i].key.chain == chain && Resolved(rest[i], cfg) == a;
      assert all[i + 1] == rest[i];
    }
    if GoesTo(all, cfg, chain, a) {
      var i :| 0 <= i < |all| && all[i].key.chain == chain && Resolved(all[i], cfg) == a;
      assert i > 0 ==> rest[i - 1] == all[i];
    }
    assert all[0] == x;
  }

  /** The addresses paid are exactly those some balance resolves to. */
  lemma {:induction false} OutputAddresses(rows: seq<BalanceRow>, cfg: Config, chain: string, a: string)
    requires AllResolve(rows, cfg)
    ensures a in OutputsFor(rows, cfg, chain) <==> GoesTo(rows, cfg, chain, a)
  {
    if rows != [] {
      ConsBack(rows);
      assert AllResolve(rows[1..], cfg);
      OutputAddresses(rows[1..], cfg, chain, a);
      OutputsCons(rows[0], rows[1..], cfg, chain);
      GoesToCons(rows[0], rows[1..], cfg, chain, a);
    }
  }

  /**
   * What `SendMany` gets for a chain, and what is lost because an address was taken over, are together the balances of
   * that chain.
   */
  lemma {:induction false} SendManyTotal(rows: seq<BalanceRow>, cfg: Config, chain: string)
    requires AllResolve(rows, cfg)
    ensures MapTotal(OutputsFor(rows, cfg, chain)) + Overwritten(rows, cfg, chain) == RowTotal(rows, chain)
  {
    if rows != [] {
      var x, rest := rows[0], rows[1..];
      ConsBack(rows);
      assert AllResolve(rest, cfg);
      SendManyTotal(rest, cfg, chain);
      OutputsCons(x, rest, cfg, chain);
      OutputAddresses(rest, cfg, chain, Resolved(x, cfg));
      MapTotalPut(OutputsFor(rest, cfg, chain), Resolved(x, cfg), x.amount);
    }
  }

  lemma OverwritesCons(x: BalanceRow, rest: seq<BalanceRow>, cfg: Config, chain: string)
    requires AllResolve([x] + rest, cfg) && AllResolve(rest, cfg) && Resolve(cfg.order, x.key.chain, x.key.address).Ok?
    ensures OverwritesOnlyZeros([x] + rest, cfg, chain) <==>
      (x.key.chain == chain && GoesTo(rest, cfg, chain, Resolved(x, cfg)) ==> x.amount == 0.0)
      && OverwritesOnlyZeros(rest, cfg, chain)
  {
    var all := [x] + rest;
    assert forall i :: 0 <= i < |rest| ==> all[i + 1] == rest[i];
    assert all[0] == x;
    if OverwritesOnlyZeros(all, cfg, chain) {
      forall i, j | 0 <= i < j < |rest| && Collide(rest[i], rest[j], cfg, chain) ensures rest[i].amount == 0.0 {
        assert Collide(all[i + 1], all[j + 1], cfg, chain);
      }
      if x.key.chain == chain && GoesTo(rest, cfg, chain, Resolved(x, cfg)) {
        var j :| 0 <= j < |rest| && rest[j].key.chain == chain && Resolved(rest[j], cfg) == Resolved(x, cfg);
        assert Collide(all[0], all[j + 1], cfg, chain);
      }
    }
  }

  /** Without negative balances nothing is lost exactly when only zeros are taken over. */
  lemma {:induction false} NothingLostIff(rows: seq<BalanceRow>, cfg: Config, chain: string)
    requires AllResolve(rows, cfg) && NotNegative(rows)
    ensures Overwritten(rows, cfg, chain) >= 0.0
    ensures Overwritten(rows, cfg, chain) == 0.0 <==> OverwritesOnlyZeros(rows, cfg, chain)
  {
    if rows != [] {
      ConsBack(rows);
      assert AllResolve(rows[1..], cfg);
      NothingLostIff(rows[1..], cfg, chain);
      OverwritesCons(rows[0], rows[1..], cfg, chain);
    }
  }

  /** With positive balances that means distinct addresses. */
  lemma PositiveDistinct(rows: seq<BalanceRow>, cfg: Config, chain: string)
    requires AllResolve(rows, cfg) && Positive(rows)
    ensures OverwritesOnlyZeros(rows, cfg, chain) <==> DistinctAddresses(rows, cfg, chain)
  {
  }

  lemma FirstOfTwo(order: seq<string>, a: string, b: string)
    requires |order| > 1 && '-' !in a && '-' !in b
    ensures Resolve(order, order[0], a + ("-" + b)) == Ok(a)
  {
    SplitPrefix(a, b);
    SplitPrefix(b, "");
    FirstIndex(order, order[0], 0);
  }

  /** Two logins that share their litecoin address: two coins are owed and recorded, one is sent. */
  lemma SharedAddressUnderpays()
    ensures var cfg := Config("pool", ["ltc", "doge"], map["ltc" := 1.0, "doge" := 1.0], map[]);
      var rows := [BalanceRow(Key("pool", "ltc", "x-y"), 1.0), BalanceRow(Key("pool", "ltc", "x-z"), 1.0)];
      && AllResolve(rows, cfg) && RowTotal(rows, "ltc") == 2.0
      && OutputsFor(rows, cfg, "ltc") == map["x" := 1.0] && MapTotal(OutputsFor(rows, cfg, "ltc")) == 1.0
  {
    var cfg := Config("pool", ["ltc", "doge"], map["ltc" := 1.0, "doge" := 1.0], map[]);
    var first, second := BalanceRow(Key("pool", "ltc", "x-y"), 1.0), BalanceRow(Key("pool", "ltc", "x-z"), 1.0);
    var rows := [first, second];
    FirstOfTwo(cfg.order, "x", "y");
    FirstOfTwo(cfg.order, "x", "z");
    assert "x" + ("-" + "y") == "x-y" && "x" + ("-" + "z") == "x-z";
    hide Resolve;
    assert rows[..1] == [first] && rows[..1][..0] == [];
    assert OutputsFor(rows[..1], cfg, "ltc") == map["x" := 1.0];
    assert rows[1..] == [second] && rows[1..][1..] == [];
    assert RowTotal(rows[1..], "ltc") == 1.0;
    MapTotalPut(map[], "x", 1.0);
    assert map[]["x" := 1.0] == map["x" := 1.0];
  }

  /** What left the wallet for a chain. */
  ghost function SentTotal(sent: seq<Sent>, chain: string): real {
    if sent == [] then 0.0
    else
      var n := |sent| - 1;
      SentTotal(sent[..n], chain) + if sent[n].chain == chain then MapTotal(sent[n].outputs) else 0.0
  }

  lemma {:induction false} SentTotalAppend(a: seq<Sent>, b: seq<Sent>, chain: string)
    ensures SentTotal(a + b, chain) == SentTotal(a, chain) + SentTotal(b, chain)
  {
    if b == [] {
      ConcatEmpty(a);
    } else {
      var n := |b| - 1;
      assert (a + b)[..|a + b| - 1] == a + b[..n];
      SentTotalAppend(a, b[..n], chain);
    }
  }

  /** Among the first `n` sends, a chain appears once or not at all. */
  lemma {:induction false} SentOnce(rows: seq<BalanceRow>, cfg: Config, sendOrder: seq<string>, node: Node, n: nat,
    chain: string)
    requires AllResolve(rows, cfg) && n <= Successes(sendOrder, node)
    requires forall i, j :: 0 <= i < j < |sendOrder| ==> sendOrder[i] != sendOrder[j]
    ensures SentTotal(SentBy(rows, cfg, sendOrder, node, n), chain)
         == if chain in sendOrder[..n] then MapTotal(OutputsFor(rows, cfg, chain)) else 0.0
  {
    if n > 0 {
      SentOnce(rows, cfg, sendOrder, node, n - 1, chain);
      var sent := SentBy(rows, cfg, sendOrder, node, n);
      assert sent[..n - 1] == SentBy(rows, cfg, sendOrder, node, n - 1);
      TakeNext(sendOrder, n - 1);
    }
  }

  /** How many of `n` payments are recorded when this statement fails; a failing reset comes after its payment. */
  function RecordedRows(fault: PayFault, n: nat): (k: nat)
    ensures k <= n
  {
    match fault
    case NoPayFault => n
    case PaymentFails(at) => if at < n then at else n
    case ResetFails(at, f) => if f != NoFault && at < n then at + 1 else n
  }

  lemma RowTotalSlice(rows: seq<BalanceRow>, i: nat, k: nat, chain: string)
    requires i < k <= |rows|
    ensures RowTotal(rows[i..k], chain)
      == (if rows[i].key.chain == chain then rows[i].amount else 0.0) + RowTotal(rows[i + 1..k], chain)
  {
    assert rows[i..k][1..] == rows[i + 1..k];
  }

  lemma {:induction false} RowTotalSplit(rows: seq<BalanceRow>, k: nat, chain: string)
    requires k <= |rows|
    ensures RowTotal(rows, chain) == RowTotal(rows[..k], chain) + RowTotal(rows[k..], chain)
  {
    if k > 0 {
      RowTotalSplit(rows[1..], k - 1, chain);
      assert rows[1..][..k - 1] == rows[..k][1..] && rows[1..][k - 1..] == rows[k..];
    } else {
      TakeAll(rows);
    }
  }

  lemma RecordOnePayment(b: Books, row: BalanceRow, address: string, confirmation: string, f: Fault, chain: string)
    ensures PaymentTotal(RecordOne(b, row, row.key.pool, address, confirmation, f).payments, row.key.pool, chain)
      == PaymentTotal(b.payments, row.key.pool, chain) + if row.key.chain == chain then row.amount else 0.0
  {
    PaymentTotalAppend(b.payments, Payment(row.key.pool, row.key.chain, address, row.amount, confirmation),
      row.key.pool, chain);
  }

  /** From row `i` on, the payments recorded are those of the rows reached before the fault. */
  lemma {:induction false} RecordFromPayments(b: Books, rows: seq<BalanceRow>, cfg: Config, node: Node, fault: PayFault,
    i: nat, chain: string)
    requires AllResolve(rows, cfg) && OfPool(rows, cfg.pool) && i <= RecordedRows(fault, |rows|)
    requires forall k :: 0 <= k < |rows| ==> node(rows[k].key.chain).Some?
    requires fault.ResetFails? && fault.fault != NoFault ==> i <= fault.at
    ensures PaymentTotal(RecordFrom(b, rows, cfg, node, fault, i).0.payments, cfg.pool, chain)
         == PaymentTotal(b.payments, cfg.pool, chain) + RowTotal(rows[i..RecordedRows(fault, |rows|)], chain)
    decreases |rows| - i
  {
    var k := RecordedRows(fault, |rows|);
    if i < |rows| && fault != PaymentFails(i) {
      var address, confirmation := Resolved(rows[i], cfg), node(rows[i].key.chain).value;
      var f := ResetFault(fault, i);
      RecordOnePayment(b, rows[i], address, confirmation, f, chain);
      RowTotalSlice(rows, i, k, chain);
      if f == NoFault {
        RecordFromPayments(RecordOne(b, rows[i], cfg.pool, address, confirmation, f), rows, cfg, node, fault, i + 1, chain);
      } else {
        assert rows[i + 1..k] == [];
      }
    } else {
      assert rows[i..k] == [];
    }
  }

  lemma {:induction false} NoRows(rows: seq<BalanceRow>, chain: string)
    requires chain !in ChainsOf(rows)
    ensures RowTotal(rows, chain) == 0.0
  {
    if rows != [] {
      assert rows[0].key.chain in ChainsOf(rows);
      assert ChainsOf(rows[1..]) <= ChainsOf(rows) by {
        assert forall i :: 0 <= i < |rows[1..]| ==> rows[1..][i] == rows[i + 1];
      }
      NoRows(rows[1..], chain);
    }
  }

  /** The balances a pass would pay; none when it stops before sending. */
  function DueRows(b: Books, cfg: Config): (due: seq<BalanceRow>)
    ensures AllResolve(due, cfg)
  {
    if Sendable(b, cfg) then Collect(b.balances, cfg, cfg.order).value else []
  }

  /** How many sends of a pass go out; none when it stops before. */
  function Sends(b: Books, cfg: Config, sendOrder: seq<string>, node: Node): (n: nat)
    ensures n <= |sendOrder|
  {
    if Sendable(b, cfg) then Successes(sendOrder, node) else 0
  }

  ghost function RecordedBy(b: Books, pass: Outcome, pool: string, chain: string): real {
    PaymentTotal(pass.books.payments, pool, chain) - PaymentTotal(b.payments, pool, chain)
  }

  /**
   * The accounts of one pass, for every answer of the nodes and every failing statement: what is sent for a chain is
   * its balances less those taken over, if the sends got that far; what is recorded is the rows reached, if all sends
   * went out.
   */
  lemma PassAccounts(b: Books, cfg: Config, sendOrder: seq<string>, node: Node, fault: PayFault, chain: string)
    requires ValidPass(b, cfg, sendOrder)
    ensures var due := DueRows(b, cfg);
      var n := Sends(b, cfg, sendOrder, node);
      var pass := Pass(b, cfg, sendOrder, node, fault);
      && SentTotal(pass.sent, chain)
        == (if chain in sendOrder[..n] then RowTotal(due, chain) - Overwritten(due, cfg, chain) else 0.0)
      && RecordedBy(b, pass, cfg.pool, chain)
        == (if n < |sendOrder| then 0.0 else RowTotal(due[..RecordedRows(fault, |due|)], chain))
  {
    if Sendable(b, cfg) {
      var due, n := DueRows(b, cfg), Successes(sendOrder, node);
      SendManyTotal(due, cfg, chain);
      SentOnce(due, cfg, sendOrder, node, n, chain);
      if n == |sendOrder| {
        AllSendsSucceed(due, sendOrder, node);
        CollectedOfPool(b.balances, cfg, cfg.order);
        RecordFromPayments(b, due, cfg, node, fault, 0, chain);
      }
    }
  }

  /** For every chain, what left the wallet is what was recorded. */
  ghost predicate SentIsRecorded(b: Books, pass: Outcome, pool: string) {
    forall chain :: SentTotal(pass.sent, chain) == RecordedBy(b, pass, pool, chain)
  }

  /** All outputs of the chain are zero. */
  predicate WorthNothing(rows: seq<BalanceRow>, cfg: Config, chain: string)
    requires AllResolve(rows, cfg)
  {
    AllZero(OutputsFor(rows, cfg, chain))
  }

  predicate AllZero(m: map<string, real>) {
    forall k :: k in m ==> m[k] == 0.0
  }

  lemma AllZeroRemove(m: map<string, real>, k: string)
    requires k in m
    ensures AllZero(m) <==> m[k] == 0.0 && AllZero(m - {k})
  {
    if AllZero(m - {k}) && m[k] == 0.0 {
      forall j | j in m ensures m[j] == 0.0 {
        assert j != k ==> j in m - {k};
      }
    }
  }

  lemma {:induction false} MapTotalZeroIff(m: map<string, real>)
    requires forall k :: k in m ==> m[k] >= 0.0
    ensures MapTotal(m) >= 0.0 && (MapTotal(m) == 0.0 <==> AllZero(m))
    decreases |m|
  {
    if m != map[] {
      var k :| k in m;
      MapTotalRemove(m, k);
      MapTotalZeroIff(m - {k});
      AllZeroRemove(m, k);
    }
  }

  lemma {:induction false} OutputsNotNegative(rows: seq<BalanceRow>, cfg: Config, chain: string, a: string)
    requires AllResolve(rows, cfg) && NotNegative(rows) && a in OutputsFor(rows, cfg, chain)
    ensures OutputsFor(rows, cfg, chain)[a] >= 0.0
    ensures Positive(rows) ==> OutputsFor(rows, cfg, chain)[a] > 0.0
  {
    var n := |rows| - 1;
    assert AllResolve(rows[..n], cfg);
    if a in OutputsFor(rows[..n], cfg, chain) {
      OutputsNotNegative(rows[..n], cfg, chain, a);
    }
  }

  lemma WorthNothingIff(rows: seq<BalanceRow>, cfg: Config, chain: string)
    requires AllResolve(rows, cfg) && NotNegative(rows)
    ensures MapTotal(OutputsFor(rows, cfg, chain)) == 0.0 <==> WorthNothing(rows, cfg, chain)
  {
    forall a | a in OutputsFor(rows, cfg, chain) ensures OutputsFor(rows, cfg, chain)[a] >= 0.0 {
      OutputsNotNegative(rows, cfg, chain, a);
    }
    MapTotalZeroIff(OutputsFor(rows, cfg, chain));
  }

  lemma ChainsSent(b: Books, cfg: Config, sendOrder: seq<string>, chain: string)
    requires ValidPass(b, cfg, sendOrder) && Sendable(b, cfg) && chain !in sendOrder
    ensures RowTotal(DueRows(b, cfg), chain) == 0.0 && OutputsFor(DueRows(b, cfg), cfg, chain) == map[]
    ensures Overwritten(DueRows(b, cfg), cfg, chain) == 0.0
  {
    var due := DueRows(b, cfg);
    assert chain !in ChainsOf(due);
    NoRows(due, chain);
    NoOutputs(due, cfg, chain);
    SendManyTotal(due, cfg, chain);
    assert MapTotal(map[]) == 0.0;
  }

  /** What the amounts must be: a stopped pass sent nothing in total on any chain, a complete one lost nothing. */
  ghost predicate AmountsAgree(b: Books, cfg: Config, sendOrder: seq<string>, node: Node) {
    var due, n := DueRows(b, cfg), Sends(b, cfg, sendOrder, node);
    if n < |sendOrder| then
      forall i :: 0 <= i < n ==> RowTotal(due, sendOrder[i]) == Overwritten(due, cfg, sendOrder[i])
    else
      forall chain :: Overwritten(due, cfg, chain) == 0.0
  }

  lemma StoppedPassIff(b: Books, cfg: Config, sendOrder: seq<string>, node: Node)
    requires ValidPass(b, cfg, sendOrder) && Sends(b, cfg, sendOrder, node) < |sendOrder|
    ensures SentIsRecorded(b, Pass(b, cfg, sendOrder, node, NoPayFault), cfg.pool)
      <==> AmountsAgree(b, cfg, sendOrder, node)
  {
    var due, n := DueRows(b, cfg), Sends(b, cfg, sendOrder, node);
    var pass := Pass(b, cfg, sendOrder, node, NoPayFault);
    forall chain ensures SentTotal(pass.sent, chain) == RecordedBy(b, pass, cfg.pool, chain)
      <==> (chain in sendOrder[..n] ==> RowTotal(due, chain) == Overwritten(due, cfg, chain))
    {
      PassAccounts(b, cfg, sendOrder, node, NoPayFault, chain);
    }
    forall i | 0 <= i < n ensures sendOrder[i] in sendOrder[..n] {
      assert sendOrder[..n][i] == sendOrder[i];
    }
  }

  /** What was taken over on this chain is what the fault left unrecorded. */
  predicate LostIsUnrecorded(b: Books, cfg: Config, fault: PayFault, chain: string) {
    var due := DueRows(b, cfg);
    Overwritten(due, cfg, chain) == RowTotal(due[RecordedRows(fault, |due|)..], chain)
  }

  lemma CompletePassIff(b: Books, cfg: Config, sendOrder: seq<string>, node: Node, fault: PayFault, chain: string)
    requires ValidPass(b, cfg, sendOrder) && Sends(b, cfg, sendOrder, node) == |sendOrder|
    ensures var pass := Pass(b, cfg, sendOrder, node, fault);
      SentTotal(pass.sent, chain) == RecordedBy(b, pass, cfg.pool, chain) <==> LostIsUnrecorded(b, cfg, fault, chain)
  {
    var due := DueRows(b, cfg);
    PassAccounts(b, cfg, sendOrder, node, fault, chain);
    RowTotalSplit(due, RecordedRows(fault, |due|), chain);
    TakeAll(sendOrder);
    if Sendable(b, cfg) && chain !in sendOrder {
      ChainsSent(b, cfg, sendOrder, chain);
    }
  }

  /**
   * Sent is recorded, exactly when, for all amounts and every answer of the nodes: a pass that stops early must have
   * sent nothing in total on any chain, and a complete one must have overwritten nothing in total.
   */
  lemma SentIsRecordedIff(b: Books, cfg: Config, sendOrder: seq<string>, node: Node)
    requires ValidPass(b, cfg, sendOrder)
    ensures SentIsRecorded(b, Pass(b, cfg, sendOrder, node, NoPayFault), cfg.pool)
      <==> AmountsAgree(b, cfg, sendOrder, node)
  {
    if Sends(b, cfg, sendOrder, node) < |sendOrder| {
      StoppedPassIff(b, cfg, sendOrder, node);
    } else {
      var due := DueRows(b, cfg);
      var pass := Pass(b, cfg, sendOrder, node, NoPayFault);
      forall chain ensures SentTotal(pass.sent, chain) == RecordedBy(b, pass, cfg.pool, chain)
        <==> Overwritten(due, cfg, chain) == 0.0
      {
        CompletePassIff(b, cfg, sendOrder, node, NoPayFault, chain);
        assert due[|due|..] == [];
      }
    }
  }

  /** Balance by balance: a stopped pass sent only zeros, a complete one overwrites only zeros. */
  ghost predicate PaysExactly(b: Books, cfg: Config, sendOrder: seq<string>, node: Node) {
    var due, n := DueRows(b, cfg), Sends(b, cfg, sendOrder, node);
    if n < |sendOrder| then forall i :: 0 <= i < n ==> WorthNothing(due, cfg, sendOrder[i])
    else forall chain :: OverwritesOnlyZeros(due, cfg, chain)
  }

  /** Without negative balances the amounts agree exactly when every single one does. */
  lemma NotNegativePassIff(b: Books, cfg: Config, sendOrder: seq<string>, node: Node)
    requires ValidPass(b, cfg, sendOrder) && NotNegative(DueRows(b, cfg))
    ensures SentIsRecorded(b, Pass(b, cfg, sendOrder, node, NoPayFault), cfg.pool)
      <==> PaysExactly(b, cfg, sendOrder, node)
  {
    var due := DueRows(b, cfg);
    SentIsRecordedIff(b, cfg, sendOrder, node);
    forall chain
      ensures RowTotal(due, chain) == Overwritten(due, cfg, chain) <==> WorthNothing(due, cfg, chain)
      ensures Overwritten(due, cfg, chain) == 0.0 <==> OverwritesOnlyZeros(due, cfg, chain)
    {
      SendManyTotal(due, cfg, chain);
      WorthNothingIff(due, cfg, chain);
      NothingLostIff(due, cfg, chain);
    }
  }

  /** With positive balances: nothing was sent, or everything was and no address is paid twice. */
  lemma PositivePassIff(b: Books, cfg: Config, sendOrder: seq<string>, node: Node)
    requires ValidPass(b, cfg, sendOrder) && Positive(DueRows(b, cfg)) && Sendable(b, cfg)
    ensures SentIsRecorded(b, Pass(b, cfg, sendOrder, node, NoPayFault), cfg.pool) <==>
      Sends(b, cfg, sendOrder, node) == 0
      || (Sends(b, cfg, sendOrder, node) == |sendOrder| && forall chain :: DistinctAddresses(DueRows(b, cfg), cfg, chain))
  {
    var due, n := DueRows(b, cfg), Sends(b, cfg, sendOrder, node);
    NotNegativePassIff(b, cfg, sendOrder, node);
    forall chain ensures OverwritesOnlyZeros(due, cfg, chain) <==> DistinctAddresses(due, cfg, chain) {
      PositiveDistinct(due, cfg, chain);
    }
    if sendOrder == [] {
      NoChainsNoRows(due, sendOrder);
    } else if n > 0 {
      SentHasValue(b, cfg, sendOrder, 0);
    }
  }

  lemma NoChainsNoRows(rows: seq<BalanceRow>, sendOrder: seq<string>)
    requires Enumerates(sendOrder, ChainsOf(rows))
    ensures rows != [] ==> sendOrder != []
  {
    if rows != [] {
      assert rows[0].key.chain in ChainsOf(rows);
      var j :| 0 <= j < |sendOrder| && sendOrder[j] == rows[0].key.chain;
    }
  }

  lemma SentHasValue(b: Books, cfg: Config, sendOrder: seq<string>, i: nat)
    requires ValidPass(b, cfg, sendOrder) && Sendable(b, cfg) && Positive(DueRows(b, cfg)) && i < |sendOrder|
    ensures !WorthNothing(DueRows(b, cfg), cfg, sendOrder[i])
  {
    var due, chain := DueRows(b, cfg), sendOrder[i];
    assert chain in ChainsOf(due);
    var k :| 0 <= k < |due| && due[k].key.chain == chain;
    var a := Resolved(due[k], cfg);
    assert GoesTo(due, cfg, chain, a);
    OutputAddresses(due, cfg, chain, a);
    OutputsNotNegative(due, cfg, chain, a);
  }

  /**
   * A complete pass in which a statement fails: sent is recorded for a chain exactly when what was taken over there
   * happens to be what the fault left unrecorded.
   */
  lemma FaultySentIsRecordedIff(b: Books, cfg: Config, sendOrder: seq<string>, node: Node, fault: PayFault)
    requires ValidPass(b, cfg, sendOrder) && Sends(b, cfg, sendOrder, node) == |sendOrder|
    ensures SentIsRecorded(b, Pass(b, cfg, sendOrder, node, fault), cfg.pool)
      <==> forall chain :: LostIsUnrecorded(b, cfg, fault, chain)
  {
    var pass := Pass(b, cfg, sendOrder, node, fault);
    forall chain ensures SentTotal(pass.sent, chain) == RecordedBy(b, pass, cfg.pool, chain)
      <==> LostIsUnrecorded(b, cfg, fault, chain)
    {
      CompletePassIff(b, cfg, sendOrder, node, fault, chain);
    }
  }

  /** With positive balances at distinct addresses, exactly when the fault came after the last payment. */
  lemma FaultyDistinctIff(b: Books, cfg: Config, sendOrder: seq<string>, node: Node, fault: PayFault)
    requires ValidPass(b, cfg, sendOrder) && Sends(b, cfg, sendOrder, node) == |sendOrder|
    requires Positive(DueRows(b, cfg)) && forall chain :: DistinctAddresses(DueRows(b, cfg), cfg, chain)
    ensures SentIsRecorded(b, Pass(b, cfg, sendOrder, node, fault), cfg.pool)
      <==> RecordedRows(fault, |DueRows(b, cfg)|) == |DueRows(b, cfg)|
  {
    var due := DueRows(b, cfg);
    var k := RecordedRows(fault, |due|);
    FaultySentIsRecordedIff(b, cfg, sendOrder, node, fault);
    forall chain ensures Overwritten(due, cfg, chain) == 0.0 {
      PositiveDistinct(due, cfg, chain);
      NothingLostIff(due, cfg, chain);
    }
    if k < |due| {
      TotalPositive(due[k..], due[k].key.chain);
      assert !LostIsUnrecorded(b, cfg, fault, due[k].key.chain);
    } else {
      assert due[k..] == [];
    }
  }

  lemma {:induction false} TotalPositive(rows: seq<BalanceRow>, chain: string)
    requires Positive(rows)
    ensures RowTotal(rows, chain) >= 0.0
    ensures rows != [] && rows[0].key.chain == chain ==> RowTotal(rows, chain) > 0.0
  {
    if rows != [] {
      TotalPositive(rows[1..], chain);
    }
  }

  /**
   * A completed pass records, for every chain, the total of the balances due there, and sends that total less the
   * balances taken over.
   */
  lemma SentEqualsRecorded(b: Books, cfg: Config, sendOrder: seq<string>, node: Node, chain: string)
    requires ValidPass(b, cfg, sendOrder) && Pass(b, cfg, sendOrder, node, NoPayFault).result.Ok?
    ensures var due := DueRows(b, cfg);
      var pass := Pass(b, cfg, sendOrder, node, NoPayFault);
      && RecordedBy(b, pass, cfg.pool, chain) == RowTotal(due, chain)
      && SentTotal(pass.sent, chain) == RowTotal(due, chain) - Overwritten(due, cfg, chain)
  {
    var due := DueRows(b, cfg);
    PassAccounts(b, cfg, sendOrder, node, NoPayFault, chain);
    TakeAll(due);
    TakeAll(sendOrder);
    if chain !in sendOrder {
      ChainsSent(b, cfg, sendOrder, chain);
    }
  }

  /**
   * A pass that stops at a later chain has already paid the earlier ones but recorded nothing, so the next complete
   * pass, in whatever order it takes the chains, pays them again: twice the amount leaves the wallet for one record.
   */
  lemma InterruptedPassPaysTwice(b: Books, cfg: Config, sendOrder: seq<string>, again: seq<string>, node: Node,
    later: Node, chain: string)
    requires ValidPass(b, cfg, sendOrder) && ValidPass(b, cfg, again) && Sendable(b, cfg)
    requires Successes(sendOrder, node) < |sendOrder| && chain in sendOrder[..Successes(sendOrder, node)]
    requires Successes(again, later) == |again|
    ensures var due := Collect(b.balances, cfg, cfg.order).value;
      var first := Pass(b, cfg, sendOrder, node, NoPayFault);
      var second := Pass(first.books, cfg, again, later, NoPayFault);
      && first.books == b && first.result == Err(SendFailed)
      && SentTotal(first.sent + second.sent, chain) == 2.0 * MapTotal(OutputsFor(due, cfg, chain))
      && PaymentTotal(second.books.payments, cfg.pool, chain)
        == PaymentTotal(b.payments, cfg.pool, chain) + RowTotal(due, chain)
  {
    var due := Collect(b.balances, cfg, cfg.order).value;
    var first := Pass(b, cfg, sendOrder, node, NoPayFault);
    var second := Pass(b, cfg, again, later, NoPayFault);
    PassAccounts(b, cfg, sendOrder, node, NoPayFault, chain);
    PassAccounts(b, cfg, again, later, NoPayFault, chain);
    SendManyTotal(due, cfg, chain);
    TakeAll(again);
    TakeAll(due);
    InBothOrders(sendOrder, again, ChainsOf(due), chain);
    SentTotalAppend(first.sent, second.sent, chain);
  }

  lemma InBothOrders(a: seq<string>, b: seq<string>, chains: set<string>, chain: string)
    requires Enumerates(a, chains) && Enumerates(b, chains) && chain in a
    ensures chain in b
  {
    assert chain in chains;
    var i :| 0 <= i < |b| && b[i] == chain;
  }

  // ---------- conservation when a statement fails ----------

  /** The one statement that breaks conservation: the reset of a balance that is not zero. */
  predicate BreaksConservation(rows: seq<BalanceRow>, fault: PayFault, chain: string) {
    && fault.ResetFails? && fault.fault != NoFault && fault.at < |rows|
    && rows[fault.at].amount != 0.0 && rows[fault.at].key.chain == chain
  }

  lemma {:induction false} RecordFromConservesIff(b: Books, rows: seq<BalanceRow>, cfg: Config, node: Node,
    fault: PayFault, i: nat, chain: string)
    requires AllResolve(rows, cfg) && OfPool(rows, cfg.pool) && i <= |rows|
    requires forall k :: 0 <= k < |rows| ==> node(rows[k].key.chain).Some?
    requires UniqueKeys(b.balances) && Conserved(b, cfg.pool, chain)
    requires fault.ResetFails? && fault.fault != NoFault ==> i <= fault.at
    ensures Conserved(RecordFrom(b, rows, cfg, node, fault, i).0, cfg.pool, chain) <==> !BreaksConservation(rows, fault, chain)
    decreases |rows| - i
  {
    if i < |rows| && fault != PaymentFails(i) {
      var address, confirmation := Resolved(rows[i], cfg), node(rows[i].key.chain).value;
      var f := ResetFault(fault, i);
      RecordOneConserves(b, rows[i], address, confirmation, f, cfg.pool, chain);
      if f == NoFault {
        RecordFromConservesIff(RecordOne(b, rows[i], cfg.pool, address, confirmation, f), rows, cfg, node, fault, i + 1,
          chain);
      }
    }
  }

  /** A pass conserves money exactly when no reset of a balance that is not zero fails behind its payment. */
  lemma FaultyPassConservesIff(b: Books, cfg: Config, sendOrder: seq<string>, node: Node, fault: PayFault, chain: string)
    requires ValidPass(b, cfg, sendOrder) && UniqueKeys(b.balances) && Conserved(b, cfg.pool, chain)
    ensures Conserved(Pass(b, cfg, sendOrder, node, fault).books, cfg.pool, chain) <==>
      !(Sends(b, cfg, sendOrder, node) == |sendOrder| && BreaksConservation(DueRows(b, cfg), fault, chain))
  {
    if Sendable(b, cfg) && Successes(sendOrder, node) == |sendOrder| {
      var due := DueRows(b, cfg);
      AllSendsSucceed(due, sendOrder, node);
      CollectedOfPool(b.balances, cfg, cfg.order);
      RecordFromConservesIff(b, due, cfg, node, fault, 0, chain);
    }
  }

  // ---------- what failing statements leave behind ----------

  /** What recording these rows leaves behind when a statement fails. */
  function PaySlips(rows: seq<BalanceRow>, fault: PayFault): Slips {
    if fault.ResetFails? && fault.fault != NoFault && fault.at < |rows| then
      Slips(Unbooked(ResetOf(rows[fault.at]), fault.fault), [rows[fault.at]])
    else NO_SLIPS
  }

  function ResetOf(row: BalanceRow): Change {
    Change(row.key, -row.amount, Paid)
  }

  lemma RecordOneBalanced(b: Books, s: Slips, row: BalanceRow, address: string, confirmation: string, fault: Fault)
    requires Balanced(b, s)
    ensures Balanced(RecordOne(b, row, row.key.pool, address, confirmation, fault),
      s.Plus(if fault == NoFault then NO_SLIPS else Slips(Unbooked(ResetOf(row), fault), [row])))
  {
    hide ChangeSum, CreditTotal, BalanceTotal, PaymentTotal, GetBalance;
    var payment := Payment(row.key.pool, row.key.chain, address, row.amount, confirmation);
    var paid := b.(payments := b.payments + [payment]);
    var out := RecordOne(b, row, row.key.pool, address, confirmation, fault);
    var left := s.Plus(if fault == NoFault then NO_SLIPS else Slips(Unbooked(ResetOf(row), fault), [row]));
    PlusNothing(s);
    forall k ensures KeyBalances(out, left, k) {
      assert KeyBalances(b, s, k);
      assert KeyBalances(paid, s, k);
      AddAmountKey(paid, s, row.key, Paid, -row.amount, fault, k);
    }
    AddAmountTotals(paid, row.key, Paid, -row.amount, row.key.pool, row.key.chain);
    forall pool, chain ensures TotalsBalance(out, left, pool, chain) {
      assert TotalsBalance(b, s, pool, chain);
      RecordOneTotals(b, s, row, address, confirmation, fault, pool, chain);
    }
  }

  lemma RecordOneTotals(b: Books, s: Slips, row: BalanceRow, address: string, confirmation: string, fault: Fault,
    pool: string, chain: string)
    requires UniqueKeys(b.balances) && TotalsBalance(b, s, pool, chain)
    ensures TotalsBalance(RecordOne(b, row, row.key.pool, address, confirmation, fault),
      s.Plus(if fault == NoFault then NO_SLIPS else Slips(Unbooked(ResetOf(row), fault), [row])), pool, chain)
  {
    hide GetBalance, UniqueKeys, UpdateRows;
    var payment := Payment(row.key.pool, row.key.chain, address, row.amount, confirmation);
    var paid := b.(payments := b.payments + [payment]);
    PlusNothing(s);
    ConcatEmpty(s.unbooked);
    PaymentTotalAppend(b.payments, payment, pool, chain);
    AddAmountTotals(paid, row.key, Paid, -row.amount, pool, chain);
    CreditTotalAppend(b.changes, ResetOf(row), pool, chain);
    CreditTotalAppend(s.unbooked, ResetOf(row), pool, chain);
    BalanceTotalInsert(s.unreset, row, pool, chain);
  }

  lemma {:induction false} RecordFromBalanced(b: Books, s: Slips, rows: seq<BalanceRow>, cfg: Config, node: Node,
    fault: PayFault, i: nat)
    requires AllResolve(rows, cfg) && OfPool(rows, cfg.pool) && i <= |rows| && Balanced(b, s)
    requires forall k :: 0 <= k < |rows| ==> node(rows[k].key.chain).Some?
    requires fault.ResetFails? && fault.fault != NoFault ==> i <= fault.at
    ensures Balanced(RecordFrom(b, rows, cfg, node, fault, i).0, s.Plus(PaySlips(rows, fault)))
    decreases |rows| - i
  {
    hide Balanced, Unbooked;
    PlusNothing(s);
    if i < |rows| && fault != PaymentFails(i) {
      var address, confirmation := Resolved(rows[i], cfg), node(rows[i].key.chain).value;
      RecordOneBalanced(b, s, rows[i], address, confirmation, ResetFault(fault, i));
      if ResetFault(fault, i) == NoFault {
        RecordFromBalanced(RecordOne(b, rows[i], cfg.pool, address, confirmation, NoFault), s, rows, cfg, node, fault,
          i + 1);
      }
    }
  }

  /** What a pass leaves behind. */
  function PassSlips(b: Books, cfg: Config, sendOrder: seq<string>, node: Node, fault: PayFault): Slips {
    if Sends(b, cfg, sendOrder, node) == |sendOrder| then PaySlips(DueRows(b, cfg), fault) else NO_SLIPS
  }

  /** A pass keeps the books in order up to what it leaves behind, whatever the nodes answer and whichever statement
      fails. */
  lemma PassBalanced(b: Books, s: Slips, cfg: Config, sendOrder: seq<string>, node: Node, fault: PayFault)
    requires ValidPass(b, cfg, sendOrder) && Balanced(b, s)
    ensures Balanced(Pass(b, cfg, sendOrder, node, fault).books, s.Plus(PassSlips(b, cfg, sendOrder, node, fault)))
  {
    hide Balanced;
    PlusNothing(s);
    if Sendable(b, cfg) && Successes(sendOrder, node) == |sendOrder| {
      AllSendsSucceed(DueRows(b, cfg), sendOrder, node);
      CollectedOfPool(b.balances, cfg, cfg.order);
      RecordFromBalanced(b, s, DueRows(b, cfg), cfg, node, fault, 0);
    }
  }

  // ---------- whole runs ----------

  /** A credit or a payout pass, each with the statement that fails in it, if any. */
  datatype Event =
    | Credited(key: Key, height: nat, amount: real, fault: Fault)
    | PaidOut(cfg: Config, sendOrder: seq<string>, node: Node, payFault: PayFault)

  /** The books, and what failing statements left behind so far. */
  datatype Account = Account(books: Books, slips: Slips)

  ghost predicate Possible(a: Account, e: Event) {
    e.PaidOut? ==> ValidPass(a.books, e.cfg, e.sendOrder)
  }

  ghost function Apply(a: Account, e: Event): Account
    requires Possible(a, e)
  {
    match e
    case Credited(key, height, amount, fault) =>
      Account(AddAmountTo(a.books, key, Reward(height), amount, fault),
        a.slips.Plus(Slips(Unbooked(Change(key, amount, Reward(height)), fault), [])))
    case PaidOut(cfg, sendOrder, node, payFault) =>
      Account(Pass(a.books, cfg, sendOrder, node, payFault).books,
        a.slips.Plus(PassSlips(a.books, cfg, sendOrder, node, payFault)))
  }

  /** Books reached from empty tables by any mix of credits and passes, nodes and statements behaving as they like. */
  ghost predicate Reaches(events: seq<Event>, a: Account)
    decreases |events|
  {
    if events == [] then a == Account(Books([], [], []), NO_SLIPS)
    else
      var n := |events| - 1;
      exists before :: Reaches(events[..n], before) && Possible(before, events[n]) && a == Apply(before, events[n])
  }

  lemma ApplyKeeps(a: Account, e: Event)
    requires Possible(a, e) && Balanced(a.books, a.slips)
    ensures Balanced(Apply(a, e).books, Apply(a, e).slips)
  {
    match e
    case Credited(key, height, amount, fault) =>
      CreditBalanced(a.books, a.slips, key, height, amount, fault);
    case PaidOut(cfg, sendOrder, node, payFault) =>
      PassBalanced(a.books, a.slips, cfg, sendOrder, node, payFault);
  }

  lemma {:induction false} RunsBalance(events: seq<Event>, a: Account)
    requires Reaches(events, a)
    ensures Balanced(a.books, a.slips)
    decreases |events|
  {
    if events == [] {
      BalancedWithoutSlips(a.books);
    } else {
      var n := |events| - 1;
      var before :| Reaches(events[..n], before) && Possible(before, events[n]) && a == Apply(before, events[n]);
      RunsBalance(events[..n], before);
      ApplyKeeps(before, events[n]);
    }
  }

  /**
   * Money conservation over whole runs, under every failing statement.  After any sequence of credits and passes, a
   * balance differs from the sum of its log by exactly the changes that missed it, and the credits ever added differ
   * from balances and recorded payments by exactly those and the resets that failed.  So a key agrees with its log, and
   * a pool and chain conserve money, exactly when what was left behind for them adds up to nothing; and they all do
   * when no statement failed.
   */
  lemma RunsConserve(events: seq<Event>, a: Account, pool: string, chain: string, address: string)
    requires Reaches(events, a)
    ensures KeyBalances(a.books, a.slips, Key(pool, chain, address))
    ensures TotalsBalance(a.books, a.slips, pool, chain)
    ensures var key := Key(pool, chain, address);
      AmountOf(a.books.balances, key) == ChangeSum(a.books.changes, key) <==> ChangeSum(a.slips.unbooked, key) == 0.0
    ensures Conserved(a.books, pool, chain) <==>
      CreditTotal(a.slips.unbooked, pool, chain) == BalanceTotal(a.slips.unreset, pool, chain)
    ensures a.slips == NO_SLIPS ==> Agrees(a.books) && Conserved(a.books, pool, chain)
  {
    RunsBalance(events, a);
    assert KeyBalances(a.books, a.slips, Key(pool, chain, address));
    assert TotalsBalance(a.books, a.slips, pool, chain);
    if a.slips == NO_SLIPS {
      BalancedWithoutSlips(a.books);
    }
  }

  /** A statement that completes leaves nothing behind. */
  lemma NoFaultNoSlips(a: Account, e: Event)
    requires Possible(a, e)
    requires match e
      case Credited(_, _, _, fault) => fault == NoFault || fault == ChangeFails
      case PaidOut(_, _, _, payFault) => !payFault.ResetFails? || payFault.fault == NoFault
    ensures Apply(a, e).slips == a.slips
  {
    PlusNothing(a.slips);
  }
}
