/** persistence/balance.go and persistence/payment.go: balances, their change log, and recorded payments. */
module Ledger {
  import opened Base

  /** Primary key of the balances table. */
  datatype Key = Key(pool: string, chain: string, address: string)

  datatype BalanceRow = BalanceRow(key: Key, amount: real)

  /** Why a balance changed: a reward for the block at some height, or a payment to the miner. */
  datatype Usage = Reward(height: nat) | Paid

  datatype Change = Change(key: Key, amount: real, usage: Usage)

  datatype Payment = Payment(pool: string, chain: string, address: string, amount: real, confirmation: string)

  datatype Books = Books(balances: seq<BalanceRow>, changes: seq<Change>, payments: seq<Payment>)

  // ---------- reading the tables ----------

  predicate UniqueKeys(rows: seq<BalanceRow>) {
    forall i, j :: 0 <= i < j < |rows| ==> rows[i].key != rows[j].key
  }

  /** `GetBalance`: the amount, or none without a row. */
  function GetBalance(rows: seq<BalanceRow>, key: Key): Option<real> {
    if rows == [] then None
    else if rows[0].key == key then Some(rows[0].amount)
    else GetBalance(rows[1..], key)
  }

  predicate HasKey(rows: seq<BalanceRow>, key: Key) {
    GetBalance(rows, key).Some?
  }

  lemma {:induction false} RowWithKey(rows: seq<BalanceRow>, key: Key) returns (i: nat)
    requires HasKey(rows, key)
    ensures i < |rows| && rows[i].key == key
  {
    if rows[0].key == key {
      i := 0;
    } else {
      i := RowWithKey(rows[1..], key);
      i := i + 1;
    }
  }

  lemma {:induction false} KeyOfRow(rows: seq<BalanceRow>, i: nat)
    requires i < |rows|
    ensures HasKey(rows, rows[i].key)
  {
    if i > 0 {
      KeyOfRow(rows[1..], i - 1);
    }
  }

  function AmountOf(rows: seq<BalanceRow>, key: Key): real {
    match GetBalance(rows, key)
    case Some(x) => x
    case None => 0.0
  }

  function ChangeSum(changes: seq<Change>, key: Key): real {
    if changes == [] then 0.0
    else (if changes[0].key == key then changes[0].amount else 0.0) + ChangeSum(changes[1..], key)
  }

  function BalanceTotal(rows: seq<BalanceRow>, pool: string, chain: string): real {
    if rows == [] then 0.0
    else
      (if rows[0].key.pool == pool && rows[0].key.chain == chain then rows[0].amount else 0.0)
        + BalanceTotal(rows[1..], pool, chain)
  }

  /** Everything ever credited: all changes but the payments. */
  function CreditTotal(changes: seq<Change>, pool: string, chain: string): real {
    if changes == [] then 0.0
    else
      (if changes[0].key.pool == pool && changes[0].key.chain == chain && changes[0].usage != Paid
       then changes[0].amount else 0.0)
        + CreditTotal(changes[1..], pool, chain)
  }

  function PaymentTotal(payments: seq<Payment>, pool: string, chain: string): real {
    if payments == [] then 0.0
    else
      (if payments[0].pool == pool && payments[0].chain == chain then payments[0].amount else 0.0)
        + PaymentTotal(payments[1..], pool, chain)
  }

  // ---------- writing them ----------

  /** `UPDATE balances SET amount = amount + x WHERE` the key matches. */
  function UpdateRows(rows: seq<BalanceRow>, key: Key, x: real): (out: seq<BalanceRow>)
    ensures |out| == |rows|
    ensures forall i :: 0 <= i < |rows| ==> out[i].key == rows[i].key
  {
    if rows == [] then []
    else
      [if rows[0].key == key then rows[0].(amount := rows[0].amount + x) else rows[0]]
        + UpdateRows(rows[1..], key, x)
  }

  /** Which of the three statements of `AddAmount` fails, if any. */
  datatype Fault = NoFault | ChangeFails | ReadFails | WriteFails

  function AddAmountTo(b: Books, key: Key, usage: Usage, amount: real, fault: Fault): Books {
    if fault == ChangeFails then b
    else
      var logged := b.(changes := b.changes + [Change(key, amount, usage)]);
      if fault != NoFault then logged
      else if GetBalance(b.balances, key) == None then
        logged.(balances := b.balances + [BalanceRow(key, amount)])
      else
        logged.(balances := UpdateRows(b.balances, key, amount))
  }

  class Tables {
    var balances: seq<BalanceRow>
    var changes: seq<Change>
    var payments: seq<Payment>

    constructor ()
      ensures View() == Books([], [], [])
    {
      balances, changes, payments := [], [], [];
    }

    function View(): Books
      reads this
    {
      Books(balances, changes, payments)
    }

    /** Logs the change, looks for a row, then inserts or updates it. */
    method AddAmount(key: Key, usage: Usage, amount: real, fault: Fault) returns (r: Result<()>)
      modifies this`balances, this`changes
      ensures View() == AddAmountTo(old(View()), key, usage, amount, fault)
      ensures r == if fault == NoFault then Ok(()) else Err(StatementFailed)
    {
      if fault == ChangeFails {
        return Err(StatementFailed);
      }
      changes := changes + [Change(key, amount, usage)];
      if fault == ReadFails {
        return Err(StatementFailed);
      }
      var balance := GetBalance(balances, key);
      if fault == WriteFails {
        return Err(StatementFailed);
      }
      if balance == None {
        balances := balances + [BalanceRow(key, amount)];
      } else {
        balances := UpdateRows(balances, key, amount);
      }
      return Ok(());
    }

    method InsertPayment(payment: Payment)
      modifies this`payments
      ensures View() == old(View()).(payments := old(payments) + [payment])
    {
      payments := payments + [payment];
    }
  }

  // ---------- agreement of balances and log ----------

  /** One row a key, and every balance is the sum of its logged changes. */
  ghost predicate Agrees(b: Books) {
    UniqueKeys(b.balances) && forall key :: AmountOf(b.balances, key) == ChangeSum(b.changes, key)
  }

  lemma {:induction false} ChangeSumAppend(changes: seq<Change>, c: Change, key: Key)
    ensures ChangeSum(changes + [c], key)
         == ChangeSum(changes, key) + if c.key == key then c.amount else 0.0
  {
    if changes != [] {
      SplitWithin(changes, [c], 1);
      ChangeSumAppend(changes[1..], c, key);
    } else {
      ConcatEmpty([c]);
    }
  }

  lemma {:induction false} AmountOfInsert(rows: seq<BalanceRow>, row: BalanceRow, key: Key)
    requires !HasKey(rows, row.key)
    ensures AmountOf(rows + [row], key) == if key == row.key then row.amount else AmountOf(rows, key)
  {
    if rows != [] {
      SplitWithin(rows, [row], 1);
      AmountOfInsert(rows[1..], row, key);
    } else {
      ConcatEmpty([row]);
    }
  }

  lemma {:induction false} AmountOfUpdate(rows: seq<BalanceRow>, k: Key, x: real, key: Key)
    ensures HasKey(UpdateRows(rows, k, x), key) <==> HasKey(rows, key)
    ensures AmountOf(UpdateRows(rows, k, x), key)
         == AmountOf(rows, key) + if key == k && HasKey(rows, k) then x else 0.0
  {
    if rows != [] {
      AmountOfUpdate(rows[1..], k, x, key);
      var out := UpdateRows(rows, k, x);
      assert out[1..] == UpdateRows(rows[1..], k, x);
      assert GetBalance(out, key) == if rows[0].key == key then Some(out[0].amount) else GetBalance(out[1..], key);
    }
  }

  lemma AddToExisting(b: Books, key: Key, usage: Usage, x: real)
    requires HasKey(b.balances, key)
    ensures AddAmountTo(b, key, usage, x, NoFault).balances == UpdateRows(b.balances, key, x)
  {
  }

  /**
   * Ledger agreement, one call: from agreeing books, the books agree afterwards exactly when no statement failed
   * behind the logged change, or the amount is zero.
   */
  lemma AddAmountAgrees(b: Books, key: Key, usage: Usage, amount: real, fault: Fault)
    requires Agrees(b)
    ensures Agrees(AddAmountTo(b, key, usage, amount, fault))
      <==> fault == NoFault || fault == ChangeFails || amount == 0.0
  {
    var out := AddAmountTo(b, key, usage, amount, fault);
    if fault != ChangeFails {
      forall k ensures ChangeSum(out.changes, k) == ChangeSum(b.changes, k) + if k == key then amount else 0.0 {
        ChangeSumAppend(b.changes, Change(key, amount, usage), k);
      }
      if fault == NoFault {
        if GetBalance(b.balances, key) == None {
          UniqueInsert(b.balances, BalanceRow(key, amount));
        }
        forall k ensures AmountOf(out.balances, k) == AmountOf(b.balances, k) + if k == key then amount else 0.0 {
          if GetBalance(b.balances, key) == None {
            AmountOfInsert(b.balances, BalanceRow(key, amount), k);
          } else {
            AmountOfUpdate(b.balances, key, amount, k);
          }
        }
      } else {
        assert AmountOf(out.balances, key) == AmountOf(b.balances, key);
      }
    }
  }

  // ---------- conservation ----------

  /** Credits ever added are either still balances or recorded payments. */
  predicate Conserved(b: Books, pool: string, chain: string) {
    CreditTotal(b.changes, pool, chain) == BalanceTotal(b.balances, pool, chain) + PaymentTotal(b.payments, pool, chain)
  }

  lemma {:induction false} BalanceTotalInsert(rows: seq<BalanceRow>, row: BalanceRow, pool: string, chain: string)
    ensures BalanceTotal(rows + [row], pool, chain)
         == BalanceTotal(rows, pool, chain) + BalanceTotal([row], pool, chain)
  {
    if rows != [] {
      SplitWithin(rows, [row], 1);
      BalanceTotalInsert(rows[1..], row, pool, chain);
    } else {
      ConcatEmpty([row]);
    }
  }

  lemma {:induction false} UpdateMissing(rows: seq<BalanceRow>, key: Key, x: real)
    requires !HasKey(rows, key)
    ensures UpdateRows(rows, key, x) == rows
  {
    if rows != [] {
      UpdateMissing(rows[1..], key, x);
      ConsBack(rows);
    }
  }

  lemma UniqueTail(rows: seq<BalanceRow>)
    requires rows != [] && UniqueKeys(rows)
    ensures UniqueKeys(rows[1..]) && !HasKey(rows[1..], rows[0].key)
  {
    assert forall i :: 0 <= i < |rows[1..]| ==> rows[1..][i] == rows[i + 1];
    if HasKey(rows[1..], rows[0].key) {
      var i := RowWithKey(rows[1..], rows[0].key);
    }
  }

  lemma UniqueInsert(rows: seq<BalanceRow>, row: BalanceRow)
    requires UniqueKeys(rows) && !HasKey(rows, row.key)
    ensures UniqueKeys(rows + [row])
  {
    forall i | 0 <= i < |rows| ensures rows[i].key != row.key {
      KeyOfRow(rows, i);
    }
  }

  lemma {:induction false} BalanceTotalUpdate(rows: seq<BalanceRow>, key: Key, x: real, pool: string, chain: string)
    requires UniqueKeys(rows) && HasKey(rows, key)
    ensures BalanceTotal(UpdateRows(rows, key, x), pool, chain)
         == BalanceTotal(rows, pool, chain) + if key.pool == pool && key.chain == chain then x else 0.0
  {
    UniqueTail(rows);
    var out := UpdateRows(rows, key, x);
    assert out[1..] == UpdateRows(rows[1..], key, x);
    if rows[0].key == key {
      UpdateMissing(rows[1..], key, x);
    } else {
      BalanceTotalUpdate(rows[1..], key, x, pool, chain);
    }
  }

  lemma {:induction false} CreditTotalAppend(changes: seq<Change>, c: Change, pool: string, chain: string)
    ensures CreditTotal(changes + [c], pool, chain)
         == CreditTotal(changes, pool, chain) + CreditTotal([c], pool, chain)
  {
    if changes != [] {
      SplitWithin(changes, [c], 1);
      CreditTotalAppend(changes[1..], c, pool, chain);
    } else {
      ConcatEmpty([c]);
    }
  }

  lemma {:induction false} PaymentTotalAppend(payments: seq<Payment>, p: Payment, pool: string, chain: string)
    ensures PaymentTotal(payments + [p], pool, chain)
         == PaymentTotal(payments, pool, chain) + PaymentTotal([p], pool, chain)
  {
    if payments != [] {
      SplitWithin(payments, [p], 1);
      PaymentTotalAppend(payments[1..], p, pool, chain);
    } else {
      ConcatEmpty([p]);
    }
  }

  /** What one completed `AddAmount` does to the totals of its own pool and chain, and to no other. */
  lemma AddAmountTotals(b: Books, key: Key, usage: Usage, amount: real, pool: string, chain: string)
    requires UniqueKeys(b.balances)
    ensures var out := AddAmountTo(b, key, usage, amount, NoFault);
      var here := key.pool == pool && key.chain == chain;
      && UniqueKeys(out.balances)
      && BalanceTotal(out.balances, pool, chain) == BalanceTotal(b.balances, pool, chain) + (if here then amount else 0.0)
      && CreditTotal(out.changes, pool, chain)
        == CreditTotal(b.changes, pool, chain) + (if here && usage != Paid then amount else 0.0)
      && out.payments == b.payments
  {
    CreditTotalAppend(b.changes, Change(key, amount, usage), pool, chain);
    if GetBalance(b.balances, key) == None {
      UniqueInsert(b.balances, BalanceRow(key, amount));
      BalanceTotalInsert(b.balances, BalanceRow(key, amount), pool, chain);
    } else {
      BalanceTotalUpdate(b.balances, key, amount, pool, chain);
    }
  }

  // ---------- when statements fail ----------

  /**
   * What failing statements left behind over time: changes that were logged without reaching their balance, and
   * balances whose payment was recorded without their reset.
   */
  datatype Slips = Slips(unbooked: seq<Change>, unreset: seq<BalanceRow>) {
    function Plus(other: Slips): Slips {
      Slips(unbooked + other.unbooked, unreset + other.unreset)
    }
  }

  lemma PlusNothing(s: Slips)
    ensures s.Plus(NO_SLIPS) == s
  {
    ConcatEmpty(s.unbooked);
    ConcatEmpty(s.unreset);
  }

  const NO_SLIPS := Slips([], [])

  /** For one pool and chain: credits are balances and payments, up to what failing statements left behind. */
  predicate TotalsBalance(b: Books, s: Slips, pool: string, chain: string) {
    CreditTotal(b.changes, pool, chain) + BalanceTotal(s.unreset, pool, chain)
      == BalanceTotal(b.balances, pool, chain) + PaymentTotal(b.payments, pool, chain)
         + CreditTotal(s.unbooked, pool, chain)
  }

  predicate KeyBalances(b: Books, s: Slips, key: Key) {
    AmountOf(b.balances, key) + ChangeSum(s.unbooked, key) == ChangeSum(b.changes, key)
  }

  /** The books are in order up to what failing statements left behind, key by key and in total. */
  ghost predicate Balanced(b: Books, s: Slips) {
    && UniqueKeys(b.balances)
    && (forall key :: KeyBalances(b, s, key))
    && (forall pool, chain :: TotalsBalance(b, s, pool, chain))
  }

  /** Nothing left behind is agreement and conservation. */
  lemma BalancedWithoutSlips(b: Books)
    ensures Balanced(b, NO_SLIPS) <==> Agrees(b) && forall pool, chain :: Conserved(b, pool, chain)
  {
    assert forall key :: ChangeSum(NO_SLIPS.unbooked, key) == 0.0;
    assert forall pool, chain :: CreditTotal(NO_SLIPS.unbooked, pool, chain) == 0.0;
    assert forall pool, chain :: BalanceTotal(NO_SLIPS.unreset, pool, chain) == 0.0;
    if Balanced(b, NO_SLIPS) {
      forall key ensures AmountOf(b.balances, key) == ChangeSum(b.changes, key) {
        assert KeyBalances(b, NO_SLIPS, key);
      }
      forall pool, chain ensures Conserved(b, pool, chain) {
        assert TotalsBalance(b, NO_SLIPS, pool, chain);
      }
    } else if Agrees(b) && forall pool, chain :: Conserved(b, pool, chain) {
      forall pool, chain ensures TotalsBalance(b, NO_SLIPS, pool, chain) {
        assert Conserved(b, pool, chain);
      }
    }
  }

  /** What one `AddAmount` leaves behind. */
  function Unbooked(c: Change, fault: Fault): seq<Change> {
    if fault == ReadFails || fault == WriteFails then [c] else []
  }

  /** Whatever fails in it, `AddAmount` keeps every key in order up to what it leaves behind. */
  lemma AddAmountKey(b: Books, s: Slips, key: Key, usage: Usage, amount: real, fault: Fault, k: Key)
    requires KeyBalances(b, s, k)
    ensures KeyBalances(AddAmountTo(b, key, usage, amount, fault),
      s.Plus(Slips(Unbooked(Change(key, amount, usage), fault), [])), k)
  {
    hide ChangeSum, UpdateRows;
    ChangeSumAppend(b.changes, Change(key, amount, usage), k);
    ChangeSumAppend(s.unbooked, Change(key, amount, usage), k);
    ConcatEmpty(s.unbooked);
    if fault == NoFault {
      if GetBalance(b.balances, key) == None {
        AmountOfInsert(b.balances, BalanceRow(key, amount), k);
      } else {
        AmountOfUpdate(b.balances, key, amount, k);
      }
    }
  }

  /** A credit keeps the books in order up to what it leaves behind, whichever of its statements fails. */
  lemma CreditBalanced(b: Books, s: Slips, key: Key, height: nat, amount: real, fault: Fault)
    requires Balanced(b, s)
    ensures Balanced(AddAmountTo(b, key, Reward(height), amount, fault),
      s.Plus(Slips(Unbooked(Change(key, amount, Reward(height)), fault), [])))
  {
    hide ChangeSum, CreditTotal, BalanceTotal, PaymentTotal, GetBalance;
    var c := Change(key, amount, Reward(height));
    var out, left := AddAmountTo(b, key, Reward(height), amount, fault), s.Plus(Slips(Unbooked(c, fault), []));
    ConcatEmpty(s.unreset);
    ConcatEmpty(s.unbooked);
    forall k ensures KeyBalances(out, left, k) {
      AddAmountKey(b, s, key, Reward(height), amount, fault, k);
    }
    AddAmountTotals(b, key, Reward(height), amount, key.pool, key.chain);
    forall pool, chain ensures TotalsBalance(out, left, pool, chain) {
      assert TotalsBalance(b, s, pool, chain);
      AddAmountTotals(b, key, Reward(height), amount, pool, chain);
      CreditTotalAppend(b.changes, c, pool, chain);
      CreditTotalAppend(s.unbooked, c, pool, chain);
    }
  }

  lemma {:induction false} ChangeSumConcat(a: seq<Change>, b: seq<Change>, key: Key)
    ensures ChangeSum(a + b, key) == ChangeSum(a, key) + ChangeSum(b, key)
  {
    if a == [] {
      ConcatEmpty(b);
    } else {
      SplitWithin(a, b, 1);
      ChangeSumConcat(a[1..], b, key);
    }
  }

  lemma {:induction false} CreditTotalConcat(a: seq<Change>, b: seq<Change>, pool: string, chain: string)
    ensures CreditTotal(a + b, pool, chain) == CreditTotal(a, pool, chain) + CreditTotal(b, pool, chain)
  {
    if a == [] {
      ConcatEmpty(b);
    } else {
      SplitWithin(a, b, 1);
      CreditTotalConcat(a[1..], b, pool, chain);
    }
  }

  /** An amount that counts for the keys of one pool and chain only. */
  function Here(key: Key, pool: string, chain: string, x: real): real {
    if key.pool == pool && key.chain == chain then x else 0.0
  }

  // ---------- totals of address maps ----------

  ghost function MapTotal(m: map<string, real>): real
    decreases |m|
  {
    if m == map[] then 0.0
    else
      var k :| k in m;
      m[k] + MapTotal(m - {k})
  }

  lemma {:induction false} MapTotalRemove(m: map<string, real>, k: string)
    requires k in m
    ensures MapTotal(m) == m[k] + MapTotal(m - {k})
    decreases |m|
  {
    var j :| j in m && MapTotal(m) == m[j] + MapTotal(m - {j});
    if j != k {
      MapTotalRemove(m - {j}, k);
      MapTotalRemove(m - {k}, j);
      assert m - {j} - {k} == m - {k} - {j};
    }
  }

  lemma MapTotalPut(m: map<string, real>, k: string, x: real)
    ensures MapTotal(m[k := x]) == MapTotal(m) + x - (if k in m then m[k] else 0.0)
  {
    MapTotalRemove(m[k := x], k);
    assert m[k := x] - {k} == m - {k};
    if k in m {
      MapTotalRemove(m, k);
    } else {
      assert m - {k} == m;
    }
  }
}
