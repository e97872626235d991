/** Crediting a list of amounts for one block, statement by statement, until one fails. */
module Crediting {
  import opened Base
  import opened Ledger

  datatype Credit = Credit(address: string, amount: real)

  /** What the credits of one calculation are for. */
  datatype Cause = Cause(pool: string, chain: string, height: nat)

  /** Which credit of a calculation fails, and in which of its statements. */
  datatype CreditFault = NoneFails | CreditFails(at: nat, fault: Fault)

  function FaultAt(f: CreditFault, i: nat): Fault {
    if f.CreditFails? && f.at == i then f.fault else NoFault
  }

  /** The first `n` credits go through. */
  predicate Completes(f: CreditFault, n: nat) {
    f.CreditFails? && f.at < n ==> f.fault == NoFault
  }

  /** How many of `n` credits reach the log. */
  function Logged(f: CreditFault, n: nat): (k: nat)
    ensures k <= n
  {
    if Completes(f, n) then n else if f.fault == ChangeFails then f.at else f.at + 1
  }

  function KeyOf(cause: Cause, credit: Credit): Key {
    Key(cause.pool, cause.chain, credit.address)
  }

  function ChangeOf(cause: Cause, credit: Credit): Change {
    Change(KeyOf(cause, credit), credit.amount, Reward(cause.height))
  }

  function ChangesOf(cause: Cause, credits: seq<Credit>): (changes: seq<Change>)
    ensures |changes| == |credits|
  {
    if credits == [] then []
    else ChangesOf(cause, credits[..|credits| - 1]) + [ChangeOf(cause, credits[|credits| - 1])]
  }

  /** What the first `n` credits leave behind. */
  function MissedFirst(cause: Cause, credits: seq<Credit>, f: CreditFault, n: nat): seq<Change>
    requires n <= |credits|
  {
    if Completes(f, n) then [] else Unbooked(ChangeOf(cause, credits[f.at]), f.fault)
  }

  function Missed(cause: Cause, credits: seq<Credit>, f: CreditFault): seq<Change> {
    MissedFirst(cause, credits, f, |credits|)
  }

  /** The books after trying the first `n` credits, the first failure ending it. */
  function CreditFirst(b: Books, cause: Cause, credits: seq<Credit>, f: CreditFault, n: nat): Books
    requires n <= |credits|
  {
    if n == 0 then b
    else
      var before := CreditFirst(b, cause, credits, f, n - 1);
      if !Completes(f, n - 1) then before
      else
        AddAmountTo(before, KeyOf(cause, credits[n - 1]), Reward(cause.height), credits[n - 1].amount, FaultAt(f, n - 1))
  }

  function CreditAll(b: Books, cause: Cause, credits: seq<Credit>, f: CreditFault): Books {
    CreditFirst(b, cause, credits, f, |credits|)
  }

  // ---------- the log ----------

  lemma ChangesNext(cause: Cause, credits: seq<Credit>, n: nat)
    requires n < |credits|
    ensures ChangesOf(cause, credits[..n + 1]) == ChangesOf(cause, credits[..n]) + [ChangeOf(cause, credits[n])]
  {
    assert credits[..n + 1][..n] == credits[..n];
  }

  lemma {:induction false} CreditFirstLogs(b: Books, cause: Cause, credits: seq<Credit>, f: CreditFault, n: nat)
    requires n <= |credits|
    ensures CreditFirst(b, cause, credits, f, n).changes == b.changes + ChangesOf(cause, credits[..Logged(f, n)])
    ensures CreditFirst(b, cause, credits, f, n).payments == b.payments
  {
    hide ChangesOf, AddAmountTo;
    if n == 0 {
      NoChanges(cause, credits);
      ConcatEmpty(b.changes);
    } else {
      CreditFirstLogs(b, cause, credits, f, n - 1);
      if Completes(f, n - 1) {
        OneLogged(CreditFirst(b, cause, credits, f, n - 1), cause, credits[n - 1], FaultAt(f, n - 1));
        ChangesNext(cause, credits, n - 1);
        ConcatAssoc(b.changes, ChangesOf(cause, credits[..n - 1]), [ChangeOf(cause, credits[n - 1])]);
      }
    }
  }

  lemma NoChanges(cause: Cause, credits: seq<Credit>)
    ensures ChangesOf(cause, credits[..0]) == []
  {
  }

  lemma OneLogged(b: Books, cause: Cause, c: Credit, fault: Fault)
    ensures var out := AddAmountTo(b, KeyOf(cause, c), Reward(cause.height), c.amount, fault);
      && out.changes == (if fault == ChangeFails then b.changes else b.changes + [ChangeOf(cause, c)])
      && out.payments == b.payments
  {
  }

  /** Exactly the credits up to the failing one are logged, in their order, whatever fails. */
  lemma CreditAllLogs(b: Books, cause: Cause, credits: seq<Credit>, f: CreditFault)
    ensures CreditAll(b, cause, credits, f).changes
      == b.changes + ChangesOf(cause, credits[..Logged(f, |credits|)])
    ensures CreditAll(b, cause, credits, f).payments == b.payments
  {
    CreditFirstLogs(b, cause, credits, f, |credits|);
  }

  lemma {:induction false} CreditFirstBalanced(b: Books, s: Slips, cause: Cause, credits: seq<Credit>, f: CreditFault,
    n: nat)
    requires n <= |credits| && Balanced(b, s)
    ensures Balanced(CreditFirst(b, cause, credits, f, n), s.Plus(Slips(MissedFirst(cause, credits, f, n), [])))
  {
    hide Balanced;
    ConcatEmpty(s.unbooked);
    ConcatEmpty(s.unreset);
    if n > 0 {
      CreditFirstBalanced(b, s, cause, credits, f, n - 1);
      if Completes(f, n - 1) {
        CreditBalanced(CreditFirst(b, cause, credits, f, n - 1), s, KeyOf(cause, credits[n - 1]), cause.height,
          credits[n - 1].amount, FaultAt(f, n - 1));
      }
    }
  }

  /** The books stay in order up to what the failing credit leaves behind. */
  lemma CreditAllBalanced(b: Books, s: Slips, cause: Cause, credits: seq<Credit>, f: CreditFault)
    requires Balanced(b, s)
    ensures Balanced(CreditAll(b, cause, credits, f), s.Plus(Slips(Missed(cause, credits, f), [])))
  {
    CreditFirstBalanced(b, s, cause, credits, f, |credits|);
  }

  // ---------- two lists, one behind the other ----------

  /** The fault as the second list sees it. */
  function Behind(f: CreditFault, k: nat): CreditFault {
    if f.CreditFails? && f.at >= k then CreditFails(f.at - k, f.fault) else NoneFails
  }

  lemma {:induction false} CreditPrefix(b: Books, cause: Cause, first: seq<Credit>, second: seq<Credit>, f: CreditFault,
    n: nat)
    requires n <= |first|
    ensures CreditFirst(b, cause, first + second, f, n) == CreditFirst(b, cause, first, f, n)
  {
    if n > 0 {
      CreditPrefix(b, cause, first, second, f, n - 1);
      assert (first + second)[n - 1] == first[n - 1];
    }
  }

  lemma {:induction false} CreditBehind(b: Books, cause: Cause, first: seq<Credit>, second: seq<Credit>, f: CreditFault,
    n: nat)
    requires n <= |second|
    ensures CreditFirst(b, cause, first + second, f, |first| + n)
      == if Completes(f, |first|)
         then CreditFirst(CreditAll(b, cause, first, f), cause, second, Behind(f, |first|), n)
         else CreditAll(b, cause, first, f)
  {
    if n == 0 {
      CreditPrefix(b, cause, first, second, f, |first|);
    } else {
      CreditBehind(b, cause, first, second, f, n - 1);
      assert (first + second)[|first| + n - 1] == second[n - 1];
    }
  }

  lemma CreditBoth(b: Books, cause: Cause, first: seq<Credit>, second: seq<Credit>, f: CreditFault)
    ensures CreditAll(b, cause, first + second, f)
      == if Completes(f, |first|) then CreditAll(CreditAll(b, cause, first, f), cause, second, Behind(f, |first|))
         else CreditAll(b, cause, first, f)
  {
    CreditBehind(b, cause, first, second, f, |second|);
  }

  /** Behind the failing credit nothing more happens. */
  lemma {:induction false} CreditStopped(b: Books, cause: Cause, credits: seq<Credit>, f: CreditFault, i: nat, n: nat)
    requires i <= n <= |credits| && !Completes(f, i)
    ensures CreditFirst(b, cause, credits, f, n) == CreditFirst(b, cause, credits, f, i)
  {
    if i < n {
      CreditStopped(b, cause, credits, f, i, n - 1);
    }
  }

  lemma CreditNext(b: Books, cause: Cause, credits: seq<Credit>, c: Credit, f: CreditFault)
    requires Completes(f, |credits|)
    ensures CreditAll(b, cause, credits + [c], f)
      == AddAmountTo(CreditAll(b, cause, credits, f), KeyOf(cause, c), Reward(cause.height), c.amount,
                     FaultAt(f, |credits|))
  {
    CreditPrefix(b, cause, credits, [c], f, |credits|);
  }

  // ---------- sums ----------

  /** What a list holds for one address. */
  function CreditSum(credits: seq<Credit>, address: string): real {
    if credits == [] then 0.0
    else
      var n := |credits| - 1;
      CreditSum(credits[..n], address) + if credits[n].address == address then credits[n].amount else 0.0
  }

  function CreditsTotal(credits: seq<Credit>): real {
    if credits == [] then 0.0
    else CreditsTotal(credits[..|credits| - 1]) + credits[|credits| - 1].amount
  }

  lemma LastCredit(credits: seq<Credit>, c: Credit)
    ensures var w := credits + [c]; w != [] && w[..|w| - 1] == credits && w[|w| - 1] == c
  {
  }

  lemma CreditSumAppend(credits: seq<Credit>, c: Credit, address: string)
    ensures CreditSum(credits + [c], address)
      == CreditSum(credits, address) + if c.address == address then c.amount else 0.0
    ensures CreditsTotal(credits + [c]) == CreditsTotal(credits) + c.amount
  {
    LastCredit(credits, c);
  }

  lemma {:induction false} CreditSumConcat(a: seq<Credit>, b: seq<Credit>, address: string)
    ensures CreditSum(a + b, address) == CreditSum(a, address) + CreditSum(b, address)
    ensures CreditsTotal(a + b) == CreditsTotal(a) + CreditsTotal(b)
    decreases |b|
  {
    if b == [] {
      ConcatEmpty(a);
    } else {
      var n := |b| - 1;
      assert (a + b)[..|a + b| - 1] == a + b[..n];
      CreditSumConcat(a, b[..n], address);
    }
  }

  lemma {:induction false} ChangesSum(cause: Cause, credits: seq<Credit>, key: Key)
    ensures ChangeSum(ChangesOf(cause, credits), key) == Here(key, cause.pool, cause.chain, CreditSum(credits, key.address))
  {
    if credits != [] {
      var n := |credits| - 1;
      ChangesSum(cause, credits[..n], key);
      ChangeSumAppend(ChangesOf(cause, credits[..n]), ChangeOf(cause, credits[n]), key);
    }
  }

  lemma {:induction false} ChangesTotal(cause: Cause, credits: seq<Credit>, pool: string, chain: string)
    ensures CreditTotal(ChangesOf(cause, credits), pool, chain)
      == if pool == cause.pool && chain == cause.chain then CreditsTotal(credits) else 0.0
  {
    if credits != [] {
      var n := |credits| - 1;
      ChangesTotal(cause, credits[..n], pool, chain);
      CreditTotalAppend(ChangesOf(cause, credits[..n]), ChangeOf(cause, credits[n]), pool, chain);
    }
  }

  /** No credit is negative. */
  predicate NoneNegative(credits: seq<Credit>) {
    forall i :: 0 <= i < |credits| ==> credits[i].amount >= 0.0
  }

  /** Then stopping early credits less, if anything. */
  lemma {:induction false} PrefixWithin(credits: seq<Credit>, n: nat)
    requires NoneNegative(credits) && n <= |credits|
    ensures 0.0 <= CreditsTotal(credits[..n]) <= CreditsTotal(credits)
    decreases |credits|
  {
    if n == |credits| {
      TakeAll(credits);
      if n > 0 {
        PrefixWithin(credits[..n - 1], n - 1);
        TakeAll(credits[..n - 1]);
      }
    } else {
      var m := |credits| - 1;
      PrefixWithin(credits[..m], n);
      assert credits[..m][..n] == credits[..n];
    }
  }

  // ---------- crediting a map ----------

  function AmountIn(rewards: map<string, real>, address: string): real {
    if address in rewards then rewards[address] else 0.0
  }

  /** A map of amounts, in the order Go's map iteration happens to take. */
  function Listed(order: seq<string>, rewards: map<string, real>): (credits: seq<Credit>)
    requires forall i :: 0 <= i < |order| ==> order[i] in rewards
    ensures |credits| == |order|
  {
    if order == [] then []
    else
      var n := |order| - 1;
      Listed(order[..n], rewards) + [Credit(order[n], rewards[order[n]])]
  }

  lemma {:induction false} ListedAt(order: seq<string>, rewards: map<string, real>, i: nat)
    requires forall k :: 0 <= k < |order| ==> order[k] in rewards
    requires i < |order|
    ensures Listed(order, rewards)[i] == Credit(order[i], rewards[order[i]])
    decreases |order|
  {
    if i < |order| - 1 {
      ListedAt(order[..|order| - 1], rewards, i);
    }
  }

  lemma InitOrder(order: seq<string>, keys: set<string>)
    requires order != [] && Enumerates(order, keys)
    ensures var n := |order| - 1; order[n] in keys && Enumerates(order[..n], keys - {order[n]})
  {
    var n := |order| - 1;
    forall k | k in keys && k != order[n] ensures k in order[..n] {
      var i :| 0 <= i < |order| && order[i] == k;
      assert order[..n][i] == k;
    }
  }

  lemma {:induction false} EnumeratesLength(order: seq<string>, keys: set<string>)
    requires Enumerates(order, keys)
    ensures |order| == |keys|
  {
    if order == [] {
      assert keys == {};
    } else {
      var n := |order| - 1;
      InitOrder(order, keys);
      EnumeratesLength(order[..n], keys - {order[n]});
    }
  }

  lemma {:induction false} ListedSmaller(order: seq<string>, rewards: map<string, real>, key: string)
    requires forall i :: 0 <= i < |order| ==> order[i] in rewards && order[i] != key
    ensures forall i :: 0 <= i < |order| ==> order[i] in rewards - {key}
    ensures Listed(order, rewards - {key}) == Listed(order, rewards)
  {
    if order != [] {
      ListedSmaller(order[..|order| - 1], rewards, key);
    }
  }

  lemma NothingListed(rewards: map<string, real>, address: string)
    requires Enumerates([], rewards.Keys)
    ensures CreditSum(Listed([], rewards), address) == AmountIn(rewards, address)
    ensures CreditsTotal(Listed([], rewards)) == MapTotal(rewards)
  {
    assert rewards.Keys == {};
    assert rewards == map[];
  }

  /** Whatever the order: every address is credited its own amount, and all of them the total. */
  lemma {:induction false} ListedSums(order: seq<string>, rewards: map<string, real>, address: string)
    requires Enumerates(order, rewards.Keys)
    ensures forall i :: 0 <= i < |order| ==> order[i] in rewards
    ensures CreditSum(Listed(order, rewards), address) == AmountIn(rewards, address)
    ensures CreditsTotal(Listed(order, rewards)) == MapTotal(rewards)
    decreases |order|
  {
    if order == [] {
      NothingListed(rewards, address);
    } else {
      hide MapTotal, Listed, CreditSum, CreditsTotal, AmountIn;
      var n, last := |order| - 1, order[|order| - 1];
      var rest := rewards - {last};
      InitOrder(order, rewards.Keys);
      assert rest.Keys == rewards.Keys - {last};
      ListedSums(order[..n], rest, address);
      ListedSmaller(order[..n], rewards, last);
      ListedLast(order, rewards, address);
      MapTotalRemove(rewards, last);
    }
  }

  /** The last credit of the list, taken apart. */
  lemma ListedLast(order: seq<string>, rewards: map<string, real>, address: string)
    requires order != [] && forall i :: 0 <= i < |order| ==> order[i] in rewards
    ensures var n, last := |order| - 1, order[|order| - 1];
      && CreditsTotal(Listed(order, rewards)) == CreditsTotal(Listed(order[..n], rewards)) + rewards[last]
      && CreditSum(Listed(order, rewards), address) - AmountIn(rewards, address)
        == CreditSum(Listed(order[..n], rewards), address) - AmountIn(rewards - {last}, address)
  {
    var n, last := |order| - 1, order[|order| - 1];
    CreditSumAppend(Listed(order[..n], rewards), Credit(last, rewards[last]), address);
  }
}
