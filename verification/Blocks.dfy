/** persistence/found.go and payouts/unlock.go: the block table, and how one sweep moves block statuses. */
module Blocks {
  import opened Base
  import opened Rewards

  /** What the node says about a block's coinbase; `Unreachable` stands for every error on the way there. */
  datatype Verdict = Unreachable | Immature(amount: real) | Generate(amount: real) | Lost

  type Oracle = FoundBlock -> Verdict

  function Judge(b: FoundBlock, v: Verdict): FoundBlock {
    match v
    case Unreachable => b
    case Immature(amount) => b.(reward := amount)
    case Generate(amount) => b.(status := Confirmed, reward := amount)
    case Lost => b.(status := Orphaned, reward := 0.0)
  }

  predicate IsPending(b: FoundBlock, pool: string) {
    b.pool == pool && b.status == Pending
  }

  /** `PendingBlocksForPool`. */
  function PendingOf(rows: seq<FoundBlock>, pool: string): seq<FoundBlock> {
    if rows == [] then []
    else (if IsPending(rows[0], pool) then [rows[0]] else []) + PendingOf(rows[1..], pool)
  }

  /** `GetConfirmed`. */
  function ConfirmedIn(rows: seq<FoundBlock>): seq<FoundBlock> {
    if rows == [] then []
    else (if rows[0].status == Confirmed then [rows[0]] else []) + ConfirmedIn(rows[1..])
  }

  /** One unreachable block fails the whole list. */
  function Classified(pending: seq<FoundBlock>, oracle: Oracle): Result<seq<FoundBlock>> {
    if pending == [] then Ok([])
    else if oracle(pending[0]) == Unreachable then Err(NoNode)
    else
      var rest :- Classified(pending[1..], oracle);
      Ok([Judge(pending[0], oracle(pending[0]))] + rest)
  }

  /** Block by block: status and reward as the node's answer has them, and no other field touched. */
  method ClassifyBlocks(pending: seq<FoundBlock>, oracle: Oracle) returns (r: Result<seq<FoundBlock>>)
    ensures r == Classified(pending, oracle)
    ensures r.Ok? <==> forall i :: 0 <= i < |pending| ==> oracle(pending[i]) != Unreachable
    ensures r.Ok? ==> |r.value| == |pending| && forall i :: 0 <= i < |pending| ==>
      r.value[i] == match oracle(pending[i])
        case Generate(amount) => pending[i].(status := Confirmed, reward := amount)
        case Immature(amount) => pending[i].(reward := amount)
        case _ => pending[i].(status := Orphaned, reward := 0.0)
  {
    var blocks: seq<FoundBlock> := [];
    ghost var whole := Classified(pending, oracle);
    TakeAll(pending);
    if whole.Ok? {
      ConcatEmpty(whole.value);
    }
    for i := 0 to |pending|
      invariant var rest := Classified(pending[i..], oracle);
        whole == if rest.Ok? then Ok(blocks + rest.value) else rest
      invariant |blocks| == i && forall k :: 0 <= k < i ==>
        oracle(pending[k]) != Unreachable && blocks[k] == match oracle(pending[k])
          case Generate(amount) => pending[k].(status := Confirmed, reward := amount)
          case Immature(amount) => pending[k].(reward := amount)
          case _ => pending[k].(status := Orphaned, reward := 0.0)
    {
      TakeNext(pending, i);
      HeadTail(pending[i], pending[i + 1..]);
      if oracle(pending[i]) == Unreachable {
        return Err(NoNode);
      }
      ghost var rest := Classified(pending[i + 1..], oracle);
      var judged := Judge(pending[i], oracle(pending[i]));
      if rest.Ok? {
        ConcatAssoc(blocks, [judged], rest.value);
      }
      blocks := blocks + [judged];
    }
    ConcatEmpty(blocks);
    return Ok(blocks);
  }

  method GetConfirmed(rows: seq<FoundBlock>) returns (confirmed: seq<FoundBlock>)
    ensures confirmed == ConfirmedIn(rows)
  {
    confirmed := [];
    TakeAll(rows);
    ConcatEmpty(ConfirmedIn(rows));
    for i := 0 to |rows|
      invariant confirmed + ConfirmedIn(rows[i..]) == ConfirmedIn(rows)
    {
      TakeNext(rows, i);
      HeadTail(rows[i], rows[i + 1..]);
      if rows[i].status == Confirmed {
        ConcatAssoc(confirmed, [rows[i]], ConfirmedIn(rows[i + 1..]));
        confirmed := confirmed + [rows[i]];
      } else {
        ConcatEmpty(ConfirmedIn(rows[i + 1..]));
      }
    }
    ConcatEmpty(confirmed);
  }

  // ---------- saving ----------

  /** `UPDATE blocks SET status, reward, ... WHERE id`. */
  function UpdateRow(rows: seq<FoundBlock>, b: FoundBlock): seq<FoundBlock> {
    if rows == [] then []
    else
      [if rows[0].id == b.id then rows[0].(height := b.height, status := b.status, reward := b.reward) else rows[0]]
        + UpdateRow(rows[1..], b)
  }

  function SaveAll(rows: seq<FoundBlock>, updated: seq<FoundBlock>, saveOk: nat -> bool): seq<FoundBlock>
    decreases |updated|
  {
    if updated == [] then rows
    else SaveAll(if saveOk(updated[0].id) then UpdateRow(rows, updated[0]) else rows, updated[1..], saveOk)
  }

  /** The same seen row by row: each pending block of the pool is replaced by its verdict if its update succeeds. */
  function Swept(rows: seq<FoundBlock>, pool: string, oracle: Oracle, saveOk: nat -> bool): (out: seq<FoundBlock>)
    ensures |out| == |rows|
  {
    if rows == [] then []
    else
      [SweptRow(rows[0], pool, oracle, saveOk)] + Swept(rows[1..], pool, oracle, saveOk)
  }

  function SweptRow(b: FoundBlock, pool: string, oracle: Oracle, saveOk: nat -> bool): FoundBlock {
    if IsPending(b, pool) && saveOk(b.id) then Judge(b, oracle(b)) else b
  }

  predicate UniqueIds(rows: seq<FoundBlock>) {
    forall i, j :: 0 <= i < j < |rows| ==> rows[i].id != rows[j].id
  }

  predicate HasId(rows: seq<FoundBlock>, id: nat) {
    exists i :: 0 <= i < |rows| && rows[i].id == id
  }

  lemma {:induction false} UpdateOther(rows: seq<FoundBlock>, b: FoundBlock)
    requires !HasId(rows, b.id)
    ensures UpdateRow(rows, b) == rows
  {
    if rows != [] {
      assert rows[0].id != b.id;
      TailIds(rows, b.id);
      UpdateOther(rows[1..], b);
      ConsBack(rows);
    }
  }

  lemma TailIds(rows: seq<FoundBlock>, id: nat)
    requires rows != []
    ensures HasId(rows, id) <==> rows[0].id == id || HasId(rows[1..], id)
  {
    if HasId(rows[1..], id) {
      var i :| 0 <= i < |rows[1..]| && rows[1..][i].id == id;
      assert rows[i + 1].id == id;
    }
    if HasId(rows, id) {
      var i :| 0 <= i < |rows| && rows[i].id == id;
      assert i > 0 ==> rows[1..][i - 1].id == id;
    }
  }

  lemma UniqueIdsTail(rows: seq<FoundBlock>)
    requires rows != [] && UniqueIds(rows)
    ensures UniqueIds(rows[1..]) && !HasId(rows[1..], rows[0].id)
  {
    assert forall i :: 0 <= i < |rows[1..]| ==> rows[1..][i] == rows[i + 1];
  }

  lemma {:induction false} SaveBehind(first: FoundBlock, rows: seq<FoundBlock>, updated: seq<FoundBlock>,
    saveOk: nat -> bool)
    requires !HasId(updated, first.id)
    ensures SaveAll([first] + rows, updated, saveOk) == [first] + SaveAll(rows, updated, saveOk)
    decreases |updated|
  {
    if updated != [] {
      TailIds(updated, first.id);
      HeadTail(first, rows);
      SaveBehind(first, if saveOk(updated[0].id) then UpdateRow(rows, updated[0]) else rows, updated[1..], saveOk);
    }
  }

  lemma {:induction false} ClassifiedIds(rows: seq<FoundBlock>, pool: string, oracle: Oracle, id: nat)
    requires Classified(PendingOf(rows, pool), oracle).Ok? && !HasId(rows, id)
    ensures !HasId(Classified(PendingOf(rows, pool), oracle).value, id)
  {
    if rows != [] {
      TailIds(rows, id);
      PendingCons(rows, pool, oracle);
      ClassifiedIds(rows[1..], pool, oracle, id);
      if IsPending(rows[0], pool) {
        TailIds(Classified(PendingOf(rows, pool), oracle).value, id);
      }
    }
  }

  lemma ClassifiedCons(b: FoundBlock, pending: seq<FoundBlock>, oracle: Oracle)
    requires Classified([b] + pending, oracle).Ok?
    ensures oracle(b) != Unreachable && Classified(pending, oracle).Ok?
    ensures Classified([b] + pending, oracle).value == [Judge(b, oracle(b))] + Classified(pending, oracle).value
  {
    HeadTail(b, pending);
  }

  /** The list to classify, one row at a time. */
  lemma PendingCons(rows: seq<FoundBlock>, pool: string, oracle: Oracle)
    requires rows != [] && Classified(PendingOf(rows, pool), oracle).Ok?
    ensures Classified(PendingOf(rows[1..], pool), oracle).Ok?
    ensures IsPending(rows[0], pool) ==> oracle(rows[0]) != Unreachable
    ensures var rest := Classified(PendingOf(rows[1..], pool), oracle).value;
      var all := Classified(PendingOf(rows, pool), oracle).value;
      && all == (if IsPending(rows[0], pool) then [Judge(rows[0], oracle(rows[0]))] else []) + rest
      && (IsPending(rows[0], pool) ==> all[1..] == rest)
  {
    var more := PendingOf(rows[1..], pool);
    if IsPending(rows[0], pool) {
      ClassifiedCons(rows[0], more, oracle);
      HeadTail(Judge(rows[0], oracle(rows[0])), Classified(more, oracle).value);
    } else {
      ConcatEmpty(more);
      ConcatEmpty(Classified(more, oracle).value);
    }
  }

  /** With unique ids, updating by id is the row-by-row sweep. */
  lemma {:induction false} SaveAllIsSwept(rows: seq<FoundBlock>, pool: string, oracle: Oracle, saveOk: nat -> bool)
    requires UniqueIds(rows) && Classified(PendingOf(rows, pool), oracle).Ok?
    ensures SaveAll(rows, Classified(PendingOf(rows, pool), oracle).value, saveOk) == Swept(rows, pool, oracle, saveOk)
  {
    if rows != [] {
      var updated := Classified(PendingOf(rows, pool), oracle).value;
      PendingCons(rows, pool, oracle);
      var rest := Classified(PendingOf(rows[1..], pool), oracle).value;
      UniqueIdsTail(rows);
      SaveAllIsSwept(rows[1..], pool, oracle, saveOk);
      ClassifiedIds(rows[1..], pool, oracle, rows[0].id);
      assert !HasId(rest, rows[0].id);
      ConsBack(rows);
      var first := rows[0];
      if IsPending(first, pool) {
        var judged := Judge(first, oracle(first));
        UpdateOther(rows[1..], judged);
        HeadTail(judged, rest);
        SaveBehind(if saveOk(first.id) then judged else first, rows[1..], rest, saveOk);
      } else {
        ConcatEmpty(rest);
        SaveBehind(first, rows[1..], rest, saveOk);
      }
    }
  }

  // ---------- one sweep, and runs of sweeps ----------

  /**
   * The block table, the ids whose reward calculation was started so far, and the matured blocks whose update failed
   * after that.
   */
  datatype Progress = Progress(rows: seq<FoundBlock>, attempts: seq<nat>, unsaved: seq<FoundBlock>)

  function NotSaved(blocks: seq<FoundBlock>, saveOk: nat -> bool): seq<FoundBlock> {
    if blocks == [] then []
    else (if saveOk(blocks[0].id) then [] else [blocks[0]]) + NotSaved(blocks[1..], saveOk)
  }

  function IdsOf(rows: seq<FoundBlock>): (ids: seq<nat>)
    ensures |ids| == |rows|
  {
    seq(|rows|, i requires 0 <= i < |rows| => rows[i].id)
  }

  /** Blocks arrive as pending with a new id; the manager sweeps. */
  datatype Event = Mined(block: FoundBlock) | Sweep(oracle: Oracle, saveOk: nat -> bool)

  function Step(p: Progress, pool: string, e: Event): Progress {
    match e
    case Mined(block) => p.(rows := p.rows + [block])
    case Sweep(oracle, saveOk) =>
      var updated := Classified(PendingOf(p.rows, pool), oracle);
      if updated.Err? then p
      else
        var confirmed := ConfirmedIn(updated.value);
        Progress(SaveAll(p.rows, updated.value, saveOk), p.attempts + IdsOf(confirmed),
          p.unsaved + NotSaved(confirmed, saveOk))
  }

  /** Arrivals are new and pending. */
  predicate Proper(p: Progress, e: Event) {
    e.Mined? ==> !HasId(p.rows, e.block.id) && e.block.status == Pending
  }

  /** What a step may do to the rows: keep their order and ids, move only pending ones, append new ones. */
  predicate Evolves(a: seq<FoundBlock>, b: seq<FoundBlock>) {
    && |a| <= |b|
    && forall i :: 0 <= i < |a| ==> b[i].id == a[i].id && (a[i].status != Pending ==> b[i] == a[i])
  }

  lemma {:induction false} SweptEvolves(rows: seq<FoundBlock>, pool: string, oracle: Oracle, saveOk: nat -> bool)
    ensures Evolves(rows, Swept(rows, pool, oracle, saveOk))
    ensures forall i :: 0 <= i < |rows| ==>
      Swept(rows, pool, oracle, saveOk)[i] == SweptRow(rows[i], pool, oracle, saveOk)
  {
    if rows != [] {
      SweptEvolves(rows[1..], pool, oracle, saveOk);
    }
  }

  /** Statuses only leave `Pending`, whatever the nodes say and whichever updates fail. */
  lemma StepEvolves(p: Progress, pool: string, e: Event)
    requires UniqueIds(p.rows) && Proper(p, e)
    ensures UniqueIds(Step(p, pool, e).rows) && Evolves(p.rows, Step(p, pool, e).rows)
  {
    match e
    case Mined(block) =>
      assert forall i :: 0 <= i < |p.rows| ==> p.rows[i].id != block.id;
    case Sweep(oracle, saveOk) =>
      if Classified(PendingOf(p.rows, pool), oracle).Ok? {
        SaveAllIsSwept(p.rows, pool, oracle, saveOk);
        SweptEvolves(p.rows, pool, oracle, saveOk);
      }
  }

  predicate ConfirmedRow(rows: seq<FoundBlock>, id: nat) {
    exists i :: 0 <= i < |rows| && rows[i].id == id && rows[i].status == Confirmed
  }

  /** No id twice, and every attempted block already stands as confirmed in the table. */
  predicate AtMostOnce(p: Progress) {
    && UniqueIds(p.rows)
    && NoDup(p.attempts)
    && (forall i :: 0 <= i < |p.attempts| ==> ConfirmedRow(p.rows, p.attempts[i]))
  }

  predicate NoDup(ids: seq<nat>) {
    forall i, j :: 0 <= i < j < |ids| ==> ids[i] != ids[j]
  }

  lemma NoDupConcat(a: seq<nat>, b: seq<nat>)
    requires NoDup(a) && NoDup(b) && forall x :: x in a ==> x !in b
    ensures NoDup(a + b)
  {
    forall i, j | 0 <= i < |a| && 0 <= j < |b| ensures a[i] != b[j] {
      assert a[i] in a && b[j] in b;
    }
  }

  /** Which rows a sweep starts a reward calculation for. */
  predicate Attempted(rows: seq<FoundBlock>, pool: string, oracle: Oracle, id: nat) {
    exists i :: 0 <= i < |rows| && rows[i].id == id && IsPending(rows[i], pool) && oracle(rows[i]).Generate?
  }

  lemma {:induction false} AttemptedIds(rows: seq<FoundBlock>, pool: string, oracle: Oracle)
    requires UniqueIds(rows) && Classified(PendingOf(rows, pool), oracle).Ok?
    ensures var ids := IdsOf(ConfirmedIn(Classified(PendingOf(rows, pool), oracle).value));
      && (forall id :: id in ids <==> Attempted(rows, pool, oracle, id))
      && NoDup(ids)
  {
    if rows != [] {
      PendingCons(rows, pool, oracle);
      UniqueIdsTail(rows);
      AttemptedIds(rows[1..], pool, oracle);
      var updated, rest := Classified(PendingOf(rows, pool), oracle).value,
        Classified(PendingOf(rows[1..], pool), oracle).value;
      ConfirmedCons(rows[0], pool, oracle, updated, rest);
      var ids, before := IdsOf(ConfirmedIn(updated)), IdsOf(ConfirmedIn(rest));
      var starts := IsPending(rows[0], pool) && oracle(rows[0]).Generate?;
      assert ids == if starts then [rows[0].id] + before else before;
      forall id ensures Attempted(rows, pool, oracle, id)
        <==> (starts && id == rows[0].id) || Attempted(rows[1..], pool, oracle, id)
      {
        AttemptedTail(rows, pool, oracle, id);
      }
      assert rows[0].id !in before;
      if starts {
        NoDupConcat([rows[0].id], before);
      }
    }
  }

  lemma AttemptedTail(rows: seq<FoundBlock>, pool: string, oracle: Oracle, id: nat)
    requires rows != []
    ensures Attempted(rows, pool, oracle, id) <==>
      (IsPending(rows[0], pool) && oracle(rows[0]).Generate? && id == rows[0].id) || Attempted(rows[1..], pool, oracle, id)
  {
    if Attempted(rows[1..], pool, oracle, id) {
      var i :| 0 <= i < |rows[1..]| && rows[1..][i].id == id && IsPending(rows[1..][i], pool)
        && oracle(rows[1..][i]).Generate?;
      assert rows[i + 1] == rows[1..][i];
    }
    if Attempted(rows, pool, oracle, id) {
      var i :| 0 <= i < |rows| && rows[i].id == id && IsPending(rows[i], pool) && oracle(rows[i]).Generate?;
      assert i > 0 ==> rows[1..][i - 1] == rows[i];
    }
  }

  lemma ConfirmedCons(first: FoundBlock, pool: string, oracle: Oracle, updated: seq<FoundBlock>, rest: seq<FoundBlock>)
    requires IsPending(first, pool) ==> oracle(first) != Unreachable
    requires updated == (if IsPending(first, pool) then [Judge(first, oracle(first))] else []) + rest
    ensures ConfirmedIn(updated)
      == (if IsPending(first, pool) && oracle(first).Generate? then [Judge(first, oracle(first))] else []) + ConfirmedIn(rest)
  {
    if IsPending(first, pool) {
      HeadTail(Judge(first, oracle(first)), rest);
    } else {
      ConcatEmpty(rest);
    }
  }

  // ---------- how often a block is rewarded ----------

  /** The ids of these blocks, each as often as it occurs. */
  ghost function IdCounts(blocks: seq<FoundBlock>): multiset<nat> {
    multiset(IdsOf(blocks))
  }

  lemma IdCountsConcat(a: seq<FoundBlock>, b: seq<FoundBlock>)
    ensures IdsOf(a + b) == IdsOf(a) + IdsOf(b)
    ensures IdCounts(a + b) == IdCounts(a) + IdCounts(b)
  {
    assert IdsOf(a + b) == IdsOf(a) + IdsOf(b);
  }

  lemma IdCountsCons(b: FoundBlock, blocks: seq<FoundBlock>)
    ensures IdCounts([b] + blocks) == multiset{b.id} + IdCounts(blocks)
  {
    IdCountsConcat([b], blocks);
    assert IdsOf([b]) == [b.id];
  }

  /** Every reward calculation belongs to a block that stands as confirmed, or to an update that failed. */
  ghost predicate Accounted(p: Progress) {
    && UniqueIds(p.rows)
    && multiset(p.attempts) == IdCounts(ConfirmedIn(p.rows)) + IdCounts(p.unsaved)
  }

  /** A sweep, counted: what it newly saves as confirmed and what it fails to save is what it started. */
  lemma {:induction false} SweepCounts(rows: seq<FoundBlock>, pool: string, oracle: Oracle, saveOk: nat -> bool)
    requires Classified(PendingOf(rows, pool), oracle).Ok?
    ensures var confirmed := ConfirmedIn(Classified(PendingOf(rows, pool), oracle).value);
      IdCounts(ConfirmedIn(Swept(rows, pool, oracle, saveOk))) + IdCounts(NotSaved(confirmed, saveOk))
        == IdCounts(ConfirmedIn(rows)) + IdCounts(confirmed)
  {
    if rows != [] {
      PendingCons(rows, pool, oracle);
      SweepCounts(rows[1..], pool, oracle, saveOk);
      var updated, rest := Classified(PendingOf(rows, pool), oracle).value,
        Classified(PendingOf(rows[1..], pool), oracle).value;
      ConfirmedCons(rows[0], pool, oracle, updated, rest);
      RowCounts(rows[0], pool, oracle, saveOk, rows[1..], Swept(rows[1..], pool, oracle, saveOk), ConfirmedIn(rest));
      ConsBack(rows);
    }
  }

  /** An id counted once, or not at all. */
  ghost function OnlyIf(c: bool, id: nat): multiset<nat> {
    if c then multiset{id} else multiset{}
  }

  lemma ConfirmedCounts(b: FoundBlock, rows: seq<FoundBlock>)
    ensures IdCounts(ConfirmedIn([b] + rows)) == OnlyIf(b.status == Confirmed, b.id) + IdCounts(ConfirmedIn(rows))
  {
    HeadTail(b, rows);
    IdCountsCons(b, ConfirmedIn(rows));
    ConcatEmpty(ConfirmedIn(rows));
  }

  lemma NotSavedCounts(b: FoundBlock, blocks: seq<FoundBlock>, saveOk: nat -> bool)
    ensures IdCounts(NotSaved([b] + blocks, saveOk)) == OnlyIf(!saveOk(b.id), b.id) + IdCounts(NotSaved(blocks, saveOk))
  {
    HeadTail(b, blocks);
    IdCountsCons(b, NotSaved(blocks, saveOk));
    ConcatEmpty(NotSaved(blocks, saveOk));
  }

  lemma AddBoth(x: multiset<nat>, a: multiset<nat>, b: multiset<nat>, c: multiset<nat>, d: multiset<nat>)
    requires a + b == c + d
    ensures (x + a) + b == (x + c) + d && a + (x + b) == (c + x) + d
  {
    forall k ensures ((x + a) + b)[k] == ((x + c) + d)[k] && (a + (x + b))[k] == ((c + x) + d)[k] {
      assert (a + b)[k] == (c + d)[k];
    }
  }

  lemma AddFour(x: multiset<nat>, y: multiset<nat>, w: multiset<nat>, z: multiset<nat>,
    a: multiset<nat>, b: multiset<nat>, c: multiset<nat>, d: multiset<nat>)
    requires x + y == w + z && a + b == c + d
    ensures (x + a) + (y + b) == (w + c) + (z + d)
  {
    forall k ensures ((x + a) + (y + b))[k] == ((w + c) + (z + d))[k] {
      assert (a + b)[k] == (c + d)[k] && (x + y)[k] == (w + z)[k];
    }
  }

  /** The same for one more row in front. */
  lemma RowCounts(first: FoundBlock, pool: string, oracle: Oracle, saveOk: nat -> bool, rows: seq<FoundBlock>,
    swept: seq<FoundBlock>, confirmed: seq<FoundBlock>)
    requires IdCounts(ConfirmedIn(swept)) + IdCounts(NotSaved(confirmed, saveOk))
      == IdCounts(ConfirmedIn(rows)) + IdCounts(confirmed)
    ensures var matures := IsPending(first, pool) && oracle(first).Generate?;
      var all := (if matures then [Judge(first, oracle(first))] else []) + confirmed;
      IdCounts(ConfirmedIn([SweptRow(first, pool, oracle, saveOk)] + swept)) + IdCounts(NotSaved(all, saveOk))
        == IdCounts(ConfirmedIn([first] + rows)) + IdCounts(all)
  {
    hide IdCounts, ConfirmedIn, NotSaved;
    var row, judged := SweptRow(first, pool, oracle, saveOk), Judge(first, oracle(first));
    ConfirmedCounts(row, swept);
    ConfirmedCounts(first, rows);
    if IsPending(first, pool) && oracle(first).Generate? {
      NotSavedCounts(judged, confirmed, saveOk);
      IdCountsCons(judged, confirmed);
      AddFour(OnlyIf(row.status == Confirmed, row.id), OnlyIf(!saveOk(judged.id), judged.id),
        OnlyIf(first.status == Confirmed, first.id), multiset{judged.id}, IdCounts(ConfirmedIn(swept)),
        IdCounts(NotSaved(confirmed, saveOk)), IdCounts(ConfirmedIn(rows)), IdCounts(confirmed));
    } else {
      ConcatEmpty(confirmed);
      assert row.id == first.id && (row.status == Confirmed <==> first.status == Confirmed);
      AddBoth(OnlyIf(first.status == Confirmed, first.id), IdCounts(ConfirmedIn(swept)),
        IdCounts(NotSaved(confirmed, saveOk)), IdCounts(ConfirmedIn(rows)), IdCounts(confirmed));
    }
  }

  lemma {:induction false} ConfirmedAppend(rows: seq<FoundBlock>, b: FoundBlock)
    requires b.status == Pending
    ensures ConfirmedIn(rows + [b]) == ConfirmedIn(rows)
  {
    if rows == [] {
      ConcatEmpty([b]);
    } else {
      SplitWithin(rows, [b], 1);
      ConfirmedAppend(rows[1..], b);
    }
  }

  lemma AttemptsConcat(ids: seq<nat>, blocks: seq<FoundBlock>)
    ensures multiset(ids + IdsOf(blocks)) == multiset(ids) + IdCounts(blocks)
  {
  }

  /** Every step keeps the account, whatever the nodes say and whichever updates fail. */
  lemma StepAccounted(p: Progress, pool: string, e: Event)
    requires Accounted(p) && Proper(p, e)
    ensures Accounted(Step(p, pool, e))
  {
    hide IdCounts, ConfirmedIn, NotSaved, Evolves, SaveAll, IdsOf;
    StepEvolves(p, pool, e);
    match e
    case Mined(block) =>
      ConfirmedAppend(p.rows, block);
    case Sweep(oracle, saveOk) =>
      if Classified(PendingOf(p.rows, pool), oracle).Ok? {
        var confirmed := ConfirmedIn(Classified(PendingOf(p.rows, pool), oracle).value);
        SaveAllIsSwept(p.rows, pool, oracle, saveOk);
        SweepCounts(p.rows, pool, oracle, saveOk);
        IdCountsConcat(p.unsaved, NotSaved(confirmed, saveOk));
        AttemptsConcat(p.attempts, confirmed);
        AddBoth(IdCounts(p.unsaved), IdCounts(ConfirmedIn(Swept(p.rows, pool, oracle, saveOk))),
          IdCounts(NotSaved(confirmed, saveOk)), IdCounts(ConfirmedIn(p.rows)), IdCounts(confirmed));
      }
  }

  /** Tables reached from the empty one by proper events, whichever updates fail. */
  ghost predicate Reaches(events: seq<Event>, pool: string, p: Progress) {
    Later(events, pool, Progress([], [], []), p)
  }

  lemma {:induction false} LaterAccounted(events: seq<Event>, pool: string, p: Progress, q: Progress)
    requires Accounted(p) && Later(events, pool, p, q)
    ensures Accounted(q)
    decreases |events|
  {
    if events != [] {
      var n := |events| - 1;
      var before :| Later(events[..n], pool, p, before) && Proper(before, events[n])
        && q == Step(before, pool, events[n]);
      LaterAccounted(events[..n], pool, p, before);
      StepAccounted(before, pool, events[n]);
    }
  }

  lemma {:induction false} ConfirmedCount(rows: seq<FoundBlock>, id: nat)
    requires UniqueIds(rows)
    ensures IdCounts(ConfirmedIn(rows))[id] == if ConfirmedRow(rows, id) then 1 else 0
  {
    if rows != [] {
      UniqueIdsTail(rows);
      ConfirmedCount(rows[1..], id);
      ConfirmedTail(rows, id);
      IdCountsCons(rows[0], ConfirmedIn(rows[1..]));
      ConcatEmpty(ConfirmedIn(rows[1..]));
    }
  }

  lemma ConfirmedTail(rows: seq<FoundBlock>, id: nat)
    requires rows != [] && UniqueIds(rows)
    ensures ConfirmedRow(rows, id) <==> (rows[0].id == id && rows[0].status == Confirmed) || ConfirmedRow(rows[1..], id)
    ensures rows[0].id == id ==> !ConfirmedRow(rows[1..], id)
  {
    UniqueIdsTail(rows);
    if ConfirmedRow(rows[1..], id) {
      var i :| 0 <= i < |rows[1..]| && rows[1..][i].id == id && rows[1..][i].status == Confirmed;
      assert rows[i + 1] == rows[1..][i];
      assert HasId(rows[1..], id);
    }
    if ConfirmedRow(rows, id) {
      var i :| 0 <= i < |rows| && rows[i].id == id && rows[i].status == Confirmed;
      assert i > 0 ==> rows[1..][i - 1] == rows[i];
    }
  }

  lemma NoDupCons(x: nat, ids: seq<nat>)
    ensures NoDup([x] + ids) <==> x !in ids && NoDup(ids)
  {
    var all := [x] + ids;
    assert forall i :: 0 <= i < |ids| ==> all[i + 1] == ids[i];
    assert all[0] == x;
    if NoDup(all) {
      forall i, j | 0 <= i < j < |ids| ensures ids[i] != ids[j] {
        assert all[i + 1] != all[j + 1];
      }
      forall i | 0 <= i < |ids| ensures ids[i] != x {
        assert all[0] != all[i + 1];
      }
    }
  }

  lemma CountsCons(x: nat, ids: seq<nat>)
    ensures (forall y :: multiset([x] + ids)[y] <= 1) <==> x !in ids && forall y :: multiset(ids)[y] <= 1
  {
    var all := multiset([x] + ids);
    assert all == multiset{x} + multiset(ids);
    assert x in ids <==> multiset(ids)[x] >= 1;
    if forall y :: all[y] <= 1 {
      assert all[x] <= 1;
      forall y ensures multiset(ids)[y] <= 1 {
        assert all[y] <= 1;
      }
    }
  }

  lemma {:induction false} NoDupIff(ids: seq<nat>)
    ensures NoDup(ids) <==> forall x :: multiset(ids)[x] <= 1
  {
    if ids != [] {
      ConsBack(ids);
      NoDupIff(ids[1..]);
      NoDupCons(ids[0], ids[1..]);
      CountsCons(ids[0], ids[1..]);
    }
  }

  /** How often a block is rewarded: once if it stands as confirmed, and once for every failed update of it. */
  lemma AttemptCount(p: Progress, id: nat)
    requires Accounted(p)
    ensures multiset(p.attempts)[id] == (if ConfirmedRow(p.rows, id) then 1 else 0) + IdCounts(p.unsaved)[id]
  {
    ConfirmedCount(p.rows, id);
  }

  /** Nobody was rewarded twice so far: no block's update failed twice, or failed once before it was saved. */
  ghost predicate FailedAtMostOnce(p: Progress) {
    && NoDup(IdsOf(p.unsaved))
    && forall i :: 0 <= i < |p.unsaved| ==> !ConfirmedRow(p.rows, p.unsaved[i].id)
  }

  lemma AtMostOnceIff(p: Progress)
    requires Accounted(p)
    ensures NoDup(p.attempts) <==> FailedAtMostOnce(p)
    ensures p.unsaved == [] ==> AtMostOnce(p)
  {
    NoDupIff(p.attempts);
    NoDupIff(IdsOf(p.unsaved));
    forall id
      ensures multiset(p.attempts)[id] == (if ConfirmedRow(p.rows, id) then 1 else 0) + IdCounts(p.unsaved)[id]
    {
      AttemptCount(p, id);
    }
    if FailedAtMostOnce(p) {
      forall id ensures multiset(p.attempts)[id] <= 1 {
        if id in IdCounts(p.unsaved) {
          var i :| 0 <= i < |IdsOf(p.unsaved)| && IdsOf(p.unsaved)[i] == id;
          assert !ConfirmedRow(p.rows, p.unsaved[i].id);
        }
      }
    } else if NoDup(IdsOf(p.unsaved)) {
      var i :| 0 <= i < |p.unsaved| && ConfirmedRow(p.rows, p.unsaved[i].id);
      assert IdsOf(p.unsaved)[i] == p.unsaved[i].id;
      assert p.unsaved[i].id in IdsOf(p.unsaved);
      assert multiset(p.attempts)[p.unsaved[i].id] > 1;
    } else {
      var x :| IdCounts(p.unsaved)[x] > 1;
      assert multiset(p.attempts)[x] > 1;
    }
    forall i | 0 <= i < |p.attempts| && p.unsaved == [] ensures ConfirmedRow(p.rows, p.attempts[i]) {
      assert p.attempts[i] in multiset(p.attempts);
      AttemptCount(p, p.attempts[i]);
    }
  }

  /**
   * Reward at most once, exactly when, over every run of arrivals and sweeps: a block's reward is calculated once if
   * it stands as confirmed and once for every failed update of it, so nobody is rewarded twice exactly when no block's
   * update failed twice, or failed before another one succeeded.
   */
  lemma RewardedAtMostOnce(events: seq<Event>, pool: string, p: Progress)
    requires Reaches(events, pool, p)
    ensures Accounted(p)
    ensures forall id ::
      multiset(p.attempts)[id] == (if ConfirmedRow(p.rows, id) then 1 else 0) + IdCounts(p.unsaved)[id]
    ensures NoDup(p.attempts) <==> FailedAtMostOnce(p)
    ensures p.unsaved == [] ==> AtMostOnce(p)
  {
    assert Accounted(Progress([], [], []));
    LaterAccounted(events, pool, Progress([], [], []), p);
    AtMostOnceIff(p);
    forall id
      ensures multiset(p.attempts)[id] == (if ConfirmedRow(p.rows, id) then 1 else 0) + IdCounts(p.unsaved)[id]
    {
      AttemptCount(p, id);
    }
  }

  /** The updates of matured blocks succeed; those of others may fail. */
  predicate SavesMatured(rows: seq<FoundBlock>, pool: string, oracle: Oracle, saveOk: nat -> bool) {
    forall k :: 0 <= k < |rows| && IsPending(rows[k], pool) && oracle(rows[k]).Generate? ==> saveOk(rows[k].id)
  }

  lemma {:induction false} NotSavedNone(blocks: seq<FoundBlock>, saveOk: nat -> bool)
    ensures NotSaved(blocks, saveOk) == [] <==> forall i :: 0 <= i < |blocks| ==> saveOk(blocks[i].id)
  {
    if blocks != [] {
      NotSavedNone(blocks[1..], saveOk);
      assert forall i :: 1 <= i < |blocks| ==> blocks[i] == blocks[1..][i - 1];
    }
  }

  /** A sweep adds nothing to the failed updates exactly when it stalls or saves all matured blocks. */
  lemma SavesAllIff(p: Progress, pool: string, oracle: Oracle, saveOk: nat -> bool)
    requires UniqueIds(p.rows)
    ensures Step(p, pool, Sweep(oracle, saveOk)).unsaved == p.unsaved
      <==> !AllAnswered(p.rows, pool, oracle) || SavesMatured(p.rows, pool, oracle, saveOk)
  {
    ClassifiedIffAnswered(p.rows, pool, oracle);
    if AllAnswered(p.rows, pool, oracle) {
      var confirmed := ConfirmedIn(Classified(PendingOf(p.rows, pool), oracle).value);
      AttemptedIds(p.rows, pool, oracle);
      NotSavedNone(confirmed, saveOk);
      var lost := NotSaved(confirmed, saveOk);
      assert p.unsaved + lost == p.unsaved <==> lost == [] by {
        ConcatEmpty(p.unsaved);
      }
      if SavesMatured(p.rows, pool, oracle, saveOk) {
        forall i | 0 <= i < |confirmed| ensures saveOk(confirmed[i].id) {
          assert IdsOf(confirmed)[i] in IdsOf(confirmed);
          assert Attempted(p.rows, pool, oracle, confirmed[i].id);
        }
      } else {
        var k :| 0 <= k < |p.rows| && IsPending(p.rows[k], pool) && oracle(p.rows[k]).Generate?
          && !saveOk(p.rows[k].id);
        assert Attempted(p.rows, pool, oracle, p.rows[k].id);
        assert p.rows[k].id in IdsOf(confirmed);
        var i :| 0 <= i < |confirmed| && IdsOf(confirmed)[i] == p.rows[k].id;
      }
    }
  }

  lemma NewAttempts(p: Progress, pool: string, oracle: Oracle, saveOk: nat -> bool, id: nat)
    requires UniqueIds(p.rows)
    ensures var q := Step(p, pool, Sweep(oracle, saveOk));
      && p.attempts <= q.attempts
      && (id in q.attempts[|p.attempts|..]
          <==> AllAnswered(p.rows, pool, oracle) && Attempted(p.rows, pool, oracle, id))
  {
    ClassifiedIffAnswered(p.rows, pool, oracle);
    if AllAnswered(p.rows, pool, oracle) {
      AttemptedIds(p.rows, pool, oracle);
      SplitBetween(p.attempts, IdsOf(ConfirmedIn(Classified(PendingOf(p.rows, pool), oracle).value)));
    }
  }

  /**
   * A block that matures in one sweep is rewarded in the next one as well exactly when its update failed, the nodes
   * answer for all pending blocks the second time, and the block still counts as mature.
   */
  lemma RewardedAgainIff(p: Progress, pool: string, oracle: Oracle, saveOk: nat -> bool, later: Oracle,
    saveLater: nat -> bool, k: nat)
    requires UniqueIds(p.rows) && AllAnswered(p.rows, pool, oracle)
    requires k < |p.rows| && IsPending(p.rows[k], pool) && oracle(p.rows[k]).Generate?
    ensures var q := Step(p, pool, Sweep(oracle, saveOk));
      var r := Step(q, pool, Sweep(later, saveLater));
      var id := p.rows[k].id;
      && p.attempts <= q.attempts <= r.attempts
      && id in q.attempts[|p.attempts|..]
      && (id in r.attempts[|q.attempts|..]
          <==> !saveOk(id) && AllAnswered(q.rows, pool, later) && later(p.rows[k]).Generate?)
  {
    var q, id := Step(p, pool, Sweep(oracle, saveOk)), p.rows[k].id;
    NewAttempts(p, pool, oracle, saveOk, id);
    StepEvolves(p, pool, Sweep(oracle, saveOk));
    NewAttempts(q, pool, later, saveLater, id);
    OneBadBlockStallsSweep(p, pool, oracle, saveOk);
    SweptEvolves(p.rows, pool, oracle, saveOk);
    assert q.rows[k] == SweptRow(p.rows[k], pool, oracle, saveOk);
    if saveOk(id) {
      SettledNotAttempted(q.rows, pool, later, k);
    }
  }

  // ---------- what a sweep needs, and what it settles ----------

  /** The nodes answer for every pending block of the pool. */
  predicate AllAnswered(rows: seq<FoundBlock>, pool: string, oracle: Oracle) {
    forall k :: 0 <= k < |rows| && IsPending(rows[k], pool) ==> oracle(rows[k]) != Unreachable
  }

  lemma AnsweredTail(rows: seq<FoundBlock>, pool: string, oracle: Oracle)
    requires rows != []
    ensures AllAnswered(rows, pool, oracle)
      <==> (IsPending(rows[0], pool) ==> oracle(rows[0]) != Unreachable) && AllAnswered(rows[1..], pool, oracle)
  {
    if AllAnswered(rows[1..], pool, oracle) {
      assert forall k :: 1 <= k < |rows| ==> rows[1..][k - 1] == rows[k];
    }
  }

  /** The whole list is judged exactly when no pending block is without an answer. */
  lemma {:induction false} ClassifiedIffAnswered(rows: seq<FoundBlock>, pool: string, oracle: Oracle)
    ensures Classified(PendingOf(rows, pool), oracle).Ok? <==> AllAnswered(rows, pool, oracle)
  {
    if rows != [] {
      ClassifiedIffAnswered(rows[1..], pool, oracle);
      AnsweredTail(rows, pool, oracle);
      if IsPending(rows[0], pool) {
        HeadTail(rows[0], PendingOf(rows[1..], pool));
      } else {
        ConcatEmpty(PendingOf(rows[1..], pool));
      }
    }
  }

  /** One pending block the node cannot answer for stops the sweep for all; otherwise every row gets its verdict. */
  lemma OneBadBlockStallsSweep(p: Progress, pool: string, oracle: Oracle, saveOk: nat -> bool)
    ensures !AllAnswered(p.rows, pool, oracle) ==> Step(p, pool, Sweep(oracle, saveOk)) == p
    ensures AllAnswered(p.rows, pool, oracle) && UniqueIds(p.rows) ==>
      Step(p, pool, Sweep(oracle, saveOk)).rows == Swept(p.rows, pool, oracle, saveOk)
  {
    ClassifiedIffAnswered(p.rows, pool, oracle);
    if AllAnswered(p.rows, pool, oracle) && UniqueIds(p.rows) {
      SaveAllIsSwept(p.rows, pool, oracle, saveOk);
    }
  }

  /** A sweep in the nodes' own answers: what became of each row, field by field. */
  predicate AsAnswered(before: seq<FoundBlock>, after: seq<FoundBlock>, pool: string, oracle: Oracle,
    saveOk: nat -> bool)
  {
    && |after| == |before|
    && if exists k ::
            0 <= k < |before| && before[k].pool == pool && before[k].status == Pending && oracle(before[k]).Unreachable?
       then after == before
       else forall k :: 0 <= k < |before| ==>
         after[k] ==
           if before[k].pool == pool && before[k].status == Pending && saveOk(before[k].id) then
             match oracle(before[k])
             case Generate(amount) => before[k].(status := Confirmed, reward := amount)
             case Immature(amount) => before[k].(reward := amount)
             case _ => before[k].(status := Orphaned, reward := 0.0)
           else before[k]
  }

  /** A block whose update succeeds stands as the node has it; all else is untouched. */
  lemma SweepIsAsAnswered(p: Progress, pool: string, oracle: Oracle, saveOk: nat -> bool)
    requires UniqueIds(p.rows)
    ensures AsAnswered(p.rows, Step(p, pool, Sweep(oracle, saveOk)).rows, pool, oracle, saveOk)
  {
    OneBadBlockStallsSweep(p, pool, oracle, saveOk);
    if AllAnswered(p.rows, pool, oracle) {
      SweptEvolves(p.rows, pool, oracle, saveOk);
    }
  }

  /** Tables reached from `p` by proper events, whichever updates fail. */
  ghost predicate Later(events: seq<Event>, pool: string, p: Progress, q: Progress)
    decreases |events|
  {
    if events == [] then q == p
    else
      var n := |events| - 1;
      exists before :: Later(events[..n], pool, p, before) && Proper(before, events[n])
        && q == Step(before, pool, events[n])
  }

  /** A row that left pending stands unchanged for ever. */
  lemma {:induction false} SettledForEver(events: seq<Event>, pool: string, p: Progress, q: Progress, k: nat)
    requires UniqueIds(p.rows) && k < |p.rows| && p.rows[k].status != Pending && Later(events, pool, p, q)
    ensures UniqueIds(q.rows) && k < |q.rows| && q.rows[k] == p.rows[k]
    decreases |events|
  {
    if events != [] {
      var n := |events| - 1;
      var before :| Later(events[..n], pool, p, before) && Proper(before, events[n])
        && q == Step(before, pool, events[n]);
      SettledForEver(events[..n], pool, p, before, k);
      StepEvolves(before, pool, events[n]);
    }
  }

  lemma SettledNotAttempted(rows: seq<FoundBlock>, pool: string, oracle: Oracle, k: nat)
    requires UniqueIds(rows) && k < |rows| && rows[k].status != Pending
    ensures !Attempted(rows, pool, oracle, rows[k].id)
  {
  }

  /** A matured block whose update succeeds is confirmed for ever, and no later sweep calculates its reward again. */
  lemma MaturedIsSettled(p: Progress, pool: string, oracle: Oracle, saveOk: nat -> bool, k: nat, events: seq<Event>,
    q: Progress, later: Oracle)
    requires UniqueIds(p.rows) && AllAnswered(p.rows, pool, oracle)
    requires k < |p.rows| && IsPending(p.rows[k], pool) && oracle(p.rows[k]).Generate? && saveOk(p.rows[k].id)
    requires Later(events, pool, Step(p, pool, Sweep(oracle, saveOk)), q)
    ensures Attempted(p.rows, pool, oracle, p.rows[k].id)
    ensures k < |q.rows| && q.rows[k] == Judge(p.rows[k], oracle(p.rows[k])) && q.rows[k].status == Confirmed
    ensures !Attempted(q.rows, pool, later, p.rows[k].id)
  {
    var next := Step(p, pool, Sweep(oracle, saveOk));
    OneBadBlockStallsSweep(p, pool, oracle, saveOk);
    SweptEvolves(p.rows, pool, oracle, saveOk);
    StepEvolves(p, pool, Sweep(oracle, saveOk));
    assert next.rows[k] == SweptRow(p.rows[k], pool, oracle, saveOk);
    SettledForEver(events, pool, next, q, k);
    SettledNotAttempted(q.rows, pool, later, k);
  }
}
