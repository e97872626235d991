/** pool/buffer.go and the append in pool/work.go: shares between the miners and the table, in every interleaving. */
module ShareBuffer {
  import opened Base
  import opened Shares

  /** Where the flushing loop stands; the batch is its local variable, out of reach of everybody else. */
  datatype Phase = Asleep | Writing(batch: seq<Share>) | Refused(batch: seq<Share>)

  /** The buffer under the lock, the loop, the table, and everything accepted so far in order of arrival. */
  datatype State = State(buffer: seq<Share>, phase: Phase, stored: seq<Share>, accepted: seq<Share>)

  /** What runs without interruption: a miner's append, and the three sections of one turn of the loop. */
  datatype Action = Accept(share: Share) | Swap | Insert(fails: bool) | PutBack

  const START := State([], Asleep, [], [])

  predicate Enabled(s: State, a: Action) {
    match a
    case Accept(_) => true
    case Swap => s.phase.Asleep?
    case Insert(_) => s.phase.Writing?
    case PutBack => s.phase.Refused?
  }

  function Next(s: State, a: Action): State
    requires Enabled(s, a)
  {
    match a
    case Accept(share) => s.(buffer := s.buffer + [share], accepted := s.accepted + [share])
    case Swap => s.(buffer := [], phase := Writing(s.buffer))
    case Insert(fails) =>
      if fails then s.(phase := Refused(s.phase.batch))
      else s.(phase := Asleep, stored := s.stored + s.phase.batch)
    case PutBack => s.(buffer := s.buffer + s.phase.batch, phase := Asleep)
  }

  /** Every interleaving of miners and loop is such a list of actions. */
  ghost predicate Reaches(actions: seq<Action>, s: State)
    decreases |actions|
  {
    if actions == [] then s == START
    else
      var n := |actions| - 1;
      exists before :: Reaches(actions[..n], before) && Enabled(before, actions[n]) && s == Next(before, actions[n])
  }

  function InFlight(p: Phase): seq<Share> {
    if p.Asleep? then [] else p.batch
  }

  /** Each accepted share is in exactly one place. */
  predicate Accounted(s: State) {
    multiset(s.accepted) == multiset(s.stored) + multiset(InFlight(s.phase)) + multiset(s.buffer)
  }

  lemma NextAccounts(s: State, a: Action)
    requires Accounted(s) && Enabled(s, a)
    ensures Accounted(Next(s, a)) && s.stored <= Next(s, a).stored && s.accepted <= Next(s, a).accepted
  {
    match a
    case Accept(share) =>
      JoinCounts(s.buffer, [share]);
      JoinCounts(s.accepted, [share]);
    case Swap =>
    case Insert(fails) => JoinCounts(s.stored, s.phase.batch);
    case PutBack => JoinCounts(s.buffer, s.phase.batch);
  }

  /**
   * Conservation in every interleaving: what miners got accepted is what is stored, being written, and buffered, each
   * share as often as it came in.  So none is lost, and none is stored more often than it was accepted.
   */
  lemma {:induction false} NoShareLostOrDoubled(actions: seq<Action>, s: State)
    requires Reaches(actions, s)
    ensures Accounted(s)
    ensures multiset(s.stored) <= multiset(s.accepted)
    decreases |actions|
  {
    if actions != [] {
      var n := |actions| - 1;
      var before :| Reaches(actions[..n], before) && Enabled(before, actions[n]) && s == Next(before, actions[n]);
      NoShareLostOrDoubled(actions[..n], before);
      NextAccounts(before, actions[n]);
    }
  }

  /** After any history, one turn that nobody interrupts and whose write succeeds stores all that was ever accepted. */
  lemma QuietTurnStoresAll(actions: seq<Action>, s: State)
    requires Reaches(actions, s) && s.phase.Asleep?
    ensures var done := Next(Next(s, Swap), Insert(false));
      done.buffer == [] && done.phase.Asleep? && multiset(done.stored) == multiset(s.accepted)
  {
    NoShareLostOrDoubled(actions, s);
    JoinCounts(s.stored, s.buffer);
  }

  // ---------- the code ----------

  class PoolServer {
    var shareBuffer: seq<Share>
    var sharesToWrite: Phase
    ghost var accepted: seq<Share>
    const shares: ShareTable

    constructor ()
      ensures View() == START && fresh(shares)
    {
      shareBuffer, sharesToWrite, accepted := [], Asleep, [];
      shares := new ShareTable();
    }

    ghost function View(): State
      reads this, shares
    {
      State(shareBuffer, sharesToWrite, shares.rows, accepted)
    }

    /** The append of `recieveWorkFromClient`, under the lock. */
    method Receive(share: Share)
      modifies this
      ensures View() == Next(old(View()), Accept(share))
    {
      shareBuffer := shareBuffer + [share];
      accepted := accepted + [share];
    }

    /** First locked section of the loop: takes the whole buffer. */
    method Take()
      requires sharesToWrite.Asleep?
      modifies this
      ensures View() == Next(old(View()), Swap)
    {
      sharesToWrite := Writing(shareBuffer);
      shareBuffer := [];
    }

    /** The write, without the lock; it stores all of the batch or none of it. */
    method Write(fails: bool) returns (r: Result<()>)
      requires sharesToWrite.Writing?
      modifies this, shares
      ensures View() == Next(old(View()), Insert(fails))
      ensures r.Ok? <==> !fails
    {
      r := shares.InsertBatch(sharesToWrite.batch, fails);
      sharesToWrite := if r.Ok? then Asleep else Refused(sharesToWrite.batch);
    }

    /** Second locked section, after a failed write: the batch goes behind whatever came in meanwhile. */
    method PutBackRefused()
      requires sharesToWrite.Refused?
      modifies this
      ensures View() == Next(old(View()), PutBack)
    {
      shareBuffer := shareBuffer + sharesToWrite.batch;
      sharesToWrite := Asleep;
    }

    /**
     * One turn of the loop while `arrivals` come in during the write.  A turn keeps every share accounted for, and
     * leaves behind exactly the arrivals, followed by the old buffer if the write failed.
     */
    method Turn(arrivals: seq<Share>, fails: bool)
      requires sharesToWrite.Asleep? && Accounted(View())
      modifies this, shares
      ensures sharesToWrite.Asleep? && Accounted(View())
      ensures accepted == old(accepted) + arrivals
      ensures shareBuffer == if fails then arrivals + old(shareBuffer) else arrivals
      ensures shares.rows == if fails then old(shares.rows) else old(shares.rows) + old(shareBuffer)
    {
      NextAccounts(View(), Swap);
      Take();
      ConcatEmpty(accepted);
      for i := 0 to |arrivals|
        invariant Accounted(View()) && sharesToWrite == Writing(old(shareBuffer)) && shares.rows == old(shares.rows)
        invariant shareBuffer == arrivals[..i] && accepted == old(accepted) + arrivals[..i]
      {
        NextAccounts(View(), Accept(arrivals[i]));
        TakeNext(arrivals, i);
        ConcatAssoc(old(accepted), arrivals[..i], [arrivals[i]]);
        Receive(arrivals[i]);
      }
      TakeAll(arrivals);
      NextAccounts(View(), Insert(fails));
      var err := Write(fails);
      if err.Err? {
        NextAccounts(View(), PutBack);
        PutBackRefused();
      }
    }
  }
}
