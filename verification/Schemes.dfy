/** payouts/prop.go, payouts/pplns.go, payouts/solo.go: how one block's reward is split among miners. */
module Schemes {
  import opened Base
  import opened Ledger
  import opened Crediting
  import opened Shares

  // ---------- scores ----------

  /** Difficulties are positive: a share is recorded with the pool's and the network's difficulty. */
  predicate Scored(s: seq<Share>) {
    forall i :: 0 <= i < |s| ==> s[i].difficulty > 0.0 && s[i].networkDifficulty > 0.0
  }

  function Score(x: Share): (r: real)
    requires x.difficulty > 0.0 && x.networkDifficulty > 0.0
    ensures r > 0.0
  {
    x.difficulty / x.networkDifficulty
  }

  function Scaled(score: real, rate: real): real {
    score * rate
  }

  /** What the shares in `v` are worth together when one score point is worth `rate`. */
  function Worth(v: seq<Share>, rate: real): real
    requires Scored(v)
  {
    if v == [] then 0.0 else Worth(v[..|v| - 1], rate) + Scaled(Score(v[|v| - 1]), rate)
  }

  /** What those of one miner are worth. */
  function MinerWorth(v: seq<Share>, miner: string, rate: real): real
    requires Scored(v)
  {
    if v == [] then 0.0
    else
      MinerWorth(v[..|v| - 1], miner, rate)
        + if v[|v| - 1].miner == miner then Scaled(Score(v[|v| - 1]), rate) else 0.0
  }

  function ScoreSum(v: seq<Share>): real
    requires Scored(v)
  {
    if v == [] then 0.0 else ScoreSum(v[..|v| - 1]) + Score(v[|v| - 1])
  }

  function MinersOf(v: seq<Share>): set<string> {
    if v == [] then {} else MinersOf(v[..|v| - 1]) + {v[|v| - 1].miner}
  }

  function Latest(v: seq<Share>): Time {
    if v == [] then 0
    else
      var before := Latest(v[..|v| - 1]);
      if v[|v| - 1].created > before then v[|v| - 1].created else before
  }

  /** A scan has gathered, miner by miner, what the shares in `v` are worth. */
  ghost predicate Tallied(scores: map<string, real>, v: seq<Share>, rate: real) {
    && Scored(v)
    && scores.Keys == MinersOf(v)
    && forall m :: m in scores ==> scores[m] == MinerWorth(v, m, rate)
  }

  function Plus(scores: map<string, real>, miner: string, x: real): map<string, real> {
    scores[miner := (if miner in scores then scores[miner] else 0.0) + x]
  }

  lemma LastOf<T>(v: seq<T>, x: T)
    ensures var w := v + [x]; w != [] && w[..|w| - 1] == v && w[|w| - 1] == x
  {
  }

  lemma AppendShare(v: seq<Share>, x: Share, rate: real)
    requires Scored(v) && x.difficulty > 0.0 && x.networkDifficulty > 0.0
    ensures Scored(v + [x]) && MinersOf(v + [x]) == MinersOf(v) + {x.miner}
    ensures Worth(v + [x], rate) == Worth(v, rate) + Scaled(Score(x), rate)
    ensures ScoreSum(v + [x]) == ScoreSum(v) + Score(x)
    ensures Latest(v + [x]) == if x.created > Latest(v) then x.created else Latest(v)
  {
    hide Scaled, Score;
    LastOf(v, x);
  }

  lemma AppendForMiner(v: seq<Share>, x: Share, rate: real, m: string)
    requires Scored(v) && x.difficulty > 0.0 && x.networkDifficulty > 0.0
    ensures Scored(v + [x])
    ensures MinerWorth(v + [x], m, rate) == MinerWorth(v, m, rate) + if x.miner == m then Scaled(Score(x), rate) else 0.0
  {
    hide Scaled, Score;
    LastOf(v, x);
  }

  lemma {:induction false} NoWorth(v: seq<Share>, m: string, rate: real)
    requires Scored(v) && m !in MinersOf(v)
    ensures MinerWorth(v, m, rate) == 0.0
  {
    if v != [] {
      NoWorth(v[..|v| - 1], m, rate);
    }
  }

  lemma TallyNext(scores: map<string, real>, v: seq<Share>, x: Share, rate: real)
    requires Tallied(scores, v, rate) && x.difficulty > 0.0 && x.networkDifficulty > 0.0
    ensures Tallied(Plus(scores, x.miner, Scaled(Score(x), rate)), v + [x], rate)
  {
    hide Scaled, Score;
    AppendShare(v, x, rate);
    var y := Scaled(Score(x), rate);
    var after := Plus(scores, x.miner, y);
    if x.miner !in scores {
      NoWorth(v, x.miner, rate);
    }
    forall m | m in after ensures after[m] == MinerWorth(v + [x], m, rate) {
      AppendForMiner(v, x, rate, m);
    }
  }

  lemma TallyOf(v: seq<Share>, rate: real) returns (scores: map<string, real>)
    requires Scored(v)
    ensures Tallied(scores, v, rate)
  {
    scores := map m | m in MinersOf(v) :: MinerWorth(v, m, rate);
  }

  lemma InitLast<T>(v: seq<T>) returns (w: seq<T>, x: T)
    requires v != []
    ensures v == w + [x] && |w| < |v| && x in v && forall y :: y in w ==> y in v
  {
    w, x := v[..|v| - 1], v[|v| - 1];
  }

  /** All miners together get what all shares are worth. */
  lemma {:induction false} TalliedTotal(scores: map<string, real>, v: seq<Share>, rate: real)
    requires Tallied(scores, v, rate)
    ensures MapTotal(scores) == Worth(v, rate)
    decreases |v|
  {
    if v == [] {
      assert scores == map[];
    } else {
      var w, x := InitLast(v);
      var before := TallyOf(w, rate);
      TalliedTotal(before, w, rate);
      TallyStep(scores, before, w, x, rate);
      AppendShare(w, x, rate);
    }
  }

  lemma TallyStep(scores: map<string, real>, before: map<string, real>, w: seq<Share>, x: Share, rate: real)
    requires Tallied(scores, w + [x], rate) && Tallied(before, w, rate)
    requires x.difficulty > 0.0 && x.networkDifficulty > 0.0
    ensures MapTotal(scores) == MapTotal(before) + Scaled(Score(x), rate)
  {
    hide Scaled, Score;
    var y := Scaled(Score(x), rate);
    TallyNext(before, w, x, rate);
    SameTally(scores, Plus(before, x.miner, y), w + [x], rate);
    PlusTotal(before, x.miner, y);
  }

  lemma PlusTotal(scores: map<string, real>, miner: string, x: real)
    ensures MapTotal(Plus(scores, miner, x)) == MapTotal(scores) + x
  {
    MapTotalPut(scores, miner, Plus(scores, miner, x)[miner]);
  }

  lemma SameTally(a: map<string, real>, b: map<string, real>, v: seq<Share>, rate: real)
    requires Tallied(a, v, rate) && Tallied(b, v, rate)
    ensures a == b
  {
  }

  lemma Distribute(a: real, b: real, c: real)
    ensures (a + b) * c == a * c + b * c
  {
  }

  lemma {:induction false} WorthIsScore(v: seq<Share>, rate: real)
    requires Scored(v)
    ensures Worth(v, rate) == Scaled(ScoreSum(v), rate)
  {
    if v != [] {
      WorthIsScore(v[..|v| - 1], rate);
      Distribute(ScoreSum(v[..|v| - 1]), Score(v[|v| - 1]), rate);
    }
  }

  lemma {:induction false} ScoreSumPositive(v: seq<Share>)
    requires Scored(v)
    ensures ScoreSum(v) >= 0.0 && (v != [] ==> ScoreSum(v) > 0.0)
  {
    if v != [] {
      ScoreSumPositive(v[..|v| - 1]);
    }
  }

  // ---------- the same in the shares' own numbers ----------

  /** Difficulty over network difficulty, share by share, added up. */
  function Quotients(v: seq<Share>): real
    requires Scored(v)
  {
    if v == [] then 0.0
    else Quotients(v[..|v| - 1]) + v[|v| - 1].difficulty / v[|v| - 1].networkDifficulty
  }

  function QuotientsOf(v: seq<Share>, miner: string): real
    requires Scored(v)
  {
    if v == [] then 0.0
    else
      QuotientsOf(v[..|v| - 1], miner)
        + if v[|v| - 1].miner == miner then v[|v| - 1].difficulty / v[|v| - 1].networkDifficulty else 0.0
  }

  function Difficulties(v: seq<Share>): real {
    if v == [] then 0.0 else Difficulties(v[..|v| - 1]) + v[|v| - 1].difficulty
  }

  function DifficultiesOf(v: seq<Share>, miner: string): real {
    if v == [] then 0.0
    else DifficultiesOf(v[..|v| - 1], miner) + if v[|v| - 1].miner == miner then v[|v| - 1].difficulty else 0.0
  }

  lemma {:induction false} ScoresAreQuotients(v: seq<Share>, miner: string, rate: real)
    requires Scored(v)
    ensures ScoreSum(v) == Quotients(v)
    ensures MinerWorth(v, miner, rate) == QuotientsOf(v, miner) * rate
  {
    if v != [] {
      var x := v[|v| - 1];
      ScoresAreQuotients(v[..|v| - 1], miner, rate);
      Distribute(QuotientsOf(v[..|v| - 1], miner), x.difficulty / x.networkDifficulty, rate);
    }
  }

  predicate OneDifficulty(v: seq<Share>, d: real) {
    forall i :: 0 <= i < |v| ==> v[i].networkDifficulty == d
  }

  lemma {:induction false} QuotientsOverOne(v: seq<Share>, d: real, miner: string)
    requires Scored(v) && OneDifficulty(v, d) && d > 0.0
    ensures Quotients(v) == Difficulties(v) / d && QuotientsOf(v, miner) == DifficultiesOf(v, miner) / d
  {
    if v != [] {
      var w, x := v[..|v| - 1], v[|v| - 1];
      QuotientsOverOne(w, d, miner);
      SumOfQuotients(Difficulties(w), x.difficulty, d);
      SumOfQuotients(DifficultiesOf(w, miner), x.difficulty, d);
    } else {
      assert 0.0 / d == 0.0;
    }
  }

  lemma SumOfQuotients(a: real, b: real, d: real)
    requires d > 0.0
    ensures (a + b) / d == a / d + b / d
  {
  }

  lemma QuotientAgainst(a: real, b: real, d: real)
    requires d > 0.0
    ensures a / d < b <==> a < b * d
  {
    var q := a / d;
    assert a == q * d;
    if q < b {
      assert (b - q) * d > 0.0;
    } else {
      assert (q - b) * d >= 0.0;
    }
  }

  /** While the network difficulty stays at `d`, the window is two network difficulties of work. */
  lemma WorkInWindow(v: seq<Share>, d: real, blockReward: real, miner: string)
    requires Scored(v) && OneDifficulty(v, d) && d > 0.0
    ensures Quotients(v) < 2.0 <==> Difficulties(v) < 2.0 * d
    ensures QuotientsOf(v, miner) * blockReward / 2.0 == DifficultiesOf(v, miner) * blockReward / (2.0 * d)
  {
    hide Quotients, QuotientsOf, Difficulties, DifficultiesOf, Scored, OneDifficulty;
    QuotientsOverOne(v, d, miner);
    QuotientAgainst(Difficulties(v), 2.0, d);
    OneQuotient(DifficultiesOf(v, miner), blockReward, d);
  }

  lemma OneQuotient(a: real, r: real, d: real)
    requires d > 0.0
    ensures a / d * r / 2.0 == a * r / (2.0 * d)
  {
    var q := a / d;
    assert a == q * d;
    assert a * r == (q * r / 2.0) * (2.0 * d);
  }

  // ---------- which shares a block covers ----------

  /** The shares at or before the block, newest first. */
  function Covered(rows: seq<Share>, pool: string, created: Time): seq<Share> {
    Below(Newest(rows, pool), created, true)
  }

  lemma {:induction false} OfPoolFrom(rows: seq<Share>, pool: string)
    ensures forall x :: x in OfPool(rows, pool) <==> x in rows && x.pool == pool
  {
    if rows != [] {
      OfPoolFrom(rows[1..], pool);
      ConsBack(rows);
    }
  }

  lemma NewestFrom(rows: seq<Share>, pool: string)
    ensures Descending(Newest(rows, pool))
    ensures forall x :: x in Newest(rows, pool) <==> x in rows && x.pool == pool
  {
    OfPoolFrom(rows, pool);
    SortedIsPermutation(OfPool(rows, pool));
    forall x ensures x in Newest(rows, pool) <==> x in OfPool(rows, pool) {
      assert x in multiset(Newest(rows, pool)) <==> x in multiset(OfPool(rows, pool));
    }
  }

  /** Exactly this pool's shares created at or before the block. */
  lemma CoveredExact(rows: seq<Share>, pool: string, created: Time)
    ensures Descending(Covered(rows, pool, created))
    ensures forall x :: x in Covered(rows, pool, created) <==> x in rows && x.pool == pool && x.created <= created
  {
    var all := Newest(rows, pool);
    NewestFrom(rows, pool);
    BelowIsExact(all, created, true);
    var k := BelowIsSuffix(all, created, true);
    var s := Covered(rows, pool, created);
    forall x ensures x in s <==> x in all && x.created <= created {
      if x in all && x.created <= created {
        var i :| 0 <= i < |all| && all[i] == x;
        assert all[k..][i - k] == x;
      }
    }
  }

  lemma {:induction false} OfPoolCounts(rows: seq<Share>, pool: string, x: Share)
    ensures multiset(OfPool(rows, pool))[x] == if x.pool == pool then multiset(rows)[x] else 0
  {
    if rows != [] {
      OfPoolCounts(rows[1..], pool, x);
      ConsBack(rows);
      JoinCounts([rows[0]], rows[1..]);
      JoinCounts(if rows[0].pool == pool then [rows[0]] else [], OfPool(rows[1..], pool));
    }
  }

  /** Each of them as often as it is stored. */
  lemma CoveredCounts(rows: seq<Share>, pool: string, created: Time, x: Share)
    ensures multiset(Covered(rows, pool, created))[x]
      == if x.pool == pool && x.created <= created then multiset(rows)[x] else 0
  {
    var all := Newest(rows, pool);
    OfPoolCounts(rows, pool, x);
    SortedIsPermutation(OfPool(rows, pool));
    CoveredExact(rows, pool, created);
    var k := BelowIsSuffix(all, created, true);
    SplitCounts(all, k);
    if x in multiset(all[..k]) {
      var i :| 0 <= i < k && all[..k][i] == x;
      assert all[i] == x;
    }
    assert x in Covered(rows, pool, created) <==> x in multiset(Covered(rows, pool, created));
  }

  lemma PageScored(rows: seq<Share>, pool: string, before: Time, inclusive: bool, pageSize: nat)
    requires Scored(rows)
    ensures Scored(Page(rows, pool, before, inclusive, pageSize))
  {
    hide Score, OfPool, Sorted;
    NewestFrom(rows, pool);
    var all := Newest(rows, pool);
    EachScored(rows, all);
    var k := BelowIsSuffix(all, before, inclusive);
    SliceScored(all, k, |all|);
    SliceScored(all[k..], 0, if |all| - k <= pageSize then |all| - k else pageSize);
    TakeAll(all[k..]);
  }

  lemma EachScored(rows: seq<Share>, some: seq<Share>)
    requires Scored(rows) && forall x :: x in some ==> x in rows
    ensures Scored(some)
  {
    forall i | 0 <= i < |some| ensures some[i].difficulty > 0.0 && some[i].networkDifficulty > 0.0 {
      assert some[i] in some;
    }
  }

  lemma SliceScored(s: seq<Share>, i: nat, j: nat)
    requires Scored(s) && i <= j <= |s|
    ensures Scored(s[i..j])
  {
  }

  /** Where a scan stands: `seen` is done, and the cursor leads to the rest of `target`. */
  ghost predicate Scanning(rows: seq<Share>, pool: string, seen: seq<Share>, before: Time, inclusive: bool,
    pageSize: nat, target: seq<Share>)
    requires pageSize >= 1
  {
    seen + Visited(Below(Newest(rows, pool), before, inclusive), pageSize) == target
  }

  lemma ScanStep(rows: seq<Share>, pool: string, seen: seq<Share>, before: Time, inclusive: bool, pageSize: nat,
    target: seq<Share>)
    requires pageSize >= 1 && Scanning(rows, pool, seen, before, inclusive, pageSize, target)
    ensures var page := Page(rows, pool, before, inclusive, pageSize);
      && seen + page <= target
      && (|page| < pageSize ==> seen + page == target)
      && (|page| >= pageSize ==>
        && |page| == pageSize
        && Scanning(rows, pool, seen + page, page[pageSize - 1].created, false, pageSize, target)
        && |Below(Newest(rows, pool), page[pageSize - 1].created, false)| < |Below(Newest(rows, pool), before, inclusive)|)
  {
    NewestFrom(rows, pool);
    var all := Newest(rows, pool);
    var s := Below(all, before, inclusive);
    if |s| >= pageSize {
      NextPage(all, before, inclusive, pageSize);
      TakeAll(s);
      var rest := Below(s[pageSize..], s[pageSize - 1].created, false);
      ConcatAssoc(seen, s[..pageSize], Visited(rest, pageSize));
    }
  }

  lemma {:induction false} LatestIsFirst(v: seq<Share>)
    requires v != [] && Descending(v)
    ensures Latest(v) == v[0].created
  {
    if |v| > 1 {
      LatestIsFirst(v[..|v| - 1]);
    }
  }

  /**
   * A paged scan is the unpaged one exactly when no page ends between two shares of one timestamp, for every page
   * size; its cutoff is then the newest covered share.
   */
  lemma PagedScanIsUnpaged(rows: seq<Share>, pool: string, created: Time, pageSize: nat)
    requires pageSize >= 1
    ensures var s := Covered(rows, pool, created);
      && (Visited(s, pageSize) == s <==> NoTieAtCuts(s, pageSize))
      && (s != [] ==> Latest(s) == s[0].created && forall x :: x in rows && x.pool == pool && x.created <= created ==>
           x.created <= s[0].created)
  {
    var s := Covered(rows, pool, created);
    CoveredExact(rows, pool, created);
    PagingVisitsAll(s, pageSize);
    if s != [] {
      LatestIsFirst(s);
      forall x | x in s ensures x.created <= s[0].created {
        var i :| 0 <= i < |s| && s[i] == x;
        assert i > 0 ==> s[0].created >= s[i].created;
      }
    }
  }

  // ---------- PROP ----------

  datatype PropScan = PropScan(minerScores: map<string, real>, total: real, cutoff: Time)

  ghost predicate PropScanned(r: PropScan, v: seq<Share>) {
    Tallied(r.minerScores, v, 1.0) && r.total == ScoreSum(v) && r.cutoff == Latest(v)
  }

  /** The share loop over one page. */
  method TallyPage(page: seq<Share>, start: PropScan, ghost seen: seq<Share>) returns (r: PropScan)
    requires Scored(page) && PropScanned(start, seen)
    ensures PropScanned(r, seen + page)
  {
    hide Score;
    r := start;
    ghost var now := seen;
    ConcatEmpty(seen);
    for i := 0 to |page|
      invariant now == seen + page[..i] && PropScanned(r, now)
    {
      var share := page[i];
      TallyNext(r.minerScores, now, share, 1.0);
      AppendShare(now, share, 1.0);
      TakeNext(page, i);
      ConcatAssoc(seen, page[..i], [share]);
      r := PropScan(
        Plus(r.minerScores, share.miner, Scaled(Score(share), 1.0)),
        r.total + Score(share),
        if r.cutoff == 0 || share.created > r.cutoff then share.created else r.cutoff);
      now := now + [share];
    }
    TakeAll(page);
  }

  /** The page loop of `PROP.UpdateMinerBalances`. */
  method ScanProp(table: ShareTable, pool: string, created: Time, pageSize: nat) returns (r: PropScan)
    requires pageSize >= 1 && Scored(table.rows)
    ensures PropScanned(r, Visited(Covered(table.rows, pool, created), pageSize))
    ensures var v := Visited(Covered(table.rows, pool, created), pageSize);
      r.total == Quotients(v) && forall m :: m in r.minerScores ==> r.minerScores[m] == QuotientsOf(v, m)
  {
    var before, inclusive := created, true;
    r := PropScan(map[], 0.0, 0);
    ghost var target := Visited(Covered(table.rows, pool, created), pageSize);
    ghost var seen: seq<Share> := [];
    ConcatEmpty(target);
    var done := false;
    while !done
      invariant !done ==> Scanning(table.rows, pool, seen, before, inclusive, pageSize, target)
      invariant done ==> seen == target
      invariant PropScanned(r, seen)
      decreases !done, |Below(Newest(table.rows, pool), before, inclusive)|
    {
      var page := table.GetSharesBefore(pool, before, inclusive, pageSize);
      ScanStep(table.rows, pool, seen, before, inclusive, pageSize, target);
      PageScored(table.rows, pool, before, inclusive, pageSize);
      inclusive := false;
      r := TallyPage(page, r, seen);
      seen := seen + page;
      if |page| < pageSize {
        done := true;
      } else {
        before := page[pageSize - 1].created;
      }
    }
    ScoresAreQuotients(target, "", 1.0);
    forall m | m in r.minerScores ensures r.minerScores[m] == QuotientsOf(target, m) {
      ScoresAreQuotients(target, m, 1.0);
    }
  }

  // ---------- crediting ----------

  /** The award loop shared by the schemes: one miner after the other, in Go's map order, until a statement fails. */
  method AwardAll(tables: Tables, cause: Cause, rewards: map<string, real>, f: CreditFault)
    returns (r: Result<()>, ghost order: seq<string>)
    modifies tables
    ensures Enumerates(order, rewards.Keys) && forall i :: 0 <= i < |order| ==> order[i] in rewards
    ensures tables.View() == CreditAll(old(tables.View()), cause, Listed(order, rewards), f)
    ensures r == if Completes(f, |order|) then Ok(()) else Err(StatementFailed)
  {
    hide Listed, MapTotal, GetBalance, UpdateRows;
    ghost var start := tables.View();
    var miners := SomeOrder(rewards.Keys);
    order := miners;
    ghost var credits := Listed(miners, rewards);
    for i := 0 to |miners|
      invariant Completes(f, i) && tables.View() == CreditFirst(start, cause, credits, f, i)
    {
      var miner := miners[i];
      ListedAt(miners, rewards, i);
      r := tables.AddAmount(Key(cause.pool, cause.chain, miner), Reward(cause.height), rewards[miner], FaultAt(f, i));
      if r.Err? {
        CreditStopped(start, cause, credits, f, i + 1, |credits|);
        return r, order;
      }
    }
    return Ok(()), order;
  }

  // ---------- PROP: split and guard ----------

  /** The reward loop: every score times the rate, subtracted one by one from the block reward. */
  method ScaleScores(scores: map<string, real>, rate: real, blockReward: real)
    returns (rewards: map<string, real>, remaining: real)
    ensures rewards == map m | m in scores :: Scaled(scores[m], rate)
    ensures remaining == blockReward - MapTotal(rewards)
  {
    hide Scaled, Score;
    rewards := map[];
    remaining := blockReward;
    var todo := scores.Keys;
    while todo != {}
      invariant todo <= scores.Keys && rewards.Keys == scores.Keys - todo
      invariant forall m :: m in rewards ==> rewards[m] == Scaled(scores[m], rate)
      invariant remaining == blockReward - MapTotal(rewards)
      decreases |todo|
    {
      var miner :| miner in todo;
      var reward := Scaled(scores[miner], rate);
      MapTotalPut(rewards, miner, reward);
      rewards := rewards[miner := reward];
      remaining := remaining - reward;
      todo := todo - {miner};
    }
  }

  /** The proportional split: rewards, and what is left of the block reward after subtracting them one by one. */
  method SplitProp(scan: PropScan, blockReward: real, ghost v: seq<Share>)
    returns (rewards: map<string, real>, remaining: real)
    requires PropScanned(scan, v)
    ensures v == [] ==> rewards == map[] && remaining == blockReward
    ensures v != [] ==> scan.total > 0.0 && Tallied(rewards, v, blockReward / scan.total)
    ensures v != [] ==> remaining == 0.0
  {
    ScoreSumPositive(v);
    if scan.total == 0.0 {
      // The quotient is not a number here, but there is no miner to multiply it with.
      return map[], blockReward;
    }
    var rewardPerScorePoint := blockReward / scan.total;
    rewards, remaining := ScaleScores(scan.minerScores, rewardPerScorePoint, blockReward);
    ScaledTally(scan.minerScores, rewards, v, rewardPerScorePoint);
    TalliedTotal(rewards, v, rewardPerScorePoint);
    WholeReward(v, blockReward);
  }

  /** The proportional split always uses up the whole reward. */
  lemma WholeReward(v: seq<Share>, blockReward: real)
    requires Scored(v) && ScoreSum(v) > 0.0
    ensures Worth(v, blockReward / ScoreSum(v)) == blockReward
  {
    WorthIsScore(v, blockReward / ScoreSum(v));
    QuotientBack(blockReward, ScoreSum(v));
  }

  lemma QuotientBack(a: real, b: real)
    requires b != 0.0
    ensures b * (a / b) == a
  {
  }

  lemma {:induction false} MinerWorthScales(v: seq<Share>, m: string, rate: real)
    requires Scored(v)
    ensures MinerWorth(v, m, rate) == Scaled(MinerWorth(v, m, 1.0), rate)
  {
    if v != [] {
      MinerWorthScales(v[..|v| - 1], m, rate);
      Distribute(MinerWorth(v[..|v| - 1], m, 1.0), Score(v[|v| - 1]), rate);
    }
  }

  lemma ScaledTally(scores: map<string, real>, rewards: map<string, real>, v: seq<Share>, rate: real)
    requires Tallied(scores, v, 1.0) && rewards.Keys == scores.Keys
    requires forall m :: m in rewards ==> rewards[m] == Scaled(scores[m], rate)
    ensures Tallied(rewards, v, rate)
  {
    hide Scaled, Score;
    forall m | m in rewards ensures rewards[m] == MinerWorth(v, m, rate) {
      MinerWorthScales(v, m, rate);
    }
  }

  /**
   * `PROP.UpdateMinerBalances` in exact arithmetic.  The split always uses up the whole reward, and the guard refuses
   * a remainder of zero, so it pays nobody: it fails as soon as one share is covered.
   */
  method PropRewards(tables: Tables, table: ShareTable, pool: string, created: Time, blockReward: real, pageSize: nat)
    returns (r: Result<Time>)
    requires pageSize >= 1 && Scored(table.rows)
    modifies tables
    ensures r == if Covered(table.rows, pool, created) == [] && blockReward > 0.0 then Ok(0) else Err(Overflow)
    ensures tables.View() == old(tables.View())
  {
    var scan := ScanProp(table, pool, created, pageSize);
    ghost var v := Visited(Covered(table.rows, pool, created), pageSize);
    var rewards, remaining := SplitProp(scan, blockReward, v);
    if remaining <= 0.0 {
      return Err(Overflow);
    }
    assert rewards == map[];
    return Ok(scan.cutoff);
  }

  // ---------- PPLNS ----------

  const WINDOW: real := 2.0

  datatype PplnsScan = PplnsScan(rewards: map<string, real>, remaining: real, cutoff: Time)

  /** While no error was raised: every share so far paid in full, and something is left. */
  ghost predicate PplnsScanned(r: PplnsScan, v: seq<Share>, blockReward: real) {
    && Tallied(r.rewards, v, blockReward / WINDOW)
    && r.remaining == blockReward - Worth(v, blockReward / WINDOW)
    && r.cutoff == 0
    && PplnsPays(v, blockReward)
  }

  /** The exact condition under which PPLNS pays: no shares, or a positive reward and scores below the window. */
  predicate PplnsPays(v: seq<Share>, blockReward: real)
    requires Scored(v)
  {
    v == [] || (blockReward > 0.0 && ScoreSum(v) < WINDOW)
  }

  lemma LeftOver(s: real, blockReward: real)
    requires s > 0.0
    ensures blockReward - Scaled(s, blockReward / WINDOW) > 0.0 <==>
      (blockReward > 0.0 && s < WINDOW) || (blockReward < 0.0 && s > WINDOW)
  {
    assert blockReward - s * (blockReward / WINDOW) == (blockReward / WINDOW) * (WINDOW - s);
  }

  /** A share capped at the window always uses up what is left. */
  lemma CappedRefused(seen: seq<Share>, share: Share, blockReward: real)
    requires Scored(seen) && PplnsPays(seen, blockReward)
    requires share.difficulty > 0.0 && share.networkDifficulty > 0.0 && Score(share) >= WINDOW
    ensures blockReward - Worth(seen, blockReward / WINDOW) - Scaled(WINDOW, blockReward / WINDOW) <= 0.0
    ensures Scored(seen + [share]) && !PplnsPays(seen + [share], blockReward)
  {
    AppendShare(seen, share, blockReward / WINDOW);
    ScoreSumPositive(seen);
    if seen != [] {
      PplnsNeverOverAwards(seen, blockReward);
    }
  }

  /** Below the cap, something is left exactly when the scheme still pays. */
  lemma UncappedIff(seen: seq<Share>, share: Share, blockReward: real)
    requires Scored(seen) && PplnsPays(seen, blockReward)
    requires share.difficulty > 0.0 && share.networkDifficulty > 0.0 && Score(share) < WINDOW
    ensures Scored(seen + [share])
    ensures blockReward - Worth(seen, blockReward / WINDOW) - Scaled(Score(share), blockReward / WINDOW) > 0.0
      <==> PplnsPays(seen + [share], blockReward)
  {
    var rate := blockReward / WINDOW;
    AppendShare(seen, share, rate);
    ScoreSumPositive(seen);
    WorthIsScore(seen + [share], rate);
    LeftOver(ScoreSum(seen + [share]), blockReward);
  }

  lemma {:induction false} PrefixScore(v: seq<Share>, k: nat)
    requires Scored(v) && k <= |v|
    ensures Scored(v[..k]) && ScoreSum(v[..k]) <= ScoreSum(v)
    decreases |v|
  {
    if k == |v| {
      TakeAll(v);
    } else {
      PrefixScore(v[..|v| - 1], k);
      assert v[..|v| - 1][..k] == v[..k];
    }
  }

  /** One share: capped at the window, then checked against what is left. */
  method PplnsShare(share: Share, blockReward: real, start: PplnsScan, ghost seen: seq<Share>)
    returns (r: Result<PplnsScan>, reachedWindow: bool)
    requires PplnsScanned(start, seen, blockReward) && share.difficulty > 0.0 && share.networkDifficulty > 0.0
    ensures Scored(seen + [share]) && (r.Ok? <==> PplnsPays(seen + [share], blockReward))
    ensures r.Ok? ==> PplnsScanned(r.value, seen + [share], blockReward) && !reachedWindow
    ensures r.Err? ==> r.why == Overflow
  {
    hide Scaled, Score;
    var rate := blockReward / WINDOW;
    var score := Score(share);
    var cutoff := start.cutoff;
    reachedWindow := false;
    if score >= WINDOW {
      CappedRefused(seen, share, blockReward);
      score := WINDOW;
      cutoff := share.created;
      reachedWindow := true;
    } else {
      UncappedIff(seen, share, blockReward);
    }
    var reward := Scaled(score, rate);
    var remaining := start.remaining - reward;
    if remaining <= 0.0 {
      return Err(Overflow), reachedWindow;
    }
    PplnsNext(start, share, blockReward, seen);
    return Ok(PplnsScan(Plus(start.rewards, share.miner, reward), remaining, cutoff)), reachedWindow;
  }

  lemma PplnsNext(start: PplnsScan, share: Share, blockReward: real, seen: seq<Share>)
    requires PplnsScanned(start, seen, blockReward) && share.difficulty > 0.0 && share.networkDifficulty > 0.0
    requires Scored(seen + [share]) && PplnsPays(seen + [share], blockReward)
    ensures var reward := Scaled(Score(share), blockReward / WINDOW);
      PplnsScanned(PplnsScan(Plus(start.rewards, share.miner, reward), start.remaining - reward, 0),
        seen + [share], blockReward)
  {
    hide Scaled, Score;
    TallyNext(start.rewards, seen, share, blockReward / WINDOW);
    AppendShare(seen, share, blockReward / WINDOW);
  }

  lemma PplnsPrefix(v: seq<Share>, k: nat, blockReward: real)
    requires Scored(v) && k <= |v| && k > 0 && PplnsPays(v, blockReward)
    ensures Scored(v[..k]) && PplnsPays(v[..k], blockReward)
  {
    PrefixScore(v, k);
  }

  lemma ScoredAt(page: seq<Share>, i: nat)
    requires Scored(page) && i < |page|
    ensures page[i].difficulty > 0.0 && page[i].networkDifficulty > 0.0
  {
  }

  lemma ScannedPays(r: PplnsScan, v: seq<Share>, blockReward: real)
    requires PplnsScanned(r, v, blockReward)
    ensures Scored(v) && PplnsPays(v, blockReward)
  {
  }

  /** Once the scheme does not pay, more shares of the page do not change that. */
  lemma PageRefused(seen: seq<Share>, page: seq<Share>, i: nat, blockReward: real)
    requires Scored(seen) && Scored(page) && i < |page|
    requires Scored(seen + page[..i + 1]) && !PplnsPays(seen + page[..i + 1], blockReward)
    ensures Scored(seen + page) && !PplnsPays(seen + page, blockReward)
  {
    ScoredConcat(seen, page);
    var whole, k := seen + page, |seen| + i + 1;
    assert whole[..k] == seen + page[..i + 1];
    if PplnsPays(whole, blockReward) {
      PplnsPrefix(whole, k, blockReward);
    }
  }

  lemma PageNext(seen: seq<Share>, page: seq<Share>, i: nat)
    requires i < |page|
    ensures (seen + page[..i]) + [page[i]] == seen + page[..i + 1]
  {
    TakeNext(page, i);
    ConcatAssoc(seen, page[..i], [page[i]]);
  }

  /** The share loop over one page; a share that reaches the window only stops the paging. */
  method PplnsPage(page: seq<Share>, blockReward: real, start: PplnsScan, ghost seen: seq<Share>)
    returns (r: Result<PplnsScan>, done: bool)
    requires PplnsScanned(start, seen, blockReward) && Scored(page)
    ensures Scored(seen + page) && (r.Ok? <==> PplnsPays(seen + page, blockReward))
    ensures r.Ok? ==> PplnsScanned(r.value, seen + page, blockReward) && !done
    ensures r.Err? ==> r.why == Overflow
  {
    hide PplnsScanned, PplnsPays, Scored, Scaled, Score, Worth, ScoreSum;
    var scan := start;
    done := false;
    ConcatEmpty(seen);
    ScannedPays(start, seen, blockReward);
    for i := 0 to |page|
      invariant PplnsScanned(scan, seen + page[..i], blockReward) && !done
    {
      ScoredAt(page, i);
      PageNext(seen, page, i);
      var next, reached := PplnsShare(page[i], blockReward, scan, seen + page[..i]);
      if next.Err? {
        PageRefused(seen, page, i, blockReward);
        return Err(next.why), reached;
      }
      scan := next.value;
      done := done || reached;
    }
    TakeAll(page);
    ScannedPays(scan, seen + page, blockReward);
    return Ok(scan), done;
  }

  lemma ScoredConcat(a: seq<Share>, b: seq<Share>)
    requires Scored(a) && Scored(b)
    ensures Scored(a + b)
  {
  }

  /** The page loop of `PPLNS.UpdateMinerBalances`. */
  method ScanPplns(table: ShareTable, pool: string, created: Time, blockReward: real, pageSize: nat)
    returns (r: Result<PplnsScan>)
    requires pageSize >= 1 && Scored(table.rows)
    ensures var v := Visited(Covered(table.rows, pool, created), pageSize);
      && Scored(v)
      && (r.Ok? <==> PplnsPays(v, blockReward))
      && (r.Ok? ==> PplnsScanned(r.value, v, blockReward))
      && (r.Err? ==> r.why == Overflow)
  {
    hide Scaled, Score;
    var before, inclusive := created, true;
    var scan := PplnsScan(map[], blockReward, 0);
    ghost var target := Visited(Covered(table.rows, pool, created), pageSize);
    ghost var seen: seq<Share> := [];
    VisitedScored(table.rows, pool, created, pageSize);
    ConcatEmpty(target);
    var done := false;
    while !done
      invariant !done ==> Scanning(table.rows, pool, seen, before, inclusive, pageSize, target)
      invariant done ==> seen == target
      invariant PplnsScanned(scan, seen, blockReward)
      decreases !done, |Below(Newest(table.rows, pool), before, inclusive)|
    {
      var page := table.GetSharesBefore(pool, before, inclusive, pageSize);
      ScanStep(table.rows, pool, seen, before, inclusive, pageSize, target);
      PageScored(table.rows, pool, before, inclusive, pageSize);
      inclusive := false;
      var next, reached := PplnsPage(page, blockReward, scan, seen);
      if next.Err? {
        if PplnsPays(target, blockReward) {
          assert target[..|seen + page|] == seen + page;
          assert seen + page != [];
          PplnsPrefix(target, |seen + page|, blockReward);
        }
        return Err(next.why);
      }
      scan := next.value;
      seen := seen + page;
      if reached || |page| < pageSize {
        done := true;
      } else {
        before := page[pageSize - 1].created;
      }
    }
    return Ok(scan);
  }

  lemma VisitedScored(rows: seq<Share>, pool: string, created: Time, pageSize: nat)
    requires pageSize >= 1 && Scored(rows)
    ensures Scored(Visited(Covered(rows, pool, created), pageSize))
  {
    var s := Covered(rows, pool, created);
    var v := Visited(s, pageSize);
    CoveredExact(rows, pool, created);
    VisitedFits(s, pageSize);
    forall i | 0 <= i < |v| ensures v[i].difficulty > 0.0 && v[i].networkDifficulty > 0.0 {
      assert v[i] in multiset(v);
      assert v[i] in multiset(s);
      assert v[i] in s;
    }
  }

  lemma HalfOf(q: real, r: real)
    ensures q * (r / 2.0) == q * r / 2.0
  {
  }

  lemma NoWork()
    ensures Difficulties([]) == 0.0
  {
  }

  /** When PPLNS pays and what, without scores. */
  lemma PplnsInQuotients(v: seq<Share>, blockReward: real)
    requires Scored(v)
    ensures PplnsPays(v, blockReward) <==> v == [] || (blockReward > 0.0 && Quotients(v) < 2.0)
    ensures forall m :: MinerWorth(v, m, blockReward / WINDOW) == QuotientsOf(v, m) * blockReward / 2.0
  {
    hide Quotients, QuotientsOf, MinerWorth, ScoreSum, Scored;
    ScoresAreQuotients(v, "", 1.0);
    forall m ensures MinerWorth(v, m, blockReward / WINDOW) == QuotientsOf(v, m) * blockReward / 2.0 {
      ScoresAreQuotients(v, m, blockReward / WINDOW);
      HalfOf(QuotientsOf(v, m), blockReward);
    }
  }

  /**
   * At one network difficulty `d`: a positive reward is paid exactly when the difficulties stay below two network
   * difficulties, and each miner gets the reward in the proportion of its own difficulties to that window.
   */
  ghost predicate PaidByWork(v: seq<Share>, d: real, blockReward: real, pays: bool, rewards: map<string, real>)
    requires d > 0.0
  {
    && (blockReward > 0.0 ==> (pays <==> Difficulties(v) < 2.0 * d))
    && (pays ==> forall m :: m in rewards ==> rewards[m] == DifficultiesOf(v, m) * blockReward / (2.0 * d))
  }

  lemma QuotientsPayByWork(v: seq<Share>, blockReward: real, pays: bool, rewards: map<string, real>)
    requires Scored(v)
    requires pays <==> v == [] || (blockReward > 0.0 && Quotients(v) < 2.0)
    requires pays ==> forall m :: m in rewards ==> rewards[m] == QuotientsOf(v, m) * blockReward / 2.0
    ensures forall d: real :: OneDifficulty(v, d) && d > 0.0 ==> PaidByWork(v, d, blockReward, pays, rewards)
  {
    hide Quotients, QuotientsOf, Difficulties, DifficultiesOf, Scored, OneDifficulty;
    NoWork();
    forall d: real | OneDifficulty(v, d) && d > 0.0 ensures PaidByWork(v, d, blockReward, pays, rewards) {
      WorkInWindow(v, d, blockReward, "");
      forall m | pays && m in rewards ensures rewards[m] == DifficultiesOf(v, m) * blockReward / (2.0 * d) {
        WorkInWindow(v, d, blockReward, m);
      }
    }
  }

  /**
   * `PPLNS.UpdateMinerBalances`.  The accumulated score is never updated, so the window caps single shares only, and a
   * capped share uses up the reward.  It pays exactly when no share is covered, or the reward is positive and all
   * covered shares together score below the window; then every miner gets score * reward / window, the rest of the
   * reward goes to nobody, and the returned cutoff is the zero time.
   */
  method PplnsRewards(tables: Tables, table: ShareTable, cause: Cause, created: Time, blockReward: real, pageSize: nat,
    f: CreditFault)
    returns (r: Result<Time>, ghost rewards: map<string, real>, ghost order: seq<string>)
    requires pageSize >= 1 && Scored(table.rows)
    modifies tables
    ensures var v := Visited(Covered(table.rows, cause.pool, created), pageSize);
      && Scored(v)
      && (r.Ok? <==> PplnsPays(v, blockReward) && Completes(f, |order|))
      && (r.Ok? ==> r.value == 0)
      && (PplnsPays(v, blockReward) ==>
          && Tallied(rewards, v, blockReward / WINDOW)
          && Enumerates(order, rewards.Keys) && (forall i :: 0 <= i < |order| ==> order[i] in rewards)
          && tables.View() == CreditAll(old(tables.View()), cause, Listed(order, rewards), f))
      && (!PplnsPays(v, blockReward) ==> tables.View() == old(tables.View()))
      && (r.Err? ==> r.why == if PplnsPays(v, blockReward) then StatementFailed else Overflow)
      && (PplnsPays(v, blockReward) <==> v == [] || (blockReward > 0.0 && Quotients(v) < 2.0))
      && (PplnsPays(v, blockReward) ==> forall m :: m in rewards ==> rewards[m] == QuotientsOf(v, m) * blockReward / 2.0)
      && (forall d: real :: OneDifficulty(v, d) && d > 0.0 ==>
            PaidByWork(v, d, blockReward, PplnsPays(v, blockReward), rewards))
  {
    hide Visited, Covered, MinerWorth, ScoreSum, PplnsPays, Quotients, QuotientsOf, Difficulties, DifficultiesOf,
      OneDifficulty, Scored, CreditAll, Listed, Worth, PaidByWork;
    rewards, order := map[], [];
    ghost var v := Visited(Covered(table.rows, cause.pool, created), pageSize);
    VisitedScored(table.rows, cause.pool, created, pageSize);
    PplnsInQuotients(v, blockReward);
    var scan := ScanPplns(table, cause.pool, created, blockReward, pageSize);
    if scan.Ok? {
      rewards := scan.value.rewards;
    }
    QuotientsPayByWork(v, blockReward, scan.Ok?, rewards);
    if scan.Err? {
      return Err(scan.why), rewards, order;
    }
    var awarded;
    awarded, order := AwardAll(tables, cause, scan.value.rewards, f);
    if awarded.Err? {
      return Err(awarded.why), rewards, order;
    }
    return Ok(scan.value.cutoff), rewards, order;
  }

  /** Never more than the reward: a paying PPLNS round hands out strictly less, unless there is nothing to hand out. */
  lemma PplnsNeverOverAwards(v: seq<Share>, blockReward: real)
    requires Scored(v) && PplnsPays(v, blockReward) && blockReward >= 0.0
    ensures 0.0 <= Worth(v, blockReward / WINDOW) <= blockReward
    ensures blockReward > 0.0 ==> Worth(v, blockReward / WINDOW) < blockReward
  {
    ScoreSumPositive(v);
    WorthIsScore(v, blockReward / WINDOW);
    if v != [] {
      LeftOver(ScoreSum(v), blockReward);
      Product(ScoreSum(v), blockReward / WINDOW);
    }
  }

  lemma Product(a: real, b: real)
    requires a >= 0.0 && b >= 0.0
    ensures a * b >= 0.0
  {
  }
}
