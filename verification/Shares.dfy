/** persistence/share.go: the share table, its cursor query, and what paging through it visits. */
module Shares {
  import opened Base

  /** Timestamps count from Go's zero time, which is 0 here. */
  type Time = nat

  datatype Share = Share(pool: string, miner: string, difficulty: real, networkDifficulty: real, created: Time)

  // ---------- the query ----------

  predicate Descending(s: seq<Share>) {
    forall i, j :: 0 <= i < j < |s| ==> s[i].created >= s[j].created
  }

  function Place(s: seq<Share>, x: Share): seq<Share> {
    if s == [] || s[0].created <= x.created then [x] + s else [s[0]] + Place(s[1..], x)
  }

  function OfPool(rows: seq<Share>, pool: string): seq<Share> {
    if rows == [] then [] else (if rows[0].pool == pool then [rows[0]] else []) + OfPool(rows[1..], pool)
  }

  function Sorted(rows: seq<Share>): seq<Share> {
    if rows == [] then [] else Place(Sorted(rows[1..]), rows[0])
  }

  /** `WHERE poolid = pool ORDER BY created DESC`. */
  function Newest(rows: seq<Share>, pool: string): seq<Share> {
    Sorted(OfPool(rows, pool))
  }

  predicate Within(x: Share, before: Time, inclusive: bool) {
    x.created < before || (inclusive && x.created == before)
  }

  /** `created < before` or `<=`, on rows that stand newest first. */
  function Below(s: seq<Share>, before: Time, inclusive: bool): (b: seq<Share>)
    ensures |b| <= |s|
  {
    if s == [] || Within(s[0], before, inclusive) then s else Below(s[1..], before, inclusive)
  }

  function Page(rows: seq<Share>, pool: string, before: Time, inclusive: bool, pageSize: nat): seq<Share> {
    var matching := Below(Newest(rows, pool), before, inclusive);
    if |matching| <= pageSize then matching else matching[..pageSize]
  }

  lemma JoinCounts(a: seq<Share>, b: seq<Share>)
    ensures multiset(a + b) == multiset(a) + multiset(b)
  {
  }

  lemma {:induction false} PlaceCounts(s: seq<Share>, x: Share)
    ensures multiset(Place(s, x)) == multiset(s) + multiset{x}
  {
    if s == [] || s[0].created <= x.created {
      JoinCounts([x], s);
    } else {
      PlaceCounts(s[1..], x);
      ConsBack(s);
      JoinCounts([s[0]], s[1..]);
      JoinCounts([s[0]], Place(s[1..], x));
    }
  }

  predicate NoneAfter(s: seq<Share>, bound: Time) {
    forall i :: 0 <= i < |s| ==> s[i].created <= bound
  }

  lemma {:induction false} PlaceBounded(s: seq<Share>, x: Share, bound: Time)
    requires NoneAfter(s, bound) && x.created <= bound
    ensures NoneAfter(Place(s, x), bound)
  {
    if s != [] && s[0].created > x.created {
      PlaceBounded(s[1..], x, bound);
    }
  }

  lemma {:induction false} PlaceSorts(s: seq<Share>, x: Share)
    requires Descending(s)
    ensures Descending(Place(s, x)) && multiset(Place(s, x)) == multiset(s) + multiset{x}
  {
    PlaceCounts(s, x);
    if s != [] && s[0].created > x.created {
      PlaceSorts(s[1..], x);
      PlaceBounded(s[1..], x, s[0].created);
    }
  }

  /** The query returns the pool's rows, all of them and each as often as it is stored, newest first. */
  lemma {:induction false} SortedIsPermutation(rows: seq<Share>)
    ensures Descending(Sorted(rows)) && multiset(Sorted(rows)) == multiset(rows)
  {
    if rows != [] {
      SortedIsPermutation(rows[1..]);
      PlaceSorts(Sorted(rows[1..]), rows[0]);
      ConsBack(rows);
    }
  }

  /** How many rows stand above the bound. */
  lemma {:induction false} BelowIsSuffix(s: seq<Share>, before: Time, inclusive: bool) returns (k: nat)
    ensures k <= |s| && Below(s, before, inclusive) == s[k..]
    ensures forall i :: 0 <= i < k ==> !Within(s[i], before, inclusive)
    ensures k < |s| ==> Within(s[k], before, inclusive)
  {
    k := 0;
    TakeAll(s);
    if s != [] && !Within(s[0], before, inclusive) {
      k := BelowIsSuffix(s[1..], before, inclusive);
      assert s[1..][k..] == s[k + 1..];
      k := k + 1;
    }
  }

  /** The cursor condition cuts a descending list exactly at its bound. */
  lemma BelowIsExact(s: seq<Share>, before: Time, inclusive: bool)
    requires Descending(s)
    ensures Descending(Below(s, before, inclusive))
    ensures forall i :: 0 <= i < |s| ==>
      (Within(s[i], before, inclusive) <==> i >= |s| - |Below(s, before, inclusive)|)
  {
    var k := BelowIsSuffix(s, before, inclusive);
  }

  class ShareTable {
    var rows: seq<Share>

    constructor ()
      ensures rows == []
    {
      rows := [];
    }

    /** One transaction: all shares or none. */
    method InsertBatch(shares: seq<Share>, fails: bool) returns (r: Result<()>)
      modifies this
      ensures r.Ok? <==> !fails
      ensures rows == if fails then old(rows) else old(rows) + shares
    {
      if fails {
        return Err(StatementFailed);
      }
      rows := rows + shares;
      return Ok(());
    }

    method GetSharesBefore(pool: string, before: Time, inclusive: bool, pageSize: nat) returns (shares: seq<Share>)
      ensures shares == Page(rows, pool, before, inclusive, pageSize)
    {
      var found := Below(Newest(rows, pool), before, inclusive);
      shares := [];
      while |shares| < |found| && |shares| < pageSize
        invariant |shares| <= |found| && |shares| <= pageSize && shares == found[..|shares|]
        decreases |found| - |shares|
      {
        shares := shares + [found[|shares|]];
      }
    }

    method DeleteSharesBefore(pool: string, before: Time, fails: bool) returns (r: Result<()>)
      modifies this
      ensures r.Ok? <==> !fails
      ensures rows == if fails then old(rows) else Kept(old(rows), pool, before)
    {
      if fails {
        return Err(StatementFailed);
      }
      rows := Kept(rows, pool, before);
      return Ok(());
    }
  }

  /** What `DELETE ... WHERE poolid = pool AND created < before` leaves. */
  function Kept(rows: seq<Share>, pool: string, before: Time): seq<Share> {
    if rows == [] then []
    else (if rows[0].pool == pool && rows[0].created < before then [] else [rows[0]]) + Kept(rows[1..], pool, before)
  }

  /** Deletion spares exactly the rows of other pools and those not older than the bound, each as often as it was. */
  lemma {:induction false} KeptExact(rows: seq<Share>, pool: string, before: Time, x: Share)
    ensures multiset(Kept(rows, pool, before))[x]
         == if x.pool == pool && x.created < before then 0 else multiset(rows)[x]
  {
    if rows != [] {
      KeptExact(rows[1..], pool, before, x);
      ConsBack(rows);
      JoinCounts([rows[0]], rows[1..]);
      JoinCounts([rows[0]], Kept(rows[1..], pool, before));
      ConcatEmpty(Kept(rows[1..], pool, before));
    }
  }

  // ---------- paging ----------

  /** What the cursor loop sees of a descending list: full pages, each continued strictly below its last row. */
  function Visited(s: seq<Share>, pageSize: nat): seq<Share>
    requires pageSize >= 1
    decreases |s|
  {
    if |s| < pageSize then s
    else s[..pageSize] + Visited(Below(s[pageSize..], s[pageSize - 1].created, false), pageSize)
  }

  /** No page ends between two rows of one timestamp. */
  predicate NoTieAtCuts(s: seq<Share>, pageSize: nat)
    requires pageSize >= 1
    decreases |s|
  {
    |s| <= pageSize || (s[pageSize].created < s[pageSize - 1].created && NoTieAtCuts(s[pageSize..], pageSize))
  }

  lemma SplitCounts(s: seq<Share>, k: nat)
    requires k <= |s|
    ensures multiset(s) == multiset(s[..k]) + multiset(s[k..])
  {
    TakeDrop(s, k);
  }

  /** Ties or not, no row is seen twice. */
  lemma {:induction false} VisitedFits(s: seq<Share>, pageSize: nat)
    requires pageSize >= 1
    ensures |Visited(s, pageSize)| <= |s|
    ensures multiset(Visited(s, pageSize)) <= multiset(s)
    decreases |s|
  {
    if |s| >= pageSize {
      var page, rest := s[..pageSize], s[pageSize..];
      var next := Below(rest, s[pageSize - 1].created, false);
      var k := BelowIsSuffix(rest, s[pageSize - 1].created, false);
      VisitedFits(next, pageSize);
      SplitCounts(s, pageSize);
      SplitCounts(rest, k);
      JoinCounts(page, Visited(next, pageSize));
    }
  }

  /**
   * Paging refinement: the cursor loop visits every matching row exactly once, in order, exactly when no page
   * boundary splits a timestamp; otherwise it skips rows.
   */
  lemma {:induction false} PagingVisitsAll(s: seq<Share>, pageSize: nat)
    requires pageSize >= 1 && Descending(s)
    ensures Visited(s, pageSize) == s <==> NoTieAtCuts(s, pageSize)
    decreases |s|
  {
    if |s| == pageSize {
      assert s[pageSize..] == [];
      TakeAll(s);
      ConcatEmpty(s);
    } else if |s| > pageSize {
      var page, rest := s[..pageSize], s[pageSize..];
      var next := Below(rest, s[pageSize - 1].created, false);
      assert rest[0] == s[pageSize];
      TakeDrop(s, pageSize);
      if s[pageSize].created < s[pageSize - 1].created {
        PagingVisitsAll(rest, pageSize);
        SplitBetween(page, Visited(rest, pageSize));
      } else {
        VisitedFits(next, pageSize);
        assert |next| < |rest|;
      }
    }
  }

  /** A row of the moment the first page ends at, right behind that page, is seen less often than it is stored. */
  lemma TieSkipsShare(s: seq<Share>, pageSize: nat)
    requires pageSize >= 1 && Descending(s) && |s| > pageSize
    requires s[pageSize].created == s[pageSize - 1].created
    ensures multiset(Visited(s, pageSize))[s[pageSize]] < multiset(s)[s[pageSize]]
    ensures |Visited(s, pageSize)| < |s|
  {
    var page, rest, x := s[..pageSize], s[pageSize..], s[pageSize];
    var next := Below(rest, s[pageSize - 1].created, false);
    var k := BelowIsSuffix(rest, s[pageSize - 1].created, false);
    assert rest[0] == x && k > 0;
    VisitedFits(next, pageSize);
    SplitCounts(s, pageSize);
    SplitCounts(rest, k);
    JoinCounts(page, Visited(next, pageSize));
    assert x in rest[..k];
  }

  /** Distinct timestamps leave no ties at all. */
  lemma {:induction false} DistinctTimesNoTies(s: seq<Share>, pageSize: nat)
    requires pageSize >= 1 && Descending(s)
    requires forall i, j :: 0 <= i < j < |s| ==> s[i].created != s[j].created
    ensures NoTieAtCuts(s, pageSize)
    decreases |s|
  {
    if |s| > pageSize {
      DistinctTimesNoTies(s[pageSize..], pageSize);
    }
  }

  /** Asking the whole table again below the cursor continues the list just where the page ended. */
  lemma NextPage(all: seq<Share>, before: Time, inclusive: bool, pageSize: nat)
    requires pageSize >= 1 && Descending(all)
    requires |Below(all, before, inclusive)| >= pageSize
    ensures var s := Below(all, before, inclusive);
      Below(all, s[pageSize - 1].created, false) == Below(s[pageSize..], s[pageSize - 1].created, false)
  {
    var k := BelowIsSuffix(all, before, inclusive);
    DropDrop(all, k, pageSize);
    CutAt(all, k + pageSize);
  }

  lemma CutAt(all: seq<Share>, cut: nat)
    requires 0 < cut <= |all| && Descending(all)
    ensures Below(all, all[cut - 1].created, false) == Below(all[cut..], all[cut - 1].created, false)
  {
    assert forall i :: 0 <= i < cut ==> all[i].created >= all[cut - 1].created;
    BelowSkips(all, cut, all[cut - 1].created);
  }

  lemma {:induction false} BelowSkips(all: seq<Share>, k: nat, cursor: Time)
    requires k <= |all| && forall i :: 0 <= i < k ==> all[i].created >= cursor
    ensures Below(all, cursor, false) == Below(all[k..], cursor, false)
  {
    if k > 0 {
      BelowSkips(all[1..], k - 1, cursor);
      assert all[1..][k - 1..] == all[k..];
    }
  }
}
