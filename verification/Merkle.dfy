/** bitcoin/merkle.go: the stratum branch, measured against the full Bitcoin Merkle tree. */
module Merkle {
  import opened Base
  import opened Encoding
  import Hex

  // ---------- the reference tree ----------

  /** One level up: neighbours are hashed together, and an odd last node is paired with itself. */
  function PairUp(h: HashFn, level: seq<Bytes>): (up: seq<Bytes>)
    ensures |up| == (|level| + 1) / 2
  {
    if level == [] then []
    else if |level| == 1 then [h(level[0] + level[0])]
    else [h(level[0] + level[1])] + PairUp(h, level[2..])
  }

  /** The root of the full tree ("Merkle Trees" in the Bitcoin developer reference). */
  function Root(h: HashFn, level: seq<Bytes>): Bytes
    requires level != []
    decreases |level|
  {
    if |level| == 1 then level[0] else Root(h, PairUp(h, level))
  }

  /** Climbs from a leaf: the low bit of the index says on which side the next branch hash stands. */
  function FoldBranch(h: HashFn, leaf: Bytes, branch: seq<Bytes>, index: nat): Bytes
    decreases |branch|
  {
    if branch == [] then leaf
    else
      var up := if index % 2 == 0 then h(leaf + branch[0]) else h(branch[0] + leaf);
      FoldBranch(h, up, branch[1..], index / 2)
  }

  lemma {:induction false} PairUpPrefix(h: HashFn, a: seq<Bytes>, b: seq<Bytes>)
    requires |a| % 2 == 0
    ensures PairUp(h, a + b) == PairUp(h, a) + PairUp(h, b)
  {
    if a == [] {
      ConcatEmpty(b);
      ConcatEmpty(PairUp(h, b));
    } else {
      PairUpPrefix(h, a[2..], b);
      SplitWithin(a, b, 2);
      ConcatAssoc([h(a[0] + a[1])], PairUp(h, a[2..]), PairUp(h, b));
    }
  }

  // ---------- the stratum steps, on bytes ----------

  /** The right-hand neighbours met on the way up from an unknown leaf in front of `xs`. */
  function Steps(h: HashFn, xs: seq<Bytes>): (steps: seq<Bytes>)
    decreases |xs|
  {
    if xs == [] then [] else [xs[0]] + Steps(h, PairUp(h, xs[1..]))
  }

  /** The compressed form loses nothing: for every leaf put in front, climbing the steps gives the full root. */
  lemma {:induction false} StepsFoldToRoot(h: HashFn, leaf: Bytes, xs: seq<Bytes>)
    ensures FoldBranch(h, leaf, Steps(h, xs), 0) == Root(h, [leaf] + xs)
    decreases |xs|
  {
    if xs == [] {
    } else {
      var up := h(leaf + xs[0]);
      StepsFoldToRoot(h, up, PairUp(h, xs[1..]));
      HeadTail(xs[0], Steps(h, PairUp(h, xs[1..])));
      PairUpFront(h, leaf, xs);
    }
  }

  lemma PairUpFront(h: HashFn, leaf: Bytes, xs: seq<Bytes>)
    requires xs != []
    ensures PairUp(h, [leaf] + xs) == [h(leaf + xs[0])] + PairUp(h, xs[1..])
  {
    assert ([leaf] + xs)[2..] == xs[1..];
  }

  /** ceil(log2(n + 1)) steps for n transactions: the least height whose tree has room for all leaves. */
  lemma {:induction false} StepCount(h: HashFn, xs: seq<Bytes>)
    ensures |xs| + 1 <= Pow2(|Steps(h, xs)|)
    ensures xs != [] ==> Steps(h, xs) != [] && Pow2(|Steps(h, xs)| - 1) < |xs| + 1
    decreases |xs|
  {
    if xs != [] {
      var up := PairUp(h, xs[1..]);
      StepCount(h, up);
      assert |Steps(h, xs)| == 1 + |Steps(h, up)|;
      if up != [] {
        var k := |Steps(h, up)|;
        assert Pow2(k) == 2 * Pow2(k - 1);
      }
    }
  }

  // ---------- the source, on hexadecimal text ----------

  /** `join`: decodes both sides and hashes the concatenation. */
  function Join(h: HashFn, one: string, two: string): Result<string> {
    if !Hex.IsHex(one) || !Hex.IsHex(two) then Err(MalformedHex)
    else Ok(Hex.Encode(h(Hex.Bytes(one) + Hex.Bytes(two))))
  }

  /** The steps as text: the first is passed on untouched, the others are hash values. */
  function StepTexts(h: HashFn, ids: seq<string>): seq<string>
    requires ids != [] ==> Hex.AllHex(ids[1..])
  {
    if ids == [] then []
    else [ids[0]] + Hex.EncodeAll(Steps(h, PairUp(h, Hex.DecodeAll(ids[1..]))))
  }

  lemma StepTextsOfHashes(h: HashFn, xs: seq<Bytes>)
    ensures Hex.AllHex(Hex.EncodeAll(xs))
    ensures xs != [] ==> Hex.AllHex(Hex.EncodeAll(xs)[1..])
    ensures StepTexts(h, Hex.EncodeAll(xs)) == Hex.EncodeAll(Steps(h, xs))
  {
    Hex.DecodeEncodeAll(xs);
    if xs != [] {
      Hex.DecodeEncodeAll(xs[1..]);
      assert Hex.EncodeAll(xs)[1..] == Hex.EncodeAll(xs[1..]);
      assert Steps(h, xs)[1..] == Steps(h, PairUp(h, xs[1..]));
    }
  }

  /** After `steps`, the remaining texts yield the remaining steps. */
  ghost predicate StepsSoFar(h: HashFn, ids: seq<string>, steps: seq<string>, rest: seq<string>) {
    if steps == [] then rest == ids
    else
      && (ids != [] ==> Hex.AllHex(ids[1..]))
      && Hex.AllHex(rest)
      && (rest != [] ==> Hex.AllHex(rest[1..]))
      && steps + StepTexts(h, rest) == StepTexts(h, ids)
  }

  lemma StepsExtend(h: HashFn, ids: seq<string>, steps: seq<string>, rest: seq<string>)
    requires rest != [] && StepsSoFar(h, ids, steps, rest) && Hex.AllHex(rest[1..])
    ensures StepsSoFar(h, ids, steps + [rest[0]], Hex.EncodeAll(PairUp(h, Hex.DecodeAll(rest[1..]))))
  {
    NextLevel(h, rest);
    ConcatAssoc(steps, [rest[0]], StepTexts(h, Hex.EncodeAll(PairUp(h, Hex.DecodeAll(rest[1..])))));
  }

  /** `templateMerkleBranchSteps`.  `level` keeps an empty text in front for the coinbase that is not known yet. */
  method TemplateMerkleBranchSteps(h: HashFn, transactionIDs: seq<string>) returns (r: Result<seq<string>>)
    ensures r.Ok? <==> transactionIDs == [] || Hex.AllHex(transactionIDs[1..])
    ensures r.Ok? ==> r.value == StepTexts(h, transactionIDs)
    ensures r.Err? ==> r.why == MalformedHex
  {
    var steps: seq<string> := [];
    var levelLength := |transactionIDs|;
    if levelLength == 0 {
      return Ok(steps);
    }
    var level := [""] + transactionIDs;
    ghost var rest := transactionIDs;
    levelLength := levelLength + 1;

    while levelLength != 1
      invariant levelLength == |level| == |rest| + 1
      invariant level == [""] + rest
      invariant StepsSoFar(h, transactionIDs, steps, rest)
      decreases levelLength
    {
      ghost var before := steps;
      HeadTail("", rest);
      steps := steps + [level[1]];
      if levelLength % 2 == 1 {
        level := level + [level[|level| - 1]];
      }
      PaddedIsReady(rest);
      var levelJoins := JoinLevel(h, level, levelLength, rest[1..]);
      if levelJoins.Err? {
        return Err(levelJoins.why);
      }
      StepsExtend(h, transactionIDs, before, rest);
      level := [""] + levelJoins.value;
      rest := levelJoins.value;
      levelLength := |level|;
    }
    assert steps + [] == steps;
    return Ok(steps);
  }

  function Padded(level: seq<string>): seq<string> {
    if |level| % 2 == 1 then level + [level[|level| - 1]] else level
  }

  /** Where the inner loop finds `tail`: from index 2 on, its last text twice if there is an odd number. */
  ghost predicate ReadyToJoin(level: seq<string>, levelLength: nat, tail: seq<string>) {
    && levelLength == |tail| + 2 <= |level|
    && (forall k :: 0 <= k < |tail| ==> level[k + 2] == tail[k])
    && (|tail| % 2 == 1 ==> |level| == levelLength + 1 && level[levelLength] == tail[|tail| - 1])
  }

  lemma PaddedIsReady(rest: seq<string>)
    requires rest != []
    ensures ReadyToJoin(Padded([""] + rest), |rest| + 1, rest[1..])
  {
    var level, tail := [""] + rest, rest[1..];
    forall k | 0 <= k < |tail| ensures Padded(level)[k + 2] == tail[k] {
      assert level[k + 2] == rest[k + 1];
    }
  }

  /** The joins of the texts met so far in one level. */
  ghost predicate JoinedSoFar(h: HashFn, done: seq<string>, joins: seq<string>) {
    Hex.AllHex(done) && joins == Hex.EncodeAll(PairUp(h, Hex.DecodeAll(done)))
  }

  /** The inner loop: joins neighbours from index 2 on, stopping at the first text that does not decode. */
  method JoinLevel(h: HashFn, level: seq<string>, levelLength: nat, ghost tail: seq<string>)
    returns (r: Result<seq<string>>)
    requires ReadyToJoin(level, levelLength, tail)
    ensures r.Ok? <==> Hex.AllHex(tail)
    ensures r.Ok? ==> JoinedSoFar(h, tail, r.value)
    ensures r.Err? ==> r.why == MalformedHex
  {
    hide PairUp, Hex.EncodeAll, Hex.DecodeAll, Hex.IsHex, Hex.Bytes;
    var levelJoins: seq<string> := [];
    var i := 2;
    ghost var done: seq<string> := [];
    while i < levelLength
      invariant 2 <= i <= levelLength + 1 && i % 2 == 0
      invariant done <= tail && |done| == if i <= levelLength then i - 2 else |tail|
      invariant JoinedSoFar(h, done, levelJoins)
    {
      var x, y := level[i], level[i + 1];
      assert x == tail[i - 2];
      assert i + 1 < levelLength ==> y == tail[i - 1];
      var joined := Join(h, x, y);
      if joined.Err? {
        return Err(joined.why);
      }
      ghost var more := if i + 1 < levelLength then [x, y] else [x];
      JoinNext(h, done, more, y, levelJoins);
      done := done + more;
      levelJoins := levelJoins + [joined.value];
      i := i + 2;
    }
    assert done == tail;
    return Ok(levelJoins);
  }

  lemma JoinNext(h: HashFn, done: seq<string>, more: seq<string>, y: string, joins: seq<string>)
    requires |done| % 2 == 0 && 1 <= |more| <= 2 && y == more[|more| - 1]
    requires JoinedSoFar(h, done, joins) && Join(h, more[0], y).Ok?
    ensures JoinedSoFar(h, done + more, joins + [Join(h, more[0], y).value])
  {
    Hex.DecodeAllConcat(done, more);
    var a, b := Hex.DecodeAll(done), Hex.DecodeAll(more);
    PairUpPrefix(h, a, b);
    var up := h(b[0] + b[|b| - 1]);
    assert PairUp(h, b) == [up];
    Hex.EncodeAllConcat(PairUp(h, a), [up]);
  }

  lemma NextLevel(h: HashFn, rest: seq<string>)
    requires rest != [] && Hex.AllHex(rest[1..])
    ensures var up := Hex.EncodeAll(PairUp(h, Hex.DecodeAll(rest[1..])));
      Hex.AllHex(up) && (up != [] ==> Hex.AllHex(up[1..])) && StepTexts(h, rest) == [rest[0]] + StepTexts(h, up)
  {
    StepTextsOfHashes(h, PairUp(h, Hex.DecodeAll(rest[1..])));
  }

  /** What `makeHeaderMerkleRoot` computes: one hash per step, the running value always on the left. */
  function HeaderMerkleRoot(h: HashFn, coinbase: string, steps: seq<string>): Result<string> {
    if !Hex.IsHex(coinbase) || !Hex.AllHex(steps) then Err(MalformedHex)
    else Ok(Hex.Encode(FoldBranch(h, Hex.Bytes(coinbase), Hex.DecodeAll(steps), 0)))
  }

  lemma {:induction false} FoldAppend(h: HashFn, leaf: Bytes, branch: seq<Bytes>, x: Bytes)
    ensures FoldBranch(h, leaf, branch + [x], 0) == h(FoldBranch(h, leaf, branch, 0) + x)
    decreases |branch|
  {
    if branch == [] {
      ConcatEmpty([x]);
    } else {
      SplitWithin(branch, [x], 1);
      FoldAppend(h, h(leaf + branch[0]), branch[1..], x);
    }
  }

  method MakeHeaderMerkleRoot(h: HashFn, coinbase: string, merkleBranchSteps: seq<string>) returns (r: Result<string>)
    ensures r == HeaderMerkleRoot(h, coinbase, merkleBranchSteps)
  {
    if !Hex.IsHex(coinbase) {
      return Err(MalformedHex);
    }
    var block := Hex.Bytes(coinbase);
    for i := 0 to |merkleBranchSteps|
      invariant Hex.AllHex(merkleBranchSteps[..i])
      invariant block == FoldBranch(h, Hex.Bytes(coinbase), Hex.DecodeAll(merkleBranchSteps[..i]), 0)
    {
      var branch := merkleBranchSteps[i];
      if !Hex.IsHex(branch) {
        return Err(MalformedHex);
      }
      FoldAppend(h, Hex.Bytes(coinbase), Hex.DecodeAll(merkleBranchSteps[..i]), Hex.Bytes(branch));
      Hex.DecodeAllAppend(merkleBranchSteps[..i], branch);
      TakeNext(merkleBranchSteps, i);
      block := h(block + Hex.Bytes(branch));
    }
    TakeAll(merkleBranchSteps);
    return Ok(Hex.Encode(block));
  }

  // ---------- the main result ----------

  /** Steps first, root second, as a job is built and a share is checked. */
  function JobMerkleRoot(h: HashFn, coinbase: string, ids: seq<string>): Result<string> {
    if ids != [] && !Hex.AllHex(ids[1..]) then Err(MalformedHex)
    else HeaderMerkleRoot(h, coinbase, StepTexts(h, ids))
  }

  /**
   * Stratum refinement, on every text input: the pipeline succeeds exactly when the coinbase hash and all
   * transaction ids are hexadecimal, and then yields the root of the full tree over all of them.
   */
  lemma StratumRefinement(h: HashFn, coinbase: string, ids: seq<string>)
    ensures JobMerkleRoot(h, coinbase, ids).Ok? <==> Hex.IsHex(coinbase) && Hex.AllHex(ids)
    ensures Hex.IsHex(coinbase) && Hex.AllHex(ids) ==>
      JobMerkleRoot(h, coinbase, ids) == Ok(Hex.Encode(Root(h, [Hex.Bytes(coinbase)] + Hex.DecodeAll(ids))))
  {
    if ids != [] && Hex.AllHex(ids[1..]) {
      StepTextsDecode(h, ids);
    } else if ids != [] {
      Hex.AllHexConcat([ids[0]], ids[1..]);
      assert ids == [ids[0]] + ids[1..];
    }
    if Hex.IsHex(coinbase) && Hex.AllHex(ids) {
      StepsFoldToRoot(h, Hex.Bytes(coinbase), Hex.DecodeAll(ids));
    }
  }

  lemma StepTextsDecode(h: HashFn, ids: seq<string>)
    requires ids != [] && Hex.AllHex(ids[1..])
    ensures Hex.AllHex(StepTexts(h, ids)) <==> Hex.IsHex(ids[0])
    ensures Hex.AllHex(ids) <==> Hex.IsHex(ids[0])
    ensures Hex.IsHex(ids[0]) ==> Hex.DecodeAll(StepTexts(h, ids)) == Steps(h, Hex.DecodeAll(ids))
  {
    var steps := Steps(h, PairUp(h, Hex.DecodeAll(ids[1..])));
    Hex.DecodeEncodeAll(steps);
    Hex.AllHexConcat([ids[0]], Hex.EncodeAll(steps));
    Hex.AllHexConcat([ids[0]], ids[1..]);
    assert ids == [ids[0]] + ids[1..];
    if Hex.IsHex(ids[0]) {
      assert Hex.DecodeAll(ids)[1..] == Hex.DecodeAll(ids[1..]);
    }
  }

  // ---------- the template's transaction list ----------

  /** An id of odd length is silently replaced by the empty text, which then counts as an empty hash. */
  function ReversedIds(ids: seq<string>): (r: seq<string>)
    ensures |r| == |ids|
  {
    seq(|ids|, i requires 0 <= i < |ids| => if |ids[i]| % 2 == 0 then PairsReversed(ids[i]) else "")
  }

  method MerkleSteps(h: HashFn, ids: seq<string>) returns (r: Result<seq<string>>)
    ensures r.Ok? <==> ids == [] || Hex.AllHex(ReversedIds(ids)[1..])
    ensures r.Ok? ==> r.value == StepTexts(h, ReversedIds(ids))
    ensures r.Err? ==> r.why == MalformedHex
  {
    var transactionIDs: seq<string> := [];
    for i := 0 to |ids|
      invariant transactionIDs == ReversedIds(ids)[..i]
    {
      var idReversed := ReverseHexBytes(ids[i]);
      transactionIDs := transactionIDs + [if idReversed.Ok? then idReversed.value else ""];
    }
    assert transactionIDs == ReversedIds(ids);
    r := TemplateMerkleBranchSteps(h, transactionIDs);
  }

  /** The leaf an id of the template stands for. */
  function IdLeaf(id: string): Bytes
    requires IdReads(id)
  {
    if |id| % 2 == 1 then [] else Reversed(Hex.Bytes(id))
  }

  predicate IdReads(id: string) {
    |id| % 2 == 1 || Hex.IsHex(id)
  }

  function IdLeaves(ids: seq<string>): (leaves: seq<Bytes>)
    requires forall i :: 0 <= i < |ids| ==> IdReads(ids[i])
    ensures |leaves| == |ids|
  {
    if ids == [] then [] else [IdLeaf(ids[0])] + IdLeaves(ids[1..])
  }

  lemma IdText(id: string)
    ensures var text := if |id| % 2 == 0 then PairsReversed(id) else "";
      (Hex.IsHex(text) <==> IdReads(id)) && (IdReads(id) ==> Hex.Bytes(text) == IdLeaf(id))
  {
    if |id| % 2 == 1 {
      assert Hex.Bytes("") == [];
    } else if Hex.IsHex(id) {
      PairsReversedDecodes(id);
    } else if Hex.IsHex(PairsReversed(id)) {
      PairsReversedDecodes(PairsReversed(id));
      PairsReversedInvolution(id);
    }
  }

  lemma ReversedIdsTail(ids: seq<string>)
    requires ids != []
    ensures ReversedIds(ids) == [if |ids[0]| % 2 == 0 then PairsReversed(ids[0]) else ""] + ReversedIds(ids[1..])
  {
  }

  lemma {:induction false} IdLeavesAre(ids: seq<string>)
    ensures Hex.AllHex(ReversedIds(ids)) <==> forall i :: 0 <= i < |ids| ==> IdReads(ids[i])
    ensures Hex.AllHex(ReversedIds(ids)) ==> Hex.DecodeAll(ReversedIds(ids)) == IdLeaves(ids)
  {
    if ids != [] {
      IdText(ids[0]);
      IdLeavesAre(ids[1..]);
      ReversedIdsTail(ids);
      var first := [if |ids[0]| % 2 == 0 then PairsReversed(ids[0]) else ""];
      Hex.AllHexConcat(first, ReversedIds(ids[1..]));
      assert forall i :: 1 <= i < |ids| ==> ids[i] == ids[1..][i - 1];
      HeadTail(first[0], ReversedIds(ids[1..]));
    }
  }

  lemma {:induction false} IdDecodes(ids: seq<string>, i: nat)
    requires i < |ids| && Hex.AllHex(ReversedIds(ids)) && Hex.IsHex(ids[i])
    ensures Hex.DecodeAll(ReversedIds(ids))[i] == Reversed(Hex.Bytes(ids[i]))
  {
    ReversedIdsTail(ids);
    if i == 0 {
      PairsReversedDecodes(ids[0]);
    } else {
      assert ReversedIds(ids)[1..] == ReversedIds(ids[1..]);
      IdDecodes(ids[1..], i - 1);
    }
  }

  /**
   * Which id lists become a root, and which root: every id of even length must be hexadecimal and is a leaf with its
   * bytes reversed; an id of odd length, whatever its characters, is an empty leaf.
   */
  lemma IdsBecomeRootIff(h: HashFn, coinbase: string, ids: seq<string>)
    ensures JobMerkleRoot(h, coinbase, ReversedIds(ids)).Ok? <==>
      Hex.IsHex(coinbase) && forall i :: 0 <= i < |ids| ==> |ids[i]| % 2 == 1 || Hex.IsHex(ids[i])
    ensures JobMerkleRoot(h, coinbase, ReversedIds(ids)).Ok? ==>
      JobMerkleRoot(h, coinbase, ReversedIds(ids))
        == Ok(Hex.Encode(Root(h, [Hex.Bytes(coinbase)] + IdLeaves(ids))))
  {
    StratumRefinement(h, coinbase, ReversedIds(ids));
    IdLeavesAre(ids);
    assert forall i :: 0 <= i < |ids| ==> (IdReads(ids[i]) <==> |ids[i]| % 2 == 1 || Hex.IsHex(ids[i]));
  }

  /** An id one digit too long: the job is built without an error, over an empty hash. */
  lemma OddIdCountsAsEmpty(h: HashFn, coinbase: string)
    requires Hex.IsHex(coinbase)
    ensures ReversedIds(["abc"]) == [""]
    ensures JobMerkleRoot(h, coinbase, ReversedIds(["abc"])) == Ok(Hex.Encode(h(Hex.Bytes(coinbase))))
  {
    StratumRefinement(h, coinbase, [""]);
    assert Hex.Bytes("") == [];
    assert Hex.DecodeAll([""]) == [[]];
    var level := [Hex.Bytes(coinbase)] + [[]];
    ConcatEmpty(Hex.Bytes(coinbase));
    assert PairUp(h, level) == [h(Hex.Bytes(coinbase))];
  }
}
