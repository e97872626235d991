/** The prover half of bitcoin/auxMerkelBranch.go: branch, mask and their text form. */
module AuxBranch {
  import opened Base
  import opened Encoding
  import opened Merkle
  import opened AuxTree
  import Hex

  // ---------- decimal text where bytes are meant ----------

  function Decimal(n: nat): (s: string)
    ensures s != [] && (n >= 10 ==> |s| >= 2)
  {
    var digit := ('0' as int + n % 10) as char;
    if n < 10 then [digit] else Decimal(n / 10) + [digit]
  }

  /** `fmt.Sprintf("0%d000000", idx)`. */
  function MaskText(index: nat): string {
    "0" + Decimal(index) + "000000"
  }

  /** `fmt.Sprint("0", n)`. */
  function CountText(n: nat): string {
    "0" + Decimal(n)
  }

  /** Both formats are the intended little-endian bytes exactly below ten; from ten on the text is too long. */
  lemma DecimalTexts(v: nat)
    ensures MaskText(v) == Hex.Encode(LE(v, 4)) <==> v < 10
    ensures v < 256 ==> (CountText(v) == Hex.Encode([v]) <==> v < 10)
  {
    hide LE, Hex.Encode;
    if v < 10 {
      SmallText(v);
      Hex.ByteText(v);
      assert Decimal(v) == [Hex.DigitChar(v)] && Hex.DigitChar(0) == '0';
      assert MaskText(v) == ['0', Hex.DigitChar(v)] + "000000";
    } else {
      assert |MaskText(v)| > 8 && |CountText(v)| > 2;
    }
  }

  // ---------- branch and mask ----------

  /** The search loop does not stop at a match: the last slot with these bytes wins. */
  function LastMatch(slots: seq<Bytes>, hash: Bytes): (m: Option<nat>)
    ensures m.Some? ==> m.value < |slots| && slots[m.value] == hash
    ensures m.Some? ==> forall i :: m.value < i < |slots| ==> slots[i] != hash
    ensures m.None? ==> hash !in slots
  {
    if slots == [] then None
    else if slots[|slots| - 1] == hash then Some(|slots| - 1)
    else LastMatch(slots[..|slots| - 1], hash)
  }

  predicate InRange(aux: seq<AuxBlock>, n: int) {
    1 <= n <= |aux|
  }

  /** A hash in the order the tree stores it. */
  function LeafOf(block: AuxBlock): Bytes
    requires Hex.IsHex(block.hash)
  {
    Reversed(Hex.Bytes(block.hash))
  }

  /**
   * `buildMerkleBranchesAndMask` for a tree of 2^k slots.  Malformed hashes leave the slots nil, which gives an
   * empty branch and an empty mask instead of an error.
   */
  function BranchAndMask(h: HashFn, k: nat, indexHeight: nat, aux: seq<AuxBlock>, n: int)
    : Result<(seq<Bytes>, string)>
    requires indexHeight < 32
  {
    var built := Leaves(Pow2(k), indexHeight, aux);
    if built == Err(Panic) || !InRange(aux, n) then Err(Panic)
    else if built.Err? then Ok(([], ""))
    else
      LeavesOk(Pow2(k), indexHeight, aux);
      assert Fits(Pow2(k), indexHeight, aux, n - 1);
      match LastMatch(built.value, LeafOf(aux[n - 1]))
      case Some(m) => Ok((Branch(h, built.value, m, k), MaskText(m)))
      case None => Ok((Branch(h, built.value, 0, k), ""))
  }

  method BuildMerkleBranchesAndMask(h: HashFn, k: nat, merkleSize: nat, indexHeight: nat, auxblocks: seq<AuxBlock>, n: int)
    returns (r: Result<(seq<Bytes>, string)>)
    requires indexHeight < 32 && merkleSize == Pow2(k)
    ensures r == BranchAndMask(h, k, indexHeight, auxblocks, n)
  {
    hide Pow2, Branch, MaskText, Hex.Bytes, ExpectedIndex;
    var built := BuildMerkleLeaf(merkleSize, indexHeight, auxblocks);
    if built == Err(Panic) || n < 1 || n > |auxblocks| {
      return Err(Panic);
    }
    if built.Err? {
      return Ok(([], ""));
    }
    var slots := built.value;
    LeavesOk(merkleSize, indexHeight, auxblocks);
    assert Fits(merkleSize, indexHeight, auxblocks, n - 1);
    var searchedHash := ReverseBytes(Hex.Bytes(auxblocks[n - 1].hash));
    var searchedIndex := 0;
    var merkleMask := "";
    for idx := 0 to |slots|
      invariant match LastMatch(slots[..idx], searchedHash)
        case Some(m) => searchedIndex == m && merkleMask == MaskText(m)
        case None => searchedIndex == 0 && merkleMask == ""
    {
      assert slots[..idx + 1][..idx] == slots[..idx];
      if slots[idx] == searchedHash {
        searchedIndex := idx;
        merkleMask := MaskText(idx);
      }
    }
    TakeAll(slots);
    var merkleBranch := ClimbFrom(h, slots, searchedIndex, k);
    return Ok((merkleBranch, merkleMask));
  }

  /** `done` and the branch still to be met make up `whole`. */
  predicate Climbing(h: HashFn, level: seq<Bytes>, index: nat, k: nat, done: seq<Bytes>, whole: seq<Bytes>) {
    |level| == Pow2(k) && index < |level| && done + Branch(h, level, index, k) == whole
  }

  lemma SiblingBelow(index: nat, m: nat)
    requires index < 2 * m
    ensures Sibling(index) < 2 * m && index / 2 < m
  {
  }

  lemma ClimbStep(h: HashFn, level: seq<Bytes>, index: nat, k: nat, done: seq<Bytes>, whole: seq<Bytes>)
    requires k > 0 && Climbing(h, level, index, k, done, whole)
    ensures Sibling(index) < |level|
    ensures Climbing(h, PairUp(h, level), index / 2, k - 1, done + [level[Sibling(index)]], whole)
  {
    SiblingBelow(index, Pow2(k - 1));
    ConcatAssoc(done, [level[Sibling(index)]], Branch(h, PairUp(h, level), index / 2, k - 1));
  }

  /** The level loop: notes the sibling, joins the level, halves the index. */
  method ClimbFrom(h: HashFn, slots: seq<Bytes>, index: nat, ghost k: nat) returns (merkleBranch: seq<Bytes>)
    requires |slots| == Pow2(k) && index < |slots|
    ensures merkleBranch == Branch(h, slots, index, k)
  {
    merkleBranch := [];
    var currentLevel := slots;
    var searchedIndex: nat := index;
    ghost var left: nat, whole := k, Branch(h, slots, index, k);
    ConcatEmpty(whole);
    while |currentLevel| > 1
      invariant Climbing(h, currentLevel, searchedIndex, left, merkleBranch, whole)
      decreases |currentLevel|
    {
      ClimbStep(h, currentLevel, searchedIndex, left, merkleBranch, whole);
      var siblingIndex := Sibling(searchedIndex);
      var newLevel := PairLevel(h, currentLevel);
      merkleBranch := merkleBranch + [currentLevel[siblingIndex]];
      searchedIndex := searchedIndex / 2;
      currentLevel := newLevel;
      left := left - 1;
    }
    assert left == 0;
    ConcatEmpty(merkleBranch);
  }

  // ---------- soundness of the branch ----------

  /** Whenever the block's hash stands in some slot, the branch climbs along the mask to the root of that tree. */
  lemma MaskProves(h: HashFn, k: nat, indexHeight: nat, aux: seq<AuxBlock>, n: int)
    requires indexHeight < 32 && InRange(aux, n) && Leaves(Pow2(k), indexHeight, aux).Ok?
    requires Hex.IsHex(aux[n - 1].hash)
    requires LeafOf(aux[n - 1]) in Leaves(Pow2(k), indexHeight, aux).value
    ensures BranchAndMask(h, k, indexHeight, aux, n).Ok?
    ensures var (branch, mask) := BranchAndMask(h, k, indexHeight, aux, n).value;
      var m := LastMatch(Leaves(Pow2(k), indexHeight, aux).value, LeafOf(aux[n - 1])).value;
      && |branch| == k
      && mask == MaskText(m)
      && Ok(FoldBranch(h, LeafOf(aux[n - 1]), branch, m)) == CommittedRoot(h, Pow2(k), indexHeight, aux)
  {
    var leaves := Leaves(Pow2(k), indexHeight, aux).value;
    var m := LastMatch(leaves, LeafOf(aux[n - 1])).value;
    BranchFoldsToRoot(h, leaves, m, k);
  }

  predicate AllHashesHex(aux: seq<AuxBlock>) {
    forall j :: 0 <= j < |aux| ==> Hex.IsHex(aux[j].hash)
  }

  /** What a caller can check of the blocks before asking for a proof. */
  predicate ProperBlocks(h: nat, aux: seq<AuxBlock>) {
    && AllHashesHex(aux)
    && (forall i, j :: 0 <= i < j < |aux| ==> aux[i].chainID % Pow2(h) != aux[j].chainID % Pow2(h))
    && (forall i, j :: 0 <= i < j < |aux| ==> LeafOf(aux[i]) != LeafOf(aux[j]))
    && (forall i :: 0 <= i < |aux| ==> LeafOf(aux[i]) != Zeros(32))
  }

  lemma {:induction false} DistinctBelow(s: seq<nat>, bound: nat)
    requires forall i :: 0 <= i < |s| ==> s[i] < bound
    requires forall i, j :: 0 <= i < j < |s| ==> s[i] != s[j]
    ensures |s| <= bound
  {
    if s != [] {
      assert s[0] < bound;
      if forall i :: 0 <= i < |s| ==> s[i] != bound - 1 {
        DistinctBelow(s, bound - 1);
      } else {
        var i :| 0 <= i < |s| && s[i] == bound - 1;
        var rest := s[..i] + s[i + 1..];
        assert forall j :: 0 <= j < |rest| ==> rest[j] == s[if j < i then j else j + 1];
        DistinctBelow(rest, bound - 1);
      }
    }
  }

  lemma DistinctSlots(h: nat, aux: seq<AuxBlock>)
    requires h < 32 && ProperBlocks(h, aux)
    ensures forall i, j :: 0 <= i < j < |aux| ==>
      ExpectedIndex(aux[i].chainID, h) != ExpectedIndex(aux[j].chainID, h)
    ensures Leaves(Pow2(h), h, aux).Ok?
  {
    forall i, j | 0 <= i < j < |aux|
      ensures ExpectedIndex(aux[i].chainID, h) != ExpectedIndex(aux[j].chainID, h)
    {
      SlotCollision(aux[i].chainID, aux[j].chainID, h);
    }
    var slots := seq(|aux|, i requires 0 <= i < |aux| => ExpectedIndex(aux[i].chainID, h));
    DistinctBelow(slots, Pow2(h));
    LeavesOk(Pow2(h), h, aux);
  }

  /** In a properly filled tree of any size that fits, a block's hash stands in its own slot and nowhere else. */
  lemma LeafOnlyInOwnSlot(k: nat, h: nat, aux: seq<AuxBlock>, i: nat, slot: nat)
    requires h < 32 && ProperBlocks(h, aux) && i < |aux| && slot < Pow2(k)
    requires Leaves(Pow2(k), h, aux).Ok?
    ensures Leaves(Pow2(k), h, aux).value[slot] == LeafOf(aux[i]) <==> slot == ExpectedIndex(aux[i].chainID, h)
  {
    DistinctSlots(h, aux);
    var j := PlaceLast(NoSlots(Pow2(k)), h, aux, 0, slot);
    if j == -1 {
      assert !Claims(h, aux, i, slot);
    }
  }

  /** Whatever the size of the tree, the mask of every block is the slot prescribed by the index height. */
  lemma MaskIsSlot(k: nat, h: nat, aux: seq<AuxBlock>, n: int)
    requires h < 32 && ProperBlocks(h, aux) && InRange(aux, n) && Leaves(Pow2(k), h, aux).Ok?
    ensures LeafOf(aux[n - 1]) in Leaves(Pow2(k), h, aux).value
    ensures LastMatch(Leaves(Pow2(k), h, aux).value, LeafOf(aux[n - 1])) == Some(ExpectedIndex(aux[n - 1].chainID, h))
  {
    LeavesOk(Pow2(k), h, aux);
    assert Fits(Pow2(k), h, aux, n - 1);
    var leaves := Leaves(Pow2(k), h, aux).value;
    var own := ExpectedIndex(aux[n - 1].chainID, h);
    forall slot | 0 <= slot < |leaves| ensures leaves[slot] == LeafOf(aux[n - 1]) <==> slot == own {
      LeafOnlyInOwnSlot(k, h, aux, n - 1, slot);
    }
    assert leaves[own] == LeafOf(aux[n - 1]);
  }

  /** With one height on both sides, the mask of every block is the slot the chain expects it in. */
  lemma MaskIsExpectedSlot(h: nat, aux: seq<AuxBlock>, n: int)
    requires h < 32 && ProperBlocks(h, aux) && InRange(aux, n)
    ensures Leaves(Pow2(h), h, aux).Ok?
    ensures LastMatch(Leaves(Pow2(h), h, aux).value, LeafOf(aux[n - 1])) == Some(ExpectedIndex(aux[n - 1].chainID, h))
  {
    DistinctSlots(h, aux);
    MaskIsSlot(h, h, aux, n);
  }

  // ---------- two different heights ----------

  lemma {:induction false} RootSplit(h: HashFn, a: seq<Bytes>, b: seq<Bytes>, k: nat)
    requires |a| == |b| == Pow2(k)
    ensures Root(h, a + b) == h(Root(h, a) + Root(h, b))
    decreases k
  {
    if k == 0 {
      assert PairUp(h, a + b) == [h(a[0] + b[0])];
    } else {
      PairUpPrefix(h, a, b);
      RootSplit(h, PairUp(h, a), PairUp(h, b), k - 1);
    }
  }

  lemma LeavesWider(k: nat, indexHeight: nat, aux: seq<AuxBlock>)
    requires indexHeight < 32 && Leaves(Pow2(k), indexHeight, aux).Ok?
    ensures Leaves(Pow2(k + 1), indexHeight, aux)
         == Ok(Leaves(Pow2(k), indexHeight, aux).value + seq(Pow2(k), _ => Zeros(32)))
  {
    var empty := NoSlots(Pow2(k));
    PlaceWider(empty, empty, indexHeight, aux, 0);
    assert empty + empty == NoSlots(Pow2(k + 1));
    var placed := Place(empty, indexHeight, aux, 0).value;
    assert Filled(placed + empty) == Filled(placed) + seq(Pow2(k), _ => Zeros(32));
  }

  /**
   * A branch taken from a tree one level lower than the committed one (the source commits 16 slots and proves
   * with 8) only reaches the left child of the committed root.
   */
  lemma LowerTreeReachesLeftChild(h: HashFn, k: nat, aux: seq<AuxBlock>, n: int)
    requires k + 1 < 32 && InRange(aux, n) && Leaves(Pow2(k), k + 1, aux).Ok?
    requires Hex.IsHex(aux[n - 1].hash)
    requires LeafOf(aux[n - 1]) in Leaves(Pow2(k), k + 1, aux).value
    ensures BranchAndMask(h, k, k + 1, aux, n).Ok?
    ensures var (branch, mask) := BranchAndMask(h, k, k + 1, aux, n).value;
      var m := LastMatch(Leaves(Pow2(k), k + 1, aux).value, LeafOf(aux[n - 1])).value;
      var child := FoldBranch(h, LeafOf(aux[n - 1]), branch, m);
      var emptyHalf := Root(h, seq(Pow2(k), _ => Zeros(32)));
      CommittedRoot(h, Pow2(k + 1), k + 1, aux) == Ok(h(child + emptyHalf))
  {
    MaskProves(h, k, k + 1, aux, n);
    var size := Pow2(k);
    var empty := seq(size, _ => Zeros(32));
    LeavesWider(k, k + 1, aux);
    RootSplit(h, Leaves(size, k + 1, aux).value, empty, k);
  }

  const COMMIT_HEIGHT: nat := 4
  const BRANCH_HEIGHT: nat := 3

  lemma SmallTrees()
    ensures Pow2(4) == 16 && Pow2(3) == 8
  {
  }

  /** Dogecoin's chain id 0x62 falls into slot 8 of 16, which a tree of 8 slots does not have. */
  lemma DogecoinOutsideBranchTree(h: HashFn, hash: string, target: string)
    requires Hex.IsHex(hash)
    ensures ExpectedIndex(0x62, COMMIT_HEIGHT) == 8
    ensures CommittedRoot(h, Pow2(COMMIT_HEIGHT), COMMIT_HEIGHT, [AuxBlock(hash, 0x62, target)]).Ok?
    ensures BranchAndMask(h, BRANCH_HEIGHT, COMMIT_HEIGHT, [AuxBlock(hash, 0x62, target)], 1) == Err(Panic)
  {
    hide Pow2, ExpectedIndex, Root;
    var aux := [AuxBlock(hash, 0x62, target)];
    SmallTrees();
    WrappingIsInvisible(0x62, 4);
    LeavesOk(16, 4, aux);
    assert Place(NoSlots(8), 4, aux, 0) == Err(Panic);
  }

  // ---------- serialized form ----------

  datatype AuxMerkleBranch = AuxMerkleBranch(numberOfBranches: string, branchHashes: Bytes, mask: string) {
    function Serialize(): string {
      numberOfBranches + Hex.Encode(branchHashes) + mask
    }
  }

  function AuxChainMerkleBranch(h: HashFn, k: nat, indexHeight: nat, aux: seq<AuxBlock>, n: int)
    : Result<AuxMerkleBranch>
    requires indexHeight < 32
  {
    match BranchAndMask(h, k, indexHeight, aux, n)
    case Err(why) => Err(why)
    case Ok((branch, mask)) => Ok(AuxMerkleBranch(CountText(|branch|), Flatten(branch), mask))
  }

  /** `makeAuxChainMerkleBranch`; the source passes 8 slots and index height 4. */
  method MakeAuxChainMerkleBranch(h: HashFn, k: nat, merkleSize: nat, indexHeight: nat, aux: seq<AuxBlock>, n: int)
    returns (r: Result<AuxMerkleBranch>)
    requires indexHeight < 32 && merkleSize == Pow2(k)
    ensures r == AuxChainMerkleBranch(h, k, indexHeight, aux, n)
  {
    var built := BuildMerkleBranchesAndMask(h, k, merkleSize, indexHeight, aux, n);
    if built.Err? {
      return Err(built.why);
    }
    var (branch, mask) := built.value;
    var concatMerkelBranch: Bytes := [];
    for i := 0 to |branch|
      invariant concatMerkelBranch == Flatten(branch[..i])
    {
      TakeNext(branch, i);
      FlattenAppend(branch[..i], branch[i]);
      concatMerkelBranch := concatMerkelBranch + branch[i];
    }
    TakeAll(branch);
    return Ok(AuxMerkleBranch(CountText(|branch|), concatMerkelBranch, mask));
  }
}
