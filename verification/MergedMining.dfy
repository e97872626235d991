/** pool/work.go (commitment) and bitcoin/auxpow.go (proof): what an auxiliary chain is shown, and what it checks. */
module MergedMining {
  import opened Base
  import opened Encoding
  import opened Wire
  import opened Coinbase
  import opened AuxTree
  import opened AuxBranch
  import opened Block
  import Hex
  import Merkle

  // ---------- the commitment in the coinbase script ----------

  function Magic(): Bytes {
    [0xfa, 0xbe, 0x6d, 0x6d]
  }

  /** `createScriptSig`. */
  function CommitmentScript(merkleNonce: nat, merkleSize: nat, merkleRoot: Bytes): Bytes {
    Magic() + Reversed(merkleRoot) + LE(merkleSize, 4) + LE(merkleNonce, 4)
  }

  lemma CommitmentExists(h: HashFn, c: nat, indexHeight: nat, aux: seq<AuxBlock>)
    requires indexHeight < 32
    ensures CommittedRoot(h, Pow2(c), indexHeight, aux).Ok?
      <==> forall j :: 0 <= j < |aux| ==> Fits(Pow2(c), indexHeight, aux, j)
  {
    hide Place, Fits;
    LeavesOk(Pow2(c), indexHeight, aux);
  }

  /** `createMergedMiningCoinbase` for 2^c slots; the source passes 16 slots, index height 4 and nonce 0. */
  method CreateMergedMiningCoinbase(h: HashFn, c: nat, indexHeight: nat, auxblocks: seq<AuxBlock>, merkleNonce: nat)
    returns (r: Result<Bytes>)
    requires c < 31 && indexHeight < 32 && merkleNonce < U32
    ensures r.Ok? <==> forall j :: 0 <= j < |auxblocks| ==> Fits(Pow2(c), indexHeight, auxblocks, j)
    ensures r.Ok? ==> CommittedRoot(h, Pow2(c), indexHeight, auxblocks).Ok?
    ensures r.Ok? ==>
      r.value == CommitmentScript(merkleNonce, Pow2(c), CommittedRoot(h, Pow2(c), indexHeight, auxblocks).value)
    ensures r.Ok? ==> MagicAt(r.value, 0) && Hex.Encode(r.value)[..8] == "fabe6d6d"
  {
    CommitmentExists(h, c, indexHeight, auxblocks);
    hide Pow2, Fits, CommittedRoot, Magic, MagicAt, Hex.Encode, LE, Reversed;
    var merkleRoot := BuildMerkleRoot(h, Pow2(c), indexHeight, auxblocks);
    if merkleRoot.Err? {
      return Err(merkleRoot.why);
    }
    var scriptSig := Magic();
    var reversedMerkleRoot := ReverseBytes(merkleRoot.value);
    scriptSig := scriptSig + reversedMerkleRoot;
    scriptSig := scriptSig + LE(Pow2(c), 4);
    scriptSig := scriptSig + LE(merkleNonce, 4);
    CommitmentHead(merkleNonce, Pow2(c), merkleRoot.value);
    return Ok(scriptSig);
  }

  // ---------- what an auxiliary chain checks ----------

  /** What an auxiliary chain scans a script for: these four bytes, from position `i` on. */
  predicate MagicAt(script: Bytes, i: nat) {
    && i + 4 <= |script|
    && script[i] == 0xfa && script[i + 1] == 0xbe && script[i + 2] == 0x6d && script[i + 3] == 0x6d
  }

  datatype Commitment = Commitment(root: Bytes, size: nat, nonce: nat)

  /** The first place from `from` on where they stand. */
  function FindMagic(script: Bytes, from: nat): (p: Option<nat>)
    ensures p.Some? ==> from <= p.value && MagicAt(script, p.value) && NoneBefore(script, from, p.value)
    ensures p.None? ==> NoneBefore(script, from, |script|)
    decreases |script| - from
  {
    if from + 4 > |script| then None
    else if MagicAt(script, from) then Some(from)
    else FindMagic(script, from + 1)
  }

  /** The fields behind the first magic bytes of a coinbase script. */
  function ReadCommitment(script: Bytes): Option<Commitment> {
    var p :- FindMagic(script, 0);
    if p + 44 > |script| then None
    else Some(Commitment(
      Reversed(script[p + 4..p + 36]), FromLE(script[p + 36..p + 40]), FromLE(script[p + 40..p + 44])))
  }

  /** The parent half of a proof: coinbase to header. */
  predicate ParentLinked(h: HashFn, p: AuxProof) {
    && p.coinbase.Fits() && p.parentIndex == 0
    && Merkle.FoldBranch(h, h(PutTx(p.coinbase, [])), p.parentBranch, p.parentIndex) == p.header.merkleRoot
  }

  /** The commitment behind the first magic bytes names this root, a tree of this height, and this slot. */
  ghost predicate Shows(script: Bytes, root: Bytes, height: nat, slot: nat, chainID: int) {
    match ReadCommitment(script)
    case None => false
    case Some(commitment) =>
      && commitment.root == root
      && commitment.size == Pow2(height)
      && slot == UnboundedIndex(commitment.nonce, chainID, height)
  }

  /**
   * The check of the merged mining specification: the parent branch ties the coinbase to the parent header, the
   * coinbase commits to the root the auxiliary branch climbs to, the declared size is that of the branch, and the
   * block stands in the slot its chain id prescribes.
   */
  ghost predicate Accepts(h: HashFn, p: AuxProof, leaf: Bytes, chainID: int) {
    && ParentLinked(h, p)
    && p.coinbase.inputs != []
    && Shows(p.coinbase.inputs[0].script, Merkle.FoldBranch(h, leaf, p.auxBranch, p.auxIndex), |p.auxBranch|,
             p.auxIndex, chainID)
  }

  lemma Slices(before: Bytes, a: Bytes, b: Bytes, c: Bytes, d: Bytes)
    requires |a| == 4 && |b| == 32 && |c| == 4 && |d| == 4
    ensures var s, p := before + (a + b + c + d), |before|;
      |s| == p + 44 && s[p + 4..p + 36] == b && s[p + 36..p + 40] == c && s[p + 40..p + 44] == d
  {
  }

  /** The three fields behind position `p`. */
  predicate FieldsAt(script: Bytes, p: nat, nonce: nat, size: nat, root: Bytes) {
    && |script| == p + 44
    && script[p + 4..p + 36] == Reversed(root)
    && script[p + 36..p + 40] == LE(size, 4)
    && script[p + 40..p + 44] == LE(nonce, 4)
  }

  lemma CommitmentFields(before: Bytes, nonce: nat, size: nat, root: Bytes)
    requires |root| == 32
    ensures FieldsAt(before + CommitmentScript(nonce, size, root), |before|, nonce, size, root)
  {
    Slices(before, Magic(), Reversed(root), LE(size, 4), LE(nonce, 4));
  }

  lemma FourBytes(v: nat)
    requires v < U32
    ensures FromLE(LE(v, 4)) == v
  {
    Widths();
    FromLEOfLE(v, 4);
  }

  lemma CommitmentReads(script: Bytes, p: nat, nonce: nat, size: nat, root: Bytes)
    requires nonce < U32 && size < U32
    requires FieldsAt(script, p, nonce, size, root) && FindMagic(script, 0) == Some(p)
    ensures ReadCommitment(script) == Some(Commitment(root, size, nonce))
  {
    ReversedInvolution(root);
    FourBytes(size);
    FourBytes(nonce);
  }

  /** Enough for the commitment to be found: its first byte does not come before it. */
  lemma {:induction false} MagicAtCommitment(before: Bytes, commitment: Bytes, from: nat)
    requires from <= |before| && MagicAt(commitment, 0)
    requires forall i :: from <= i < |before| ==> before[i] != 0xfa
    ensures FindMagic(before + commitment, from) == Some(|before|)
    decreases |before| - from
  {
    var script := before + commitment;
    if from < |before| {
      assert script[from] == before[from];
      MagicAtCommitment(before, commitment, from + 1);
    }
  }

  /** No magic bytes start before the commitment, although they may begin in front of it and end inside. */
  predicate NoneBefore(script: Bytes, from: nat, at: nat) {
    forall i :: from <= i < at ==> !MagicAt(script, i)
  }

  /** Exactly then the commitment is what is found. */
  lemma {:induction false} CommitmentFirstIff(before: Bytes, commitment: Bytes, from: nat)
    requires from <= |before| && MagicAt(commitment, 0)
    ensures FindMagic(before + commitment, from).Some? && FindMagic(before + commitment, from).value <= |before|
    ensures FindMagic(before + commitment, from) == Some(|before|)
      <==> NoneBefore(before + commitment, from, |before|)
    decreases |before| - from
  {
    var script := before + commitment;
    if from == |before| {
      assert MagicAt(script, from);
    } else if MagicAt(script, from) {
      assert FindMagic(script, from) == Some(from);
    } else {
      CommitmentFirstIff(before, commitment, from + 1);
    }
  }

  // ---------- the proof the pool builds ----------

  /** The slot written into the mask; zero when the block's hash is in no slot. */
  function AuxIndex(k: nat, indexHeight: nat, aux: seq<AuxBlock>, n: int): nat
    requires indexHeight < 32 && InRange(aux, n) && Leaves(Pow2(k), indexHeight, aux).Ok?
    requires Hex.IsHex(aux[n - 1].hash)
  {
    match LastMatch(Leaves(Pow2(k), indexHeight, aux).value, LeafOf(aux[n - 1]))
    case Some(m) => m
    case None => 0
  }

  /** The data of an AuxPow for block `n`, with a branch taken from a tree of 2^b slots. */
  function Proof(h: HashFn, t: Template, tx: Tx, f: Found, parentHash: Bytes, b: nat, c: nat, n: int): AuxProof
    requires WellFormed(t) && f.WellSized() && tx.Fits()
    requires c < 32 && InRange(t.auxBlocks, n) && Leaves(Pow2(b), c, t.auxBlocks).Ok?
    requires Hex.IsHex(t.auxBlocks[n - 1].hash)
  {
    AuxProof(
      tx, parentHash,
      Merkle.Steps(h, Hex.DecodeAll(Merkle.ReversedIds(t.Ids()))), 0,
      BranchAndMask(h, b, c, t.auxBlocks, n).value.0, AuxIndex(b, c, t.auxBlocks, n),
      MinedHeader(h, t, tx, f))
  }

  /** The coinbase hash folded with the parent branch is the header's root, whatever the auxiliary trees look like. */
  lemma ParentBranchProves(h: HashFn, t: Template, tx: Tx, f: Found, parentHash: Bytes, b: nat, c: nat, n: int)
    requires WellFormed(t) && f.WellSized() && tx.Fits()
    requires c < 32 && InRange(t.auxBlocks, n) && Leaves(Pow2(b), c, t.auxBlocks).Ok?
    requires Hex.IsHex(t.auxBlocks[n - 1].hash)
    ensures ParentLinked(h, Proof(h, t, tx, f, parentHash, b, c, n))
  {
    Merkle.StepsFoldToRoot(h, h(PutTx(tx, [])), Hex.DecodeAll(Merkle.ReversedIds(t.Ids())));
  }

  lemma Pow2Injective(b: nat, c: nat)
    ensures Pow2(b) == Pow2(c) <==> b == c
  {
    if b < c {
      Pow2Monotonic(b, c);
    } else if c < b {
      Pow2Monotonic(c, b);
    }
  }

  lemma CommitSizeFits(c: nat)
    requires c < 31
    ensures Pow2(c) < U32
  {
    U32IsPow2();
    Pow2Monotonic(c, 32);
  }

  /**
   * The proof is accepted exactly when branch and commitment use one tree height.  `before` is everything in front
   * of the commitment in the coinbase script, and must not bring magic bytes of its own.
   */
  lemma AcceptedIffSameHeight(h: HashFn, t: Template, tx: Tx, f: Found, parentHash: Bytes, before: Bytes,
    b: nat, c: nat, n: int)
    requires WellFormed(t) && f.WellSized() && tx.Fits()
    requires c < 31 && InRange(t.auxBlocks, n) && ProperBlocks(c, t.auxBlocks)
    requires forall j :: 0 <= j < |t.auxBlocks| ==> |t.auxBlocks[j].hash| == 64
    requires Leaves(Pow2(b), c, t.auxBlocks).Ok?
    requires CommittedRoot(h, Pow2(c), c, t.auxBlocks).Ok?
    requires var root := CommittedRoot(h, Pow2(c), c, t.auxBlocks).value;
      && |tx.inputs| == 1
      && tx.inputs[0].script == before + CommitmentScript(0, Pow2(c), root)
      && FindMagic(tx.inputs[0].script, 0) == Some(|before|)
    ensures Accepts(h, Proof(h, t, tx, f, parentHash, b, c, n), LeafOf(t.auxBlocks[n - 1]), t.auxBlocks[n - 1].chainID)
      <==> b == c
  {
    var aux, p := t.auxBlocks, Proof(h, t, tx, f, parentHash, b, c, n);
    CommitmentFound(h, c, aux, tx.inputs[0].script, before);
    ParentBranchProves(h, t, tx, f, parentHash, b, c, n);
    ProofSlot(h, b, c, aux, n);
    if b == c {
      BranchOfCommittedTree(h, c, aux, n);
    }
    AcceptsIff(h, p, LeafOf(aux[n - 1]), aux[n - 1].chainID, CommittedRoot(h, Pow2(c), c, aux).value, c);
  }

  lemma ProofSlot(h: HashFn, b: nat, c: nat, aux: seq<AuxBlock>, n: int)
    requires c < 32 && InRange(aux, n) && Leaves(Pow2(b), c, aux).Ok? && Hex.IsHex(aux[n - 1].hash)
    ensures BranchAndMask(h, b, c, aux, n).Ok? && |BranchAndMask(h, b, c, aux, n).value.0| == b
  {
  }

  /** The auxiliary half of the check, for a proof whose parent half holds. */
  lemma AcceptsIff(h: HashFn, p: AuxProof, leaf: Bytes, chainID: int, root: Bytes, c: nat)
    requires ParentLinked(h, p) && p.coinbase.inputs != []
    requires ReadCommitment(p.coinbase.inputs[0].script) == Some(Commitment(root, Pow2(c), 0))
    requires |p.auxBranch| == c ==>
      Merkle.FoldBranch(h, leaf, p.auxBranch, p.auxIndex) == root && p.auxIndex == UnboundedIndex(0, chainID, c)
    ensures Accepts(h, p, leaf, chainID) <==> |p.auxBranch| == c
  {
    Pow2Injective(|p.auxBranch|, c);
  }

  /** The auxiliary chain reads the committed root, size and nonce. */
  lemma CommitmentFound(h: HashFn, c: nat, aux: seq<AuxBlock>, script: Bytes, before: Bytes)
    requires c < 31 && CommittedRoot(h, Pow2(c), c, aux).Ok?
    requires forall j :: 0 <= j < |aux| ==> |aux[j].hash| == 64
    requires script == before + CommitmentScript(0, Pow2(c), CommittedRoot(h, Pow2(c), c, aux).value)
    requires FindMagic(script, 0) == Some(|before|)
    ensures ReadCommitment(script) == Some(Commitment(CommittedRoot(h, Pow2(c), c, aux).value, Pow2(c), 0))
  {
    var root := CommittedRoot(h, Pow2(c), c, aux).value;
    LeafSizes(Pow2(c), c, aux);
    RootSize(h, Leaves(Pow2(c), c, aux).value);
    CommitSizeFits(c);
    CommitmentFields(before, 0, Pow2(c), root);
    CommitmentReads(script, |before|, 0, Pow2(c), root);
  }

  /** With the committed height, the branch climbs to the committed root from the slot the chain expects. */
  lemma BranchOfCommittedTree(h: HashFn, c: nat, aux: seq<AuxBlock>, n: int)
    requires c < 32 && InRange(aux, n) && ProperBlocks(c, aux) && CommittedRoot(h, Pow2(c), c, aux).Ok?
    ensures Leaves(Pow2(c), c, aux).Ok? && BranchAndMask(h, c, c, aux, n).Ok?
    ensures AuxIndex(c, c, aux, n) == UnboundedIndex(0, aux[n - 1].chainID, c)
    ensures |BranchAndMask(h, c, c, aux, n).value.0| == c
    ensures Merkle.FoldBranch(h, LeafOf(aux[n - 1]), BranchAndMask(h, c, c, aux, n).value.0, AuxIndex(c, c, aux, n))
      == CommittedRoot(h, Pow2(c), c, aux).value
  {
    MaskIsExpectedSlot(c, aux, n);
    MaskProves(h, c, c, aux, n);
    WrappingIsInvisible(aux[n - 1].chainID, c);
  }

  /** With 64-digit hashes all leaves are 32 bytes. */
  lemma LeafSizes(size: nat, indexHeight: nat, aux: seq<AuxBlock>)
    requires indexHeight < 32 && Leaves(size, indexHeight, aux).Ok?
    requires forall j :: 0 <= j < |aux| ==> |aux[j].hash| == 64
    ensures forall slot :: 0 <= slot < size ==> |Leaves(size, indexHeight, aux).value[slot]| == 32
  {
    forall slot | 0 <= slot < size ensures |Leaves(size, indexHeight, aux).value[slot]| == 32 {
      var j := PlaceLast(NoSlots(size), indexHeight, aux, 0, slot);
    }
  }

  // ---------- its text ----------

  function ParentBranchText(items: seq<string>): Result<string> {
    var count :- VarUint(|items|);
    Ok(count + Flatten(items) + "00000000")
  }

  method SerializeParentBranch(items: seq<string>) returns (r: Result<string>)
    ensures r == ParentBranchText(items)
  {
    var joined := "";
    for i := 0 to |items|
      invariant joined == Flatten(items[..i])
    {
      TakeNext(items, i);
      FlattenAppend(items[..i], items[i]);
      joined := joined + items[i];
    }
    TakeAll(items);
    var count := VarUint(|items|);
    if count.Err? {
      return Err(count.why);
    }
    return Ok(count.value + joined + "00000000");
  }

  function AuxPowText(h: HashFn, coinbase: string, hash: string, steps: seq<string>, aux: seq<AuxBlock>, header: string,
    b: nat, indexHeight: nat, n: int): Result<string>
    requires indexHeight < 32
  {
    var auxBranch :- AuxChainMerkleBranch(h, b, indexHeight, aux, n);
    var parentBranch :- ParentBranchText(steps);
    Ok(coinbase + hash + parentBranch + auxBranch.Serialize() + header)
  }

  /** `MakeAuxPow` followed by `Serialize`; the source passes 8 slots and index height 4. */
  method MakeAuxPow(h: HashFn, block: BitcoinBlock, b: nat, indexHeight: nat, n: int) returns (r: Result<string>)
    requires indexHeight < 32
    ensures block.hash == "" || block.template == None ==> r == Err(Panic)
    ensures block.hash != "" && block.template.Some? ==>
      r == AuxPowText(h, block.coinbase, block.hash, block.merkleSteps, block.template.value.auxBlocks, block.header,
                      b, indexHeight, n)
  {
    if block.hash == "" || block.template == None {
      return Err(Panic);
    }
    var aux := MakeAuxChainMerkleBranch(h, b, Pow2(b), indexHeight, block.template.value.auxBlocks, n);
    if aux.Err? {
      return Err(aux.why);
    }
    var parent := SerializeParentBranch(block.merkleSteps);
    if parent.Err? {
      return Err(parent.why);
    }
    return Ok(block.coinbase + block.hash + parent.value + aux.value.Serialize() + block.header);
  }

  /** Sixty-four steps are enough for every transaction count a 64-bit length can have. */
  lemma StepsBound(h: HashFn, xs: seq<Bytes>)
    requires |xs| + 1 <= U64
    ensures |Merkle.Steps(h, xs)| <= 64
  {
    Merkle.StepCount(h, xs);
    U32IsPow2();
    Pow2Add(32, 32);
    var k := |Merkle.Steps(h, xs)|;
    if k > 64 {
      if k - 1 > 64 {
        Pow2Monotonic(64, k - 1);
      }
      assert false;
    }
  }

  lemma {:induction false} PairUpSizes(h: HashFn, level: seq<Bytes>)
    ensures forall i :: 0 <= i < |Merkle.PairUp(h, level)| ==> |Merkle.PairUp(h, level)[i]| == 32
  {
    if |level| > 1 {
      PairUpSizes(h, level[2..]);
    }
  }

  lemma {:induction false} StepSizes(h: HashFn, xs: seq<Bytes>)
    requires forall i :: 0 <= i < |xs| ==> |xs[i]| == 32
    ensures forall i :: 0 <= i < |Merkle.Steps(h, xs)| ==> |Merkle.Steps(h, xs)[i]| == 32
    decreases |xs|
  {
    if xs != [] {
      PairUpSizes(h, xs[1..]);
      StepSizes(h, Merkle.PairUp(h, xs[1..]));
    }
  }

  lemma {:induction false} BranchSizes(h: HashFn, level: seq<Bytes>, index: nat, k: nat)
    requires |level| == Pow2(k) && index < |level|
    requires forall i :: 0 <= i < |level| ==> |level[i]| == 32
    ensures forall i :: 0 <= i < k ==> |Branch(h, level, index, k)[i]| == 32
    decreases k
  {
    if k > 0 {
      JoinedWithSibling(h, level, index);
      PairUpSizes(h, level);
      BranchSizes(h, Merkle.PairUp(h, level), index / 2, k - 1);
    }
  }

  lemma ParentBranchBytes(branch: seq<Bytes>, items: seq<string>)
    requires Hex.AllHex(items) && Hex.DecodeAll(items) == branch && |branch| < 253 && HashesFit(branch)
    ensures ParentBranchText(items).Ok?
    ensures var text := ParentBranchText(items).value;
      Hex.IsHex(text) && Hex.Bytes(text) == PutBranch(branch, 0, [])
  {
    var count := CompactSize(|branch|);
    VarUintIsCompactSize(|branch|);
    LiteralTexts();
    DecodeFlatten(items);
    Hex.DecodeEncode(count);
    Hex.DecodeEncode(LE(0, 4));
    Hex.DecodeConcat(Hex.Encode(count), Flatten(items));
    Hex.DecodeConcat(Hex.Encode(count) + Flatten(items), "00000000");
    ConcatEmpty(LE(0, 4));
    ConcatAssoc(count, Flatten(branch), LE(0, 4));
  }

  lemma AuxBranchBytes(branch: seq<Bytes>, m: nat)
    requires |branch| < 10 && m < 10 && HashesFit(branch)
    ensures var text := AuxMerkleBranch(CountText(|branch|), Flatten(branch), MaskText(m)).Serialize();
      Hex.IsHex(text) && Hex.Bytes(text) == PutBranch(branch, m, [])
  {
    DecimalTexts(|branch|);
    DecimalTexts(m);
    var count: Bytes := [|branch|];
    Hex.DecodeEncode(count);
    Hex.DecodeEncode(Flatten(branch));
    Hex.DecodeEncode(LE(m, 4));
    Hex.DecodeConcat(Hex.Encode(count), Hex.Encode(Flatten(branch)));
    Hex.DecodeConcat(Hex.Encode(count) + Hex.Encode(Flatten(branch)), Hex.Encode(LE(m, 4)));
    ConcatEmpty(LE(m, 4));
    ConcatAssoc(count, Flatten(branch), LE(m, 4));
  }

  lemma PutBranchPrepends(branch: seq<Bytes>, index: nat, rest: Bytes)
    requires HashesFit(branch)
    ensures PutBranch(branch, index, rest) == PutBranch(branch, index, []) + rest
  {
    ConcatEmpty(LE(index, 4));
    ConcatAssoc(Flatten(branch), LE(index, 4), rest);
    ConcatAssoc(CompactSize(|branch|), Flatten(branch) + LE(index, 4), rest);
  }

  /** A proof put together from separately serialized parts. */
  lemma ProofParts(p: AuxProof)
    requires p.Fits()
    ensures ((PutTx(p.coinbase, []) + p.parentHash) + PutBranch(p.parentBranch, p.parentIndex, []))
          + PutBranch(p.auxBranch, p.auxIndex, []) + PutHeader(p.header, [])
         == PutAuxProof(p, [])
  {
    var a, x, b1, b2, hd := PutTx(p.coinbase, []), p.parentHash, PutBranch(p.parentBranch, p.parentIndex, []),
      PutBranch(p.auxBranch, p.auxIndex, []), PutHeader(p.header, []);
    ConcatAssoc((a + x) + b1, b2, hd);
    ConcatAssoc(a + x, b1, b2 + hd);
    ConcatAssoc(a, x, b1 + (b2 + hd));
    PutBranchPrepends(p.auxBranch, p.auxIndex, hd);
    PutBranchPrepends(p.parentBranch, p.parentIndex, b2 + hd);
    PutTxPrepends(p.coinbase, x + (b1 + (b2 + hd)));
  }

  /** All hashes in the blocks have the standard size. */
  predicate StandardSizes(t: Template)
    requires WellFormed(t)
  {
    && (forall i :: 0 <= i < |t.transactions| ==> |Hex.DecodeAll(Merkle.ReversedIds(t.Ids()))[i]| == 32)
    && (forall j :: 0 <= j < |t.auxBlocks| ==> |t.auxBlocks[j].hash| == 64)
  }

  predicate AllSized(hashes: seq<Bytes>) {
    forall i :: 0 <= i < |hashes| ==> |hashes[i]| == 32
  }

  lemma AuxBranchSized(h: HashFn, b: nat, c: nat, aux: seq<AuxBlock>, n: int)
    requires c < 32 && InRange(aux, n) && Leaves(Pow2(b), c, aux).Ok? && Hex.IsHex(aux[n - 1].hash)
    requires forall j :: 0 <= j < |aux| ==> |aux[j].hash| == 64
    ensures BranchAndMask(h, b, c, aux, n).Ok?
    ensures |BranchAndMask(h, b, c, aux, n).value.0| == b && AllSized(BranchAndMask(h, b, c, aux, n).value.0)
  {
    LeafSizes(Pow2(b), c, aux);
    BranchSizes(h, Leaves(Pow2(b), c, aux).value, AuxIndex(b, c, aux, n), b);
  }

  /** The parent branch as data and as text. */
  lemma ParentTextOf(h: HashFn, t: Template)
    requires WellFormed(t) && StandardSizes(t)
    ensures var branch := Merkle.Steps(h, Hex.DecodeAll(Merkle.ReversedIds(t.Ids())));
      var text := ParentBranchText(Merkle.StepTexts(h, Merkle.ReversedIds(t.Ids())));
      HashesFit(branch) && text.Ok? && Hex.IsHex(text.value) && Hex.Bytes(text.value) == PutBranch(branch, 0, [])
  {
    var ids := Hex.DecodeAll(Merkle.ReversedIds(t.Ids()));
    StepsBound(h, ids);
    StepSizes(h, ids);
    StepsOfTemplate(h, t);
    ParentBranchBytes(Merkle.Steps(h, ids), Merkle.StepTexts(h, Merkle.ReversedIds(t.Ids())));
  }

  /** The proof a text stands for, if it is hexadecimal and reads as one proof with nothing left over. */
  function ReadsWhole(text: Result<string>): Option<AuxProof> {
    if text.Ok? && Hex.IsHex(text.value) then WholeProof(Hex.Bytes(text.value)) else None
  }

  function WholeProof(b: Bytes): Option<AuxProof> {
    match ReadAuxProof(b)
    case Some((p, rest)) => if rest == [] then Some(p) else None
    case None => None
  }

  // ---------- how far a reader gets ----------

  lemma {:induction false} HashesConsume(b: Bytes, n: nat)
    ensures ReadHashes(b, n).Some? ==> |ReadHashes(b, n).value.1| + 32 * n == |b|
  {
    if n > 0 && |b| >= 32 {
      HashesConsume(b[32..], n - 1);
    }
  }

  /** Bytes of a branch with a one-byte count. */
  function BranchSize(count: nat): nat {
    5 + 32 * count
  }

  lemma BranchConsumes(b: Bytes)
    requires b != [] && b[0] < 0xfd && ReadBranch(b).Some?
    ensures |ReadBranch(b).value.1| + BranchSize(b[0]) == |b|
  {
    HashesConsume(b[1..], b[0]);
  }

  lemma HeaderConsumes(b: Bytes)
    requires ReadHeader(b).Some?
    ensures |ReadHeader(b).value.1| + 80 == |b|
  {
  }

  /** Behind the parent branch, the reader sees exactly what was written there. */
  lemma ReadsUpToAuxBranch(tx: Tx, hash: Bytes, parent: seq<Bytes>, rest: Bytes)
    requires tx.Fits() && |hash| == 32 && HashesFit(parent)
    ensures ReadAuxProof(PutTx(tx, hash + PutBranch(parent, 0, rest))).Some? ==>
      && ReadBranch(rest).Some? && ReadHeader(ReadBranch(rest).value.1).Some?
      && ReadAuxProof(PutTx(tx, hash + PutBranch(parent, 0, rest))).value.1
        == ReadHeader(ReadBranch(rest).value.1).value.1
  {
    ReadTxBack(tx, hash + PutBranch(parent, 0, rest));
    TakeBack(hash, PutBranch(parent, 0, rest));
    ReadBranchBack(parent, 0, rest);
  }

  /** An auxiliary branch that is longer than its own count byte says leaves something over. */
  lemma TooLongNotWhole(tx: Tx, hash: Bytes, parent: seq<Bytes>, tail: Bytes, header: Bytes)
    requires tx.Fits() && |hash| == 32 && HashesFit(parent) && |header| == 80
    requires tail != [] && tail[0] < 0xfd && |tail| > BranchSize(tail[0])
    ensures WholeProof(PutTx(tx, hash + PutBranch(parent, 0, tail + header))) == None
  {
    var rest := tail + header;
    ReadsUpToAuxBranch(tx, hash, parent, rest);
    if ReadBranch(rest).Some? {
      BranchConsumes(rest);
      if ReadHeader(ReadBranch(rest).value.1).Some? {
        HeaderConsumes(ReadBranch(rest).value.1);
      }
    }
  }

  // ---------- the decimal texts that are too long ----------

  lemma {:induction false} DecimalLead(n: nat)
    ensures Hex.DigitValue(Decimal(n)[0]).Some? && Hex.DigitValue(Decimal(n)[0]).value <= 9
    ensures n < 10 ==> |Decimal(n)| == 1 && Hex.DigitValue(Decimal(n)[0]).value == n
  {
    if n >= 10 {
      DecimalLead(n / 10);
    }
  }

  function AuxBranchText(branch: seq<Bytes>, m: nat): string {
    AuxMerkleBranch(CountText(|branch|), Flatten(branch), MaskText(m)).Serialize()
  }

  lemma {:induction false} FlattenLength(hashes: seq<Bytes>)
    requires AllSized(hashes)
    ensures |Flatten(hashes)| == 32 * |hashes|
  {
    if hashes != [] {
      FlattenLength(hashes[1..]);
    }
  }

  /** From ten on, an auxiliary branch text that decodes at all is longer than its count byte says. */
  lemma AuxBranchTooLong(branch: seq<Bytes>, m: nat)
    requires AllSized(branch)
    requires (|branch| >= 10 || m >= 10) && Hex.IsHex(AuxBranchText(branch, m))
    ensures var tail := Hex.Bytes(AuxBranchText(branch, m));
      tail != [] && tail[0] < 0xfd && |tail| > BranchSize(tail[0])
  {
    var text := AuxBranchText(branch, m);
    var tail := Hex.Bytes(text);
    DecimalLead(|branch|);
    FlattenLength(branch);
    assert |text| == 8 + |Decimal(|branch|)| + 64 * |branch| + |Decimal(m)|;
    assert text[0] == '0' && text[1] == Decimal(|branch|)[0];
    assert tail[0] == Hex.DecodedByte(text, 0);
    assert Hex.DigitValue('0') == Some(0);
  }

  /** Where the texts of the parts end up when the whole is decoded. */
  lemma AuxPowParts(coinbase: string, hash: string, parent: string, aux: string, header: string)
    requires Hex.IsHex(coinbase) && Hex.IsHex(hash) && Hex.IsHex(parent) && Hex.IsHex(header)
    requires Hex.IsHex(coinbase + hash + parent + aux + header)
    ensures Hex.IsHex(aux)
    ensures Hex.Bytes(coinbase + hash + parent + aux + header)
      == Hex.Bytes(coinbase) + (Hex.Bytes(hash) + (Hex.Bytes(parent) + (Hex.Bytes(aux) + Hex.Bytes(header))))
  {
    var front := coinbase + hash + parent;
    Hex.DecodeConcat(front + aux, header);
    Hex.DecodeConcat(front, aux);
    Hex.DecodeFour(coinbase, hash, parent, aux);
    var a, x, p, y, z := Hex.Bytes(coinbase), Hex.Bytes(hash), Hex.Bytes(parent), Hex.Bytes(aux), Hex.Bytes(header);
    ConcatAssoc((a + x) + p, y, z);
    ConcatAssoc(a + x, p, y + z);
    ConcatAssoc(a, x, p + (y + z));
  }

  lemma LongTextNotWhole(tx: Tx, coinbase: string, hash: string, parentBranch: seq<Bytes>, parent: string,
    branch: seq<Bytes>, m: nat, header: string)
    requires tx.Fits() && Hex.IsHex(coinbase) && Hex.Bytes(coinbase) == PutTx(tx, []) && Sized(hash, 32)
    requires HashesFit(parentBranch) && Hex.IsHex(parent) && Hex.Bytes(parent) == PutBranch(parentBranch, 0, [])
    requires Sized(header, 80)
    requires AllSized(branch)
    requires |branch| >= 10 || m >= 10
    ensures ReadsWhole(Ok(coinbase + hash + parent + AuxBranchText(branch, m) + header)) == None
  {
    var aux := AuxBranchText(branch, m);
    var text := coinbase + hash + parent + aux + header;
    if Hex.IsHex(text) {
      AuxPowParts(coinbase, hash, parent, aux, header);
      AuxBranchTooLong(branch, m);
      var tail, last := Hex.Bytes(aux), Hex.Bytes(header);
      PutBranchPrepends(parentBranch, 0, tail + last);
      PutTxPrepends(tx, Hex.Bytes(hash) + PutBranch(parentBranch, 0, tail + last));
      TooLongNotWhole(tx, Hex.Bytes(hash), parentBranch, tail, last);
    }
  }

  /** What the text is made from, up to the serialized parts. */
  predicate Serialized(h: HashFn, t: Template, tx: Tx, f: Found, coinbase: string, hash: string, header: string)
    requires WellFormed(t) && f.WellSized() && tx.Fits()
  {
    && Hex.IsHex(coinbase) && Hex.Bytes(coinbase) == PutTx(tx, [])
    && Hex.IsHex(header) && Hex.Bytes(header) == PutHeader(MinedHeader(h, t, tx, f), [])
    && Sized(hash, 32)
  }

  /**
   * The text handed to the auxiliary chain, for every tree and every slot: it reads back as the one proof it stands
   * for, with nothing left over, exactly when slot and branch count are below ten.  From ten on their decimal text is
   * too long, and no proof reads out of the text at all.
   */
  lemma AuxPowReadsBack(h: HashFn, t: Template, tx: Tx, f: Found, coinbase: string, hash: string, header: string,
    b: nat, c: nat, n: int)
    requires WellFormed(t) && StandardSizes(t) && f.WellSized() && tx.Fits() && MinedHeader(h, t, tx, f).Fits()
    requires Serialized(h, t, tx, f, coinbase, hash, header)
    requires c < 32 && InRange(t.auxBlocks, n) && Leaves(Pow2(b), c, t.auxBlocks).Ok?
    requires Hex.IsHex(t.auxBlocks[n - 1].hash)
    requires LeafOf(t.auxBlocks[n - 1]) in Leaves(Pow2(b), c, t.auxBlocks).value
    ensures var steps := Merkle.StepTexts(h, Merkle.ReversedIds(t.Ids()));
      var text := AuxPowText(h, coinbase, hash, steps, t.auxBlocks, header, b, c, n);
      && text.Ok?
      && ReadsWhole(text)
        == if b < 10 && AuxIndex(b, c, t.auxBlocks, n) < 10 then Some(Proof(h, t, tx, f, Hex.Bytes(hash), b, c, n))
           else None
  {
    hide ReadsWhole, AuxPowText, Merkle.StepTexts, Merkle.Steps, PutTx, PutHeader, Hex.IsHex, Hex.Bytes, Leaves,
      ParentBranchText, Pow2;
    var p := Proof(h, t, tx, f, Hex.Bytes(hash), b, c, n);
    TextOfProof(h, t, tx, f, coinbase, hash, header, b, c, n);
    ProofInTexts(h, t, tx, f, coinbase, hash, header, b, c, n);
    var parent := ParentBranchText(Merkle.StepTexts(h, Merkle.ReversedIds(t.Ids()))).value;
    WholeIffShort(p, coinbase, hash, parent, header);
  }

  /** The text, part by part. */
  lemma TextOfProof(h: HashFn, t: Template, tx: Tx, f: Found, coinbase: string, hash: string, header: string,
    b: nat, c: nat, n: int)
    requires WellFormed(t) && StandardSizes(t) && f.WellSized() && tx.Fits() && Sized(hash, 32)
    requires c < 32 && InRange(t.auxBlocks, n) && Leaves(Pow2(b), c, t.auxBlocks).Ok?
    requires Hex.IsHex(t.auxBlocks[n - 1].hash)
    requires LeafOf(t.auxBlocks[n - 1]) in Leaves(Pow2(b), c, t.auxBlocks).value
    ensures var p := Proof(h, t, tx, f, Hex.Bytes(hash), b, c, n);
      var steps := Merkle.StepTexts(h, Merkle.ReversedIds(t.Ids()));
      && ParentBranchText(steps).Ok?
      && AuxPowText(h, coinbase, hash, steps, t.auxBlocks, header, b, c, n)
        == Ok(coinbase + hash + ParentBranchText(steps).value + AuxBranchText(p.auxBranch, p.auxIndex) + header)
  {
    hide AuxPowText, AuxChainMerkleBranch, ParentBranchText, Merkle.StepTexts, PutTx, PutBranch, Hex.IsHex,
      Hex.Bytes, Pow2;
    var p := Proof(h, t, tx, f, Hex.Bytes(hash), b, c, n);
    ParentTextOf(h, t);
    AuxChainBranchIs(h, b, c, t.auxBlocks, n);
    AuxPowTextIs(h, coinbase, hash, Merkle.StepTexts(h, Merkle.ReversedIds(t.Ids())), t.auxBlocks, header, b, c, n,
      AuxMerkleBranch(CountText(|p.auxBranch|), Flatten(p.auxBranch), MaskText(p.auxIndex)));
  }

  lemma ProofInTexts(h: HashFn, t: Template, tx: Tx, f: Found, coinbase: string, hash: string, header: string,
    b: nat, c: nat, n: int)
    requires WellFormed(t) && StandardSizes(t) && f.WellSized() && tx.Fits() && MinedHeader(h, t, tx, f).Fits()
    requires Serialized(h, t, tx, f, coinbase, hash, header)
    requires c < 32 && InRange(t.auxBlocks, n) && Leaves(Pow2(b), c, t.auxBlocks).Ok?
    requires Hex.IsHex(t.auxBlocks[n - 1].hash)
    ensures var p := Proof(h, t, tx, f, Hex.Bytes(hash), b, c, n);
      var parent := ParentBranchText(Merkle.StepTexts(h, Merkle.ReversedIds(t.Ids())));
      parent.Ok? && |p.auxBranch| == b && InTexts(p, coinbase, hash, parent.value, header)
  {
    hide ParentBranchText, Merkle.StepTexts, PutTx, PutBranch, PutHeader, Hex.IsHex, Hex.Bytes, Pow2;
    AuxBranchSized(h, b, c, t.auxBlocks, n);
    ParentTextOf(h, t);
  }

  /** A proof whose parts stand in these texts. */
  predicate InTexts(p: AuxProof, coinbase: string, hash: string, parent: string, header: string) {
    && p.coinbase.Fits() && Hex.IsHex(coinbase) && Hex.Bytes(coinbase) == PutTx(p.coinbase, [])
    && Sized(hash, 32) && Hex.Bytes(hash) == p.parentHash
    && HashesFit(p.parentBranch) && p.parentIndex == 0
    && Hex.IsHex(parent) && Hex.Bytes(parent) == PutBranch(p.parentBranch, 0, [])
    && p.header.Fits() && Hex.IsHex(header) && Hex.Bytes(header) == PutHeader(p.header, [])
    && AllSized(p.auxBranch)
  }

  /** Below ten, every part decodes to the standard bytes; from ten on, no proof reads out of the whole. */
  lemma WholeIffShort(p: AuxProof, coinbase: string, hash: string, parent: string, header: string)
    requires InTexts(p, coinbase, hash, parent, header)
    ensures ReadsWhole(Ok(coinbase + hash + parent + AuxBranchText(p.auxBranch, p.auxIndex) + header))
      == if |p.auxBranch| < 10 && p.auxIndex < 10 then Some(p) else None
  {
    if |p.auxBranch| < 10 && p.auxIndex < 10 {
      AuxBranchBytes(p.auxBranch, p.auxIndex);
      ProofText(p, coinbase, hash, parent, AuxBranchText(p.auxBranch, p.auxIndex), header);
      ReadAuxProofBack(p, []);
    } else {
      HeaderLength(p.header);
      LongTextNotWhole(p.coinbase, coinbase, hash, p.parentBranch, parent, p.auxBranch, p.auxIndex, header);
    }
  }

  lemma HeaderLength(header: Header)
    requires header.Fits()
    ensures |PutHeader(header, [])| == 80
  {
  }

  lemma StepsOfTemplate(h: HashFn, t: Template)
    requires WellFormed(t)
    ensures var ids := Merkle.ReversedIds(t.Ids());
      Hex.AllHex(Merkle.StepTexts(h, ids)) && Hex.DecodeAll(Merkle.StepTexts(h, ids)) == Merkle.Steps(h, Hex.DecodeAll(ids))
  {
    var ids := Merkle.ReversedIds(t.Ids());
    if ids != [] {
      Merkle.StepTextsDecode(h, ids);
    }
  }

  lemma AuxChainBranchIs(h: HashFn, b: nat, c: nat, aux: seq<AuxBlock>, n: int)
    requires c < 32 && InRange(aux, n) && Leaves(Pow2(b), c, aux).Ok? && Hex.IsHex(aux[n - 1].hash)
    requires LeafOf(aux[n - 1]) in Leaves(Pow2(b), c, aux).value
    ensures BranchAndMask(h, b, c, aux, n).Ok?
    ensures var branch := BranchAndMask(h, b, c, aux, n).value.0;
      AuxChainMerkleBranch(h, b, c, aux, n)
        == Ok(AuxMerkleBranch(CountText(|branch|), Flatten(branch), MaskText(AuxIndex(b, c, aux, n))))
  {
    MaskProves(h, b, c, aux, n);
  }

  lemma AuxPowTextIs(h: HashFn, coinbase: string, hash: string, steps: seq<string>, aux: seq<AuxBlock>, header: string,
    b: nat, c: nat, n: int, branch: AuxMerkleBranch)
    requires c < 32 && AuxChainMerkleBranch(h, b, c, aux, n) == Ok(branch) && ParentBranchText(steps).Ok?
    ensures AuxPowText(h, coinbase, hash, steps, aux, header, b, c, n)
      == Ok(coinbase + hash + ParentBranchText(steps).value + branch.Serialize() + header)
  {
  }

  lemma ProofText(p: AuxProof, coinbase: string, hash: string, parent: string, aux: string, header: string)
    requires p.Fits()
    requires Hex.IsHex(coinbase) && Hex.Bytes(coinbase) == PutTx(p.coinbase, [])
    requires Hex.IsHex(hash) && Hex.Bytes(hash) == p.parentHash
    requires Hex.IsHex(parent) && Hex.Bytes(parent) == PutBranch(p.parentBranch, p.parentIndex, [])
    requires Hex.IsHex(aux) && Hex.Bytes(aux) == PutBranch(p.auxBranch, p.auxIndex, [])
    requires Hex.IsHex(header) && Hex.Bytes(header) == PutHeader(p.header, [])
    ensures var text := coinbase + hash + parent + aux + header;
      Hex.IsHex(text) && Hex.Bytes(text) == PutAuxProof(p, [])
  {
    Hex.DecodeFour(coinbase, hash, parent, aux);
    Hex.DecodeConcat(coinbase + hash + parent + aux, header);
    ProofParts(p);
  }

  // ---------- from job to acceptance ----------

  /** The arbitrary coinbase data: the pool's signature, then the commitment to 2^c slots. */
  function CommittedData(h: HashFn, signature: Bytes, c: nat, aux: seq<AuxBlock>): Bytes
    requires c < 32 && CommittedRoot(h, Pow2(c), c, aux).Ok?
  {
    signature + CommitmentScript(0, Pow2(c), CommittedRoot(h, Pow2(c), c, aux).value)
  }

  /** What stands in front of the commitment in the coinbase script. */
  function BeforeCommitment(height: nat, extranonce: Bytes, arbitrary: Bytes, signature: Bytes): Bytes
    requires height < U63
  {
    EncodedNumber(height).value + (extranonce + ([|arbitrary| % 256] + signature))
  }

  lemma ScriptEndsInCommitment(height: nat, extranonce: Bytes, signature: Bytes, commitment: Bytes)
    requires height < U63
    ensures CoinbaseScript(height, extranonce, signature + commitment)
      == BeforeCommitment(height, extranonce, signature + commitment, signature) + commitment
  {
    var push, size: Bytes := EncodedNumber(height).value, [|signature + commitment| % 256];
    ConcatAssoc(size, signature, commitment);
    ConcatAssoc(extranonce, size + signature, commitment);
    ConcatAssoc(push, extranonce + (size + signature), commitment);
  }

  /** What an auxiliary chain does with the text it is handed. */
  ghost predicate AcceptsText(h: HashFn, text: Result<string>, leaf: Bytes, chainID: int) {
    var p := ReadsWhole(text);
    p.Some? && Accepts(h, p.value, leaf, chainID)
  }

  /** The coinbase script of a submission; the miner chooses the second half of the extranonce in it. */
  function ScriptOf(h: HashFn, t: Template, signature: Bytes, f: Found, c: nat): Bytes
    requires t.height < U63 && c < 32 && CommittedRoot(h, Pow2(c), c, t.auxBlocks).Ok? && Hex.IsHex(f.extranonce)
  {
    CoinbaseScript(t.height, Hex.Bytes(f.extranonce), CommittedData(h, signature, c, t.auxBlocks))
  }

  /** Where the commitment starts in it. */
  function CommitmentAt(h: HashFn, t: Template, signature: Bytes, f: Found, c: nat): nat
    requires t.height < U63 && c < 32 && CommittedRoot(h, Pow2(c), c, t.auxBlocks).Ok? && Hex.IsHex(f.extranonce)
  {
    |BeforeCommitment(t.height, Hex.Bytes(f.extranonce), CommittedData(h, signature, c, t.auxBlocks), signature)|
  }

  /** The first magic bytes in the script are those of the commitment. */
  predicate MagicFirst(h: HashFn, t: Template, signature: Bytes, f: Found, c: nat)
    requires t.height < U63 && c < 32 && CommittedRoot(h, Pow2(c), c, t.auxBlocks).Ok? && Hex.IsHex(f.extranonce)
  {
    FindMagic(ScriptOf(h, t, signature, f, c), 0) == Some(CommitmentAt(h, t, signature, f, c))
  }

  /** An extranonce whose second half is the magic bytes has them in front of the commitment. */
  lemma MagicInExtranonce(h: HashFn, t: Template, signature: Bytes, f: Found, c: nat)
    requires t.height < U63 && c < 32 && CommittedRoot(h, Pow2(c), c, t.auxBlocks).Ok?
    requires Sized(f.extranonce, RESERVED) && MagicAt(Hex.Bytes(f.extranonce), 4)
    ensures !MagicFirst(h, t, signature, f, c)
  {
    hide CommittedRoot, Hex.IsHex, Hex.Bytes, FindMagic;
    var extranonce, data := Hex.Bytes(f.extranonce), CommittedData(h, signature, c, t.auxBlocks);
    var commitment := CommitmentScript(0, Pow2(c), CommittedRoot(h, Pow2(c), c, t.auxBlocks).value);
    var before := BeforeCommitment(t.height, extranonce, data, signature);
    ScriptEndsInCommitment(t.height, extranonce, signature, commitment);
    CommitmentHead(0, Pow2(c), CommittedRoot(h, Pow2(c), c, t.auxBlocks).value);
    CommitmentFirstIff(before, commitment, 0);
    var push := EncodedNumber(t.height).value;
    MagicInside(push, extranonce, [|data| % 256] + signature, commitment);
    assert MagicAt(before + commitment, |push| + 4);
  }

  lemma CommitmentHead(nonce: nat, size: nat, root: Bytes)
    ensures MagicAt(CommitmentScript(nonce, size, root), 0)
    ensures Hex.Encode(CommitmentScript(nonce, size, root))[..8] == "fabe6d6d"
  {
    var fields := Reversed(root) + (LE(size, 4) + LE(nonce, 4));
    ConcatAssoc(Magic(), Reversed(root), LE(size, 4) + LE(nonce, 4));
    ConcatAssoc(Magic() + Reversed(root), LE(size, 4), LE(nonce, 4));
    assert CommitmentScript(nonce, size, root) == Magic() + fields;
    Hex.EncodeConcat(Magic(), fields);
    MagicText();
  }

  lemma MagicText()
    ensures Hex.Encode(Magic()) == "fabe6d6d"
  {
  }

  lemma MagicInside(push: Bytes, extranonce: Bytes, more: Bytes, commitment: Bytes)
    requires |extranonce| == 8 && MagicAt(extranonce, 4)
    ensures var script, i := (push + (extranonce + more)) + commitment, |push| + 4;
      i < |push + (extranonce + more)| && MagicAt(script, i)
  {
  }

  /** A job whose coinbase data ends in the commitment to `t.auxBlocks`. */
  ghost predicate CommittedJob(h: HashFn, keyHash: Bytes -> KeyHash, t: Template, signature: Bytes, poolKey: string,
    initial: string, final: string, steps: seq<string>, c: nat)
    requires WellFormed(t) && |poolKey| < U64 && c < 31
  {
    && ProperBlocks(c, t.auxBlocks)
    && CommittedRoot(h, Pow2(c), c, t.auxBlocks).Ok?
    && var data := CommittedData(h, signature, c, t.auxBlocks);
    && |data| + 18 < U64
    && JobParts(h, keyHash, t, data, poolKey, initial, final, steps)
  }

  lemma NoLeavesNoText(h: HashFn, t: Template, coinbase: string, hash: string, steps: seq<string>, header: string,
    b: nat, c: nat, n: int)
    requires c < 32 && AllHashesHex(t.auxBlocks) && Leaves(Pow2(b), c, t.auxBlocks).Err?
    ensures AuxPowText(h, coinbase, hash, steps, t.auxBlocks, header, b, c, n) == Err(Panic)
  {
    PlaceErrIsPanic(NoSlots(Pow2(b)), c, t.auxBlocks, 0);
  }

  lemma {:induction false} PlaceErrIsPanic(slots: Slots, indexHeight: nat, aux: seq<AuxBlock>, i: nat)
    requires indexHeight < 32 && i <= |aux| && AllHashesHex(aux)
    ensures Place(slots, indexHeight, aux, i).Err? ==> Place(slots, indexHeight, aux, i) == Err(Panic)
    decreases |aux| - i
  {
    if i < |aux| && i < |slots| && ExpectedIndex(aux[i].chainID, indexHeight) < |slots| {
      var slot := ExpectedIndex(aux[i].chainID, indexHeight);
      PlaceErrIsPanic(slots[slot := Some(Reversed(Hex.Bytes(aux[i].hash)))], indexHeight, aux, i + 1);
    }
  }

  /** The proof of a mined job, as data: its two halves, read from text or not. */
  lemma MinedProof(h: HashFn, keyHash: Bytes -> KeyHash, t: Template, signature: Bytes, poolKey: string,
    initial: string, final: string, steps: seq<string>, f: Found, hash: string, b: nat, c: nat, n: int)
    requires WellFormed(t) && StandardSizes(t) && f.WellSized() && Sized(hash, 32) && |poolKey| < U64
    requires c < 31 && InRange(t.auxBlocks, n)
    requires CommittedJob(h, keyHash, t, signature, poolKey, initial, final, steps, c)
    requires Leaves(Pow2(b), c, t.auxBlocks).Ok?
    ensures var tx := MinedCoinbase(keyHash, t, CommittedData(h, signature, c, t.auxBlocks), poolKey, f);
      var block := t.auxBlocks[n - 1];
      && tx.Fits()
      && var p := Proof(h, t, tx, f, Hex.Bytes(hash), b, c, n);
      && ParentLinked(h, p)
      && (Accepts(h, p, LeafOf(block), block.chainID) <==>
          Shows(ScriptOf(h, t, signature, f, c), Merkle.FoldBranch(h, LeafOf(block), p.auxBranch, p.auxIndex),
            |p.auxBranch|, p.auxIndex, block.chainID))
      && (MagicFirst(h, t, signature, f, c) ==> (Accepts(h, p, LeafOf(block), block.chainID) <==> b == c))
  {
    hide Accepts, ParentLinked, PutTx, PutHeader, Hex.IsHex, Hex.Bytes, Pow2, FindMagic;
    var data := CommittedData(h, signature, c, t.auxBlocks);
    var tx := MinedCoinbase(keyHash, t, data, poolKey, f);
    var root := CommittedRoot(h, Pow2(c), c, t.auxBlocks).value;
    var before := BeforeCommitment(t.height, Hex.Bytes(f.extranonce), data, signature);
    ScriptEndsInCommitment(t.height, Hex.Bytes(f.extranonce), signature, CommitmentScript(0, Pow2(c), root));
    HeaderCommits(h, keyHash, t, data, poolKey, initial, final, steps, f);
    ParentBranchProves(h, t, tx, f, Hex.Bytes(hash), b, c, n);
    AcceptsIsShows(h, Proof(h, t, tx, f, Hex.Bytes(hash), b, c, n), LeafOf(t.auxBlocks[n - 1]), t.auxBlocks[n - 1].chainID);
    if MagicFirst(h, t, signature, f, c) {
      AcceptedIffSameHeight(h, t, tx, f, Hex.Bytes(hash), before, b, c, n);
    }
  }

  lemma AcceptsIsShows(h: HashFn, p: AuxProof, leaf: Bytes, chainID: int)
    requires ParentLinked(h, p) && p.coinbase.inputs != []
    ensures Accepts(h, p, leaf, chainID) <==>
      Shows(p.coinbase.inputs[0].script, Merkle.FoldBranch(h, leaf, p.auxBranch, p.auxIndex), |p.auxBranch|,
        p.auxIndex, chainID)
  {
  }

  /** The text of a mined job: when it exists, when it reads back, and as what. */
  lemma MinedText(h: HashFn, keyHash: Bytes -> KeyHash, t: Template, signature: Bytes, poolKey: string,
    initial: string, final: string, steps: seq<string>, f: Found, hash: string, b: nat, c: nat, n: int)
    requires WellFormed(t) && StandardSizes(t) && f.WellSized() && Sized(hash, 32) && |poolKey| < U64
    requires c < 31 && InRange(t.auxBlocks, n)
    requires CommittedJob(h, keyHash, t, signature, poolKey, initial, final, steps, c)
    requires Leaves(Pow2(b), c, t.auxBlocks).Ok?
    ensures var tx := MinedCoinbase(keyHash, t, CommittedData(h, signature, c, t.auxBlocks), poolKey, f);
      var coinbase := initial + f.extranonce + final;
      var header := HeaderFor(h, t, steps, coinbase, f.nonce, f.time);
      && tx.Fits() && header.Ok?
      && var text := AuxPowText(h, coinbase, hash, steps, t.auxBlocks, header.value, b, c, n);
      && text.Ok?
      && ReadsWhole(text)
        == if b < 10 && ExpectedIndex(t.auxBlocks[n - 1].chainID, c) < 10
           then Some(Proof(h, t, tx, f, Hex.Bytes(hash), b, c, n)) else None
  {
    hide ReadsWhole, AuxPowText, Merkle.StepTexts, PutTx, PutHeader, Hex.IsHex, Hex.Bytes, Pow2;
    var data := CommittedData(h, signature, c, t.auxBlocks);
    var tx := MinedCoinbase(keyHash, t, data, poolKey, f);
    HeaderCommits(h, keyHash, t, data, poolKey, initial, final, steps, f);
    var coinbase := initial + f.extranonce + final;
    var header := HeaderFor(h, t, steps, coinbase, f.nonce, f.time).value;
    MaskIsSlot(b, c, t.auxBlocks, n);
    AuxPowReadsBack(h, t, tx, f, coinbase, hash, header, b, c, n);
  }

  /**
   * Merged mining from job to acceptance, for every job that ends in the commitment, every submission and all tree
   * heights.  The text of the proof exists exactly when every block fits the branch's tree; it reads back, as one
   * proof whose parent half ties its coinbase to its header, exactly when slot and branch count are below ten; and
   * the auxiliary chain accepts it exactly when, besides, what stands behind the first magic bytes of the coinbase
   * script names the root the branch climbs to, its height and its slot.  When these are the magic bytes of the
   * commitment, that is when branch and commitment use one height.
   */
  lemma MinedShareIsAccepted(h: HashFn, keyHash: Bytes -> KeyHash, t: Template, signature: Bytes, poolKey: string,
    initial: string, final: string, steps: seq<string>, f: Found, hash: string, b: nat, c: nat, n: int)
    requires WellFormed(t) && StandardSizes(t) && f.WellSized() && Sized(hash, 32) && |poolKey| < U64
    requires c < 31 && InRange(t.auxBlocks, n)
    requires CommittedJob(h, keyHash, t, signature, poolKey, initial, final, steps, c)
    ensures var coinbase := initial + f.extranonce + final;
      var header := HeaderFor(h, t, steps, coinbase, f.nonce, f.time);
      var block := t.auxBlocks[n - 1];
      var slot := ExpectedIndex(block.chainID, c);
      && header.Ok?
      && var text := AuxPowText(h, coinbase, hash, steps, t.auxBlocks, header.value, b, c, n);
      && (text.Ok? <==> Leaves(Pow2(b), c, t.auxBlocks).Ok?)
      && (ReadsWhole(text).Some? <==> text.Ok? && b < 10 && slot < 10)
      && (ReadsWhole(text).Some? ==>
          var p := ReadsWhole(text).value;
          && ParentLinked(h, p) && p.parentHash == Hex.Bytes(hash)
          && |p.auxBranch| == b && p.auxIndex == slot
          && (AcceptsText(h, text, LeafOf(block), block.chainID) <==>
              Shows(ScriptOf(h, t, signature, f, c), Merkle.FoldBranch(h, LeafOf(block), p.auxBranch, slot), b, slot,
                block.chainID)))
      && (MagicFirst(h, t, signature, f, c) ==>
          (AcceptsText(h, text, LeafOf(block), block.chainID) <==> b == c && b < 10 && slot < 10))
  {
    hide WholeProof, AuxPowText, Merkle.StepTexts, Merkle.Steps, PutTx, PutHeader, Hex.IsHex, Hex.Bytes, Leaves,
      Pow2, Accepts, ParentLinked, Shows, FindMagic;
    var data := CommittedData(h, signature, c, t.auxBlocks);
    DistinctSlots(c, t.auxBlocks);
    if Leaves(Pow2(b), c, t.auxBlocks).Ok? {
      MinedProof(h, keyHash, t, signature, poolKey, initial, final, steps, f, hash, b, c, n);
      MinedText(h, keyHash, t, signature, poolKey, initial, final, steps, f, hash, b, c, n);
      MaskIsSlot(b, c, t.auxBlocks, n);
      AuxBranchSized(h, b, c, t.auxBlocks, n);
    } else {
      HeaderCommits(h, keyHash, t, data, poolKey, initial, final, steps, f);
      var coinbase := initial + f.extranonce + final;
      NoLeavesNoText(h, t, coinbase, hash, steps, HeaderFor(h, t, steps, coinbase, f.nonce, f.time).value, b, c, n);
    }
  }
}
