/** bitcoin/auxMerkelBranch.go and the tree half of pool/work.go: slots, committed root, branch and mask. */
module AuxTree {
  import opened Base
  import opened Encoding
  import opened Merkle
  import Hex

  datatype AuxBlock = AuxBlock(hash: string, chainID: int, target: string)

  // ---------- slot index ----------

  const MULTIPLIER: nat := 1103515245
  const INCREMENT: nat := 12345
  /** getExpectedIndex.py: the same recurrence on unbounded integers. */
  function UnboundedIndex(nonce: int, chainID: int, h: nat): nat {
    ((nonce * MULTIPLIER + INCREMENT + chainID) * MULTIPLIER + INCREMENT) % Pow2(h)
  }

  /** `getExpectedIndex`: every step wraps at 32 bits; a negative id is converted to uint32 first. */
  function ExpectedIndex(nChainId: int, h: nat): (slot: nat)
    requires h < 32
    ensures slot < Pow2(h)
  {
    var rand0 := 0;
    var rand1 := (rand0 * MULTIPLIER + INCREMENT) % U32;
    var rand2 := (rand1 + nChainId % U32) % U32;
    var rand3 := (rand2 * MULTIPLIER + INCREMENT) % U32;
    rand3 % Pow2(h)
  }

  lemma ModEqual(x: int, y: int, k: int, m: int)
    requires m > 0 && x == y + k * m
    ensures x % m == y % m
  {
    var q, r := y / m, y % m;
    assert x == m * (q + k) + r by {
      assert m * (q + k) == m * q + k * m;
    }
    DivModUnique(x, m, q + k, r);
  }

  lemma ModDifference(x: int, y: int, m: int) returns (k: int)
    requires m > 0 && x % m == y % m
    ensures x == y + k * m
  {
    k := x / m - y / m;
    assert k * m == (x / m) * m - (y / m) * m;
  }

  lemma U32IsPow2()
    ensures Pow2(32) == U32
  {
    hide Pow2;
    EighthPower();
    Pow2Add(8, 8);
    Pow2Add(16, 16);
  }

  lemma EighthPower()
    ensures Pow2(8) == 256
  {
    assert Pow2(4) == 16;
  }

  lemma ModOfMod(x: int, e: int, d: int)
    requires e > 0 && d > 0 && e * d > 0
    ensures (x % (e * d)) % d == x % d
  {
    var q := x / (e * d);
    assert x == (e * d) * q + x % (e * d);
    assert (e * d) * q == (e * q) * d;
    ModEqual(x, x % (e * d), e * q, d);
  }

  lemma WrappedStep(u: int, a: int, c: int, m: int)
    requires m > 0
    ensures ((u % m) * a + c) % m == (u * a + c) % m
  {
    var q := u / m;
    assert u * a + c == (u % m) * a + c + (q * a) * m by {
      assert u == m * q + u % m;
      assert (m * q + u % m) * a == (q * a) * m + (u % m) * a;
    }
    ModEqual(u * a + c, (u % m) * a + c, q * a, m);
  }

  lemma WrappedTwice(id: int, a: int, c: int, m: int, e: int, d: int)
    requires e > 0 && d > 0 && m == e * d > 0
    ensures ((((c + id % m) % m) * a + c) % m) % d == ((c + id) * a + c) % d
  {
    ModEqual(c + id, c + id % m, id / m, m);
    WrappedStep(c + id, a, c, m);
    ModOfMod((c + id) * a + c, e, d);
  }

  /** Wrapping at 32 bits never shows in the slot. */
  lemma WrappingIsInvisible(nChainId: int, h: nat)
    requires h < 32
    ensures ExpectedIndex(nChainId, h) == UnboundedIndex(0, nChainId, h)
  {
    hide Pow2;
    U32IsPow2();
    Pow2Add(32 - h, h);
    WrappedTwice(nChainId, MULTIPLIER, INCREMENT, U32, Pow2(32 - h), Pow2(h));
    BothIndexes(nChainId, h);
  }

  /** The slot of every id, with the constants written out. */
  lemma SlotFormula(nChainId: int, h: nat)
    requires h < 32
    ensures ExpectedIndex(nChainId, h) == ((12345 + nChainId) * 1103515245 + 12345) % Pow2(h)
  {
    WrappingIsInvisible(nChainId, h);
    BothIndexes(nChainId, h);
  }

  /** The two computations as expressions, without the steps that are constant. */
  lemma BothIndexes(id: int, h: nat)
    requires h < 32
    ensures ExpectedIndex(id, h)
      == ((((INCREMENT + id % U32) % U32) * MULTIPLIER + INCREMENT) % U32) % Pow2(h)
    ensures UnboundedIndex(0, id, h) == ((INCREMENT + id) * MULTIPLIER + INCREMENT) % Pow2(h)
  {
    hide Pow2;
    assert (0 * MULTIPLIER + INCREMENT) % U32 == INCREMENT;
  }

  lemma Undo(a: int, inv: int, t: int, x: int, k: int, e: int, d: int)
    requires inv * a == 1 + t * (e * d) && a * x == k * d
    ensures x == (inv * k - t * e * x) * d
  {
    calc {
      (inv * k - t * e * x) * d;
      inv * (k * d) - (t * (e * d)) * x;
      inv * (a * x) - (inv * a - 1) * x;
      x;
    }
  }

  const INVERSE: nat := 4005161829
  const INVERSE_QUOTIENT: nat := 1029054899

  /** The multiplier is odd, so it can be undone modulo every power of two up to 2^32. */
  lemma UndoMultiplier(x: int, k: int, h: nat) returns (j: int)
    requires h <= 32 && MULTIPLIER * x == k * Pow2(h)
    ensures x == j * Pow2(h)
  {
    U32IsPow2();
    Pow2Add(32 - h, h);
    j := INVERSE * k - INVERSE_QUOTIENT * Pow2(32 - h) * x;
    Undo(MULTIPLIER, INVERSE, INVERSE_QUOTIENT, x, k, Pow2(32 - h), Pow2(h));
  }

  /** Two chains share a slot exactly when their ids agree modulo the tree size. */
  lemma SlotCollision(a: int, b: int, h: nat)
    requires h < 32
    ensures ExpectedIndex(a, h) == ExpectedIndex(b, h) <==> a % Pow2(h) == b % Pow2(h)
  {
    WrappingIsInvisible(a, h);
    WrappingIsInvisible(b, h);
    var d := Pow2(h);
    var x, y := (INCREMENT + a) * MULTIPLIER + INCREMENT, (INCREMENT + b) * MULTIPLIER + INCREMENT;
    assert x - y == MULTIPLIER * (a - b);
    if a % d == b % d {
      var k := ModDifference(a, b, d);
      assert MULTIPLIER * (k * d) == (MULTIPLIER * k) * d;
      ModEqual(x, y, MULTIPLIER * k, d);
    }
    if x % d == y % d {
      var k := ModDifference(x, y, d);
      var j := UndoMultiplier(a - b, k, h);
      ModEqual(a, b, j, d);
    }
  }

  // ---------- slots ----------

  type Slots = seq<Option<Bytes>>

  /** The loop of `BuildMerkleLeaf` from block `i` on.  The conflict warning reads slot `i`, so it too must exist. */
  function Place(slots: Slots, indexHeight: nat, aux: seq<AuxBlock>, i: nat): (r: Result<Slots>)
    requires indexHeight < 32 && i <= |aux|
    ensures r.Ok? ==> |r.value| == |slots|
    decreases |aux| - i
  {
    if i == |aux| then Ok(slots)
    else if !Hex.IsHex(aux[i].hash) then Err(MalformedHex)
    else if i >= |slots| then Err(Panic)
    else
      var slot := ExpectedIndex(aux[i].chainID, indexHeight);
      if slot >= |slots| then Err(Panic)
      else Place(slots[slot := Some(Reversed(Hex.Bytes(aux[i].hash)))], indexHeight, aux, i + 1)
  }

  function NoSlots(size: nat): (s: Slots)
    ensures |s| == size
  {
    seq(size, _ => None)
  }

  /** Slots nobody claimed hold 32 zero bytes. */
  function Filled(slots: Slots): (leaves: seq<Bytes>)
    ensures |leaves| == |slots|
  {
    seq(|slots|, i requires 0 <= i < |slots| => if slots[i].Some? then slots[i].value else Zeros(32))
  }

  function Leaves(size: nat, indexHeight: nat, aux: seq<AuxBlock>): (r: Result<seq<Bytes>>)
    requires indexHeight < 32
    ensures r.Ok? ==> |r.value| == size
  {
    match Place(NoSlots(size), indexHeight, aux, 0)
    case Ok(slots) => Ok(Filled(slots))
    case Err(why) => Err(why)
  }

  method BuildMerkleLeaf(merkleSize: nat, indexHeight: nat, auxblocks: seq<AuxBlock>) returns (r: Result<seq<Bytes>>)
    requires indexHeight < 32
    ensures r == Leaves(merkleSize, indexHeight, auxblocks)
  {
    hide Hex.IsHex, Hex.Bytes, Hex.DigitValue, ExpectedIndex, Pow2;
    var slots := new Option<Bytes>[merkleSize](_ => None);
    assert slots[..] == NoSlots(merkleSize);
    var i := 0;
    while i < |auxblocks|
      invariant i <= |auxblocks|
      invariant Place(slots[..], indexHeight, auxblocks, i) == Place(NoSlots(merkleSize), indexHeight, auxblocks, 0)
    {
      if !Hex.IsHex(auxblocks[i].hash) {
        return Err(MalformedHex);
      }
      if i >= slots.Length {
        return Err(Panic);
      }
      var slot := ExpectedIndex(auxblocks[i].chainID, indexHeight);
      if slot >= slots.Length {
        return Err(Panic);
      }
      ghost var before := slots[..];
      var hash := ReverseBytes(Hex.Bytes(auxblocks[i].hash));
      slots[slot] := Some(hash);
      assert slots[..] == before[slot := Some(hash)];
      i := i + 1;
    }
    ghost var placed := slots[..];
    for k := 0 to slots.Length
      invariant forall j :: 0 <= j < k ==> slots[j] == Some(Filled(placed)[j])
      invariant forall j :: k <= j < slots.Length ==> slots[j] == placed[j]
    {
      if slots[k] == None {
        slots[k] := Some(Zeros(32));
      }
    }
    var leaves := seq(slots.Length, j requires 0 <= j < slots.Length && slots[j].Some? reads slots => slots[j].value);
    assert leaves == Filled(placed);
    return Ok(leaves);
  }

  /** What one block needs so that placing it neither fails nor panics. */
  predicate Fits(size: nat, indexHeight: nat, aux: seq<AuxBlock>, j: nat)
    requires indexHeight < 32 && j < |aux|
  {
    Hex.IsHex(aux[j].hash) && j < size && ExpectedIndex(aux[j].chainID, indexHeight) < size
  }

  lemma {:induction false} PlaceOk(slots: Slots, indexHeight: nat, aux: seq<AuxBlock>, i: nat)
    requires indexHeight < 32 && i <= |aux|
    ensures Place(slots, indexHeight, aux, i).Ok?
      <==> forall j :: i <= j < |aux| ==> Fits(|slots|, indexHeight, aux, j)
    decreases |aux| - i
  {
    if i < |aux| && Fits(|slots|, indexHeight, aux, i) {
      var slot := ExpectedIndex(aux[i].chainID, indexHeight);
      PlaceOk(slots[slot := Some(Reversed(Hex.Bytes(aux[i].hash)))], indexHeight, aux, i + 1);
    }
  }

  /** Leaves exist exactly when every block has a hexadecimal hash and a slot inside the tree. */
  lemma LeavesOk(size: nat, indexHeight: nat, aux: seq<AuxBlock>)
    requires indexHeight < 32
    ensures Leaves(size, indexHeight, aux).Ok? <==> forall j :: 0 <= j < |aux| ==> Fits(size, indexHeight, aux, j)
  {
    PlaceOk(NoSlots(size), indexHeight, aux, 0);
  }

  predicate Claims(indexHeight: nat, aux: seq<AuxBlock>, j: nat, slot: nat)
    requires indexHeight < 32 && j < |aux|
  {
    ExpectedIndex(aux[j].chainID, indexHeight) == slot
  }

  /** A slot ends up with its last claimant, or as it was. */
  lemma {:induction false} PlaceLast(slots: Slots, indexHeight: nat, aux: seq<AuxBlock>, i: nat, slot: nat)
    returns (n: int)
    requires indexHeight < 32 && i <= |aux| && slot < |slots|
    requires Place(slots, indexHeight, aux, i).Ok?
    ensures n == -1 || i <= n < |aux|
    ensures forall j :: i <= j < |aux| && j > n ==> !Claims(indexHeight, aux, j, slot)
    ensures var out := Place(slots, indexHeight, aux, i).value;
      && (n == -1 ==> out[slot] == slots[slot])
      && (n != -1 ==> Claims(indexHeight, aux, n, slot) && Hex.IsHex(aux[n].hash))
      && (n != -1 ==> out[slot] == Some(Reversed(Hex.Bytes(aux[n].hash))))
    decreases |aux| - i
  {
    n := -1;
    if i < |aux| {
      var s := ExpectedIndex(aux[i].chainID, indexHeight);
      n := PlaceLast(slots[s := Some(Reversed(Hex.Bytes(aux[i].hash)))], indexHeight, aux, i + 1, slot);
      if n == -1 && s == slot {
        n := i;
      }
    }
  }

  /** Blocks that all fit a smaller tree sit in the left part of a bigger one, and the rest stays empty. */
  lemma {:induction false} PlaceWider(slots: Slots, more: Slots, indexHeight: nat, aux: seq<AuxBlock>, i: nat)
    requires indexHeight < 32 && i <= |aux|
    requires Place(slots, indexHeight, aux, i).Ok?
    ensures Place(slots + more, indexHeight, aux, i) == Ok(Place(slots, indexHeight, aux, i).value + more)
    decreases |aux| - i
  {
    if i < |aux| {
      var slot := ExpectedIndex(aux[i].chainID, indexHeight);
      var hash := Some(Reversed(Hex.Bytes(aux[i].hash)));
      PlaceWider(slots[slot := hash], more, indexHeight, aux, i + 1);
      assert (slots + more)[slot := hash] == slots[slot := hash] + more;
    }
  }

  // ---------- committed root ----------

  /** `buildMerkleRoot`: a list of slots that failed to build is nil, and indexing it panics. */
  function CommittedRoot(h: HashFn, size: nat, indexHeight: nat, aux: seq<AuxBlock>): Result<Bytes>
    requires indexHeight < 32
  {
    match Leaves(size, indexHeight, aux)
    case Err(_) => Err(Panic)
    case Ok(leaves) => if leaves == [] then Err(Panic) else Ok(Root(h, leaves))
  }

  method BuildMerkleRoot(h: HashFn, merkleSize: nat, indexHeight: nat, auxblocks: seq<AuxBlock>)
    returns (r: Result<Bytes>)
    requires indexHeight < 32
    ensures r == CommittedRoot(h, merkleSize, indexHeight, auxblocks)
  {
    var slots := BuildMerkleLeaf(merkleSize, indexHeight, auxblocks);
    if slots.Err? || slots.value == [] {
      return Err(Panic);
    }
    var currentLevel := slots.value;
    while |currentLevel| > 1
      invariant currentLevel != [] && Root(h, currentLevel) == Root(h, slots.value)
      decreases |currentLevel|
    {
      currentLevel := PairLevel(h, currentLevel);
    }
    return Ok(currentLevel[0]);
  }

  /** The inner loop of both tree builders; an odd last node is joined with itself. */
  method PairLevel(h: HashFn, currentLevel: seq<Bytes>) returns (newLevel: seq<Bytes>)
    ensures newLevel == PairUp(h, currentLevel)
  {
    newLevel := [];
    var i := 0;
    ghost var rest := currentLevel;
    while i < |currentLevel|
      invariant 0 <= i <= |currentLevel| + 1
      invariant rest == if i <= |currentLevel| then currentLevel[i..] else []
      invariant newLevel + PairUp(h, rest) == PairUp(h, currentLevel)
    {
      var left := currentLevel[i];
      var right := if i + 1 < |currentLevel| then currentLevel[i + 1] else left;
      ghost var next := if |rest| >= 2 then rest[2..] else [];
      assert rest[0] == left && (|rest| >= 2 ==> rest[1] == right);
      ConcatAssoc(newLevel, [h(left + right)], PairUp(h, next));
      ConcatEmpty([h(left + right)]);
      newLevel := newLevel + [h(left + right)];
      rest := next;
      i := i + 2;
    }
    ConcatEmpty(newLevel);
  }

  // ---------- branch ----------

  /** XOR with one. */
  function Sibling(i: nat): nat {
    if i % 2 == 0 then i + 1 else i - 1
  }

  /** The neighbours met when climbing from `index` to the root of a full tree of height `k`. */
  function Branch(h: HashFn, level: seq<Bytes>, index: nat, k: nat): (branch: seq<Bytes>)
    requires |level| == Pow2(k) && index < |level|
    ensures |branch| == k
    decreases k
  {
    if k == 0 then []
    else [level[Sibling(index)]] + Branch(h, PairUp(h, level), index / 2, k - 1)
  }

  lemma {:induction false} PairUpAt(h: HashFn, level: seq<Bytes>, i: nat)
    requires |level| % 2 == 0 && i < |level| / 2
    ensures PairUp(h, level)[i] == h(level[2 * i] + level[2 * i + 1])
  {
    if i > 0 {
      PairUpAt(h, level[2..], i - 1);
    }
  }

  /** Index and neighbour are the two halves of one pair. */
  lemma Pairing(i: nat, n: nat)
    requires n % 2 == 0 && i < n
    ensures i / 2 < n / 2 && Sibling(i) < n
    ensures i % 2 == 0 ==> i == 2 * (i / 2) && Sibling(i) == 2 * (i / 2) + 1
    ensures i % 2 != 0 ==> i == 2 * (i / 2) + 1 && Sibling(i) == 2 * (i / 2)
  {
  }

  lemma JoinedWithSibling(h: HashFn, level: seq<Bytes>, i: nat)
    requires |level| % 2 == 0 && i < |level|
    ensures Sibling(i) < |level|
    ensures i / 2 < |PairUp(h, level)|
    ensures i % 2 == 0 ==> PairUp(h, level)[i / 2] == h(level[i] + level[Sibling(i)])
    ensures i % 2 != 0 ==> PairUp(h, level)[i / 2] == h(level[Sibling(i)] + level[i])
  {
    hide PairUp, Sibling;
    var j := i / 2;
    Pairing(i, |level|);
    PairUpAt(h, level, j);
  }

  /** Soundness of a branch: climbing from any leaf along its own branch reaches the root. */
  lemma {:induction false} BranchFoldsToRoot(h: HashFn, level: seq<Bytes>, index: nat, k: nat)
    requires |level| == Pow2(k) && index < |level|
    ensures FoldBranch(h, level[index], Branch(h, level, index, k), index) == Root(h, level)
    decreases k
  {
    hide PairUp, Sibling;
    if k > 0 {
      var up := PairUp(h, level);
      Pairing(index, |level|);
      JoinedWithSibling(h, level, index);
      BranchFoldsToRoot(h, up, index / 2, k - 1);
      HeadTail(level[Sibling(index)], Branch(h, up, index / 2, k - 1));
    }
  }
}
