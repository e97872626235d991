/**
 * The published formats the pool writes, as an independent reference: a writer in front of any following bytes,
 * a reader, and the proof that reading undoes writing.
 */
module Wire {
  import opened Base
  import opened Encoding

  datatype TxIn = TxIn(previous: Bytes, index: nat, script: Bytes, sequence: nat) {
    predicate Fits() {
      |previous| == 32 && index < U32 && |script| < U64 && sequence < U32
    }
  }

  datatype TxOut = TxOut(value: nat, script: Bytes) {
    predicate Fits() {
      value < U64 && |script| < U64
    }
  }

  datatype Tx = Tx(version: nat, inputs: seq<TxIn>, outputs: seq<TxOut>, lockTime: nat) {
    predicate Fits() {
      && version < U32 && lockTime < U32
      && |inputs| < U64 && (forall i :: 0 <= i < |inputs| ==> inputs[i].Fits())
      && |outputs| < U64 && (forall i :: 0 <= i < |outputs| ==> outputs[i].Fits())
    }
  }

  datatype Header = Header(version: nat, previous: Bytes, merkleRoot: Bytes, time: nat, bits: nat, nonce: nat) {
    predicate Fits() {
      && version < U32 && |previous| == 32 && |merkleRoot| == 32
      && time < U32 && bits < U32 && nonce < U32
    }
  }

  /** "Aux proof-of-work block" and "Merkle Branch" of the merged mining specification. */
  datatype AuxProof = AuxProof(
    coinbase: Tx,
    parentHash: Bytes,
    parentBranch: seq<Bytes>,
    parentIndex: nat,
    auxBranch: seq<Bytes>,
    auxIndex: nat,
    header: Header)
  {
    predicate Fits() {
      && coinbase.Fits() && |parentHash| == 32 && HashesFit(parentBranch) && parentIndex < U32
      && HashesFit(auxBranch) && auxIndex < U32 && header.Fits()
    }
  }

  predicate HashesFit(hashes: seq<Bytes>) {
    |hashes| < U64 && forall i :: 0 <= i < |hashes| ==> |hashes[i]| == 32
  }

  // ---------- small readers ----------

  function Take(b: Bytes, n: nat): Option<(Bytes, Bytes)> {
    if |b| < n then None else Some((b[..n], b[n..]))
  }

  lemma TakeBack(a: Bytes, rest: Bytes)
    ensures Take(a + rest, |a|) == Some((a, rest))
  {
    SplitBetween(a, rest);
  }

  lemma Read4Back(v: nat, rest: Bytes)
    requires v < U32
    ensures ReadLE(LE(v, 4) + rest, 4) == Some((v, rest))
  {
    Widths();
    ReadLEOfLE(v, 4, rest);
  }

  lemma Read8Back(v: nat, rest: Bytes)
    requires v < U64
    ensures ReadLE(LE(v, 8) + rest, 8) == Some((v, rest))
  {
    Widths();
    ReadLEOfLE(v, 8, rest);
  }

  /** A byte string behind its compact size. */
  function PutVar(b: Bytes, rest: Bytes): Bytes
    requires |b| < U64
  {
    CompactSize(|b|) + (b + rest)
  }

  function ReadVar(b: Bytes): Option<(Bytes, Bytes)> {
    var (n, b1) :- ReadCompactSize(b);
    Take(b1, n)
  }

  lemma ReadVarBack(b: Bytes, rest: Bytes)
    requires |b| < U64
    ensures ReadVar(PutVar(b, rest)) == Some((b, rest))
  {
    CompactSizeRoundTrip(|b|, b + rest);
    TakeBack(b, rest);
  }

  // ---------- transactions ----------

  function PutTxIn(t: TxIn, rest: Bytes): Bytes
    requires t.Fits()
  {
    t.previous + (LE(t.index, 4) + PutVar(t.script, LE(t.sequence, 4) + rest))
  }

  function ReadTxIn(b: Bytes): Option<(TxIn, Bytes)> {
    var (previous, b1) :- Take(b, 32);
    var (index, b2) :- ReadLE(b1, 4);
    var (script, b3) :- ReadVar(b2);
    var (sequence, b4) :- ReadLE(b3, 4);
    Some((TxIn(previous, index, script, sequence), b4))
  }

  lemma ReadTxInBack(t: TxIn, rest: Bytes)
    requires t.Fits()
    ensures ReadTxIn(PutTxIn(t, rest)) == Some((t, rest))
  {
    Read4Back(t.sequence, rest);
    ReadVarBack(t.script, LE(t.sequence, 4) + rest);
    Read4Back(t.index, PutVar(t.script, LE(t.sequence, 4) + rest));
    TakeBack(t.previous, LE(t.index, 4) + PutVar(t.script, LE(t.sequence, 4) + rest));
  }

  function PutTxOut(t: TxOut, rest: Bytes): Bytes
    requires t.Fits()
  {
    LE(t.value, 8) + PutVar(t.script, rest)
  }

  function ReadTxOut(b: Bytes): Option<(TxOut, Bytes)> {
    var (value, b1) :- ReadLE(b, 8);
    var (script, b2) :- ReadVar(b1);
    Some((TxOut(value, script), b2))
  }

  lemma ReadTxOutBack(t: TxOut, rest: Bytes)
    requires t.Fits()
    ensures ReadTxOut(PutTxOut(t, rest)) == Some((t, rest))
  {
    ReadVarBack(t.script, rest);
    Read8Back(t.value, PutVar(t.script, rest));
  }

  function PutInputs(ts: seq<TxIn>, rest: Bytes): Bytes
    requires forall i :: 0 <= i < |ts| ==> ts[i].Fits()
  {
    if ts == [] then rest else PutTxIn(ts[0], PutInputs(ts[1..], rest))
  }

  function ReadInputs(b: Bytes, n: nat): Option<(seq<TxIn>, Bytes)> {
    if n == 0 then Some(([], b))
    else
      var (t, b1) :- ReadTxIn(b);
      var (ts, b2) :- ReadInputs(b1, n - 1);
      Some(([t] + ts, b2))
  }

  lemma {:induction false} ReadInputsBack(ts: seq<TxIn>, rest: Bytes)
    requires forall i :: 0 <= i < |ts| ==> ts[i].Fits()
    ensures ReadInputs(PutInputs(ts, rest), |ts|) == Some((ts, rest))
  {
    if ts != [] {
      ConsBack(ts);
      ReadInputsBack(ts[1..], rest);
      ReadTxInBack(ts[0], PutInputs(ts[1..], rest));
    }
  }

  function PutOutputs(ts: seq<TxOut>, rest: Bytes): Bytes
    requires forall i :: 0 <= i < |ts| ==> ts[i].Fits()
  {
    if ts == [] then rest else PutTxOut(ts[0], PutOutputs(ts[1..], rest))
  }

  function ReadOutputs(b: Bytes, n: nat): Option<(seq<TxOut>, Bytes)> {
    if n == 0 then Some(([], b))
    else
      var (t, b1) :- ReadTxOut(b);
      var (ts, b2) :- ReadOutputs(b1, n - 1);
      Some(([t] + ts, b2))
  }

  lemma {:induction false} ReadOutputsBack(ts: seq<TxOut>, rest: Bytes)
    requires forall i :: 0 <= i < |ts| ==> ts[i].Fits()
    ensures ReadOutputs(PutOutputs(ts, rest), |ts|) == Some((ts, rest))
  {
    if ts != [] {
      ConsBack(ts);
      ReadOutputsBack(ts[1..], rest);
      ReadTxOutBack(ts[0], PutOutputs(ts[1..], rest));
    }
  }

  function PutTx(t: Tx, rest: Bytes): Bytes
    requires t.Fits()
  {
    LE(t.version, 4) + (CompactSize(|t.inputs|) + PutInputs(t.inputs, PutTxTail(t, rest)))
  }

  function PutTxTail(t: Tx, rest: Bytes): Bytes
    requires t.Fits()
  {
    CompactSize(|t.outputs|) + PutOutputs(t.outputs, LE(t.lockTime, 4) + rest)
  }

  function ReadTx(b: Bytes): Option<(Tx, Bytes)> {
    var (version, b1) :- ReadLE(b, 4);
    var (inCount, b2) :- ReadCompactSize(b1);
    var (inputs, b3) :- ReadInputs(b2, inCount);
    var (outCount, b4) :- ReadCompactSize(b3);
    var (outputs, b5) :- ReadOutputs(b4, outCount);
    var (lockTime, b6) :- ReadLE(b5, 4);
    Some((Tx(version, inputs, outputs, lockTime), b6))
  }

  /** Every transaction reads back, and what follows it is left exactly as it was. */
  lemma ReadTxBack(t: Tx, rest: Bytes)
    requires t.Fits()
    ensures ReadTx(PutTx(t, rest)) == Some((t, rest))
  {
    Read4Back(t.lockTime, rest);
    ReadOutputsBack(t.outputs, LE(t.lockTime, 4) + rest);
    CompactSizeRoundTrip(|t.outputs|, PutOutputs(t.outputs, LE(t.lockTime, 4) + rest));
    ReadInputsBack(t.inputs, PutTxTail(t, rest));
    CompactSizeRoundTrip(|t.inputs|, PutInputs(t.inputs, PutTxTail(t, rest)));
    Read4Back(t.version, CompactSize(|t.inputs|) + PutInputs(t.inputs, PutTxTail(t, rest)));
  }

  // ---------- writers only prepend ----------

  lemma {:induction false} PutInputsPrepends(ts: seq<TxIn>, a: Bytes, b: Bytes)
    requires forall i :: 0 <= i < |ts| ==> ts[i].Fits()
    ensures PutInputs(ts, a + b) == PutInputs(ts, a) + b
  {
    if ts != [] {
      var t := ts[0];
      PutInputsPrepends(ts[1..], a, b);
      var m := PutInputs(ts[1..], a);
      ConcatAssoc(LE(t.sequence, 4), m, b);
      ConcatAssoc(t.script, LE(t.sequence, 4) + m, b);
      ConcatAssoc(CompactSize(|t.script|), t.script + (LE(t.sequence, 4) + m), b);
      ConcatAssoc(LE(t.index, 4), PutVar(t.script, LE(t.sequence, 4) + m), b);
      ConcatAssoc(t.previous, LE(t.index, 4) + PutVar(t.script, LE(t.sequence, 4) + m), b);
    }
  }

  lemma {:induction false} PutOutputsPrepends(ts: seq<TxOut>, a: Bytes, b: Bytes)
    requires forall i :: 0 <= i < |ts| ==> ts[i].Fits()
    ensures PutOutputs(ts, a + b) == PutOutputs(ts, a) + b
  {
    if ts != [] {
      var t := ts[0];
      PutOutputsPrepends(ts[1..], a, b);
      var m := PutOutputs(ts[1..], a);
      ConcatAssoc(t.script, m, b);
      ConcatAssoc(CompactSize(|t.script|), t.script + m, b);
      ConcatAssoc(LE(t.value, 8), PutVar(t.script, m), b);
    }
  }

  lemma PutTxPrepends(t: Tx, rest: Bytes)
    requires t.Fits()
    ensures PutTx(t, rest) == PutTx(t, []) + rest
  {
    ConcatEmpty(LE(t.lockTime, 4));
    PutOutputsPrepends(t.outputs, LE(t.lockTime, 4) + [], rest);
    ConcatAssoc(CompactSize(|t.outputs|), PutOutputs(t.outputs, LE(t.lockTime, 4) + []), rest);
    PutInputsPrepends(t.inputs, PutTxTail(t, []), rest);
    ConcatAssoc(CompactSize(|t.inputs|), PutInputs(t.inputs, PutTxTail(t, [])), rest);
    ConcatAssoc(LE(t.version, 4), CompactSize(|t.inputs|) + PutInputs(t.inputs, PutTxTail(t, [])), rest);
  }

  // ---------- headers ----------

  function PutHeader(t: Header, rest: Bytes): Bytes {
    LE(t.version, 4) + (t.previous + (t.merkleRoot + (LE(t.time, 4) + (LE(t.bits, 4) + (LE(t.nonce, 4) + rest)))))
  }

  function ReadHeader(b: Bytes): Option<(Header, Bytes)> {
    var (version, b1) :- ReadLE(b, 4);
    var (previous, b2) :- Take(b1, 32);
    var (merkleRoot, b3) :- Take(b2, 32);
    var (time, b4) :- ReadLE(b3, 4);
    var (bits, b5) :- ReadLE(b4, 4);
    var (nonce, b6) :- ReadLE(b5, 4);
    Some((Header(version, previous, merkleRoot, time, bits, nonce), b6))
  }

  lemma ReadHeaderBack(t: Header, rest: Bytes)
    requires t.Fits()
    ensures ReadHeader(PutHeader(t, rest)) == Some((t, rest))
  {
    var r5 := LE(t.nonce, 4) + rest;
    var r4 := LE(t.bits, 4) + r5;
    var r3 := LE(t.time, 4) + r4;
    Read4Back(t.nonce, rest);
    Read4Back(t.bits, r5);
    Read4Back(t.time, r4);
    TakeBack(t.merkleRoot, r3);
    TakeBack(t.previous, t.merkleRoot + r3);
    Read4Back(t.version, t.previous + (t.merkleRoot + r3));
  }

  // ---------- transactions as a block carries them ----------

  /**
   * How a transaction stands in a block: in its plain form, with witness stacks as in BIP 144, or as the one that ties
   * Litecoin's extension block to the chain, which has a form of its own with flag 8.
   */
  datatype Form = Plain | Witnessed(stacks: seq<seq<Bytes>>) | Integrating

  datatype BlockTx = BlockTx(tx: Tx, form: Form) {
    /** A plain transaction without inputs would look like the marker of another form. */
    predicate Fits() {
      && tx.Fits()
      && match form
         case Plain => tx.inputs != []
         case Witnessed(stacks) => |stacks| == |tx.inputs| && StacksFit(stacks)
         case Integrating => true
    }
  }

  predicate ItemsFit(items: seq<Bytes>) {
    |items| < U64 && forall i :: 0 <= i < |items| ==> |items[i]| < U64
  }

  predicate StacksFit(stacks: seq<seq<Bytes>>) {
    forall i :: 0 <= i < |stacks| ==> ItemsFit(stacks[i])
  }

  function PutItems(items: seq<Bytes>, rest: Bytes): Bytes
    requires forall i :: 0 <= i < |items| ==> |items[i]| < U64
  {
    if items == [] then rest else PutVar(items[0], PutItems(items[1..], rest))
  }

  function ReadItems(b: Bytes, n: nat): Option<(seq<Bytes>, Bytes)>
    decreases n
  {
    if n == 0 then Some(([], b))
    else
      var (x, b1) :- ReadVar(b);
      var (xs, b2) :- ReadItems(b1, n - 1);
      Some(([x] + xs, b2))
  }

  lemma {:induction false} ReadItemsBack(items: seq<Bytes>, rest: Bytes)
    requires forall i :: 0 <= i < |items| ==> |items[i]| < U64
    ensures ReadItems(PutItems(items, rest), |items|) == Some((items, rest))
  {
    if items != [] {
      ConsBack(items);
      ReadItemsBack(items[1..], rest);
      ReadVarBack(items[0], PutItems(items[1..], rest));
    }
  }

  function PutStacks(stacks: seq<seq<Bytes>>, rest: Bytes): Bytes
    requires StacksFit(stacks)
  {
    if stacks == [] then rest
    else CompactSize(|stacks[0]|) + PutItems(stacks[0], PutStacks(stacks[1..], rest))
  }

  function ReadStacks(b: Bytes, n: nat): Option<(seq<seq<Bytes>>, Bytes)>
    decreases n
  {
    if n == 0 then Some(([], b))
    else
      var (count, b1) :- ReadCompactSize(b);
      var (stack, b2) :- ReadItems(b1, count);
      var (stacks, b3) :- ReadStacks(b2, n - 1);
      Some(([stack] + stacks, b3))
  }

  lemma {:induction false} ReadStacksBack(stacks: seq<seq<Bytes>>, rest: Bytes)
    requires StacksFit(stacks)
    ensures ReadStacks(PutStacks(stacks, rest), |stacks|) == Some((stacks, rest))
  {
    if stacks != [] {
      ConsBack(stacks);
      var more := PutStacks(stacks[1..], rest);
      ReadStacksBack(stacks[1..], rest);
      ReadItemsBack(stacks[0], more);
      CompactSizeRoundTrip(|stacks[0]|, PutItems(stacks[0], more));
    }
  }

  /** Inputs and outputs, as every form has them. */
  function PutFlows(t: Tx, rest: Bytes): Bytes
    requires t.Fits()
  {
    CompactSize(|t.inputs|) + PutInputs(t.inputs, CompactSize(|t.outputs|) + PutOutputs(t.outputs, rest))
  }

  function ReadFlows(b: Bytes): Option<((seq<TxIn>, seq<TxOut>), Bytes)> {
    var (inCount, b1) :- ReadCompactSize(b);
    var (inputs, b2) :- ReadInputs(b1, inCount);
    var (outCount, b3) :- ReadCompactSize(b2);
    var (outputs, b4) :- ReadOutputs(b3, outCount);
    Some(((inputs, outputs), b4))
  }

  lemma ReadFlowsBack(t: Tx, rest: Bytes)
    requires t.Fits()
    ensures ReadFlows(PutFlows(t, rest)) == Some(((t.inputs, t.outputs), rest))
  {
    var outputs := CompactSize(|t.outputs|) + PutOutputs(t.outputs, rest);
    ReadOutputsBack(t.outputs, rest);
    CompactSizeRoundTrip(|t.outputs|, PutOutputs(t.outputs, rest));
    ReadInputsBack(t.inputs, outputs);
    CompactSizeRoundTrip(|t.inputs|, PutInputs(t.inputs, outputs));
  }

  /** A plain transaction is version, flows and lock time. */
  lemma PlainFlows(t: Tx, rest: Bytes)
    requires t.Fits()
    ensures PutTx(t, rest) == LE(t.version, 4) + PutFlows(t, LE(t.lockTime, 4) + rest)
  {
  }

  /** A null marker and a flag take the place of the input count. */
  function Marked(flag: Byte, body: Bytes): Bytes {
    [0, flag] + body
  }

  function PutBlockTx(t: BlockTx, rest: Bytes): Bytes
    requires t.Fits()
  {
    var last := LE(t.tx.lockTime, 4) + rest;
    match t.form
    case Plain => PutTx(t.tx, rest)
    case Witnessed(stacks) => LE(t.tx.version, 4) + Marked(1, PutFlows(t.tx, PutStacks(stacks, last)))
    case Integrating => LE(t.tx.version, 4) + Marked(8, PutFlows(t.tx, [0] + last))
  }

  function FlagOf(b: Bytes): Option<Byte> {
    if |b| >= 2 && b[0] == 0 then Some(b[1]) else None
  }

  function ReadBlockTx(b: Bytes): Option<(BlockTx, Bytes)> {
    var (version, b1) :- ReadLE(b, 4);
    if FlagOf(b1) == Some(1) then
      var ((inputs, outputs), b2) :- ReadFlows(b1[2..]);
      var (stacks, b3) :- ReadStacks(b2, |inputs|);
      var (lockTime, b4) :- ReadLE(b3, 4);
      Some((BlockTx(Tx(version, inputs, outputs, lockTime), Witnessed(stacks)), b4))
    else if FlagOf(b1) == Some(8) then
      var ((inputs, outputs), b2) :- ReadFlows(b1[2..]);
      if b2 == [] || b2[0] != 0 then None
      else
        var (lockTime, b3) :- ReadLE(b2[1..], 4);
        Some((BlockTx(Tx(version, inputs, outputs, lockTime), Integrating), b3))
    else
      var (t, b2) :- ReadTx(b);
      Some((BlockTx(t, Plain), b2))
  }

  lemma MarkedBack(flag: Byte, body: Bytes)
    ensures FlagOf(Marked(flag, body)) == Some(flag) && Marked(flag, body)[2..] == body
  {
  }

  /** A count that is not zero is no marker. */
  lemma CountIsNoMarker(n: nat, rest: Bytes)
    requires 0 < n < U64
    ensures FlagOf(CompactSize(n) + rest) == None
  {
    Widths();
  }

  lemma ReadPlainBack(t: BlockTx, rest: Bytes)
    requires t.Fits() && t.form == Plain
    ensures ReadBlockTx(PutBlockTx(t, rest)) == Some((t, rest))
  {
    hide CompactSize, ReadTx, PutInputs;
    var flows := PutFlows(t.tx, LE(t.tx.lockTime, 4) + rest);
    PlainFlows(t.tx, rest);
    Read4Back(t.tx.version, flows);
    CountIsNoMarker(|t.tx.inputs|,
      PutInputs(t.tx.inputs, CompactSize(|t.tx.outputs|) + PutOutputs(t.tx.outputs, LE(t.tx.lockTime, 4) + rest)));
    ReadTxBack(t.tx, rest);
  }

  lemma ReadWitnessedBack(t: BlockTx, rest: Bytes)
    requires t.Fits() && t.form.Witnessed?
    ensures ReadBlockTx(PutBlockTx(t, rest)) == Some((t, rest))
  {
    hide PutFlows, ReadFlows, PutStacks, ReadStacks, Marked, FlagOf;
    var last := LE(t.tx.lockTime, 4) + rest;
    var stacks := PutStacks(t.form.stacks, last);
    Read4Back(t.tx.version, Marked(1, PutFlows(t.tx, stacks)));
    MarkedBack(1, PutFlows(t.tx, stacks));
    ReadFlowsBack(t.tx, stacks);
    ReadStacksBack(t.form.stacks, last);
    Read4Back(t.tx.lockTime, rest);
  }

  lemma ReadIntegratingBack(t: BlockTx, rest: Bytes)
    requires t.Fits() && t.form == Integrating
    ensures ReadBlockTx(PutBlockTx(t, rest)) == Some((t, rest))
  {
    hide PutFlows, ReadFlows, Marked, FlagOf;
    var last := LE(t.tx.lockTime, 4) + rest;
    Read4Back(t.tx.version, Marked(8, PutFlows(t.tx, [0] + last)));
    MarkedBack(8, PutFlows(t.tx, [0] + last));
    ReadFlowsBack(t.tx, [0] + last);
    HeadTail(0, last);
    Read4Back(t.tx.lockTime, rest);
  }

  /** Every form reads back as itself, and what follows it is left exactly as it was. */
  lemma ReadBlockTxBack(t: BlockTx, rest: Bytes)
    requires t.Fits()
    ensures ReadBlockTx(PutBlockTx(t, rest)) == Some((t, rest))
  {
    match t.form
    case Plain => ReadPlainBack(t, rest);
    case Witnessed(stacks) => ReadWitnessedBack(t, rest);
    case Integrating => ReadIntegratingBack(t, rest);
  }

  lemma {:induction false} PutItemsPrepends(items: seq<Bytes>, a: Bytes, b: Bytes)
    requires forall i :: 0 <= i < |items| ==> |items[i]| < U64
    ensures PutItems(items, a + b) == PutItems(items, a) + b
  {
    if items != [] {
      PutItemsPrepends(items[1..], a, b);
      var m := PutItems(items[1..], a);
      ConcatAssoc(items[0], m, b);
      ConcatAssoc(CompactSize(|items[0]|), items[0] + m, b);
    }
  }

  lemma {:induction false} PutStacksPrepends(stacks: seq<seq<Bytes>>, a: Bytes, b: Bytes)
    requires StacksFit(stacks)
    ensures PutStacks(stacks, a + b) == PutStacks(stacks, a) + b
  {
    if stacks != [] {
      PutStacksPrepends(stacks[1..], a, b);
      var m := PutStacks(stacks[1..], a);
      PutItemsPrepends(stacks[0], m, b);
      ConcatAssoc(CompactSize(|stacks[0]|), PutItems(stacks[0], m), b);
    }
  }

  lemma PutFlowsPrepends(t: Tx, a: Bytes, b: Bytes)
    requires t.Fits()
    ensures PutFlows(t, a + b) == PutFlows(t, a) + b
  {
    PutOutputsPrepends(t.outputs, a, b);
    ConcatAssoc(CompactSize(|t.outputs|), PutOutputs(t.outputs, a), b);
    PutInputsPrepends(t.inputs, CompactSize(|t.outputs|) + PutOutputs(t.outputs, a), b);
    ConcatAssoc(CompactSize(|t.inputs|),
      PutInputs(t.inputs, CompactSize(|t.outputs|) + PutOutputs(t.outputs, a)), b);
  }

  lemma PutBlockTxPrepends(t: BlockTx, a: Bytes, b: Bytes)
    requires t.Fits()
    ensures PutBlockTx(t, a + b) == PutBlockTx(t, a) + b
  {
    hide PutFlows, PutStacks;
    var version, last := LE(t.tx.version, 4), LE(t.tx.lockTime, 4) + a;
    ConcatAssoc(LE(t.tx.lockTime, 4), a, b);
    match t.form
    case Plain =>
      PlainFlows(t.tx, a + b);
      PlainFlows(t.tx, a);
      PutFlowsPrepends(t.tx, last, b);
      ConcatAssoc(version, PutFlows(t.tx, last), b);
    case Witnessed(stacks) =>
      PutStacksPrepends(stacks, last, b);
      PutFlowsPrepends(t.tx, PutStacks(stacks, last), b);
      MarkedPrepends(version, 1, PutFlows(t.tx, PutStacks(stacks, last)), b);
    case Integrating =>
      ConcatAssoc([0], last, b);
      PutFlowsPrepends(t.tx, [0] + last, b);
      MarkedPrepends(version, 8, PutFlows(t.tx, [0] + last), b);
  }

  lemma MarkedPrepends(version: Bytes, flag: Byte, body: Bytes, b: Bytes)
    ensures version + Marked(flag, body + b) == (version + Marked(flag, body)) + b
  {
    ConcatAssoc([0, flag], body, b);
    ConcatAssoc(version, Marked(flag, body), b);
  }

  // ---------- blocks ----------

  predicate TxsFit(txs: seq<BlockTx>) {
    forall i :: 0 <= i < |txs| ==> txs[i].Fits()
  }

  function PutTxs(txs: seq<BlockTx>, rest: Bytes): Bytes
    requires TxsFit(txs)
  {
    if txs == [] then rest else PutBlockTx(txs[0], PutTxs(txs[1..], rest))
  }

  function ReadTxs(b: Bytes, n: nat): Option<(seq<BlockTx>, Bytes)>
    decreases n
  {
    if n == 0 then Some(([], b))
    else
      var (t, b1) :- ReadBlockTx(b);
      var (ts, b2) :- ReadTxs(b1, n - 1);
      Some(([t] + ts, b2))
  }

  lemma {:induction false} ReadTxsBack(txs: seq<BlockTx>, rest: Bytes)
    requires TxsFit(txs)
    ensures ReadTxs(PutTxs(txs, rest), |txs|) == Some((txs, rest))
  {
    if txs != [] {
      ConsBack(txs);
      ReadTxsBack(txs[1..], rest);
      ReadBlockTxBack(txs[0], PutTxs(txs[1..], rest));
    }
  }

  lemma {:induction false} PutTxsPrepends(txs: seq<BlockTx>, a: Bytes, b: Bytes)
    requires TxsFit(txs)
    ensures PutTxs(txs, a + b) == PutTxs(txs, a) + b
  {
    if txs != [] {
      PutTxsPrepends(txs[1..], a, b);
      PutBlockTxPrepends(txs[0], PutTxs(txs[1..], a), b);
    }
  }

  /** "Serialized Blocks": header, count, transactions; `rest` is any extension block behind them. */
  function PutBlock(header: Header, txs: seq<BlockTx>, rest: Bytes): Bytes
    requires TxsFit(txs) && |txs| < U64
  {
    PutHeader(header, CompactSize(|txs|) + PutTxs(txs, rest))
  }

  function ReadBlock(b: Bytes): Option<((Header, seq<BlockTx>), Bytes)> {
    var (header, b1) :- ReadHeader(b);
    var (n, b2) :- ReadCompactSize(b1);
    var (txs, b3) :- ReadTxs(b2, n);
    Some(((header, txs), b3))
  }

  /** A block put together from separately serialized parts. */
  lemma PutBlockParts(header: Header, tx: BlockTx, txs: seq<BlockTx>, rest: Bytes)
    requires TxsFit([tx] + txs) && TxsFit(txs) && tx.Fits() && |txs| + 1 < U64
    ensures (((PutHeader(header, []) + CompactSize(|txs| + 1)) + PutBlockTx(tx, [])) + PutTxs(txs, [])) + rest
         == PutBlock(header, [tx] + txs, rest)
  {
    hide PutBlockTx, PutTxs, CompactSize, PutHeader;
    var a, count, c, data := PutHeader(header, []), CompactSize(|txs| + 1), PutBlockTx(tx, []), PutTxs(txs, []);
    PutTxsPrepends(txs, [], rest);
    ConcatEmpty(rest);
    ConcatAssoc((a + count) + c, data, rest);
    ConcatAssoc(a + count, c, data + rest);
    ConcatAssoc(a, count, c + (data + rest));
    PutBlockTxPrepends(tx, [], data + rest);
    ConcatEmpty(data + rest);
    PutTxsCons(tx, txs, rest);
    PutHeaderPrepends(header, count + PutBlockTx(tx, data + rest));
  }

  lemma PutTxsCons(tx: BlockTx, txs: seq<BlockTx>, rest: Bytes)
    requires tx.Fits() && TxsFit(txs)
    ensures TxsFit([tx] + txs) && PutTxs([tx] + txs, rest) == PutBlockTx(tx, PutTxs(txs, rest))
  {
    HeadTail(tx, txs);
  }

  lemma ReadBlockBack(header: Header, txs: seq<BlockTx>, rest: Bytes)
    requires header.Fits() && TxsFit(txs) && |txs| < U64
    ensures ReadBlock(PutBlock(header, txs, rest)) == Some(((header, txs), rest))
  {
    ReadTxsBack(txs, rest);
    CompactSizeRoundTrip(|txs|, PutTxs(txs, rest));
    ReadHeaderBack(header, CompactSize(|txs|) + PutTxs(txs, rest));
  }

  lemma PutHeaderPrepends(t: Header, rest: Bytes)
    ensures PutHeader(t, rest) == PutHeader(t, []) + rest
  {
    var a := LE(t.nonce, 4);
    ConcatEmpty(a);
    ConcatAssoc(LE(t.bits, 4), a, rest);
    ConcatAssoc(LE(t.time, 4), LE(t.bits, 4) + a, rest);
    ConcatAssoc(t.merkleRoot, LE(t.time, 4) + (LE(t.bits, 4) + a), rest);
    ConcatAssoc(t.previous, t.merkleRoot + (LE(t.time, 4) + (LE(t.bits, 4) + a)), rest);
    ConcatAssoc(LE(t.version, 4), t.previous + (t.merkleRoot + (LE(t.time, 4) + (LE(t.bits, 4) + a))), rest);
  }

  // ---------- branches and proofs ----------

  function ReadHashes(b: Bytes, n: nat): Option<(seq<Bytes>, Bytes)> {
    if n == 0 then Some(([], b))
    else
      var (x, b1) :- Take(b, 32);
      var (xs, b2) :- ReadHashes(b1, n - 1);
      Some(([x] + xs, b2))
  }

  lemma {:induction false} ReadHashesBack(hashes: seq<Bytes>, rest: Bytes)
    requires HashesFit(hashes)
    ensures ReadHashes(Flatten(hashes) + rest, |hashes|) == Some((hashes, rest))
  {
    if hashes == [] {
      ConcatEmpty(rest);
    } else {
      ConsBack(hashes);
      ReadHashesBack(hashes[1..], rest);
      ConcatAssoc(hashes[0], Flatten(hashes[1..]), rest);
      TakeBack(hashes[0], Flatten(hashes[1..]) + rest);
    }
  }

  function PutBranch(branch: seq<Bytes>, index: nat, rest: Bytes): Bytes
    requires HashesFit(branch)
  {
    CompactSize(|branch|) + (Flatten(branch) + (LE(index, 4) + rest))
  }

  function ReadBranch(b: Bytes): Option<((seq<Bytes>, nat), Bytes)> {
    var (n, b1) :- ReadCompactSize(b);
    var (branch, b2) :- ReadHashes(b1, n);
    var (index, b3) :- ReadLE(b2, 4);
    Some(((branch, index), b3))
  }

  lemma ReadBranchBack(branch: seq<Bytes>, index: nat, rest: Bytes)
    requires HashesFit(branch) && index < U32
    ensures ReadBranch(PutBranch(branch, index, rest)) == Some(((branch, index), rest))
  {
    Read4Back(index, rest);
    ReadHashesBack(branch, LE(index, 4) + rest);
    CompactSizeRoundTrip(|branch|, Flatten(branch) + (LE(index, 4) + rest));
  }

  function PutAuxProof(p: AuxProof, rest: Bytes): Bytes
    requires p.Fits()
  {
    PutTx(p.coinbase,
      p.parentHash + PutBranch(p.parentBranch, p.parentIndex,
        PutBranch(p.auxBranch, p.auxIndex, PutHeader(p.header, rest))))
  }

  function ReadAuxProof(b: Bytes): Option<(AuxProof, Bytes)> {
    var (coinbase, b1) :- ReadTx(b);
    var (parentHash, b2) :- Take(b1, 32);
    var ((parentBranch, parentIndex), b3) :- ReadBranch(b2);
    var ((auxBranch, auxIndex), b4) :- ReadBranch(b3);
    var (header, b5) :- ReadHeader(b4);
    Some((AuxProof(coinbase, parentHash, parentBranch, parentIndex, auxBranch, auxIndex, header), b5))
  }

  lemma ReadAuxProofBack(p: AuxProof, rest: Bytes)
    requires p.Fits()
    ensures ReadAuxProof(PutAuxProof(p, rest)) == Some((p, rest))
  {
    var r3 := PutHeader(p.header, rest);
    var r2 := PutBranch(p.auxBranch, p.auxIndex, r3);
    var r1 := PutBranch(p.parentBranch, p.parentIndex, r2);
    ReadHeaderBack(p.header, rest);
    ReadBranchBack(p.auxBranch, p.auxIndex, r3);
    ReadBranchBack(p.parentBranch, p.parentIndex, r2);
    TakeBack(p.parentHash, r1);
    ReadTxBack(p.coinbase, p.parentHash + r1);
  }
}
