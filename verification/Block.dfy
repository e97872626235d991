/** bitcoin/generator.go, bitcoin/header.go, bitcoin/submission.go: a block from template to submission. */
module Block {
  import opened Base
  import opened Encoding
  import opened Wire
  import opened Coinbase
  import opened AuxTree
  import Hex
  import Merkle

  datatype Transaction = Transaction(data: string, id: string)

  datatype Template = Template(
    version: nat,
    prevBlockHash: string,
    height: nat,
    coinBaseValue: nat,
    defaultWitnessCommitment: string,
    bits: string,
    target: string,
    transactions: seq<Transaction>,
    currentTime: nat,
    mimbleWimble: string,
    auxBlocks: seq<AuxBlock>)
  {
    /** Go's uint fields are 64 bits wide. */
    predicate Fits() {
      && version < U64 && height < U64 && coinBaseValue < U64 && currentTime < U64
      && |defaultWitnessCommitment| < U64 && |transactions| + 1 < U64
    }

    function Ids(): seq<string> {
      seq(|transactions|, i requires 0 <= i < |transactions| => transactions[i].id)
    }

    function PayTo(poolKey: string): Payee {
      Payee(defaultWitnessCommitment, coinBaseValue, poolKey)
    }
  }

  /** The stratum job as the miner receives it. */
  datatype Work = Work(
    jobId: string,
    prevHash: string,
    coinbaseInitial: string,
    coinbaseFinal: string,
    merkleSteps: seq<string>,
    version: string,
    bits: string,
    time: string)

  /** The chains `GetChain` knows; any other name makes it panic. */
  predicate KnownChain(name: string) {
    name in {"dogecoin", "litecoin", "bellscoin", "luckycoin", "pepecoin", "vergecoin"}
  }

  const RESERVED: nat := 8

  // ---------- header text ----------

  /** `blockHeader`: each field decodes or the whole fails; all but the root are byte-reversed. */
  function HeaderText(version: nat, previous: string, root: string, nTime: string, bits: string, nonce: string)
    : Result<string>
  {
    if !(Hex.IsHex(previous) && Hex.IsHex(root) && Hex.IsHex(nTime) && Hex.IsHex(bits) && Hex.IsHex(nonce)) then
      Err(MalformedHex)
    else Ok(Hex.Encode(
      LE(version, 4) + Reversed(Hex.Bytes(previous)) + Hex.Bytes(root) + Reversed(Hex.Bytes(nTime))
        + Reversed(Hex.Bytes(bits)) + Reversed(Hex.Bytes(nonce))))
  }

  method BlockHeader(version: nat, previous: string, root: string, nTime: string, bits: string, nonce: string)
    returns (r: Result<string>)
    ensures r == HeaderText(version, previous, root, nTime, bits, nonce)
  {
    if !Hex.IsHex(previous) || !Hex.IsHex(root) || !Hex.IsHex(nTime) || !Hex.IsHex(bits) || !Hex.IsHex(nonce) {
      return Err(MalformedHex);
    }
    var header := LE(version, 4);
    var part := Reverse(Hex.Bytes(previous));
    header := header + part;
    header := header + Hex.Bytes(root);
    part := Reverse(Hex.Bytes(nTime));
    header := header + part;
    part := Reverse(Hex.Bytes(bits));
    header := header + part;
    part := Reverse(Hex.Bytes(nonce));
    header := header + part;
    return Ok(Hex.Encode(header));
  }

  predicate Sized(s: string, n: nat) {
    Hex.IsHex(s) && |s| == 2 * n
  }

  /** The value of a field written most significant byte first. */
  function BigEndian(s: string): nat
    requires Hex.IsHex(s)
  {
    FromLE(Reversed(Hex.Bytes(s)))
  }

  lemma {:induction false} DigitsAreBytes(s: string)
    requires Hex.IsHex(s)
    ensures Hex.AllDigits(s) && Hex.Digits(s) == BigEndian(s)
    decreases |s|
  {
    if s != "" {
      var n := |s| - 2;
      var front, last := s[..n], s[n..];
      TakeDrop(s, n);
      Hex.DecodeConcat(front, last);
      DigitsAreBytes(front);
      assert Hex.Bytes(last) == [Hex.DecodedByte(last, 0)];
      ReversedAppend(Hex.Bytes(front), Hex.DecodedByte(last, 0));
      HeadTail(Hex.DecodedByte(last, 0), Reversed(Hex.Bytes(front)));
      assert s[..|s| - 1][..n] == front;
      assert Hex.Digits(s[..|s| - 1]) == 16 * Hex.Digits(front) + Hex.DigitValue(s[n]).value;
    }
  }

  lemma ReversedAppend<T>(s: seq<T>, x: T)
    ensures Reversed(s + [x]) == [x] + Reversed(s)
  {
  }

  /** Header fields of the right size make the 80 bytes of a standard header, the version cut to 32 bits. */
  lemma HeaderTextIsHeader(version: nat, previous: string, root: Bytes, nTime: string, bits: string, nonce: string)
    requires Sized(previous, 32) && |root| == 32 && Sized(nTime, 4) && Sized(bits, 4) && Sized(nonce, 4)
    ensures var header := Header(version % U32, Reversed(Hex.Bytes(previous)), root,
        BigEndian(nTime), BigEndian(bits), BigEndian(nonce));
      var text := HeaderText(version, previous, Hex.Encode(root), nTime, bits, nonce);
      && header.Fits() && text.Ok? && |text.value| == 160
      && Hex.IsHex(text.value)
      && Hex.Bytes(text.value) == PutHeader(header, [])
      && ReadHeader(Hex.Bytes(text.value)) == Some((header, []))
  {
    Hex.DecodeEncode(root);
    Widths();
    FieldBack(nTime);
    FieldBack(bits);
    FieldBack(nonce);
    VersionCut(version);
    var a, b, d, e, f := LE(version, 4), Reversed(Hex.Bytes(previous)),
      Reversed(Hex.Bytes(nTime)), Reversed(Hex.Bytes(bits)), Reversed(Hex.Bytes(nonce));
    ConcatEmpty(f);
    ConcatAssoc(a + b + root + d, e, f);
    ConcatAssoc(a + b + root, d, e + f);
    ConcatAssoc(a + b, root, d + (e + f));
    ConcatAssoc(a, b, root + (d + (e + f)));
    Hex.DecodeEncode(a + b + root + d + e + f);
    var header := Header(version % U32, b, root, FromLE(d), FromLE(e), FromLE(f));
    ReadHeaderBack(header, []);
  }

  lemma FieldBack(s: string)
    requires Sized(s, 4)
    ensures BigEndian(s) < U32 && LE(BigEndian(s), 4) == Reversed(Hex.Bytes(s))
  {
    Widths();
    LEOfFromLE(Reversed(Hex.Bytes(s)));
  }

  lemma VersionCut(version: nat)
    ensures LE(version % U32, 4) == LE(version, 4)
  {
    Widths();
    LELow(version % U32, version, 4);
  }

  // ---------- the block object ----------

  /** What `MakeHeader` writes: coinbase hash, root over the steps, header text. */
  function HeaderFor(h: HashFn, t: Template, steps: seq<string>, coinbase: string, nonce: string, nonceTime: string)
    : Result<string>
  {
    if !Hex.IsHex(coinbase) then Err(MalformedHex)
    else
      var root :- Merkle.HeaderMerkleRoot(h, Hex.Encode(h(Hex.Bytes(coinbase))), steps);
      HeaderText(t.version, t.prevBlockHash, root, nonceTime, t.bits, nonce)
  }

  class BitcoinBlock {
    var template: Option<Template>
    var reversePrevBlockHash: string
    var coinbaseInitial: string
    var coinbaseFinal: string
    var merkleSteps: seq<string>
    var coinbase: string
    var header: string
    var hash: string

    constructor ForJob(t: Template, prevHash: string, initial: string, final: string, steps: seq<string>)
      ensures template == Some(t) && reversePrevBlockHash == prevHash
      ensures coinbaseInitial == initial && coinbaseFinal == final && merkleSteps == steps
      ensures coinbase == "" && header == "" && hash == ""
    {
      template, reversePrevBlockHash, coinbaseInitial, coinbaseFinal := Some(t), prevHash, initial, final;
      merkleSteps, coinbase, header, hash := steps, "", "", "";
    }

    /** On every outcome past the template check the coinbase is rewritten; a header error blanks the header. */
    method MakeHeader(h: HashFn, extranonce: string, nonce: string, nonceTime: string) returns (r: Result<string>)
      modifies this`coinbase, this`header
      ensures template == None ==> r == Err(NoTemplate) && coinbase == old(coinbase) && header == old(header)
      ensures template.Some? ==> coinbase == coinbaseInitial + extranonce + coinbaseFinal
      ensures template.Some? ==> r == HeaderFor(h, template.value, merkleSteps, coinbase, nonce, nonceTime)
      ensures r.Ok? ==> header == r.value
      ensures r.Err? && template.Some? ==>
        header == if Hex.IsHex(coinbase) && Hex.AllHex(merkleSteps) then "" else old(header)
    {
      if template == None {
        return Err(NoTemplate);
      }
      coinbase := coinbaseInitial + extranonce + coinbaseFinal;
      if !Hex.IsHex(coinbase) {
        return Err(MalformedHex);
      }
      var coinbaseHashed := Hex.Encode(h(Hex.Bytes(coinbase)));
      var merkleRoot := Merkle.MakeHeaderMerkleRoot(h, coinbaseHashed, merkleSteps);
      if merkleRoot.Err? {
        return Err(merkleRoot.why);
      }
      var t := template.value;
      r := BlockHeader(t.version, t.prevBlockHash, merkleRoot.value, nonceTime, t.bits, nonce);
      header := if r.Ok? then r.value else "";
    }

    /** The digest as a number, and its text most significant byte first in `hash`. */
    method Sum(scrypt: HashFn) returns (r: Result<nat>)
      modifies this`hash
      ensures header == "" ==> r == Err(NoHeader) && hash == old(hash)
      ensures header != "" && !Hex.IsHex(header) ==> r == Err(MalformedHex) && hash == old(hash)
      ensures header != "" && Hex.IsHex(header) ==>
        r == Ok(FromLE(scrypt(Hex.Bytes(header)))) && Sized(hash, 32)
        && Hex.Bytes(hash) == Reversed(scrypt(Hex.Bytes(header)))
    {
      if header == "" {
        return Err(NoHeader);
      }
      if !Hex.IsHex(header) {
        return Err(MalformedHex);
      }
      var digest := scrypt(Hex.Bytes(header));
      Hex.DecodeEncode(digest);
      PairsReversedDecodes(Hex.Encode(digest));
      var reversed := ReverseHexBytes(Hex.Encode(digest));
      hash := reversed.value;
      ReversedInvolution(digest);
      return Ok(FromLE(Reversed(Hex.Bytes(hash))));
    }

    /** `createSubmissionHex` and `Submit`: header, count, coinbase, transaction data, then any extension block. */
    method Submit() returns (r: Result<string>)
      requires template.Some? ==> template.value.Fits()
      ensures header == "" ==> r == Err(NoHeader)
      ensures header != "" && template == None ==> r == Err(Panic)
      ensures header != "" && template.Some? ==>
        r == SubmissionText(header, coinbase, template.value)
    {
      if header == "" {
        return Err(NoHeader);
      }
      if template == None {
        return Err(Panic);
      }
      var t := template.value;
      var count := VarUint(|t.transactions| + 1);
      if count.Err? {
        return Err(Panic);
      }
      var buffer := "";
      for i := 0 to |t.transactions|
        invariant buffer == Flatten(DataTexts(t.transactions)[..i])
      {
        TakeNext(DataTexts(t.transactions), i);
        FlattenAppend(DataTexts(t.transactions)[..i], t.transactions[i].data);
        buffer := buffer + t.transactions[i].data;
      }
      TakeAll(DataTexts(t.transactions));
      var submission := header + count.value + coinbase + buffer;
      if t.mimbleWimble != "" {
        submission := submission + "01" + t.mimbleWimble;
      }
      return Ok(submission);
    }
  }

  function DataTexts(txs: seq<Transaction>): (texts: seq<string>)
    ensures |texts| == |txs|
  {
    seq(|txs|, i requires 0 <= i < |txs| => txs[i].data)
  }

  function SubmissionText(header: string, coinbase: string, t: Template): Result<string> {
    var count := VarUint(|t.transactions| + 1);
    if count.Err? then Err(Panic)
    else
      var body := header + count.value + coinbase + Flatten(DataTexts(t.transactions));
      Ok(if t.mimbleWimble == "" then body else body + "01" + t.mimbleWimble)
  }

  // ---------- building a job ----------

  /** When neither half of the coinbase panics. */
  predicate CoinbaseBuilds(t: Template, arbitrary: Bytes, poolKey: string)
    requires t.Fits()
  {
    && t.height < U63
    && |arbitrary| + 1 + RESERVED + |EncodedNumber(t.height).value| != 253
    && t.PayTo(poolKey).Payable()
  }

  /** Why a template does not become a job; the first failing part decides. */
  function WhyNoJob(t: Template, arbitrary: Bytes, poolKey: string): Failure
    requires t.Fits()
  {
    if |t.prevBlockHash| % 8 != 0 then OddLength
    else if !CoinbaseBuilds(t, arbitrary, poolKey) then Panic
    else MalformedHex
  }

  /** Which templates become a job at all: what the error returns and the panics on the way leave over. */
  predicate Workable(t: Template, arbitrary: Bytes, poolKey: string)
    requires t.Fits()
  {
    && |t.prevBlockHash| % 8 == 0
    && CoinbaseBuilds(t, arbitrary, poolKey)
    && (t.transactions == [] || Hex.AllHex(Merkle.ReversedIds(t.Ids())[1..]))
  }

  /** The parts of a job, as the block object stores them. */
  ghost predicate JobParts(h: HashFn, keyHash: Bytes -> KeyHash, t: Template, arbitrary: Bytes, poolKey: string,
    initial: string, final: string, steps: seq<string>)
    requires t.Fits() && |poolKey| < U64
  {
    && Workable(t, arbitrary, poolKey)
    && InitialText(t.height, |arbitrary| + 1 + RESERVED) == Ok(initial)
    && final == Hex.Encode([|arbitrary| % 256] + arbitrary) + FinalText(keyHash, t.PayTo(poolKey))
    && (Hex.IsHex(t.defaultWitnessCommitment) ==>
        Hex.IsHex(final) && Hex.Bytes(final) == FinalBytes(arbitrary, Outputs(keyHash, t.PayTo(poolKey))))
    && steps == Merkle.StepTexts(h, Merkle.ReversedIds(t.Ids()))
  }

  datatype JobTexts = JobTexts(prevHash: string, initial: string, final: string, steps: seq<string>)

  /** The texts of a job in the order the source builds them, so that the first failing part decides. */
  method BuildJob(h: HashFn, keyHash: Bytes -> KeyHash, t: Template, arbitrary: Bytes, poolKey: string)
    returns (r: Result<JobTexts>)
    requires t.Fits() && |poolKey| < U64 && |arbitrary| + 18 < U64
    ensures r.Ok? <==> Workable(t, arbitrary, poolKey)
    ensures r.Err? ==> r.why == WhyNoJob(t, arbitrary, poolKey)
    ensures r.Ok? ==> r.value.prevHash == WordsReversed(t.prevBlockHash)
    ensures r.Ok? ==> JobParts(h, keyHash, t, arbitrary, poolKey, r.value.initial, r.value.final, r.value.steps)
  {
    hide InitialText, FinalText, EncodedNumber, Payee.Payable, Merkle.StepTexts, PutTxTail, PutOutputs, Outputs,
      WordsReversed, Hex.IsHex, Hex.Bytes, Hex.Encode, LE;
    var reversed := ReverseHex4Bytes(t.prevBlockHash);
    if reversed.Err? {
      return Err(reversed.why);
    }
    var arbitraryBytes: Bytes := [|arbitrary| % 256] + arbitrary;
    InitialTextBytes(t.height, |arbitraryBytes| + RESERVED);
    var initial := CoinbaseInitial(t.height, |arbitraryBytes| + RESERVED);
    if initial.Err? {
      return Err(Panic);
    }
    var final := CoinbaseFinal(keyHash, t.PayTo(poolKey));
    if final.Err? {
      return Err(Panic);
    }
    Hex.DecodeEncode(arbitraryBytes);
    Hex.DecodeConcat(Hex.Encode(arbitraryBytes), final.value);
    var steps := Merkle.MerkleSteps(h, t.Ids());
    if steps.Err? {
      return Err(steps.why);
    }
    return Ok(JobTexts(reversed.value, initial.value, Hex.Encode(arbitraryBytes) + final.value, steps.value));
  }

  /** The package-level job counter. */
  class Generator {
    var jobCounter: nat

    constructor ()
      ensures jobCounter == 0
    {
      jobCounter := 0;
    }

    method GenerateWork(h: HashFn, keyHash: Bytes -> KeyHash, template: Option<Template>, chainName: string,
      arbitrary: Bytes, poolKey: string)
      returns (r: Result<(BitcoinBlock, Work)>)
      requires template.Some? ==> template.value.Fits()
      requires |poolKey| < U64 && |arbitrary| + 18 < U64
      modifies this
      ensures r.Ok? <==>
        && template.Some? && Workable(template.value, arbitrary, poolKey)
        && (chainName == "dogecoin" || chainName == "litecoin" || chainName == "bellscoin"
            || chainName == "luckycoin" || chainName == "pepecoin" || chainName == "vergecoin")
      ensures r.Err? ==>
        r.why == if template == None then NoTemplate
                 else if !KnownChain(chainName) then Panic
                 else WhyNoJob(template.value, arbitrary, poolKey)
      ensures jobCounter == old(jobCounter) + if r.Ok? then 1 else 0
      ensures r.Ok? ==>
        var t, block, work := template.value, r.value.0, r.value.1;
        && fresh(block)
        && block.template == template && block.header == "" && block.hash == ""
        && block.reversePrevBlockHash == WordsReversed(t.prevBlockHash)
        && JobParts(h, keyHash, t, arbitrary, poolKey, block.coinbaseInitial, block.coinbaseFinal, block.merkleSteps)
        && work == Work(Hex.PaddedText(old(jobCounter), 8), block.reversePrevBlockHash, block.coinbaseInitial,
                        block.coinbaseFinal, block.merkleSteps, Hex.PaddedText(t.version, 8), t.bits,
                        Hex.DigitText(t.currentTime))
    {
      if template == None {
        return Err(NoTemplate);
      }
      if !KnownChain(chainName) {
        return Err(Panic);
      }
      var t := template.value;
      var job := BuildJob(h, keyHash, t, arbitrary, poolKey);
      if job.Err? {
        return Err(job.why);
      }
      var JobTexts(prevHash, initial, final, steps) := job.value;
      var block := new BitcoinBlock.ForJob(t, prevHash, initial, final, steps);
      var work := Work(Hex.PaddedText(jobCounter, 8), prevHash, initial, final, steps, Hex.PaddedText(t.version, 8),
        t.bits, Hex.DigitText(t.currentTime));
      jobCounter := jobCounter + 1;
      return Ok((block, work));
    }
  }

  // ---------- what the header commits to ----------

  /** Field sizes a well-formed template has. */
  predicate WellFormed(t: Template) {
    && t.Fits()
    && Hex.IsHex(t.defaultWitnessCommitment)
    && Sized(t.prevBlockHash, 32) && Sized(t.bits, 4)
    && Hex.AllHex(Merkle.ReversedIds(t.Ids()))
  }

  /** What a miner sends back. */
  datatype Found = Found(extranonce: string, nonce: string, time: string) {
    predicate WellSized() {
      Sized(extranonce, RESERVED) && Sized(nonce, 4) && Sized(time, 4)
    }
  }

  /** The coinbase transaction of a job once the extranonce is known. */
  function MinedCoinbase(keyHash: Bytes -> KeyHash, t: Template, arbitrary: Bytes, poolKey: string, f: Found): Tx
    requires WellFormed(t) && t.height < U63 && |poolKey| < U64 && Hex.IsHex(poolKey) && f.WellSized()
  {
    CoinbaseTx(CoinbaseScript(t.height, Hex.Bytes(f.extranonce), arbitrary), Outputs(keyHash, t.PayTo(poolKey)))
  }

  /** The header over the full Merkle tree of that coinbase and the template's transactions. */
  function MinedHeader(h: HashFn, t: Template, tx: Tx, f: Found): Header
    requires WellFormed(t) && f.WellSized() && tx.Fits()
  {
    Header(t.version % U32, Reversed(Hex.Bytes(t.prevBlockHash)),
      Merkle.Root(h, [h(PutTx(tx, []))] + Hex.DecodeAll(Merkle.ReversedIds(t.Ids()))),
      BigEndian(f.time), BigEndian(t.bits), BigEndian(f.nonce))
  }

  /** Root of at least one 32-byte leaf is 32 bytes long. */
  lemma {:induction false} RootSize(h: HashFn, level: seq<Bytes>)
    requires level != [] && (|level| == 1 ==> |level[0]| == 32)
    ensures |Merkle.Root(h, level)| == 32
    decreases |level|
  {
    if |level| > 1 {
      RootSize(h, Merkle.PairUp(h, level));
    }
  }

  /** What a mined coinbase spends, output by output. */
  lemma MinedOutputs(keyHash: Bytes -> KeyHash, t: Template, arbitrary: Bytes, poolKey: string, f: Found)
    requires WellFormed(t) && t.height < U63 && |poolKey| < U64 && Hex.IsHex(poolKey) && f.WellSized()
    ensures var outs := MinedCoinbase(keyHash, t, arbitrary, poolKey, f).outputs;
      var first := |outs| - 3;
      && |outs| == (if t.defaultWitnessCommitment == "" then 3 else 4)
      && outs[first]
        == TxOut(t.coinBaseValue, [0x76, 0xa9, 0x14] + keyHash(Hex.Bytes(poolKey)) + [0x88, 0xac])
      && outs[first + 1] == TxOut(t.coinBaseValue, Hex.Bytes(poolKey))
      && outs[first + 2] == TxOut(t.coinBaseValue, [0xaa, 0xaa])
      && (first == 1 ==> outs[0] == TxOut(0, Hex.Bytes(t.defaultWitnessCommitment)))
  {
  }

  /**
   * From job to header: for every well-formed template and every well-sized submission, the coinbase text is one
   * transaction and the header text is the 80-byte header whose root covers it and all template transactions.
   */
  lemma HeaderCommits(h: HashFn, keyHash: Bytes -> KeyHash, t: Template, arbitrary: Bytes, poolKey: string,
    initial: string, final: string, steps: seq<string>, f: Found)
    requires WellFormed(t) && f.WellSized() && |poolKey| < U64 && |arbitrary| + 18 < U64
    requires JobParts(h, keyHash, t, arbitrary, poolKey, initial, final, steps)
    ensures var coinbase := initial + f.extranonce + final;
      var tx := MinedCoinbase(keyHash, t, arbitrary, poolKey, f);
      var made := HeaderFor(h, t, steps, coinbase, f.nonce, f.time);
      && tx.Fits() && Hex.IsHex(coinbase) && Hex.Bytes(coinbase) == PutTx(tx, [])
      && made.Ok? && |made.value| == 160 && Hex.IsHex(made.value)
      && MinedHeader(h, t, tx, f).Fits()
      && Hex.Bytes(made.value) == PutHeader(MinedHeader(h, t, tx, f), [])
  {
    hide Hex.IsHex, Hex.Bytes, Hex.Encode, PutTx, PutHeader, Merkle.Root, Merkle.FoldBranch, EncodedNumber;
    var outs := Outputs(keyHash, t.PayTo(poolKey));
    CoinbaseIsOneTransaction(t.height, arbitrary, f.extranonce, initial, final, outs);
    var tx := MinedCoinbase(keyHash, t, arbitrary, poolKey, f);
    var digest := h(PutTx(tx, []));
    var ids := Merkle.ReversedIds(t.Ids());
    Hex.DecodeEncode(digest);
    Merkle.StratumRefinement(h, Hex.Encode(digest), ids);
    var leaves := [digest] + Hex.DecodeAll(ids);
    RootSize(h, leaves);
    HeaderTextIsHeader(t.version, t.prevBlockHash, Merkle.Root(h, leaves), f.time, t.bits, f.nonce);
  }

  /** The job's version field has the eight digits of a header field exactly when the version fits 32 bits. */
  lemma JobVersionAgrees(version: nat)
    ensures |Hex.PaddedText(version, 8)| == 8 <==> version < U32
    ensures version < U32 ==>
      Sized(Hex.PaddedText(version, 8), 4) && Reversed(Hex.Bytes(Hex.PaddedText(version, 8))) == LE(version, 4)
  {
    assert Hex.Pow16(8) == U32;
    Hex.DigitCount(version, 8);
    if version < U32 {
      var s := Hex.PaddedText(version, 8);
      DigitsAreBytes(s);
      FieldBack(s);
    }
  }

  /** A time in the job names the header field of that time exactly when it has eight digits of its own. */
  lemma JobTimeAgrees(time: nat)
    ensures |Hex.DigitText(time)| == 8 <==> Hex.Pow16(7) <= time < U32
    ensures |Hex.DigitText(time)| == 8 ==> Sized(Hex.DigitText(time), 4) && BigEndian(Hex.DigitText(time)) == time
  {
    assert Hex.Pow16(8) == U32;
    Hex.DigitCount(time, 8);
    Hex.DigitCount(time, 7);
    if |Hex.DigitText(time)| == 8 {
      DigitsAreBytes(Hex.DigitText(time));
    }
  }

  /**
   * What a miner builds from the job alone, reading the previous hash word by word and the version backwards, is the
   * pool's header, for every version a header can hold.
   */
  lemma MinerBuildsSameHeader(t: Template, root: Bytes, f: Found)
    requires Sized(t.prevBlockHash, 32) && Sized(t.bits, 4) && f.WellSized() && |root| == 32
    ensures var previous, version := WordBytesSwapped(WordsReversed(t.prevBlockHash)), Hex.PaddedText(t.version, 8);
      && Hex.IsHex(previous)
      && HeaderText(t.version, t.prevBlockHash, Hex.Encode(root), f.time, t.bits, f.nonce)
        == Ok(Hex.Encode(LE(t.version, 4) + Hex.Bytes(previous) + root + Reversed(Hex.Bytes(f.time))
          + Reversed(Hex.Bytes(t.bits)) + Reversed(Hex.Bytes(f.nonce))))
      && (Sized(version, 4) <==> t.version < U32)
      && (t.version < U32 ==> Reversed(Hex.Bytes(version)) == LE(t.version, 4))
  {
    JobVersionAgrees(t.version);
    JobPrevHashAgrees(t.prevBlockHash);
    PairsReversedDecodes(t.prevBlockHash);
    Hex.DecodeEncode(root);
  }

  // ---------- what is submitted ----------

  lemma {:induction false} DecodeFlatten(texts: seq<string>)
    requires Hex.AllHex(texts)
    ensures Hex.IsHex(Flatten(texts)) && Hex.Bytes(Flatten(texts)) == Flatten(Hex.DecodeAll(texts))
  {
    if texts == [] {
      assert Hex.Bytes("") == [];
    } else {
      DecodeFlatten(texts[1..]);
      Hex.DecodeConcat(texts[0], Flatten(texts[1..]));
    }
  }

  /** The template's transaction data is the serialized form of these transactions, whatever form each has. */
  predicate DataOf(t: Template, txs: seq<BlockTx>) {
    && TxsFit(txs)
    && |txs| == |t.transactions|
    && forall i :: 0 <= i < |txs| ==>
      Hex.IsHex(t.transactions[i].data) && Hex.Bytes(t.transactions[i].data) == PutBlockTx(txs[i], [])
  }

  lemma {:induction false} FlattenTxs(texts: seq<string>, txs: seq<BlockTx>)
    requires TxsFit(txs) && |texts| == |txs| && Hex.AllHex(texts)
    requires forall i :: 0 <= i < |txs| ==> Hex.Bytes(texts[i]) == PutBlockTx(txs[i], [])
    ensures Flatten(Hex.DecodeAll(texts)) == PutTxs(txs, [])
  {
    if txs != [] {
      FlattenTxs(texts[1..], txs[1..]);
      var rest := PutTxs(txs[1..], []);
      ConcatEmpty(rest);
      PutBlockTxPrepends(txs[0], [], rest);
    }
  }

  lemma FlattenTexts(t: Template, txs: seq<BlockTx>)
    requires DataOf(t, txs)
    ensures var text := Flatten(DataTexts(t.transactions));
      Hex.IsHex(text) && Hex.Bytes(text) == PutTxs(txs, [])
  {
    var texts := DataTexts(t.transactions);
    DecodeFlatten(texts);
    FlattenTxs(texts, txs);
  }

  /** What `Submit` appends for an extension block: a byte that says there is one, then the block itself. */
  function ExtensionText(t: Template): string {
    if t.mimbleWimble == "" then "" else "01" + t.mimbleWimble
  }

  function ExtensionBytes(t: Template): Bytes
    requires Hex.IsHex(t.mimbleWimble)
  {
    if t.mimbleWimble == "" then [] else [1] + Hex.Bytes(t.mimbleWimble)
  }

  lemma ExtensionDecodes(t: Template)
    ensures |ExtensionText(t)| % 2 == |t.mimbleWimble| % 2
    ensures Hex.IsHex(ExtensionText(t)) <==> Hex.IsHex(t.mimbleWimble)
    ensures Hex.IsHex(t.mimbleWimble) ==> Hex.Bytes(ExtensionText(t)) == ExtensionBytes(t)
  {
    assert Hex.DigitValue('0') == Some(0) && Hex.DigitValue('1') == Some(1);
    assert Hex.IsHex("01") && Hex.Bytes("01") == [1];
    assert Hex.Bytes("") == [];
    Hex.DecodeConcat("01", t.mimbleWimble);
  }

  lemma JoinFive(a: string, b: string, c: string, d: string, e: string, w: Bytes, x: Bytes, y: Bytes, z: Bytes)
    requires Hex.IsHex(a) && Hex.IsHex(b) && Hex.IsHex(c) && Hex.IsHex(d)
    requires Hex.Bytes(a) == w && Hex.Bytes(b) == x && Hex.Bytes(c) == y && Hex.Bytes(d) == z
    ensures Hex.IsHex(a + b + c + d + e) <==> Hex.IsHex(e)
    ensures Hex.IsHex(e) ==> Hex.Bytes(a + b + c + d + e) == (((w + x) + y) + z) + Hex.Bytes(e)
  {
    Hex.DecodeFour(a, b, c, d);
    Hex.DecodeConcat(a + b + c + d, e);
  }

  lemma SubmissionParts(t: Template, headerText: string, coinbase: string)
    requires t.Fits()
    ensures SubmissionText(headerText, coinbase, t)
      == if |t.transactions| == 252 then Err(Panic)
         else Ok(headerText + Hex.Encode(CompactSize(|t.transactions| + 1)) + coinbase
                 + Flatten(DataTexts(t.transactions)) + ExtensionText(t))
  {
    VarUintIsCompactSize(|t.transactions| + 1);
    if |t.transactions| != 252 {
      var body := headerText + Hex.Encode(CompactSize(|t.transactions| + 1)) + coinbase
        + Flatten(DataTexts(t.transactions));
      ConcatEmpty(body);
      ConcatAssoc(body, "01", t.mimbleWimble);
    }
  }

  lemma SubmissionBytes(t: Template, header: Header, headerText: string, tx: Tx, coinbase: string, txs: seq<BlockTx>)
    requires t.Fits() && DataOf(t, txs) && |txs| != 252
    requires Hex.IsHex(headerText) && Hex.Bytes(headerText) == PutHeader(header, [])
    requires tx.Fits() && Hex.IsHex(coinbase) && Hex.Bytes(coinbase) == PutTx(tx, [])
    ensures SubmissionText(headerText, coinbase, t).Ok?
    ensures var text := SubmissionText(headerText, coinbase, t).value;
      && (Hex.IsHex(text) <==> Hex.IsHex(t.mimbleWimble))
      && (Hex.IsHex(text) ==>
          Hex.Bytes(text)
            == (((PutHeader(header, []) + CompactSize(|txs| + 1)) + PutTx(tx, [])) + PutTxs(txs, []))
               + ExtensionBytes(t))
  {
    hide PutTx, PutTxs, PutHeader, CompactSize, Hex.IsHex, Hex.Bytes, Hex.Encode, SubmissionText, Flatten, DataTexts,
      ExtensionText, ExtensionBytes;
    assert |txs| == |t.transactions|;
    hide DataOf;
    var count, data := Hex.Encode(CompactSize(|t.transactions| + 1)), Flatten(DataTexts(t.transactions));
    FlattenTexts(t, txs);
    SubmissionParts(t, headerText, coinbase);
    ExtensionDecodes(t);
    Hex.DecodeEncode(CompactSize(|t.transactions| + 1));
    JoinFive(headerText, count, coinbase, data, ExtensionText(t),
      PutHeader(header, []), CompactSize(|txs| + 1), PutTx(tx, []), PutTxs(txs, []));
  }

  /**
   * The submitted text is one block: the header, then the coinbase and all template transactions in order, and behind
   * them exactly the template's extension block, if it has one.  It exists exactly when the transaction count is not
   * 253, and is hexadecimal exactly when the extension block is.
   */
  lemma SubmissionIsBlock(t: Template, header: Header, headerText: string, tx: Tx, coinbase: string, txs: seq<BlockTx>)
    requires t.Fits() && DataOf(t, txs)
    requires header.Fits() && Hex.IsHex(headerText) && Hex.Bytes(headerText) == PutHeader(header, [])
    requires tx.Fits() && tx.inputs != [] && Hex.IsHex(coinbase) && Hex.Bytes(coinbase) == PutTx(tx, [])
    ensures SubmissionText(headerText, coinbase, t).Ok? <==> |txs| != 252
    ensures |txs| != 252 ==>
      var text := SubmissionText(headerText, coinbase, t).value;
      && (Hex.IsHex(text) <==> Hex.IsHex(t.mimbleWimble))
      && (Hex.IsHex(text) ==>
          ReadBlock(Hex.Bytes(text)) == Some(((header, [BlockTx(tx, Plain)] + txs), ExtensionBytes(t))))
  {
    hide PutTx, PutTxs, PutHeader, CompactSize, Hex.IsHex, Hex.Bytes, SubmissionText;
    SubmissionParts(t, headerText, coinbase);
    if |txs| != 252 {
      SubmissionBytes(t, header, headerText, tx, coinbase, txs);
      TxsFitCons(BlockTx(tx, Plain), txs);
      if Hex.IsHex(t.mimbleWimble) {
        PutBlockParts(header, BlockTx(tx, Plain), txs, ExtensionBytes(t));
        ReadBlockBack(header, [BlockTx(tx, Plain)] + txs, ExtensionBytes(t));
      }
    }
  }

  lemma TxsFitCons(tx: BlockTx, txs: seq<BlockTx>)
    requires tx.Fits() && TxsFit(txs)
    ensures TxsFit([tx] + txs)
  {
  }

  /** A transaction's id is the digest of its plain form, whatever form it stands in. */
  predicate IdsAreDigests(h: HashFn, t: Template, txs: seq<BlockTx>)
    requires DataOf(t, txs)
  {
    forall i :: 0 <= i < |txs| ==>
      Hex.IsHex(t.transactions[i].id) && Reversed(Hex.Bytes(t.transactions[i].id)) == h(PutTx(txs[i].tx, []))
  }

  lemma IdsDecode(h: HashFn, t: Template, txs: seq<BlockTx>)
    requires DataOf(t, txs) && IdsAreDigests(h, t, txs) && Hex.AllHex(Merkle.ReversedIds(t.Ids()))
    ensures forall i :: 0 <= i < |txs| ==> Hex.DecodeAll(Merkle.ReversedIds(t.Ids()))[i] == h(PutTx(txs[i].tx, []))
  {
    hide PutTx, PutBlockTx, Hex.IsHex, Hex.Bytes, PairsReversed;
    forall i | 0 <= i < |txs| ensures Hex.DecodeAll(Merkle.ReversedIds(t.Ids()))[i] == h(PutTx(txs[i].tx, [])) {
      Merkle.IdDecodes(t.Ids(), i);
    }
  }

  function Digests(h: HashFn, txs: seq<BlockTx>): (ds: seq<Bytes>)
    requires TxsFit(txs)
    ensures |ds| == |txs|
  {
    if txs == [] then [] else [h(PutTx(txs[0].tx, []))] + Digests(h, txs[1..])
  }

  /** The header of a submission commits to exactly the transactions the submission carries. */
  lemma HeaderRootCoversBlock(h: HashFn, t: Template, tx: Tx, txs: seq<BlockTx>, f: Found)
    requires WellFormed(t) && f.WellSized() && tx.Fits() && tx.inputs != []
    requires DataOf(t, txs) && IdsAreDigests(h, t, txs)
    ensures TxsFit([BlockTx(tx, Plain)] + txs)
    ensures MinedHeader(h, t, tx, f).merkleRoot == Merkle.Root(h, Digests(h, [BlockTx(tx, Plain)] + txs))
  {
    IdsDecode(h, t, txs);
    SameDigests(h, Hex.DecodeAll(Merkle.ReversedIds(t.Ids())), txs);
    DigestsCons(h, BlockTx(tx, Plain), txs);
  }

  lemma {:induction false} SameDigests(h: HashFn, ds: seq<Bytes>, txs: seq<BlockTx>)
    requires TxsFit(txs) && |ds| == |txs| && forall i :: 0 <= i < |txs| ==> ds[i] == h(PutTx(txs[i].tx, []))
    ensures ds == Digests(h, txs)
  {
    if txs != [] {
      ConsBack(ds);
      SameDigests(h, ds[1..], txs[1..]);
    }
  }

  lemma DigestsCons(h: HashFn, tx: BlockTx, txs: seq<BlockTx>)
    requires tx.Fits() && TxsFit(txs)
    ensures TxsFit([tx] + txs) && Digests(h, [tx] + txs) == [h(PutTx(tx.tx, []))] + Digests(h, txs)
  {
    TxsFitCons(tx, txs);
    HeadTail(tx, txs);
  }

  /** What the network reads out of a submission, if it reads at all. */
  function ReadSubmission(text: Result<string>): Option<((Header, seq<BlockTx>), Bytes)> {
    if text.Ok? && Hex.IsHex(text.value) then ReadBlock(Hex.Bytes(text.value)) else None
  }

  /**
   * From job to submitted block: for every job of a well-formed template and every well-sized share, the submission
   * reads back exactly when the block has not 253 transactions and its extension block is hexadecimal.  It is then the
   * mined coinbase and all template transactions under one header whose root is the full root over their digests,
   * and the extension block behind them.
   */
  lemma SubmittedBlockIsCommitted(h: HashFn, keyHash: Bytes -> KeyHash, t: Template, arbitrary: Bytes, poolKey: string,
    initial: string, final: string, steps: seq<string>, f: Found, txs: seq<BlockTx>)
    requires WellFormed(t) && f.WellSized() && |poolKey| < U64 && |arbitrary| + 18 < U64
    requires JobParts(h, keyHash, t, arbitrary, poolKey, initial, final, steps)
    requires DataOf(t, txs) && IdsAreDigests(h, t, txs)
    ensures var coinbase := initial + f.extranonce + final;
      var made := HeaderFor(h, t, steps, coinbase, f.nonce, f.time);
      && made.Ok?
      && var block := ReadSubmission(SubmissionText(made.value, coinbase, t));
      && (block.Some? <==> |txs| != 252 && Hex.IsHex(t.mimbleWimble))
      && (block.Some? ==>
          var ((header, all), rest) := block.value;
          && all == [BlockTx(MinedCoinbase(keyHash, t, arbitrary, poolKey, f), Plain)] + txs
          && TxsFit(all) && header.merkleRoot == Merkle.Root(h, Digests(h, all))
          && rest == ExtensionBytes(t))
  {
    hide Hex.IsHex, Hex.Bytes, Hex.Encode, PutTx, PutHeader, Merkle.Root, SubmissionText, ReadBlock, Digests, HeaderFor;
    HeaderCommits(h, keyHash, t, arbitrary, poolKey, initial, final, steps, f);
    var coinbase := initial + f.extranonce + final;
    var tx := MinedCoinbase(keyHash, t, arbitrary, poolKey, f);
    var text := HeaderFor(h, t, steps, coinbase, f.nonce, f.time).value;
    SubmissionIsBlock(t, MinedHeader(h, t, tx, f), text, tx, coinbase, txs);
    HeaderRootCoversBlock(h, t, tx, txs, f);
  }
}
