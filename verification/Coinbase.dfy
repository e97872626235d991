/** bitcoin/coinbase.go and bitcoin/transaction.go: height push, coinbase halves, outputs. */
module Coinbase {
  import opened Base
  import opened Encoding
  import opened Wire
  import Hex

  // ---------- the height push ----------

  const U63: nat := 0x8000_0000_0000_0000

  /** Little-endian digits with a spare sign bit: another byte is opened while the rest exceeds 0x7f. */
  function HeightDigits(n: nat): (d: Bytes)
    ensures d != [] && d[|d| - 1] <= 0x7f
    ensures FromLE(d) == n
  {
    if n <= 0x7f then [n] else [n % 256] + HeightDigits(n / 256)
  }

  function EncodedNumber(n: nat): Result<Bytes> {
    if 1 <= n <= 16 then Ok([0x50 + n])
    else if n >= U63 then Err(Panic)
    else
      EightDigits(n);
      Ok([|HeightDigits(n)|] + HeightDigits(n))
  }

  lemma DivBelow(n: nat, m: nat)
    ensures n < 256 * m <==> n / 256 < m
  {
  }

  /** At most k + 1 digits are needed exactly below 128 * 256^k. */
  lemma {:induction false} DigitCount(n: nat, k: nat)
    ensures |HeightDigits(n)| <= k + 1 <==> n < 128 * Pow256(k)
    decreases k
  {
    hide HeightDigits, Pow256, FromLE;
    DigitsOf(n);
    if k == 0 {
      PowerZero();
    } else if n > 0x7f {
      DigitCount(n / 256, k - 1);
      DivBelow(n, 128 * Pow256(k - 1));
      PowerNext(k);
    }
  }

  lemma DigitsOf(n: nat)
    ensures |HeightDigits(n)| == if n <= 0x7f then 1 else 1 + |HeightDigits(n / 256)|
  {
  }

  lemma PowerZero()
    ensures Pow256(0) == 1
  {
  }

  lemma PowerNext(k: nat)
    requires k > 0
    ensures 128 * Pow256(k) == 256 * (128 * Pow256(k - 1))
  {
  }

  /** The digits written so far and those of the rest are the height's; all of them fit nine bytes. */
  predicate DigitsLeft(height: nat, n: nat, done: Bytes) {
    done + HeightDigits(n) == HeightDigits(height) && |HeightDigits(height)| <= 9
  }

  lemma NextDigit(height: nat, n: nat, done: Bytes)
    requires n > 0x7f && DigitsLeft(height, n, done)
    ensures DigitsLeft(height, n / 256, done + [n % 256]) && |done| <= 7
  {
    ConcatAssoc(done, [n % 256], HeightDigits(n / 256));
    assert |HeightDigits(n)| == 1 + |HeightDigits(n / 256)|;
  }

  lemma LastDigit(height: nat, n: nat, done: Bytes)
    requires n <= 0x7f && DigitsLeft(height, n, done)
    ensures HeightDigits(height) == done + [n] && |done| <= 8
  {
  }

  /** The digits stand behind the byte kept free for their number. */
  predicate Stored(s: Bytes, done: Bytes) {
    |done| < |s| && forall j :: 0 <= j < |done| ==> s[j + 1] == done[j]
  }

  lemma StoreNext(s: Bytes, done: Bytes, digit: Byte)
    requires Stored(s, done) && |done| + 1 < |s|
    ensures Stored(s[|done| + 1 := digit], done + [digit])
  {
  }

  lemma Assembled(s: Bytes, done: Bytes, count: Byte)
    requires Stored(s, done)
    ensures s[0 := count][..|done| + 1] == [count] + done
  {
  }

  method EncodeNumber(height: nat) returns (r: Result<Bytes>)
    requires height < U64
    ensures r == EncodedNumber(height)
  {
    if 1 <= height <= 16 {
      return Ok([0x50 + height]);
    }
    hide HeightDigits, DigitsLeft, Stored, FromLE, Pow256;
    var n: nat := height;
    var buff := new Byte[9](_ => 0);
    var l := 1;
    ghost var done: Bytes := [];
    EightDigits(height);
    NothingWritten(height, buff[..]);
    while n > 0x7f
      invariant l == 1 + |done| && DigitsLeft(height, n, done) && Stored(buff[..], done)
      decreases n
    {
      NextDigit(height, n, done);
      var low: Byte := n % 256;
      StoreNext(buff[..], done, low);
      SetAt(buff, l, low);
      done := done + [low];
      l := l + 1;
      n := n / 256;
    }
    LastDigit(height, n, done);
    if l >= buff.Length {
      return Err(Panic);
    }
    var top: Byte := n;
    StoreNext(buff[..], done, top);
    Assembled(buff[..][l := top], done + [top], l);
    assert buff[..][0 := l][l := top] == buff[..][l := top][0 := l];
    SetAt(buff, 0, l);
    SetAt(buff, l, top);
    l := l + 1;
    return Ok(buff[..l]);
  }

  lemma NothingWritten(height: nat, s: Bytes)
    requires |HeightDigits(height)| <= 9 && s != []
    ensures DigitsLeft(height, height, []) && Stored(s, [])
  {
    ConcatEmpty(HeightDigits(height));
  }

  /** One byte of the buffer, with the rest untouched. */
  method SetAt(buff: array<Byte>, i: nat, b: Byte)
    requires i < buff.Length
    modifies buff
    ensures buff[..] == old(buff[..])[i := b]
  {
    buff[i] := b;
  }

  lemma EightDigits(n: nat)
    requires n < U64
    ensures |HeightDigits(n)| <= 9
    ensures |HeightDigits(n)| <= 8 <==> n < U63
  {
    Widths();
    DigitCount(n, 8);
    DigitCount(n, 7);
    assert Pow256(8) == 256 * Pow256(7);
  }

  /** Script numbers carry their sign in the top bit of the last byte. */
  function ScriptNumber(b: Bytes): int {
    if b == [] then 0
    else if b[|b| - 1] >= 0x80 then 128 * Pow256(|b| - 1) - FromLE(b)
    else FromLE(b)
  }

  /** The first item of a coinbase script, as BIP 34 reads it. */
  function ReadHeight(script: Bytes): Option<(int, Bytes)> {
    if script == [] then None
    else if 0x51 <= script[0] <= 0x60 then Some((script[0] - 0x50, script[1..]))
    else if script[0] <= 75 then
      var (digits, rest) :- Take(script[1..], script[0]);
      Some((ScriptNumber(digits), rest))
    else None
  }

  /** Every height below 2^63 reads back, whatever follows it; from 2^63 on encoding panics. */
  lemma HeightRoundTrip(n: nat, rest: Bytes)
    requires n < U64
    ensures EncodedNumber(n).Ok? <==> n < U63
    ensures n < U63 ==> ReadHeight(EncodedNumber(n).value + rest) == Some((n, rest))
  {
    if n < U63 {
      EightDigits(n);
      if 1 <= n <= 16 {
        HeadTail(0x50 + n, rest);
      } else {
        var d := HeightDigits(n);
        assert EncodedNumber(n).value + rest == [|d|] + (d + rest);
        HeadTail(|d|, d + rest);
        TakeBack(d, rest);
      }
    }
  }

  lemma {:induction false} FromLEBelow(b: Bytes, k: nat)
    requires |b| == k + 1 && b[k] <= 0x7f
    ensures FromLE(b) < 128 * Pow256(k)
  {
    if k > 0 {
      FromLEBelow(b[1..], k - 1);
      assert 128 * Pow256(k) == 256 * (128 * Pow256(k - 1));
    }
  }

  /** Above 16 the push is a length byte and a non-negative number, and no byte string for the height is shorter. */
  lemma HeightIsMinimal(n: nat, other: Bytes)
    requires 16 < n < U63 && ScriptNumber(other) == n
    ensures EncodedNumber(n) == Ok([|HeightDigits(n)|] + HeightDigits(n))
    ensures HeightDigits(n)[|HeightDigits(n)| - 1] <= 0x7f && |HeightDigits(n)| <= 8
    ensures |other| >= |HeightDigits(n)|
  {
    EightDigits(n);
    var k := |other| - 1;
    if other[k] >= 0x80 {
      TopByte(other, k);
    } else {
      FromLEBelow(other, k);
      DigitCount(n, k);
    }
  }

  lemma {:induction false} TopByte(b: Bytes, k: nat)
    requires |b| == k + 1 && b[k] >= 0x80
    ensures FromLE(b) >= 128 * Pow256(k)
  {
    if k > 0 {
      TopByte(b[1..], k - 1);
    }
  }

  // ---------- literals ----------

  lemma AllOnesBytes()
    ensures LE(0xffff_ffff, 4) == [255, 255, 255, 255]
  {
    assert Pow256(1) == 256 && Pow256(2) == 65536 && Pow256(3) == 16777216;
  }

  lemma AllOnesText()
    ensures "ffffffff" == Hex.Encode(LE(0xffff_ffff, 4))
  {
    AllOnesBytes();
    assert Hex.DigitChar(15) == 'f';
    Hex.ByteText(255);
    Hex.EncodeConcat([255], [255]);
    assert [255, 255] == [255] + [255];
    Hex.EncodeConcat([255, 255], [255, 255]);
    assert [255, 255, 255, 255] == [255, 255] + [255, 255];
  }

  lemma LiteralTexts()
    ensures "01000000" == Hex.Encode(LE(1, 4)) && "00000000" == Hex.Encode(LE(0, 4))
    ensures "ffffffff" == Hex.Encode(LE(0xffff_ffff, 4)) && "01" == Hex.Encode([1])
    ensures "0000000000000000" == Hex.Encode(LE(0, 8))
  {
    AllOnesText();
    SmallText(1);
    SmallText(0);
    Hex.ByteText(1);
    SmallLE(0, 8);
    Hex.ZeroText(8);
    assert [0] + Zeros(7) == Zeros(8);
    assert seq(16, _ => '0') == "0000000000000000";
  }

  lemma ScriptTexts()
    ensures "76a914" == Hex.Encode([0x76, 0xa9, 0x14]) && "88ac" == Hex.Encode([0x88, 0xac])
    ensures Hex.IsHex("AAAA") && Hex.Bytes("AAAA") == [0xaa, 0xaa]
  {
    assert Hex.Encode([0x76, 0xa9, 0x14]) == "76a914";
    assert Hex.Encode([0x88, 0xac]) == "88ac";
    var s := "AAAA";
    assert Hex.DigitValue('A') == Some(10);
    assert Hex.DecodedByte(s, 0) == 0xaa && Hex.DecodedByte(s, 1) == 0xaa;
  }

  // ---------- first half ----------

  /** Sixty-four zero digits. */
  function NullPrevout(): string {
    Hex.Encode(Zeros(32))
  }

  function InitialText(height: nat, arbitraryByteLength: nat): Result<string>
    requires height < U64
  {
    var heightBytes :- EncodedNumber(height);
    var length :- VarUint(arbitraryByteLength + |heightBytes|);
    Ok("01000000" + "01" + NullPrevout() + "ffffffff" + length + Hex.Encode(heightBytes))
  }

  method CoinbaseInitial(height: nat, arbitraryByteLength: nat) returns (r: Result<string>)
    requires height < U64
    ensures r == InitialText(height, arbitraryByteLength)
  {
    var heightBytes := EncodeNumber(height);
    if heightBytes.Err? {
      return Err(heightBytes.why);
    }
    var length := VarUint(arbitraryByteLength + |heightBytes.value|);
    if length.Err? {
      return Err(length.why);
    }
    return Ok("01000000" + "01" + NullPrevout() + "ffffffff" + length.value + Hex.Encode(heightBytes.value));
  }

  lemma EncodeFour(a: Bytes, b: Bytes, c: Bytes, d: Bytes)
    ensures Hex.Encode(a) + Hex.Encode(b) + Hex.Encode(c) + Hex.Encode(d) == Hex.Encode(a + (b + (c + d)))
  {
    Hex.EncodeConcat(c, d);
    Hex.EncodeConcat(b, c + d);
    Hex.EncodeConcat(a, b + (c + d));
    ConcatAssoc(Hex.Encode(a), Hex.Encode(b), Hex.Encode(c) + Hex.Encode(d));
    ConcatAssoc(Hex.Encode(a) + Hex.Encode(b), Hex.Encode(c), Hex.Encode(d));
  }

  /** The null outpoint, the declared script length and the start of the script. */
  function InitialBytes(declared: nat, heightBytes: Bytes): Bytes
    requires declared < U64
  {
    LE(1, 4) + ([1] + (Zeros(32) + LE(0xffff_ffff, 4))) + (CompactSize(declared) + heightBytes)
  }

  lemma InitialTextBytes(height: nat, arbitraryByteLength: nat)
    requires height < U64 && arbitraryByteLength + 9 < U64
    ensures InitialText(height, arbitraryByteLength).Ok?
      <==> height < U63 && arbitraryByteLength + |EncodedNumber(height).value| != 253
    ensures InitialText(height, arbitraryByteLength).Ok? ==>
      var heightBytes := EncodedNumber(height).value;
      InitialText(height, arbitraryByteLength).value
        == Hex.Encode(InitialBytes(arbitraryByteLength + |heightBytes|, heightBytes))
  {
    HeightRoundTrip(height, []);
    if height < U63 {
      EightDigits(height);
      var heightBytes := EncodedNumber(height).value;
      var declared := arbitraryByteLength + |heightBytes|;
      VarUintIsCompactSize(declared);
      if declared != 253 {
        LiteralTexts();
        EncodeFour(LE(1, 4), [1], Zeros(32), LE(0xffff_ffff, 4));
        var front := LE(1, 4) + ([1] + (Zeros(32) + LE(0xffff_ffff, 4)));
        Hex.EncodeConcat(CompactSize(declared), heightBytes);
        Hex.EncodeConcat(front, CompactSize(declared) + heightBytes);
        ConcatAssoc(Hex.Encode(front), Hex.Encode(CompactSize(declared)), Hex.Encode(heightBytes));
      }
    }
  }

  // ---------- outputs ----------

  /** `TransactionOut`: amount, length in bytes, script. */
  function TransactionOut(amount: string, pubScriptKey: string): Result<string> {
    var length :- VarUint(|pubScriptKey| / 2);
    Ok(amount + length + pubScriptKey)
  }

  lemma TransactionOutBytes(value: nat, pubScriptKey: string)
    requires value < U64 && |pubScriptKey| / 2 < U64
    ensures TransactionOut(Hex.Encode(LE(value, 8)), pubScriptKey).Ok? <==> |pubScriptKey| / 2 != 253
    ensures |pubScriptKey| / 2 != 253 && Hex.IsHex(pubScriptKey) ==>
      var text := TransactionOut(Hex.Encode(LE(value, 8)), pubScriptKey).value;
      Hex.IsHex(text) && Hex.Bytes(text) == PutTxOut(TxOut(value, Hex.Bytes(pubScriptKey)), [])
  {
    var n := |pubScriptKey| / 2;
    VarUintIsCompactSize(n);
    if n != 253 && Hex.IsHex(pubScriptKey) {
      var script := Hex.Bytes(pubScriptKey);
      ConcatEmpty(script);
      Hex.DecodeEncode(LE(value, 8));
      Hex.DecodeEncode(CompactSize(n));
      Hex.DecodeConcat(Hex.Encode(LE(value, 8)), Hex.Encode(CompactSize(n)));
      Hex.DecodeConcat(Hex.Encode(LE(value, 8)) + Hex.Encode(CompactSize(n)), pubScriptKey);
      ConcatAssoc(LE(value, 8), CompactSize(n), script);
    }
  }

  type KeyHash = b: Bytes | |b| == 20 witness seq(20, _ => 0)

  /** Pay to public key hash. */
  function PayToKey(hash: KeyHash): Bytes {
    [0x76, 0xa9, 0x14] + hash + [0x88, 0xac]
  }

  /** `GeneratePubKeyScript`; RIPEMD-160 of SHA-256 is the parameter `keyHash`. */
  function PubKeyScript(keyHash: Bytes -> KeyHash, pubKey: string): Result<string> {
    if !Hex.IsHex(pubKey) then Err(MalformedHex)
    else Ok("76a914" + Hex.Encode(keyHash(Hex.Bytes(pubKey))) + "88ac")
  }

  lemma PubKeyScriptBytes(keyHash: Bytes -> KeyHash, pubKey: string)
    requires Hex.IsHex(pubKey)
    ensures PubKeyScript(keyHash, pubKey) == Ok(Hex.Encode(PayToKey(keyHash(Hex.Bytes(pubKey)))))
  {
    ScriptTexts();
    var kh := keyHash(Hex.Bytes(pubKey));
    Hex.EncodeConcat([0x76, 0xa9, 0x14], kh);
    Hex.EncodeConcat([0x76, 0xa9, 0x14] + kh, [0x88, 0xac]);
  }

  /** What the outputs need from the template and from the node. */
  datatype Payee = Payee(witnessCommitment: string, value: nat, poolKey: string) {
    predicate Fits() {
      |witnessCommitment| < U64 && value < U64 && |poolKey| < U64
    }

    /** Which payees have outputs at all: the key must decode and no script may be 253 bytes long. */
    predicate Payable() {
      Hex.IsHex(poolKey) && |poolKey| / 2 != 253 && |witnessCommitment| / 2 != 253
    }

    function OutputCount(): nat {
      if witnessCommitment == "" then 3 else 4
    }
  }

  /** The full reward, three times over. */
  function RewardOutputs(keyHash: Bytes -> KeyHash, p: Payee): (outs: seq<TxOut>)
    requires p.Fits() && Hex.IsHex(p.poolKey)
    ensures |outs| == 3
    ensures forall i :: 0 <= i < |outs| ==> outs[i].Fits()
  {
    var key := Hex.Bytes(p.poolKey);
    [TxOut(p.value, PayToKey(keyHash(key))), TxOut(p.value, key), TxOut(p.value, [0xaa, 0xaa])]
  }

  /** The commitment first when there is one, then the rewards. */
  function Outputs(keyHash: Bytes -> KeyHash, p: Payee): (outs: seq<TxOut>)
    requires p.Fits() && Hex.IsHex(p.poolKey) && Hex.IsHex(p.witnessCommitment)
    ensures |outs| == p.OutputCount()
    ensures forall i :: 0 <= i < |outs| ==> outs[i].Fits()
  {
    if p.witnessCommitment == "" then RewardOutputs(keyHash, p)
    else [TxOut(0, Hex.Bytes(p.witnessCommitment))] + RewardOutputs(keyHash, p)
  }

  function OutputTotal(outs: seq<TxOut>): nat {
    if outs == [] then 0 else outs[0].value + OutputTotal(outs[1..])
  }

  /** The outputs spend three times the coinbase value, so they add up to it only when it is zero. */
  lemma OutputsSpendThreefold(keyHash: Bytes -> KeyHash, p: Payee)
    requires p.Fits() && Hex.IsHex(p.poolKey) && Hex.IsHex(p.witnessCommitment)
    ensures OutputTotal(Outputs(keyHash, p)) == 3 * p.value
    ensures OutputTotal(Outputs(keyHash, p)) == p.value <==> p.value == 0
  {
    var rewards := RewardOutputs(keyHash, p);
    ThreeOutputs(rewards[0], rewards[1], rewards[2]);
    assert rewards == [rewards[0], rewards[1], rewards[2]];
    if p.witnessCommitment != "" {
      HeadTail(TxOut(0, Hex.Bytes(p.witnessCommitment)), rewards);
    }
  }

  lemma ThreeOutputs(a: TxOut, b: TxOut, c: TxOut)
    ensures OutputTotal([a, b, c]) == a.value + b.value + c.value
  {
    assert [c][1..] == [];
    assert OutputTotal([c]) == c.value;
    assert [b, c][1..] == [c];
    assert OutputTotal([b, c]) == b.value + c.value;
    assert [a, b, c][1..] == [b, c];
  }

  /** `fmt.Sprintf("%016x", value)` for a 64-bit value: most significant byte first. */
  function SixteenDigits(value: nat): string {
    Hex.Encode(Reversed(LE(value, 8)))
  }

  lemma AmountText(value: nat)
    ensures PairsReversed(SixteenDigits(value)) == Hex.Encode(LE(value, 8))
  {
    EncodeReversed(LE(value, 8));
  }

  lemma {:induction false} EncodeReversed(b: Bytes)
    ensures PairsReversed(Hex.Encode(Reversed(b))) == Hex.Encode(b)
  {
    if b == [] {
      assert Hex.Encode(Reversed(b)) == [] && Hex.Encode(b) == [];
    } else {
      EncodeReversed(b[1..]);
      assert Reversed(b) == Reversed(b[1..]) + [b[0]];
      Hex.EncodeConcat(Reversed(b[1..]), [b[0]]);
      PairsReversedConcat(Hex.Encode(Reversed(b[1..])), Hex.Encode([b[0]]));
      assert Hex.Encode([b[0]])[2..] == [] && Hex.Encode([b[0]])[..2] == Hex.Encode([b[0]]);
      ConcatEmpty(Hex.Encode([b[0]]));
      ConsBack(b);
      Hex.EncodeConcat([b[0]], b[1..]);
    }
  }

  /** The outputs written so far, as text that decodes to them. */
  ghost predicate Written(text: string, outs: seq<TxOut>) {
    && (forall i :: 0 <= i < |outs| ==> outs[i].Fits())
    && Hex.IsHex(text) && Hex.Bytes(text) == PutOutputs(outs, [])
  }

  lemma WriteOne(text: string, outs: seq<TxOut>, value: nat, script: string)
    requires Written(text, outs) && value < U64 && |script| / 2 < U64 && Hex.IsHex(script)
    requires |script| / 2 != 253
    ensures TransactionOut(Hex.Encode(LE(value, 8)), script).Ok?
    ensures Written(text + TransactionOut(Hex.Encode(LE(value, 8)), script).value,
      outs + [TxOut(value, Hex.Bytes(script))])
  {
    TransactionOutBytes(value, script);
    var t := TxOut(value, Hex.Bytes(script));
    Hex.DecodeConcat(text, TransactionOut(Hex.Encode(LE(value, 8)), script).value);
    PutOutputsAppend(outs, t);
  }

  lemma {:induction false} PutOutputsAppend(outs: seq<TxOut>, t: TxOut)
    requires t.Fits() && forall i :: 0 <= i < |outs| ==> outs[i].Fits()
    ensures PutOutputs(outs + [t], []) == PutOutputs(outs, []) + PutTxOut(t, [])
    ensures forall i :: 0 <= i < |outs + [t]| ==> (outs + [t])[i].Fits()
  {
    PutOutputsPrepends(outs, [], PutTxOut(t, []));
    ConcatEmpty(PutTxOut(t, []));
    PutOutputsSplit(outs, t);
  }

  lemma {:induction false} PutOutputsSplit(outs: seq<TxOut>, t: TxOut)
    requires t.Fits() && forall i :: 0 <= i < |outs| ==> outs[i].Fits()
    ensures PutOutputs(outs + [t], []) == PutOutputs(outs, PutTxOut(t, []))
  {
    if outs == [] {
      ConcatEmpty([t]);
    } else {
      SplitWithin(outs, [t], 1);
      PutOutputsSplit(outs[1..], t);
    }
  }

  /** The text of one output, for scripts that are not 253 bytes long. */
  function OutText(value: nat, script: string): string
    requires value < U64 && |script| < U64 && |script| / 2 != 253
  {
    TransactionOutBytes(value, script);
    TransactionOut(Hex.Encode(LE(value, 8)), script).value
  }

  function RewardTexts(keyHash: Bytes -> KeyHash, p: Payee, before: string): string
    requires p.Fits() && p.Payable()
  {
    before
      + OutText(p.value, Hex.Encode(PayToKey(keyHash(Hex.Bytes(p.poolKey)))))
      + OutText(p.value, p.poolKey)
      + OutText(p.value, "AAAA")
  }

  /** The text of the outputs, whether the commitment is hexadecimal or not. */
  function OutputsText(keyHash: Bytes -> KeyHash, p: Payee): string
    requires p.Fits() && p.Payable()
  {
    RewardTexts(keyHash, p, if p.witnessCommitment == "" then "" else "" + OutText(0, p.witnessCommitment))
  }

  /** One more output at the end of the text. */
  method AppendOutput(outputs: string, value: nat, amount: string, script: string, ghost written: seq<TxOut>)
    returns (r: Result<string>)
    requires value < U64 && amount == Hex.Encode(LE(value, 8)) && |script| < U64
    ensures r.Ok? <==> |script| / 2 != 253
    ensures r.Ok? ==> r.value == outputs + OutText(value, script)
    ensures r.Ok? && Hex.IsHex(script) && Written(outputs, written) ==>
      Written(r.value, written + [TxOut(value, Hex.Bytes(script))])
  {
    TransactionOutBytes(value, script);
    var out := TransactionOut(amount, script);
    if out.Err? {
      return Err(Panic);
    }
    if Hex.IsHex(script) && Written(outputs, written) {
      WriteOne(outputs, written, value, script);
    }
    return Ok(outputs + out.value);
  }

  /** The commitment output, if there is one. */
  method CommitmentOutput(p: Payee) returns (r: Result<(nat, string)>)
    requires p.Fits()
    ensures r.Ok? <==> |p.witnessCommitment| / 2 != 253
    ensures r.Ok? ==>
      r.value == if p.witnessCommitment == "" then (0, "") else (1, "" + OutText(0, p.witnessCommitment))
    ensures r.Ok? && Hex.IsHex(p.witnessCommitment) ==>
      Written(r.value.1, if p.witnessCommitment == "" then [] else [TxOut(0, Hex.Bytes(p.witnessCommitment))])
  {
    if p.witnessCommitment == "" {
      return Ok((0, ""));
    }
    LiteralTexts();
    var out := AppendOutput("", 0, "0000000000000000", p.witnessCommitment, []);
    if out.Err? {
      return Err(Panic);
    }
    if Hex.IsHex(p.witnessCommitment) {
      assert Hex.Bytes("") == [] && Written("", []);
      ConcatEmpty([TxOut(0, Hex.Bytes(p.witnessCommitment))]);
    }
    return Ok((1, out.value));
  }

  lemma AppendThree<T>(s: seq<T>, a: T, b: T, c: T)
    ensures ((s + [a]) + [b]) + [c] == s + [a, b, c]
  {
  }

  /** `coinbaseTransactionOutputs`: the count and text of the outputs. */
  method CoinbaseTransactionOutputs(keyHash: Bytes -> KeyHash, p: Payee) returns (r: Result<(nat, string)>)
    requires p.Fits()
    ensures r.Ok? <==> p.Payable()
    ensures r.Err? ==> r.why == Panic
    ensures r.Ok? ==> r.value.0 == p.OutputCount() && r.value.1 == OutputsText(keyHash, p)
    ensures r.Ok? && Hex.IsHex(p.witnessCommitment) ==> Written(r.value.1, Outputs(keyHash, p))
  {
    var commitment := CommitmentOutput(p);
    if commitment.Err? {
      return Err(Panic);
    }
    var (outputsCount, outputs) := commitment.value;
    var rewardText := ReverseHexBytes(SixteenDigits(p.value));
    AmountText(p.value);
    var pubScriptKey := PubKeyScript(keyHash, p.poolKey);
    if pubScriptKey.Err? {
      return Err(Panic);
    }
    PubKeyScriptBytes(keyHash, p.poolKey);
    ghost var written :=
      if p.witnessCommitment == "" || !Hex.IsHex(p.witnessCommitment) then []
      else [TxOut(0, Hex.Bytes(p.witnessCommitment))];
    var rewards := AppendRewards(keyHash, p, outputs, rewardText.value, pubScriptKey.value, written);
    if rewards.Err? {
      return Err(Panic);
    }
    ConcatEmpty(RewardOutputs(keyHash, p));
    return Ok((outputsCount + 3, rewards.value));
  }

  /** The three reward outputs. */
  method AppendRewards(keyHash: Bytes -> KeyHash, p: Payee, outputs: string, amount: string, keyScript: string,
    ghost written: seq<TxOut>)
    returns (r: Result<string>)
    requires p.Fits() && Hex.IsHex(p.poolKey) && |p.witnessCommitment| / 2 != 253
    requires amount == Hex.Encode(LE(p.value, 8))
    requires keyScript == Hex.Encode(PayToKey(keyHash(Hex.Bytes(p.poolKey))))
    ensures r.Ok? <==> |p.poolKey| / 2 != 253
    ensures r.Ok? ==> r.value == RewardTexts(keyHash, p, outputs)
    ensures r.Ok? && Written(outputs, written) ==> Written(r.value, written + RewardOutputs(keyHash, p))
  {
    Hex.DecodeEncode(PayToKey(keyHash(Hex.Bytes(p.poolKey))));
    ScriptTexts();
    ghost var outs := RewardOutputs(keyHash, p);
    var first := AppendOutput(outputs, p.value, amount, keyScript, written);
    var second := AppendOutput(first.value, p.value, amount, p.poolKey, written + [outs[0]]);
    if second.Err? {
      return Err(Panic);
    }
    var third := AppendOutput(second.value, p.value, amount, "AAAA", written + [outs[0]] + [outs[1]]);
    AppendThree(written, outs[0], outs[1], outs[2]);
    assert outs == [outs[0], outs[1], outs[2]];
    return Ok(third.value);
  }

  // ---------- second half ----------

  function FinalText(keyHash: Bytes -> KeyHash, p: Payee): string
    requires p.Fits() && p.Payable()
  {
    "00000000" + VarUint(p.OutputCount()).value + OutputsText(keyHash, p) + "00000000"
  }

  /** `CoinbaseFinal` and its `Serialize`: sequence, output count, outputs, lock time. */
  method CoinbaseFinal(keyHash: Bytes -> KeyHash, p: Payee) returns (r: Result<string>)
    requires p.Fits()
    ensures r.Ok? <==> p.Payable()
    ensures r.Err? ==> r.why == Panic
    ensures r.Ok? ==> r.value == FinalText(keyHash, p)
    ensures r.Ok? && Hex.IsHex(p.witnessCommitment) ==>
      Hex.IsHex(r.value) && Hex.Bytes(r.value) == LE(0, 4) + PutTxTail(CoinbaseTx([], Outputs(keyHash, p)), [])
  {
    var txOutput := CoinbaseTransactionOutputs(keyHash, p);
    if txOutput.Err? {
      return Err(txOutput.why);
    }
    var (outputCount, txOuts) := txOutput.value;
    var count := VarUint(outputCount);
    r := Ok("00000000" + count.value + txOuts + "00000000");
    if Hex.IsHex(p.witnessCommitment) {
      FinalTextBytes(txOuts, Outputs(keyHash, p));
    }
  }

  /** The coinbase transaction as data: one input without a previous output, whose script is free. */
  function CoinbaseTx(script: Bytes, outs: seq<TxOut>): Tx {
    Tx(1, [TxIn(Zeros(32), 0xffff_ffff, script, 0)], outs, 0)
  }

  lemma FinalTextBytes(txOuts: string, outs: seq<TxOut>)
    requires Written(txOuts, outs) && |outs| < 253
    ensures VarUint(|outs|).Ok?
    ensures var text := "00000000" + VarUint(|outs|).value + txOuts + "00000000";
      Hex.IsHex(text) && Hex.Bytes(text) == LE(0, 4) + PutTxTail(CoinbaseTx([], outs), [])
  {
    LiteralTexts();
    var count := CompactSize(|outs|);
    Hex.DecodeEncode(LE(0, 4));
    Hex.DecodeEncode(count);
    var a, b, c := Hex.Encode(LE(0, 4)), Hex.Encode(count), txOuts;
    Hex.DecodeConcat(a, b);
    Hex.DecodeConcat(a + b, c);
    Hex.DecodeConcat(a + b + c, a);
    var out, zero := Hex.Bytes(c), LE(0, 4);
    ConcatEmpty(zero);
    ConcatEmpty(PutOutputs(outs, []));
    PutOutputsPrepends(outs, [], zero);
    ConcatAssoc(zero + count, out, zero);
    ConcatAssoc(zero, count, out + zero);
  }

  // ---------- the whole coinbase ----------

  /** The declared script, in order: height push, reserved extranonce, length-prefixed arbitrary data. */
  function CoinbaseScript(height: nat, extranonce: Bytes, arbitrary: Bytes): Bytes
    requires height < U63
  {
    EncodedNumber(height).value + (extranonce + ([|arbitrary| % 256] + arbitrary))
  }

  /** What the text after the extranonce decodes to: the arbitrary data, then everything after the script. */
  function FinalBytes(arbitrary: Bytes, outs: seq<TxOut>): Bytes
    requires CoinbaseTx([], outs).Fits()
  {
    ([|arbitrary| % 256] + arbitrary) + (LE(0, 4) + PutTxTail(CoinbaseTx([], outs), []))
  }

  /**
   * Initial text, extranonce and final text are together exactly one transaction, with no bytes over.  Eight bytes
   * are reserved for the extranonce; the declared script length is the length of the script really written.
   */
  lemma CoinbaseIsOneTransaction(
    height: nat, arbitrary: Bytes, extranonce: string, initial: string, final: string, outs: seq<TxOut>)
    requires height < U63 && |arbitrary| + 18 < U64
    requires InitialText(height, |arbitrary| + 1 + 8) == Ok(initial)
    requires Hex.IsHex(extranonce) && |extranonce| == 16
    requires CoinbaseTx([], outs).Fits()
    requires Hex.IsHex(final) && Hex.Bytes(final) == FinalBytes(arbitrary, outs)
    ensures var text := initial + extranonce + final;
      var tx := CoinbaseTx(CoinbaseScript(height, Hex.Bytes(extranonce), arbitrary), outs);
      && tx.Fits() && Hex.IsHex(text)
      && Hex.Bytes(text) == PutTx(tx, [])
      && ReadTx(Hex.Bytes(text)) == Some((tx, []))
  {
    var push, x, data := EncodedNumber(height).value, Hex.Bytes(extranonce), [|arbitrary| % 256] + arbitrary;
    var script := CoinbaseScript(height, x, arbitrary);
    EightDigits(height);
    InitialTextBytes(height, |arbitrary| + 9);
    assert |script| == |arbitrary| + 9 + |push|;
    var front := InitialBytes(|script|, push);
    Hex.DecodeEncode(front);
    Hex.DecodeConcat(initial, extranonce);
    Hex.DecodeConcat(initial + extranonce, final);
    var tx := CoinbaseTx(script, outs);
    CoinbaseBytes(tx, push, x, data);
    ReadTxBack(tx, []);
  }

  lemma Regroup<T>(a: seq<T>, one: seq<T>, b: seq<T>, c: seq<T>, size: seq<T>, push: seq<T>, x: seq<T>, data: seq<T>,
    tail: seq<T>)
    ensures (((a + (one + (b + c))) + (size + push)) + x) + (data + tail)
         == a + (one + (b + (c + (size + ((push + (x + data)) + tail)))))
  {
    var front, rest := a + (one + (b + c)), size + ((push + (x + data)) + tail);
    ConcatAssoc(front, size + push, x);
    ConcatAssoc(size, push, x);
    ConcatAssoc(front, size + (push + x), data + tail);
    ConcatAssoc(size, push + x, data + tail);
    ConcatAssoc(push + x, data, tail);
    ConcatAssoc(push, x, data);
    ConcatAssoc(a, one + (b + c), rest);
    ConcatAssoc(one, b + c, rest);
    ConcatAssoc(b, c, rest);
  }

  lemma CoinbaseBytes(tx: Tx, push: Bytes, x: Bytes, data: Bytes)
    requires |push| + |x| + |data| < U64
    requires tx.Fits() && tx == CoinbaseTx(push + (x + data), tx.outputs)
    ensures (InitialBytes(|tx.inputs[0].script|, push) + x) + (data + (LE(0, 4) + PutTxTail(CoinbaseTx([], tx.outputs), [])))
         == PutTx(tx, [])
  {
    var script := push + (x + data);
    var tail := LE(0, 4) + PutTxTail(tx, []);
    assert PutTxTail(CoinbaseTx([], tx.outputs), []) == PutTxTail(tx, []);
    var size := CompactSize(|script|);
    assert PutInputs(tx.inputs, PutTxTail(tx, [])) == PutTxIn(tx.inputs[0], PutTxTail(tx, [])) by {
      assert tx.inputs[1..] == [];
    }
    Regroup(LE(1, 4), [1], Zeros(32), LE(0xffff_ffff, 4), size, push, x, data, tail);
  }
}
