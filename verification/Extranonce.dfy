/** pool/extraNonce.go: the part of the extranonce the pool hands to each connection. */
module Extranonce {
  import opened Base
  import Hex

  /** A random number below sixteen. */
  type Roll = x: nat | x < 16

  function TextOf(rolls: seq<Roll>): (s: string)
    ensures |s| == |rolls|
  {
    seq(|rolls|, i requires 0 <= i < |rolls| => Hex.DigitChar(rolls[i]))
  }

  method RandomHex(rolls: seq<Roll>) returns (s: string)
    ensures s == TextOf(rolls)
  {
    var result := new char[|rolls|](_ => '0');
    for i := 0 to |rolls|
      invariant forall k :: 0 <= k < i ==> result[k] == Hex.DigitChar(rolls[k])
    {
      result[i] := Hex.DigitChar(rolls[i]);
    }
    s := result[..];
  }

  predicate Distinct(texts: seq<string>) {
    forall i, j :: 0 <= i < j < |texts| ==> texts[i] != texts[j]
  }

  lemma DistinctAppend(texts: seq<string>, x: string)
    requires Distinct(texts) && x !in texts
    ensures Distinct(texts + [x])
  {
  }

  predicate HasNew(draws: seq<seq<Roll>>, used: set<string>) {
    exists k :: 0 <= k < |draws| && TextOf(draws[k]) !in used
  }

  /** The package-level map of used texts; `handed` lists them in the order they were given out. */
  class Extranonces {
    var used: set<string>
    ghost var handed: seq<string>

    constructor ()
      ensures Valid() && handed == []
    {
      used, handed := {}, [];
    }

    /** Over the whole run so far, no text was handed out twice. */
    ghost predicate Valid()
      reads this
    {
      Distinct(handed) && forall x :: x in used <==> x in handed
    }

    /**
     * Draws until a text is new, whatever the generator yields; the loop ends because `draws` holds a new one.  The
     * result is the first new draw.
     */
    method Unique(draws: seq<seq<Roll>>) returns (extranonce: string, n: nat)
      requires Valid() && HasNew(draws, used)
      modifies this
      ensures Valid() && handed == old(handed) + [extranonce] && extranonce !in old(handed)
      ensures n < |draws| && extranonce == TextOf(draws[n])
      ensures forall k :: 0 <= k < n ==> TextOf(draws[k]) in old(handed)
    {
      n := 0;
      extranonce := RandomHex(draws[n]);
      while extranonce in used
        invariant used == old(used) && handed == old(handed)
        invariant n < |draws| && extranonce == TextOf(draws[n])
        invariant forall k :: 0 <= k < n ==> TextOf(draws[k]) in used
        decreases |draws| - n
      {
        n := n + 1;
        extranonce := RandomHex(draws[n]);
      }
      DistinctAppend(handed, extranonce);
      used := used + {extranonce};
      handed := handed + [extranonce];
    }
  }

  // ---------- what distinct texts are good for ----------

  function Packed(rolls: seq<Roll>): (b: Bytes)
    requires |rolls| % 2 == 0
    ensures |b| == |rolls| / 2
  {
    seq(|rolls| / 2, i requires 0 <= i < |rolls| / 2 => PackedByte(rolls, i))
  }

  function PackedByte(rolls: seq<Roll>, i: nat): Byte
    requires i < |rolls| / 2
  {
    var high: nat, low: nat := rolls[2 * i], rolls[2 * i + 1];
    16 * high + low
  }

  lemma NibblesBack(high: nat, low: nat)
    requires high < 16 && low < 16
    ensures (16 * high + low) / 16 == high && (16 * high + low) % 16 == low
  {
  }

  lemma TextIsPacked(rolls: seq<Roll>)
    requires |rolls| % 2 == 0
    ensures TextOf(rolls) == Hex.Encode(Packed(rolls))
  {
    forall i | 0 <= i < |rolls| ensures Hex.DigitChar(rolls[i]) == Hex.EncodedChar(Packed(rolls), i) {
      CharIsPacked(rolls, i);
    }
  }

  lemma CharIsPacked(rolls: seq<Roll>, i: nat)
    requires |rolls| % 2 == 0 && i < |rolls|
    ensures Hex.DigitChar(rolls[i]) == Hex.EncodedChar(Packed(rolls), i)
  {
    hide Hex.DigitChar;
    var j := i / 2;
    NibblesBack(rolls[2 * j], rolls[2 * j + 1]);
    assert i == if i % 2 == 0 then 2 * j else 2 * j + 1;
  }

  /** Pool part and miner part fill the eight reserved bytes, and different pool parts never mine the same coinbase. */
  lemma DifferentReservedBytes(a: seq<Roll>, b: seq<Roll>, minerA: string, minerB: string)
    requires |a| == |b| == |minerA| == |minerB| == 8 && TextOf(a) != TextOf(b)
    requires Hex.IsHex(minerA) && Hex.IsHex(minerB)
    ensures Hex.IsHex(TextOf(a) + minerA) && |TextOf(a) + minerA| == 16
    ensures Hex.IsHex(TextOf(b) + minerB) && |TextOf(b) + minerB| == 16
    ensures Hex.Bytes(TextOf(a) + minerA) != Hex.Bytes(TextOf(b) + minerB)
  {
    TextIsPacked(a);
    TextIsPacked(b);
    Hex.DecodeEncode(Packed(a));
    Hex.DecodeEncode(Packed(b));
    Hex.DecodeConcat(TextOf(a), minerA);
    Hex.DecodeConcat(TextOf(b), minerB);
    SplitBetween(Packed(a), Hex.Bytes(minerA));
    SplitBetween(Packed(b), Hex.Bytes(minerB));
  }
}
