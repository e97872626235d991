/** Lower-case hexadecimal text, as Go's encoding/hex reads and writes it. */
module Hex {
  import opened Base

  /** Both cases are read; anything else is malformed. */
  function DigitValue(c: char): (v: Option<nat>)
    ensures v.Some? ==> v.value < 16
  {
    if '0' <= c <= '9' then Some(c as int - '0' as int)
    else if 'a' <= c <= 'f' then Some(c as int - 'a' as int + 10)
    else if 'A' <= c <= 'F' then Some(c as int - 'A' as int + 10)
    else None
  }

  function DigitChar(v: nat): (c: char)
    requires v < 16
    ensures DigitValue(c) == Some(v)
  {
    if v < 10 then ('0' as int + v) as char else ('a' as int + v - 10) as char
  }

  predicate IsHex(s: string) {
    && |s| % 2 == 0
    && forall i :: 0 <= i < |s| ==> DigitValue(s[i]).Some?
  }

  function DecodedByte(s: string, i: nat): Byte
    requires IsHex(s) && i < |s| / 2
  {
    16 * DigitValue(s[2 * i]).value + DigitValue(s[2 * i + 1]).value
  }

  function Bytes(s: string): (b: Base.Bytes)
    requires IsHex(s)
    ensures |s| == 2 * |b|
  {
    seq(|s| / 2, i requires 0 <= i < |s| / 2 => DecodedByte(s, i))
  }

  function EncodedChar(b: Base.Bytes, i: nat): char
    requires i < 2 * |b|
  {
    DigitChar(if i % 2 == 0 then b[i / 2] / 16 else b[i / 2] % 16)
  }

  function Encode(b: Base.Bytes): (s: string)
    ensures |s| == 2 * |b|
  {
    seq(2 * |b|, i requires 0 <= i < 2 * |b| => EncodedChar(b, i))
  }

  lemma ZeroText(n: nat)
    ensures Encode(Zeros(n)) == seq(2 * n, _ => '0')
  {
    assert DigitChar(0) == '0';
  }

  lemma ByteText(b: Byte)
    ensures Encode([b]) == [DigitChar(b / 16), DigitChar(b % 16)]
  {
  }

  lemma DecodeEncode(b: Base.Bytes)
    ensures IsHex(Encode(b)) && Bytes(Encode(b)) == b
  {
    var s := Encode(b);
    forall i | 0 <= i < |s| ensures DigitValue(s[i]).Some? {
      assert s[i] == EncodedChar(b, i);
    }
    forall i | 0 <= i < |b| ensures DecodedByte(s, i) == b[i] {
      assert s[2 * i] == EncodedChar(b, 2 * i) && s[2 * i + 1] == EncodedChar(b, 2 * i + 1);
    }
  }

  /** Decoding splits at every byte boundary. */
  lemma DecodeConcat(a: string, b: string)
    requires |a| % 2 == 0
    ensures IsHex(a + b) <==> IsHex(a) && IsHex(b)
    ensures IsHex(a + b) ==> Bytes(a + b) == Bytes(a) + Bytes(b)
  {
    var s := a + b;
    if IsHex(s) {
      forall i | 0 <= i < |a| ensures DigitValue(a[i]).Some? {
        assert s[i] == a[i];
      }
      forall i | 0 <= i < |b| ensures DigitValue(b[i]).Some? {
        assert s[|a| + i] == b[i];
      }
      forall i | 0 <= i < |s| / 2 ensures Bytes(s)[i] == (Bytes(a) + Bytes(b))[i] {
        if i < |a| / 2 {
        } else {
          assert s[2 * i] == b[2 * (i - |a| / 2)] && s[2 * i + 1] == b[2 * (i - |a| / 2) + 1];
        }
      }
    }
  }

  lemma DecodeFour(a: string, b: string, c: string, d: string)
    requires IsHex(a) && IsHex(b) && IsHex(c) && IsHex(d)
    ensures IsHex(a + b + c + d) && Bytes(a + b + c + d) == ((Bytes(a) + Bytes(b)) + Bytes(c)) + Bytes(d)
  {
    DecodeConcat(a, b);
    DecodeConcat(a + b, c);
    DecodeConcat(a + b + c, d);
  }

  lemma EncodeConcat(a: Base.Bytes, b: Base.Bytes)
    ensures Encode(a + b) == Encode(a) + Encode(b)
  {
    forall i | 0 <= i < 2 * |a + b| ensures EncodedChar(a + b, i) == (Encode(a) + Encode(b))[i] {
      if i < 2 * |a| {
      } else {
        assert (a + b)[i / 2] == b[(i - 2 * |a|) / 2];
      }
    }
  }

  predicate AllHex(ss: seq<string>) {
    forall i :: 0 <= i < |ss| ==> IsHex(ss[i])
  }

  function DecodeAll(ss: seq<string>): (bs: seq<Base.Bytes>)
    requires AllHex(ss)
    ensures |bs| == |ss|
  {
    if ss == [] then [] else [Bytes(ss[0])] + DecodeAll(ss[1..])
  }

  function EncodeAll(bs: seq<Base.Bytes>): (ss: seq<string>)
    ensures |ss| == |bs|
  {
    if bs == [] then [] else [Encode(bs[0])] + EncodeAll(bs[1..])
  }

  lemma AllHexConcat(a: seq<string>, b: seq<string>)
    ensures AllHex(a + b) <==> AllHex(a) && AllHex(b)
  {
    var s := a + b;
    if AllHex(s) {
      forall i | 0 <= i < |a| ensures IsHex(a[i]) {
        assert s[i] == a[i];
      }
      forall i | 0 <= i < |b| ensures IsHex(b[i]) {
        assert s[|a| + i] == b[i];
      }
    }
  }

  lemma {:induction false} DecodeAllConcat(a: seq<string>, b: seq<string>)
    requires AllHex(a) && AllHex(b)
    ensures AllHex(a + b) && DecodeAll(a + b) == DecodeAll(a) + DecodeAll(b)
  {
    AllHexConcat(a, b);
    if a == [] {
      ConcatEmpty(b);
      ConcatEmpty(DecodeAll(b));
    } else {
      DecodeAllConcat(a[1..], b);
      SplitWithin(a, b, 1);
      ConcatAssoc([Bytes(a[0])], DecodeAll(a[1..]), DecodeAll(b));
    }
  }

  lemma DecodeAllAppend(a: seq<string>, s: string)
    requires AllHex(a) && IsHex(s)
    ensures AllHex(a + [s]) && DecodeAll(a + [s]) == DecodeAll(a) + [Bytes(s)]
  {
    DecodeAllConcat(a, [s]);
    ConcatEmpty([Bytes(s)]);
  }

  lemma {:induction false} EncodeAllConcat(a: seq<Base.Bytes>, b: seq<Base.Bytes>)
    ensures EncodeAll(a + b) == EncodeAll(a) + EncodeAll(b)
  {
    if a == [] {
      ConcatEmpty(b);
      ConcatEmpty(EncodeAll(b));
    } else {
      EncodeAllConcat(a[1..], b);
      SplitWithin(a, b, 1);
      ConcatAssoc([Encode(a[0])], EncodeAll(a[1..]), EncodeAll(b));
    }
  }

  lemma {:induction false} DecodeEncodeAll(bs: seq<Base.Bytes>)
    ensures AllHex(EncodeAll(bs)) && DecodeAll(EncodeAll(bs)) == bs
  {
    if bs != [] {
      DecodeEncode(bs[0]);
      DecodeEncodeAll(bs[1..]);
      AllHexConcat([Encode(bs[0])], EncodeAll(bs[1..]));
    }
  }

  // ---------- numbers as text ----------

  predicate AllDigits(s: string) {
    forall i :: 0 <= i < |s| ==> DigitValue(s[i]).Some?
  }

  function Digits(s: string): nat
    requires AllDigits(s)
  {
    if s == "" then 0 else 16 * Digits(s[..|s| - 1]) + DigitValue(s[|s| - 1]).value
  }

  function DigitText(n: nat): (s: string)
    ensures s != "" && AllDigits(s) && Digits(s) == n
  {
    if n < 16 then
      var s := [DigitChar(n)];
      assert Digits(s[..0]) == 0;
      s
    else
      var s := DigitText(n / 16) + [DigitChar(n % 16)];
      assert s[..|s| - 1] == DigitText(n / 16);
      s
  }

  /** Go's `%0wx`: at least `w` digits. */
  function PaddedText(n: nat, w: nat): (s: string)
    ensures AllDigits(s) && Digits(s) == n && |s| >= w
  {
    var digits := DigitText(n);
    if |digits| >= w then digits
    else
      ZeroDigits(w - |digits|, digits);
      seq(w - |digits|, _ => '0') + digits
  }

  lemma {:induction false} ZeroDigits(k: nat, s: string)
    requires AllDigits(s)
    ensures AllDigits(seq(k, _ => '0') + s) && Digits(seq(k, _ => '0') + s) == Digits(s)
    decreases |s|, k
  {
    assert DigitChar(0) == '0';
    var zeros := seq(k, _ => '0');
    if s != "" {
      ZeroDigits(k, s[..|s| - 1]);
      assert (zeros + s)[..k + |s| - 1] == zeros + s[..|s| - 1];
    } else if k > 0 {
      ZeroDigits(k - 1, s);
      assert (zeros + s)[..k - 1] == seq(k - 1, _ => '0') + s;
    }
  }

  function Pow16(k: nat): (p: nat)
    ensures p >= 1
  {
    if k == 0 then 1 else 16 * Pow16(k - 1)
  }

  /** How many digits a number needs. */
  lemma {:induction false} DigitCount(n: nat, k: nat)
    requires k >= 1
    ensures |DigitText(n)| <= k <==> n < Pow16(k)
  {
    if n >= 16 {
      if k == 1 {
        assert |DigitText(n / 16)| >= 1;
        assert Pow16(1) == 16 * Pow16(0);
      } else {
        DigitCount(n / 16, k - 1);
      }
    } else {
      assert Pow16(k) == 16 * Pow16(k - 1);
    }
  }
}
