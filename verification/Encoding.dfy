/** bitcoin/encoding.go and utils/byte.go: integers, compact sizes and byte reversals on the wire. */
module Encoding {
  import opened Base
  import Hex

  const U32: nat := 0x1_0000_0000
  const U64: nat := 0x1_0000_0000_0000_0000

  // ---------- little-endian integers ----------

  function Pow256(n: nat): (p: nat)
    ensures p >= 1
  {
    if n == 0 then 1 else 256 * Pow256(n - 1)
  }

  function ByteAt(v: nat, i: nat): Byte {
    (v / Pow256(i)) % 256
  }

  /** The low `n` bytes of `v`, least significant first (binary.LittleEndian.PutUint16/32/64). */
  function LE(v: nat, n: nat): (b: Bytes)
    ensures |b| == n
  {
    seq(n, i requires 0 <= i < n => ByteAt(v, i))
  }

  function FromLE(b: Bytes): nat {
    if b == [] then 0 else b[0] + 256 * FromLE(b[1..])
  }

  lemma MulAtLeast(d: int, k: int)
    requires d > 0 && k >= 1
    ensures d * k >= d
  {
  }

  lemma DivModUnique(v: int, d: int, q: int, r: int)
    requires d > 0 && 0 <= r < d && v == d * q + r
    ensures v / d == q && v % d == r
  {
    var q', r' := v / d, v % d;
    assert v == d * q' + r' && 0 <= r' < d;
    assert d * (q - q') == d * q - d * q';
    if q > q' {
      MulAtLeast(d, q - q');
    } else if q < q' {
      assert d * (q' - q) == d * q' - d * q;
      MulAtLeast(d, q' - q);
    }
  }

  lemma DivModStep(v: nat, p: nat)
    requires p >= 1
    ensures v / (256 * p) == (v / 256) / p
    ensures v % (256 * p) == v % 256 + 256 * ((v / 256) % p)
  {
    var u := v / 256;
    var q, r := u / p, u % p;
    assert u == p * q + r && v == 256 * u + v % 256;
    assert 256 * (p * q) == (256 * p) * q;
    DivModUnique(v, 256 * p, q, v % 256 + 256 * r);
  }

  lemma LEStep(v: nat, n: nat)
    requires n > 0
    ensures LE(v, n)[0] == v % 256 && LE(v, n)[1..] == LE(v / 256, n - 1)
  {
    forall i | 0 <= i < n - 1 ensures ByteAt(v, i + 1) == ByteAt(v / 256, i) {
      DivModStep(v, Pow256(i));
    }
    assert Pow256(0) == 1;
  }

  /** Writing then reading truncates to the width, exactly like the conversions to uint32 and uint64. */
  lemma {:induction false} FromLEOfLE(v: nat, n: nat)
    ensures FromLE(LE(v, n)) == v % Pow256(n)
  {
    if n > 0 {
      LEStep(v, n);
      FromLEOfLE(v / 256, n - 1);
      DivModStep(v, Pow256(n - 1));
    }
  }

  lemma {:induction false} LEOfFromLE(b: Bytes)
    ensures LE(FromLE(b), |b|) == b && FromLE(b) < Pow256(|b|)
  {
    if b != [] {
      LEOfFromLE(b[1..]);
      DivModUnique(FromLE(b), 256, FromLE(b[1..]), b[0]);
      LEStep(FromLE(b), |b|);
      assert b == [b[0]] + b[1..];
    }
  }

  /** Four bytes and their number, written out. */
  lemma FourByteNumber(a: Byte, b: Byte, c: Byte, d: Byte)
    ensures FromLE([a, b, c, d]) == a + 0x100 * b + 0x1_0000 * c + 0x100_0000 * d
    ensures LE(a + 0x100 * b + 0x1_0000 * c + 0x100_0000 * d, 4) == [a, b, c, d]
  {
    var all := [a, b, c, d];
    assert [d][1..] == [];
    assert FromLE([d]) == d;
    assert [c, d][1..] == [d];
    assert FromLE([c, d]) == c + 256 * FromLE([d]);
    assert [b, c, d][1..] == [c, d];
    assert FromLE([b, c, d]) == b + 256 * FromLE([c, d]);
    assert all[1..] == [b, c, d];
    LEOfFromLE(all);
  }

  /** Only the low bytes are written. */
  lemma LELow(v: nat, w: nat, n: nat)
    requires v % Pow256(n) == w % Pow256(n)
    ensures LE(v, n) == LE(w, n)
  {
    FromLEOfLE(v, n);
    FromLEOfLE(w, n);
    LEOfFromLE(LE(v, n));
    LEOfFromLE(LE(w, n));
  }

  lemma SmallLE(v: nat, n: nat)
    requires v < 256 && n > 0
    ensures LE(v, n) == [v] + Zeros(n - 1)
  {
    FromLEOfLE(v, n);
    LEStep(v, n);
    forall i | 0 <= i < n - 1 ensures ByteAt(0, i) == 0 {
      assert 0 / Pow256(i) == 0;
    }
    assert v / 256 == 0;
  }

  /** A small number in four bytes is its byte and six zero digits. */
  lemma SmallText(v: Byte)
    ensures Hex.Encode(LE(v, 4)) == [Hex.DigitChar(v / 16), Hex.DigitChar(v % 16)] + "000000"
  {
    SmallLE(v, 4);
    Hex.EncodeConcat([v], Zeros(3));
    Hex.ByteText(v);
    Hex.ZeroText(3);
    assert seq(6, _ => '0') == "000000";
  }

  // ---------- compact sizes ----------

  /** CompactSize as the Bitcoin developer reference defines it, for every 64-bit value. */
  function CompactSize(v: nat): (b: Bytes)
    requires v < U64
  {
    if v <= 0xfc then [v]
    else if v <= 0xffff then [0xfd] + LE(v, 2)
    else if v <= 0xffff_ffff then [0xfe] + LE(v, 4)
    else [0xff] + LE(v, 8)
  }

  /** What `varUint` writes: its branches leave 253 to the panic at the end. */
  function VarUint(value: nat): Result<string> {
    if value <= 252 then Ok(Hex.Encode([value]))
    else if 0xfd < value <= 0xffff then Ok(Hex.Encode([0xfd] + LE(value, 2)))
    else if 0xffff < value <= 0xffff_ffff then Ok(Hex.Encode([0xfe] + LE(value, 4)))
    else if 0xffff_ffff < value < U64 then Ok(Hex.Encode([0xff] + LE(value, 8)))
    else Err(Panic)
  }

  /** `varUint` agrees with the standard on exactly the 64-bit values other than 253. */
  lemma VarUintIsCompactSize(value: nat)
    requires value < U64
    ensures VarUint(value).Ok? <==> value != 253
    ensures value != 253 ==> VarUint(value) == Ok(Hex.Encode(CompactSize(value)))
  {
  }

  function ReadLE(b: Bytes, n: nat): Option<(nat, Bytes)> {
    if |b| < n then None else Some((FromLE(b[..n]), b[n..]))
  }

  /** Reads a compact size in any of its four forms, minimal or not. */
  function ReadCompactSize(b: Bytes): (r: Option<(nat, Bytes)>)
    ensures r.Some? ==> |r.value.1| < |b|
  {
    if b == [] then None
    else if b[0] == 0xfd then ReadLE(b[1..], 2)
    else if b[0] == 0xfe then ReadLE(b[1..], 4)
    else if b[0] == 0xff then ReadLE(b[1..], 8)
    else Some((b[0], b[1..]))
  }

  lemma ReadLEOfLE(v: nat, n: nat, rest: Bytes)
    requires v < Pow256(n)
    ensures ReadLE(LE(v, n) + rest, n) == Some((v, rest))
  {
    var b := LE(v, n) + rest;
    assert b[..n] == LE(v, n) && b[n..] == rest;
    FromLEOfLE(v, n);
    DivModUnique(v, Pow256(n), 0, v);
  }

  lemma Widths()
    ensures Pow256(2) == 0x1_0000 && Pow256(4) == 0x1_0000_0000 && Pow256(8) == U64
  {
    assert Pow256(2) == 256 * Pow256(1);
    assert Pow256(4) == 256 * (256 * Pow256(2));
    assert Pow256(8) == 256 * (256 * (256 * (256 * Pow256(4))));
  }

  lemma CompactSizeRoundTrip(v: nat, rest: Bytes)
    requires v < U64
    ensures ReadCompactSize(CompactSize(v) + rest) == Some((v, rest))
  {
    Widths();
    var b := CompactSize(v) + rest;
    if v <= 0xfc {
    } else if v <= 0xffff {
      assert b[1..] == LE(v, 2) + rest;
      ReadLEOfLE(v, 2, rest);
    } else if v <= 0xffff_ffff {
      assert b[1..] == LE(v, 4) + rest;
      ReadLEOfLE(v, 4, rest);
    } else {
      assert b[1..] == LE(v, 8) + rest;
      ReadLEOfLE(v, 8, rest);
    }
  }

  /** No byte string of any form that reads back as `v` is shorter than what `varUint` writes for it. */
  lemma VarUintShortest(v: nat, other: Bytes)
    requires v < U64 && v != 253
    requires ReadCompactSize(other) == Some((v, []))
    ensures VarUint(v).Ok? && |VarUint(v).value| <= 2 * |other|
  {
    Widths();
    if other[0] >= 0xfd {
      LEOfFromLE(other[1..]);
      assert other[1..][..|other| - 1] == other[1..];
    }
  }

  /** Codes are prefix-free: a stream that starts with two codes starts with one. */
  lemma VarUintPrefixFree(v: nat, w: nat, s: Bytes, t: Bytes)
    requires VarUint(v).Ok? && VarUint(w).Ok?
    requires Hex.IsHex(VarUint(v).value) && Hex.IsHex(VarUint(w).value)
    requires Hex.Bytes(VarUint(v).value) + s == Hex.Bytes(VarUint(w).value) + t
    ensures v == w && s == t
  {
    VarUintIsCompactSize(v);
    VarUintIsCompactSize(w);
    Hex.DecodeEncode(CompactSize(v));
    Hex.DecodeEncode(CompactSize(w));
    CompactSizeRoundTrip(v, s);
    CompactSizeRoundTrip(w, t);
  }

  // ---------- reversals ----------

  /** utils.ReverseBytes: fills a fresh slice from the far end of `data`. */
  method ReverseBytes(data: Bytes) returns (r: Bytes)
    ensures r == Reversed(data)
  {
    var reversed := new Byte[|data|];
    for i := 0 to |data|
      invariant forall k :: 0 <= k < i ==> reversed[k] == data[|data| - 1 - k]
    {
      reversed[i] := data[|data| - 1 - i];
    }
    r := reversed[..];
  }

  /** bitcoin.reverse: the same result, written back to front. */
  method Reverse(b: Bytes) returns (r: Bytes)
    ensures r == Reversed(b)
  {
    var buffer := new Byte[|b|];
    for index := 0 to |b|
      invariant forall k :: 0 <= k < index ==> buffer[|b| - 1 - k] == b[k]
    {
      buffer[|b| - 1 - index] := b[index];
    }
    assert forall k :: 0 <= k < |b| ==> buffer[k] == b[|b| - 1 - k] by {
      forall k | 0 <= k < |b| ensures buffer[k] == b[|b| - 1 - k] {
        assert buffer[|b| - 1 - (|b| - 1 - k)] == b[|b| - 1 - k];
      }
    }
    r := buffer[..];
  }

  lemma ReversedInvolution<T>(s: seq<T>)
    ensures Reversed(Reversed(s)) == s
  {
  }

  /** The two-character groups of `s` in opposite order. */
  function PairsReversed(s: string): (r: string)
    requires |s| % 2 == 0
    ensures |r| == |s|
  {
    if s == [] then [] else PairsReversed(s[2..]) + s[..2]
  }

  /** The eight-character groups of `s` in opposite order. */
  function WordsReversed(s: string): (r: string)
    requires |s| % 8 == 0
    ensures |r| == |s|
  {
    if s == [] then [] else WordsReversed(s[8..]) + s[..8]
  }

  /** The four bytes of each eight-character word swapped in place, which is how a miner reads the job field. */
  function WordBytesSwapped(s: string): (r: string)
    requires |s| % 8 == 0
    ensures |r| == |s|
  {
    if s == [] then [] else PairsReversed(s[..8]) + WordBytesSwapped(s[8..])
  }

  method ReverseHexBytes(hex: string) returns (r: Result<string>)
    ensures r == if |hex| % 2 == 0 then Ok(PairsReversed(hex)) else Err(OddLength)
  {
    if |hex| % 2 != 0 {
      return Err(OddLength);
    }
    var o := "";
    var i := |hex|;
    while i > 0
      invariant 0 <= i <= |hex| && i % 2 == 0
      invariant o == PairsReversed(hex[i..])
    {
      assert hex[i - 2..][2..] == hex[i..] && hex[i - 2..][..2] == hex[i - 2..i];
      o := o + hex[i - 2..i];
      i := i - 2;
    }
    assert hex[0..] == hex;
    return Ok(o);
  }

  method ReverseHex4Bytes(hex: string) returns (r: Result<string>)
    ensures r == if |hex| % 8 == 0 then Ok(WordsReversed(hex)) else Err(OddLength)
  {
    if |hex| % 8 != 0 {
      return Err(OddLength);
    }
    var o := "";
    var l := |hex|;
    for i := 0 to l / 8
      invariant o == WordsReversed(hex[l - 8 * i..])
    {
      var j := l - 8 * (i + 1);
      assert hex[j..][8..] == hex[l - 8 * i..] && hex[j..][..8] == hex[j..l - 8 * i];
      o := o + hex[j..l - 8 * i];
    }
    assert hex[0..] == hex;
    return Ok(o);
  }

  lemma {:induction false} PairsReversedConcat(a: string, b: string)
    requires |a| % 2 == 0 && |b| % 2 == 0
    ensures PairsReversed(a + b) == PairsReversed(b) + PairsReversed(a)
  {
    if a == [] {
      ConcatEmpty(b);
      ConcatEmpty(PairsReversed(b));
    } else {
      PairsReversedConcat(a[2..], b);
      SplitWithin(a, b, 2);
      ConcatAssoc(PairsReversed(b), PairsReversed(a[2..]), a[..2]);
    }
  }

  lemma {:induction false} WordsReversedConcat(a: string, b: string)
    requires |a| % 8 == 0 && |b| % 8 == 0
    ensures WordsReversed(a + b) == WordsReversed(b) + WordsReversed(a)
  {
    if a == [] {
      ConcatEmpty(b);
      ConcatEmpty(WordsReversed(b));
    } else {
      WordsReversedConcat(a[8..], b);
      SplitWithin(a, b, 8);
      ConcatAssoc(WordsReversed(b), WordsReversed(a[8..]), a[..8]);
    }
  }

  lemma {:induction false} WordBytesSwappedConcat(a: string, b: string)
    requires |a| % 8 == 0 && |b| % 8 == 0
    ensures WordBytesSwapped(a + b) == WordBytesSwapped(a) + WordBytesSwapped(b)
  {
    if a == [] {
      ConcatEmpty(b);
      ConcatEmpty(WordBytesSwapped(b));
    } else {
      WordBytesSwappedConcat(a[8..], b);
      SplitWithin(a, b, 8);
      ConcatAssoc(PairsReversed(a[..8]), WordBytesSwapped(a[8..]), WordBytesSwapped(b));
    }
  }

  lemma {:induction false} PairsReversedInvolution(s: string)
    requires |s| % 2 == 0
    ensures PairsReversed(PairsReversed(s)) == s
  {
    if s != [] {
      PairsReversedConcat(PairsReversed(s[2..]), s[..2]);
      PairsReversedInvolution(s[2..]);
      assert PairsReversed(s[..2]) == s[..2];
    }
  }

  lemma {:induction false} WordsReversedInvolution(s: string)
    requires |s| % 8 == 0
    ensures WordsReversed(WordsReversed(s)) == s
  {
    if s != [] {
      WordsReversedConcat(WordsReversed(s[8..]), s[..8]);
      WordsReversedInvolution(s[8..]);
      assert WordsReversed(s[..8]) == s[..8];
    }
  }

  /** The job's previous-hash field, read word by word, carries the byte order the header uses. */
  lemma {:induction false} JobPrevHashAgrees(s: string)
    requires |s| % 8 == 0
    ensures WordBytesSwapped(WordsReversed(s)) == PairsReversed(s)
  {
    if s != [] {
      JobPrevHashAgrees(s[8..]);
      WordBytesSwappedConcat(WordsReversed(s[8..]), s[..8]);
      assert s[..8][..8] == s[..8] && s[..8][8..] == [];
      assert WordBytesSwapped(s[..8]) == PairsReversed(s[..8]) + [];
      PairsReversedConcat(s[..8], s[8..]);
      assert s == s[..8] + s[8..];
    }
  }

  /** Reversing the text pairwise is reversing the bytes. */
  lemma {:induction false} PairsReversedDecodes(s: string)
    requires Hex.IsHex(s)
    ensures Hex.IsHex(PairsReversed(s)) && Hex.Bytes(PairsReversed(s)) == Reversed(Hex.Bytes(s))
  {
    if s != [] {
      assert s == s[..2] + s[2..];
      Hex.DecodeConcat(s[..2], s[2..]);
      PairsReversedDecodes(s[2..]);
      Hex.DecodeConcat(PairsReversed(s[2..]), s[..2]);
    }
  }
}
