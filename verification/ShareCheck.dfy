/** pool/share.go and bitcoin/target.go: what a submitted share is worth, and which chains it solves. */
module ShareCheck {
  import opened Base
  import opened Encoding
  import opened Block
  import Hex

  // ---------- numbers as text ----------

  function Unsigned(s: string): Option<int> {
    if s != "" && Hex.AllDigits(s) then Some(Hex.Digits(s)) else None
  }

  /** `big.Int.SetString` in base 16: an optional sign, then at least one digit; anything else yields nil. */
  function Number(s: string): Option<int> {
    if s != "" && s[0] == '-' then
      var n :- Unsigned(s[1..]);
      Some(-n)
    else if s != "" && s[0] == '+' then Unsigned(s[1..])
    else Unsigned(s)
  }

  /** `big.Int.Text(16)`. */
  function NumberText(n: int): string {
    if n < 0 then "-" + Hex.DigitText(-n) else Hex.DigitText(n)
  }

  /** What is a number at all: digits, at least one, behind one sign at most. */
  lemma SignedTexts(s: string)
    ensures Number("+" + s) == Unsigned(s)
    ensures Number("-" + s) == match Unsigned(s) case Some(n) => Some(-n) case None => None
    ensures s == "" || (s[0] != '+' && s[0] != '-') ==> Number(s) == Unsigned(s)
    ensures Unsigned(s).Some? <==> s != "" && Hex.AllDigits(s)
    ensures s != "" && Hex.AllDigits(s) ==> Unsigned(s) == Some(Hex.Digits(s) as int)
  {
    HeadTail('+', s);
    HeadTail('-', s);
  }

  /** Every number reads back from its text. */
  lemma NumberOfText(n: int)
    ensures Number(NumberText(n)) == Some(n)
  {
    if n < 0 {
      HeadTail('-', Hex.DigitText(-n));
    } else {
      var s := Hex.DigitText(n);
      assert Hex.DigitValue(s[0]).Some?;
    }
  }

  /** A target of whole bytes is read most significant byte first, as a chain's own node gives it. */
  lemma TargetIsBigEndian(s: string)
    requires Hex.IsHex(s) && s != ""
    ensures Number(s) == Some(BigEndian(s))
  {
    DigitsAreBytes(s);
    assert Hex.DigitValue(s[0]).Some?;
  }

  /** An auxiliary chain's target is reversed first, so it is read least significant byte first. */
  lemma AuxTargetIsLittleEndian(s: string)
    requires Hex.IsHex(s) && s != ""
    ensures Number(PairsReversed(s)) == Some(FromLE(Hex.Bytes(s)))
  {
    PairsReversedDecodes(s);
    TargetIsBigEndian(PairsReversed(s));
    ReversedInvolution(Hex.Bytes(s));
  }

  // ---------- targets and difficulties ----------

  /** The highest target, 0xffff followed by 52 zero digits. */
  const HIGHEST: nat := 0x00000000ffff0000000000000000000000000000000000000000000000000000

  /** A quotient of big floats: division by zero gives an infinity. */
  datatype Difficulty = Finite(value: real) | Infinite

  /** `big.Float.Int`: towards zero. */
  function Truncated(x: real): (n: int)
    ensures x >= 0.0 ==> 0.0 <= n as real <= x < n as real + 1.0
    ensures x <= 0.0 ==> n as real - 1.0 < x <= n as real <= 0.0
  {
    if x >= 0.0 then x.Floor else -((-x).Floor)
  }

  /** `TargetFromDifficulty`; the infinite quotient has no integer, and its text "<nil>" is no number. */
  function TargetFromDifficulty(d: real): string {
    if d == 0.0 then "<nil>" else NumberText(Truncated(HIGHEST as real / d))
  }

  /** `ToDifficulty`: panics on a text that is no number. */
  function ToDifficulty(target: string): Result<Difficulty> {
    match Number(target)
    case None => Err(Panic)
    case Some(t) => Ok(if t == 0 then Infinite else Finite(HIGHEST as real / t as real))
  }

  /** The difficulty of every target there is a text for: the highest target over it. */
  lemma DifficultyOfNumber(t: int)
    ensures ToDifficulty(NumberText(0)) == Ok(Infinite)
    ensures t != 0 ==>
      ToDifficulty(NumberText(t))
        == Ok(Finite(0x00000000ffff0000000000000000000000000000000000000000000000000000 as real / t as real))
  {
    NumberOfText(0);
    NumberOfText(t);
  }

  lemma Times(a: real, b: real, c: real)
    requires a < b && c > 0.0
    ensures a * c < b * c
  {
  }

  lemma Over(a: real, b: real, c: real)
    requires c > 0.0
    ensures a < b <==> a / c < b / c
    ensures a == b <==> a / c == b / c
    ensures (a * c) / c == a && (a / c) * c == a && c / c == 1.0
  {
  }

  lemma Expand(t: real, d: real)
    ensures (t + 1.0) * d == d * t + d && t * d == d * t
  {
  }

  lemma QuotientBelow(h: real, d: real, t: real)
    requires d > 0.0 && h / d < t + 1.0
    ensures h < d * t + d
  {
    Over(h, h, d);
    Times(h / d, t + 1.0, d);
    Expand(t, d);
  }

  lemma QuotientAbove(h: real, d: real, t: real)
    requires d > 0.0 && t <= h / d
    ensures d * t <= h
  {
    Over(h, h, d);
    Expand(t, d);
    if t < h / d {
      Times(t, h / d, d);
    }
  }

  /** How far a quotient moves when its divisor is the whole part of another quotient. */
  lemma Divide(h: real, d: real, t: real)
    requires d > 0.0 && t >= 1.0 && t <= h / d < t + 1.0
    ensures d <= h / t < d * (1.0 + 1.0 / t)
  {
    QuotientBelow(h, d, t);
    QuotientAbove(h, d, t);
    Over(h, d * t, t);
    Over(d, d, t);
    Over(h, d * t + d, t);
    Spread(d, t);
  }

  lemma Spread(d: real, t: real)
    requires t > 0.0
    ensures (d * t + d) / t == d * (1.0 + 1.0 / t)
  {
    Over(1.0, 1.0, t);
    assert (d * (1.0 + 1.0 / t)) * t == d * t + d by {
      assert d * (1.0 + 1.0 / t) == d + d * (1.0 / t);
      assert (d * (1.0 / t)) * t == d * ((1.0 / t) * t);
    }
    Over(d * (1.0 + 1.0 / t), d, t);
  }

  lemma WholePart(h: real, d: real)
    requires h > 0.0 && d > 0.0
    ensures var t := (h / d).Floor;
      && t >= 0 && (t == 0 <==> d > h)
      && (d <= h ==> d <= h / t as real < d * (1.0 + 1.0 / t as real))
  {
    Over(0.0, h, d);
    Over(h, d, d);
    Over(d, h, d);
    var t := (h / d).Floor;
    if d <= h {
      Divide(h, d, t as real);
    }
  }

  /** The difficulty credited for a share: that of the target the pool rounds its own difficulty to. */
  function Credited(d: real): Result<Difficulty> {
    ToDifficulty(TargetFromDifficulty(d))
  }

  lemma CreditedIs(d: real)
    requires d > 0.0 && HIGHEST as real / d >= 0.0
    ensures var t := (HIGHEST as real / d).Floor;
      Credited(d) == Ok(if t == 0 then Infinite else Finite(HIGHEST as real / t as real))
  {
    NumberOfText((HIGHEST as real / d).Floor);
  }

  /** Rounding the target down never credits less than the pool's difficulty, and barely more. */
  lemma CreditedBound(d: real)
    requires d > 0.0
    ensures Credited(d).Ok?
    ensures var highest := 0x00000000ffff0000000000000000000000000000000000000000000000000000;
      && (Credited(d).value.Infinite? <==> d > highest as real)
      && (d <= highest as real ==>
          var t := (highest as real / d).Floor as real;
          t >= 1.0 && d <= Credited(d).value.value < d * (1.0 + 1.0 / t))
  {
    WholePart(HIGHEST as real, d);
    Over(0.0, HIGHEST as real, d);
    CreditedIs(d);
  }

  // ---------- the share ----------

  datatype ShareStatus = Invalid | Valid | Candidate

  datatype Weighed = Weighed(status: ShareStatus, solves: seq<bool>, difficulty: Difficulty)

  /** The header's digest as a number; nil when there is no readable header, which the caller only logs. */
  function HeaderSum(scrypt: HashFn, header: string): Option<nat> {
    if header == "" || !Hex.IsHex(header) then None else Some(FromLE(scrypt(Hex.Bytes(header))))
  }

  /** The primary chain's target at 0, the auxiliary chains' behind it; odd-length hexadecimal panics. */
  function TargetAt(t: Template, i: nat): Result<Option<int>>
    requires i <= |t.auxBlocks|
  {
    if i == 0 then Ok(Number(t.target))
    else if |t.auxBlocks[i - 1].target| % 2 != 0 then Err(Panic)
    else Ok(Number(PairsReversed(t.auxBlocks[i - 1].target)))
  }

  /** `Cmp(...) <= 0` on pointers: two nils compare equal, a single one panics. */
  function AtMost(sum: Option<nat>, target: Option<int>): Result<bool> {
    if sum.Some? && target.Some? then Ok(sum.value <= target.value)
    else if sum.None? && target.None? then Ok(true)
    else Err(Panic)
  }

  function Solves(sum: Option<nat>, t: Template, i: nat): Result<bool>
    requires i <= |t.auxBlocks|
  {
    var target :- TargetAt(t, i);
    AtMost(sum, target)
  }

  predicate Comparable(sum: Option<nat>, t: Template) {
    forall i :: 0 <= i <= |t.auxBlocks| ==> Solves(sum, t, i).Ok?
  }

  /** One flag a chain, set exactly when the sum is at most that chain's target. */
  predicate Flagged(solves: seq<bool>, sum: Option<nat>, t: Template) {
    && |solves| == |t.auxBlocks| + 1
    && forall i :: 0 <= i < |solves| ==> Solves(sum, t, i) == Ok(solves[i])
  }

  /** A comparison that goes through: of two numbers, or of two values that are both missing. */
  lemma SolvesMeans(sum: Option<nat>, t: Template, i: nat)
    requires i <= |t.auxBlocks| && Solves(sum, t, i).Ok?
    ensures TargetAt(t, i).Ok? && (sum.Some? <==> TargetAt(t, i).value.Some?)
    ensures Solves(sum, t, i).value <==> sum.None? || sum.value <= TargetAt(t, i).value.value
  {
  }

  /** The comparisons with the primary target and, in a loop, with the auxiliary ones. */
  method FlagChains(sum: Option<nat>, t: Template) returns (r: Result<seq<bool>>, validShare: bool)
    ensures r.Ok? <==> Comparable(sum, t)
    ensures r.Err? ==> r.why == Panic
    ensures r.Ok? ==> Flagged(r.value, sum, t) && (validShare <==> true in r.value)
    ensures r.Ok? ==> forall i :: 0 <= i < |r.value| ==>
      && TargetAt(t, i).Ok? && (sum.Some? <==> TargetAt(t, i).value.Some?)
      && (r.value[i] <==> sum.None? || sum.value <= TargetAt(t, i).value.value)
  {
    var first := Solves(sum, t, 0);
    if first.Err? {
      return Err(Panic), false;
    }
    validShare := first.value;
    var candidate := [first.value];
    for i := 0 to |t.auxBlocks|
      invariant |candidate| == i + 1
      invariant forall k :: 0 <= k < |candidate| ==> Solves(sum, t, k) == Ok(candidate[k])
      invariant validShare <==> true in candidate
    {
      var solved := Solves(sum, t, i + 1);
      if solved.Err? {
        return Err(Panic), false;
      }
      validShare := validShare || solved.value;
      candidate := candidate + [solved.value];
    }
    forall i | 0 <= i < |candidate|
      ensures TargetAt(t, i).Ok? && (sum.Some? <==> TargetAt(t, i).value.Some?)
      ensures candidate[i] <==> sum.None? || sum.value <= TargetAt(t, i).value.value
    {
      SolvesMeans(sum, t, i);
    }
    return Ok(candidate), validShare;
  }

  /** What the pool's own target says about a share that solves no chain. */
  function PoolStatus(sum: Option<nat>, d: real): ShareStatus {
    if AtMost(sum, Number(TargetFromDifficulty(d))) == Ok(true) then Valid else Invalid
  }

  /** A share is a candidate when some flag is set; otherwise the pool's target decides. */
  predicate Judged(w: Weighed, sum: Option<nat>, t: Template, d: real) {
    && Flagged(w.solves, sum, t)
    && w.status == (if true in w.solves then Candidate else PoolStatus(sum, d))
    && Credited(d) == Ok(w.difficulty)
  }

  method ValidateAndWeighShare(block: BitcoinBlock, scrypt: HashFn, poolDifficulty: real, shareMultiplier: real)
    returns (r: Result<Weighed>)
    requires shareMultiplier != 0.0
    modifies block`hash
    ensures var sum, d := HeaderSum(scrypt, block.header), poolDifficulty / shareMultiplier;
      && (r.Ok? <==> block.template.Some? && d != 0.0 && Comparable(sum, block.template.value))
      && (r.Err? ==> r.why == Panic)
      && (r.Ok? ==> Judged(r.value, sum, block.template.value, d))
    ensures HeaderSum(scrypt, block.header).None? ==> block.hash == old(block.hash)
    ensures HeaderSum(scrypt, block.header).Some? ==>
      Sized(block.hash, 32) && Hex.Bytes(block.hash) == Reversed(scrypt(Hex.Bytes(block.header)))
  {
    var computed := block.Sum(scrypt);
    var primarySum := if computed.Ok? then Some(computed.value) else None;
    if block.template == None {
      return Err(Panic);
    }
    var d := poolDifficulty / shareMultiplier;
    PoolTargetReads(d);
    var shareDifficulty := Credited(d);
    if shareDifficulty.Err? {
      return Err(Panic);
    }
    var candidate, validShare := FlagChains(primarySum, block.template.value);
    if candidate.Err? {
      return Err(Panic);
    }
    var status := if validShare then Candidate else PoolStatus(primarySum, d);
    return Ok(Weighed(status, candidate.value, shareDifficulty.value));
  }

  lemma PoolTargetReads(d: real)
    ensures Credited(d).Ok? <==> d != 0.0
    ensures Number(TargetFromDifficulty(d)).Some? <==> d != 0.0
  {
    if d == 0.0 {
      assert Hex.DigitValue('<').None?;
    } else {
      NumberOfText(Truncated(HIGHEST as real / d));
    }
  }

  /** Targets of whole bytes, as nodes send them: every comparison goes through, in the byte order of its chain. */
  lemma SolvesByBytes(sum: nat, t: Template)
    requires t.target != "" && Hex.IsHex(t.target)
    requires forall i :: 0 <= i < |t.auxBlocks| ==> t.auxBlocks[i].target != "" && Hex.IsHex(t.auxBlocks[i].target)
    ensures Comparable(Some(sum), t)
    ensures Solves(Some(sum), t, 0) == Ok(sum <= BigEndian(t.target))
    ensures forall i :: 0 <= i < |t.auxBlocks| ==>
      Solves(Some(sum), t, i + 1) == Ok(sum <= FromLE(Hex.Bytes(t.auxBlocks[i].target)))
  {
    TargetIsBigEndian(t.target);
    forall i | 0 <= i < |t.auxBlocks|
      ensures Solves(Some(sum), t, i + 1) == Ok(sum <= FromLE(Hex.Bytes(t.auxBlocks[i].target)))
    {
      AuxTargetIsLittleEndian(t.auxBlocks[i].target);
    }
    forall i | 0 <= i <= |t.auxBlocks| ensures Solves(Some(sum), t, i).Ok? {
      assert i > 0 ==> Solves(Some(sum), t, (i - 1) + 1).Ok?;
    }
  }

  /** What the header solves, in numbers. */
  predicate SolvesSome(sum: nat, t: Template)
    requires Hex.IsHex(t.target)
    requires forall i :: 0 <= i < |t.auxBlocks| ==> Hex.IsHex(t.auxBlocks[i].target)
  {
    sum <= BigEndian(t.target)
    || exists i :: 0 <= i < |t.auxBlocks| && sum <= FromLE(Hex.Bytes(t.auxBlocks[i].target))
  }

  /** Share classification in numbers, for every sum and every positive pool difficulty. */
  lemma Classification(w: Weighed, sum: nat, t: Template, d: real)
    requires t.target != "" && Hex.IsHex(t.target) && d > 0.0
    requires forall i :: 0 <= i < |t.auxBlocks| ==> t.auxBlocks[i].target != "" && Hex.IsHex(t.auxBlocks[i].target)
    requires Judged(w, Some(sum), t, d)
    ensures w.status.Candidate? <==> SolvesSome(sum, t)
    ensures w.status.Valid? <==>
      !SolvesSome(sum, t) && sum <= (0x00000000ffff0000000000000000000000000000000000000000000000000000 as real / d).Floor
    ensures forall i :: 0 <= i < |t.auxBlocks| ==>
      (w.solves[i + 1] <==> sum <= FromLE(Hex.Bytes(t.auxBlocks[i].target)))
  {
    SolvesByBytes(sum, t);
    Over(0.0, HIGHEST as real, d);
    NumberOfText((HIGHEST as real / d).Floor);
    forall i | 0 <= i < |t.auxBlocks|
      ensures w.solves[i + 1] <==> sum <= FromLE(Hex.Bytes(t.auxBlocks[i].target))
    {
      assert Solves(Some(sum), t, i + 1) == Ok(w.solves[i + 1]);
    }
    assert Solves(Some(sum), t, 0) == Ok(w.solves[0]);
    if true in w.solves {
      var k :| 0 <= k < |w.solves| && w.solves[k];
      assert k > 0 ==> w.solves[(k - 1) + 1];
    }
  }
}
