/** Shared vocabulary: byte strings, digests, failures, and a few sequence operations. */
module Base {

  datatype Option<+T> = None | Some(value: T) {
    predicate IsFailure() {
      None?
    }

    function PropagateFailure<U>(): Option<U>
      requires None?
    {
      None
    }

    function Extract(): T
      requires Some?
    {
      value
    }
  }

  /** Why an operation stopped.  `Panic` stands for a Go run-time panic; the others are returned errors. */
  datatype Failure =
    | MalformedHex
    | OddLength
    | NoTemplate
    | NoHeader
    | NoNode
    | NoPayoutConfig
    | NoAddress
    | SendFailed
    | StatementFailed
    | Overflow
    | Panic

  datatype Result<+T> = Ok(value: T) | Err(why: Failure) {
    predicate IsFailure() {
      Err?
    }

    function PropagateFailure<U>(): Result<U>
      requires Err?
    {
      Err(why)
    }

    function Extract(): T
      requires Ok?
    {
      value
    }
  }

  type Byte = x: nat | x < 256

  type Bytes = seq<Byte>

  type Digest = b: Bytes | |b| == 32 witness seq(32, _ => 0)

  /** Double SHA-256 and scrypt are parameters of this shape: any total function to 32 bytes. */
  type HashFn = Bytes -> Digest

  function Pow2(n: nat): (p: nat)
    ensures p >= 1
  {
    if n == 0 then 1 else 2 * Pow2(n - 1)
  }

  lemma {:induction false} Pow2Add(m: nat, n: nat)
    ensures Pow2(m + n) == Pow2(m) * Pow2(n)
  {
    if m > 0 {
      Pow2Add(m - 1, n);
      assert Pow2(m + n) == 2 * Pow2(m - 1 + n);
    }
  }

  lemma {:induction false} Pow2Monotonic(m: nat, n: nat)
    requires m < n
    ensures 2 * Pow2(m) <= Pow2(n)
  {
    if m + 1 < n {
      Pow2Monotonic(m, n - 1);
    }
  }

  function Reversed<T>(s: seq<T>): (r: seq<T>)
    ensures |r| == |s|
  {
    seq(|s|, i requires 0 <= i < |s| => s[|s| - 1 - i])
  }

  function Flatten<T>(s: seq<seq<T>>): seq<T> {
    if s == [] then [] else s[0] + Flatten(s[1..])
  }

  lemma {:induction false} FlattenAppend<T>(s: seq<seq<T>>, x: seq<T>)
    ensures Flatten(s + [x]) == Flatten(s) + x
  {
    if s == [] {
      HeadTail(x, []);
      ConcatEmpty([x]);
      ConcatEmpty(x);
    } else {
      SplitWithin(s, [x], 1);
      FlattenAppend(s[1..], x);
      ConcatAssoc(s[0], Flatten(s[1..]), x);
    }
  }

  function Zeros(n: nat): (z: Bytes)
    ensures |z| == n
  {
    seq(n, _ => 0)
  }

  // ---------- sequence facts, kept apart so that callers stay cheap ----------

  lemma ConcatAssoc<T>(a: seq<T>, b: seq<T>, c: seq<T>)
    ensures a + (b + c) == (a + b) + c
  {
  }

  lemma ConcatEmpty<T>(a: seq<T>)
    ensures [] + a == a && a + [] == a
  {
  }

  lemma SplitWithin<T>(a: seq<T>, b: seq<T>, k: nat)
    requires k <= |a|
    ensures (a + b)[..k] == a[..k] && (a + b)[k..] == a[k..] + b
    ensures forall i :: 0 <= i < |a| ==> (a + b)[i] == a[i]
  {
  }

  lemma SplitBetween<T>(a: seq<T>, b: seq<T>)
    ensures (a + b)[..|a|] == a && (a + b)[|a|..] == b
  {
  }

  lemma TakeDrop<T>(s: seq<T>, k: nat)
    requires k <= |s|
    ensures s == s[..k] + s[k..]
  {
  }

  lemma TakeNext<T>(s: seq<T>, i: nat)
    requires i < |s|
    ensures s[..i + 1] == s[..i] + [s[i]] && s[i..] == [s[i]] + s[i + 1..]
  {
  }

  lemma TakeAll<T>(s: seq<T>)
    ensures s[..|s|] == s && s[0..] == s
  {
  }

  lemma HeadTail<T>(x: T, s: seq<T>)
    ensures ([x] + s)[0] == x && ([x] + s)[1..] == s
  {
  }

  lemma ConsBack<T>(s: seq<T>)
    requires s != []
    ensures [s[0]] + s[1..] == s
  {
  }

  lemma DropDrop<T>(s: seq<T>, j: nat, k: nat)
    requires j + k <= |s|
    ensures s[j..][k..] == s[j + k..]
    ensures forall i :: 0 <= i < |s| - j ==> s[j..][i] == s[j + i]
  {
  }

  // ---------- map iteration ----------

  /** Some order in which every key comes once, since Go's map iteration fixes none. */
  predicate Enumerates(order: seq<string>, keys: set<string>) {
    && (forall i, j :: 0 <= i < j < |order| ==> order[i] != order[j])
    && (forall i :: 0 <= i < |order| ==> order[i] in keys)
    && (forall k :: k in keys ==> k in order)
  }

  method SomeOrder(keys: set<string>) returns (order: seq<string>)
    ensures Enumerates(order, keys)
  {
    order := [];
    var todo := keys;
    while todo != {}
      invariant todo <= keys && Enumerates(order, keys - todo)
      decreases |todo|
    {
      var c :| c in todo;
      EnumeratesNext(order, keys - todo, c);
      assert keys - todo + {c} == keys - (todo - {c});
      order := order + [c];
      todo := todo - {c};
    }
    assert keys - todo == keys;
  }

  lemma AnyOrder(keys: set<string>) returns (order: seq<string>)
    ensures Enumerates(order, keys)
    decreases |keys|
  {
    if keys == {} {
      order := [];
    } else {
      var k :| k in keys;
      var rest := AnyOrder(keys - {k});
      order := rest + [k];
      EnumeratesNext(rest, keys - {k}, k);
      assert keys - {k} + {k} == keys;
    }
  }

  lemma EnumeratesNext(order: seq<string>, keys: set<string>, k: string)
    requires Enumerates(order, keys) && k !in keys
    ensures Enumerates(order + [k], keys + {k})
  {
  }
}
