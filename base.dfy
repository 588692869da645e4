/** Shared value types of the model: Java's signed byte, the error outcomes the
    source raises, the digest function the engine is built with, and the small
    pieces of java.lang the hashing code relies on (Integer/Long.toString,
    String.indexOf, String.compareTo). */
module Base {

  /** Java `byte`: a signed 8-bit value. Files and digests are `byte[]`. */
  newtype int8 = b: int | -128 <= b < 128

  type Bytes = seq<int8>

  const INT_MAX: int := 0x7fff_ffff
  const INT_MIN: int := -0x8000_0000

  /** The number of bytes every digest of the engine has (SHA-256). */
  const DIGEST_LENGTH: nat := 32

  /** The exceptions the modelled code raises, as error values. */
  datatype Error =
    | IllegalArgument        // java.lang.IllegalArgumentException
    | FileNotFound           // java.io.FileNotFoundException
    | IOFailure              // any other java.io.IOException
    | StringIndexOutOfBounds // java.lang.StringIndexOutOfBoundsException

  datatype Result<T> = Ok(value: T) | Err(error: Error)

  datatype Option<T> = None | Some(value: T)

  /** A digest that ignores its input; only the witness of `DigestFn`. */
  function ConstantDigest(s: Bytes): Bytes {
    seq(DIGEST_LENGTH, _ => 0)
  }

  /** `MessageDigest.getInstance(algorithm)` as a function of the concatenated
      `update` stream: `update(a); update(b); digest()` gives `H(a + b)`. */
  type DigestFn = f: Bytes -> Bytes | forall s :: |f(s)| == DIGEST_LENGTH witness ConstantDigest

  /** `n` zero bytes, as `new byte[n]` filled with `(byte)0`. */
  function ZeroBytes(n: nat): (r: Bytes)
    ensures |r| == n && forall k :: 0 <= k < n ==> r[k] == 0
  {
    seq(n, _ => 0)
  }

  /** The value a Java byte has when read as unsigned. */
  function Unsigned(b: int8): (u: nat)
    ensures u < 256
    ensures b >= 0 ==> u == b as int
    ensures b < 0 ==> u == b as int + 256
  {
    if b < 0 then b as int + 256 else b as int
  }

  /** Java's `/` on integers, which truncates toward zero (Dafny's `/` is Euclidean). */
  function TruncDiv(a: int, b: int): (q: int)
    requires b > 0
    ensures a >= 0 ==> q == a / b
    ensures a < 0 ==> q == -((-a) / b)
  {
    if a >= 0 then a / b else -((-a) / b)
  }

  // ---------------------------------------------------------------------------
  // Decimal rendering (Integer.toString / Long.toString, and `x + ""`)

  function DigitChar(d: nat): (c: char)
    requires d < 10
    ensures '0' <= c <= '9' && c as int - '0' as int == d
  {
    ('0' as int + d) as char
  }

  predicate IsDigit(c: char) {
    '0' <= c <= '9'
  }

  /** The decimal digits of `n`, most significant first, without leading zeros. */
  function Decimal(n: nat): (s: string)
    ensures |s| >= 1
    ensures forall k :: 0 <= k < |s| ==> IsDigit(s[k])
  {
    if n < 10 then [DigitChar(n)] else Decimal(n / 10) + [DigitChar(n % 10)]
  }

  /** Different numbers have different decimal renderings. */
  lemma {:induction false} DecimalInjective(n: nat, m: nat)
    requires Decimal(n) == Decimal(m)
    ensures n == m
    decreases n
  {
    if n < 10 && m < 10 {
      assert DigitChar(n) == Decimal(n)[0] == DigitChar(m);
    } else if n >= 10 && m >= 10 {
      var s := Decimal(n);
      assert s == Decimal(n / 10) + [DigitChar(n % 10)];
      assert Decimal(m) == Decimal(m / 10) + [DigitChar(m % 10)];
      assert DigitChar(n % 10) == s[|s| - 1] == DigitChar(m % 10);
      assert Decimal(n / 10) == s[..|s| - 1] == Decimal(m / 10);
      DecimalInjective(n / 10, m / 10);
    }
  }

  /** Java's decimal rendering of a signed integer. */
  function IntToString(i: int): (s: string)
    ensures |s| >= 1 && ':' !in s
    ensures s[0] == '-' || IsDigit(s[0])
  {
    if i < 0 then "-" + Decimal(-i) else Decimal(i)
  }

  /** `Integer.toString` is injective. */
  lemma IntToStringInjective(i: int, j: int)
    requires IntToString(i) == IntToString(j)
    ensures i == j
  {
    if i < 0 && j < 0 {
      assert Decimal(-i) == IntToString(i)[1..] == Decimal(-j);
      DecimalInjective(-i, -j);
    } else if i >= 0 && j >= 0 {
      DecimalInjective(i, j);
    }
  }

  // ---------------------------------------------------------------------------
  // java.lang.String helpers

  /** `s.indexOf(c)`: the first index of `c`, or -1 when `c` does not occur. */
  function IndexOf(s: string, c: char): (n: int)
    ensures -1 <= n < |s|
    ensures n == -1 <==> c !in s
    ensures n >= 0 ==> s[n] == c && c !in s[..n]
  {
    if |s| == 0 then -1
    else if s[0] == c then 0
    else
      var m := IndexOf(s[1..], c);
      assert m >= 0 ==> s[1..][..m] == s[1..m + 1];
      if m < 0 then -1 else m + 1
  }

  /** `s.substring(s.indexOf(c) + 1)`: everything after the first `c`, or all
      of `s` when there is none. */
  function AfterFirst(s: string, c: char): string {
    s[IndexOf(s, c) + 1..]
  }

  /** What is left after the first `c` is a proper suffix of `s` that follows
      a `c`, or all of `s` when it holds no `c`. */
  lemma AfterFirstSuffix(s: string, c: char)
    ensures c !in s ==> AfterFirst(s, c) == s
    ensures c in s ==> |AfterFirst(s, c)| < |s| && s[|s| - |AfterFirst(s, c)| - 1] == c
    ensures c in s ==> AfterFirst(s, c) == s[|s| - |AfterFirst(s, c)|..]
  {
  }

  /** The first `c` of `u + [c] + v`, where `u` holds no `c`, is the one after `u`. */
  lemma IndexOfSplit(u: string, c: char, v: string)
    requires c !in u
    ensures IndexOf(u + [c] + v, c) == |u|
  {
    var s := u + [c] + v;
    assert s[|u|] == c;
    assert s[..|u|] == u;
  }

  /** Cutting at the first `c` of `u + [c] + v`, where `u` holds no `c`, leaves `v`. */
  lemma AfterFirstSplit(u: string, c: char, v: string)
    requires c !in u
    ensures AfterFirst(u + [c] + v, c) == v
  {
    var s := u + [c] + v;
    IndexOfSplit(u, c, v);
    assert s[|u| + 1..] == v;
  }

  /** Two strings `u + [c] + v` whose heads hold no `c` agree only when heads and tails agree. */
  lemma SplitInjective(u1: string, v1: string, u2: string, v2: string, c: char)
    requires c !in u1 && c !in u2 && u1 + [c] + v1 == u2 + [c] + v2
    ensures u1 == u2 && v1 == v2
  {
    var s := u1 + [c] + v1;
    IndexOfSplit(u1, c, v1);
    IndexOfSplit(u2, c, v2);
    assert u1 == s[..|u1|];
    assert u2 == s[..|u2|];
    AfterFirstSplit(u1, c, v1);
    AfterFirstSplit(u2, c, v2);
  }

  /** Two permutations with the same first element are permutations after it. */
  lemma DropHead<T>(a: seq<T>, b: seq<T>)
    requires |a| > 0 && |b| > 0 && a[0] == b[0] && multiset(a) == multiset(b)
    ensures multiset(a[1..]) == multiset(b[1..])
  {
    assert a == [a[0]] + a[1..] && b == [b[0]] + b[1..];
    assert multiset(a[1..]) == multiset(a) - multiset{a[0]};
    assert multiset(b[1..]) == multiset(b) - multiset{b[0]};
  }
}
