/** The string helpers of `DumpToFileSorted` in the newer `DeltaHash`: how a
    dump line `hex:key` is taken apart, how a set's label is built from a
    file size, and how a label is stripped again for the removal plan. */
module DumpStrings {
  import opened Base
  import opened Delta
  import opened DeltaHash
  import opened DeltaDuplicateSet

  /** The hex rendering of a digest: `GetHash` keeps this many characters. */
  const HASH_LENGTH: nat := 2 * DIGEST_LENGTH
  /** `padLeftZeros(file_size + "", 15)` */
  const SIZE_WIDTH: nat := 15

  // ---------------------------------------------------------------------------
  // Taking a dump line apart

  /** `GetHash`: `hashKey.substring(0, 64)`. */
  function GetHash(hashKey: string): (r: Result<string>)
    ensures r.Ok? <==> |hashKey| >= HASH_LENGTH
    ensures r.Ok? ==> |r.value| == HASH_LENGTH && r.value == hashKey[..HASH_LENGTH]
    ensures r.Err? ==> r.error == StringIndexOutOfBounds
  {
    if |hashKey| < HASH_LENGTH then Err(StringIndexOutOfBounds) else Ok(hashKey[..HASH_LENGTH])
  }

  /** `GetPaths`: drops the hex and its `':'`, then twice everything up to and
      including the next `':'`. */
  function GetPaths(hashKey: string): (r: Result<string>)
    ensures r.Ok? <==> |hashKey| >= HASH_LENGTH + 1
    ensures r.Ok? ==> |r.value| <= |hashKey| - (HASH_LENGTH + 1) && r.value == hashKey[|hashKey| - |r.value|..]
    ensures r.Err? ==> r.error == StringIndexOutOfBounds
  {
    if |hashKey| < HASH_LENGTH + 1 then Err(StringIndexOutOfBounds)
    else Ok(KeyPath(hashKey[HASH_LENGTH + 1..]))
  }

  /** `GetParentPath` of the path `GetPaths` reads from a line: everything
      before its last `'\\'`. Without one, `lastIndexOf` gives -1 and
      `substring(0, -1)` throws. */
  function GetParentPath(path: string): (r: Result<string>)
    ensures r.Ok? <==> '\\' in path
    ensures r.Err? ==> r.error == StringIndexOutOfBounds
    ensures r.Ok? ==> |r.value| < |path| && path[..|r.value|] == r.value && path[|r.value|] == '\\'
    ensures r.Ok? ==> '\\' !in path[|r.value| + 1..]
    decreases |path|
  {
    if |path| == 0 then Err(StringIndexOutOfBounds)
    else if path[|path| - 1] == '\\' then Ok(path[..|path| - 1])
    else
      var r := GetParentPath(path[..|path| - 1]);
      assert path == path[..|path| - 1] + [path[|path| - 1]];
      assert r.Ok? ==> path[|r.value| + 1..] == path[..|path| - 1][|r.value| + 1..] + [path[|path| - 1]];
      r
  }

  /** A dump line: `ByteToHexString(hash) + ":" + key`. */
  function DumpLine(digest: Bytes, key: string): string {
    Base16(digest) + ":" + key
  }

  lemma DumpLineSplit(digest: Bytes, key: string)
    requires |digest| == DIGEST_LENGTH
    ensures |DumpLine(digest, key)| == HASH_LENGTH + 1 + |key|
    ensures DumpLine(digest, key)[..HASH_LENGTH] == Base16(digest)
    ensures DumpLine(digest, key)[HASH_LENGTH + 1..] == key
  {
  }

  /** `GetHash` gives back the hex of the digest of a dump line. */
  lemma GetHashOfLine(digest: Bytes, key: string)
    requires |digest| == DIGEST_LENGTH
    ensures GetHash(DumpLine(digest, key)) == Ok(Base16(digest))
  {
    DumpLineSplit(digest, key);
  }

  /** `GetPaths` gives back the path a sampled key was built from, even a path holding `':'`. */
  lemma GetPathsOfKey(digest: Bytes, chunkSize: int, chunkCount: int, path: string)
    requires |digest| == DIGEST_LENGTH
    ensures GetPaths(DumpLine(digest, Key(chunkSize, chunkCount, path))) == Ok(path)
  {
    DumpLineSplit(digest, Key(chunkSize, chunkCount, path));
    KeyPathOfKey(chunkSize, chunkCount, path);
  }

  /** The same for a full key. */
  lemma GetPathsOfFullKey(digest: Bytes, path: string)
    requires |digest| == DIGEST_LENGTH
    ensures GetPaths(DumpLine(digest, FullKey(path))) == Ok(path)
  {
    DumpLineSplit(digest, FullKey(path));
    KeyPathOfFullKey(path);
  }

  // ---------------------------------------------------------------------------
  // Labels

  function Zeros(n: nat): (z: string)
    ensures |z| == n && forall k :: 0 <= k < n ==> z[k] == '0'
  {
    if n == 0 then [] else Zeros(n - 1) + ['0']
  }

  /** `padLeftZeros(s, n)`: `n` zeros, less as many as `s` has characters,
      then `s`; `substring` throws when `s` is longer than `n`. */
  function PadLeftZeros(s: string, n: int): (r: Result<string>)
    ensures r.Ok? <==> |s| <= if n < 0 then 0 else n
    ensures r.Ok? ==> |r.value| == (if n < 0 then 0 else n) && r.value[|r.value| - |s|..] == s
    ensures r.Ok? ==> forall k :: 0 <= k < |r.value| - |s| ==> r.value[k] == '0'
    ensures r.Err? ==> r.error == StringIndexOutOfBounds
  {
    var sb := Zeros(if n < 0 then 0 else n);
    if |s| > |sb| then Err(StringIndexOutOfBounds) else Ok(sb[|s|..] + s)
  }

  function Pow10(w: nat): (p: nat)
    ensures p >= 1
  {
    if w == 0 then 1 else 10 * Pow10(w - 1)
  }

  /** The `w` decimal digits of `n`, zero-filled on the left. */
  function Fixed(n: nat, w: nat): (r: string)
    ensures |r| == w && forall k :: 0 <= k < w ==> IsDigit(r[k])
  {
    if w == 0 then [] else Fixed(n / 10, w - 1) + [DigitChar(n % 10)]
  }

  lemma DivPow10(n: nat, w: nat)
    requires w > 0 && n < Pow10(w)
    ensures n / 10 < Pow10(w - 1)
  {
  }

  /** A number below `10^w` has at most `w` digits, and zero-filling them to
      `w` characters gives `Fixed(n, w)`. */
  lemma {:induction false} FixedIsPaddedDecimal(n: nat, w: nat)
    requires w > 0 && n < Pow10(w)
    ensures |Decimal(n)| <= w
    ensures Fixed(n, w) == Zeros(w - |Decimal(n)|) + Decimal(n)
    decreases w
  {
    if n < 10 {
      ZeroFixed(w - 1);
      assert Fixed(n / 10, w - 1) == Zeros(w - 1);
    } else {
      DivPow10(n, w);
      assert w > 1;
      FixedIsPaddedDecimal(n / 10, w - 1);
      assert Fixed(n, w) == (Zeros(w - 1 - |Decimal(n / 10)|) + Decimal(n / 10)) + [DigitChar(n % 10)];
    }
  }

  lemma {:induction false} ZeroFixed(w: nat)
    ensures Fixed(0, w) == Zeros(w)
  {
    if w > 0 {
      ZeroFixed(w - 1);
    }
  }

  /** A number of `10^w` or more has more than `w` digits. */
  lemma {:induction false} DecimalTooLong(n: nat, w: nat)
    requires n >= Pow10(w)
    ensures |Decimal(n)| > w
    decreases w
  {
    if w > 0 {
      DecimalTooLong(n / 10, w - 1);
    }
  }

  /** `padLeftZeros(n + "", w)` is the `w` digits of `n` for `n < 10^w`, and throws otherwise. */
  lemma PadLeftZerosOfDecimal(n: nat, w: nat)
    requires w > 0
    ensures n < Pow10(w) ==> PadLeftZeros(Decimal(n), w) == Ok(Fixed(n, w))
    ensures n >= Pow10(w) ==> PadLeftZeros(Decimal(n), w) == Err(StringIndexOutOfBounds)
  {
    if n < Pow10(w) {
      FixedIsPaddedDecimal(n, w);
      assert Zeros(w)[|Decimal(n)|..] == Zeros(w - |Decimal(n)|);
    } else {
      DecimalTooLong(n, w);
    }
  }

  /** `file_size_string` before the hash is appended: `"DIR"` for a directory,
      otherwise the 15-digit size, a `'#'` and the human-readable size. */
  function SizeField(size: nat, isDir: bool, humanReadable: string): (r: Result<string>)
    ensures isDir ==> r == Ok("DIR")
    ensures !isDir && size < Pow10(SIZE_WIDTH) ==> r == Ok(Fixed(size, SIZE_WIDTH) + "#" + humanReadable)
    ensures !isDir && size >= Pow10(SIZE_WIDTH) ==> r == Err(StringIndexOutOfBounds)
  {
    PadLeftZerosOfDecimal(size, SIZE_WIDTH);
    if isDir then Ok("DIR")
    else
      match PadLeftZeros(Decimal(size), SIZE_WIDTH)
      case Err(e) => Err(e)
      case Ok(padded) => Ok(padded + "#" + humanReadable)
  }

  /** Where the `w`-digit renderings of `n < m` first differ, `n`'s digit is the smaller. */
  lemma {:induction false} FixedFirstDifference(n: nat, m: nat, w: nat) returns (k: nat)
    requires n < m < Pow10(w)
    ensures k < w && Fixed(n, w)[..k] == Fixed(m, w)[..k] && Fixed(n, w)[k] < Fixed(m, w)[k]
    decreases w
  {
    assert w > 0;
    DivPow10(m, w);
    var a := Fixed(n / 10, w - 1);
    var b := Fixed(m / 10, w - 1);
    if n / 10 < m / 10 {
      k := FixedFirstDifference(n / 10, m / 10, w - 1);
      assert Fixed(n, w)[..k] == a[..k];
      assert Fixed(m, w)[..k] == b[..k];
    } else {
      k := w - 1;
      assert n / 10 == m / 10;
      assert Fixed(n, w)[..k] == a == b == Fixed(m, w)[..k];
    }
  }

  /** File labels sort by ascending size, for sizes below `10^15`. */
  lemma FileLabelsAscend(s1: nat, s2: nat, hr1: string, hr2: string, x: string, y: string)
    requires s1 < s2 < Pow10(SIZE_WIDTH)
    ensures CompareStrings(SizeField(s1, false, hr1).value + x, SizeField(s2, false, hr2).value + y) < 0
  {
    var a := SizeField(s1, false, hr1).value + x;
    var b := SizeField(s2, false, hr2).value + y;
    var k := FixedFirstDifference(s1, s2, SIZE_WIDTH);
    assert a[..k] == Fixed(s1, SIZE_WIDTH)[..k];
    assert b[..k] == Fixed(s2, SIZE_WIDTH)[..k];
    assert a[k] == Fixed(s1, SIZE_WIDTH)[k] && b[k] == Fixed(s2, SIZE_WIDTH)[k];
    CompareStringsFirstDifference(a, b, k);
  }

  /** A directory label sorts after every file label: `'D'` follows every digit. */
  lemma DirectoryLabelsLast(size: nat, hr: string, x: string, y: string)
    requires size < Pow10(SIZE_WIDTH)
    ensures CompareStrings("DIR" + x, SizeField(size, false, hr).value + y) > 0
  {
    var a := "DIR" + x;
    var b := SizeField(size, false, hr).value + y;
    assert IsDigit(b[0]) && b[0] <= '9' < 'D' == a[0];
    CompareStringsFirstDifference(a, b, 0);
  }

  // ---------------------------------------------------------------------------
  // Stripping a label again

  /** `RemoveFileSize` as written: everything after the first `'#'` of the
      whole member string, or all of it when there is none. */
  function RemoveFileSize(s: string): (r: string)
    ensures '#' !in s ==> r == s
  {
    s[IndexOf(s, '#') + 1..]
  }

  /** `RemoveFileSize` drops everything up to and including the first `'#'`. */
  lemma RemoveFileSizeCut(s: string)
    requires '#' in s
    ensures exists u :: '#' !in u && s == u + ['#'] + RemoveFileSize(s)
  {
    var n := IndexOf(s, '#');
    assert s == s[..n] + ['#'] + s[n + 1..];
  }

  /** `RemoveFileSize` as intended: drops the size field up to its `'#'`,
      which only a file label has, before the first `' '`; any other member
      is left as it is. */
  function RemoveSizeField(s: string): (r: string)
    ensures '#' !in s ==> r == s
  {
    var n := IndexOf(s, '#');
    var sp := IndexOf(s, ' ');
    if n >= 0 && (sp < 0 || n < sp) then s[n + 1..] else s
  }

  /** `RemoveSizeField` leaves a member as it is or drops a first field
      `u + "#"` in which there is no space. */
  lemma RemoveSizeFieldCut(s: string)
    ensures RemoveSizeField(s) == s ||
      exists u :: '#' !in u && ' ' !in u && s == u + ['#'] + RemoveSizeField(s)
  {
    var n := IndexOf(s, '#');
    var sp := IndexOf(s, ' ');
    if n >= 0 && (sp < 0 || n < sp) {
      assert ' ' !in s[..n];
      assert s == s[..n] + ['#'] + s[n + 1..];
    }
  }

  /** A file member loses its size field up to the `'#'`. */
  lemma RemoveSizeFieldOfFile(u: string, v: string)
    requires '#' !in u && ' ' !in u
    ensures RemoveSizeField(u + ['#'] + v) == v
  {
    var s := u + ['#'] + v;
    IndexOfSplit(u, '#', v);
    if ' ' in s {
      assert s[..|u| + 1] == u + ['#'];
      assert IndexOf(s, ' ') > |u|;
    }
    assert s[|u| + 1..] == v;
  }

  /** A member whose first field holds no `'#'` is left as it is. */
  lemma RemoveSizeFieldOfOther(u: string, v: string)
    requires '#' !in u && ' ' !in u
    ensures RemoveSizeField(u + [' '] + v) == u + [' '] + v
  {
    var s := u + [' '] + v;
    IndexOfSplit(u, ' ', v);
    if '#' in s {
      assert s[..|u| + 1] == u + [' '];
      assert IndexOf(s, '#') > |u|;
    }
  }

  // ---------------------------------------------------------------------------
  // The `"DIR"` test of the plan loop

  /** `equalsIgnoreCase` compares characters by `toUpperCase` and then by
      `toLowerCase`. For the letters of `DIR` that makes `d`, `i` and `r`
      equal to their ASCII capitals, and `i` also equal to U+0131 (dotless
      i, whose capital is `I`) and U+0130 (dotted capital I, whose lower case
      is `i`). Other non-ASCII case pairs are not folded. */
  predicate EqualsIgnoreCase(a: string, b: string) {
    |a| == |b| && forall k :: 0 <= k < |a| ==> Lower(a[k]) == Lower(b[k])
  }

  function Lower(c: char): (l: char)
    ensures l as int == FoldUnit(c as int)
  {
    if 'A' <= c <= 'Z' then (c as int - 'A' as int + 'a' as int) as char
    else if c as int == 0x130 || c as int == 0x131 then 'i'
    else c
  }

  /** `Lower` on a UTF-16 unit; a surrogate is left as it is. */
  function FoldUnit(u: int): int {
    if 'A' as int <= u <= 'Z' as int then u - 'A' as int + 'a' as int
    else if u == 0x130 || u == 0x131 then 'i' as int
    else u
  }

  /** Both kinds of Turkish i match the `I` of `DIR`. */
  lemma TurkishIMatchesDIR()
    ensures EqualsIgnoreCase("d\U{131}r", "DIR") && EqualsIgnoreCase("D\U{130}R", "DIR")
  {
  }

  /** `h.substring(0, |p|).equalsIgnoreCase(p)` on the characters of `h`. */
  predicate StartsWithIgnoringCase(h: string, p: string) {
    |h| >= |p| && EqualsIgnoreCase(h[..|p|], p)
  }

  /** The same on the UTF-16 units Java holds. */
  predicate UnitsStartWithIgnoringCase(u: seq<int>, p: string) {
    |u| >= |p| && forall k :: 0 <= k < |p| ==> FoldUnit(u[k]) == FoldUnit(p[k] as int)
  }

  /** Fewer than three UTF-16 units, when `substring(0, 3)` throws: one
      character is at most two units, and two characters below U+10000 are two. */
  predicate FewerThanThreeUnits(h: string) {
    |h| < 2 || (|h| == 2 && h[0] as int < 0x10000 && h[1] as int < 0x10000)
  }

  lemma FewerThanThreeUnitsIff(h: string)
    ensures FewerThanThreeUnits(h) <==> |Utf16(h)| < 3
  {
    if |h| >= 1 {
      assert Utf16(h) == Units(h[0]) + Utf16(h[1..]);
      if |h| >= 2 {
        assert Utf16(h[1..]) == Units(h[1]) + Utf16(h[2..]);
      }
      if |h| >= 3 {
        assert |Utf16(h[2..])| >= 1;
      }
    }
  }

  predicate AsciiLetters(p: string) {
    forall k :: 0 <= k < |p| ==> 'A' <= p[k] <= 'Z' || 'a' <= p[k] <= 'z'
  }

  /** Against ASCII letters the test on units is the test on characters: a
      surrogate never matches a letter, so a character above U+FFFF fails
      either way, and a character below U+10000 is its own unit. */
  lemma {:induction false} UnitsMatchChars(h: string, p: string)
    requires AsciiLetters(p) && |Utf16(h)| >= |p|
    ensures UnitsStartWithIgnoringCase(Utf16(h), p) <==> StartsWithIgnoringCase(h, p)
    decreases |p|
  {
    if |p| > 0 {
      assert |h| > 0;
      var u := Utf16(h);
      assert u == Units(h[0]) + Utf16(h[1..]);
      assert 'a' as int <= FoldUnit(p[0] as int) <= 'z' as int;
      if h[0] as int < 0x10000 {
        assert |Utf16(h[1..])| >= |p| - 1;
        assert AsciiLetters(p[1..]) by {
          forall k | 0 <= k < |p| - 1 ensures 'A' <= p[1..][k] <= 'Z' || 'a' <= p[1..][k] <= 'z' {
            assert p[1..][k] == p[k + 1];
          }
        }
        UnitsMatchChars(h[1..], p[1..]);
        if UnitsStartWithIgnoringCase(u, p) {
          forall k | 0 <= k < |p| - 1 ensures FoldUnit(Utf16(h[1..])[k]) == FoldUnit(p[1..][k] as int) {
            assert u[k + 1] == Utf16(h[1..])[k];
          }
        }
        if UnitsStartWithIgnoringCase(Utf16(h[1..]), p[1..]) && FoldUnit(u[0]) == FoldUnit(p[0] as int) {
          forall k | 0 <= k < |p| ensures FoldUnit(u[k]) == FoldUnit(p[k] as int) {
            if k > 0 {
              assert u[k] == Utf16(h[1..])[k - 1] && p[k] == p[1..][k - 1];
            }
          }
        }
        if StartsWithIgnoringCase(h, p) {
          assert |h[1..]| >= |p[1..]|;
          forall k | 0 <= k < |p| - 1 ensures Lower(h[1..][..|p| - 1][k]) == Lower(p[1..][k]) {
            assert h[1..][..|p| - 1][k] == h[..|p|][k + 1] && p[1..][k] == p[k + 1];
          }
        }
        if StartsWithIgnoringCase(h[1..], p[1..]) && Lower(h[0]) == Lower(p[0]) {
          forall k | 0 <= k < |p| ensures Lower(h[..|p|][k]) == Lower(p[k]) {
            if k > 0 {
              assert h[..|p|][k] == h[1..][..|p| - 1][k - 1] && p[k] == p[1..][k - 1];
            }
          }
        }
      } else {
        assert FoldUnit(u[0]) != FoldUnit(p[0] as int);
        assert |h| >= |p| ==> h[..|p|][0] == h[0];
      }
    }
  }
}
