/** `DeltaDuplicateSet`: a labelled, append-only list of the members of one
    set of duplicates, ordered by label with `String.compareTo`. */
module DeltaDuplicateSet {

  // ---------------------------------------------------------------------------
  // UTF-16: a Java `String` is a sequence of 16-bit code units

  /** The UTF-16 code units of one character: the character itself below
      U+10000, otherwise a high surrogate (U+D800-U+DBFF) followed by a low
      surrogate (U+DC00-U+DFFF). */
  function Units(c: char): (u: seq<int>)
    ensures |u| == (if c as int < 0x10000 then 1 else 2)
    ensures |u| == 1 ==> u[0] == c as int
    ensures |u| == 2 ==> 0xD800 <= u[0] < 0xDC00 <= u[1] < 0xE000
    ensures |u| == 2 ==> 0x10000 + (u[0] - 0xD800) * 0x400 + (u[1] - 0xDC00) == c as int
  {
    var v := c as int;
    if v < 0x10000 then [v]
    else [0xD800 + (v - 0x10000) / 0x400, 0xDC00 + (v - 0x10000) % 0x400]
  }

  /** A single unit is never a surrogate, so the first unit tells a single
      unit from a pair, and distinct characters differ in their first unit or,
      for two pairs, in their second. */
  lemma UnitsDiffer(x: char, y: char)
    requires x != y
    ensures Units(x)[0] != Units(y)[0] || (|Units(x)| == |Units(y)| == 2 && Units(x)[1] != Units(y)[1])
  {
  }

  /** The units of a character followed by anything determine the character:
      the first unit says whether a pair follows, and the pair decodes back. */
  lemma UnitsPrefix(x: char, y: char, s: seq<int>, t: seq<int>)
    requires Units(x) + s == Units(y) + t
    ensures x == y && s == t
  {
    var w := Units(x) + s;
    assert |Units(x)| == 2 <==> 0xD800 <= w[0] < 0xDC00;
    assert |Units(y)| == 2 <==> 0xD800 <= w[0] < 0xDC00;
    assert Units(x) == w[..|Units(x)|] == Units(y);
    assert s == w[|Units(x)|..] == t;
  }

  /** The UTF-16 encoding of a string. */
  function Utf16(s: string): (u: seq<int>)
    ensures |u| >= |s|
    decreases |s|
  {
    if |s| == 0 then [] else Units(s[0]) + Utf16(s[1..])
  }

  lemma {:induction false} Utf16Concat(a: string, b: string)
    ensures Utf16(a + b) == Utf16(a) + Utf16(b)
    decreases |a|
  {
    if |a| == 0 {
      assert a + b == b;
    } else {
      assert (a + b)[0] == a[0] && (a + b)[1..] == a[1..] + b;
      Utf16Concat(a[1..], b);
    }
  }

  /** `Utf16(s)` starts with the units of `s[0]`. */
  lemma Utf16Cons(c: char, s: string)
    ensures Utf16([c] + s) == Units(c) + Utf16(s)
  {
    assert ([c] + s)[0] == c && ([c] + s)[1..] == s;
  }

  /** Distinct strings have distinct encodings. */
  lemma {:induction false} Utf16Injective(a: string, b: string)
    ensures Utf16(a) == Utf16(b) <==> a == b
    decreases |a|
  {
    if Utf16(a) == Utf16(b) && |a| > 0 && |b| > 0 {
      UnitsPrefix(a[0], b[0], Utf16(a[1..]), Utf16(b[1..]));
      Utf16Injective(a[1..], b[1..]);
      assert a == [a[0]] + a[1..] && b == [b[0]] + b[1..];
    }
  }

  // ---------------------------------------------------------------------------
  // `String.compareTo`

  /** Lexicographic comparison of code-unit sequences, as `compareTo` does
      it: the difference of the units at the first index where they differ;
      when one is a prefix of the other, the difference of the lengths. */
  function CompareUnits(a: seq<int>, b: seq<int>): (r: int)
    ensures r == 0 <==> a == b
    decreases |a|
  {
    if |a| == 0 || |b| == 0 then |a| - |b|
    else if a[0] != b[0] then a[0] - b[0]
    else
      var r := CompareUnits(a[1..], b[1..]);
      assert a[1..] == b[1..] ==> a == [a[0]] + a[1..] == [b[0]] + b[1..] == b;
      r
  }

  /** `a.compareTo(b)` on strings, which compares their UTF-16 units: a
      character above U+FFFF sorts by its high surrogate, so below
      U+E000-U+FFFF. */
  function CompareStrings(a: string, b: string): (r: int)
    ensures r == 0 <==> a == b
  {
    Utf16Injective(a, b);
    CompareUnits(Utf16(a), Utf16(b))
  }

  /** `compareTo` of two one-character strings. */
  function CompareChars(x: char, y: char): (r: int)
    ensures r == 0 <==> x == y
    ensures x as int < 0x10000 && y as int < 0x10000 ==> r == x as int - y as int
  {
    assert x != y ==> Units(x) != Units(y);
    CompareUnits(Units(x), Units(y))
  }

  lemma {:induction false} CompareUnitsAntisymmetric(a: seq<int>, b: seq<int>)
    ensures CompareUnits(a, b) == -CompareUnits(b, a)
    decreases |a|
  {
    if |a| > 0 && |b| > 0 && a[0] == b[0] {
      CompareUnitsAntisymmetric(a[1..], b[1..]);
    }
  }

  /** Swapping the arguments negates the result. */
  lemma CompareStringsAntisymmetric(a: string, b: string)
    ensures CompareStrings(a, b) == -CompareStrings(b, a)
  {
    CompareUnitsAntisymmetric(Utf16(a), Utf16(b));
  }

  lemma {:induction false} CompareUnitsCommonPrefix(p: seq<int>, x: seq<int>, y: seq<int>)
    ensures CompareUnits(p + x, p + y) == CompareUnits(x, y)
    decreases |p|
  {
    if |p| == 0 {
      assert p + x == x && p + y == y;
    } else {
      assert (p + x)[0] == (p + y)[0];
      assert (p + x)[1..] == p[1..] + x;
      assert (p + y)[1..] == p[1..] + y;
      CompareUnitsCommonPrefix(p[1..], x, y);
    }
  }

  /** Comparing two strings with a common prefix compares what follows it. */
  lemma CompareStringsCommonPrefix(p: string, x: string, y: string)
    ensures CompareStrings(p + x, p + y) == CompareStrings(x, y)
  {
    Utf16Concat(p, x);
    Utf16Concat(p, y);
    CompareUnitsCommonPrefix(Utf16(p), Utf16(x), Utf16(y));
  }

  /** Once two distinct characters are reached, what follows them does not count. */
  lemma CompareUnitsOfChars(x: char, y: char, s: seq<int>, t: seq<int>)
    requires x != y
    ensures CompareUnits(Units(x) + s, Units(y) + t) == CompareChars(x, y)
  {
    UnitsDiffer(x, y);
    var u, v := Units(x) + s, Units(y) + t;
    if Units(x)[0] == Units(y)[0] {
      assert u[1..] == Units(x)[1..] + s && v[1..] == Units(y)[1..] + t;
      assert CompareUnits(u, v) == CompareUnits(u[1..], v[1..]);
      assert CompareChars(x, y) == CompareUnits(Units(x)[1..], Units(y)[1..]);
    }
  }

  /** When `a` and `b` agree before index `k` and differ at `k`, the result is
      the comparison of their characters at `k`: the difference of the
      characters when both are below U+10000. */
  lemma CompareStringsFirstDifference(a: string, b: string, k: nat)
    requires k < |a| && k < |b| && a[..k] == b[..k] && a[k] != b[k]
    ensures CompareStrings(a, b) == CompareChars(a[k], b[k])
    ensures a[k] as int < 0x10000 && b[k] as int < 0x10000 ==> CompareStrings(a, b) == a[k] as int - b[k] as int
  {
    var p := a[..k];
    assert a == p + ([a[k]] + a[k + 1..]) && b == p + ([b[k]] + b[k + 1..]);
    CompareStringsCommonPrefix(p, [a[k]] + a[k + 1..], [b[k]] + b[k + 1..]);
    Utf16Cons(a[k], a[k + 1..]);
    Utf16Cons(b[k], b[k + 1..]);
    CompareUnitsOfChars(a[k], b[k], Utf16(a[k + 1..]), Utf16(b[k + 1..]));
  }

  lemma {:induction false} CompareUnitsPrefix(a: seq<int>, b: seq<int>)
    requires |a| < |b| && b[..|a|] == a
    ensures CompareUnits(a, b) < 0
    decreases |a|
  {
    if |a| > 0 {
      assert a[0] == b[0];
      assert b[1..][..|a| - 1] == a[1..];
      CompareUnitsPrefix(a[1..], b[1..]);
    }
  }

  /** A proper prefix sorts first. */
  lemma CompareStringsPrefix(a: string, b: string)
    requires |a| < |b| && b[..|a|] == a
    ensures CompareStrings(a, b) < 0
  {
    assert b == a + b[|a|..];
    Utf16Concat(a, b[|a|..]);
    assert Utf16(b)[..|Utf16(a)|] == Utf16(a);
    CompareUnitsPrefix(Utf16(a), Utf16(b));
  }

  lemma {:induction false} CompareUnitsTransitive(a: seq<int>, b: seq<int>, c: seq<int>)
    requires CompareUnits(a, b) <= 0 && CompareUnits(b, c) <= 0
    ensures CompareUnits(a, c) <= 0
    decreases |a|
  {
    if |a| > 0 && |b| > 0 && |c| > 0 && a[0] == b[0] && b[0] == c[0] {
      CompareUnitsTransitive(a[1..], b[1..], c[1..]);
    }
  }

  /** The order `compareTo` defines is transitive. */
  lemma CompareStringsTransitive(a: string, b: string, c: string)
    requires CompareStrings(a, b) <= 0 && CompareStrings(b, c) <= 0
    ensures CompareStrings(a, c) <= 0
  {
    CompareUnitsTransitive(Utf16(a), Utf16(b), Utf16(c));
  }

  /** Two files `C:\a\<U+1F600>` and `C:\a\<U+FF01>`: the first sorts first,
      since its high surrogate U+D83D is below U+FF01, although its code point
      is above. */
  lemma SupplementarySortsBelowHighBmp()
    ensures CompareStrings("C:\\a\\\U{1F600}", "C:\\a\\\U{FF01}") < 0
  {
    var a, b := "C:\\a\\\U{1F600}", "C:\\a\\\U{FF01}";
    assert a[..5] == b[..5];
    CompareStringsFirstDifference(a, b, 5);
    assert Units(a[5]) == [0xD83D, 0xDE00];
  }

  class DuplicateSet {
    /** `Hash`: the label the set was created with. */
    var hash: string
    /** `File_Hashes`: the members, in the order they were added. */
    var fileHashes: seq<string>

    /** `new DeltaDuplicateSet(hash)`: the given label, no members. */
    constructor(hash: string)
      ensures this.hash == hash && fileHashes == []
    {
      this.hash := hash;
      fileHashes := [];
    }

    /** `addHash`: appends one member at the end; the label and the earlier
        members stay as they were. */
    method AddHash(h: string)
      modifies this
      ensures hash == old(hash) && fileHashes == old(fileHashes) + [h]
    {
      fileHashes := fileHashes + [h];
    }

    /** `getHash`: the label given to the constructor. */
    function GetHash(): (r: string)
      reads this
      ensures r == hash
    {
      hash
    }

    /** `getFile_Hashes`: the members in insertion order. */
    function GetFileHashes(): (r: seq<string>)
      reads this
      ensures r == fileHashes
    {
      fileHashes
    }

    /** `compareTo`: `String.compareTo` on the labels; zero exactly for equal
        labels, and the negation of the comparison the other way round. */
    function CompareTo(other: DuplicateSet): (r: int)
      reads this, other
      ensures r == 0 <==> hash == other.hash
      ensures r == -CompareStrings(other.hash, hash)
    {
      CompareStringsAntisymmetric(hash, other.hash);
      CompareStrings(hash, other.GetHash())
    }
  }
}
