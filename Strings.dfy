/**
 * The few .NET string and integer operations the sitemap store relies on:
 * 32-bit `int` arithmetic, `ToLower`, `Trim`, `Split(char)`, `Replace(old, "")`,
 * `int.ToString()` and `int.TryParse`.
 */
module Strings {
  import opened Wrappers

  /** A C# `int`. */
  type Int32 = x: int | -0x8000_0000 <= x <= 0x7FFF_FFFF

  /** Unchecked C# `int` arithmetic: the mathematical result reduced into the 32-bit range. */
  function Wrap32(x: int): (r: Int32)
    ensures -0x8000_0000 <= x <= 0x7FFF_FFFF ==> r == x
    ensures (r - x) % 0x1_0000_0000 == 0
  {
    (x + 0x8000_0000) % 0x1_0000_0000 - 0x8000_0000
  }

  /** The characters `int.TryParse` skips around a number (U+0009 to U+000D and the space). */
  predicate IsWhiteSpace(c: char)
  {
    c == ' ' || ('\t' <= c <= '\r')
  }

  predicate IsDigit(c: char)
  {
    '0' <= c <= '9'
  }

  /** `char.ToLower` restricted to ASCII letters. */
  function LowerChar(c: char): char
  {
    if 'A' <= c <= 'Z' then (c as int + 32) as char else c
  }

  function Lower(s: string): string
  {
    seq(|s|, i requires 0 <= i < |s| => LowerChar(s[i]))
  }

  function TrimStart(s: string): string
  {
    if |s| > 0 && IsWhiteSpace(s[0]) then TrimStart(s[1..]) else s
  }

  function TrimEnd(s: string): string
  {
    if |s| > 0 && IsWhiteSpace(s[|s| - 1]) then TrimEnd(s[..|s| - 1]) else s
  }

  function Trim(s: string): string
  {
    TrimEnd(TrimStart(s))
  }

  /** The category key the store compares: `s.ToLower().Trim()`. */
  function Normalize(s: string): string
  {
    Trim(Lower(s))
  }

  /** `s.Split(new char[] { sep })`: every piece, empty ones included, in order. */
  function Split(s: string, sep: char): (r: seq<string>)
    ensures |r| >= 1
  {
    if |s| == 0 then [""]
    else
      var rest := Split(s[1..], sep);
      if s[0] == sep then [""] + rest else [[s[0]] + rest[0]] + rest[1..]
  }

  /** `s.Replace(pat, "")`: removes every occurrence of `pat`, scanning left to right. */
  function RemoveAll(s: string, pat: string): string
    requires |pat| > 0
    decreases |s|
  {
    if |s| < |pat| then s
    else if s[..|pat|] == pat then RemoveAll(s[|pat|..], pat)
    else [s[0]] + RemoveAll(s[1..], pat)
  }

  function DigitChar(d: nat): (c: char)
    requires d < 10
    ensures IsDigit(c)
  {
    ('0' as int + d) as char
  }

  function DigitValue(c: char): nat
    requires IsDigit(c)
  {
    c as int - '0' as int
  }

  predicate AllDigits(s: string)
  {
    forall i :: 0 <= i < |s| ==> IsDigit(s[i])
  }

  /** Decimal text of a natural number, most significant digit first. */
  function NatToString(n: nat): string
  {
    if n < 10 then [DigitChar(n)] else NatToString(n / 10) + [DigitChar(n % 10)]
  }

  /** `int.ToString()`: a leading `-` for negative numbers. */
  function IntToString(n: int): string
  {
    if n < 0 then "-" + NatToString(-n) else NatToString(n)
  }

  function DigitsValue(ds: string): nat
    requires AllDigits(ds)
  {
    if |ds| == 0 then 0 else DigitsValue(ds[..|ds| - 1]) * 10 + DigitValue(ds[|ds| - 1])
  }

  /**
   * `int.TryParse(s, out n)` with the default integer style: optional surrounding
   * white space, an optional sign, at least one digit, and a value that fits an `int`.
   */
  function TryParseInt32(s: string): Option<Int32>
  {
    var t := Trim(s);
    var signed := |t| > 0 && (t[0] == '-' || t[0] == '+');
    var digits := if signed then t[1..] else t;
    if |digits| == 0 || !AllDigits(digits) then None
    else
      var v: int := if signed && t[0] == '-' then 0 - (DigitsValue(digits) as int) else DigitsValue(digits);
      if -0x8000_0000 <= v <= 0x7FFF_FFFF then Some(v) else None
  }

  /** The value `int.TryParse` leaves in its `out` argument: 0 when parsing fails. */
  function ParseOrZero(s: string): (n: Int32)
    ensures TryParseInt32(s).None? ==> n == 0
    ensures TryParseInt32(s).Some? ==> n == TryParseInt32(s).value
  {
    match TryParseInt32(s)
    case Some(v) => v
    case None => 0
  }

  // ---------------------------------------------------------------------------
  // Lemmas

  lemma {:induction false} NatToStringDigits(n: nat)
    ensures |NatToString(n)| > 0 && AllDigits(NatToString(n))
    ensures DigitsValue(NatToString(n)) == n
    decreases n
  {
    if n >= 10 {
      NatToStringDigits(n / 10);
      var s := NatToString(n);
      assert s[..|s| - 1] == NatToString(n / 10);
    }
  }

  lemma TrimNoWhiteSpaceEnds(s: string)
    requires |s| > 0 && !IsWhiteSpace(s[0]) && !IsWhiteSpace(s[|s| - 1])
    ensures Trim(s) == s
  {
  }

  /** Formatting an `int` and parsing it back yields the same `int`. */
  lemma {:induction false} ParseFormatRoundTrip(n: Int32)
    ensures TryParseInt32(IntToString(n)) == Some(n)
    ensures ParseOrZero(IntToString(n)) == n
  {
    var s := IntToString(n);
    var m: nat := if n < 0 then -(n as int) else n;
    NatToStringDigits(m);
    var ds := NatToString(m);
    assert IsDigit(ds[0]) && IsDigit(ds[|ds| - 1]);
    TrimNoWhiteSpaceEnds(s);
    if n < 0 {
      assert s[1..] == ds;
    }
  }

  lemma {:induction false} TrimStartIsSuffix(s: string)
    ensures exists k :: 0 <= k <= |s| && TrimStart(s) == s[k..]
    decreases |s|
  {
    if |s| > 0 && IsWhiteSpace(s[0]) {
      TrimStartIsSuffix(s[1..]);
      var k :| 0 <= k <= |s[1..]| && TrimStart(s[1..]) == s[1..][k..];
      assert s[1..][k..] == s[k + 1..];
    } else {
      assert s == s[0..];
    }
  }

  lemma {:induction false} TrimEndIsPrefix(s: string)
    ensures exists k :: 0 <= k <= |s| && TrimEnd(s) == s[..k]
    decreases |s|
  {
    if |s| > 0 && IsWhiteSpace(s[|s| - 1]) {
      TrimEndIsPrefix(s[..|s| - 1]);
      var k :| 0 <= k <= |s| - 1 && TrimEnd(s[..|s| - 1]) == s[..|s| - 1][..k];
      assert s[..|s| - 1][..k] == s[..k];
    } else {
      assert s == s[..|s|];
    }
  }

  /** `Trim` keeps a contiguous piece of its input. */
  lemma TrimIsSlice(s: string)
    ensures exists a, b :: 0 <= a <= b <= |s| && Trim(s) == s[a..b]
  {
    TrimStartIsSuffix(s);
    var a :| 0 <= a <= |s| && TrimStart(s) == s[a..];
    TrimEndIsPrefix(s[a..]);
    var k :| 0 <= k <= |s[a..]| && TrimEnd(s[a..]) == s[a..][..k];
    assert s[a..][..k] == s[a..a + k];
  }

  /**
   * `int.TryParse` fails on text with no decimal digit at all (an empty name block, a word),
   * and then leaves 0.
   */
  lemma ParseOrZeroWithoutDigits(s: string)
    requires forall i | 0 <= i < |s| :: !IsDigit(s[i])
    ensures TryParseInt32(s).None?
    ensures ParseOrZero(s) == 0
  {
    TrimIsSlice(s);
    var a, b :| 0 <= a <= b <= |s| && Trim(s) == s[a..b];
    var t := Trim(s);
    assert forall i | 0 <= i < |t| :: t[i] == s[a + i];
  }

  /** Leading white space stops at the first non-space character. */
  lemma {:induction false} TrimStartConcat(a: string, b: string)
    requires |b| > 0 && !IsWhiteSpace(b[0])
    ensures TrimStart(a + b) == TrimStart(a) + b
    decreases |a|
  {
    if |a| == 0 {
      assert a + b == b;
    } else if IsWhiteSpace(a[0]) {
      assert (a + b)[1..] == a[1..] + b;
      TrimStartConcat(a[1..], b);
    }
  }

  lemma {:induction false} SplitNoSeparator(s: string, sep: char)
    requires sep !in s
    ensures Split(s, sep) == [s]
    decreases |s|
  {
    if |s| > 0 {
      SplitNoSeparator(s[1..], sep);
      assert [s[0]] + s[1..] == s;
    }
  }

  /** Splitting at the first separator yields the text before it, then the split of the rest. */
  lemma {:induction false} SplitAtFirst(a: string, b: string, sep: char)
    requires sep !in a
    ensures Split(a + [sep] + b, sep) == [a] + Split(b, sep)
    decreases |a|
  {
    if |a| == 0 {
      assert a + [sep] + b == [sep] + b;
      assert ([sep] + b)[1..] == b;
    } else {
      var s := a + [sep] + b;
      assert s[1..] == a[1..] + [sep] + b;
      SplitAtFirst(a[1..], b, sep);
      assert [a[0]] + a[1..] == a;
    }
  }

  /** Text without the pattern's first character loses nothing to `RemoveAll`. */
  lemma {:induction false} RemoveAllNoLead(s: string, pat: string)
    requires |pat| > 0 && pat[0] !in s
    ensures RemoveAll(s, pat) == s
    decreases |s|
  {
    if |s| >= |pat| {
      assert s[..|pat|][0] == s[0];
      RemoveAllNoLead(s[1..], pat);
      assert [s[0]] + s[1..] == s;
    }
  }

  /** A trailing occurrence of the pattern is removed and nothing before it. */
  lemma {:induction false} RemoveAllTrailing(s: string, pat: string)
    requires |pat| > 0 && pat[0] !in s
    ensures RemoveAll(s + pat, pat) == s
    decreases |s|
  {
    var t := s + pat;
    if |s| == 0 {
      assert t == pat && t[..|pat|] == pat && t[|pat|..] == [];
    } else {
      assert t[..|pat|][0] == s[0];
      assert t[1..] == s[1..] + pat;
      RemoveAllTrailing(s[1..], pat);
      assert [s[0]] + s[1..] == s;
    }
  }

  lemma {:induction false} LowerKeepsWhiteSpace(c: char)
    ensures IsWhiteSpace(LowerChar(c)) == IsWhiteSpace(c)
  {
  }

  lemma {:induction false} LowerTrimStart(s: string)
    ensures Lower(TrimStart(s)) == TrimStart(Lower(s))
    decreases |s|
  {
    if |s| > 0 {
      assert Lower(s)[1..] == Lower(s[1..]);
      LowerTrimStart(s[1..]);
    }
  }

  lemma {:induction false} LowerTrimEnd(s: string)
    ensures Lower(TrimEnd(s)) == TrimEnd(Lower(s))
    decreases |s|
  {
    if |s| > 0 {
      assert Lower(s)[..|s| - 1] == Lower(s[..|s| - 1]);
      LowerTrimEnd(s[..|s| - 1]);
    }
  }

  lemma {:induction false} TrimStartIdempotent(s: string)
    ensures TrimStart(TrimStart(s)) == TrimStart(s)
    decreases |s|
  {
    if |s| > 0 && IsWhiteSpace(s[0]) {
      TrimStartIdempotent(s[1..]);
    }
  }

  lemma {:induction false} TrimEndIdempotent(s: string)
    ensures TrimEnd(TrimEnd(s)) == TrimEnd(s)
    decreases |s|
  {
    if |s| > 0 && IsWhiteSpace(s[|s| - 1]) {
      TrimEndIdempotent(s[..|s| - 1]);
    }
  }

  lemma {:induction false} TrimEndKeepsStart(s: string)
    requires |s| == 0 || !IsWhiteSpace(s[0])
    ensures TrimStart(TrimEnd(s)) == TrimEnd(s)
    decreases |s|
  {
    if |s| > 0 && IsWhiteSpace(s[|s| - 1]) {
      TrimEndKeepsStart(s[..|s| - 1]);
    }
  }

  lemma {:induction false} TrimStartNoLead(s: string)
    ensures |TrimStart(s)| == 0 || !IsWhiteSpace(TrimStart(s)[0])
    decreases |s|
  {
    if |s| > 0 && IsWhiteSpace(s[0]) {
      TrimStartNoLead(s[1..]);
    }
  }

  lemma LowerHasNoUpper(s: string)
    ensures forall c :: c in Lower(s) ==> !('A' <= c <= 'Z')
  {
    var l := Lower(s);
    assert forall k | 0 <= k < |l| :: l[k] == LowerChar(s[k]);
  }

  /** The pieces of a split never contain the separator. */
  lemma {:induction false} SplitPieces(s: string, sep: char)
    ensures forall k | 0 <= k < |Split(s, sep)| :: sep !in Split(s, sep)[k]
    decreases |s|
  {
    if |s| > 0 {
      SplitPieces(s[1..], sep);
      var rest := Split(s[1..], sep);
      if s[0] != sep {
        var r := Split(s, sep);
        assert r[0] == [s[0]] + rest[0];
        assert forall k | 1 <= k < |r| :: r[k] == rest[k];
      }
    }
  }

  lemma {:induction false} TrimEndNoTrail(s: string)
    ensures |TrimEnd(s)| == 0 || !IsWhiteSpace(TrimEnd(s)[|TrimEnd(s)| - 1])
    decreases |s|
  {
    if |s| > 0 && IsWhiteSpace(s[|s| - 1]) {
      TrimEndNoTrail(s[..|s| - 1]);
    }
  }

  /** `Trim` leaves no white space at either end and keeps only characters of its input. */
  lemma TrimEnds(s: string)
    ensures var t := Trim(s); |t| == 0 || (!IsWhiteSpace(t[0]) && !IsWhiteSpace(t[|t| - 1]))
    ensures forall c :: c in Trim(s) ==> c in s
  {
    var a := TrimStart(s);
    TrimStartNoLead(s);
    TrimEndNoTrail(a);
    TrimEndIsPrefix(a);
    var m :| 0 <= m <= |a| && TrimEnd(a) == a[..m];
    TrimIsSlice(s);
    var i, j :| 0 <= i <= j <= |s| && Trim(s) == s[i..j];
    var t := Trim(s);
    assert forall k | 0 <= k < |t| :: t[k] == s[i + k];
  }

  lemma {:induction false} TrimIdempotent(s: string)
    ensures Trim(Trim(s)) == Trim(s)
  {
    var a := TrimStart(s);
    TrimStartNoLead(s);
    TrimEndKeepsStart(a);
    TrimEndIdempotent(a);
  }

  /** A category key has no white space at either end and no upper-case ASCII letter. */
  lemma NormalizeShape(s: string)
    ensures var r := Normalize(s); |r| == 0 || (!IsWhiteSpace(r[0]) && !IsWhiteSpace(r[|r| - 1]))
    ensures forall c :: c in Normalize(s) ==> !('A' <= c <= 'Z')
  {
    TrimEnds(Lower(s));
    LowerHasNoUpper(s);
  }

  /**
   * Trimming a category before it is compared changes nothing: the loader stores
   * `Trim(category)`, and that key routes exactly like the untrimmed text.
   */
  lemma {:induction false} NormalizeTrimmed(s: string)
    ensures Normalize(Trim(s)) == Normalize(s)
  {
    LowerTrimStart(s);
    LowerTrimEnd(TrimStart(s));
    TrimIdempotent(Lower(s));
  }
}
