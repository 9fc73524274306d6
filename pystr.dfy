/**
 * The handful of Python `str` operations the downloader relies on, written
 * out so that their edge cases can be reasoned about: `strip()`,
 * `split(sep)`, `sep.join(parts)`, `replace(a, b)` for one-character
 * arguments, and `str(n)` for a non-negative integer.
 */
module PyStr {

  // ---------------------------------------------------------------------
  // str.strip()
  // ---------------------------------------------------------------------

  /** The characters Python's `str.isspace()` accepts, which `str.strip()`
      with no argument removes from both ends. */
  predicate IsSpace(c: char) {
    ('\t' <= c <= '\r') || ('\U{1C}' <= c <= '\U{1F}') || c == ' '
    || c == '\U{85}' || c == '\U{A0}' || c == '\U{1680}'
    || ('\U{2000}' <= c <= '\U{200A}') || c == '\U{2028}' || c == '\U{2029}'
    || c == '\U{202F}' || c == '\U{205F}' || c == '\U{3000}'
  }

  /** The length of the longest all-whitespace prefix of `s`. */
  function LeadingSpaces(s: string): (n: nat)
    ensures n <= |s|
    ensures forall k :: 0 <= k < n ==> IsSpace(s[k])
    ensures n < |s| ==> !IsSpace(s[n])
  {
    if |s| > 0 && IsSpace(s[0]) then 1 + LeadingSpaces(s[1..]) else 0
  }

  /** The length of the longest all-whitespace suffix of `s`. */
  function TrailingSpaces(s: string): (n: nat)
    ensures n <= |s|
    ensures forall k :: |s| - n <= k < |s| ==> IsSpace(s[k])
    ensures n < |s| ==> !IsSpace(s[|s| - 1 - n])
  {
    if |s| > 0 && IsSpace(s[|s| - 1]) then 1 + TrailingSpaces(s[..|s| - 1]) else 0
  }

  /** `s.strip()`: `s` without its leading and trailing whitespace. */
  function Strip(s: string): string {
    var rest := s[LeadingSpaces(s)..];
    rest[..|rest| - TrailingSpaces(rest)]
  }

  /** `strip()` keeps a contiguous middle part of `s`, starting after its
      leading whitespace. */
  lemma StripSlice(s: string)
    ensures LeadingSpaces(s) + |Strip(s)| <= |s|
    ensures Strip(s) == s[LeadingSpaces(s)..LeadingSpaces(s) + |Strip(s)|]
  {
    var n := LeadingSpaces(s);
    var rest := s[n..];
    var r := rest[..|rest| - TrailingSpaces(rest)];
    assert Strip(s) == r;
    SliceOfSuffix(s, n, |r|);
  }

  /** A prefix of a suffix is a middle slice. */
  lemma SliceOfSuffix(s: string, i: nat, j: nat)
    requires i + j <= |s|
    ensures s[i..][..j] == s[i..i + j]
  {
  }

  /** Everything after the part `strip()` keeps is whitespace. */
  lemma StripTail(s: string)
    ensures forall k :: LeadingSpaces(s) + |Strip(s)| <= k < |s| ==> IsSpace(s[k])
  {
    var n := LeadingSpaces(s);
    var rest := s[n..];
    var m := TrailingSpaces(rest);
    assert |Strip(s)| == |rest| - m;
    forall k | n + |rest| - m <= k < |s|
      ensures IsSpace(s[k])
    {
      assert s[k] == rest[k - n];
    }
  }

  /** What `strip()` keeps neither starts nor ends with whitespace. */
  lemma StripEnds(s: string)
    ensures Strip(s) == [] || (!IsSpace(Strip(s)[0]) && !IsSpace(Strip(s)[|Strip(s)| - 1]))
  {
    var n := LeadingSpaces(s);
    var rest := s[n..];
    var m := TrailingSpaces(rest);
    var r := rest[..|rest| - m];
    assert Strip(s) == r;
    if r != [] {
      assert r[0] == s[n] && !IsSpace(s[n]);
      assert r[|r| - 1] == rest[|rest| - 1 - m] && !IsSpace(rest[|rest| - 1 - m]);
    }
  }

  /** A string with no whitespace at either end is its own `strip()`. */
  lemma StripClean(s: string)
    requires s == [] || (!IsSpace(s[0]) && !IsSpace(s[|s| - 1]))
    ensures Strip(s) == s
  {
    assert LeadingSpaces(s) == 0;
    assert s[0..] == s;
    assert TrailingSpaces(s) == 0;
  }

  /** Stripping twice is stripping once. */
  lemma StripIdempotent(s: string)
    ensures Strip(Strip(s)) == Strip(s)
  {
    StripEnds(s);
    StripClean(Strip(s));
  }

  // ---------------------------------------------------------------------
  // Occurrences of one character
  // ---------------------------------------------------------------------

  /** The number of occurrences of `c` in `s`. */
  function Count(s: string, c: char): nat {
    if s == [] then 0 else (if s[0] == c then 1 else 0) + Count(s[1..], c)
  }

  lemma {:induction false} CountZero(s: string, c: char)
    ensures (Count(s, c) == 0) == (c !in s)
  {
    if s != [] {
      CountZero(s[1..], c);
      assert s == [s[0]] + s[1..];
    }
  }

  lemma {:induction false} CountAppend(a: string, b: string, c: char)
    ensures Count(a + b, c) == Count(a, c) + Count(b, c)
  {
    if a == [] {
      assert a + b == b;
    } else {
      assert (a + b)[1..] == a[1..] + b;
      CountAppend(a[1..], b, c);
    }
  }

  /** The position of the first `c` in `s`, which `str.split` cuts at. */
  function IndexOf(s: string, c: char): (k: nat)
    requires c in s
    ensures k < |s| && s[k] == c && c !in s[..k]
  {
    if s[0] == c then 0
    else
      assert c in s[1..] by { assert s == [s[0]] + s[1..]; }
      var k := 1 + IndexOf(s[1..], c);
      assert s[..k] == [s[0]] + s[1..][..k - 1];
      k
  }

  /** The first occurrence is the only one with no `c` before it. */
  lemma IndexOfUnique(s: string, c: char, k: nat)
    requires k < |s| && s[k] == c && c !in s[..k]
    ensures IndexOf(s, c) == k
  {
  }

  // ---------------------------------------------------------------------
  // str.split(sep), sep.join(parts), str.replace(a, b)
  // ---------------------------------------------------------------------

  /** `s.split(sep)` for a one-character separator: the pieces between
      separators, so that `n` separators give `n + 1` pieces, the empty
      string included. */
  function Split(s: string, sep: char): (parts: seq<string>)
    ensures |parts| >= 1
    ensures forall i :: 0 <= i < |parts| ==> sep !in parts[i]
    decreases |s|
  {
    if sep !in s then [s]
    else
      var k := IndexOf(s, sep);
      [s[..k]] + Split(s[k + 1..], sep)
  }

  /** `sep.join(parts)`. */
  function Join(sep: string, parts: seq<string>): string {
    if |parts| == 0 then ""
    else if |parts| == 1 then parts[0]
    else parts[0] + sep + Join(sep, parts[1..])
  }

  /** `s.replace(a, b)` for one-character `a` and `b`: every `a` becomes `b`. */
  function ReplaceChar(s: string, a: char, b: char): (r: string)
    ensures |r| == |s|
  {
    if s == [] then [] else [if s[0] == a then b else s[0]] + ReplaceChar(s[1..], a, b)
  }

  /** Each character of the result is the one at the same position in `s`,
      with `a` turned into `b`. */
  lemma {:induction false} ReplaceCharAt(s: string, a: char, b: char, i: nat)
    requires i < |s|
    ensures ReplaceChar(s, a, b)[i] == if s[i] == a then b else s[i]
  {
    if i > 0 {
      ReplaceCharAt(s[1..], a, b, i - 1);
    }
  }

  /** The number of pieces is one more than the number of separators. */
  lemma {:induction false} SplitCount(s: string, sep: char)
    ensures |Split(s, sep)| == Count(s, sep) + 1
    decreases |s|
  {
    if sep !in s {
      CountZero(s, sep);
    } else {
      var k := IndexOf(s, sep);
      SplitCount(s[k + 1..], sep);
      assert s == s[..k] + [s[k]] + s[k + 1..];
      CountAppend(s[..k] + [s[k]], s[k + 1..], sep);
      CountAppend(s[..k], [s[k]], sep);
      CountZero(s[..k], sep);
    }
  }

  /** Joining the pieces with the separator gives back the string. */
  lemma {:induction false} JoinSplit(s: string, sep: char)
    ensures Join([sep], Split(s, sep)) == s
    decreases |s|
  {
    if sep in s {
      var k := IndexOf(s, sep);
      JoinSplit(s[k + 1..], sep);
      JoinCons([sep], s[..k], Split(s[k + 1..], sep));
      CutAt(s, k);
    }
  }

  /** Joining a first piece before at least one more. */
  lemma JoinCons(sep: string, first: string, rest: seq<string>)
    requires |rest| >= 1
    ensures Join(sep, [first] + rest) == first + sep + Join(sep, rest)
  {
    assert ([first] + rest)[1..] == rest;
  }

  /** A string is what comes before position `k`, the character there and
      what follows it. */
  lemma CutAt(s: string, k: nat)
    requires k < |s|
    ensures s[..k] + [s[k]] + s[k + 1..] == s
  {
  }

  /** Splitting pieces joined by the separator gives back the pieces,
      when no piece contains the separator. */
  lemma {:induction false} SplitJoin(parts: seq<string>, sep: char)
    requires |parts| >= 1
    requires forall i :: 0 <= i < |parts| ==> sep !in parts[i]
    ensures Split(Join([sep], parts), sep) == parts
  {
    if |parts| > 1 {
      var s := Join([sep], parts);
      var p := parts[0];
      var rest := Join([sep], parts[1..]);
      assert parts == [p] + parts[1..];
      JoinCons([sep], p, parts[1..]);
      assert s == p + [sep] + rest;
      assert s[|p|] == sep && s[..|p|] == p && s[|p| + 1..] == rest;
      IndexOfUnique(s, sep, |p|);
      assert Split(s, sep) == [p] + Split(rest, sep);
      SplitJoin(parts[1..], sep);
    }
  }

  /** Joining the pieces of a split with `b` is replacing every separator
      `a` by `b`. */
  lemma {:induction false} JoinSplitIsReplace(s: string, a: char, b: char)
    ensures Join([b], Split(s, a)) == ReplaceChar(s, a, b)
    decreases |s|
  {
    if a !in s {
      ReplaceAbsent(s, a, b);
    } else {
      var k := IndexOf(s, a);
      JoinSplitIsReplace(s[k + 1..], a, b);
      ReplaceAtFirst(s, a, b, k);
    }
  }

  /** Replacing a character that does not occur changes nothing. */
  lemma ReplaceAbsent(s: string, a: char, b: char)
    requires a !in s
    ensures ReplaceChar(s, a, b) == s
  {
    var r := ReplaceChar(s, a, b);
    forall k | 0 <= k < |s|
      ensures r[k] == s[k]
    {
      ReplaceCharAt(s, a, b, k);
    }
  }

  /** Replacing in a string whose first `a` is at `k`. */
  lemma ReplaceAtFirst(s: string, a: char, b: char, k: nat)
    requires k < |s| && s[k] == a && a !in s[..k]
    ensures ReplaceChar(s, a, b) == s[..k] + [b] + ReplaceChar(s[k + 1..], a, b)
  {
    var l := ReplaceChar(s, a, b);
    var tail := ReplaceChar(s[k + 1..], a, b);
    var r := s[..k] + [b] + tail;
    assert |r| == |l|;
    forall i | 0 <= i < |s|
      ensures l[i] == r[i]
    {
      ReplaceCharAt(s, a, b, i);
      if i < k {
        assert r[i] == s[..k][i] == s[i] != a;
      } else if i == k {
        assert r[i] == b;
      } else {
        ReplaceCharAt(s[k + 1..], a, b, i - k - 1);
        assert r[i] == tail[i - k - 1];
        assert s[k + 1..][i - k - 1] == s[i];
      }
    }
  }

  /** Joining pieces free of `c` with a separator free of `c` gives a
      string free of `c`. */
  lemma {:induction false} JoinAvoids(sep: string, parts: seq<string>, c: char)
    requires c !in sep
    requires forall i :: 0 <= i < |parts| ==> c !in parts[i]
    ensures c !in Join(sep, parts)
  {
    if |parts| > 1 {
      JoinAvoids(sep, parts[1..], c);
    }
  }

  // ---------------------------------------------------------------------
  // The text after the n-th separator
  // ---------------------------------------------------------------------

  /** What follows the `n`-th occurrence of `sep` in `s` (all of `s` when
      `n` is 0); meaningful when `s` holds at least `n` separators. */
  function After(s: string, sep: char, n: nat): string
    decreases n
  {
    if n == 0 || sep !in s then s else After(s[IndexOf(s, sep) + 1..], sep, n - 1)
  }

  /** Dropping the first `n` pieces of a split is splitting what follows
      the `n`-th separator. */
  lemma {:induction false} SplitAfter(s: string, sep: char, n: nat)
    requires n < |Split(s, sep)|
    ensures Split(s, sep)[n..] == Split(After(s, sep, n), sep)
    decreases n
  {
    if n > 0 {
      assert sep in s;
      var k := IndexOf(s, sep);
      var tail := Split(s[k + 1..], sep);
      assert Split(s, sep) == [s[..k]] + tail;
      assert ([s[..k]] + tail)[n..] == tail[n - 1..];
      assert After(s, sep, n) == After(s[k + 1..], sep, n - 1);
      SplitAfter(s[k + 1..], sep, n - 1);
    } else {
      assert Split(s, sep)[0..] == Split(s, sep);
    }
  }

  // ---------------------------------------------------------------------
  // str(n) for n >= 0
  // ---------------------------------------------------------------------

  predicate IsDigit(c: char) {
    48 <= c as int <= 57
  }

  function DigitChar(d: nat): (c: char)
    requires d < 10
    ensures IsDigit(c) && (c == '0') == (d == 0)
  {
    (48 + d) as char
  }

  /** `str(n)`: the decimal numeral of `n`, without leading zeros. */
  function Decimal(n: nat): (r: string)
    ensures |r| >= 1
    ensures forall i :: 0 <= i < |r| ==> IsDigit(r[i])
    ensures (r[0] == '0') == (n == 0)
  {
    if n < 10 then [DigitChar(n)] else Decimal(n / 10) + [DigitChar(n % 10)]
  }

  /** The value of a string of decimal digits, `int(s)`. */
  function ParseDecimal(s: string): nat
    requires forall i :: 0 <= i < |s| ==> IsDigit(s[i])
  {
    if s == [] then 0
    else
      assert IsDigit(s[|s| - 1]);
      10 * ParseDecimal(s[..|s| - 1]) + (s[|s| - 1] as int - 48)
  }

  /** `int(str(n)) == n`. */
  lemma {:induction false} ParseDecimalOfDecimal(n: nat)
    ensures ParseDecimal(Decimal(n)) == n
  {
    if n >= 10 {
      var d := Decimal(n);
      assert d[..|d| - 1] == Decimal(n / 10);
      ParseDecimalOfDecimal(n / 10);
    }
  }

  /** Different numbers have different numerals. */
  lemma DecimalInjective(m: nat, n: nat)
    requires Decimal(m) == Decimal(n)
    ensures m == n
  {
    ParseDecimalOfDecimal(m);
    ParseDecimalOfDecimal(n);
  }
}
