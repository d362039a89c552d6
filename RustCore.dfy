/**
 * The pieces of Rust's core library that the service's logic leans on:
 * fixed-width unsigned integers, `Display` of an unsigned integer,
 * `u64::from_str` (`str::parse::<u64>`), `str::trim` and `str::splitn`
 * with a `char` pattern.
 */
module RustCore {
  import opened Wrappers

  const U64_MODULUS: int := 0x1_0000_0000_0000_0000

  type u64 = x: int | 0 <= x < U64_MODULUS
  type u16 = x: int | 0 <= x < 0x1_0000
  type byte = x: int | 0 <= x < 0x100

  // ---------------------------------------------------------------------------
  // Decimal digits
  // ---------------------------------------------------------------------------

  predicate IsDigit(c: char) {
    '0' <= c <= '9'
  }

  predicate AllDigits(s: string) {
    forall i :: 0 <= i < |s| ==> IsDigit(s[i])
  }

  function DigitChar(d: nat): (c: char)
    requires d < 10
    ensures IsDigit(c) && c as int - '0' as int == d
  {
    (('0' as int) + d) as char
  }

  function DigitValue(c: char): (d: nat)
    requires IsDigit(c)
    ensures d < 10 && DigitChar(d) == c
  {
    c as int - '0' as int
  }

  /** The number a string of decimal digits denotes, most significant first. */
  function DigitsValue(s: string): nat
    requires AllDigits(s)
  {
    if s == [] then 0 else DigitsValue(s[..|s| - 1]) * 10 + DigitValue(s[|s| - 1])
  }

  /** `format!("{}", n)` for an unsigned integer: decimal, no leading zero. */
  function Decimal(n: nat): (s: string)
    ensures |s| >= 1 && AllDigits(s)
    ensures |s| > 1 ==> s[0] != '0'
  {
    if n < 10 then [DigitChar(n)] else Decimal(n / 10) + [DigitChar(n % 10)]
  }

  /** Reading back what `Decimal` writes gives the number again. */
  lemma {:induction false} DecimalValue(n: nat)
    ensures DigitsValue(Decimal(n)) == n
  {
    if n >= 10 {
      var s := Decimal(n);
      assert s[..|s| - 1] == Decimal(n / 10);
      DecimalValue(n / 10);
    }
  }

  lemma DecimalInjective(m: nat, n: nat)
    requires Decimal(m) == Decimal(n)
    ensures m == n
  {
    DecimalValue(m);
    DecimalValue(n);
  }

  /**
   * `str::parse::<u64>`: one optional leading '+', then at least one decimal
   * digit and nothing else (a '-' is an invalid digit for an unsigned type),
   * with a value below 2^64.
   */
  function ParseU64(s: string): (r: Option<u64>)
    ensures r.Some? ==> |s| > 0 && forall i :: 0 <= i < |s| ==> s[i] != '|'
    ensures r.Some? && AllDigits(s) ==> r.value == DigitsValue(s)
    ensures |s| > 0 && s[0] == '-' ==> r.None?
    ensures s != [] && AllDigits(s) ==> (r.Some? <==> DigitsValue(s) < U64_MODULUS)
    ensures |s| > 1 && s[0] == '+' && AllDigits(s[1..]) ==>
              (r.Some? <==> DigitsValue(s[1..]) < U64_MODULUS) && (r.Some? ==> r.value == DigitsValue(s[1..]))
    ensures r.Some? ==> AllDigits(s) || (s[0] == '+' && |s| > 1 && AllDigits(s[1..]))
  {
    var digits := if |s| > 0 && s[0] == '+' then s[1..] else s;
    if digits == [] || !AllDigits(digits) then None
    else if DigitsValue(digits) >= U64_MODULUS then None
    else Some(DigitsValue(digits))
  }

  /** Parsing what `Decimal` writes recovers every `u64`. */
  lemma ParseDecimal(n: u64)
    ensures ParseU64(Decimal(n)) == Some(n)
  {
    DecimalValue(n);
  }

  // ---------------------------------------------------------------------------
  // str::trim
  // ---------------------------------------------------------------------------

  /** `char::is_whitespace`: the Unicode White_Space property. */
  predicate IsWhitespace(c: char) {
    || '\U{0009}' <= c <= '\U{000D}'
    || c == ' '
    || c == '\U{0085}'
    || c == '\U{00A0}'
    || c == '\U{1680}'
    || '\U{2000}' <= c <= '\U{200A}'
    || c == '\U{2028}'
    || c == '\U{2029}'
    || c == '\U{202F}'
    || c == '\U{205F}'
    || c == '\U{3000}'
  }

  predicate AllWhitespace(s: string) {
    forall i :: 0 <= i < |s| ==> IsWhitespace(s[i])
  }

  /** A string with no white space at either end. */
  predicate Trimmed(s: string) {
    s == [] || (!IsWhitespace(s[0]) && !IsWhitespace(s[|s| - 1]))
  }

  /** `r` is `s` with white space cut off: `i` characters at the front, all the rest after `r` at the back. */
  predicate PaddedBy(s: string, i: int, r: string) {
    && 0 <= i <= |s| - |r| && r == s[i..i + |r|]
    && (forall j :: 0 <= j < i ==> IsWhitespace(s[j]))
    && (forall j :: i + |r| <= j < |s| ==> IsWhitespace(s[j]))
  }

  /** The first index at or after `k` whose character is not white space, or `|s|`. */
  function SkipForward(s: string, k: nat): (e: nat)
    requires k <= |s|
    ensures k <= e <= |s|
    ensures forall j :: k <= j < e ==> IsWhitespace(s[j])
    ensures e < |s| ==> !IsWhitespace(s[e])
    decreases |s| - k
  {
    if k < |s| && IsWhitespace(s[k]) then SkipForward(s, k + 1) else k
  }

  /** The index just past the last character before `k` that is not white space, or 0. */
  function SkipBackward(s: string, k: nat): (b: nat)
    requires k <= |s|
    ensures b <= k
    ensures forall j :: b <= j < k ==> IsWhitespace(s[j])
    ensures b > 0 ==> !IsWhitespace(s[b - 1])
  {
    if k > 0 && IsWhitespace(s[k - 1]) then SkipBackward(s, k - 1) else k
  }

  /** `SkipForward` stops at the first character that is not white space. */
  lemma {:induction false} SkipForwardAt(s: string, k: nat, p: nat)
    requires k <= p <= |s|
    requires forall j :: k <= j < p ==> IsWhitespace(s[j])
    requires p == |s| || !IsWhitespace(s[p])
    ensures SkipForward(s, k) == p
    decreases p - k
  {
    if k < p {
      SkipForwardAt(s, k + 1, p);
    }
  }

  /** `SkipBackward` stops just past the last character that is not white space. */
  lemma {:induction false} SkipBackwardAt(s: string, k: nat, b: nat)
    requires b <= k <= |s|
    requires forall j :: b <= j < k ==> IsWhitespace(s[j])
    requires b == 0 || !IsWhitespace(s[b - 1])
    ensures SkipBackward(s, k) == b
    decreases k - b
  {
    if b < k {
      SkipBackwardAt(s, k - 1, b);
    }
  }

  /** Scanning back from above a non-white-space character stops above it. */
  lemma {:induction false} SkipBackwardAbove(s: string, k: nat, a: nat)
    requires a < k <= |s| && !IsWhitespace(s[a])
    ensures SkipBackward(s, k) > a
    decreases k
  {
    if IsWhitespace(s[k - 1]) {
      SkipBackwardAbove(s, k - 1, a);
    }
  }

  /** `str::trim`: the string with the white space at both ends removed. */
  function Trim(s: string): (r: string)
    ensures Trimmed(r)
    ensures exists i :: PaddedBy(s, i, r)
  {
    var a := SkipForward(s, 0);
    if a == |s| then
      assert PaddedBy(s, |s|, []);
      []
    else
      var b := SkipBackward(s, |s|);
      SkipBackwardAbove(s, |s|, a);
      TrimCore(s, a, b);
      s[a..b]
  }

  /** Between the first and the last character that are not white space lies a trimmed piece of `s`. */
  lemma TrimCore(s: string, a: nat, b: nat)
    requires a < b <= |s| && !IsWhitespace(s[a]) && !IsWhitespace(s[b - 1])
    requires forall j :: 0 <= j < a ==> IsWhitespace(s[j])
    requires forall j :: b <= j < |s| ==> IsWhitespace(s[j])
    ensures Trimmed(s[a..b]) && PaddedBy(s, a, s[a..b])
  {
    var r := s[a..b];
    assert r[0] == s[a] && r[|r| - 1] == s[b - 1];
  }

  /** Trimming text that already has no white space at its ends changes nothing. */
  lemma TrimTrimmed(s: string)
    requires Trimmed(s)
    ensures Trim(s) == s
  {
    TrimPadded([], s, []);
    assert [] + s + [] == s;
  }

  /** Trimming removes exactly the padding around a trimmed core. */
  lemma TrimPadded(pre: string, core: string, post: string)
    requires AllWhitespace(pre) && AllWhitespace(post) && Trimmed(core)
    ensures Trim(pre + core + post) == core
  {
    var x := pre + core + post;
    var p := |pre|;
    var q := |pre| + |core|;
    assert forall j :: 0 <= j < p ==> x[j] == pre[j];
    assert forall j :: q <= j < |x| ==> x[j] == post[j - q];
    if core == [] {
      SkipForwardAt(x, 0, |x|);
    } else {
      assert x[p] == core[0] && x[q - 1] == core[|core| - 1];
      SkipForwardAt(x, 0, p);
      SkipBackwardAt(x, |x|, q);
      assert x[p..q] == core;
    }
  }

  // ---------------------------------------------------------------------------
  // str::splitn with a char pattern
  // ---------------------------------------------------------------------------

  /** Number of occurrences of `c` in `s`. */
  function Count(s: string, c: char): nat {
    if s == [] then 0 else (if s[0] == c then 1 else 0) + Count(s[1..], c)
  }

  lemma {:induction false} CountAppend(a: string, b: string, c: char)
    ensures Count(a + b, c) == Count(a, c) + Count(b, c)
  {
    if a != [] {
      assert (a + b)[1..] == a[1..] + b;
      CountAppend(a[1..], b, c);
    } else {
      assert a + b == b;
    }
  }

  lemma {:induction false} CountZero(s: string, c: char)
    ensures Count(s, c) == 0 <==> c !in s
  {
    if s != [] {
      CountZero(s[1..], c);
      assert c in s <==> s[0] == c || c in s[1..];
    }
  }

  /** Position of the first `c` in `s`, if any (`str::find` with a char). */
  function Find(s: string, c: char): (r: Option<nat>)
    ensures r.Some? ==> r.value < |s| && s[r.value] == c && c !in s[..r.value]
    ensures r.None? <==> c !in s
  {
    if s == [] then None
    else if s[0] == c then Some(0)
    else match Find(s[1..], c)
      case None => None
      case Some(i) => assert s[..i + 1] == [s[0]] + s[1..][..i]; Some(i + 1)
  }

  /** Joins pieces with `sep` between them; what `SplitN` has separated. */
  function Join(parts: seq<string>, sep: char): string {
    if parts == [] then []
    else if |parts| == 1 then parts[0]
    else parts[0] + [sep] + Join(parts[1..], sep)
  }

  /** Three pieces joined by a separator. */
  lemma JoinThree(parts: seq<string>, sep: char)
    requires |parts| == 3
    ensures Join(parts, sep) == parts[0] + [sep] + parts[1] + [sep] + parts[2]
  {
    assert parts[1..][1..] == [parts[2]];
    assert Join(parts[1..], sep) == parts[1] + [sep] + parts[2];
  }

  /** What splitting at the first separator, at index `i`, does to the counts. */
  lemma SplitAtFirst(s: string, i: nat, sep: char)
    requires i < |s| && s[i] == sep && sep !in s[..i]
    ensures Count(s, sep) == Count(s[i + 1..], sep) + 1
    ensures s == s[..i] + [sep] + s[i + 1..]
  {
    assert s == s[..i] + [sep] + s[i + 1..];
    CountAppend(s[..i] + [sep], s[i + 1..], sep);
    CountAppend(s[..i], [sep], sep);
    CountZero(s[..i], sep);
    assert Count([sep], sep) == 1;
  }

  lemma JoinCons(x: string, rest: seq<string>, sep: char)
    requires rest != []
    ensures Join([x] + rest, sep) == x + [sep] + Join(rest, sep)
  {
    assert ([x] + rest)[1..] == rest;
  }

  /**
   * `s.splitn(n, sep)`: at most `n` pieces; every piece but the last ends
   * where a `sep` stood, and the last holds the rest of the string
   * (separators included).
   */
  function SplitN(s: string, n: nat, sep: char): (parts: seq<string>)
    ensures n == 0 <==> parts == []
  {
    if n == 0 then []
    else if n == 1 then [s]
    else match Find(s, sep)
      case None => [s]
      case Some(i) => [s[..i]] + SplitN(s[i + 1..], n - 1, sep)
  }

  /** `splitn` gives as many pieces as there are separators plus one, but at most `n`. */
  lemma {:induction false} SplitNLength(s: string, n: nat, sep: char)
    requires n > 0
    ensures |SplitN(s, n, sep)| == if Count(s, sep) + 1 < n then Count(s, sep) + 1 else n
    decreases n
  {
    if n > 1 {
      match Find(s, sep)
      case None =>
        CountZero(s, sep);
      case Some(i) =>
        SplitAtFirst(s, i, sep);
        SplitNLength(s[i + 1..], n - 1, sep);
    }
  }

  /** Joining the pieces with the separator gives the string back. */
  lemma {:induction false} SplitNJoin(s: string, n: nat, sep: char)
    requires n > 0
    ensures Join(SplitN(s, n, sep), sep) == s
    decreases n
  {
    if n > 1 {
      match Find(s, sep)
      case None =>
      case Some(i) =>
        SplitAtFirst(s, i, sep);
        SplitNJoin(s[i + 1..], n - 1, sep);
        JoinCons(s[..i], SplitN(s[i + 1..], n - 1, sep), sep);
    }
  }

  /** No piece but the last holds a separator. */
  lemma {:induction false} SplitNSepFree(s: string, n: nat, sep: char)
    ensures forall j :: 0 <= j < |SplitN(s, n, sep)| - 1 ==> sep !in SplitN(s, n, sep)[j]
    decreases n
  {
    if n > 1 {
      match Find(s, sep)
      case None =>
      case Some(i) =>
        var rest := SplitN(s[i + 1..], n - 1, sep);
        SplitNSepFree(s[i + 1..], n - 1, sep);
        var parts := [s[..i]] + rest;
        forall j | 0 <= j < |parts| - 1
          ensures sep !in parts[j]
        {
          if j > 0 {
            assert parts[j] == rest[j - 1];
          }
        }
    }
  }

  /** The last piece holds every separator that was not split on. */
  lemma {:induction false} SplitNLastCount(s: string, n: nat, sep: char)
    requires n > 0
    ensures var parts := SplitN(s, n, sep);
            Count(parts[|parts| - 1], sep) == Count(s, sep) - (|parts| - 1)
    decreases n
  {
    var f := Find(s, sep);
    if n > 1 && f.Some? {
      var i := f.value;
      var t := s[i + 1..];
      SplitNStep(s, n, sep, i);
      SplitNLastCount(t, n - 1, sep);
      LastCountStep(s, i, sep, SplitN(t, n - 1, sep));
    } else {
      SplitNWhole(s, n, sep);
    }
  }

  /** With one piece allowed, or no separator, the string stays whole. */
  lemma SplitNWhole(s: string, n: nat, sep: char)
    requires n == 1 || (n > 1 && Find(s, sep).None?)
    ensures SplitN(s, n, sep) == [s]
  {
  }

  /** Splitting at the first separator, at index `i`, when more than one piece may be made. */
  lemma SplitNStep(s: string, n: nat, sep: char, i: nat)
    requires n > 1 && Find(s, sep) == Some(i)
    ensures SplitN(s, n, sep) == [s[..i]] + SplitN(s[i + 1..], n - 1, sep)
  {
  }

  lemma LastCountStep(s: string, i: nat, sep: char, rest: seq<string>)
    requires i < |s| && s[i] == sep && sep !in s[..i] && rest != []
    requires Count(rest[|rest| - 1], sep) == Count(s[i + 1..], sep) - (|rest| - 1)
    ensures var parts := [s[..i]] + rest;
            Count(parts[|parts| - 1], sep) == Count(s, sep) - (|parts| - 1)
  {
    SplitAtFirst(s, i, sep);
    assert ([s[..i]] + rest)[|rest|] == rest[|rest| - 1];
  }

  /** A first field without the separator comes off as the first piece. */
  lemma SplitFirst(a: string, rest: string, n: nat, sep: char)
    requires sep !in a && n >= 2
    ensures SplitN(a + [sep] + rest, n, sep) == [a] + SplitN(rest, n - 1, sep)
  {
    var s := a + [sep] + rest;
    assert s[|a|] == sep;
    assert s[..|a|] == a;
    assert Find(s, sep) == Some(|a|);
    assert s[|a| + 1..] == rest;
  }

  /** Splitting three fields joined by a separator that the first two lack gives them back. */
  lemma SplitThree(a: string, b: string, c: string, sep: char)
    requires sep !in a && sep !in b
    ensures SplitN(a + [sep] + b + [sep] + c, 3, sep) == [a, b, c]
  {
    assert a + [sep] + b + [sep] + c == a + [sep] + (b + [sep] + c);
    SplitFirst(a, b + [sep] + c, 3, sep);
    SplitFirst(b, c, 2, sep);
  }
}
