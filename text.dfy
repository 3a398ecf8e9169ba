/** String helpers with the semantics of the PHP and Python built-ins the
    source calls (strtolower, str_replace, trim, explode, ctype_digit, intval,
    is_numeric, str_starts_with and the two hand-written startsWith/endsWith). */
module Text {

  /** ASCII lower-casing, as PHP 8's locale-independent `strtolower`. */
  function LowerChar(c: char): char {
    if 'A' <= c <= 'Z' then (c as int + 32) as char else c
  }

  function Lower(s: string): (r: string)
    ensures |r| == |s|
    ensures forall i :: 0 <= i < |s| ==> r[i] == LowerChar(s[i])
  {
    if s == [] then [] else [LowerChar(s[0])] + Lower(s[1..])
  }

  /** ASCII upper-casing, as PHP 8's `strtoupper`. */
  function UpperChar(c: char): char {
    if 'a' <= c <= 'z' then (c as int - 32) as char else c
  }

  function Upper(s: string): (r: string)
    ensures |r| == |s|
    ensures forall i :: 0 <= i < |s| ==> r[i] == UpperChar(s[i])
  {
    if s == [] then [] else [UpperChar(s[0])] + Upper(s[1..])
  }

  /** The number of bytes UTF-8 spends on one character: one below
      U+0080, two below U+0800, three below U+10000, four above. */
  function Utf8Width(c: char): (w: nat)
    ensures 1 <= w <= 4
    ensures w == 1 <==> c < '\U{80}'
  {
    if c < '\U{80}' then 1
    else if c < '\U{800}' then 2
    else if c < '\U{10000}' then 3
    else 4
  }

  /** `strlen` of a text stored as UTF-8: its length in bytes. It is the
      number of characters exactly when every character is ASCII, and at
      most four bytes per character. */
  function Utf8Length(s: string): (n: nat)
    ensures |s| <= n <= 4 * |s|
    ensures n == |s| <==> forall i :: 0 <= i < |s| ==> s[i] < '\U{80}'
  {
    if s == [] then 0
    else
      var rest := Utf8Length(s[1..]);
      assert forall i :: 1 <= i < |s| ==> s[i] == s[1..][i - 1];
      Utf8Width(s[0]) + rest
  }

  /** The byte length of a concatenation is the sum of the parts'. */
  lemma {:induction false} Utf8LengthAppend(a: string, b: string)
    ensures Utf8Length(a + b) == Utf8Length(a) + Utf8Length(b)
  {
    if a == [] {
      assert a + b == b;
    } else {
      assert (a + b)[0] == a[0] && (a + b)[1..] == a[1..] + b;
      Utf8LengthAppend(a[1..], b);
    }
  }

  /** `é` takes two bytes, and the replacement character U+FFFD, which
      stands for every undecodable byte, takes three. */
  lemma Utf8LengthOfAccents()
    ensures Utf8Length("\U{E9}") == 2
    ensures Utf8Length("\U{FFFD}") == 3
    ensures Utf8Length("a\U{E9}") == 3
  {
    assert "a\U{E9}"[1..] == "\U{E9}";
  }

  predicate StartsWith(s: string, prefix: string) {
    |prefix| <= |s| && s[..|prefix|] == prefix
  }

  predicate EndsWithSuffix(s: string, suffix: string) {
    |suffix| <= |s| && s[|s| - |suffix|..] == suffix
  }

  /** `pat` occurs in `s` starting at index `i`. */
  predicate OccursAt(s: string, pat: string, i: int) {
    0 <= i <= |s| - |pat| && s[i..i + |pat|] == pat
  }

  predicate Contains(s: string, pat: string) {
    exists i | 0 <= i <= |s| - |pat| :: OccursAt(s, pat, i)
  }

  /** `str_replace($pat, $rep, $s)` for one non-empty search string: every
      occurrence, scanning left to right without overlap, is replaced. */
  function ReplaceAll(s: string, pat: string, rep: string): string
    requires pat != ""
    decreases |s|
  {
    if |s| < |pat| then s
    else if s[..|pat|] == pat then rep + ReplaceAll(s[|pat|..], pat, rep)
    else [s[0]] + ReplaceAll(s[1..], pat, rep)
  }

  /** A character absent from the subject and from the replacement stays absent. */
  lemma {:induction false} ReplaceAllKeepsAbsent(s: string, pat: string, rep: string, c: char)
    requires pat != ""
    requires c !in s && c !in rep
    ensures c !in ReplaceAll(s, pat, rep)
    decreases |s|
  {
    if |s| < |pat| {
    } else if s[..|pat|] == pat {
      ReplaceAllKeepsAbsent(s[|pat|..], pat, rep, c);
    } else {
      ReplaceAllKeepsAbsent(s[1..], pat, rep, c);
    }
  }

  /** Replacing a one-character pattern removes every occurrence of it. */
  lemma {:induction false} ReplaceAllRemoves(s: string, c: char, rep: string)
    requires c !in rep
    ensures c !in ReplaceAll(s, [c], rep)
    decreases |s|
  {
    if |s| < 1 {
    } else if s[..1] == [c] {
      ReplaceAllRemoves(s[1..], c, rep);
    } else {
      assert s[0] != c by { assert s[..1] == [s[0]]; }
      ReplaceAllRemoves(s[1..], c, rep);
    }
  }

  /** A character that the pattern does not contain survives the replacement. */
  lemma {:induction false} ReplaceAllKeepsPresent(s: string, pat: string, rep: string, c: char)
    requires pat != ""
    requires c in s && c !in pat
    ensures c in ReplaceAll(s, pat, rep)
    decreases |s|
  {
    if |s| < |pat| {
    } else if s[..|pat|] == pat {
      var k :| 0 <= k < |s| && s[k] == c;
      assert k >= |pat| by {
        assert forall j :: 0 <= j < |pat| ==> s[j] == pat[j];
      }
      assert s[|pat|..][k - |pat|] == c;
      ReplaceAllKeepsPresent(s[|pat|..], pat, rep, c);
    } else if s[0] == c {
    } else {
      var k :| 0 <= k < |s| && s[k] == c;
      assert s[1..][k - 1] == c;
      ReplaceAllKeepsPresent(s[1..], pat, rep, c);
    }
  }

  /** A string that starts with the pattern contains it. */
  lemma PrefixOccurs(s: string, pat: string)
    requires |s| >= |pat|
    ensures s[..|pat|] == pat ==> Contains(s, pat)
  {
    if s[..|pat|] == pat {
      assert OccursAt(s, pat, 0);
    }
  }

  /** An occurrence in the tail is an occurrence in the whole. */
  lemma TailOccurs(s: string, pat: string)
    requires s != []
    ensures Contains(s[1..], pat) ==> Contains(s, pat)
  {
    if Contains(s[1..], pat) {
      var i :| 0 <= i <= |s| - 1 - |pat| && OccursAt(s[1..], pat, i);
      assert s[1..][i..i + |pat|] == s[i + 1..i + 1 + |pat|];
      assert OccursAt(s, pat, i + 1);
    }
  }

  /** With no occurrence of the pattern the subject is returned unchanged. */
  lemma {:induction false} ReplaceAllNoMatch(s: string, pat: string, rep: string)
    requires pat != ""
    requires !Contains(s, pat)
    ensures ReplaceAll(s, pat, rep) == s
    decreases |s|
  {
    if |s| >= |pat| {
      PrefixOccurs(s, pat);
      TailOccurs(s, pat);
      ReplaceAllNoMatch(s[1..], pat, rep);
    }
  }

  /** `explode($sep, $s)` / Python `str.split(sep)` for a one-character separator. */
  function SplitOn(s: string, sep: char): (r: seq<string>)
    ensures |r| >= 1
    ensures forall i :: 0 <= i < |r| ==> sep !in r[i]
    decreases |s|
  {
    if s == [] then [""]
    else
      var rest := SplitOn(s[1..], sep);
      if s[0] == sep then [""] + rest else [[s[0]] + rest[0]] + rest[1..]
  }

  /** Joining the pieces with the separator gives the subject back. */
  function JoinWith(parts: seq<string>, sep: char): string
    requires |parts| >= 1
    decreases |parts|
  {
    if |parts| == 1 then parts[0] else parts[0] + [sep] + JoinWith(parts[1..], sep)
  }

  lemma {:induction false} SplitJoin(s: string, sep: char)
    ensures JoinWith(SplitOn(s, sep), sep) == s
    decreases |s|
  {
    if s != [] {
      SplitJoin(s[1..], sep);
      var rest := SplitOn(s[1..], sep);
      if s[0] == sep {
        assert ([""] + rest)[1..] == rest;
      } else {
        var r := [[s[0]] + rest[0]] + rest[1..];
        if |rest| == 1 {
        } else {
          assert r[1..] == rest[1..];
          assert JoinWith(rest, sep) == rest[0] + [sep] + JoinWith(rest[1..], sep);
        }
      }
    }
  }

  /** A subject without the separator splits into itself alone. */
  lemma {:induction false} SplitNoSeparator(s: string, sep: char)
    requires sep !in s
    ensures SplitOn(s, sep) == [s]
    decreases |s|
  {
    if s != [] {
      SplitNoSeparator(s[1..], sep);
      assert [s[0]] + s[1..] == s;
    }
  }

  /** Characters stripped by PHP's `trim` (" \t\n\r\0\x0B"). */
  const PhpTrimChars: set<char> := {' ', '\t', '\n', '\r', '\0', '\U{B}'}

  /** Characters `FILTER_VALIDATE_BOOLEAN` strips before it compares: the
      trim set without NUL. */
  const FilterTrimChars: set<char> := {' ', '\t', '\n', '\r', '\U{B}'}

  /** Characters stripped by Python's `str.strip()` (ASCII whitespace). */
  const PyWhitespace: set<char> := {' ', '\t', '\n', '\r', '\U{B}', '\U{C}'}

  function TrimLeft(s: string, cs: set<char>): (r: string)
    ensures |r| <= |s| && r == s[|s| - |r|..]
    ensures r != [] ==> r[0] !in cs
    decreases |s|
  {
    if s != [] && s[0] in cs then TrimLeft(s[1..], cs) else s
  }

  function TrimRight(s: string, cs: set<char>): (r: string)
    ensures |r| <= |s| && r == s[..|r|]
    ensures r != [] ==> r[|r| - 1] !in cs
    decreases |s|
  {
    if s != [] && s[|s| - 1] in cs then TrimRight(s[..|s| - 1], cs) else s
  }

  /** `trim($s)` (or Python's `strip()` with the whitespace set). */
  function Trim(s: string, cs: set<char>): (r: string)
    ensures r == [] || (r[0] !in cs && r[|r| - 1] !in cs)
    ensures forall c :: c in r ==> c in s
  {
    var l := TrimLeft(s, cs);
    var r := TrimRight(l, cs);
    assert forall k :: 0 <= k < |r| ==> r[k] == s[|s| - |l| + k];
    r
  }

  predicate IsDigit(c: char) { '0' <= c <= '9' }

  /** `ctype_digit($s)` on a string: non-empty and only ASCII digits. */
  predicate AllDigits(s: string) {
    s != [] && forall i :: 0 <= i < |s| ==> IsDigit(s[i])
  }

  /** Decimal value of a run of digits (the empty run is 0). */
  function DigitsValue(s: string): (n: nat)
    requires forall i :: 0 <= i < |s| ==> IsDigit(s[i])
    decreases |s|
  {
    if s == [] then 0
    else
      assert IsDigit(s[|s| - 1]);
      DigitsValue(s[..|s| - 1]) * 10 + (s[|s| - 1] as int - '0' as int)
  }

  /** Longest prefix made of digits. */
  function DigitPrefix(s: string): (r: string)
    ensures |r| <= |s| && r == s[..|r|]
    ensures forall i :: 0 <= i < |r| ==> IsDigit(r[i])
    ensures |r| < |s| ==> !IsDigit(s[|r|])
    decreases |s|
  {
    if s != [] && IsDigit(s[0]) then [s[0]] + DigitPrefix(s[1..]) else []
  }

  /** Whitespace PHP skips before a leading number. */
  const PhpNumericSpace: set<char> := {' ', '\t', '\n', '\r', '\U{B}', '\U{C}'}

  /** `2 ** n`. */
  function Pow2(n: nat): (p: nat)
    ensures p >= 1
  {
    if n == 0 then 1 else 2 * Pow2(n - 1)
  }

  /** The bounds of PHP's 64-bit integer. */
  const PhpIntMax: int := 0x7FFF_FFFF_FFFF_FFFF
  const PhpIntMin: int := -0x8000_0000_0000_0000

  /** A number outside PHP's integer range, cast from a numeric string,
      is capped at the nearer bound. */
  function Saturate(v: int): (r: int)
    ensures PhpIntMin <= r <= PhpIntMax
    ensures PhpIntMin <= v <= PhpIntMax ==> r == v
  {
    if v > PhpIntMax then PhpIntMax else if v < PhpIntMin then PhpIntMin else v
  }

  /** `(int)$s` / `intval($s)` for a string: optional leading whitespace, an
      optional sign and the longest run of digits, capped to the 64-bit
      range; 0 when there is no digit. */
  function PhpIntval(s: string): int {
    var t := TrimLeft(s, PhpNumericSpace);
    if t != [] && (t[0] == '-' || t[0] == '+') then
      var v: int := DigitsValue(DigitPrefix(t[1..]));
      Saturate(if t[0] == '-' then -v else v)
    else Saturate(DigitsValue(DigitPrefix(t)))
  }

  /** Decimal rendering of an integer, as PHP and Python print it. */
  function IntToString(n: int): (r: string)
    ensures r != []
    decreases if n < 0 then -n + 1 else n
  {
    if n < 0 then "-" + IntToString(-n)
    else if n < 10 then [('0' as int + n) as char]
    else IntToString(n / 10) + [('0' as int + n % 10) as char]
  }

  /** The decimal rendering of a natural number reads back as that number,
      so different numbers render differently. */
  lemma {:induction false} IntToStringDigits(n: nat)
    ensures forall i :: 0 <= i < |IntToString(n)| ==> IsDigit(IntToString(n)[i])
    ensures DigitsValue(IntToString(n)) == n
    decreases n
  {
    if n >= 10 {
      IntToStringDigits(n / 10);
      var r := IntToString(n);
      assert r[..|r| - 1] == IntToString(n / 10);
    }
  }

  lemma IntToStringInjective(a: nat, b: nat)
    requires IntToString(a) == IntToString(b)
    ensures a == b
  {
    IntToStringDigits(a);
    IntToStringDigits(b);
  }

  /** The body of a PHP numeric string without exponent: digits with an
      optional fraction (`12`, `12.`, `12.5`, `.5`). */
  predicate IsDecimalBody(s: string) {
    exists k | 0 <= k <= |s| :: DecimalSplit(s, k)
  }

  /** `s` is the digits before `k`, then either nothing more (with at least
      one digit) or a `.` at `k` and digits after it. */
  predicate DecimalSplit(s: string, k: int) {
    0 <= k <= |s| &&
    (forall i :: 0 <= i < k ==> IsDigit(s[i])) &&
    ((k == |s| && k > 0) ||
     (k < |s| && s[k] == '.' && |s| > 1 &&
      forall i :: k < i < |s| ==> IsDigit(s[i])))
  }

  /** `is_numeric($s)` on a string (PHP 8): optional leading and trailing
      whitespace around an optionally signed decimal. */
  predicate PhpIsNumeric(s: string) {
    var t := Trim(s, PhpNumericSpace);
    t != [] &&
    (if t[0] == '-' || t[0] == '+' then IsDecimalBody(t[1..]) else IsDecimalBody(t))
  }

  /** Value of a digit string read as a fraction after the decimal point. */
  function FractionValue(s: string): real
    requires forall i :: 0 <= i < |s| ==> IsDigit(s[i])
    decreases |s|
  {
    if s == [] then 0.0 else ((s[0] as int - '0' as int) as real + FractionValue(s[1..])) / 10.0
  }

  /** `(float)$s` / `floatval($s)`: the leading optionally signed decimal, 0.0
      when there is none. */
  function PhpFloatval(s: string): real {
    var t := TrimLeft(s, PhpNumericSpace);
    var neg := t != [] && t[0] == '-';
    var u := if t != [] && (t[0] == '-' || t[0] == '+') then t[1..] else t;
    var whole := DigitPrefix(u);
    var rest := u[|whole|..];
    var frac := if rest != [] && rest[0] == '.' then DigitPrefix(rest[1..]) else [];
    var v := DigitsValue(whole) as real + FractionValue(frac);
    if neg then -v else v
  }

  /** The leading decimal `floatval` reads, taken apart: its sign, the
      digits before the point and the digits after it. */
  datatype DecimalParts = DecimalParts(neg: bool, whole: string, frac: string)

  function LeadingDecimal(s: string): (r: DecimalParts)
    ensures forall i :: 0 <= i < |r.whole| ==> IsDigit(r.whole[i])
    ensures forall i :: 0 <= i < |r.frac| ==> IsDigit(r.frac[i])
  {
    var t := TrimLeft(s, PhpNumericSpace);
    var u := if t != [] && (t[0] == '-' || t[0] == '+') then t[1..] else t;
    var whole := DigitPrefix(u);
    var rest := u[|whole|..];
    DecimalParts(t != [] && t[0] == '-', whole,
                 if rest != [] && rest[0] == '.' then DigitPrefix(rest[1..]) else [])
  }

  /** `floatval` reads a whole number within PHP's integer range: the
      digits after the point, if any, are all zero. */
  predicate WholeDecimal(s: string) {
    var p := LeadingDecimal(s);
    FractionValue(p.frac) == 0.0 && DigitsValue(p.whole) <= PhpIntMax
  }

  /** Where `floatval` reads a whole number within PHP's integer range,
      `intval` reads the same number. */
  lemma WholeDecimalReads(s: string)
    requires WholeDecimal(s)
    ensures PhpIntval(s) as real == PhpFloatval(s)
  {
    var p := LeadingDecimal(s);
    var d: int := DigitsValue(p.whole);
    assert PhpFloatval(s) == if p.neg then -(d as real + FractionValue(p.frac)) else d as real + FractionValue(p.frac);
    var sd: int := if p.neg then 0 - d else d;
    assert PhpIntval(s) == Saturate(sd);
  }

  /** PHP's loose `==` between two strings: numerically when both are
      numeric strings, byte-wise otherwise. */
  predicate PhpLooseEquals(a: string, b: string) {
    if PhpIsNumeric(a) && PhpIsNumeric(b) then PhpFloatval(a) == PhpFloatval(b) else a == b
  }

  /** PHP truthiness of a string: everything except "" and "0". */
  predicate PhpTruthy(s: string) {
    s != "" && s != "0"
  }
}
