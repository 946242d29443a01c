/** The Python `str` operations the core relies on, on `seq<char>`. */
module Strings {

  /** `s.startswith(prefix)`. */
  predicate StartsWith(s: string, prefix: string) {
    |prefix| <= |s| && s[..|prefix|] == prefix
  }

  /** A prefix shown character by character. */
  lemma StartsWithByIndex(s: string, prefix: string)
    requires |prefix| <= |s|
    requires forall i | 0 <= i < |prefix| :: s[i] == prefix[i]
    ensures StartsWith(s, prefix)
  {
    assert s[..|prefix|] == prefix;
  }

  /** `sub in s`. */
  predicate Contains(s: string, sub: string)
    decreases |s|
  {
    StartsWith(s, sub) || (|s| > 0 && Contains(s[1..], sub))
  }

  /** A non-empty pattern never occurs in a string shorter than itself. */
  lemma {:induction false} ShortNeverContains(s: string, sub: string)
    requires |s| < |sub|
    ensures !Contains(s, sub)
    decreases |s|
  {
    if |s| > 0 {
      ShortNeverContains(s[1..], sub);
    }
  }

  /** A pattern whose first character never appears in `s` does not occur in it. */
  lemma {:induction false} MissingFirstNeverContains(s: string, sub: string)
    requires |sub| > 0
    requires forall i | 0 <= i < |s| :: s[i] != sub[0]
    ensures !Contains(s, sub)
    decreases |s|
  {
    if |sub| <= |s| {
      assert s[..|sub|][0] == s[0];
    }
    if |s| > 0 {
      MissingFirstNeverContains(s[1..], sub);
    }
  }

  /** `s.replace(pattern, replacement)`: a left-to-right scan that replaces
      every non-overlapping occurrence of `pattern`. */
  function ReplaceAll(s: string, pattern: string, replacement: string): string
    requires |pattern| > 0
    decreases |s|
  {
    if |s| < |pattern| then s
    else if s[..|pattern|] == pattern then replacement + ReplaceAll(s[|pattern|..], pattern, replacement)
    else [s[0]] + ReplaceAll(s[1..], pattern, replacement)
  }

  /** Replacing a pattern that does not occur changes nothing. */
  lemma {:induction false} ReplaceAllAbsent(s: string, pattern: string, replacement: string)
    requires |pattern| > 0
    requires !Contains(s, pattern)
    ensures ReplaceAll(s, pattern, replacement) == s
    decreases |s|
  {
    if |s| >= |pattern| {
      ReplaceAllAbsent(s[1..], pattern, replacement);
    }
  }

  predicate IsDigit(c: char) {
    '0' <= c <= '9'
  }

  function DigitChar(d: nat): (c: char)
    requires d < 10
    ensures IsDigit(c) && c as int - '0' as int == d
  {
    ('0' as int + d) as char
  }

  /** `str(n)` for a non-negative int: decimal digits, no padding. */
  function Decimal(n: nat): (r: string)
    ensures |r| > 0
    ensures forall i | 0 <= i < |r| :: IsDigit(r[i])
    decreases n
  {
    if n < 10 then [DigitChar(n)] else Decimal(n / 10) + [DigitChar(n % 10)]
  }

  /** The value of a string of decimal digits: the inverse of Decimal. */
  function ParseDecimal(s: string): nat
    requires forall i | 0 <= i < |s| :: IsDigit(s[i])
    decreases |s|
  {
    if s == [] then 0 else ParseDecimal(s[..|s| - 1]) * 10 + DigitValue(s[|s| - 1])
  }

  function DigitValue(c: char): (d: nat)
    requires IsDigit(c)
    ensures d < 10 && DigitChar(d) == c
  {
    c as int - '0' as int
  }

  lemma {:induction false} ParseDecimalInverse(n: nat)
    ensures ParseDecimal(Decimal(n)) == n
    decreases n
  {
    if n >= 10 {
      var s := Decimal(n);
      assert s[..|s| - 1] == Decimal(n / 10);
      ParseDecimalInverse(n / 10);
    }
  }

  /** Distinct numbers have distinct decimal representations. */
  lemma DecimalInjective(a: nat, b: nat)
    requires Decimal(a) == Decimal(b)
    ensures a == b
  {
    ParseDecimalInverse(a);
    ParseDecimalInverse(b);
  }

  /** Numbers 1000..9999 have four digits. */
  lemma DecimalFourDigits(n: nat)
    requires 1000 <= n <= 9999
    ensures |Decimal(n)| == 4
  {
    assert |Decimal(n / 1000)| == 1;
    assert |Decimal(n / 100)| == 2;
    assert |Decimal(n / 10)| == 3;
  }

  /** `re.sub('[...]', '', s)` for a character class: drops every character of `chars`. */
  function RemoveChars(s: string, chars: set<char>): (r: string)
    ensures forall i | 0 <= i < |r| :: r[i] !in chars
    decreases |s|
  {
    if s == [] then [] else (if s[0] in chars then [] else [s[0]]) + RemoveChars(s[1..], chars)
  }

  /** A string without any of `chars` is kept as it is. */
  lemma {:induction false} RemoveCharsNone(s: string, chars: set<char>)
    requires forall i | 0 <= i < |s| :: s[i] !in chars
    ensures RemoveChars(s, chars) == s
    decreases |s|
  {
    if s != [] {
      assert s[0] !in chars;
      RemoveCharsNone(s[1..], chars);
    }
  }

  /** Removal works character by character, so it distributes over concatenation. */
  lemma {:induction false} RemoveCharsAppend(a: string, b: string, chars: set<char>)
    ensures RemoveChars(a + b, chars) == RemoveChars(a, chars) + RemoveChars(b, chars)
    decreases |a|
  {
    if a != [] {
      assert (a + b)[0] == a[0];
      assert (a + b)[1..] == a[1..] + b;
      RemoveCharsAppend(a[1..], b, chars);
    } else {
      assert a + b == b;
    }
  }

  /** `s.rfind(c)`: the last position holding `c`, or -1. */
  function LastIndexOf(s: string, c: char): (r: int)
    ensures -1 <= r < |s|
    ensures r >= 0 ==> s[r] == c
    ensures forall j | r < j < |s| :: s[j] != c
    decreases |s|
  {
    if s == [] then -1
    else if s[|s| - 1] == c then |s| - 1
    else LastIndexOf(s[..|s| - 1], c)
  }

  /** `s.replace(from, to)` for one-character arguments. */
  function ReplaceChar(s: string, from: char, to: char): (r: string)
    ensures |r| == |s|
    ensures forall i | 0 <= i < |s| :: r[i] == if s[i] == from then to else s[i]
    decreases |s|
  {
    if s == [] then [] else [if s[0] == from then to else s[0]] + ReplaceChar(s[1..], from, to)
  }

  /** Replacement works character by character, so it distributes over concatenation. */
  lemma ReplaceCharAppend(a: string, b: string, from: char, to: char)
    ensures ReplaceChar(a + b, from, to) == ReplaceChar(a, from, to) + ReplaceChar(b, from, to)
  {
    var l, r := ReplaceChar(a + b, from, to), ReplaceChar(a, from, to) + ReplaceChar(b, from, to);
    forall i | 0 <= i < |l|
      ensures l[i] == r[i]
    {
      if i < |a| {
        assert (a + b)[i] == a[i];
      } else {
        assert (a + b)[i] == b[i - |a|];
      }
    }
  }

  /** `s.lstrip(chars)`: what remains is a suffix of `s` that does not start with a stripped character. */
  function TrimStart(s: string, chars: set<char>): (r: string)
    ensures |r| <= |s| && r == s[|s| - |r|..]
    ensures |r| > 0 ==> r[0] !in chars
    ensures forall i | 0 <= i < |s| - |r| :: s[i] in chars
    decreases |s|
  {
    if |s| > 0 && s[0] in chars then TrimStart(s[1..], chars) else s
  }

  /** `s.rstrip(chars)`: what remains is a prefix of `s` that does not end with a stripped character. */
  function TrimEnd(s: string, chars: set<char>): (r: string)
    ensures |r| <= |s| && r == s[..|r|]
    ensures |r| > 0 ==> r[|r| - 1] !in chars
    ensures forall i | |r| <= i < |s| :: s[i] in chars
    decreases |s|
  {
    if |s| > 0 && s[|s| - 1] in chars then TrimEnd(s[..|s| - 1], chars) else s
  }

  /** `s.strip(chars)`. */
  function Strip(s: string, chars: set<char>): string {
    TrimEnd(TrimStart(s, chars), chars)
  }

  /** Stripping removes one layer of surrounding delimiters from a value that
      does not itself begin or end with a delimiter. */
  lemma StripSurrounded(x: string, open: char, close: char, chars: set<char>)
    requires open in chars && close in chars
    requires |x| > 0 ==> x[0] !in chars && x[|x| - 1] !in chars
    ensures Strip([open] + x + [close], chars) == x
  {
    var s := [open] + x + [close];
    assert s[1..] == x + [close];
    var t := TrimStart(s, chars);
    if |x| == 0 {
      assert [close][1..] == [];
      assert t == [];
    } else {
      assert t == TrimStart(x + [close], chars);
      assert (x + [close])[0] == x[0];
      assert t == x + [close];
      assert t[..|t| - 1] == x;
    }
  }

  /** One character lower-cased if it is an ASCII capital letter. */
  function LowerChar(c: char): (r: char)
    ensures 'A' <= c <= 'Z' ==> r as int == c as int + 32
    ensures !('A' <= c <= 'Z') ==> r == c
  {
    if 'A' <= c <= 'Z' then (c as int + 32) as char else c
  }

  /** Lower-cases the ASCII letters A-Z only, as URL scheme comparison does. */
  function AsciiLower(s: string): (r: string)
    ensures |r| == |s|
    ensures forall i | 0 <= i < |s| :: r[i] == LowerChar(s[i])
  {
    seq(|s|, i requires 0 <= i < |s| => LowerChar(s[i]))
  }
}
