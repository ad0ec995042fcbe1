/**
 * The Python string operations the print jobs rely on: `str.strip()`,
 * `str.split(",")`, `str.lower()`, `"\n" * n` and `int(str)`, each over
 * Dafny strings (sequences of Unicode scalar values).
 */
module PyStr {
  import opened Options

  // ---------------------------------------------------------------------------
  // Whitespace and str.strip()
  // ---------------------------------------------------------------------------

  /** The characters for which Python's `str.isspace()` holds. */
  predicate IsSpace(c: char) {
    || ('\t' <= c <= '\r')
    || ('\U{1C}' <= c <= '\U{20}')
    || c == '\U{85}' || c == '\U{A0}' || c == '\U{1680}'
    || ('\U{2000}' <= c <= '\U{200A}')
    || c == '\U{2028}' || c == '\U{2029}' || c == '\U{202F}' || c == '\U{205F}'
    || c == '\U{3000}'
  }

  predicate AllSpace(s: string) {
    forall k :: 0 <= k < |s| ==> IsSpace(s[k])
  }

  /** `s` neither starts nor ends with whitespace: `str.strip()` leaves it alone. */
  predicate Stripped(s: string) {
    s == [] || (!IsSpace(s[0]) && !IsSpace(s[|s| - 1]))
  }

  /** Length of the run of whitespace at the start of `s`. */
  function LeadingSpaces(s: string): (n: nat)
    ensures n <= |s|
    ensures AllSpace(s[..n])
    ensures n == |s| || !IsSpace(s[n])
  {
    if s != [] && IsSpace(s[0]) then
      assert s[..1 + LeadingSpaces(s[1..])] == [s[0]] + s[1..][..LeadingSpaces(s[1..])];
      1 + LeadingSpaces(s[1..])
    else 0
  }

  /** Index at which the run of whitespace at the end of `s` begins. */
  function TrailingSpaces(s: string): (n: nat)
    ensures n <= |s|
    ensures AllSpace(s[n..])
    ensures n == 0 || !IsSpace(s[n - 1])
  {
    if s != [] && IsSpace(s[|s| - 1]) then
      var n := TrailingSpaces(s[..|s| - 1]);
      assert s[n..] == s[..|s| - 1][n..] + [s[|s| - 1]];
      n
    else |s|
  }

  /** Python's `s.strip()`: `s` without its leading and trailing whitespace. */
  function Strip(s: string): (r: string)
    ensures Stripped(r)
    ensures r == s <==> Stripped(s)
    ensures exists i :: 0 <= i <= |s| - |r| && s[i..i + |r|] == r
                        && AllSpace(s[..i]) && AllSpace(s[i + |r|..])
  {
    var a := LeadingSpaces(s);
    var b := a + TrailingSpaces(s[a..]);
    StripBounds(s, a, b);
    s[a..b]
  }

  /** The kept part of `s.strip()` lies between the two runs of whitespace. */
  lemma StripBounds(s: string, a: nat, b: nat)
    requires a == LeadingSpaces(s) && b == a + TrailingSpaces(s[a..])
    ensures a <= b <= |s|
    ensures Stripped(s[a..b])
    ensures AllSpace(s[..a]) && AllSpace(s[b..])
    ensures s[a..b] == s <==> Stripped(s)
  {
    SlicesOfSuffix(s, a, b);
    assert Stripped(s) ==> a == 0 && b == |s|;
  }

  lemma SlicesOfSuffix(s: string, a: nat, b: nat)
    requires a <= b <= |s|
    ensures s[a..b] == s[a..][..b - a] && s[b..] == s[a..][b - a..]
  {
  }

  /** `str.strip()` only removes characters: one absent from `s` is absent from `s.strip()`. */
  lemma StripKeepsOut(s: string, c: char)
    requires c !in s
    ensures c !in Strip(s)
  {
    var a := LeadingSpaces(s);
    var b := a + TrailingSpaces(s[a..]);
    StripBounds(s, a, b);
    assert Strip(s) == s[a..b];
    forall q | 0 <= q < b - a
      ensures s[a..b][q] != c
    {
      assert s[a..b][q] == s[a + q];
    }
  }

  // ---------------------------------------------------------------------------
  // str.split(sep)
  // ---------------------------------------------------------------------------

  /** Index of the first `c` in `s`, or `|s|` when there is none. */
  function IndexOf(s: string, c: char): (k: nat)
    ensures k <= |s|
    ensures c !in s[..k]
    ensures k < |s| ==> s[k] == c
  {
    if s == [] || s[0] == c then 0
    else
      var k := IndexOf(s[1..], c);
      assert s[..1 + k] == [s[0]] + s[1..][..k];
      1 + k
  }

  /** Python's `sep.join(parts)` for a one-character separator. */
  function Join(parts: seq<string>, sep: char): string
    requires |parts| > 0
  {
    if |parts| == 1 then parts[0] else parts[0] + [sep] + Join(parts[1..], sep)
  }

  /**
   * Python's `s.split(sep)` for a one-character separator: one piece more
   * than there are separators, none of them holding the separator, and
   * joining them back gives `s`.
   */
  function Split(s: string, sep: char): (parts: seq<string>)
    ensures |parts| == multiset(s)[sep] + 1
    ensures forall i :: 0 <= i < |parts| ==> sep !in parts[i]
    ensures Join(parts, sep) == s
    decreases |s|
  {
    var k := IndexOf(s, sep);
    if k == |s| then
      assert s[..k] == s;
      [s]
    else
      var rest := Split(s[k + 1..], sep);
      SplitPieces(s, sep, k, rest);
      [s[..k]] + rest
  }

  /** Cutting `s` at its first separator: the piece before it, then the pieces of what follows. */
  lemma SplitPieces(s: string, sep: char, k: nat, rest: seq<string>)
    requires k < |s| && s[k] == sep && sep !in s[..k]
    requires |rest| == multiset(s[k + 1..])[sep] + 1
    requires forall i :: 0 <= i < |rest| ==> sep !in rest[i]
    requires Join(rest, sep) == s[k + 1..]
    ensures |[s[..k]] + rest| == multiset(s)[sep] + 1
    ensures forall i :: 0 <= i < |[s[..k]] + rest| ==> sep !in ([s[..k]] + rest)[i]
    ensures Join([s[..k]] + rest, sep) == s
  {
    var head, tail := s[..k], s[k + 1..];
    assert s == head + [sep] + tail;
    assert multiset(s)[sep] == multiset(head)[sep] + 1 + multiset(tail)[sep];
    assert sep !in multiset(head);
    assert ([head] + rest)[1..] == rest;
  }

  lemma SplitNoSeparator(x: string, sep: char)
    requires sep !in x
    ensures Split(x, sep) == [x]
  {
    assert x[..|x|] == x;
  }

  lemma SplitAtSeparator(x: string, sep: char, y: string)
    requires sep !in x
    ensures Split(x + [sep] + y, sep) == [x] + Split(y, sep)
  {
    var s := x + [sep] + y;
    var k := IndexOf(s, sep);
    assert s[..|x|] == x;
    assert s[|x|] == sep;
    assert forall j :: 0 <= j < k ==> s[..k][j] == s[j];
    assert k == |x|;
    assert s[..k] == x && s[k + 1..] == y;
  }

  // ---------------------------------------------------------------------------
  // str.lower() and "\n" * n
  // ---------------------------------------------------------------------------

  predicate IsUpper(c: char) { 'A' <= c <= 'Z' }

  function LowerChar(c: char): char {
    if IsUpper(c) then (c as int + 32) as char else c
  }

  /** Python's `s.lower()`, folding the ASCII letters A to Z only. */
  function Lower(s: string): (r: string)
    ensures |r| == |s|
    ensures forall i :: 0 <= i < |s| ==>
              if IsUpper(s[i]) then r[i] as int == s[i] as int - 'A' as int + 'a' as int else r[i] == s[i]
    ensures forall i :: 0 <= i < |r| ==> !IsUpper(r[i])
    ensures (forall i :: 0 <= i < |s| ==> !IsUpper(s[i])) ==> r == s
  {
    seq(|s|, i requires 0 <= i < |s| => LowerChar(s[i]))
  }

  /** Python's `"\n" * n`, which is empty for every `n <= 0`. */
  function NewLines(n: int): (r: string)
    ensures n <= 0 ==> r == []
    ensures n > 0 ==> |r| == n
    ensures forall i :: 0 <= i < |r| ==> r[i] == '\n'
  {
    seq(if n > 0 then n else 0, _ => '\n')
  }

  // ---------------------------------------------------------------------------
  // int(str)
  // ---------------------------------------------------------------------------

  predicate IsDigit(c: char) { '0' <= c <= '9' }

  predicate AllDigits(s: string) {
    forall k :: 0 <= k < |s| ==> IsDigit(s[k])
  }

  /** The value of a run of decimal digits, most significant first. */
  function DigitsValue(s: string): nat
    requires AllDigits(s)
  {
    if s == [] then 0
    else 10 * DigitsValue(s[..|s| - 1]) + (s[|s| - 1] as int - '0' as int)
  }

  /** The digits after an optional leading sign. */
  function Unsigned(t: string): string {
    if |t| > 0 && (t[0] == '+' || t[0] == '-') then t[1..] else t
  }

  /** The text `int()` accepts once the surrounding whitespace is removed. */
  predicate IsIntLiteral(t: string) {
    |Unsigned(t)| > 0 && AllDigits(Unsigned(t))
  }

  /**
   * The information separators U+001C to U+001F. `str.isspace()` holds for
   * them, but `int()` skips only the ASCII whitespace " \t\n\v\f\r" and
   * non-ASCII whitespace, so one of them anywhere makes `int()` raise.
   */
  predicate IsInfoSeparator(c: char) {
    '\U{1C}' <= c <= '\U{1F}'
  }

  predicate NoInfoSeparator(s: string) {
    forall k :: 0 <= k < |s| ==> !IsInfoSeparator(s[k])
  }

  /**
   * Python's `int(s)` for base 10: surrounding whitespace other than an
   * information separator is ignored, an optional sign is followed by one
   * or more ASCII digits; any other text raises, here `None`.
   */
  function ParseInt(s: string): (r: Option<int>)
    ensures r.Some? <==> NoInfoSeparator(s) && IsIntLiteral(Strip(s))
  {
    var t := Strip(s);
    var digits := Unsigned(t);
    if NoInfoSeparator(s) && |digits| > 0 && AllDigits(digits) then
      var v: int := DigitsValue(digits);
      Some(if t[0] == '-' then -v else v)
    else None
  }

  function DigitChar(d: nat): char
    requires d < 10
  {
    ('0' as int + d) as char
  }

  /** Python's `str(n)` for a natural number. */
  function NatToString(n: nat): (r: string)
    ensures |r| > 0 && AllDigits(r)
    ensures DigitsValue(r) == n
    ensures r[0] == '0' ==> n == 0
  {
    if n < 10 then [DigitChar(n)]
    else
      var r := NatToString(n / 10) + [DigitChar(n % 10)];
      assert r[..|r| - 1] == NatToString(n / 10);
      r
  }

  /** Python's `str(n)`: a minus sign for negative numbers, then the digits. */
  function IntToString(n: int): (r: string)
    ensures |r| > 0
    ensures n < 0 <==> r[0] == '-'
  {
    if n < 0 then "-" + NatToString(-n) else NatToString(n)
  }

  /** `str` and `int` are inverse: every integer's text parses back to it. */
  lemma {:induction false} ParseIntToString(n: int)
    ensures ParseInt(IntToString(n)) == Some(n)
    ensures Stripped(IntToString(n))
  {
    var s := IntToString(n);
    var d := NatToString(if n < 0 then -n else n);
    IntToStringIsPlain(n);
    assert NoInfoSeparator(s);
    assert !IsSpace(d[0]) && !IsSpace(d[|d| - 1]);
    assert Stripped(s);
    assert Strip(s) == s;
    assert Unsigned(s) == d;
  }

  /** The text of an integer holds none of the characters the markup treats specially. */
  lemma IntToStringIsPlain(n: int)
    ensures forall k :: 0 <= k < |IntToString(n)| ==>
              IntToString(n)[k] == '-' || IsDigit(IntToString(n)[k])
  {
    var d := NatToString(if n < 0 then -n else n);
    if n < 0 {
      assert IntToString(n) == "-" + d;
    }
  }
}
