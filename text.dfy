/**
 * Character and string helpers shared by the four scripts: ASCII digit strings and Python's
 * `int()`/`str()` between them, `str.strip()`, the `$` of a regular expression, `str.endswith`, `os.path.splitext` and Python's
 * ordering of strings.
 */
module Text {
  import opened Common

  predicate IsDigit(c: char) { '0' <= c <= '9' }

  predicate AllDigits(s: string) { forall i :: 0 <= i < |s| ==> IsDigit(s[i]) }

  predicate IsUpper(c: char) { 'A' <= c <= 'Z' }

  predicate IsLetter(c: char) { 'A' <= c <= 'Z' || 'a' <= c <= 'z' }

  predicate AllLetters(s: string) { forall i :: 0 <= i < |s| ==> IsLetter(s[i]) }

  /**
   * The characters Python's `str.isspace()` accepts, which are those `str.strip()` and `int()`
   * remove: the ASCII tab to carriage return and file to unit separators, the space, and the
   * Unicode separators U+0085, U+00A0, U+1680, U+2000 to U+200A, U+2028, U+2029, U+202F, U+205F
   * and U+3000.
   */
  predicate IsSpace(c: char) {
    ('\t' <= c <= '\r') || ('\U{1C}' <= c <= ' ')
    || c == '\U{85}' || c == '\U{A0}' || c == '\U{1680}' || ('\U{2000}' <= c <= '\U{200A}')
    || c == '\U{2028}' || c == '\U{2029}' || c == '\U{202F}' || c == '\U{205F}' || c == '\U{3000}'
  }

  function DigitValue(c: char): (d: nat)
    requires IsDigit(c)
    ensures d < 10
  {
    c as int - '0' as int
  }

  function DigitChar(d: nat): (c: char)
    requires d < 10
    ensures IsDigit(c) && DigitValue(c) == d
  {
    ('0' as int + d) as char
  }

  /** Python's `int(s)` for a string of ASCII decimal digits (the empty string gives 0). */
  function DigitsValue(s: string): nat
    requires AllDigits(s)
  {
    if s == [] then 0 else DigitsValue(s[..|s| - 1]) * 10 + DigitValue(s[|s| - 1])
  }

  /** Python's `str(n)` for a non-negative integer: the shortest decimal spelling of `n`. */
  function NatToString(n: nat): (s: string)
    ensures |s| >= 1 && AllDigits(s)
    ensures DigitsValue(s) == n
    ensures |s| == 1 || s[0] != '0'
  {
    if n < 10 then [DigitChar(n)]
    else
      var p := NatToString(n / 10);
      var s := p + [DigitChar(n % 10)];
      assert s[..|s| - 1] == p;
      s
  }

  /** Python's `str(i)` for any integer. */
  function IntToString(i: int): (s: string)
    ensures |s| >= 1
    ensures i >= 0 ==> s == NatToString(i)
    ensures i < 0 ==> s == "-" + NatToString(-i)
  {
    if i >= 0 then NatToString(i) else "-" + NatToString(-i)
  }

  lemma {:induction false} LeadingNonZeroPositive(s: string)
    requires |s| >= 1 && AllDigits(s) && s[0] != '0'
    ensures DigitsValue(s) >= 1
  {
    if |s| > 1 {
      var t := s[..|s| - 1];
      assert t[0] == s[0];
      LeadingNonZeroPositive(t);
    }
  }

  /** A digit string without a leading zero is exactly what `str(int(s))` gives back. */
  lemma {:induction false} CanonicalDigits(s: string)
    requires |s| >= 1 && AllDigits(s)
    requires |s| == 1 || s[0] != '0'
    ensures NatToString(DigitsValue(s)) == s
  {
    if |s| > 1 {
      var t := s[..|s| - 1];
      assert t[0] == s[0];
      LeadingNonZeroPositive(t);
      CanonicalDigits(t);
      var d := DigitValue(s[|s| - 1]);
      LastDigit(DigitsValue(t), d);
      assert DigitChar(d) == s[|s| - 1];
      assert t + [s[|s| - 1]] == s;
    }
  }

  lemma LastDigit(a: nat, d: nat)
    requires d < 10
    ensures (a * 10 + d) / 10 == a && (a * 10 + d) % 10 == d
  {
  }

  function Pow10(n: nat): nat {
    if n == 0 then 1 else 10 * Pow10(n - 1)
  }

  /** A string of `n` digits spells a number below 10^n. */
  lemma {:induction false} DigitsValueBelow(s: string)
    requires AllDigits(s)
    ensures DigitsValue(s) < Pow10(|s|)
  {
    if s != [] {
      DigitsValueBelow(s[..|s| - 1]);
    }
  }

  /** A year between 1000 and 9999 is spelled with exactly four digits. */
  lemma FourDigitYear(y: nat)
    requires 1000 <= y <= 9999
    ensures |NatToString(y)| == 4
  {
    var a := y / 10;
    var b := a / 10;
    var c := b / 10;
    assert 100 <= a <= 999 && 10 <= b <= 99 && 1 <= c <= 9;
    NatToStringLonger(y);
    NatToStringLonger(a);
    NatToStringLonger(b);
  }

  lemma NatToStringLonger(n: nat)
    requires n >= 10
    ensures |NatToString(n)| == |NatToString(n / 10)| + 1
  {
  }

  /** `s.lstrip()`: the leading white space removed. */
  function StripLeft(s: string): (r: string)
    ensures |r| <= |s| && r == s[|s| - |r|..]
    ensures r == [] || !IsSpace(r[0])
  {
    if s != [] && IsSpace(s[0]) then StripLeft(s[1..]) else s
  }

  /** `s.rstrip()`: the trailing white space removed. */
  function StripRight(s: string): (r: string)
    ensures |r| <= |s| && r == s[..|r|]
    ensures r == [] || !IsSpace(r[|r| - 1])
  {
    if s != [] && IsSpace(s[|s| - 1]) then StripRight(s[..|s| - 1]) else s
  }

  /** Python's `s.strip()`. */
  function Strip(s: string): string {
    StripRight(StripLeft(s))
  }

  /** The result of stripping neither starts nor ends with white space. */
  lemma StripEnds(s: string)
    ensures Strip(s) == [] || (!IsSpace(Strip(s)[0]) && !IsSpace(Strip(s)[|Strip(s)| - 1]))
  {
    var l := StripLeft(s);
    var r := StripRight(l);
    if r != [] {
      assert r[0] == l[0];
    }
  }

  /** Every character of `s` before position `i` is white space. */
  predicate SpaceBefore(s: string, i: nat)
    requires i <= |s|
  {
    forall k :: 0 <= k < i ==> IsSpace(s[k])
  }

  /** Every character of `s` from position `j` on is white space. */
  predicate SpaceFrom(s: string, j: nat)
    requires j <= |s|
  {
    forall k :: j <= k < |s| ==> IsSpace(s[k])
  }

  /**
   * Stripping removes white space from both ends and nothing else: the result is a slice of `s`
   * with only white space before and after it.
   */
  lemma StripMeans(s: string)
    ensures exists i: nat, j: nat :: i <= j <= |s| && Strip(s) == s[i..j] && SpaceBefore(s, i) && SpaceFrom(s, j)
  {
    var l := StripLeft(s);
    var i := |s| - |l|;
    var r := StripRight(l);
    var j := i + |r|;
    StripLeftSpaces(s);
    StripRightSpaces(l);
    assert r == l[..|r|] && l == s[i..];
    assert Strip(s) == s[i..j];
    assert SpaceFrom(s, j) by {
      forall k | j <= k < |s| ensures IsSpace(s[k]) {
        assert s[k] == l[k - i];
      }
    }
    assert i <= j <= |s| && Strip(s) == s[i..j] && SpaceBefore(s, i) && SpaceFrom(s, j);
  }

  /** What `lstrip` removes is white space. */
  lemma {:induction false} StripLeftSpaces(s: string)
    ensures SpaceBefore(s, |s| - |StripLeft(s)|)
  {
    if s != [] && IsSpace(s[0]) {
      StripLeftSpaces(s[1..]);
      forall k | 1 <= k < |s| - |StripLeft(s)| ensures IsSpace(s[k]) {
        assert s[k] == s[1..][k - 1];
      }
    }
  }

  /** What `rstrip` removes is white space. */
  lemma {:induction false} StripRightSpaces(s: string)
    ensures SpaceFrom(s, |StripRight(s)|)
  {
    if s != [] && IsSpace(s[|s| - 1]) {
      StripRightSpaces(s[..|s| - 1]);
    }
  }

  /** The name without one final newline, in front of which a regular expression's `$` also lets a match end. */
  function Unterminated(name: string): (r: string)
    ensures r == name || name == r + "\n"
  {
    if |name| >= 1 && name[|name| - 1] == '\n' then name[..|name| - 1] else name
  }

  lemma StripNoSpace(s: string)
    requires |s| >= 1 && !IsSpace(s[0]) && !IsSpace(s[|s| - 1])
    ensures Strip(s) == s
  {
  }

  /** Python's `int(s)` on a string: surrounding white space, an optional sign, then ASCII digits. */
  function ParseInt(s: string): (r: Option<int>)
    ensures r.Some? ==> |Strip(s)| >= 1
  {
    var t := Strip(s);
    if |t| >= 2 && (t[0] == '-' || t[0] == '+') && AllDigits(t[1..]) then
      Some(if t[0] == '-' then -(DigitsValue(t[1..]) as int) else DigitsValue(t[1..]))
    else if |t| >= 1 && AllDigits(t) then Some(DigitsValue(t))
    else None
  }

  /** `int(str(i))` gives `i` back. */
  lemma ParseIntOfString(i: int)
    ensures ParseInt(IntToString(i)) == Some(i)
  {
    var s := IntToString(i);
    if i >= 0 {
      var n := NatToString(i);
      assert s == n && IsDigit(n[0]) && IsDigit(n[|n| - 1]);
      StripNoSpace(s);
      assert !(n[0] == '-' || n[0] == '+');
      assert AllDigits(Strip(s)) && DigitsValue(Strip(s)) == i;
    } else {
      var n := NatToString(-i);
      assert s == "-" + n && s[1..] == n;
      assert IsDigit(s[|s| - 1]);
      StripNoSpace(s);
      assert Strip(s)[0] == '-' && AllDigits(Strip(s)[1..]) && DigitsValue(Strip(s)[1..]) == -i;
    }
  }

  /** Python's `s.endswith(suffix)`. */
  predicate EndsWith(s: string, suffix: string) {
    |suffix| <= |s| && s[|s| - |suffix|..] == suffix
  }

  /** The listed names that end in `.xlsx` or `.xlsm`, in listing order. */
  function ExcelFiles(listing: seq<string>): (r: seq<string>)
    ensures forall f :: f in r <==> f in listing && (EndsWith(f, ".xlsx") || EndsWith(f, ".xlsm"))
  {
    if listing == [] then []
    else
      var f := listing[|listing| - 1];
      ExcelFiles(listing[..|listing| - 1]) + (if EndsWith(f, ".xlsx") || EndsWith(f, ".xlsm") then [f] else [])
  }

  /** Python's `s.lower()` restricted to ASCII letters. */
  function ToLower(s: string): (r: string)
    ensures |r| == |s|
  {
    seq(|s|, i requires 0 <= i < |s| => if 'A' <= s[i] <= 'Z' then (s[i] as int + 32) as char else s[i])
  }

  /** Python's `s.rfind(c)`: the last position of `c`, if any. */
  function RFind(s: string, c: char): (r: Option<nat>)
    ensures r.Some? ==> r.value < |s| && s[r.value] == c
                        && forall j :: r.value < j < |s| ==> s[j] != c
    ensures r.None? ==> forall j :: 0 <= j < |s| ==> s[j] != c
  {
    if s == [] then None
    else if s[|s| - 1] == c then Some(|s| - 1)
    else RFind(s[..|s| - 1], c)
  }

  /** Every character of `s` is a dot. */
  predicate AllDots(s: string) {
    s == [] || (s[0] == '.' && AllDots(s[1..]))
  }

  lemma {:induction false} AllDotsMeans(s: string)
    ensures AllDots(s) <==> forall i :: 0 <= i < |s| ==> s[i] == '.'
  {
    if s != [] {
      AllDotsMeans(s[1..]);
      assert forall i :: 1 <= i < |s| ==> s[i] == s[1..][i - 1];
    }
  }

  /**
   * `os.path.splitext(f)[0]` for a bare file name (no directory part): the name without its last
   * extension, where a run of leading dots does not start an extension.
   */
  function Stem(f: string): (r: string)
    ensures |r| <= |f| && r == f[..|r|]
  {
    match RFind(f, '.')
    case None => f
    case Some(p) => if !AllDots(f[..p]) then f[..p] else f
  }

  /** Stripping an extension that holds a single dot gives back the name it was appended to. */
  lemma StemOfExtension(s: string, ext: string)
    requires exists i :: 0 <= i < |s| && s[i] != '.'
    requires |ext| >= 1 && ext[0] == '.' && forall j :: 1 <= j < |ext| ==> ext[j] != '.'
    ensures Stem(s + ext) == s
  {
    var f := s + ext;
    var p := RFind(f, '.');
    assert f[|s|] == '.';
    assert p.Some? && p.value == |s| by {
      forall j | |s| < j < |f| ensures f[j] != '.' { assert f[j] == ext[j - |s|]; }
    }
    assert f[..|s|] == s;
    AllDotsMeans(s);
  }

  /** Python's ordering of strings: lexicographic by code point, a proper prefix first. */
  predicate LexLess(a: string, b: string)
    decreases |a|
  {
    if |a| == 0 then |b| > 0
    else if |b| == 0 then false
    else if a[0] != b[0] then a[0] < b[0]
    else LexLess(a[1..], b[1..])
  }

  lemma {:induction false} LexIrreflexive(a: string)
    ensures !LexLess(a, a)
    decreases |a|
  {
    if |a| > 0 { LexIrreflexive(a[1..]); }
  }

  lemma {:induction false} LexTransitive(a: string, b: string, c: string)
    requires LexLess(a, b) && LexLess(b, c)
    ensures LexLess(a, c)
    decreases |a|
  {
    if |a| > 0 && a[0] == b[0] && b[0] == c[0] {
      LexTransitive(a[1..], b[1..], c[1..]);
    }
  }

  lemma {:induction false} LexTotal(a: string, b: string)
    requires a != b
    ensures LexLess(a, b) || LexLess(b, a)
    decreases |a|
  {
    if |a| > 0 && |b| > 0 && a[0] == b[0] {
      assert a == [a[0]] + a[1..] && b == [b[0]] + b[1..];
      LexTotal(a[1..], b[1..]);
    }
  }

  lemma {:induction false} LexAsymmetric(a: string, b: string)
    requires LexLess(a, b)
    ensures !LexLess(b, a)
    decreases |a|
  {
    if |a| > 0 && |b| > 0 && a[0] == b[0] {
      LexAsymmetric(a[1..], b[1..]);
    }
  }
}
