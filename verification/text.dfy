/** String helpers with JavaScript's semantics: the `\s` class, `trim`, `split`/`join`
    on one character, `String(n)` for integers and canonical array-index keys. */
module Text {
  import opened Wrappers

  /** JavaScript's `\s` (WhiteSpace and LineTerminator); `String.prototype.trim` strips the same set. */
  predicate IsSpace(c: char) {
    || c == ' ' || c == '\t' || c == '\n' || c == '\U{B}' || c == '\U{C}' || c == '\r'
    || c == '\U{A0}' || c == '\U{1680}' || ('\U{2000}' <= c <= '\U{200A}')
    || c == '\U{2028}' || c == '\U{2029}' || c == '\U{202F}' || c == '\U{205F}'
    || c == '\U{3000}' || c == '\U{FEFF}'
  }

  /** The characters `.` does not match and at which `^`/`$` match in multiline mode. */
  predicate IsLineTerminator(c: char) {
    c == '\n' || c == '\r' || c == '\U{2028}' || c == '\U{2029}'
  }

  predicate IsDigit(c: char) {
    '0' <= c <= '9'
  }

  /** Length of the run of `\s` characters starting at `i`. */
  function WsRun(s: string, i: nat): (n: nat)
    requires i <= |s|
    ensures i + n <= |s|
    ensures forall j | i <= j < i + n :: IsSpace(s[j])
    ensures i + n == |s| || !IsSpace(s[i + n])
    decreases |s| - i
  {
    if i < |s| && IsSpace(s[i]) then 1 + WsRun(s, i + 1) else 0
  }

  /** The white-space run of a line is its first `w` characters when those are white space and the
      character after them is not. */
  lemma WsRunOfPrefixed(s: string, w: nat)
    requires w <= |s| && forall j | 0 <= j < w :: IsSpace(s[j])
    requires w == |s| || !IsSpace(s[w])
    ensures WsRun(s, 0) == w
  {
    WsRunFrom(s, 0, w);
  }

  lemma {:induction false} WsRunFrom(s: string, i: nat, w: nat)
    requires i <= w <= |s| && forall j | i <= j < w :: IsSpace(s[j])
    requires w == |s| || !IsSpace(s[w])
    ensures WsRun(s, i) == w - i
    decreases w - i
  {
    if i < w {
      WsRunFrom(s, i + 1, w);
    }
  }

  function TrimStart(s: string): string {
    s[WsRun(s, 0)..]
  }

  function TrimEnd(s: string): (r: string)
    ensures |r| <= |s| && r == s[..|r|]
    ensures forall j | |r| <= j < |s| :: IsSpace(s[j])
    ensures |r| == 0 || !IsSpace(r[|r| - 1])
  {
    if |s| > 0 && IsSpace(s[|s| - 1]) then TrimEnd(s[..|s| - 1]) else s
  }

  /** `String.prototype.trim`. */
  function Trim(s: string): string {
    TrimEnd(TrimStart(s))
  }

  predicate StartsWith(s: string, p: string) {
    |p| <= |s| && s[..|p|] == p
  }

  predicate EndsWith(s: string, p: string) {
    |p| <= |s| && s[|s| - |p|..] == p
  }

  /** Index of the first occurrence of `c`. */
  function IndexOf(s: string, c: char): (i: nat)
    requires c in s
    ensures i < |s| && s[i] == c && c !in s[..i]
  {
    if s[0] == c then 0 else 1 + IndexOf(s[1..], c)
  }

  /** `s.split(sep)` for a one-character separator. */
  function Split(s: string, sep: char): (parts: seq<string>)
    ensures |parts| >= 1
    ensures forall i | 0 <= i < |parts| :: sep !in parts[i]
    decreases |s|
  {
    if sep !in s then [s]
    else
      var i := IndexOf(s, sep);
      [s[..i]] + Split(s[i + 1..], sep)
  }

  /** `parts.join(sep)`; the empty array joins to the empty string. */
  function Join(parts: seq<string>, sep: char): string {
    if |parts| == 0 then ""
    else if |parts| == 1 then parts[0]
    else parts[0] + [sep] + Join(parts[1..], sep)
  }

  /** Splitting a joined text gives the pieces back when none of them holds the separator. */
  lemma {:induction false} SplitJoin(parts: seq<string>, sep: char)
    requires |parts| >= 1
    requires forall i | 0 <= i < |parts| :: sep !in parts[i]
    ensures Split(Join(parts, sep), sep) == parts
  {
    if |parts| > 1 {
      var j := Join(parts[1..], sep);
      var s := parts[0] + [sep] + j;
      assert s[|parts[0]|] == sep;
      assert s[..|parts[0]|] == parts[0];
      assert IndexOf(s, sep) == |parts[0]|;
      assert s[|parts[0]| + 1..] == j;
      SplitJoin(parts[1..], sep);
    }
  }

  /** Joining the pieces of a split gives the text back. */
  lemma {:induction false} JoinSplit(s: string, sep: char)
    ensures Join(Split(s, sep), sep) == s
    decreases |s|
  {
    if sep in s {
      var i := IndexOf(s, sep);
      var rest := Split(s[i + 1..], sep);
      assert Split(s, sep) == [s[..i]] + rest;
      JoinCons(s[..i], rest, sep);
      JoinSplit(s[i + 1..], sep);
      assert s == s[..i] + [sep] + s[i + 1..];
    }
  }

  lemma JoinCons(head: string, rest: seq<string>, sep: char)
    requires |rest| >= 1
    ensures Join([head] + rest, sep) == head + [sep] + Join(rest, sep)
  {
    assert ([head] + rest)[1..] == rest;
  }

  /** A character the text does not hold is in none of the pieces of its split. */
  lemma {:induction false} SplitAvoids(s: string, sep: char, c: char)
    requires c !in s
    ensures forall i | 0 <= i < |Split(s, sep)| :: c !in Split(s, sep)[i]
    decreases |s|
  {
    if sep in s {
      var i := IndexOf(s, sep);
      SplitAvoids(s[i + 1..], sep, c);
    }
  }

  /** Joining adds no character but the separator. */
  lemma {:induction false} JoinAvoids(parts: seq<string>, sep: char, c: char)
    requires c != sep
    requires forall i | 0 <= i < |parts| :: c !in parts[i]
    ensures c !in Join(parts, sep)
    decreases |parts|
  {
    if |parts| > 1 {
      JoinAvoids(parts[1..], sep, c);
    }
  }

  /** The last piece ends the joined text. */
  lemma {:induction false} JoinLast(parts: seq<string>, last: string, sep: char)
    ensures Join(parts + [last], sep) == if |parts| == 0 then last else Join(parts, sep) + [sep] + last
    decreases |parts|
  {
    if |parts| > 0 {
      assert (parts + [last])[1..] == parts[1..] + [last];
      JoinLast(parts[1..], last, sep);
    }
  }

  /** Replaces the first occurrence of `pat` (as `String.prototype.replace` with a string pattern). */
  function ReplaceFirst(s: string, pat: string, rep: string): (r: string)
    decreases |s|
  {
    if StartsWith(s, pat) then rep + s[|pat|..]
    else if |s| == 0 then s
    else [s[0]] + ReplaceFirst(s[1..], pat, rep)
  }

  /** A text that starts with the pattern has that start replaced. */
  lemma ReplaceFirstPrefix(pre: string, rest: string, rep: string)
    ensures ReplaceFirst(pre + rest, pre, rep) == rep + rest
  {
    assert (pre + rest)[..|pre|] == pre;
    assert (pre + rest)[|pre|..] == rest;
  }

  /** Replaces every `from` character by `to`. */
  function ReplaceChar(s: string, from: char, to: char): (r: string)
    ensures |r| == |s|
    ensures forall i | 0 <= i < |s| :: r[i] == (if s[i] == from then to else s[i])
  {
    if |s| == 0 then "" else [if s[0] == from then to else s[0]] + ReplaceChar(s[1..], from, to)
  }

  function DigitChar(d: nat): char
    requires d < 10
  {
    "0123456789"[d]
  }

  function DigitVal(c: char): nat
    requires IsDigit(c)
  {
    (c as int - '0' as int) as nat
  }

  predicate AllDigits(s: string) {
    forall i | 0 <= i < |s| :: IsDigit(s[i])
  }

  /** `String(n)` for a non-negative integer. */
  function NatToDec(n: nat): (s: string)
    ensures |s| >= 1 && AllDigits(s)
    ensures n >= 10 ==> |s| >= 2
    ensures s[0] == '0' ==> n == 0
  {
    if n < 10 then [DigitChar(n)] else NatToDec(n / 10) + [DigitChar(n % 10)]
  }

  /** `String(i)` for any integer. */
  function IntToDec(i: int): string {
    if i < 0 then "-" + NatToDec(-i) else NatToDec(i)
  }

  /** The value of a string of decimal digits. */
  function DigitsValue(s: string): nat
    requires AllDigits(s)
  {
    if |s| == 0 then 0 else 10 * DigitsValue(s[..|s| - 1]) + DigitVal(s[|s| - 1])
  }

  lemma {:induction false} DigitsOfDec(n: nat)
    ensures DigitsValue(NatToDec(n)) == n
  {
    if n >= 10 {
      var s := NatToDec(n);
      assert s[..|s| - 1] == NatToDec(n / 10);
      DigitsOfDec(n / 10);
    }
  }

  /** The array index a property key names: its canonical decimal form only (`"0"`, `"12"`, not `"012"`). */
  function ParseIndex(k: string): Option<nat> {
    if |k| > 0 && AllDigits(k) && (k == "0" || k[0] != '0') then Some(DigitsValue(k)) else None
  }

  /** An index's key reads back as that index, so distinct indices have distinct keys. */
  lemma IndexKeyRoundTrip(n: nat)
    ensures ParseIndex(NatToDec(n)) == Some(n)
  {
    DigitsOfDec(n);
    if n == 0 {
      assert NatToDec(n) == "0";
    }
  }

  lemma IndexKeyInjective(m: nat, n: nat)
    requires NatToDec(m) == NatToDec(n)
    ensures m == n
  {
    IndexKeyRoundTrip(m);
    IndexKeyRoundTrip(n);
  }

  /** Decimal integer text as `Number` accepts it once trimmed: optional sign, one or more digits. */
  predicate IsIntegerText(s: string) {
    if |s| > 0 && (s[0] == '-' || s[0] == '+') then |s| > 1 && AllDigits(s[1..])
    else |s| > 0 && AllDigits(s)
  }

  function IntegerValue(s: string): int
    requires IsIntegerText(s)
  {
    if s[0] == '-' then -(DigitsValue(s[1..]) as int)
    else if s[0] == '+' then DigitsValue(s[1..])
    else DigitsValue(s)
  }

  /** Printing an integer and reading it back gives the integer. */
  lemma IntegerTextRoundTrip(i: int)
    ensures IsIntegerText(IntToDec(i))
    ensures IntegerValue(IntToDec(i)) == i
  {
    if i < 0 {
      NegativeText(i);
    } else {
      NaturalText(i);
    }
  }

  lemma NegativeText(i: int)
    requires i < 0
    ensures IsIntegerText(IntToDec(i))
    ensures IntegerValue(IntToDec(i)) == i
  {
    DigitsOfDec(-i);
    SignedDigits(NatToDec(-i), -i);
  }

  /** A minus sign before a digit string of value `n` reads as `-n`. */
  lemma SignedDigits(d: string, n: nat)
    requires |d| >= 1 && AllDigits(d) && DigitsValue(d) == n
    ensures IsIntegerText("-" + d)
    ensures IntegerValue("-" + d) == -(n as int)
  {
    var t := "-" + d;
    assert t[0] == '-' && t[1..] == d;
  }

  lemma NaturalText(i: int)
    requires i >= 0
    ensures IsIntegerText(IntToDec(i))
    ensures IntegerValue(IntToDec(i)) == i
  {
    var d := NatToDec(i);
    assert IntToDec(i) == d;
    assert IsDigit(d[0]);
    DigitsOfDec(i);
  }

  /** Integer text never holds white space, a `#`, a `:` or a quote. */
  lemma IntegerTextIsPlain(i: int)
    ensures forall j | 0 <= j < |IntToDec(i)| :: IntToDec(i)[j] == '-' || IsDigit(IntToDec(i)[j])
  {
  }

  /** Printed integers end in a digit. */
  lemma DecEndsInDigit(n: int)
    ensures |IntToDec(n)| > 0 && IsDigit(IntToDec(n)[|IntToDec(n)| - 1])
  {
    IntegerTextRoundTrip(n);
  }

  /** Text that starts and ends with a non-space is its own trim. */
  lemma TrimPlain(g: string)
    requires |g| > 0 && !IsSpace(g[0]) && !IsSpace(g[|g| - 1])
    ensures Trim(g) == g
  {
    assert WsRun(g, 0) == 0;
    assert TrimStart(g) == g;
  }
}
